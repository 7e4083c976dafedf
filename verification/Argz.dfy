/**
 Argz vectors: lists of strings kept in one block, each followed by a NUL byte.
 */
module Argz {
  import opened Wire

  // ----- strings and their order

  ghost predicate NulFree(s: Bytes) { 0 !in s }

  /** `strcmp`: bytes compared as unsigned, a proper prefix coming first. */
  function StrCmp(x: Bytes, y: Bytes): int {
    if x == [] || y == [] then |x| - |y|
    else if x[0] != y[0] then x[0] as int - y[0] as int
    else StrCmp(x[1..], y[1..])
  }

  /** `StrCmp` is a total order. */
  lemma {:induction false} StrCmpOrder(x: Bytes, y: Bytes, z: Bytes)
    ensures StrCmp(x, y) == 0 <==> x == y
    ensures StrCmp(x, y) < 0 <==> StrCmp(y, x) > 0
    ensures StrCmp(x, y) < 0 && StrCmp(y, z) < 0 ==> StrCmp(x, z) < 0
    decreases |x|
  {
    if x != [] && y != [] {
      assert x == [x[0]] + x[1..] && y == [y[0]] + y[1..];
      StrCmpOrder(x[1..], y[1..], if z == [] then [] else z[1..]);
    }
  }

  /** The order of a dictionary: a proper prefix comes first, else the first byte that differs decides. */
  ghost predicate Precedes(x: Bytes, y: Bytes) {
    exists k :: 0 <= k <= |x| && k < |y| && x[..k] == y[..k] && (k == |x| || x[k] < y[k])
  }

  lemma {:induction false} PrecedesTail(x: Bytes, y: Bytes)
    requires x != [] && y != [] && x[0] == y[0]
    ensures Precedes(x, y) <==> Precedes(x[1..], y[1..])
  {
    var u, v := x[1..], y[1..];
    if Precedes(u, v) {
      var k :| 0 <= k <= |u| && k < |v| && u[..k] == v[..k] && (k == |u| || u[k] < v[k]);
      assert x[..k + 1] == [x[0]] + u[..k] && y[..k + 1] == [y[0]] + v[..k];
    }
    if Precedes(x, y) {
      var k :| 0 <= k <= |x| && k < |y| && x[..k] == y[..k] && (k == |x| || x[k] < y[k]);
      assert u[..k - 1] == x[..k][1..] && v[..k - 1] == y[..k][1..];
    }
  }

  /** The sign of `StrCmp` tells which of two strings comes first. */
  lemma {:induction false} StrCmpSign(x: Bytes, y: Bytes)
    ensures StrCmp(x, y) < 0 <==> Precedes(x, y)
    decreases |x|
  {
    if x == [] || y == [] {
      if x == [] && y != [] { assert x[..0] == y[..0]; }
    } else if x[0] == y[0] {
      PrecedesTail(x, y);
      StrCmpSign(x[1..], y[1..]);
    } else {
      if x[0] < y[0] { assert x[..0] == y[..0]; }
      if Precedes(x, y) {
        var k :| 0 <= k <= |x| && k < |y| && x[..k] == y[..k] && (k == |x| || x[k] < y[k]);
        if k > 0 { assert x[..k][0] == y[..k][0]; }
      }
    }
  }

  /** Every string comes before all later ones. */
  ghost predicate Increasing(es: seq<Bytes>) {
    forall i, j :: 0 <= i < j < |es| ==> Precedes(es[i], es[j])
  }

  // ----- lists of strings as blocks

  /** The block that holds a list of strings. */
  ghost function Block(es: seq<Bytes>): Bytes {
    if es == [] then [] else es[0] + [0] + Block(es[1..])
  }

  ghost predicate AllNulFree(es: seq<Bytes>) {
    forall k :: 0 <= k < |es| ==> NulFree(es[k])
  }

  lemma {:induction false} EmptyVector()
    ensures Block([]) == []
  {
  }

  lemma {:induction false} BlockCons(e: Bytes, es: seq<Bytes>)
    ensures Block([e] + es) == e + [0] + Block(es)
  {
  }

  lemma {:induction false} BlockConcat(x: seq<Bytes>, y: seq<Bytes>)
    ensures Block(x + y) == Block(x) + Block(y)
    decreases |x|
  {
    if x == [] {
      assert x + y == y;
    } else {
      assert (x + y)[1..] == x[1..] + y;
      BlockConcat(x[1..], y);
    }
  }

  /** Offset of the `k`-th string. */
  ghost function Offset(es: seq<Bytes>, k: nat): nat
    requires k <= |es|
  {
    |Block(es[..k])|
  }

  /** Where a string and its terminator lie, and what lies around them. */
  lemma {:induction false} BlockAt(es: seq<Bytes>, k: nat)
    requires k < |es|
    ensures Offset(es, k + 1) == Offset(es, k) + |es[k]| + 1 <= |Block(es)|
    ensures Block(es) == Block(es[..k]) + es[k] + [0] + Block(es[k + 1..])
  {
    assert es == es[..k] + es[k..] && es[..k + 1] == es[..k] + [es[k]] && es == es[..k + 1] + es[k + 1..];
    BlockConcat(es[..k], es[k..]);
    BlockConcat(es[..k], [es[k]]);
    assert Block([es[k]]) == es[k] + [0];
    BlockConcat(es[..k + 1], es[k + 1..]);
  }

  lemma {:induction false} OffsetEnds(es: seq<Bytes>)
    ensures Offset(es, 0) == 0 && Offset(es, |es|) == |Block(es)|
  {
    assert es[..0] == [] && es[..|es|] == es;
  }

  /** Length of the string at the front of a block, by its terminator. */
  function StrLen(s: Bytes): (n: nat)
    requires 0 in s
    ensures n < |s| && s[n] == 0 && NulFree(s[..n])
  {
    if s[0] == 0 then 0
    else
      assert s == [s[0]] + s[1..];
      var n := StrLen(s[1..]);
      assert s[..n + 1] == [s[0]] + s[1..][..n];
      n + 1
  }

  /** The terminator scan from anywhere inside a string finds the end of that string. */
  lemma {:induction false} StrLenAt(es: seq<Bytes>, k: nat, at: nat)
    requires k < |es| && AllNulFree(es) && Offset(es, k) <= at < Offset(es, k + 1)
    ensures Offset(es, k + 1) == Offset(es, k) + |es[k]| + 1 <= |Block(es)|
    ensures var s := Block(es)[at..];
            0 in s && at + StrLen(s) + 1 == Offset(es, k + 1) && s[..StrLen(s)] == es[k][at - Offset(es, k)..]
  {
    hide Block;
    BlockAt(es, k);
    var e := es[k][at - Offset(es, k)..];
    var s := Block(es)[at..];
    assert s == e + [0] + Block(es[k + 1..]);
    assert s[|e|] == 0;
    var n := StrLen(s);
    assert forall i :: 0 <= i < |e| ==> s[i] == e[i];
    forall i | 0 <= i < n ensures s[i] != 0 { assert s[..n][i] == s[i]; }
  }

  /** From its start the scan finds a whole string. */
  lemma {:induction false} EntryAt(es: seq<Bytes>, k: nat)
    requires k < |es| && AllNulFree(es)
    ensures Offset(es, k) < Offset(es, k + 1) <= |Block(es)|
    ensures var s := Block(es)[Offset(es, k)..]; 0 in s && s[..StrLen(s)] == es[k]
  {
    hide Block;
    BlockAt(es, k);
    StrLenAt(es, k, Offset(es, k));
    assert es[k][0..] == es[k];
  }

  /** A pointer into the block, or NULL. */
  datatype Cursor = Null | At(offset: nat)

  /** The cursor on the `k`-th string, or NULL past the last. */
  ghost function CursorTo(es: seq<Bytes>, k: nat): Cursor
    requires k <= |es|
  {
    if k == |es| then Null else At(Offset(es, k))
  }

  class Vector {
    var argz: array<Byte>           // no block at all is a block of length 0
    ghost var entries: seq<Bytes>

    ghost predicate Valid()
      reads this, argz
    {
      argz[..] == Block(entries) && AllNulFree(entries)
    }

    constructor ()
      ensures Valid() && entries == [] && fresh(argz)
    {
      argz, entries := new Byte[0], [];
    }

    /** The string after the one that `entry` points into; with NULL, the first one. */
    method Next(entry: Cursor, ghost k: nat) returns (next: Cursor)
      requires Valid()
      requires entry.At? ==> k < |entries| && Offset(entries, k) <= entry.offset < Offset(entries, k + 1)
      ensures next == if entry.At? then CursorTo(entries, k + 1) else CursorTo(entries, 0)
    {
      OffsetEnds(entries);
      if entry.At? {
        StrLenAt(entries, k, entry.offset);
        var after := entry.offset + StrLen(argz[..][entry.offset..]) + 1;
        if k + 1 < |entries| { BlockAt(entries, k + 1); }
        return if after >= argz.Length then Null else At(after);
      }
      if entries != [] { BlockAt(entries, 0); }
      return if argz.Length > 0 then At(0) else Null;
    }

    /** A larger block with the same beginning. */
    method Realloc(size: nat)
      requires argz.Length <= size
      modifies this`argz
      ensures fresh(argz) && argz.Length == size && argz[..][..old(argz.Length)] == old(argz[..])
    {
      var grown := new Byte[size](_ => 0);
      forall i | 0 <= i < argz.Length {
        grown[i] := argz[i];
      }
      assert grown[..][..argz.Length] == argz[..];
      argz := grown;
    }

    /** Copies bytes into the block. */
    method MemCpy(at: nat, buf: Bytes)
      requires at + |buf| <= argz.Length
      modifies argz
      ensures argz[..] == old(argz[..])[..at] + buf + old(argz[..])[at + |buf|..]
    {
      forall i | 0 <= i < |buf| {
        argz[at + i] := buf[i];
      }
    }

    /** Moves everything from `at` on up by `gap`; as many bytes at the end are lost. */
    method MemMove(at: nat, gap: nat)
      requires at + gap <= argz.Length
      modifies argz
      ensures argz[..] == old(argz[..])[..at + gap] + old(argz[..])[at..argz.Length - gap]
    {
      forall i | at + gap <= i < argz.Length {
        argz[i] := argz[i - gap];
      }
    }

    /** Appends raw bytes to the block. */
    method AppendBlock(buf: Bytes)
      modifies this`argz
      ensures argz[..] == old(argz[..]) + buf && (argz == old(argz) || fresh(argz))
    {
      if buf == [] {
        return;
      }
      var n := argz.Length;
      Realloc(n + |buf|);
      ghost var wide := argz[..];
      MemCpy(n, buf);
      assert wide[n + |buf|..] == [];
    }

    /** Opens a gap in the block and copies a string into it. */
    method InsertBlock(at: nat, entry: Bytes)
      requires at <= argz.Length
      modifies this`argz
      ensures argz[..] == old(argz[..])[..at] + (entry + [0]) + old(argz[..])[at..] && fresh(argz)
    {
      var n, e := argz.Length, entry + [0];
      ghost var was := argz[..];
      Realloc(n + |e|);
      ghost var wide := argz[..];
      MemMove(at, |e|);
      ghost var moved := argz[..];
      MemCpy(at, e);
      Spliced(was, wide, moved, argz[..], at, e);
    }

    /** Scans back to the start of the string that an offset lies in. */
    method EntryFront(offset: nat, ghost k: nat) returns (at: nat)
      requires Valid() && k < |entries| && Offset(entries, k) <= offset < Offset(entries, k + 1)
      ensures at == Offset(entries, k) <= argz.Length
    {
      hide Block, Offset;
      BlockAt(entries, k);
      EntryBounds(entries, k);
      assert Offset(entries, k) > 0 ==> argz[..][Offset(entries, k) - 1] == 0;
      assert forall j :: Offset(entries, k) <= j < Offset(entries, k) + |entries[k]| ==> argz[..][j] != 0;
      at := offset;
      while at > 0 && argz[at - 1] != 0
        invariant Offset(entries, k) <= at <= offset
      {
        at := at - 1;
      }
    }

    /** Inserts a string before the one that the cursor points into, or at the end. */
    method Insert(before: Cursor, entry: Bytes, ghost k: nat)
      requires Valid() && NulFree(entry) && k <= |entries|
      requires if before.Null? then k == |entries|
               else k < |entries| && Offset(entries, k) <= before.offset < Offset(entries, k + 1)
      modifies this
      ensures Valid() && entries == old(entries[..k] + [entry] + entries[k..]) && fresh(argz)
    {
      hide Block, Offset;
      BlockInsert(entries, k, entry);
      BlockCut(entries, k);
      if before.Null? {
        OffsetEnds(entries);
        EmptyVector();
        AppendBlock(entry + [0]);
        assert entries[k..] == [] && entries[..k] == entries;
      } else {
        var at := EntryFront(before.offset, k);
        InsertBlock(at, entry);
      }
      entries := entries[..k] + [entry] + entries[k..];
    }

    /** Inserts a string unless it is there already, keeping the list in order. */
    method InsertInOrder(entry: Bytes)
      requires Valid() && NulFree(entry) && entry != [] && Increasing(entries)
      modifies this
      ensures Valid() && Increasing(entries)
      ensures forall s :: s in entries <==> s in old(entries) || s == entry
      ensures argz == old(argz) || fresh(argz)
    {
      hide StrCmp, Precedes;
      var before := Null;
      ghost var k := 0;
      if argz.Length > 0 {
        before := Next(before, 0);
        while before.At?
          invariant k <= |entries| && before == CursorTo(entries, k)
          invariant forall i :: 0 <= i < k ==> StrCmp(entries[i], entry) < 0
          modifies {}
          decreases |entries| - k
        {
          EntryAt(entries, k);
          var tail := argz[..][before.offset..];
          var cmp := StrCmp(entry, tail[..StrLen(tail)]);
          StrCmpOrder(entry, entries[k], entry);
          StrCmpOrder(entries[k], entry, entry);
          if cmp < 0 {
            break;
          }
          if cmp == 0 {
            assert entry in entries;
            return;
          }
          before := Next(before, k);
          k := k + 1;
        }
      }
      if argz.Length == 0 { EmptyBlock(entries); }
      if k < |entries| { BlockAt(entries, k); }
      InsertedInOrder(entries, k, entry);
      Insert(before, entry, k);
    }

    /** Any number of insertions into an empty vector: the strictly increasing list of the strings inserted. */
    method InsertAll(inputs: seq<Bytes>)
      requires Valid() && entries == []
      requires forall i :: 0 <= i < |inputs| ==> NulFree(inputs[i]) && inputs[i] != []
      modifies this
      ensures Valid() && Increasing(entries)
      ensures forall s :: s in entries <==> s in inputs
    {
      for n := 0 to |inputs|
        invariant Valid() && Increasing(entries)
        invariant forall s :: s in entries <==> s in inputs[..n]
      {
        InsertInOrder(inputs[n]);
      }
    }
  }

  /** Widening a block, moving its end up and filling the gap splices `e` in. */
  lemma {:induction false} Spliced(was: Bytes, wide: Bytes, moved: Bytes, filled: Bytes, at: nat, e: Bytes)
    requires at <= |was| && |wide| == |was| + |e| && wide[..|was|] == was
    requires moved == wide[..at + |e|] + wide[at..|was|]
    requires filled == moved[..at] + e + moved[at + |e|..]
    ensures filled == was[..at] + e + was[at..]
  {
  }

  lemma {:induction false} EmptyBlock(es: seq<Bytes>)
    requires |Block(es)| == 0
    ensures es == []
  {
  }

  lemma {:induction false} BlockCut(es: seq<Bytes>, k: nat)
    requires k <= |es|
    ensures Offset(es, k) <= |Block(es)|
    ensures Block(es)[..Offset(es, k)] == Block(es[..k]) && Block(es)[Offset(es, k)..] == Block(es[k..])
  {
    assert es == es[..k] + es[k..];
    BlockConcat(es[..k], es[k..]);
  }

  /** A string that is not the first follows a terminator. */
  lemma {:induction false} EntryStart(es: seq<Bytes>, k: nat)
    requires 0 < k < |es|
    ensures 0 < Offset(es, k) <= |Block(es)| && Block(es)[Offset(es, k) - 1] == 0
  {
    BlockAt(es, k - 1);
    hide Block;
    var a, e := Block(es[..k - 1]), es[k - 1];
    assert Offset(es, k - 1) == |a|;
    assert (a + e + [0] + Block(es[k..]))[|a| + |e|] == 0;
  }

  /** The terminator before a string, and none inside it. */
  lemma {:induction false} EntryBounds(es: seq<Bytes>, k: nat)
    requires k < |es| && AllNulFree(es)
    ensures Offset(es, k) + |es[k]| < |Block(es)|
    ensures Offset(es, k) > 0 ==> Block(es)[Offset(es, k) - 1] == 0
    ensures forall j :: Offset(es, k) <= j < Offset(es, k) + |es[k]| ==> Block(es)[j] != 0
  {
    hide Block;
    BlockAt(es, k);
    OffsetEnds(es);
    if k > 0 { EntryStart(es, k); }
    var a := Block(es[..k]);
    forall j | |a| <= j < |a| + |es[k]| ensures Block(es)[j] != 0 {
      assert Block(es)[j] == es[k][j - |a|];
    }
  }

  lemma {:induction false} BlockInsert(es: seq<Bytes>, k: nat, entry: Bytes)
    requires k <= |es|
    ensures Block(es[..k] + [entry] + es[k..]) == Block(es[..k]) + (entry + [0]) + Block(es[k..])
  {
    BlockConcat(es[..k] + [entry], es[k..]);
    BlockConcat(es[..k], [entry]);
    assert Block([entry]) == entry + [0] + Block([]);
  }

  lemma {:induction false} InsertedInOrder(es: seq<Bytes>, k: nat, entry: Bytes)
    requires k <= |es| && Increasing(es)
    requires forall i :: 0 <= i < k ==> StrCmp(es[i], entry) < 0
    requires k < |es| ==> StrCmp(entry, es[k]) < 0
    ensures Increasing(es[..k] + [entry] + es[k..])
    ensures forall s :: s in es[..k] + [entry] + es[k..] <==> s in es || s == entry
  {
    hide StrCmp, Precedes;
    var r := es[..k] + [entry] + es[k..];
    assert es == es[..k] + es[k..];
    forall i, j | 0 <= i < j < |r| ensures Precedes(r[i], r[j]) {
      StrCmpSign(r[i], r[j]);
      if i == k && j > k + 1 {
        StrCmpSign(es[k], es[j - 1]);
        StrCmpOrder(entry, es[k], es[j - 1]);
      } else if j > k && i < k {
        assert r[j] == if j == k then entry else es[j - 1];
      }
    }
  }
}
