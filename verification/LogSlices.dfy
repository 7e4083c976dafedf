/**
 Slicing binary logs. A record without keys uses the last key list before it, so that cutting a log
 anywhere else than at a key list means writing the first record of the piece with its keys spelled out.
 */
module LogSlices {
  import opened Wire
  import opened LogKeys

  /**
   A record: the keys it lists, if any, its values, its length in the file, and the length it would have with the
   keys in force spelled out.
   */
  datatype Record = Record(keys: seq<Key>, values: Bytes, length: nat, fullLength: nat)

  type Log = seq<Record>

  /** Bytes of a record in a file, with the length field in front. */
  function Cost(length: nat): nat { 8 + length }

  /** The key list in force after a log, when `keys` was in force before it. */
  function InForce(log: Log, keys: seq<Key>): seq<Key> {
    if log == [] then keys
    else if log[|log| - 1].keys != [] then log[|log| - 1].keys
    else InForce(log[..|log| - 1], keys)
  }

  /** A row of a log: the keys that apply and the values. */
  datatype Row = Row(keys: seq<Key>, values: Bytes)

  /** What a log means: every record with the keys that apply to it. */
  ghost function Rows(log: Log): (rows: seq<Row>)
    ensures |rows| == |log|
  {
    if log == [] then []
    else Rows(log[..|log| - 1]) + [Row(InForce(log, []), log[|log| - 1].values)]
  }

  lemma {:induction false} RowsPush(log: Log, r: Record)
    ensures InForce(log + [r], []) == if r.keys != [] then r.keys else InForce(log, [])
    ensures Rows(log + [r]) == Rows(log) + [Row(InForce(log + [r], []), r.values)]
  {
  }

  /** The rows of several files, one file after the other, each file read on its own. */
  ghost function AllRows(files: seq<Log>): seq<Row> {
    if files == [] then [] else AllRows(files[..|files| - 1]) + Rows(files[|files| - 1])
  }

  lemma {:induction false} AllRowsNew(files: seq<Log>, f: Log)
    ensures AllRows(files + [f]) == AllRows(files) + Rows(f)
  {
  }

  /** One more record in the last file. */
  function Append(files: seq<Log>, r: Record): (fs: seq<Log>)
    requires files != []
    ensures |fs| == |files|
  {
    files[|files| - 1 := files[|files| - 1] + [r]]
  }

  lemma {:induction false} AllRowsPush(files: seq<Log>, r: Record)
    requires files != []
    ensures AllRows(Append(files, r)) == AllRows(files) + [Row(InForce(files[|files| - 1] + [r], []), r.values)]
  {
  }

  /** Bytes of the records of a log: each after its length in eight bytes. */
  ghost function Bulk(log: Log): nat {
    if log == [] then 0 else Bulk(log[..|log| - 1]) + (8 + log[|log| - 1].length)
  }

  lemma {:induction false} BulkPush(log: Log, r: Record)
    ensures Bulk(log + [r]) == Bulk(log) + Cost(r.length)
  {
  }

  // ----- splitting

  /** The files, each read on its own, hold the rows of the records fed so far. */
  ghost predicate FaithfulOn(files: seq<Log>, fed: Log, keys: seq<Key>, open: bool) {
    && keys == InForce(fed, [])
    && AllRows(files) == Rows(fed)
    && (open ==> files != [] && InForce(files[|files| - 1], []) == keys)
  }

  /**
   Record `r` written as `w`: as it is, or, first in its file and without keys, with the keys in force spelled out.
   */
  lemma {:induction false} FaithfulStep(files: seq<Log>, fed: Log, keys: seq<Key>, open: bool, r: Record, w: Record)
    requires FaithfulOn(files, fed, keys, open)
    requires w.values == r.values && w.keys == if r.keys != [] || open then r.keys else keys
    ensures var fs := if open then files else files + [[]];
            FaithfulOn(Append(fs, w), fed + [r], if r.keys != [] then r.keys else keys, true)
  {
    var fs := if open then files else files + [[]];
    AllRowsNew(files, []);
    AllRowsPush(fs, w);
    RowsPush(fs[|fs| - 1], w);
    RowsPush(fed, r);
    assert AllRows(files) + [] == AllRows(files);
  }

  /**
   Byte counts while splitting: `bulk` bytes of input so far, of which `closed` went to finished parts. A part but the
   first may hold more bytes than it took from the input, but less than `partSize` more.
   */
  ghost predicate CountedOn(parts: nat, size: nat, partSize: nat, part: nat, desired: nat, written: nat, bulk: nat,
      closed: nat) {
    && closed <= bulk
    && part <= parts
    && desired == (if part == parts then size else partSize)
    && (written == 0 <==> closed == bulk)
    && (part == 0 <==> bulk == 0)
    && (part == parts ==> written > 0)
    && (part >= 1 && written == 0 ==> closed >= partSize)
    && (part >= 2 ==> closed >= partSize && written < bulk - closed + partSize)
    && (part == 1 ==> written <= bulk - closed)
  }

  lemma {:induction false} CountedStep(parts: nat, size: nat, partSize: nat, part: nat, desired: nat, written: nat,
      bulk: nat, closed: nat,
                    cost: nat, spent: nat, copied: bool)
    requires CountedOn(parts, size, partSize, part, desired, written, bulk, closed)
    requires parts >= 2 && partSize > 0 && bulk + cost <= size && cost > 0 && spent > 0
    requires if copied then bulk > 0 && written == 0 && spent < cost + partSize else spent == cost
    ensures var part' := if written == 0 then part + 1 else part;
            var desired' := if written == 0 && part' == parts then size else desired;
            if !copied && written + spent >= desired' then
              CountedOn(parts, size, partSize, part', desired', 0, bulk + cost, bulk + cost)
            else CountedOn(parts, size, partSize, part', desired', written + spent, bulk + cost, closed)
  {
  }

  // ----- where the cuts are

  /** Records `lo` up to but excluding `hi` of a log as a file: the first has its keys spelled out if it lists none. */
  ghost predicate Piece(f: Log, log: Log, lo: nat, hi: nat) {
    && lo < hi <= |log| && |f| == hi - lo && f[1..] == log[lo + 1..hi]
    && var r := log[lo];
    && f[0] == if r.keys != [] then r else Record(InForce(log[..lo], []), r.values, r.fullLength, r.fullLength)
  }

  /** No shorter beginning of a file has reached the target, a first record with its keys spelled out excepted. */
  ghost predicate Lean(f: Log, rekeyed: bool, target: nat) {
    forall m :: 0 < m < |f| ==> Bulk(f[..m]) < target || (m == 1 && rekeyed)
  }

  /** A file is full once it has reached the target; one record with its keys spelled out does not fill it. */
  ghost predicate Full(f: Log, rekeyed: bool, target: nat) {
    Bulk(f) >= target && !(|f| == 1 && rekeyed)
  }

  /** The size at which part `k`, counted from 0, is full. */
  function Target(k: nat, parts: nat, size: nat): nat
    requires parts > 0
  {
    if k + 1 < parts then size / parts else size
  }

  /** One past the last record of part `k`. */
  ghost function EndOf(starts: seq<nat>, k: nat, n: nat): nat {
    if k + 1 < |starts| then starts[k + 1] else n
  }

  /** Part `k` starts at its record, holds the records up to the next part, and is cut as soon as it is full. */
  ghost predicate CutAt(files: seq<Log>, starts: seq<nat>, log: Log, k: nat, target: nat)
    requires k < |files| == |starts|
  {
    && Piece(files[k], log, starts[k], EndOf(starts, k, |log|))
    && Lean(files[k], log[starts[k]].keys == [], target)
    && (k + 1 < |files| ==> Full(files[k], log[starts[k]].keys == [], target))
  }

  /** The files cut the log into pieces, in order and without gaps, each cut as soon as it is full. */
  ghost predicate CutOn(files: seq<Log>, starts: seq<nat>, log: Log, parts: nat, size: nat)
    requires parts > 0
  {
    && |starts| == |files| && (files == [] <==> log == []) && (starts != [] ==> starts[0] == 0)
    && forall k :: 0 <= k < |files| ==> CutAt(files, starts, log, k, Target(k, parts, size))
  }

  /** The last file is full, if there is one. */
  ghost predicate LastFull(files: seq<Log>, starts: seq<nat>, log: Log, parts: nat, size: nat)
    requires parts > 0 && |starts| == |files|
  {
    files == [] || (var k := |files| - 1;
                    starts[k] < |log| && Full(files[k], log[starts[k]].keys == [], Target(k, parts, size)))
  }

  lemma {:induction false} PieceGrow(f: Log, log: Log, lo: nat, hi: nat, r: Record)
    requires Piece(f, log, lo, hi)
    ensures Piece(f, log + [r], lo, hi) && (log + [r])[lo] == log[lo]
  {
    var all := log + [r];
    assert all[lo + 1..hi] == log[lo + 1..hi] && all[..lo] == log[..lo];
  }

  lemma {:induction false} PieceExtend(f: Log, log: Log, lo: nat, r: Record)
    requires Piece(f, log, lo, |log|)
    ensures Piece(f + [r], log + [r], lo, |log| + 1) && (log + [r])[lo] == log[lo]
  {
    var all := log + [r];
    assert (f + [r])[1..] == f[1..] + [r];
    assert all[lo + 1..|all|] == log[lo + 1..|log|] + [r] && all[..lo] == log[..lo];
  }

  lemma {:induction false} PieceNew(log: Log, r: Record, w: Record)
    requires w == if r.keys != [] then r else Record(InForce(log, []), r.values, r.fullLength, r.fullLength)
    ensures Piece([w], log + [r], |log|, |log| + 1)
  {
    var all := log + [r];
    assert all[..|log|] == log && all[|log| + 1..|log| + 1] == [];
  }

  /** One more record in a file that was not full. */
  lemma {:induction false} LeanExtend(f: Log, rekeyed: bool, target: nat, r: Record)
    requires Lean(f, rekeyed, target) && !Full(f, rekeyed, target) && f != []
    ensures Lean(f + [r], rekeyed, target)
  {
    hide Bulk;
    var g := f + [r];
    forall m | 0 < m < |g| ensures Bulk(g[..m]) < target || (m == 1 && rekeyed) {
      if m < |f| { assert g[..m] == f[..m]; } else { assert g[..m] == f; }
    }
  }

  /** A part that the next record leaves alone. */
  lemma {:induction false} CutKept(files: seq<Log>, starts: seq<nat>, files': seq<Log>, starts': seq<nat>, log: Log,
      r: Record, k: nat, target: nat)
    requires |files| == |starts| && |files'| == |starts'| && k < |files| && k < |files'|
    requires CutAt(files, starts, log, k, target) && files'[k] == files[k] && starts'[k] == starts[k]
    requires EndOf(starts', k, |log| + 1) == EndOf(starts, k, |log|)
    requires k + 1 < |files'| ==> Full(files[k], log[starts[k]].keys == [], target)
    ensures CutAt(files', starts', log + [r], k, target)
  {
    hide Piece, Lean, Full;
    PieceGrow(files[k], log, starts[k], EndOf(starts, k, |log|), r);
    PieceBounds(files[k], log, starts[k], EndOf(starts, k, |log|));
  }

  lemma {:induction false} PieceBounds(f: Log, log: Log, lo: nat, hi: nat)
    requires Piece(f, log, lo, hi)
    ensures lo < |log| && hi <= |log| && f != []
  {
  }

  /** A record that goes to the last file. */
  lemma {:induction false} CutExtend(files: seq<Log>, starts: seq<nat>, log: Log, parts: nat, size: nat, r: Record)
    requires parts > 0 && CutOn(files, starts, log, parts, size) && !LastFull(files, starts, log, parts, size)
    ensures CutOn(Append(files, r), starts, log + [r], parts, size)
  {
    hide Piece, Lean, Full;
    var n := |files| - 1;
    var files' := Append(files, r);
    forall k | 0 <= k < |files| ensures CutAt(files', starts, log + [r], k, Target(k, parts, size)) {
      assert CutAt(files, starts, log, k, Target(k, parts, size));
      if k < n {
        CutKept(files, starts, files', starts, log, r, k, Target(k, parts, size));
      } else {
        PieceExtend(files[n], log, starts[n], r);
        PieceBounds(files[n], log, starts[n], |log|);
        LeanExtend(files[n], log[starts[n]].keys == [], Target(n, parts, size), r);
      }
    }
  }

  /** A record that opens a file. */
  lemma {:induction false} CutNew(files: seq<Log>, starts: seq<nat>, log: Log, parts: nat, size: nat, r: Record,
      w: Record)
    requires parts > 0 && CutOn(files, starts, log, parts, size) && LastFull(files, starts, log, parts, size)
    requires w == if r.keys != [] then r else Record(InForce(log, []), r.values, r.fullLength, r.fullLength)
    ensures CutOn(files + [[w]], starts + [|log|], log + [r], parts, size)
  {
    hide Piece, Full, InForce;
    var files', starts' := files + [[w]], starts + [|log|];
    forall k | 0 <= k < |files'| ensures CutAt(files', starts', log + [r], k, Target(k, parts, size)) {
      if k < |files| {
        assert CutAt(files, starts, log, k, Target(k, parts, size));
        CutKept(files, starts, files', starts', log, r, k, Target(k, parts, size));
      } else {
        PieceNew(log, r, w);
      }
    }
  }

  /** Cut so far, with `written` bytes in the last file; 0 once it is full. */
  ghost predicate CutSoFar(files: seq<Log>, starts: seq<nat>, log: Log, parts: nat, size: nat, written: nat)
    requires parts > 0
  {
    && CutOn(files, starts, log, parts, size)
    && (written == 0 <==> LastFull(files, starts, log, parts, size))
    && (written > 0 ==> files != [] && written == Bulk(files[|files| - 1]))
  }

  /** One more record, written as `w`. */
  lemma {:induction false} CutStep(files: seq<Log>, starts: seq<nat>, log: Log, parts: nat, size: nat, written: nat,
      r: Record, w: Record)
    requires parts > 0 && CutSoFar(files, starts, log, parts, size, written)
    requires w == if r.keys != [] || written > 0 then r
                  else Record(InForce(log, []), r.values, r.fullLength, r.fullLength)
    ensures var files' := Append(if written == 0 then files + [[]] else files, w);
            var starts' := if written == 0 then starts + [|log|] else starts;
            var total := written + Cost(w.length);
            var full := total >= Target(|files'| - 1, parts, size) && !(written == 0 && r.keys == []);
            CutSoFar(files', starts', log + [r], parts, size, if full then 0 else total)
  {
    hide CutOn, InForce, Bulk;
    var all := log + [r];
    if written == 0 {
      var files' := files + [[w]];
      AppendNew(files, w);
      CutSizes(files, starts, log, parts, size);
      CutNew(files, starts, log, parts, size, r, w);
      EmptyBulk();
      BulkPush([], w);
      assert [] + [w] == [w];
    } else {
      var k := |files| - 1;
      CutSizes(files, starts, log, parts, size);
      CutExtend(files, starts, log, parts, size, r);
      BulkPush(files[k], r);
    }
  }

  lemma {:induction false} CutSizes(files: seq<Log>, starts: seq<nat>, log: Log, parts: nat, size: nat)
    requires parts > 0 && CutOn(files, starts, log, parts, size)
    ensures |starts| == |files| && forall k :: 0 <= k < |files| ==> starts[k] < |log| && files[k] != []
  {
    hide Lean, Full;
    forall k | 0 <= k < |files| ensures starts[k] < |log| && files[k] != [] {
      assert CutAt(files, starts, log, k, Target(k, parts, size));
    }
  }

  lemma {:induction false} AppendNew(files: seq<Log>, w: Record)
    ensures Append(files + [[]], w) == files + [[w]]
  {
    assert [] + [w] == [w];
  }

  lemma {:induction false} EmptyBulk()
    ensures Bulk([]) == 0
  {
  }

  class Splitter {
    const parts: nat
    const size: nat            // size of the input file
    const partSize: nat

    var keys: seq<Key>
    var written: nat           // bytes in the current part; 0 when the next record opens a new one
    var part: nat
    var desired: nat
    var files: seq<Log>

    ghost var fed: Log         // records seen so far
    ghost var closed: nat      // bytes, in the input, of the records of finished parts
    ghost var starts: seq<nat> // the record at which each part starts

    ghost predicate Faithful()
      reads this
    {
      |files| == part && FaithfulOn(files, fed, keys, written > 0)
    }

    ghost predicate Counted()
      reads this
    {
      CountedOn(parts, size, partSize, part, desired, written, Bulk(fed), closed)
    }

    /** The records seen so far are cut where parts are full, and the current part is full or counted in `written`. */
    ghost predicate Cut()
      reads this
    {
      && parts > 0 && partSize == size / parts && desired == (if part < parts then partSize else size)
      && |files| == part && CutSoFar(files, starts, fed, parts, size, written)
    }

    /** The log fits the file, its first record carries keys, and re-adding keys costs less than a part. */
    ghost predicate Moderate(log: Log) {
      && Bulk(log) <= size
      && (log != [] ==> log[0].keys != [])
      && forall i :: 0 <= i < |log| ==> log[i].fullLength < log[i].length + partSize
    }

    constructor (parts: nat, size: nat)
      requires parts >= 2 && size / parts >= 10 * 1024 * 1024
      ensures this.parts == parts && this.size == size && partSize == size / parts
      ensures fed == [] && Faithful() && Counted() && Cut()
    {
      this.parts, this.size, partSize := parts, size, size / parts;
      keys, written, part, desired, files := [], 0, 0, size / parts, [];
      fed, closed, starts := [], 0, [];
    }

    /** Adds a record to the current file. */
    method Write(w: Record)
      requires files != []
      modifies this`files, this`written
      ensures files == Append(old(files), w)
      ensures written == old(written) + Cost(w.length)
    {
      files := Append(files, w);
      written := written + Cost(w.length);
    }

    lemma {:induction false} ModerateLast(log: Log, r: Record)
      requires Moderate(log + [r])
      ensures Bulk(log) + Cost(r.length) <= size && r.fullLength < r.length + partSize
      ensures r.keys == [] ==> Bulk(log) > 0
    {
    }

    /** The record as it is written: as it came, or, first in its part and without keys, with the keys in force. */
    function Written(r: Record): Record
      reads this
    {
      if r.keys != [] || written > 0 then r else Record(keys, r.values, r.fullLength, r.fullLength)
    }

    /** The callback on one record of the input. */
    method Callback(r: Record)
      requires written > 0 ==> files != []
      modifies this
      ensures fed == old(fed) + [r] && keys == (if r.keys != [] then r.keys else old(keys))
      ensures part == (if old(written) == 0 then old(part) + 1 else old(part))
      ensures desired == (if old(written) == 0 && part == parts then size else old(desired))
      ensures files == Append(if old(written) == 0 then old(files) + [[]] else old(files), old(Written(r)))
      ensures var total := old(written) + Cost(old(Written(r)).length);
              if total >= desired && !(old(written) == 0 && r.keys == []) then written == 0 && closed == Bulk(fed)
              else written == total && closed == old(closed)
      ensures starts == if old(written) == 0 then old(starts) + [|old(fed)|] else old(starts)
    {
      hide Bulk, Append;
      fed := fed + [r];
      if written == 0 {
        part := part + 1;
        if part == parts {
          desired := size;
        }
        files, starts := files + [[]], starts + [|fed| - 1];
      }
      if r.keys != [] {
        keys := r.keys;
      } else if written == 0 {
        Write(Record(keys, r.values, r.fullLength, r.fullLength));
        return;
      }
      Write(r);
      if written >= desired {
        written := 0;
        closed := Bulk(fed);
      }
    }

    /** The callback keeps the parts faithful, and under moderate lengths keeps their number down. */
    method Feed(r: Record)
      requires Faithful() && Cut()
      modifies this
      ensures Faithful() && Cut() && fed == old(fed) + [r]
      ensures parts >= 2 && partSize > 0 && old(Counted()) && Moderate(fed) ==> Counted()
    {
      hide FaithfulOn, CountedOn, Bulk, Append, Moderate, InForce, CutSoFar;
      FaithfulOpen(files, fed, keys, written > 0);
      ghost var open, w := written > 0, Written(r);
      FaithfulStep(files, fed, keys, open, r, w);
      BulkPush(fed, r);
      FaithfulKeys(files, fed, keys, open);
      CutStep(files, starts, fed, parts, size, written, r, w);
      Callback(r);
      FaithfulClosed(files, fed, keys);
      if parts >= 2 && partSize > 0 && old(Counted()) && Moderate(fed) {
        ModerateLast(old(fed), r);
        CountedStep(parts, size, partSize, old(part), old(desired), old(written), Bulk(old(fed)), old(closed),
                    Cost(r.length), Cost(w.length), r.keys == [] && !open);
      }
    }

    /**
     A whole log: the parts hold its rows in order, every part is cut at the first record with which it is full, and
     under moderate lengths there are no more parts than asked for.
     */
    method Split(log: Log)
      requires Faithful() && fed == [] && Counted() && Cut() && parts >= 2 && partSize > 0
      modifies this
      ensures AllRows(files) == Rows(log)
      ensures CutOn(files, starts, log, parts, size)
      ensures Moderate(log) ==> |files| <= parts
    {
      hide FaithfulOn, CutOn, LastFull;
      for i := 0 to |log|
        invariant Faithful() && Cut() && fed == log[..i]
        invariant Moderate(log) ==> Counted()
      {
        Feed(log[i]);
        assert log[..i] + [log[i]] == log[..i + 1];
        if Moderate(log) { ModeratePrefix(log, i + 1); }
      }
      assert log[..|log|] == log;
      FaithfulRows(files, fed, keys, written > 0);
    }

    lemma {:induction false} ModeratePrefix(log: Log, n: nat)
      requires Moderate(log) && n <= |log|
      ensures Moderate(log[..n])
    {
      BulkPrefix(log, n);
    }
  }

  lemma {:induction false} FaithfulOpen(files: seq<Log>, fed: Log, keys: seq<Key>, open: bool)
    requires FaithfulOn(files, fed, keys, open)
    ensures open ==> files != []
  {
  }

  lemma {:induction false} FaithfulKeys(files: seq<Log>, fed: Log, keys: seq<Key>, open: bool)
    requires FaithfulOn(files, fed, keys, open)
    ensures keys == InForce(fed, [])
  {
  }

  lemma {:induction false} FaithfulClosed(files: seq<Log>, fed: Log, keys: seq<Key>)
    requires FaithfulOn(files, fed, keys, true)
    ensures FaithfulOn(files, fed, keys, false)
  {
  }

  lemma {:induction false} FaithfulRows(files: seq<Log>, fed: Log, keys: seq<Key>, open: bool)
    requires FaithfulOn(files, fed, keys, open)
    ensures AllRows(files) == Rows(fed)
  {
  }

  lemma {:induction false} BulkPrefix(log: Log, n: nat)
    requires n <= |log|
    ensures Bulk(log[..n]) <= Bulk(log)
    decreases |log|
  {
    if n < |log| {
      BulkPrefix(log[..|log| - 1], n);
      assert log[..|log| - 1][..n] == log[..n];
    } else {
      assert log[..n] == log;
    }
  }

  // ----- extracting the stretches where a key is logged

  /** A stretch of rows, from `lo` up to but excluding `hi`. */
  datatype Stretch = Stretch(lo: nat, hi: nat)

  ghost predicate Covered(runs: seq<Stretch>, t: nat) {
    exists i :: 0 <= i < |runs| && runs[i].lo <= t < runs[i].hi
  }

  /**
   `runs` are the maximal stretches of rows whose keys include `key`: in order, apart, and covering exactly those
   rows.
   */
  ghost predicate MaximalRuns(rows: seq<Row>, key: Key, runs: seq<Stretch>) {
    && (forall i :: 0 <= i < |runs| ==> runs[i].lo < runs[i].hi <= |rows|)
    && (forall i, j :: 0 <= i < j < |runs| ==> runs[i].hi < runs[j].lo)
    && (forall t :: 0 <= t < |rows| ==> (key in rows[t].keys <==> Covered(runs, t)))
  }

  /** Every file, read on its own, holds one stretch. */
  ghost predicate HoldsRuns(rows: seq<Row>, runs: seq<Stretch>, files: seq<Log>) {
    && |files| == |runs|
    && forall i :: 0 <= i < |runs| ==>
        runs[i].lo <= runs[i].hi <= |rows| && Rows(files[i]) == rows[runs[i].lo..runs[i].hi]
  }

  /** A row without the key leaves the stretches as they are. */
  lemma {:induction false} RunsSkip(rows: seq<Row>, key: Key, runs: seq<Stretch>, files: seq<Log>, row: Row)
    requires MaximalRuns(rows, key, runs) && HoldsRuns(rows, runs, files) && key !in row.keys
    ensures MaximalRuns(rows + [row], key, runs) && HoldsRuns(rows + [row], runs, files)
  {
    hide Rows;
    var all := rows + [row];
    forall t | 0 <= t < |all| ensures key in all[t].keys <==> Covered(runs, t) {
      if t < |rows| { assert all[t] == rows[t]; }
    }
    forall i | 0 <= i < |runs| ensures Rows(files[i]) == all[runs[i].lo..runs[i].hi] {
      assert all[runs[i].lo..runs[i].hi] == rows[runs[i].lo..runs[i].hi];
    }
  }

  /** A row with the key, after one without, starts a stretch. */
  lemma {:induction false} RunsOpen(rows: seq<Row>, key: Key, runs: seq<Stretch>, row: Row)
    requires MaximalRuns(rows, key, runs) && key in row.keys
    requires rows != [] ==> key !in rows[|rows| - 1].keys
    ensures MaximalRuns(rows + [row], key, runs + [Stretch(|rows|, |rows| + 1)])
  {
    var all, more := rows + [row], runs + [Stretch(|rows|, |rows| + 1)];
    assert rows != [] ==> !Covered(runs, |rows| - 1);
    assert forall i :: 0 <= i < |runs| ==> runs[i].hi < |rows|;
    forall t | 0 <= t < |all| ensures key in all[t].keys <==> Covered(more, t) {
      if t < |rows| {
        assert all[t] == rows[t];
        if Covered(runs, t) {
          var i :| 0 <= i < |runs| && runs[i].lo <= t < runs[i].hi;
          assert more[i] == runs[i];
        }
        if Covered(more, t) {
          var i :| 0 <= i < |more| && more[i].lo <= t < more[i].hi;
          assert more[i] == runs[i];
        }
      } else {
        assert more[|runs|].lo <= t < more[|runs|].hi;
      }
    }
  }

  lemma {:induction false} HoldsOpen(rows: seq<Row>, runs: seq<Stretch>, files: seq<Log>, row: Row, f: Log)
    requires HoldsRuns(rows, runs, files) && Rows(f) == [row]
    ensures HoldsRuns(rows + [row], runs + [Stretch(|rows|, |rows| + 1)], files + [f])
  {
    hide Rows;
    var all, more := rows + [row], runs + [Stretch(|rows|, |rows| + 1)];
    forall i | 0 <= i < |more| ensures Rows((files + [f])[i]) == all[more[i].lo..more[i].hi] {
      if i < |runs| { assert all[runs[i].lo..runs[i].hi] == rows[runs[i].lo..runs[i].hi]; }
    }
  }

  /** When the last row has the key, the last stretch reaches up to it. */
  lemma {:induction false} RunsLast(rows: seq<Row>, key: Key, runs: seq<Stretch>)
    requires MaximalRuns(rows, key, runs) && rows != [] && key in rows[|rows| - 1].keys
    ensures runs != [] && runs[|runs| - 1].hi == |rows|
  {
  }

  /** A row with the key, after another, lengthens the last stretch. */
  lemma {:induction false} RunsExtend(rows: seq<Row>, key: Key, runs: seq<Stretch>, row: Row)
    requires MaximalRuns(rows, key, runs) && key in row.keys && runs != [] && runs[|runs| - 1].hi == |rows|
    ensures var k := |runs| - 1;
            MaximalRuns(rows + [row], key, runs[k := Stretch(runs[k].lo, |rows| + 1)])
  {
    var k := |runs| - 1;
    var all, more := rows + [row], runs[k := Stretch(runs[k].lo, |rows| + 1)];
    forall t | 0 <= t < |all| ensures key in all[t].keys <==> Covered(more, t) {
      if t < |rows| {
        assert all[t] == rows[t];
        if Covered(runs, t) {
          var j :| 0 <= j < |runs| && runs[j].lo <= t < runs[j].hi;
          assert more[j].lo <= t < more[j].hi;
        }
        if Covered(more, t) {
          var j :| 0 <= j < |more| && more[j].lo <= t < more[j].hi;
          assert runs[j].lo <= t < runs[j].hi;
        }
      } else {
        assert more[k].lo <= t < more[k].hi;
      }
    }
  }

  lemma {:induction false} HoldsExtend(rows: seq<Row>, runs: seq<Stretch>, files: seq<Log>, row: Row, r: Record)
    requires HoldsRuns(rows, runs, files) && runs != [] && runs[|runs| - 1].hi == |rows|
    requires Rows(files[|files| - 1] + [r]) == Rows(files[|files| - 1]) + [row]
    ensures var k := |runs| - 1;
            HoldsRuns(rows + [row], runs[k := Stretch(runs[k].lo, |rows| + 1)], Append(files, r))
  {
    hide Rows;
    var k := |runs| - 1;
    var all, more := rows + [row], runs[k := Stretch(runs[k].lo, |rows| + 1)];
    forall j | 0 <= j < |more| ensures Rows(Append(files, r)[j]) == all[more[j].lo..more[j].hi] {
      if j < k {
        assert all[runs[j].lo..runs[j].hi] == rows[runs[j].lo..runs[j].hi];
      } else {
        assert all[runs[k].lo..|rows| + 1] == rows[runs[k].lo..|rows|] + [row];
      }
    }
  }

  class Extractor {
    const key: Key

    var keyPresent: bool
    var files: seq<Log>

    ghost var fed: Log
    ghost var runs: seq<Stretch>

    ghost predicate Valid()
      reads this
    {
      && MaximalRuns(Rows(fed), key, runs) && HoldsRuns(Rows(fed), runs, files)
      && (keyPresent <==> key in InForce(fed, []))
      && (keyPresent ==> files != [] && InForce(files[|files| - 1], []) == InForce(fed, []))
    }

    constructor (key: Key)
      ensures this.key == key && Valid() && fed == [] && files == []
    {
      this.key, keyPresent, files, fed, runs := key, false, [], [], [];
    }

    /** The callback of `extract --key` on one record of the input. */
    method Callback(r: Record)
      requires Valid()
      modifies this
      ensures Valid() && fed == old(fed) + [r]
    {
      hide Rows, InForce, MaximalRuns, HoldsRuns;
      ghost var rows, row := Rows(fed), Row(InForce(fed + [r], []), r.values);
      RowsPush(fed, r);
      LastRow(fed);
      NothingInForce();
      fed := fed + [r];
      if r.keys != [] {
        var keyWasPresent := keyPresent;
        keyPresent := key in r.keys;
        if keyPresent && !keyWasPresent {
          var copy := Record(r.keys, r.values, r.fullLength, r.fullLength);
          RowsPush([], copy);
          assert [] + [copy] == [copy] && Rows([copy]) == [row];
          RunsOpen(rows, key, runs, row);
          HoldsOpen(rows, runs, files, row, [copy]);
          files := files + [[copy]];
          runs := runs + [Stretch(|rows|, |rows| + 1)];
          return;
        }
      }
      if keyPresent {
        ghost var k := |runs| - 1;
        RunsLast(rows, key, runs);
        RowsPush(files[|files| - 1], r);
        RunsExtend(rows, key, runs, row);
        HoldsExtend(rows, runs, files, row, r);
        files := Append(files, r);
        runs := runs[k := Stretch(runs[k].lo, |rows| + 1)];
      } else {
        RunsSkip(rows, key, runs, files, row);
      }
    }

    /** A whole log: one file for each maximal stretch of rows with the key, holding exactly that stretch. */
    method Extract(log: Log)
      requires Valid() && fed == []
      modifies this
      ensures MaximalRuns(Rows(log), key, runs) && HoldsRuns(Rows(log), runs, files)
    {
      for i := 0 to |log|
        invariant Valid() && fed == log[..i]
      {
        Callback(log[i]);
        assert log[..i] + [log[i]] == log[..i + 1];
      }
      assert log[..|log|] == log;
    }
  }

  lemma {:induction false} LastRow(log: Log)
    ensures log != [] ==> Rows(log)[|log| - 1].keys == InForce(log, [])
  {
  }

  lemma {:induction false} NothingInForce()
    ensures Rows([]) == [] && InForce([], []) == []
  {
  }
}
