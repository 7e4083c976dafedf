/**
 The codec end to end: what the tracked, growable writer emits for an object is what the tree parser and the
 buffered reader make of it.
 */
module Codec {
  import opened Wire
  import opened Values
  import opened NodeGraph
  import Tree
  import TreeParser
  import Reader
  import Writer
  import opened Sources

  /** Trees that agree node by node under the tag comparison. */
  ghost predicate SameTree(v: Value, w: Value)
    decreases v
  {
    && TagCmp(v.tag, w.tag) == 0 && v.data == w.data && |v.kids| == |w.kids|
    && forall i :: 0 <= i < |v.kids| ==> SameTree(v.kids[i], w.kids[i])
  }

  lemma {:induction false} CanonAt(vs: seq<Value>, i: nat)
    requires i < |vs|
    ensures CanonAll(vs)[i] == CanonOne(vs[i])
    decreases |vs|
  {
    if i > 0 { CanonAt(vs[1..], i - 1); }
  }

  /** The decoder's reading of an encoding is the only canonical tree of its class. */
  lemma {:induction false} SameCanon(v: Value, w: Value)
    ensures SameTree(v, w) <==> CanonOne(v) == CanonOne(w)
    decreases v
  {
    TagCmpOrder(v.tag, w.tag, w.tag);
    hide TagCmp, Canon;
    forall i | 0 <= i < |v.kids| && i < |w.kids|
      ensures CanonAll(v.kids)[i] == CanonOne(v.kids[i]) && CanonAll(w.kids)[i] == CanonOne(w.kids[i])
      ensures SameTree(v.kids[i], w.kids[i]) <==> CanonOne(v.kids[i]) == CanonOne(w.kids[i])
    {
      CanonAt(v.kids, i);
      CanonAt(w.kids, i);
      SameCanon(v.kids[i], w.kids[i]);
    }
    assert |v.kids| == |w.kids| ==>
      (CanonAll(v.kids) == CanonAll(w.kids) <==> forall i :: 0 <= i < |v.kids| ==> SameTree(v.kids[i], w.kids[i]));
  }

  lemma {:induction false} CanonTwice(v: Value)
    ensures CanonOne(CanonOne(v)) == CanonOne(v)
    decreases v
  {
    var w := CanonOne(v);
    forall i | 0 <= i < |v.kids| ensures CanonAll(w.kids)[i] == CanonAll(v.kids)[i] {
      CanonAt(v.kids, i);
      CanonAt(w.kids, i);
      CanonTwice(v.kids[i]);
    }
    assert CanonAll(w.kids) == w.kids;
  }

  /** An encoded object decodes, whole, to an equal one. */
  lemma {:induction false} EncodedObject(v: Value)
    requires WellFormed(v)
    ensures Decode(EncodeOne(v), 0, 1) == Done([CanonOne(v)], |EncodeOne(v)|) && SameTree(v, CanonOne(v))
  {
    hide Decode, EncodeTag, WellFormed, EncodeOne, CanonOne, SameTree;
    EncodeNone();
    ValueRoundTrip([v], []);
    assert [v][1..] == [];
    assert Encode([v]) == EncodeOne(v) + Encode([]);
    assert Encode([v]) + [] == EncodeOne(v);
    assert CanonAll([v]) == [CanonOne(v)];
    CanonTwice(v);
    SameCanon(v, CanonOne(v));
  }

  /** Writes an object and hands back its bytes. */
  method Write(v: Value) returns (bytes: Bytes)
    requires WellFormed(v)
    ensures bytes == EncodeOne(v)
  {
    hide EncodeOne, WellFormed;
    var writer := new Writer.Writer.Growable();
    writer.WriteValue(v);
    var target, size := writer.Destroy();
    bytes := target[..size];
  }

  /** Canonical forms have the same maps. */
  lemma {:induction false} CanonMaps(v: Value)
    ensures Tree.SmallMaps(v) <==> Tree.SmallMaps(CanonOne(v))
    decreases v
  {
    var w := CanonOne(v);
    forall i | 0 <= i < |v.kids| ensures w.kids[i] == CanonOne(v.kids[i]) && (Tree.SmallMaps(v.kids[i])
        <==> Tree.SmallMaps(w.kids[i])) {
      CanonAt(v.kids, i);
      CanonMaps(v.kids[i]);
    }
  }

  lemma {:induction false} CanonAllMaps(vs: seq<Value>)
    ensures Tree.AllSmallMaps(vs) <==> Tree.AllSmallMaps(CanonAll(vs))
  {
    var ws := CanonAll(vs);
    forall i | 0 <= i < |vs| ensures ws[i] == CanonOne(vs[i]) && (Tree.SmallMaps(vs[i]) <==> Tree.SmallMaps(ws[i])) {
      CanonAt(vs, i);
      CanonMaps(vs[i]);
    }
  }

  /** An encoded object fits the tree parser if and only if none of its maps has 2^31 pairs or more. */
  lemma {:induction false} EncodedFits(v: Value)
    requires WellFormed(v)
    ensures Tree.Fits(EncodeOne(v), 0, 1, 1, Tree.NO_LIMITS) <==> Tree.SmallMaps(v)
  {
    hide EncodeOne, CanonOne, WellFormed, SameTree, Decode, Tree.Fits;
    EncodedObject(v);
    Tree.FitsDecoded(EncodeOne(v), 0, 1, 1);
    CanonMaps(v);
  }

  /** Writes an object and parses the bytes: the parser accepts them all, and its nodes denote an equal object. */
  method ThroughTree(v: Value) returns (tree: TreeParser.Parser, ghost w: Value)
    requires WellFormed(v) && Tree.SmallMaps(v)
    ensures tree.error == Ok && tree.data == EncodeOne(v) && tree.size == |tree.data|
    ensures Denotes(tree.data, tree.pages, tree.root, w) && SameTree(v, w)
  {
    hide EncodeOne, CanonOne, WellFormed, SameTree, Decode, Denotes, Tree.Fits, Tree.SmallMaps, Separated, MemoryOk;
    var bytes := Write(v);
    EncodedObject(v);
    EncodedFits(v);
    tree := new TreeParser.Parser.InMemory(bytes, 0, Tree.Unlimited);
    tree.Parse();
    w := CanonOne(v);
  }

  /** What is left of a stream of whole messages after the first few is the next one, or nothing. */
  lemma {:induction false} MessagesLeft(s: Bytes, msgs: seq<Value>, vals: seq<Value>, taken: nat)
    requires Decode(s, 0, |msgs|) == Done(msgs, |s|) && Decode(s, 0, |vals|) == Done(vals, taken) && taken <= |s|
    ensures |vals| <= |msgs| && vals == msgs[..|vals|]
    ensures !Decode(s[taken..], 0, 1).Bad? && (Decode(s[taken..], 0, 1).Done? <==> |vals| < |msgs|)
  {
    hide Decode;
    if |vals| > |msgs| {
      DecodeSplit(s, 0, |msgs|, |vals| - |msgs|);
      assert false;
    }
    DecodeSplit(s, 0, |vals|, |msgs| - |vals|);
    assert s == s[..taken] + s[taken..];
    DecodeShift(s[..taken], s[taken..], 0, 1);
    if |vals| < |msgs| {
      DecodeSplit(s, taken, 1, |msgs| - |vals| - 1);
    } else {
      DecodeNone(s, taken);
      assert s[taken..] == [];
      Tree.NothingLeft([], Tree.NO_LIMITS);
    }
  }

  lemma {:induction false} EncodedStream(msgs: seq<Value>)
    requires AllWellFormed(msgs)
    ensures Decode(Encode(msgs), 0, |msgs|) == Done(CanonAll(msgs), |Encode(msgs)|)
    ensures Tree.AllSmallMaps(msgs) ==> Tree.StreamFits(Encode(msgs), Tree.NO_LIMITS)
  {
    hide Decode, Encode, CanonAll, AllWellFormed, Tree.AllSmallMaps, Tree.StreamFits;
    ValueRoundTrip(msgs, []);
    assert Encode(msgs) + [] == Encode(msgs);
    CanonAllMaps(msgs);
    if Tree.AllSmallMaps(msgs) { Tree.StreamFitsDecoded(Encode(msgs), |msgs|, Tree.NO_LIMITS); }
  }

  lemma {:induction false} EncodeSplit(vs: seq<Value>, k: nat)
    requires k <= |vs|
    ensures Encode(vs) == Encode(vs[..k]) + Encode(vs[k..])
    decreases k
  {
    hide EncodeOne;
    if k == 0 {
      assert vs[..k] == [] && vs[k..] == vs;
    } else {
      EncodeSplit(vs[1..], k - 1);
      assert vs[1..][..k - 1] == vs[..k][1..] && vs[1..][k - 1..] == vs[k..];
      assert Encode(vs) == EncodeOne(vs[0]) + (Encode(vs[..k][1..]) + Encode(vs[k..]));
    }
  }

  /** The first few messages of a stream end where their encoding does. */
  lemma {:induction false} EncodedPrefix(msgs: seq<Value>, k: nat)
    requires AllWellFormed(msgs) && k <= |msgs|
    ensures var n := |Encode(msgs[..k])|;
            && Decode(Encode(msgs), 0, k) == Done(CanonAll(msgs[..k]), n)
            && n <= |Encode(msgs)| && Encode(msgs)[n..] == Encode(msgs[k..])
  {
    hide Decode, Encode, CanonAll, WellFormed;
    EncodeSplit(msgs, k);
    ValueRoundTrip(msgs[..k], Encode(msgs[k..]));
  }

  /**
   A stream of encoded messages, cut into chunks in any way, received without limits: no error is ever flagged, the
   messages come out in order and equal to those sent, and one comes with every attempt that does not run into an
   empty read; on a stream that blocks, with every attempt until all are there.
   */
  method Receive(msgs: seq<Value>, from: Source, attempts: nat)
    returns (tree: TreeParser.Parser, got: seq<TreeParser.Message>, ghost vals: seq<Value>)
    requires AllWellFormed(msgs) && Tree.AllSmallMaps(msgs) && from.remaining == Encode(msgs)
    modifies from
    ensures tree.error == Ok && |vals| <= |msgs| && vals == CanonAll(msgs)[..|vals|]
    ensures TreeParser.AllDenote(got, vals) && forall i :: 0 <= i < |vals| ==> SameTree(msgs[i], vals[i])
    ensures |vals| + (from.empties - old(from.empties)) == attempts
    ensures from.blocking ==> |vals| == if attempts < |msgs| then attempts else |msgs|
    ensures tree.Valid() && tree.Unparsed() == Encode(msgs[|vals|..])
  {
    hide Decode, Encode, CanonAll, AllWellFormed, Tree.AllSmallMaps, Tree.StreamFits, Tree.BookedOn, MemoryOk,
        NodeCount, Denotes, SameTree, Tree.Fits;
    EncodedStream(msgs);
    tree := new TreeParser.Parser.OnStream(from, Tree.Unlimited, Tree.Unlimited);
    got, vals := tree.Drain(attempts);
    ghost var s := Encode(msgs);
    MessagesLeft(s, CanonAll(msgs), vals, Decode(s, 0, |vals|).end);
    EncodedPrefix(msgs, |vals|);
    forall i | 0 <= i < |vals| ensures SameTree(msgs[i], vals[i]) { CanonSame(msgs, i); }
  }

  lemma {:induction false} CanonSame(vs: seq<Value>, i: nat)
    requires i < |vs|
    ensures SameTree(vs[i], CanonAll(vs)[i])
  {
    CanonAt(vs, i);
    CanonTwice(vs[i]);
    SameCanon(vs[i], CanonOne(vs[i]));
  }

  /** An object as written, delivered in any chunks: a buffered reader's discard takes exactly its bytes. */
  method ThroughReader(v: Value, buffer: array<Byte>, ghost more: Bytes, from: Source) returns (reader: Reader.Reader)
    requires WellFormed(v) && buffer.Length >= Reader.MINIMUM_BUFFER_SIZE
    requires from.blocking && from.remaining == EncodeOne(v) + more
    modifies buffer, from
    ensures reader.Valid() && reader.error == Ok && reader.Remaining() == more
  {
    hide EncodeOne, CanonOne, WellFormed, SameTree, Decode;
    EncodedObject(v);
    DecodeStable(EncodeOne(v), 0, 1, more);
    reader := new Reader.Reader.OnStream(from, buffer);
    reader.Discard();
  }

  /**
   On the same data in memory the reader's discard and the tree parser accept or refuse together, and advance
   alike.
   */
  method DiscardAgrees(contents: array<Byte>) returns (tree: TreeParser.Parser, reader: Reader.Reader)
    requires Tree.Fits(contents[..], 0, 1, 1, Tree.NO_LIMITS)
    ensures reader.Valid() && (tree.error == Ok <==> reader.error == Ok)
    ensures tree.error == Ok ==>
        tree.size <= |contents[..]| && reader.Remaining() == contents[..][tree.size..]
  {
    hide Decode, Denotes, Tree.Fits, Separated, MemoryOk, NodeCount;
    tree := new TreeParser.Parser.InMemory(contents[..], 0, Tree.Unlimited);
    tree.Parse();
    reader := new Reader.Reader.InMemory(contents);
    reader.Discard();
  }
}
