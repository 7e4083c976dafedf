/**
 MessagePack objects as trees, their encoding, and the recursive-descent decoder
 that gives byte strings their meaning. Every buffered, tracked or stack-based form
 of MPack is measured against this decoder.
 */
module Values {
  import opened Wire

  /** An object: its tag, its raw contents (str, bin) and its elements (array; map, keys and values alternating). */
  datatype Value = Node(tag: Tag, data: Bytes, kids: seq<Value>)

  ghost predicate WellFormed(v: Value) {
    && |v.data| == PayloadLen(v.tag)
    && |v.kids| == KidCount(v.tag)
    && forall k :: k in v.kids ==> WellFormed(k)
  }

  ghost predicate AllWellFormed(vs: seq<Value>) {
    forall k :: k in vs ==> WellFormed(k)
  }

  // ----- meaning of byte strings

  /** A tag together with the raw contents that follow it; `end` is the offset just past them. */
  datatype Head =
    | Head(tag: Tag, data: Bytes, end: nat)
    | HeadShort
    | HeadBad(error: Error)

  function HeadAt(s: Bytes, pos: nat): (h: Head)
    requires pos <= |s|
    ensures h.Head? ==> pos < h.end <= |s| && |h.data| == PayloadLen(h.tag)
    ensures h.HeadBad? ==> h.error != Ok
  {
    match DecodeTag(s[pos..])
    case TagShort => HeadShort
    case TagBad(e) => HeadBad(e)
    case TagOk(tag, size) =>
      var end := pos + size + PayloadLen(tag);
      if |s| < end then HeadShort else Head(tag, s[pos + size..end], end)
  }

  datatype Decoded =
    | Done(vals: seq<Value>, end: nat)
    | Short
    | Bad(error: Error)

  /** Reads `n` consecutive objects of `s` from offset `pos` on. */
  ghost function Decode(s: Bytes, pos: nat, n: nat): (r: Decoded)
    requires pos <= |s|
    ensures r.Done? ==> |r.vals| == n && pos + n <= r.end <= |s|
    ensures r.Bad? ==> r.error != Ok
    decreases |s| - pos, n
  {
    if n == 0 then Done([], pos)
    else match HeadAt(s, pos)
      case HeadShort => Short
      case HeadBad(e) => Bad(e)
      case Head(tag, data, body) =>
        var kids := Decode(s, body, KidCount(tag));
        if !kids.Done? then kids
        else
          var rest := Decode(s, kids.end, n - 1);
          if !rest.Done? then rest
          else Done([Node(tag, data, kids.vals)] + rest.vals, rest.end)
  }

  /** One unfolding of the decoder. */
  lemma {:induction false} DecodeUnfold(s: Bytes, pos: nat, n: nat)
    requires pos <= |s| && n > 0
    ensures var h := HeadAt(s, pos);
            if h.HeadShort? then Decode(s, pos, n) == Short
            else if h.HeadBad? then Decode(s, pos, n) == Bad(h.error)
            else
              var kids := Decode(s, h.end, KidCount(h.tag));
              if !kids.Done? then Decode(s, pos, n) == kids
              else
                var rest := Decode(s, kids.end, n - 1);
                Decode(s, pos, n) == if rest.Done? then Done([Node(h.tag, h.data, kids.vals)] + rest.vals, rest.end)
                                     else rest
  {
  }

  /** `s` is exactly one object. */
  ghost predicate IsObject(s: Bytes) {
    Decode(s, 0, 1).Done? && Decode(s, 0, 1).end == |s|
  }

  /** What reading `n` more objects after a first result amounts to. */
  ghost function Then(s: Bytes, first: Decoded, n: nat): Decoded
    requires first.Done? ==> first.end <= |s|
  {
    if !first.Done? then first
    else
      var next := Decode(s, first.end, n);
      if !next.Done? then next else Done(first.vals + next.vals, next.end)
  }

  /** Reading `m + n` objects is reading `m` and then `n`. */
  lemma {:induction false} DecodeSplit(s: Bytes, pos: nat, m: nat, n: nat)
    requires pos <= |s|
    ensures Decode(s, pos, m + n) == Then(s, Decode(s, pos, m), n)
    decreases |s| - pos, m
  {
    hide HeadAt, Decode;
    if m == 0 {
      var r := Decode(s, pos, n);
      DecodeNone(s, pos);
      assert r.Done? ==> [] + r.vals == r.vals;
    } else {
      DecodeUnfold(s, pos, m);
      DecodeUnfold(s, pos, m + n);
      var h := HeadAt(s, pos);
      if h.Head? && Decode(s, h.end, KidCount(h.tag)).Done? {
        var Done(kids, end) := Decode(s, h.end, KidCount(h.tag));
        DecodeSplit(s, end, m - 1, n);
        assert m + n - 1 == (m - 1) + n;
        ThenCons(s, Node(h.tag, h.data, kids), Decode(s, end, m - 1), n);
      }
    }
  }

  lemma {:induction false} ThenCons(s: Bytes, v: Value, first: Decoded, n: nat)
    requires first.Done? ==> first.end <= |s|
    ensures var all := Then(s, first, n);
            first.Done? ==>
            Then(s, Done([v] + first.vals, first.end), n) == if all.Done? then Done([v] + all.vals, all.end) else all
  {
  }

  /** A flat queue of results, its first `KidCount(tag)` folded back into the object they belong to. */
  ghost function Fold(tag: Tag, data: Bytes, r: Decoded): Decoded
    requires r.Done? ==> KidCount(tag) <= |r.vals|
  {
    if !r.Done? then r
    else Done([Node(tag, data, r.vals[..KidCount(tag)])] + r.vals[KidCount(tag)..], r.end)
  }

  /**
   The step of every non-recursive reader: after one tag and its raw contents, `n` objects still to
   read become its elements followed by the other `n - 1`, all in one flat queue.
   */
  lemma {:induction false} DecodeStep(s: Bytes, pos: nat, n: nat)
    requires pos <= |s| && n > 0 && HeadAt(s, pos).Head?
    ensures var Head(tag, data, body) := HeadAt(s, pos);
            Decode(s, pos, n) == Fold(tag, data, Decode(s, body, KidCount(tag) + n - 1))
  {
    hide HeadAt;
    var Head(tag, data, body) := HeadAt(s, pos);
    var c := KidCount(tag);
    DecodeSplit(s, body, c, n - 1);
    assert c + (n - 1) == c + n - 1;
    var kids := Decode(s, body, c);
    if kids.Done? && Decode(s, kids.end, n - 1).Done? {
      var rest := Decode(s, kids.end, n - 1).vals;
      assert (kids.vals + rest)[..c] == kids.vals && (kids.vals + rest)[c..] == rest;
    }
  }

  lemma {:induction false} HeadStable(s: Bytes, pos: nat, more: Bytes)
    requires pos <= |s|
    ensures !HeadAt(s, pos).HeadShort? ==> HeadAt(s + more, pos) == HeadAt(s, pos)
  {
    hide DecodeTag;
    assert (s + more)[pos..] == s[pos..] + more;
    DecodeTagStable(s[pos..], more);
    if HeadAt(s, pos).Head? {
      var TagOk(tag, size) := DecodeTag(s[pos..]);
      var a, b := pos + size, pos + size + PayloadLen(tag);
      assert (s + more)[a..b] == s[a..b];
    }
  }

  /** A verdict other than "cut short" is final: more bytes do not change it. */
  lemma {:induction false} DecodeStable(s: Bytes, pos: nat, n: nat, more: Bytes)
    requires pos <= |s| && !Decode(s, pos, n).Short?
    ensures Decode(s + more, pos, n) == Decode(s, pos, n)
    decreases |s| - pos, n
  {
    hide HeadAt;
    if n > 0 {
      HeadStable(s, pos, more);
      if HeadAt(s, pos).Head? {
        var Head(tag, data, body) := HeadAt(s, pos);
        DecodeStable(s, body, KidCount(tag), more);
        var kids := Decode(s, body, KidCount(tag));
        if kids.Done? {
          DecodeStable(s, kids.end, n - 1, more);
        }
      }
    }
  }

  /** Bytes past the objects play no part in reading them. */
  lemma {:induction false} DecodeWithin(s: Bytes, pos: nat, n: nat, limit: nat)
    requires pos <= |s| && Decode(s, pos, n).Done? && Decode(s, pos, n).end <= limit <= |s|
    ensures Decode(s[..limit], pos, n) == Decode(s, pos, n)
    decreases |s| - pos, n
  {
    hide HeadAt, Decode;
    var t := s[..limit];
    assert s == t + s[limit..];
    if Decode(t, pos, n).Short? {
      ShortWithin(t, pos, n, s[limit..]);
    } else {
      DecodeStable(t, pos, n, s[limit..]);
    }
  }

  lemma {:induction false} HeadShortWithin(s: Bytes, pos: nat, more: Bytes)
    requires pos <= |s| && HeadAt(s, pos).HeadShort? && HeadAt(s + more, pos).Head?
    ensures |s| < HeadAt(s + more, pos).end
  {
  }

  /** Objects that a buffer cuts short end past it. */
  lemma {:induction false} ShortWithin(s: Bytes, pos: nat, n: nat, more: Bytes)
    requires pos <= |s| && Decode(s, pos, n).Short? && Decode(s + more, pos, n).Done?
    ensures |s| < Decode(s + more, pos, n).end
    decreases |s| - pos, n
  {
    hide HeadAt, Decode;
    if n > 0 {
      DecodeUnfold(s, pos, n);
      DecodeUnfold(s + more, pos, n);
      var h := HeadAt(s, pos);
      if h.HeadShort? {
        HeadShortWithin(s, pos, more);
      } else {
        HeadStable(s, pos, more);
        var kids := Decode(s, h.end, KidCount(h.tag));
        if kids.Short? {
          ShortWithin(s, h.end, KidCount(h.tag), more);
        } else {
          DecodeStable(s, h.end, KidCount(h.tag), more);
          ShortWithin(s, kids.end, n - 1, more);
        }
      }
    } else {
      DecodeNone(s, pos);
    }
  }

  lemma {:induction false} DecodeNone(s: Bytes, pos: nat)
    requires pos <= |s|
    ensures Decode(s, pos, 0) == Done([], pos)
  {
  }

  /** The same verdict, its offset moved by `k`. */
  function Moved(r: Decoded, k: nat): Decoded {
    if r.Done? then r.(end := r.end + k) else r
  }

  lemma {:induction false} HeadShift(p: Bytes, s: Bytes, pos: nat)
    requires pos <= |s|
    ensures HeadAt(p + s, |p| + pos) ==
            if HeadAt(s, pos).Head? then HeadAt(s, pos).(end := HeadAt(s, pos).end + |p|) else HeadAt(s, pos)
  {
    hide DecodeTag;
    assert (p + s)[|p| + pos..] == s[pos..];
    var h := HeadAt(s, pos);
    if h.Head? {
      var a := pos + DecodeTag(s[pos..]).size;
      assert (p + s)[|p| + a..|p| + h.end] == s[a..h.end];
    }
  }

  /** Bytes in front of the objects only move the offsets. */
  lemma {:induction false} DecodeShift(p: Bytes, s: Bytes, pos: nat, n: nat)
    requires pos <= |s|
    ensures Decode(p + s, |p| + pos, n) == Moved(Decode(s, pos, n), |p|)
    decreases |s| - pos, n
  {
    hide HeadAt, Decode;
    if n == 0 {
      DecodeNone(s, pos);
      DecodeNone(p + s, |p| + pos);
    } else {
      HeadShift(p, s, pos);
      DecodeUnfold(s, pos, n);
      DecodeUnfold(p + s, |p| + pos, n);
      if HeadAt(s, pos).Head? {
        var Head(tag, data, body) := HeadAt(s, pos);
        DecodeShift(p, s, body, KidCount(tag));
        var kids := Decode(s, body, KidCount(tag));
        if kids.Done? {
          DecodeShift(p, s, kids.end, n - 1);
        }
      }
    }
  }

  /** One more object read off the rest of a stream. */
  lemma {:induction false} DecodeNext(s: Bytes, vals: seq<Value>, taken: nat)
    requires taken <= |s| && Decode(s, 0, |vals|) == Done(vals, taken) && Decode(s[taken..], 0, 1).Done?
    ensures var next := Decode(s[taken..], 0, 1);
            Decode(s, 0, |vals| + 1) == Done(vals + next.vals, taken + next.end)
  {
    hide Decode;
    assert s == s[..taken] + s[taken..];
    DecodeShift(s[..taken], s[taken..], 0, 1);
    DecodeSplit(s, 0, |vals|, 1);
  }

  /** The decoder only ever builds well-formed trees. */
  lemma {:induction false} DecodeWellFormed(s: Bytes, pos: nat, n: nat)
    requires pos <= |s| && Decode(s, pos, n).Done?
    ensures AllWellFormed(Decode(s, pos, n).vals)
    decreases |s| - pos, n
  {
    hide HeadAt;
    if n > 0 {
      var Head(tag, data, body) := HeadAt(s, pos);
      var kids := Decode(s, body, KidCount(tag));
      DecodeWellFormed(s, body, KidCount(tag));
      DecodeWellFormed(s, kids.end, n - 1);
    }
  }

  // ----- the encoding

  /** The bytes the writer emits for a list of objects, one after the other. */
  ghost function Encode(vs: seq<Value>): (s: Bytes)
    decreases vs
  {
    if vs == [] then [] else EncodeOne(vs[0]) + Encode(vs[1..])
  }

  ghost function EncodeOne(v: Value): (s: Bytes)
    decreases v
  {
    EncodeTag(v.tag) + v.data + Encode(v.kids)
  }

  lemma {:induction false} EncodeNone()
    ensures Encode([]) == []
  {
  }

  ghost function CanonOne(v: Value): Value
    decreases v
  {
    Node(Canon(v.tag), v.data, CanonAll(v.kids))
  }

  /** The objects with non-negative signed integers retyped as unsigned. */
  ghost function CanonAll(vs: seq<Value>): (r: seq<Value>)
    ensures |r| == |vs|
    decreases vs
  {
    if vs == [] then [] else [CanonOne(vs[0])] + CanonAll(vs[1..])
  }

  lemma {:induction false} EncodeHead(v: Value, rest: Bytes)
    requires |v.data| == PayloadLen(v.tag)
    ensures HeadAt(EncodeTag(v.tag) + v.data + rest, 0) == Head(Canon(v.tag), v.data, |EncodeTag(v.tag)| + |v.data|)
  {
    var t := EncodeTag(v.tag);
    var s := t + v.data + rest;
    TagRoundTrip(v.tag, v.data + rest);
    assert s[0..] == t + (v.data + rest);
    assert s[|t|..|t| + |v.data|] == v.data;
  }

  lemma {:induction false} EncodeParts(vs: seq<Value>, rest: Bytes)
    requires vs != []
    ensures var v := vs[0];
            Encode(vs) + rest == (EncodeTag(v.tag) + v.data) + (Encode(v.kids) + (Encode(vs[1..]) + rest))
  {
  }

  /** Reading an encoding back gives the same objects, up to `TagCmp`, and stops at its last byte. */
  lemma {:induction false} ValueRoundTrip(vs: seq<Value>, rest: Bytes)
    requires AllWellFormed(vs)
    ensures Decode(Encode(vs) + rest, 0, |vs|) == Done(CanonAll(vs), |Encode(vs)|)
    decreases vs
  {
    hide HeadAt, EncodeTag, Decode;
    if vs == [] {
      DecodeNone(Encode(vs) + rest, 0);
    } else {
      var v := vs[0];
      assert WellFormed(v) && AllWellFormed(v.kids) && AllWellFormed(vs[1..]);
      var head, kids, tail := EncodeTag(v.tag) + v.data, Encode(v.kids), Encode(vs[1..]) + rest;
      EncodeHead(v, kids + tail);
      ValueRoundTrip(v.kids, tail);
      ValueRoundTrip(vs[1..], rest);
      RoundTripStep(v, head, kids, tail, |vs|);
      EncodeParts(vs, rest);
    }
  }

  /** The inductive step: an encoded head, its encoded elements, and whatever is read after them. */
  lemma {:induction false} RoundTripStep(v: Value, head: Bytes, kids: Bytes, tail: Bytes, n: nat)
    requires n > 0 && |v.kids| == KidCount(v.tag)
    requires HeadAt(head + (kids + tail), 0) == Head(Canon(v.tag), v.data, |head|)
    requires Decode(kids + tail, 0, |v.kids|) == Done(CanonAll(v.kids), |kids|)
    requires Decode(tail, 0, n - 1).Done?
    ensures Decode(head + (kids + tail), 0, n) ==
            Done([CanonOne(v)] + Decode(tail, 0, n - 1).vals, |head + kids| + Decode(tail, 0, n - 1).end)
  {
    hide HeadAt, Decode;
    var s := head + (kids + tail);
    DecodeUnfold(s, 0, n);
    DecodeShift(head, kids + tail, 0, |v.kids|);
    assert s == (head + kids) + tail;
    DecodeShift(head + kids, tail, 0, n - 1);
  }

  lemma {:induction false} HeadMinimal(s: Bytes, pos: nat, t: Tag)
    requires pos <= |s| && HeadAt(s, pos).Head? && Canon(HeadAt(s, pos).tag) == Canon(t)
    ensures pos + |EncodeTag(t)| + PayloadLen(t) <= HeadAt(s, pos).end
  {
    var tag := HeadAt(s, pos).tag;
    TagCmpOrder(tag, t, t);
    TagMinimal(t, s[pos..]);
  }

  lemma {:induction false} CanonHead(w: Value, rest: seq<Value>, vs: seq<Value>)
    requires vs != [] && CanonAll([w] + rest) == CanonAll(vs)
    ensures CanonOne(w) == CanonOne(vs[0]) && CanonAll(rest) == CanonAll(vs[1..])
  {
    assert ([w] + rest)[1..] == rest;
    var x, y := CanonAll([w] + rest), CanonAll(vs);
    assert x[0] == CanonOne(w) && x[1..] == CanonAll(rest);
    assert y[0] == CanonOne(vs[0]) && y[1..] == CanonAll(vs[1..]);
  }

  /** No byte string that reads back as equal objects is shorter than their encoding. */
  lemma {:induction false} ValueMinimal(s: Bytes, pos: nat, vs: seq<Value>)
    requires pos <= |s| && AllWellFormed(vs)
    requires Decode(s, pos, |vs|).Done? && CanonAll(Decode(s, pos, |vs|).vals) == CanonAll(vs)
    ensures pos + |Encode(vs)| <= Decode(s, pos, |vs|).end
    decreases |s| - pos, |vs|
  {
    hide HeadAt, EncodeTag;
    if vs != [] {
      var v := vs[0];
      var Head(tag, data, body) := HeadAt(s, pos);
      var kids := Decode(s, body, KidCount(tag));
      var w := Node(tag, data, kids.vals);
      var rest := Decode(s, kids.end, |vs| - 1);
      CanonHead(w, rest.vals, vs);
      assert WellFormed(v) && AllWellFormed(v.kids) && AllWellFormed(vs[1..]);
      HeadMinimal(s, pos, v.tag);
      ValueMinimal(s, body, v.kids);
      ValueMinimal(s, kids.end, vs[1..]);
    }
  }

  // ----- sizes

  /** Number of objects in a list of trees, nested ones included. */
  ghost function NodeCount(vs: seq<Value>): (n: nat)
    decreases vs
  {
    if vs == [] then 0 else 1 + NodeCount(vs[0].kids) + NodeCount(vs[1..])
  }

  lemma {:induction false} NodeCountConcat(x: seq<Value>, y: seq<Value>)
    ensures NodeCount(x + y) == NodeCount(x) + NodeCount(y)
    decreases |x|
  {
    if x == [] {
      assert x + y == y;
    } else {
      assert (x + y)[1..] == x[1..] + y;
      NodeCountConcat(x[1..], y);
    }
  }
}
