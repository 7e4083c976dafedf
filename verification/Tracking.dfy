/**
 The tracking stack that polices open compounds, and what it says about the bytes emitted so far.
 */
module Tracking {
  import opened Wire
  import opened Values

  datatype Kind = ArrayKind | MapKind | StrKind | BinKind

  /** An open compound: elements left to write in an array or map, bytes left in a str or bin. */
  datatype Open = Open(kind: Kind, left: nat) {
    predicate HoldsElements() { kind.ArrayKind? || kind.MapKind? }
  }

  type Track = seq<Open>

  /** The kind of compound a tag opens. */
  predicate Opens(t: Tag) { t.Str? || t.Bin? || t.Array? || t.Map? }

  function KindOf(t: Tag): Kind
    requires Opens(t)
  {
    match t
    case Str(_) => StrKind
    case Bin(_) => BinKind
    case Array(_) => ArrayKind
    case Map(_) => MapKind
  }

  /** An element may be written: at top level, or in a compound that is still owed one. */
  predicate MayWrite(track: Track) {
    track == [] || (track[|track| - 1].HoldsElements() && track[|track| - 1].left > 0)
  }

  /** The stack once an element is counted against the innermost compound. */
  function Counted(track: Track): Track
    requires MayWrite(track)
  {
    if track == [] then []
    else track[|track| - 1 := track[|track| - 1].(left := track[|track| - 1].left - 1)]
  }

  /** The stack once a tag is written, with the compound it opens on top. */
  function Opened(track: Track, t: Tag): Track
    requires MayWrite(track)
  {
    if Opens(t) then Counted(track) + [Open(KindOf(t), PayloadLen(t) + KidCount(t))] else Counted(track)
  }

  /** `n` raw bytes may be written: the innermost compound is a str or bin that is still owed them. */
  predicate MayFill(track: Track, n: nat) {
    track != [] && !track[|track| - 1].HoldsElements() && n <= track[|track| - 1].left
  }

  function Filled(track: Track, n: nat): Track
    requires MayFill(track, n)
  {
    track[|track| - 1 := track[|track| - 1].(left := track[|track| - 1].left - n)]
  }

  /** A compound just opened lies on top of the others; anything else is an element and no more. */
  lemma {:induction false} OpenedTop(track: Track, tag: Tag)
    requires MayWrite(track)
    ensures Opens(tag) ==> Opened(track, tag) == Counted(track) + [Open(KindOf(tag), PayloadLen(tag) + KidCount(tag))]
    ensures !Opens(tag) ==> Opened(track, tag) == Counted(track)
  {
  }

  /** An element of the compound on top. */
  lemma {:induction false} ElementTop(below: Track, kind: Kind, left: nat)
    requires (kind.ArrayKind? || kind.MapKind?) && left > 0
    ensures MayWrite(below + [Open(kind, left)])
    ensures Counted(below + [Open(kind, left)]) == below + [Open(kind, left - 1)]
  {
  }

  /** A str or bin opened and filled is ready to be closed. */
  lemma {:induction false} FilledTop(track: Track, tag: Tag)
    requires MayWrite(track) && (tag.Str? || tag.Bin?)
    ensures MayFill(Opened(track, tag), PayloadLen(tag))
    ensures Filled(Opened(track, tag), PayloadLen(tag)) == Counted(track) + [Open(KindOf(tag), 0)]
  {
  }

  // ----- what an open stack still owes

  /** Elements owed by the open arrays and maps together. */
  function Owed(track: Track): nat {
    if track == [] then 0
    else
      var top := track[|track| - 1];
      (if top.HoldsElements() then top.left else 0) + Owed(track[..|track| - 1])
  }

  /** Raw bytes owed before any further element: those of an open str or bin on top. */
  function Raw(track: Track): nat {
    if track == [] || track[|track| - 1].HoldsElements() then 0 else track[|track| - 1].left
  }

  /** Only the innermost open compound may be a str or bin. */
  ghost predicate Nested(track: Track) {
    forall k :: 0 <= k < |track| - 1 ==> track[k].HoldsElements()
  }

  /** `z` is `raw` arbitrary bytes followed by exactly `n` objects. */
  ghost predicate Supplies(z: Bytes, raw: nat, n: nat) {
    raw <= |z| && Decode(z, raw, n).Done? && Decode(z, raw, n).end == |z|
  }

  /** `out` becomes exactly `tops` objects once `raw` bytes and `n` objects are supplied. */
  ghost predicate Continues(out: Bytes, tops: nat, raw: nat, n: nat) {
    forall z: Bytes :: Supplies(z, raw, n) ==> Supplies(out + z, 0, tops)
  }

  lemma {:induction false} ContinuesEmpty()
    ensures Continues([], 0, 0, 0)
  {
  }

  /** With nothing owed, the output is complete. */
  lemma {:induction false} ContinuesDone(out: Bytes, tops: nat)
    requires Continues(out, tops, 0, 0)
    ensures Supplies(out, 0, tops)
  {
    hide Decode;
    DecodeNone([], 0);
    assert Supplies([], 0, 0);
    assert out + [] == out;
  }

  lemma {:induction false} HeadSupplies(tag: Tag, z: Bytes, n: nat)
    requires n > 0 && Supplies(z, PayloadLen(tag), KidCount(tag) + n - 1)
    ensures Supplies(EncodeTag(tag) + z, 0, n)
  {
    hide Decode, HeadAt, EncodeTag;
    var t, raw := EncodeTag(tag), PayloadLen(tag);
    var v := Node(tag, z[..raw], []);
    EncodeHead(v, z[raw..]);
    assert t + z == t + v.data + z[raw..];
    assert KidCount(Canon(tag)) == KidCount(tag);
    DecodeStep(t + z, 0, n);
    DecodeShift(t, z, raw, KidCount(tag) + n - 1);
  }

  /** Supplying objects to two neighbours supplies both. */
  lemma {:induction false} SuppliesConcat(x: Bytes, m: nat, y: Bytes, n: nat)
    requires Supplies(x, 0, m) && Supplies(y, 0, n)
    ensures Supplies(x + y, 0, m + n)
  {
    hide Decode;
    DecodeStable(x, 0, m, y);
    DecodeShift(x, y, 0, n);
    DecodeSplit(x + y, 0, m, n);
  }

  /** A tag written where an element is owed. */
  lemma {:induction false} ContinuesTag(out: Bytes, tops: nat, n: nat, tag: Tag)
    requires Continues(out, tops, 0, n) && n > 0
    ensures Continues(out + EncodeTag(tag), tops, PayloadLen(tag), KidCount(tag) + n - 1)
  {
    hide EncodeTag, Supplies;
    forall z: Bytes | Supplies(z, PayloadLen(tag), KidCount(tag) + n - 1)
      ensures Supplies(out + EncodeTag(tag) + z, 0, tops)
    {
      HeadSupplies(tag, z, n);
      assert out + EncodeTag(tag) + z == out + (EncodeTag(tag) + z);
    }
  }

  /** A tag written at top level. */
  lemma {:induction false} ContinuesTopTag(out: Bytes, tops: nat, tag: Tag)
    requires Continues(out, tops, 0, 0)
    ensures Continues(out + EncodeTag(tag), tops + 1, PayloadLen(tag), KidCount(tag))
  {
    hide EncodeTag, Supplies;
    ContinuesDone(out, tops);
    forall z: Bytes | Supplies(z, PayloadLen(tag), KidCount(tag))
      ensures Supplies(out + EncodeTag(tag) + z, 0, tops + 1)
    {
      HeadSupplies(tag, z, 1);
      SuppliesConcat(out, tops, EncodeTag(tag) + z, 1);
      assert out + EncodeTag(tag) + z == out + (EncodeTag(tag) + z);
    }
  }

  /** Raw bytes of an open str or bin. */
  lemma {:induction false} ContinuesBytes(out: Bytes, tops: nat, raw: nat, n: nat, d: Bytes)
    requires Continues(out, tops, raw, n) && |d| <= raw
    ensures Continues(out + d, tops, raw - |d|, n)
  {
    hide Decode;
    forall z: Bytes | Supplies(z, raw - |d|, n) ensures Supplies(out + d + z, 0, tops) {
      DecodeShift(d, z, raw - |d|, n);
      assert Supplies(d + z, raw, n);
      assert out + d + z == out + (d + z);
    }
  }

  /** A whole object written where an element is owed. */
  lemma {:induction false} ContinuesObject(out: Bytes, tops: nat, n: nat, d: Bytes)
    requires Continues(out, tops, 0, n) && n > 0 && IsObject(d)
    ensures Continues(out + d, tops, 0, n - 1)
  {
    hide Decode;
    forall z: Bytes | Supplies(z, 0, n - 1) ensures Supplies(out + d + z, 0, tops) {
      SuppliesConcat(d, 1, z, n - 1);
      assert out + d + z == out + (d + z);
    }
  }

  /** A whole object written at top level. */
  lemma {:induction false} ContinuesTopObject(out: Bytes, tops: nat, d: Bytes)
    requires Continues(out, tops, 0, 0) && IsObject(d)
    ensures Continues(out + d, tops + 1, 0, 0)
  {
    hide Decode;
    ContinuesDone(out, tops);
    SuppliesConcat(out, tops, d, 1);
    forall z: Bytes | Supplies(z, 0, 0) ensures Supplies(out + d + z, 0, tops + 1) {
      DecodeNone(z, 0);
      assert z == [] && out + d + z == out + d;
    }
  }

  /** Objects begun at top level, before and after an element is counted. */
  function Tops(track: Track, tops: nat): nat {
    if track == [] then tops + 1 else tops
  }

  /** The output lacks exactly what the open stack owes. */
  ghost predicate SoundOn(out: Bytes, tops: nat, track: Track) {
    Nested(track) && Continues(out, tops, Raw(track), Owed(track))
  }

  lemma {:induction false} CountedOwes(track: Track)
    requires MayWrite(track) && Nested(track)
    ensures Nested(Counted(track)) && Raw(Counted(track)) == Raw(track) == 0
    ensures track != [] ==> Owed(track) > 0 && Owed(Counted(track)) == Owed(track) - 1
  {
  }

  lemma {:induction false} CountedElements(track: Track)
    requires MayWrite(track) && Nested(track)
    ensures forall k :: 0 <= k < |Counted(track)| ==> Counted(track)[k].HoldsElements()
  {
  }

  lemma {:induction false} PushOwes(track: Track, o: Open)
    requires forall k :: 0 <= k < |track| ==> track[k].HoldsElements()
    ensures Nested(track + [o]) && Raw(track + [o]) == if o.HoldsElements() then 0 else o.left
    ensures Owed(track + [o]) == (if o.HoldsElements() then o.left else 0) + Owed(track)
  {
    var all := track + [o];
    assert all[..|all| - 1] == track && all[|all| - 1] == o;
    assert forall k :: 0 <= k < |track| ==> all[k] == track[k];
  }

  lemma {:induction false} OpenedOwes(track: Track, tag: Tag)
    requires MayWrite(track) && Nested(track)
    ensures Nested(Opened(track, tag)) && Raw(Opened(track, tag)) == PayloadLen(tag)
    ensures Owed(Opened(track, tag)) == KidCount(tag) + Owed(Counted(track))
  {
    hide Nested, Raw, Owed, Counted, MayWrite;
    CountedOwes(track);
    CountedElements(track);
    if Opens(tag) { PushOwes(Counted(track), Open(KindOf(tag), PayloadLen(tag) + KidCount(tag))); }
  }

  lemma {:induction false} SoundTag(out: Bytes, tops: nat, track: Track, tag: Tag)
    requires SoundOn(out, tops, track) && MayWrite(track)
    ensures SoundOn(out + EncodeTag(tag), Tops(track, tops), Opened(track, tag))
  {
    hide EncodeTag, Continues, Nested, Raw, Opened, MayWrite, KidCount, PayloadLen;
    CountedOwes(track);
    OpenedOwes(track, tag);
    if track == [] {
      ContinuesTopTag(out, tops, tag);
    } else {
      ContinuesTag(out, tops, Owed(track), tag);
    }
  }

  lemma {:induction false} SoundObject(out: Bytes, tops: nat, track: Track, d: Bytes)
    requires SoundOn(out, tops, track) && MayWrite(track) && IsObject(d)
    ensures SoundOn(out + d, Tops(track, tops), Counted(track))
  {
    hide Continues, IsObject;
    CountedOwes(track);
    if track == [] {
      ContinuesTopObject(out, tops, d);
    } else {
      ContinuesObject(out, tops, Owed(track), d);
    }
  }

  lemma {:induction false} SoundBytes(out: Bytes, tops: nat, track: Track, d: Bytes)
    requires SoundOn(out, tops, track) && MayFill(track, |d|)
    ensures SoundOn(out + d, tops, Filled(track, |d|))
  {
    hide Continues;
    ContinuesBytes(out, tops, Raw(track), Owed(track), d);
    assert Filled(track, |d|)[..|track| - 1] == track[..|track| - 1];
  }

  lemma {:induction false} SoundPop(out: Bytes, tops: nat, track: Track)
    requires SoundOn(out, tops, track) && track != [] && track[|track| - 1].left == 0
    ensures SoundOn(out, tops, track[..|track| - 1])
  {
  }

  /** A str written in one piece is one object. */
  lemma {:induction false} StrObject(d: Bytes)
    requires |d| < 0x1_0000_0000
    ensures IsObject(EncodeTag(Str(|d|)) + d)
  {
    hide EncodeTag;
    DecodeNone(d, |d|);
    HeadSupplies(Str(|d|), d, 1);
  }
}
