/**
 The buffered reader: a window `data..end` on a buffer that a fill function tops up by arbitrary chunks.
 Whatever the chunks, every operation acts on the logical remainder of the stream.
 */
module Reader {
  import opened Wire
  import opened Values
  import opened Sources

  const MINIMUM_BUFFER_SIZE: nat := 32
  const SMALL_FRACTION_DENOMINATOR: nat := 32

  function Zeros(n: nat): Bytes { seq(n, _ => 0) }

  /** As many zero bytes. */
  ghost predicate Blank(p: Bytes, count: nat) {
    |p| == count && forall i :: 0 <= i < count ==> p[i] == 0
  }

  lemma {:induction false} TagCases(s: Bytes)
    ensures s == [] ==> DecodeTag(s) == TagShort
    ensures s != [] && !Supported(s[0]) ==> DecodeTag(s) == TagBad(if s[0] == 0xc1 then Invalid else Unsupported)
    ensures s != [] && Supported(s[0]) && |s| < TagSize(s[0]) ==> DecodeTag(s) == TagShort
  {
  }

  lemma {:induction false} Cut(window: Bytes, ahead: Bytes, count: nat)
    requires count <= |window|
    ensures (window + ahead)[..count] == window[..count] && (window + ahead)[count..] == window[count..] + ahead
  {
  }

  lemma {:induction false} Past(window: Bytes, ahead: Bytes, more: nat)
    requires more <= |ahead|
    ensures (window + ahead)[..|window| + more] == window + ahead[..more]
    ensures (window + ahead)[|window| + more..] == ahead[more..]
  {
  }

  /** A read that starts in the window and ends in what was read after it. */
  lemma {:induction false} Straddled(window: Bytes, ahead: Bytes, got: Bytes, more: nat)
    requires more <= |got| <= |ahead| && got == ahead[..|got|]
    ensures window + got[..more] == (window + ahead)[..|window| + more]
    ensures got[more..] + ahead[|got|..] == (window + ahead)[|window| + more..]
  {
  }

  class Reader {
    const fill: Source?     // fill function; none when the data is all in memory
    const buffer: array<Byte>

    var data: nat           // next unread byte of the buffer
    var end: nat            // one past its last byte
    var error: Error

    ghost predicate Valid()
      reads this, fill
    {
      && data <= end <= buffer.Length && (error != Ok ==> data == end)
      && (fill != null ==> fill.blocking && MINIMUM_BUFFER_SIZE <= buffer.Length)
    }

    /** What reading may overwrite: the buffer of a stream, but never data given in memory. */
    ghost function Storage(): set<object> { if fill == null then {} else {buffer} }

    /** Bytes not read yet: buffered, then still to be delivered. */
    ghost function Remaining(): Bytes
      reads this, fill, buffer
      requires Valid()
    {
      buffer[data..end] + (if fill == null then [] else fill.remaining)
    }

    constructor InMemory(contents: array<Byte>)
      ensures Valid() && fill == null && buffer == contents && error == Ok && Remaining() == contents[..]
    {
      fill, buffer, data, end, error := null, contents, 0, contents.Length, Ok;
      new;
      assert Remaining() == contents[..];
    }

    constructor OnStream(from: Source, buffer: array<Byte>)
      requires from.blocking && MINIMUM_BUFFER_SIZE <= buffer.Length
      ensures Valid() && fill == from && this.buffer == buffer && error == Ok && Remaining() == from.remaining
    {
      fill, this.buffer, data, end, error := from, buffer, 0, 0, Ok;
      new;
      assert Remaining() == from.remaining;
    }

    method FlagError(e: Error)
      requires Valid() && e != Ok
      modifies this`error, this`end
      ensures Valid() && error == (if old(error) == Ok then e else old(error))
          && end == if old(error) == Ok then data else old(end)
      ensures |Remaining()| <= |old(Remaining())|
    {
      if error == Ok {
        error := e;
        end := data;
      }
    }

    // ----- refilling

    /** Loops on the fill function until at least `min` and at most `max` bytes have come. */
    method FillRange(min: nat, max: nat) returns (got: Bytes)
      requires Valid() && fill != null && error == Ok && 0 < min <= max
      modifies this`error, this`end, fill
      ensures Valid()
      ensures error == Ok ==> min <= |got| <= max && old(fill.remaining) == got + fill.remaining && end == old(end)
      ensures error == if min <= |old(fill.remaining)| then Ok else Io
      ensures error != Ok ==> got == [] && end == data && |fill.remaining| <= |old(fill.remaining)|
    {
      got := [];
      while |got| < min
        invariant |got| <= max && old(fill.remaining) == got + fill.remaining
        invariant Valid() && error == Ok && end == old(end)
        decreases max - |got|
      {
        var chunk := fill.Read(max - |got|);
        if chunk == [] {
          FlagError(Io);
          return [];
        }
        got := got + chunk;
      }
    }

    /** Stores freshly read bytes in the buffer. */
    method Store(at: nat, got: Bytes)
      requires at + |got| <= buffer.Length
      modifies buffer
      ensures buffer[at..at + |got|] == got && buffer[..at] == old(buffer[..at])
    {
      forall i | 0 <= i < |got| {
        buffer[at + i] := got[i];
      }
    }

    /** Moves the window to the start of the buffer. */
    method Compact()
      requires Valid()
      modifies this`data, this`end, buffer
      ensures Valid() && data == 0 && end == old(end - data) && buffer[..end] == old(buffer[data..end])
    {
      var left := end - data;
      ghost var kept := buffer[data..end];
      forall i | 0 <= i < left {
        buffer[i] := buffer[data + i];
      }
      end, data := left, 0;
      assert buffer[..left] == kept;
    }

    /** Adds freshly read bytes to a window that starts at the start of the buffer. */
    method Append(got: Bytes)
      requires Valid() && error == Ok && data == 0 && end + |got| <= buffer.Length
      modifies this`end, buffer
      ensures Valid() && end == old(end) + |got| && buffer[..end] == old(buffer[..end]) + got
    {
      Store(end, got);
      end := end + |got|;
      assert buffer[..end] == buffer[..old(end)] + buffer[old(end)..end];
    }

    /** Adds to a window at the start of the buffer until it holds `count` bytes. */
    method TopUp(count: nat) returns (ok: bool)
      requires Valid() && fill != null && error == Ok && data == 0 && end < count <= buffer.Length
      modifies this`error, this`end, fill, buffer
      ensures Valid() && |Remaining()| <= |old(Remaining())|
      ensures ok ==> error == Ok && count <= end && Remaining() == old(Remaining())
      ensures ok <==> count <= |old(Remaining())|
      ensures !ok ==> error == Io
    {
      ghost var window, ahead := buffer[..end], fill.remaining;
      assert Remaining() == window + ahead;
      var got := FillRange(count - end, buffer.Length - end);
      if error != Ok {
        return false;
      }
      Append(got);
      assert Remaining() == window + got + fill.remaining;
      assert window + got + fill.remaining == window + (got + fill.remaining);
      return true;
    }

    method EnsureStraddle(count: nat) returns (ok: bool)
      requires Valid() && error == Ok && end - data < count
      modifies this, fill, Storage()
      ensures Valid() && |Remaining()| <= |old(Remaining())|
      ensures ok ==> error == Ok && count <= end - data && Remaining() == old(Remaining())
      ensures ok <==> fill != null && count <= buffer.Length && count <= |old(Remaining())|
      ensures !ok ==> error == if fill == null then Invalid else if count > buffer.Length then TooBig else Io
    {
      if fill == null {
        FlagError(Invalid);
        return false;
      }
      if count > buffer.Length {
        FlagError(TooBig);
        return false;
      }
      Compact();
      ok := TopUp(count);
    }

    /** Makes sure that `count` bytes are in the buffer. */
    method Ensure(count: nat) returns (ok: bool)
      requires Valid() && error == Ok && count > 0
      modifies this, fill, Storage()
      ensures Valid() && |Remaining()| <= |old(Remaining())|
      ensures ok ==> error == Ok && count <= end - data && Remaining() == old(Remaining())
      ensures ok <==> count <= |old(Remaining())| && (count <= old(end - data) || count <= buffer.Length)
      ensures !ok ==> error == if fill == null then Invalid else if count > buffer.Length then TooBig else Io
    {
      if count <= end - data {
        return true;
      }
      ok := EnsureStraddle(count);
    }

    // ----- raw bytes

    lemma {:induction false} WindowSplit(count: nat)
      requires Valid() && count <= end - data
      ensures buffer[data..data + count] == Remaining()[..count]
      ensures buffer[data + count..end] + (if fill == null then [] else fill.remaining) == Remaining()[count..]
    {
      var window := buffer[data..end];
      assert buffer[data..data + count] == window[..count] && buffer[data + count..end] == window[count..];
      Cut(window, if fill == null then [] else fill.remaining, count);
    }

    /** Fills the empty buffer as far as it goes and takes the first `more` bytes. */
    method Refill(more: nat) returns (p: Bytes)
      requires Valid() && fill != null && error == Ok && data == end && 0 < more <= buffer.Length
      modifies this, fill, Storage()
      ensures Valid() && |Remaining()| <= |old(fill.remaining)|
      ensures error == if more <= |old(fill.remaining)| then Ok else Io
      ensures error == Ok ==> p == old(fill.remaining)[..more] && Remaining() == old(fill.remaining)[more..]
    {
      var got := FillRange(more, buffer.Length);
      if error != Ok {
        return [];
      }
      data, end := 0, 0;
      Append(got);
      assert buffer[..end] == got;
      Straddled([], old(fill.remaining), got, more);
      assert [] + old(fill.remaining) == old(fill.remaining) && [] + got[..more] == got[..more];
      p := buffer[..more];
      data := more;
      assert p == buffer[..end][..more] && buffer[more..end] == buffer[..end][more..];
    }

    /** Takes what is buffered and goes on reading, through the buffer or straight into the target. */
    method ReadNativeStraddle(count: nat) returns (p: Bytes)
      requires Valid() && end - data < count
      modifies this, fill, Storage()
      ensures Valid() && |Remaining()| <= |old(Remaining())|
      ensures old(error) != Ok ==> error == old(error) && Blank(p, count) && Remaining() == old(Remaining())
      ensures fill == null && error != Ok ==> Blank(p, count)
      ensures error == Ok ==>
          count <= |old(Remaining())| && p == old(Remaining())[..count] && Remaining() == old(Remaining())[count..]
      ensures old(error) == Ok
          ==> error == if count <= |old(Remaining())| then Ok else if fill == null then Invalid else Io
    {
      if error != Ok {
        return Zeros(count);
      }
      if fill == null {
        FlagError(Invalid);
        return Zeros(count);
      }
      var left := buffer[data..end];
      ghost var ahead := fill.remaining;
      var more := count - |left|;
      data := end;
      if more <= buffer.Length / SMALL_FRACTION_DENOMINATOR {
        p := Refill(more);
      } else {
        p := FillRange(more, more);
      }
      if error == Ok {
        assert p == ahead[..more] && Remaining() == ahead[more..];
        Past(left, ahead, more);
      }
      p := left + p;
    }

    /** Reads `count` bytes; after an error they are zeros. */
    method ReadNative(count: nat) returns (p: Bytes)
      requires Valid()
      modifies this, fill, Storage()
      ensures Valid() && |Remaining()| <= |old(Remaining())|
      ensures old(error) != Ok ==> error == old(error) && Blank(p, count) && Remaining() == old(Remaining())
      ensures fill == null && error != Ok ==> Blank(p, count)
      ensures error == Ok ==>
          count <= |old(Remaining())| && p == old(Remaining())[..count] && Remaining() == old(Remaining())[count..]
      ensures old(error) == Ok
          ==> error == if count <= |old(Remaining())| then Ok else if fill == null then Invalid else Io
    {
      if count > end - data {
        p := ReadNativeStraddle(count);
      } else {
        p := Take(count);
      }
    }

    /** Takes bytes that are buffered. */
    method Take(count: nat) returns (p: Bytes)
      requires Valid() && count <= end - data
      modifies this`data
      ensures Valid() && count <= |old(Remaining())| && p == old(Remaining())[..count]
      ensures Remaining() == old(Remaining())[count..]
    {
      WindowSplit(count);
      p := buffer[data..data + count];
      data := data + count;
    }

    /** Reads `count` bytes in place: possible up to the size of the buffer. */
    method ReadInPlace(count: nat) returns (p: Bytes)
      requires Valid()
      modifies this, fill, Storage()
      ensures Valid() && |Remaining()| <= |old(Remaining())|
      ensures old(error) != Ok ==> error == old(error) && p == [] && Remaining() == old(Remaining())
      ensures error == Ok ==>
          count <= |old(Remaining())| && p == old(Remaining())[..count] && Remaining() == old(Remaining())[count..]
      ensures old(error) == Ok ==>
                (error == Ok <==> count <= |old(Remaining())| && (count <= old(end - data) || count <= buffer.Length))
      ensures old(error) == Ok && error != Ok ==>
                p == [] && error == if fill == null then Invalid else if count > buffer.Length then TooBig else Io
    {
      hide Remaining;
      if error != Ok {
        return [];
      }
      if end - data < count {
        var ok := Ensure(count);
        if !ok {
          return [];
        }
      }
      p := Take(count);
    }

    /** Skips by filling and discarding whole buffers, then the rest from one last fill. */
    method SkipUsingFill(count: nat)
      requires Valid() && fill != null && error == Ok && data == end && count > 0
      modifies this, fill, Storage()
      ensures Valid() && |Remaining()| <= |old(Remaining())|
      ensures error == Ok ==> count <= |old(Remaining())| && Remaining() == old(Remaining())[count..]
      ensures error == if count <= |old(Remaining())| then Ok else Io
    {
      var left := count;
      ghost var all := fill.remaining;
      assert Remaining() == all;
      while left > buffer.Length
        invariant Valid() && error == Ok && data == end && 0 < left <= count
        invariant count - left <= |all| && fill.remaining == all[count - left..]
      {
        var got := FillRange(buffer.Length, buffer.Length);
        if |got| < buffer.Length {
          FlagError(Io);
          return;
        }
        left := left - buffer.Length;
      }
      data, end := 0, 0;
      var got := FillRange(left, buffer.Length);
      if |got| < left {
        FlagError(Io);
        return;
      }
      Append(got);
      data := left;
      assert Remaining() == (got + fill.remaining)[left..];
    }

    /** Skips `count` bytes. */
    method SkipBytes(count: nat)
      requires Valid()
      modifies this, fill, Storage()
      ensures Valid() && |Remaining()| <= |old(Remaining())|
      ensures old(error) != Ok ==> error == old(error) && Remaining() == old(Remaining())
      ensures error == Ok ==> count <= |old(Remaining())| && Remaining() == old(Remaining())[count..]
      ensures old(error) == Ok
          ==> error == if count <= |old(Remaining())| then Ok else if fill == null then Invalid else Io
    {
      if error != Ok {
        return;
      }
      var left := end - data;
      if left >= count {
        data := data + count;
        return;
      }
      if fill == null {
        FlagError(Invalid);
        return;
      }
      data := end;
      SkipUsingFill(count - left);
    }

    // ----- tags and whole objects

    /** Reads the tag at the front of the stream without taking it; 0 if there is none. */
    method ParseTag() returns (size: nat, tag: Tag)
      requires Valid() && error == Ok
      modifies this, fill, Storage()
      ensures Valid() && |Remaining()| <= |old(Remaining())|
      ensures match DecodeTag(old(Remaining()))
              case TagOk(t, n) => error == Ok && size == n && tag == t && n <= end - data
                  && Remaining() == old(Remaining())
              case TagShort => size == 0 && error == if fill == null then Invalid else Io
              case TagBad(e) => size == 0 && error == e
    {
      hide LoadTag, Supported, TagSize, DecodeTag, Remaining;
      size, tag := 0, Nil;
      ghost var r := Remaining();
      TagCases(r);
      FrontByte();
      var ok := Ensure(1);
      if !ok {
        return;
      }
      var kind := buffer[data];
      FrontByte();
      if !Supported(kind) {
        FlagError(if kind == 0xc1 then Invalid else Unsupported);
        return;
      }
      ok := Ensure(TagSize(kind));
      if !ok {
        return;
      }
      FrontByte();
      size, tag := TagSize(kind), LoadTag(buffer[data..end]);
      TagInWindow(r);
    }

    lemma {:induction false} FrontByte()
      requires Valid()
      ensures data < end ==> Remaining() != [] && Remaining()[0] == buffer[data]
      ensures fill == null ==> |Remaining()| == end - data
    {
    }

    lemma {:induction false} TagInWindow(r: Bytes)
      requires Valid() && r == Remaining() && data < end && Supported(buffer[data])
          && TagSize(buffer[data]) <= end - data
      ensures DecodeTag(r) == TagOk(LoadTag(buffer[data..end]), TagSize(buffer[data]))
    {
      hide LoadTag;
      var w := buffer[data..end];
      assert w[0] == buffer[data];
      DecodeTagStable(w, if fill == null then [] else fill.remaining);
    }

    /** Takes the tag at the front of the stream. */
    method ReadTag() returns (tag: Tag)
      requires Valid()
      modifies this, fill, Storage()
      ensures Valid() && |Remaining()| <= |old(Remaining())|
      ensures old(error) != Ok ==> error == old(error)
      ensures error != Ok ==> tag == Nil
      ensures old(error) == Ok ==>
                match DecodeTag(old(Remaining()))
                case TagOk(t, n) => error == Ok && tag == t && Remaining() == old(Remaining())[n..]
                case TagShort => error == if fill == null then Invalid else Io
                case TagBad(e) => error == e
    {
      hide DecodeTag;
      if error != Ok {
        return Nil;
      }
      var size;
      size, tag := ParseTag();
      if error != Ok {
        return Nil;
      }
      WindowSplit(size);
      data := data + size;
    }

    /** Reads over one whole object, nested ones included. */
    method Discard()
      requires Valid()
      modifies this, fill, Storage()
      ensures Valid() && |Remaining()| <= |old(Remaining())|
      ensures old(error) != Ok ==> error == old(error)
      ensures old(error) == Ok ==>
                var one := Decode(old(Remaining()), 0, 1);
                error == Verdict(one, fill != null) && (one.Done? ==> Remaining() == old(Remaining())[one.end..])
      decreases |Remaining()|, 0
    {
      hide DecodeTag, Decode, Remaining, Reached;
      ghost var r := Remaining();
      TagVerdict(r);
      var tag := ReadTag();
      if error != Ok {
        return;
      }
      ghost var pos := DecodeTag(r).size;
      match tag
      case Str(l) => SkipBytes(l);
      case Bin(l) => SkipBytes(l);
      case Array(n) =>
        ReachedStart(r, pos);
        DiscardArray(n, r, pos);
        if error == Ok { ReachedEnd(r, pos, n, Remaining()); }
      case Map(n) =>
        ReachedStart(r, pos);
        DiscardMap(n, r, pos);
        if error == Ok { ReachedEnd(r, pos, 2 * n, Remaining()); }
      case _ =>
    }

    /** Reads over the elements of an array whose tag has been taken. */
    method DiscardArray(n: nat, ghost r: Bytes, ghost pos: nat)
      requires Valid() && error == Ok && Reached(r, pos, 0, Remaining())
      modifies this, fill, Storage()
      ensures Valid() && |Remaining()| <= |old(Remaining())|
      ensures error == Verdict(Decode(r, pos, n), fill != null)
      ensures error == Ok ==> Reached(r, pos, n, Remaining())
      decreases |Remaining()|, 1
    {
      hide Decode, Remaining;
      var left := n;
      while left > 0
        invariant Valid() && error == Ok && 0 <= left <= n && Reached(r, pos, n - left, Remaining())
        invariant |Remaining()| <= |old(Remaining())|
      {
        ReachedStep(r, pos, n - left, Remaining());
        Discard();
        if error != Ok {
          DecodeCut(r, pos, n - left + 1, n);
          return;
        }
        left := left - 1;
      }
    }

    /** Reads over the keys and values of a map whose tag has been taken. */
    method DiscardMap(n: nat, ghost r: Bytes, ghost pos: nat)
      requires Valid() && error == Ok && Reached(r, pos, 0, Remaining())
      modifies this, fill, Storage()
      ensures Valid() && |Remaining()| <= |old(Remaining())|
      ensures error == Verdict(Decode(r, pos, 2 * n), fill != null)
      ensures error == Ok ==> Reached(r, pos, 2 * n, Remaining())
      decreases |Remaining()|, 1
    {
      hide Decode, Remaining;
      var left := n;
      while left > 0
        invariant Valid() && error == Ok && 0 <= left <= n && Reached(r, pos, 2 * (n - left), Remaining())
        invariant |Remaining()| <= |old(Remaining())|
      {
        ReachedStep(r, pos, 2 * (n - left), Remaining());
        DecodeCut(r, pos, 2 * (n - left) + 1, 2 * n);
        DecodeCut(r, pos, 2 * (n - left) + 2, 2 * n);
        Discard();
        if error == Ok {
          ReachedStep(r, pos, 2 * (n - left) + 1, Remaining());
        }
        Discard();
        if error != Ok {
          return;
        }
        left := left - 1;
      }
    }
  }

  /** The error that a reading ends with: what is cut short is invalid in memory and an I/O error on a stream. */
  ghost function Verdict(d: Decoded, streaming: bool): Error {
    match d
    case Done(_, _) => Ok
    case Short => if streaming then Io else Invalid
    case Bad(e) => e
  }

  /** `rest` is what follows the first `n` objects of `r` after offset `pos`. */
  ghost predicate Reached(r: Bytes, pos: nat, n: nat, rest: Bytes) {
    pos <= |r| && Decode(r, pos, n).Done? && rest == r[Decode(r, pos, n).end..]
  }

  lemma {:induction false} ReachedStep(r: Bytes, pos: nat, n: nat, rest: Bytes)
    requires Reached(r, pos, n, rest)
    ensures var one := Decode(rest, 0, 1);
            if one.Done? then Reached(r, pos, n + 1, rest[one.end..]) else Decode(r, pos, n + 1) == one
  {
    hide Decode;
    var at := Decode(r, pos, n).end;
    assert r == r[..at] + rest;
    DecodeShift(r[..at], rest, 0, 1);
    DecodeSplit(r, pos, n, 1);
    var one := Decode(rest, 0, 1);
    if one.Done? { assert rest[one.end..] == r[at + one.end..]; }
  }

  /** A list of objects that fails early fails the same way. */
  lemma {:induction false} DecodeCut(r: Bytes, pos: nat, m: nat, n: nat)
    requires pos <= |r| && m <= n
    ensures !Decode(r, pos, m).Done? ==> Decode(r, pos, n) == Decode(r, pos, m)
  {
    hide Decode;
    DecodeSplit(r, pos, m, n - m);
  }

  lemma {:induction false} HeadOfTag(r: Bytes)
    ensures match DecodeTag(r)
            case TagOk(tag, n) =>
              var end := n + PayloadLen(tag);
              if end <= |r| then HeadAt(r, 0) == Head(tag, r[n..end], end) else HeadAt(r, 0) == HeadShort
            case TagShort => HeadAt(r, 0) == HeadShort
            case TagBad(e) => HeadAt(r, 0) == HeadBad(e)
  {
  }

  /** What a tag says about the object it starts. */
  lemma {:induction false} TagVerdict(r: Bytes)
    ensures match DecodeTag(r)
            case TagShort => Decode(r, 0, 1) == Short
            case TagBad(e) => Decode(r, 0, 1) == Bad(e)
            case TagOk(tag, n) =>
              if tag.Array? || tag.Map? then
                var kids := Decode(r, n, KidCount(tag));
                if kids.Done? then Decode(r, 0, 1).Done? && Decode(r, 0, 1).end == kids.end else Decode(r, 0, 1) == kids
              else if n + PayloadLen(tag) <= |r| then
                Decode(r, 0, 1).Done? && Decode(r, 0, 1).end == n + PayloadLen(tag)
              else Decode(r, 0, 1) == Short
  {
    hide Decode, HeadAt, DecodeTag;
    HeadOfTag(r);
    DecodeUnfold(r, 0, 1);
    var h := HeadAt(r, 0);
    if h.Head? {
      DecodeNone(r, h.end);
      var kids := Decode(r, h.end, KidCount(h.tag));
      if kids.Done? { DecodeNone(r, kids.end); }
    }
  }

  lemma {:induction false} ReachedStart(r: Bytes, pos: nat)
    requires pos <= |r|
    ensures Reached(r, pos, 0, r[pos..])
  {
  }

  lemma {:induction false} ReachedEnd(r: Bytes, pos: nat, n: nat, rest: Bytes)
    requires Reached(r, pos, n, rest)
    ensures pos <= |r| && Decode(r, pos, n).Done? && rest == r[Decode(r, pos, n).end..]
  {
    hide Decode;
  }
}
