/**
 The buffered writer, with write tracking on. Without a flush function it fills one buffer; the
 growable writer's flush function grows the buffer instead of emptying it.
 */
module Writer {
  import opened Wire
  import opened Values
  import opened Tracking
  import opened Growth

  const BUFFER_SIZE: nat := 4096
  const MINIMUM_BUFFER_SIZE: nat := 32

  /** What a flush is asked to put away: the first `count` bytes of the buffer itself, or bytes from elsewhere. */
  datatype Flushed = Whole(count: nat) | Extra(p: Bytes)

  /** One call on a writer. */
  datatype Op =
    | Tagged(tag: Tag)
    | Finished(kind: Kind)
    | Filling(d: Bytes)
    | Str(d: Bytes)
    | Bin(d: Bytes)
    | Object(d: Bytes)
    | FlushMessage

  /** Lengths a 32-bit count can carry, and objects that are objects. */
  ghost predicate Callable(op: Op) {
    match op
    case Str(d) => |d| < 0x1_0000_0000
    case Bin(d) => |d| < 0x1_0000_0000
    case Object(d) => IsObject(d)
    case _ => true
  }

  /** The bytes a call stands for. */
  ghost function Emits(op: Op): Bytes
    requires Callable(op)
  {
    match op
    case Tagged(tag) => EncodeTag(tag)
    case Finished(_) => []
    case Filling(d) => d
    case Str(d) => EncodeTag(Tag.Str(|d|)) + d
    case Bin(d) => EncodeTag(Tag.Bin(|d|)) + d
    case Object(d) => d
    case FlushMessage => []
  }

  ghost function EmitsAll(ops: seq<Op>): Bytes
    requires forall op :: op in ops ==> Callable(op)
  {
    if ops == [] then [] else EmitsAll(ops[..|ops| - 1]) + Emits(ops[|ops| - 1])
  }

  lemma {:induction false} NothingEmitted()
    ensures EmitsAll([]) == []
  {
  }

  lemma {:induction false} EmitsStep(ops: seq<Op>, i: nat)
    requires i < |ops| && forall op :: op in ops ==> Callable(op)
    ensures EmitsAll(ops[..i + 1]) == EmitsAll(ops[..i]) + Emits(ops[i])
  {
    assert ops[..i + 1][..i] == ops[..i];
  }

  /** What tracking knows: the open compounds, and the objects begun at top level. */
  datatype Tracked = Tracked(track: Track, tops: nat)

  datatype Outcome = Out(to: Tracked) | Refused

  /** What a call does to the tracking state; an illegal call is refused. */
  ghost function Effect(op: Op, t: Tracked): Outcome {
    match op
    case Tagged(tag) =>
      if MayWrite(t.track) then Out(Tracked(Opened(t.track, tag), Tops(t.track, t.tops))) else Refused
    case Finished(kind) =>
      var k := |t.track| - 1;
      if k >= 0 && t.track[k] == Open(kind, 0) then Out(t.(track := t.track[..k])) else Refused
    case Filling(d) => if MayFill(t.track, |d|) then Out(t.(track := Filled(t.track, |d|))) else Refused
    case FlushMessage => if t.track == [] then Out(t) else Refused
    case _ => if MayWrite(t.track) then Out(Tracked(Counted(t.track), Tops(t.track, t.tops))) else Refused
  }

  /** A run of calls; once refused it stays so. */
  ghost function Replay(t: Tracked, ops: seq<Op>): Outcome {
    if ops == [] then Out(t)
    else
      var n := |ops| - 1;
      var before := Replay(t, ops[..n]);
      if before.Refused? then Refused else Effect(ops[n], before.to)
  }

  lemma {:induction false} NothingReplayed(t: Tracked, ops: seq<Op>)
    ensures Replay(t, ops[..0]) == Out(t)
  {
  }

  lemma {:induction false} ReplayStep(t: Tracked, ops: seq<Op>, i: nat)
    requires i < |ops|
    ensures Replay(t, ops[..i + 1]) ==
            if Replay(t, ops[..i]).Refused? then Refused else Effect(ops[i], Replay(t, ops[..i]).to)
  {
    assert ops[..i + 1][..i] == ops[..i];
  }

  /** The error that a call on a sound writer ends with: illegal calls are bugs, and a caller's buffer can be full. */
  ghost function CallVerdict(op: Op, t: Tracked, growable: bool, room: int): Error
    requires Callable(op)
  {
    if Effect(op, t).Refused? || (op.FlushMessage? && !growable) then Bug
    else if growable || |Emits(op)| <= room then Ok
    else TooBig
  }

  /** The error of a run: that of its first call that fails. */
  ghost function RunVerdict(ops: seq<Op>, t: Tracked, growable: bool, room: nat): (e: Error)
    requires forall op :: op in ops ==> Callable(op)
    ensures e == Ok ==> Replay(t, ops).Out?
  {
    if ops == [] then Ok
    else
      var n := |ops| - 1;
      var before := RunVerdict(ops[..n], t, growable, room);
      if before != Ok then before
      else CallVerdict(ops[n], Replay(t, ops[..n]).to, growable, room - |EmitsAll(ops[..n])|)
  }

  lemma {:induction false} VerdictNone(t: Tracked, growable: bool, room: nat)
    ensures RunVerdict([], t, growable, room) == Ok
  {
  }

  lemma {:induction false} VerdictStep(ops: seq<Op>, t: Tracked, growable: bool, room: nat, i: nat)
    requires i < |ops| && forall op :: op in ops ==> Callable(op)
    ensures var before := RunVerdict(ops[..i], t, growable, room);
            RunVerdict(ops[..i + 1], t, growable, room) ==
            if before != Ok then before
            else CallVerdict(ops[i], Replay(t, ops[..i]).to, growable, room - |EmitsAll(ops[..i])|)
  {
    hide CallVerdict, Replay, EmitsAll;
    assert ops[..i + 1][..i] == ops[..i];
  }

  /** A growable writer does not look at the room it has. */
  lemma {:induction false} RoomFree(op: Op, t: Tracked, room: int, other: int)
    requires Callable(op)
    ensures CallVerdict(op, t, true, room) == CallVerdict(op, t, true, other)
  {
  }

  /** A run succeeds exactly if tracking accepts it and, over a caller's buffer, nothing flushes and all fits. */
  lemma {:induction false} VerdictExact(ops: seq<Op>, t: Tracked, growable: bool, room: nat)
    requires forall op :: op in ops ==> Callable(op)
    ensures RunVerdict(ops, t, growable, room) == Ok <==>
            Replay(t, ops).Out? && (growable || (FlushMessage !in ops && |EmitsAll(ops)| <= room))
    ensures RunVerdict(ops, t, growable, room) in {Ok, Bug, TooBig}
    ensures growable ==> RunVerdict(ops, t, growable, room) != TooBig
    decreases |ops|
  {
    hide Effect, Emits;
    if ops != [] {
      var n := |ops| - 1;
      VerdictExact(ops[..n], t, growable, room);
      assert ops == ops[..n] + [ops[n]];
    }
  }

  class Writer {
    const growable: bool    // a flush function is set, and it is the growable writer's

    var buffer: array<Byte>
    var current: nat
    var error: Error
    var track: Track
    ghost var tops: nat     // objects begun at top level

    ghost predicate BufferOk()
      reads this
    {
      current <= buffer.Length && (growable ==> MINIMUM_BUFFER_SIZE <= buffer.Length)
    }

    /** The bytes written so far. */
    ghost function Output(): Bytes
      reads this, buffer
      requires BufferOk()
    {
      buffer[..current]
    }

    /** The output lacks exactly what the tracked compounds still owe. */
    ghost predicate Sound()
      reads this, buffer
      requires BufferOk()
    {
      SoundOn(Output(), tops, track)
    }

    ghost predicate Valid()
      reads this, buffer
    {
      BufferOk() && (error == Ok ==> Sound())
    }

    constructor Growable()
      ensures Valid() && fresh(buffer) && growable && error == Ok && track == [] && tops == 0 && Output() == []
    {
      growable := true;
      buffer := new Byte[BUFFER_SIZE](_ => 0);
      current, error, track, tops := 0, Ok, [], 0;
      new;
      ContinuesEmpty();
      assert Output() == [];
    }

    constructor Fixed(buffer: array<Byte>)
      ensures Valid() && this.buffer == buffer && !growable && error == Ok && track == [] && tops == 0 && Output() == []
    {
      growable := false;
      this.buffer := buffer;
      current, error, track, tops := 0, Ok, [], 0;
      new;
      ContinuesEmpty();
      assert Output() == [];
    }

    // ----- the buffer

    function Room(): nat
      reads this
      requires BufferOk()
    {
      buffer.Length - current
    }

    /** Copies bytes that are known to fit. */
    method Copy(p: Bytes)
      requires BufferOk() && |p| <= Room()
      modifies this`current, buffer
      ensures BufferOk() && Output() == old(Output()) + p
    {
      forall i | 0 <= i < |p| {
        buffer[current + i] := p[i];
      }
      current := current + |p|;
    }

    /** Moves the contents to a larger buffer. */
    method Enlarge(newSize: nat)
      requires BufferOk() && newSize >= buffer.Length
      modifies this`buffer
      ensures BufferOk() && fresh(buffer) && buffer.Length == newSize && Output() == old(Output())
    {
      var newBuffer := new Byte[newSize](_ => 0);
      forall i | 0 <= i < current {
        newBuffer[i] := buffer[i];
      }
      assert newBuffer[..current] == buffer[..current];
      buffer := newBuffer;
    }

    /** The growable writer's flush: leaves everything where it is and makes the buffer at least twice as large. */
    method Flush(what: Flushed)
      requires growable && BufferOk()
      requires what.Whole? ==> what.count <= buffer.Length && (current == 0 || current == what.count)
      modifies this`buffer, this`current, buffer
      ensures BufferOk() && (buffer == old(buffer) || fresh(buffer))
      ensures what.Whole? ==> Output() == old(buffer[..what.count])
      ensures what.Whole? && old(current) == what.count ==> buffer == old(buffer)
      ensures what.Whole? && old(current) != what.count ==>
          buffer.Length == Doubled(2 * old(buffer.Length), what.count)
      ensures what.Extra? ==>
          && Output() == old(Output()) + what.p
          && buffer.Length == Doubled(2 * old(buffer.Length), old(current) + |what.p|)
    {
      if what.Whole? {
        if current == what.count {
          return;
        }
        current := what.count;
      }
      var count := if what.Whole? then 0 else |what.p|;
      var newSize := buffer.Length * 2;
      while newSize < current + count
        invariant newSize >= 2 * buffer.Length
        invariant Doubled(newSize, current + count) == Doubled(2 * buffer.Length, current + count)
        decreases current + count - newSize
      {
        newSize := newSize * 2;
      }
      Enlarge(newSize);
      if what.Extra? {
        Copy(what.p);
      }
    }

    /** Empties the buffer's count before flushing it, which is how the flush tells a full buffer from a teardown. */
    method FlushUnchecked()
      requires growable && BufferOk()
      modifies this`buffer, this`current, buffer
      ensures BufferOk() && (buffer == old(buffer) || fresh(buffer))
      ensures Output() == old(Output())
      ensures old(current) > 0 ==> buffer.Length >= 2 * old(buffer.Length)
      ensures old(current) == 0 ==> current == 0 && buffer.Length >= old(buffer.Length)
    {
      var used := current;
      current := 0;
      Flush(Whole(used));
    }

    /** Makes room for a few bytes; with a flush function this never fails. */
    method EnsureRoom(count: nat) returns (ok: bool)
      requires BufferOk() && Room() < count <= MINIMUM_BUFFER_SIZE
      modifies this`buffer, this`current, this`error, buffer
      ensures BufferOk() && (buffer == old(buffer) || fresh(buffer))
      ensures Output() == old(Output())
      ensures ok ==> count <= Room() && error == Ok
      ensures ok <==> old(error) == Ok && growable
      ensures !ok ==> error == if old(error) == Ok then TooBig else old(error)
      ensures !growable ==> buffer == old(buffer)
    {
      if error != Ok {
        return false;
      }
      if !growable {
        error := TooBig;
        return false;
      }
      FlushUnchecked();
      ok := Room() >= count;
      if !ok {
        error := Io;
      }
    }

    /** Writes an encoded tag, alone or with a short string, straight into the buffer. */
    method WriteEncoded(p: Bytes)
      requires BufferOk() && 0 < |p| <= MINIMUM_BUFFER_SIZE
      modifies this`buffer, this`current, this`error, buffer
      ensures BufferOk() && (buffer == old(buffer) || fresh(buffer))
      ensures error == Ok ==> old(error) == Ok && Output() == old(Output()) + p
      ensures error == if old(error) != Ok then old(error) else if growable || |p| <= old(Room()) then Ok else TooBig
      ensures !growable ==> buffer == old(buffer)
    {
      var ok := Room() >= |p|;
      if !ok {
        ok := EnsureRoom(|p|);
      }
      if ok {
        Copy(p);
      }
    }

    method WriteNativeStraddle(p: Bytes)
      requires BufferOk() && Room() < |p|
      modifies this`buffer, this`current, this`error, buffer
      ensures BufferOk() && (buffer == old(buffer) || fresh(buffer))
      ensures error == Ok ==> old(error) == Ok && Output() == old(Output()) + p
      ensures error == if old(error) != Ok then old(error) else if growable then Ok else TooBig
      ensures !growable ==> buffer == old(buffer)
    {
      if error != Ok {
        return;
      }
      if !growable {
        error := TooBig;
        return;
      }
      FlushUnchecked();
      if |p| > Room() {
        Flush(Extra(p));
      } else {
        Copy(p);
      }
    }

    /** Writes bytes of any number. */
    method WriteNative(p: Bytes)
      requires BufferOk()
      modifies this`buffer, this`current, this`error, buffer
      ensures BufferOk() && (buffer == old(buffer) || fresh(buffer))
      ensures error == Ok ==> old(error) == Ok && Output() == old(Output()) + p
      ensures error == if old(error) != Ok then old(error) else if growable || |p| <= old(Room()) then Ok else TooBig
      ensures !growable ==> buffer == old(buffer)
    {
      if Room() < |p| {
        WriteNativeStraddle(p);
      } else {
        Copy(p);
      }
    }

    // ----- tracking

    method TrackElement()
      modifies this`track, this`tops, this`error
      ensures old(error) != Ok ==> error == old(error)
      ensures old(error) == Ok ==> error == if MayWrite(old(track)) then Ok else Bug
      ensures error == Ok ==> track == Counted(old(track)) && tops == Tops(old(track), old(tops))
    {
      if error != Ok {
        return;
      }
      if track == [] {
        tops := tops + 1;
        return;
      }
      var k := |track| - 1;
      if !track[k].HoldsElements() || track[k].left == 0 {
        error := Bug;
        return;
      }
      track := track[k := track[k].(left := track[k].left - 1)];
    }

    method TrackPush(kind: Kind, count: nat)
      modifies this`track
      ensures track == if error == Ok then old(track) + [Open(kind, if kind.MapKind? then 2 * count
          else count)] else old(track)
    {
      if error == Ok {
        track := track + [Open(kind, if kind.MapKind? then 2 * count else count)];
      }
    }

    method TrackBytes(count: nat)
      modifies this`track, this`error
      ensures old(error) != Ok ==> error == old(error)
      ensures old(error) == Ok ==> error == if MayFill(old(track), count) then Ok else Bug
      ensures error == Ok ==> track == Filled(old(track), count)
    {
      if error != Ok {
        return;
      }
      if track == [] {
        error := Bug;
        return;
      }
      var k := |track| - 1;
      if track[k].HoldsElements() || track[k].left < count {
        error := Bug;
        return;
      }
      track := track[k := track[k].(left := track[k].left - count)];
    }

    // ----- the write functions

    /** Writes a scalar, or opens a compound. */
    method WriteTag(tag: Tag)
      requires Valid()
      modifies this, buffer
      ensures Valid() && (buffer == old(buffer) || fresh(buffer))
      ensures error == Ok ==> old(error) == Ok && MayWrite(old(track)) && track == Opened(old(track), tag)
      ensures error == Ok ==> Output() == old(Output()) + EncodeTag(tag) && tops == Tops(old(track), old(tops))
      ensures error == if old(error) != Ok then old(error) else if !MayWrite(old(track)) then Bug
          else if growable || |EncodeTag(tag)| <= old(Room()) then Ok else TooBig
      ensures !growable ==> buffer == old(buffer)
    {
      hide EncodeTag, SoundOn;
      ghost var out := Output();
      TrackElement();
      WriteEncoded(EncodeTag(tag));
      match tag {
        case Str(l) => TrackPush(StrKind, l);
        case Bin(l) => TrackPush(BinKind, l);
        case Array(n) => TrackPush(ArrayKind, n);
        case Map(n) => TrackPush(MapKind, n);
        case _ =>
      }
      if error == Ok {
        SoundTag(out, old(tops), old(track), tag);
      }
    }

    /** Closes the innermost compound. */
    method Finish(kind: Kind)
      requires Valid()
      modifies this`track, this`error
      ensures Valid() && Output() == old(Output())
      ensures error == Ok ==> old(error) == Ok && old(track) != [] && track == old(track)[..|old(track)| - 1]
      ensures error == if old(error) != Ok then old(error)
                       else if old(track) != [] && old(track)[|old(track)| - 1] == Open(kind, 0) then Ok else Bug
    {
      hide SoundOn;
      if error != Ok {
        return;
      }
      if track == [] || track[|track| - 1].kind != kind || track[|track| - 1].left != 0 {
        error := Bug;
        return;
      }
      SoundPop(Output(), tops, track);
      track := track[..|track| - 1];
    }

    /** Writes part of the contents of an open str or bin. */
    method WriteBytes(d: Bytes)
      requires Valid()
      modifies this, buffer
      ensures Valid() && (buffer == old(buffer) || fresh(buffer))
      ensures error == Ok ==> old(error) == Ok && MayFill(old(track), |d|) && track == Filled(old(track), |d|)
      ensures error == Ok ==> Output() == old(Output()) + d && tops == old(tops)
      ensures error == if old(error) != Ok then old(error) else if !MayFill(old(track), |d|) then Bug
          else if growable || |d| <= old(Room()) then Ok else TooBig
      ensures !growable ==> buffer == old(buffer)
    {
      hide SoundOn;
      ghost var out := Output();
      TrackBytes(|d|);
      WriteNative(d);
      if error == Ok {
        SoundBytes(out, old(tops), old(track), d);
      }
    }

    /** Writes bytes that the caller vouches to be one whole object. */
    method WriteObjectBytes(d: Bytes)
      requires Valid() && IsObject(d)
      modifies this, buffer
      ensures Valid() && (buffer == old(buffer) || fresh(buffer))
      ensures error == Ok ==> old(error) == Ok && MayWrite(old(track)) && track == Counted(old(track))
      ensures error == Ok ==> Output() == old(Output()) + d && tops == Tops(old(track), old(tops))
      ensures error == if old(error) != Ok then old(error) else if !MayWrite(old(track)) then Bug
          else if growable || |d| <= old(Room()) then Ok else TooBig
      ensures !growable ==> buffer == old(buffer)
    {
      hide SoundOn, IsObject;
      ghost var out := Output();
      TrackElement();
      WriteNative(d);
      if error == Ok {
        SoundObject(out, old(tops), old(track), d);
      }
    }

    /** Writes a str in one piece, small ones in a single copy. */
    method WriteStr(d: Bytes)
      requires Valid() && |d| < 0x1_0000_0000
      modifies this, buffer
      ensures Valid() && (buffer == old(buffer) || fresh(buffer))
      ensures error == Ok ==> old(error) == Ok && MayWrite(old(track)) && track == Counted(old(track))
      ensures error == Ok ==>
          Output() == old(Output()) + (EncodeTag(Tag.Str(|d|)) + d) && tops == Tops(old(track), old(tops))
      ensures error == if old(error) != Ok then old(error) else if !MayWrite(old(track)) then Bug
          else if growable || |EncodeTag(Tag.Str(|d|)) + d| <= old(Room()) then Ok else TooBig
      ensures !growable ==> buffer == old(buffer)
    {
      hide SoundOn, IsObject;
      ghost var out := Output();
      var tag := EncodeTag(Tag.Str(|d|));
      TrackElement();
      if |d| <= 31 {
        WriteEncoded(tag + d);
      } else if |d| < 0x100 && |tag| + |d| <= Room() {
        Copy(tag + d);
      } else {
        WriteEncoded(tag);
        WriteNative(d);
      }
      if error == Ok {
        assert Output() == out + (tag + d);
        StrObject(d);
        SoundObject(out, old(tops), old(track), tag + d);
      }
    }

    /** Writes a bin: opens it, writes its contents, closes it. */
    method WriteBin(d: Bytes)
      requires Valid() && |d| < 0x1_0000_0000
      modifies this, buffer
      ensures Valid() && (buffer == old(buffer) || fresh(buffer))
      ensures error == Ok ==> old(error) == Ok && MayWrite(old(track)) && track == Counted(old(track))
      ensures error == Ok ==>
          Output() == old(Output()) + (EncodeTag(Tag.Bin(|d|)) + d) && tops == Tops(old(track), old(tops))
      ensures error == if old(error) != Ok then old(error) else if !MayWrite(old(track)) then Bug
          else if growable || |EncodeTag(Tag.Bin(|d|)) + d| <= old(Room()) then Ok else TooBig
      ensures !growable ==> buffer == old(buffer)
    {
      hide SoundOn, EncodeTag, MayWrite, Counted, Opened, MayFill, Filled, Tops;
      if MayWrite(track) { FilledTop(track, Tag.Bin(|d|)); }
      WriteTag(Tag.Bin(|d|));
      WriteBytes(d);
      Finish(BinKind);
    }

    /** Pushes buffered bytes out between messages; the growable writer keeps them. */
    method WriteFlush()
      requires Valid()
      modifies this, buffer
      ensures Valid() && (buffer == old(buffer) || fresh(buffer))
      ensures error == Ok ==> Output() == old(Output()) && track == old(track) == [] && tops == old(tops)
      ensures !growable ==> buffer == old(buffer)
      ensures error == if old(error) != Ok then old(error) else if old(track) == [] && growable then Ok else Bug
    {
      hide SoundOn;
      if error != Ok {
        return;
      }
      if track != [] || !growable {
        error := Bug;
        return;
      }
      if current > 0 {
        FlushUnchecked();
      }
    }

    method Call(op: Op)
      requires Valid() && Callable(op)
      modifies this, buffer
      ensures Valid() && (buffer == old(buffer) || fresh(buffer))
      ensures error == Ok ==> old(error) == Ok && Output() == old(Output()) + Emits(op)
      ensures error == Ok ==> Effect(op, old(Tracked(track, tops))) == Out(Tracked(track, tops))
      ensures error == if old(error) != Ok then old(error)
                       else CallVerdict(op, old(Tracked(track, tops)), growable, old(Room()))
      ensures !growable ==> buffer == old(buffer)
    {
      hide SoundOn, EncodeTag, IsObject, MayWrite, Counted, Opened, MayFill, Filled, Tops;
      match op
      case Tagged(tag) => WriteTag(tag);
      case Finished(kind) => Finish(kind);
      case Filling(d) => WriteBytes(d);
      case Str(d) => WriteStr(d);
      case Bin(d) => WriteBin(d);
      case Object(d) => WriteObjectBytes(d);
      case FlushMessage => WriteFlush();
    }

    /**
     Any run of calls. If no error is flagged, the output grew by exactly what the calls stand for and the
     tracking state is that of the replayed calls; if moreover nothing is left open, the output consists of whole
     objects, one for each begun at top level. The error flagged is that of the first call that is illegal or, over a
     caller's buffer, does not fit; a growable writer flags one exactly if a call is illegal.
     */
    method Run(ops: seq<Op>)
      requires Valid() && forall op :: op in ops ==> Callable(op)
      modifies this, buffer
      ensures Valid() && (buffer == old(buffer) || fresh(buffer))
      ensures !growable ==> buffer == old(buffer)
      ensures error == Ok ==> old(error) == Ok && Output() == old(Output()) + EmitsAll(ops)
      ensures error == Ok ==> Replay(old(Tracked(track, tops)), ops) == Out(Tracked(track, tops))
      ensures error == if old(error) != Ok then old(error)
                       else RunVerdict(ops, old(Tracked(track, tops)), growable, old(Room()))
      ensures old(error) == Ok ==>
                (error == Ok <==> && Replay(old(Tracked(track, tops)), ops).Out?
                                  && (growable || (FlushMessage !in ops && |EmitsAll(ops)| <= old(Room()))))
      ensures error == Ok && track == [] ==>
                var all := Decode(Output(), 0, tops); all.Done? && all.end == |Output()|
    {
      hide SoundOn, Emits, EmitsAll, Callable, Decode, Effect, Replay, CallVerdict, RunVerdict;
      ghost var start, room := Tracked(track, tops), Room();
      NothingReplayed(start, ops);
      NothingEmitted();
      VerdictNone(start, growable, room);
      for i := 0 to |ops|
        invariant Valid() && (buffer == old(buffer) || fresh(buffer))
        invariant error == Ok ==> old(error) == Ok && Output() == old(Output()) + EmitsAll(ops[..i])
        invariant error == Ok ==> Replay(start, ops[..i]) == Out(Tracked(track, tops))
        invariant error == if old(error) != Ok then old(error) else RunVerdict(ops[..i], start, growable, room)
        invariant !growable ==> buffer == old(buffer)
      {
        ReplayStep(start, ops, i);
        EmitsStep(ops, i);
        VerdictStep(ops, start, growable, room, i);
        if growable {
          RoomFree(ops[i], Tracked(track, tops), Room(), room - |EmitsAll(ops[..i])|);
        } else if error == Ok {
          assert Room() == room - |EmitsAll(ops[..i])|;
        }
        Call(ops[i]);
      }
      assert ops[..|ops|] == ops;
      VerdictExact(ops, start, growable, room);
      if error == Ok && track == [] {
        WholeObjects();
      }
    }

    lemma {:induction false} WholeObjects()
      requires Valid() && error == Ok && track == []
      ensures Supplies(Output(), 0, tops)
    {
      hide Decode;
      ContinuesDone(Output(), tops);
    }

    /** Writes a tree of any shape: no error, exactly its encoding, and the tracking stack back where it was. */
    method WriteValue(v: Value)
      requires Valid() && growable && error == Ok && MayWrite(track) && WellFormed(v)
      modifies this, buffer
      ensures Valid() && (buffer == old(buffer) || fresh(buffer))
      ensures error == Ok && Output() == old(Output()) + EncodeOne(v)
      ensures track == Counted(old(track)) && tops == Tops(old(track), old(tops))
      decreases v
    {
      hide SoundOn, EncodeTag, Encode, MayWrite, Counted, Opened, MayFill, Filled, Tops;
      EncodeNone();
      OpenedTop(track, v.tag);
      if v.tag.Str? || v.tag.Bin? { FilledTop(track, v.tag); }
      WriteTag(v.tag);
      if v.tag.Str? || v.tag.Bin? {
        WriteBytes(v.data);
        Finish(KindOf(v.tag));
      } else if v.tag.Array? || v.tag.Map? {
        WriteValues(v.kids, Counted(old(track)), KindOf(v.tag));
        Finish(KindOf(v.tag));
      }
    }

    /** Writes the elements of the open compound on top of `below`, all of them owed. */
    method WriteValues(vs: seq<Value>, ghost below: Track, kind: Kind)
      requires Valid() && growable && error == Ok && AllWellFormed(vs)
      requires (kind.ArrayKind? || kind.MapKind?) && track == below + [Open(kind, |vs|)]
      modifies this, buffer
      ensures Valid() && (buffer == old(buffer) || fresh(buffer))
      ensures error == Ok && Output() == old(Output()) + Encode(vs)
      ensures track == below + [Open(kind, 0)] && tops == old(tops)
      decreases vs
    {
      hide SoundOn, EncodeOne, MayWrite, Counted;
      if vs != [] {
        ElementTop(below, kind, |vs|);
        WriteValue(vs[0]);
        WriteValues(vs[1..], below, kind);
      }
    }

    /** Ends the growable writer and hands its bytes over, in a block trimmed if it was mostly unused. */
    method Destroy() returns (target: array?<Byte>, size: nat)
      requires Valid() && growable
      modifies this`buffer, this`current, buffer
      ensures error == old(error)
      ensures error != Ok ==> target == null && size == 0
      ensures error == Ok ==>
          target != null && size <= target.Length && target.Length > 0 && target[..size] == old(Output())
      ensures error == Ok ==>
          target.Length == if size >= old(buffer.Length) / 2 then old(buffer.Length) else if size == 0 then 1 else size
      ensures error == Ok && track == [] ==> Supplies(old(Output()), 0, tops)
    {
      hide SoundOn, Supplies;
      if error != Ok {
        return null, 0;
      }
      if track == [] {
        WholeObjects();
      }
      if current != 0 {
        Flush(Whole(current));
      }
      if current < buffer.Length / 2 {
        var trimmed := new Byte[if current != 0 then current else 1](_ => 0);
        forall i | 0 <= i < current {
          trimmed[i] := buffer[i];
        }
        assert trimmed[..current] == buffer[..current];
        buffer := trimmed;
      }
      return buffer, current;
    }
  }
}
