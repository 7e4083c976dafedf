/**
 The language of legal writer calls, as a grammar: which runs of calls open, fill and close compounds properly.
 The tracking stack accepts exactly this language.
 */
module CallGrammar {
  import opened Wire
  import opened Values
  import opened Tracking
  import Writer

  type Op = Writer.Op

  /** Where a phrase of the grammar ends, if there is one. */
  datatype Phrase = Ends(at: nat) | NoPhrase

  /** Payload calls that add up to `left` bytes; calls without any bytes may follow. */
  ghost function Contents(ops: seq<Op>, i: nat, left: nat): (p: Phrase)
    requires i <= |ops|
    ensures p.Ends? ==> i <= p.at <= |ops|
    decreases |ops| - i
  {
    if i < |ops| && ops[i].Filling? && |ops[i].d| <= left then Contents(ops, i + 1, left - |ops[i].d|)
    else if left == 0 then Ends(i)
    else NoPhrase
  }

  /** The closing call of a compound. */
  ghost function Closing(ops: seq<Op>, p: Phrase, kind: Kind): (r: Phrase)
    requires p.Ends? ==> p.at <= |ops|
    ensures r.Ends? ==> p.Ends? && r.at == p.at + 1 <= |ops|
  {
    if p.Ends? && p.at < |ops| && ops[p.at] == Writer.Finished(kind) then Ends(p.at + 1) else NoPhrase
  }

  /** `n` objects: scalars, strings in one piece, and compounds opened, supplied with what they announce, and closed. */
  ghost function Objects(ops: seq<Op>, i: nat, n: nat): (p: Phrase)
    requires i <= |ops|
    ensures p.Ends? ==> i + n <= p.at <= |ops|
    decreases |ops| - i, n
  {
    if n == 0 then Ends(i)
    else
      var first := if i < |ops| then Object(ops, i) else NoPhrase;
      if first.Ends? then Objects(ops, first.at, n - 1) else NoPhrase
  }

  ghost function Object(ops: seq<Op>, i: nat): (p: Phrase)
    requires i < |ops|
    ensures p.Ends? ==> i < p.at <= |ops|
    decreases |ops| - i, 0
  {
    match ops[i]
    case Tagged(tag) =>
      if !Opens(tag) then Ends(i + 1)
      else if tag.Str? || tag.Bin? then Closing(ops, Contents(ops, i + 1, PayloadLen(tag)), KindOf(tag))
      else Closing(ops, Objects(ops, i + 1, KidCount(tag)), KindOf(tag))
    case Str(_) => Ends(i + 1)
    case Bin(_) => Ends(i + 1)
    case Object(_) => Ends(i + 1)
    case _ => NoPhrase
  }

  datatype Count = Whole(n: nat) | Illegal

  /** Whole objects, and flushes between them, to the end of the run. */
  ghost function TopLevel(ops: seq<Op>, i: nat): Count
    requires i <= |ops|
    decreases |ops| - i
  {
    if i == |ops| then Whole(0)
    else if ops[i].FlushMessage? then TopLevel(ops, i + 1)
    else
      var first := Object(ops, i);
      if first.NoPhrase? then Illegal
      else
        var rest := TopLevel(ops, first.at);
        if rest.Illegal? then Illegal else Whole(rest.n + 1)
  }

  // ----- the replay, from the front

  ghost function From(t: Writer.Tracked, ops: seq<Op>, i: nat): Writer.Outcome
    requires i <= |ops|
    decreases |ops| - i
  {
    if i == |ops| then Writer.Out(t)
    else
      var next := Writer.Effect(ops[i], t);
      if next.Refused? then Writer.Refused else From(next.to, ops, i + 1)
  }

  lemma {:induction false} FromFront(t: Writer.Tracked, ops: seq<Op>, i: nat)
    requires i <= |ops|
    ensures Writer.Replay(t, ops) ==
            var before := Writer.Replay(t, ops[..i]);
            if before.Refused? then Writer.Refused else From(before.to, ops, i)
    decreases |ops| - i
  {
    hide Writer.Effect;
    if i == |ops| {
      assert ops[..i] == ops;
    } else {
      hide Writer.Replay;
      Writer.ReplayStep(t, ops, i);
      FromFront(t, ops, i + 1);
    }
  }

  /** A run that does not get below `depth` open compounds any more. */
  ghost predicate Stuck(r: Writer.Outcome, depth: nat) {
    r.Out? ==> |r.to.track| > depth
  }

  // ----- single steps

  lemma {:induction false} FillStep(below: Track, kind: Kind, left: nat, tops: nat, op: Op)
    requires kind.StrKind? || kind.BinKind?
    ensures var next := Writer.Effect(op, Writer.Tracked(below + [Open(kind, left)], tops));
            if op.Filling? && |op.d| <= left
                then next == Writer.Out(Writer.Tracked(below + [Open(kind, left - |op.d|)], tops))
            else if op == Writer.Finished(kind) && left == 0 then next == Writer.Out(Writer.Tracked(below, tops))
            else next.Refused?
  {
    var track := below + [Open(kind, left)];
    assert track[..|track| - 1] == below;
  }

  /** What a call does on top of a compound that holds elements. */
  lemma {:induction false} ElementStep(below: Track, kind: Kind, left: nat, tops: nat, op: Op)
    requires kind.ArrayKind? || kind.MapKind?
    ensures var next := Writer.Effect(op, Writer.Tracked(below + [Open(kind, left)], tops));
            if op == Writer.Finished(kind) && left == 0 then next == Writer.Out(Writer.Tracked(below, tops))
            else if op.Finished? || op.Filling? || op.FlushMessage? || left == 0 then next.Refused?
            else if op.Tagged? && Opens(op.tag) then
              next == Writer.Out(Writer.Tracked(below + [Open(kind, left - 1)] + [Opening(op.tag)], tops))
            else next == Writer.Out(Writer.Tracked(below + [Open(kind, left - 1)], tops))
  {
    var track := below + [Open(kind, left)];
    assert track[..|track| - 1] == below;
    if left > 0 { assert Counted(track) == below + [Open(kind, left - 1)]; }
  }

  function Opening(tag: Tag): Open
    requires Opens(tag)
  {
    Open(KindOf(tag), PayloadLen(tag) + KidCount(tag))
  }

  /** What a call does at top level. */
  lemma {:induction false} TopStep(tops: nat, op: Op)
    ensures var next := Writer.Effect(op, Writer.Tracked([], tops));
            if op.FlushMessage? then next == Writer.Out(Writer.Tracked([], tops))
            else if op.Finished? || op.Filling? then next.Refused?
            else if op.Tagged? && Opens(op.tag)
                then next == Writer.Out(Writer.Tracked([] + [Opening(op.tag)], tops + 1))
            else next == Writer.Out(Writer.Tracked([], tops + 1))
  {
  }

  // ----- phrases

  /** Payload calls run through an open str or bin. */
  lemma {:induction false} ContentsReplay(ops: seq<Op>, i: nat, below: Track, kind: Kind, left: nat, tops: nat)
    requires i <= |ops| && (kind.StrKind? || kind.BinKind?)
    ensures var run := From(Writer.Tracked(below + [Open(kind, left)], tops), ops, i);
            var end := Closing(ops, Contents(ops, i, left), kind);
            if end.Ends? then run == From(Writer.Tracked(below, tops), ops, end.at) else Stuck(run, |below|)
    decreases |ops| - i
  {
    hide Writer.Effect;
    if i < |ops| {
      FillStep(below, kind, left, tops, ops[i]);
      if ops[i].Filling? && |ops[i].d| <= left {
        ContentsReplay(ops, i + 1, below, kind, left - |ops[i].d|, tops);
      }
    }
  }

  /** Element calls run through an open array or map, down to its closing call. */
  lemma {:induction false} ObjectsReplay(ops: seq<Op>, i: nat, below: Track, kind: Kind, n: nat, tops: nat)
    requires i <= |ops| && (kind.ArrayKind? || kind.MapKind?)
    ensures var run := From(Writer.Tracked(below + [Open(kind, n)], tops), ops, i);
            var end := Objects(ops, i, n);
            if end.Ends? then run == From(Writer.Tracked(below + [Open(kind, 0)], tops), ops, end.at)
                else Stuck(run, |below|)
    decreases |ops| - i, n
  {
    hide Writer.Effect, Object;
    if n > 0 && i < |ops| {
      ElementStep(below, kind, n, tops, ops[i]);
      var first := Object(ops, i);
      ObjectReplay(ops, i, below, kind, n, tops);
      if first.Ends? { ObjectsReplay(ops, first.at, below, kind, n - 1, tops); }
    }
  }

  /** One object where a compound is owed it. */
  lemma {:induction false} ObjectReplay(ops: seq<Op>, i: nat, below: Track, kind: Kind, n: nat, tops: nat)
    requires i < |ops| && n > 0 && (kind.ArrayKind? || kind.MapKind?)
    ensures var run := From(Writer.Tracked(below + [Open(kind, n)], tops), ops, i);
            var end := Object(ops, i);
            if end.Ends? then run == From(Writer.Tracked(below + [Open(kind, n - 1)], tops), ops, end.at)
            else Stuck(run, |below|)
    decreases |ops| - i, 0
  {
    hide Writer.Effect, Objects, Contents;
    ElementStep(below, kind, n, tops, ops[i]);
    if ops[i].Tagged? && Opens(ops[i].tag) {
      CompoundReplay(ops, i, below + [Open(kind, n - 1)], ops[i].tag, tops);
    }
  }

  /** The contents and the closing call of a compound just opened. */
  lemma {:induction false} CompoundReplay(ops: seq<Op>, i: nat, below: Track, tag: Tag, tops: nat)
    requires i < |ops| && Opens(tag) && ops[i] == Writer.Tagged(tag)
    ensures var run := From(Writer.Tracked(below + [Opening(tag)], tops), ops, i + 1);
            var end := Object(ops, i);
            if end.Ends? then run == From(Writer.Tracked(below, tops), ops, end.at) else Stuck(run, |below|)
    decreases |ops| - i - 1, KidCount(tag) + 1
  {
    hide Writer.Effect, Objects, Contents;
    if tag.Str? || tag.Bin? {
      ContentsReplay(ops, i + 1, below, KindOf(tag), PayloadLen(tag), tops);
    } else {
      ObjectsReplay(ops, i + 1, below, KindOf(tag), KidCount(tag), tops);
      var end := Objects(ops, i + 1, KidCount(tag));
      if end.Ends? && end.at < |ops| { ElementStep(below, KindOf(tag), 0, tops, ops[end.at]); }
    }
  }

  /** The tracking stack accepts a run and is empty at its end exactly if the run is a list of whole objects. */
  lemma {:induction false} TopReplay(ops: seq<Op>, i: nat, tops: nat)
    requires i <= |ops|
    ensures var run := From(Writer.Tracked([], tops), ops, i);
            match TopLevel(ops, i)
            case Whole(n) => run == Writer.Out(Writer.Tracked([], tops + n))
            case Illegal => Stuck(run, 0)
    decreases |ops| - i
  {
    hide Writer.Effect, Object;
    if i < |ops| {
      TopStep(tops, ops[i]);
      if ops[i].FlushMessage? {
        TopReplay(ops, i + 1, tops);
      } else {
        SingleObject(ops, i);
        var first := Object(ops, i);
        if ops[i].Tagged? && Opens(ops[i].tag) { CompoundReplay(ops, i, [], ops[i].tag, tops + 1); }
        if first.Ends? { TopReplay(ops, first.at, tops + 1); }
      }
    }
  }

  lemma {:induction false} SingleObject(ops: seq<Op>, i: nat)
    requires i < |ops|
    ensures ops[i].Finished? || ops[i].Filling? || ops[i].FlushMessage? ==> Object(ops, i).NoPhrase?
    ensures !ops[i].Finished? && !ops[i].Filling? && !ops[i].FlushMessage? && !(ops[i].Tagged? && Opens(ops[i].tag)) ==>
              Object(ops, i) == Ends(i + 1)
  {
  }

  lemma {:induction false} Accepted(ops: seq<Op>, n: nat)
    ensures Writer.Replay(Writer.Tracked([], 0), ops) == Writer.Out(Writer.Tracked([], n)) <==>
            TopLevel(ops, 0) == Whole(n)
  {
    Writer.NothingReplayed(Writer.Tracked([], 0), ops);
    FromFront(Writer.Tracked([], 0), ops, 0);
    TopReplay(ops, 0, 0);
  }

  /** A growable writer ends a run without error and with nothing open exactly if the run is in the language. */
  method Record(ops: seq<Op>) returns (writer: Writer.Writer)
    requires forall op :: op in ops ==> Writer.Callable(op)
    ensures fresh(writer) && writer.Valid()
    ensures writer.error == Ok && writer.track == [] <==> TopLevel(ops, 0).Whole?
    ensures TopLevel(ops, 0).Whole? ==>
              var all := Decode(writer.Output(), 0, TopLevel(ops, 0).n);
              all.Done? && all.end == |writer.Output()| && writer.Output() == Writer.EmitsAll(ops)
  {
    hide Decode, SoundOn, TopLevel, Writer.Replay, Writer.EmitsAll, Writer.Callable;
    writer := new Writer.Writer.Growable();
    writer.Run(ops);
    if TopLevel(ops, 0).Whole? { Accepted(ops, TopLevel(ops, 0).n); }
    Accepted(ops, writer.tops);
  }

  /** Over a caller's buffer the output must fit as well, and nothing can be flushed. */
  method RecordInto(ops: seq<Op>, buffer: array<Byte>) returns (writer: Writer.Writer)
    requires forall op :: op in ops ==> Writer.Callable(op)
    modifies buffer
    ensures fresh(writer) && writer.Valid() && writer.buffer == buffer
    ensures writer.error == Ok && writer.track == [] <==>
              && TopLevel(ops, 0).Whole? && Writer.FlushMessage !in ops
              && |Writer.EmitsAll(ops)| <= buffer.Length
    ensures writer.error == Ok ==> buffer[..writer.current] == Writer.EmitsAll(ops)
  {
    hide Decode, SoundOn, TopLevel, Writer.Replay, Writer.EmitsAll, Writer.Callable, Writer.RunVerdict;
    writer := new Writer.Writer.Fixed(buffer);
    writer.Run(ops);
    if TopLevel(ops, 0).Whole? { Accepted(ops, TopLevel(ops, 0).n); }
    Accepted(ops, writer.tops);
  }
}
