/**
 The tree parser: a loop over an explicit stack of levels, with a byte budget, a paged node
 allocator, and pause and resume on a stream that may have nothing to deliver yet.
 */
module Tree {
  import opened Wire
  import opened Values
  import opened NodeGraph

  const BUFFER_SIZE: nat := 4096

  /** A limit on sizes or node counts; the default is none. */
  datatype Limit = Unlimited | AtMost(max: nat) {
    predicate Exceeded(n: nat) { AtMost? && n > max }
    function Cap(n: nat): nat { if AtMost? && n > max then max else n }
  }

  /** The first unparsed child of an open compound and the number of children left to parse. */
  datatype Level = Level(child: Ptr, left: nat)

  datatype State = NotStarted | InProgress | Parsed

  // ----- the stack as a queue of slots

  /** Slots still to be parsed, in the order in which the parser will reach them. */
  ghost function Pending(stack: seq<Level>): seq<Ptr> {
    if stack == [] then []
    else
      var top := stack[|stack| - 1];
      Slots(top.child, top.left) + Pending(stack[..|stack| - 1])
  }

  lemma {:induction false} PendingPush(stack: seq<Level>, first: Ptr, n: nat)
    ensures Pending(stack + [Level(first, n)]) == Slots(first, n) + Pending(stack)
  {
  }

  lemma {:induction false} PendingTop(stack: seq<Level>)
    requires stack != [] && stack[|stack| - 1].left > 0
    ensures var k := |stack| - 1;
            var stack' := stack[k := Level(Slot(stack[k].child, 1), stack[k].left - 1)];
            Pending(stack) == [stack[k].child] + Pending(stack')
  {
  }

  // ----- 32-bit size arithmetic

  /** Bytes the parser deducts for the children of a node; `len * 2` is computed in 32 bits. */
  function Deducted(tag: Tag): nat {
    match tag
    case Array(n) => n
    case Map(n) => (2 * n) % 0x1_0000_0000
    case _ => 0
  }

  /** Where the parser goes on after a node for which it has reserved that many bytes past the first. */
  function Settled(size: nat, reserved: nat, tag: Tag): int {
    size + reserved + 1 - Deducted(tag)
  }

  /** The parser goes on where the node ends; after a map of 2^31 pairs or more, 4 GiB further on. */
  lemma {:induction false} SettledAt(s: Bytes, pos: nat)
    requires pos <= |s| && HeadAt(s, pos).Head?
    ensures var h := HeadAt(s, pos);
            Settled(pos, h.end - pos - 1 + KidCount(h.tag), h.tag) ==
            h.end + if h.tag.Map? && h.tag.n >= 0x8000_0000 then 0x1_0000_0000 else 0
  {
    hide HeadAt;
    var h := HeadAt(s, pos);
    if h.tag.Map? {
      var n: int := h.tag.n;
      assert 2 * n % 0x1_0000_0000 == if n < 0x8000_0000 then 2 * n else 2 * n - 0x1_0000_0000;
    }
  }

  /** What a tree accepts: the size of a message and the number of its nodes. */
  datatype Limits = Limits(size: Limit, nodes: Limit)

  const NO_LIMITS := Limits(Unlimited, Unlimited)

  /** The parser gets past a head: the bytes and nodes it then needs are there and within the limits. */
  ghost predicate Passes(s: Bytes, h: Head, pending: nat, slots: nat, lim: Limits)
    requires h.Head?
  {
    && h.end + pending <= |s|
    && !lim.size.Exceeded(h.end + pending)
    && !lim.nodes.Exceeded(slots + KidCount(h.tag))
  }

  /**
   The parser, reading `n` objects from `pos` on with `slots` nodes handed out, gets past no map of 2^31 pairs or more.
   */
  ghost predicate Fits(s: Bytes, pos: nat, n: nat, slots: nat, lim: Limits)
    requires pos <= |s|
    decreases |s| - pos
  {
    n > 0 && HeadAt(s, pos).Head? ==>
      var h := HeadAt(s, pos);
      var pending := KidCount(h.tag) + n - 1;
      Passes(s, h, pending, slots, lim) ==>
        !(h.tag.Map? && h.tag.n >= 0x8000_0000) && Fits(s, h.end, pending, slots + KidCount(h.tag), lim)
  }

  /** Every node that the parser gets past is left at its end. */
  ghost predicate Settles(s: Bytes, pos: nat, n: nat, slots: nat, lim: Limits)
    requires pos <= |s|
    decreases |s| - pos
  {
    n > 0 && HeadAt(s, pos).Head? ==>
      var h := HeadAt(s, pos);
      var pending := KidCount(h.tag) + n - 1;
      Passes(s, h, pending, slots, lim) ==>
        && Settled(pos, h.end - pos - 1 + KidCount(h.tag), h.tag) == h.end
        && Settles(s, h.end, pending, slots + KidCount(h.tag), lim)
  }

  /** The 32-bit product never leads the parser astray if and only if it gets past no such map. */
  lemma {:induction false} FitsExact(s: Bytes, pos: nat, n: nat, slots: nat, lim: Limits)
    requires pos <= |s|
    ensures Fits(s, pos, n, slots, lim) <==> Settles(s, pos, n, slots, lim)
    decreases |s| - pos
  {
    hide HeadAt, Settled, Passes;
    var h := HeadAt(s, pos);
    if n > 0 && h.Head? {
      SettledAt(s, pos);
      FitsExact(s, h.end, KidCount(h.tag) + n - 1, slots + KidCount(h.tag), lim);
    }
  }

  lemma {:induction false} FitsStep(s: Bytes, pos: nat, n: nat, slots: nat, lim: Limits)
    requires pos <= |s| && Fits(s, pos, n, slots, lim) && n > 0 && HeadAt(s, pos).Head?
    requires Passes(s, HeadAt(s, pos), KidCount(HeadAt(s, pos).tag) + n - 1, slots, lim)
    ensures var h := HeadAt(s, pos);
            && Fits(s, h.end, KidCount(h.tag) + n - 1, slots + KidCount(h.tag), lim)
            && Settled(pos, h.end - pos - 1 + KidCount(h.tag), h.tag) == h.end
  {
    hide HeadAt, Settled, Passes;
    SettledAt(s, pos);
  }

  /** Limits only keep the parser from getting further. */
  lemma {:induction false} FitsLimited(s: Bytes, pos: nat, n: nat, slots: nat, lim: Limits)
    requires pos <= |s| && Fits(s, pos, n, slots, NO_LIMITS)
    ensures Fits(s, pos, n, slots, lim)
    decreases |s| - pos
  {
    hide HeadAt;
    var h := HeadAt(s, pos);
    if n > 0 && h.Head? && h.end + KidCount(h.tag) + n - 1 <= |s| {
      FitsLimited(s, h.end, KidCount(h.tag) + n - 1, slots + KidCount(h.tag), lim);
    }
  }

  // ----- how a parse ends

  /** The node limit, checked before the elements' bytes; the pool, checked after; the error for too few bytes. */
  datatype Caps = Caps(nodes: Limit, pool: Limit, short: Error)

  /**
   The error that reading `n` objects from `pos` on ends with, with `slots` nodes handed out and no byte after `s`: each
   head must leave a byte for each object still pending, then its elements must be within the node limit, have a byte
   each, and find room in the pool.
   */
  ghost function Fate(s: Bytes, pos: nat, n: nat, slots: nat, caps: Caps): Error
    requires pos <= |s|
    decreases |s| - pos
  {
    if n == 0 then Ok
    else match HeadAt(s, pos)
      case HeadBad(e) => e
      case HeadShort => caps.short
      case Head(tag, _, end) =>
        var kids := KidCount(tag);
        if end + n - 1 > |s| then caps.short
        else if caps.nodes.Exceeded(slots + kids) then TooBig
        else if end + kids + n - 1 > |s| then caps.short
        else if caps.pool.Exceeded(slots + kids) then TooBig
        else Fate(s, end, kids + n - 1, slots + kids, caps)
  }

  lemma {:induction false} FateStep(s: Bytes, pos: nat, n: nat, slots: nat, caps: Caps)
    requires pos <= |s| && n > 0 && HeadAt(s, pos).Head?
    requires var h := HeadAt(s, pos);
             && h.end + KidCount(h.tag) + n - 1 <= |s|
             && !caps.nodes.Exceeded(slots + KidCount(h.tag)) && !caps.pool.Exceeded(slots + KidCount(h.tag))
    ensures var h := HeadAt(s, pos);
            Fate(s, pos, n, slots, caps) == Fate(s, h.end, KidCount(h.tag) + n - 1, slots + KidCount(h.tag), caps)
  {
    hide HeadAt;
  }

  /** A reservation for the next head, or for elements that the node limit allows, that the data cannot meet. */
  lemma {:induction false} FateShort(s: Bytes, pos: nat, n: nat, slots: nat, caps: Caps, reserved: nat)
    requires pos <= |s| && n > 0 && !HeadAt(s, pos).HeadBad? && |s| < pos + n + reserved
    requires var h := HeadAt(s, pos);
             h.Head? ==> && reserved <= h.end - pos - 1 + KidCount(h.tag)
                         && (reserved <= h.end - pos - 1 || !caps.nodes.Exceeded(slots + KidCount(h.tag)))
    ensures Fate(s, pos, n, slots, caps) == caps.short
  {
    hide HeadAt;
  }

  lemma {:induction false} FateBad(s: Bytes, pos: nat, n: nat, slots: nat, caps: Caps)
    requires pos <= |s| && n > 0 && HeadAt(s, pos).HeadBad?
    ensures Fate(s, pos, n, slots, caps) == HeadAt(s, pos).error
  {
    hide HeadAt;
  }

  /** Elements over the node limit, or, their bytes being there, over the pool. */
  lemma {:induction false} FateLimited(s: Bytes, pos: nat, n: nat, slots: nat, caps: Caps)
    requires pos <= |s| && n > 0 && HeadAt(s, pos).Head? && HeadAt(s, pos).end + n - 1 <= |s|
    requires var h := HeadAt(s, pos);
             || caps.nodes.Exceeded(slots + KidCount(h.tag))
             || (h.end + KidCount(h.tag) + n - 1 <= |s| && caps.pool.Exceeded(slots + KidCount(h.tag)))
    ensures Fate(s, pos, n, slots, caps) == TooBig
  {
    hide HeadAt;
  }

  lemma {:induction false} FateDone(s: Bytes, pos: nat, slots: nat, caps: Caps)
    requires pos <= |s|
    ensures Fate(s, pos, 0, slots, caps) == Ok
  {
  }

  /** Data that ends before the first byte. */
  lemma {:induction false} FateEmpty(slots: nat, caps: Caps)
    ensures Fate([], 0, 1, slots, caps) == caps.short
  {
  }

  /** No map in the tree has 2^31 pairs or more. */
  ghost predicate SmallMaps(v: Value) {
    && !(v.tag.Map? && v.tag.n >= 0x8000_0000)
    && forall k :: k in v.kids ==> SmallMaps(k)
  }

  ghost predicate AllSmallMaps(vs: seq<Value>) { forall v :: v in vs ==> SmallMaps(v) }

  /** Without limits, for objects that are all there, fitting is a matter of their maps alone. */
  lemma {:induction false} FitsDecoded(s: Bytes, pos: nat, n: nat, slots: nat)
    requires pos <= |s| && Decode(s, pos, n).Done?
    ensures Fits(s, pos, n, slots, NO_LIMITS) <==> AllSmallMaps(Decode(s, pos, n).vals)
    decreases |s| - pos
  {
    hide HeadAt, Decode;
    if n > 0 {
      DecodeUnfold(s, pos, n);
      DecodeStep(s, pos, n);
      var h := HeadAt(s, pos);
      var c := KidCount(h.tag);
      var rest := Decode(s, h.end, c + n - 1);
      FitsDecoded(s, h.end, c + n - 1, slots + c);
      var v, tail := Node(h.tag, h.data, rest.vals[..c]), rest.vals[c..];
      assert Decode(s, pos, n).vals == [v] + tail;
      SmallMapsFold(v, rest.vals, c);
    }
  }

  lemma {:induction false} SmallMapsFold(v: Value, vs: seq<Value>, c: nat)
    requires c <= |vs| && v.kids == vs[..c]
    ensures AllSmallMaps([v] + vs[c..]) <==> !(v.tag.Map? && v.tag.n >= 0x8000_0000) && AllSmallMaps(vs)
  {
    var all := [v] + vs[c..];
    assert vs == vs[..c] + vs[c..];
    assert forall w :: w in vs <==> w in v.kids || w in vs[c..];
    assert forall w :: w in all <==> w == v || w in vs[c..];
    assert AllSmallMaps(all) <==> SmallMaps(v) && AllSmallMaps(vs[c..]);
    assert AllSmallMaps(vs) <==> AllSmallMaps(v.kids) && AllSmallMaps(vs[c..]);
  }

  /** A well-formed message that leads the parser astray: a map of 2^31 pairs of nils. */
  lemma {:induction false} LargeMap(s: Bytes)
    requires |s| == 5 + 0x1_0000_0000 && s[..5] == [0xdf, 0x80, 0, 0, 0] && forall i :: 5 <= i < |s| ==> s[i] == 0xc0
    ensures Decode(s, 0, 1).Done? && Decode(s, 0, 1).end == |s|
    ensures !Fits(s, 0, 1, 1, NO_LIMITS) && Settled(0, 4 + 0x1_0000_0000, Map(0x8000_0000)) == |s|
  {
    hide Decode;
    assert s[0] == s[..5][0] && s[1] == s[..5][1] && s[2] == s[..5][2] && s[3] == s[..5][3] && s[4] == s[..5][4];
    assert s[0..] == s;
    assert HeadAt(s, 0) == Head(Map(0x8000_0000), [], 5);
    hide HeadAt;
    Nils(s, 5, 0x1_0000_0000);
    DecodeUnfold(s, 0, 1);
    DecodeNone(s, |s|);
  }

  lemma {:induction false} Nils(s: Bytes, pos: nat, n: nat)
    requires pos + n <= |s| && forall i :: pos <= i < pos + n ==> s[i] == 0xc0
    ensures Decode(s, pos, n).Done? && Decode(s, pos, n).end == pos + n
    decreases n
  {
    if n > 0 {
      hide Decode;
      assert s[pos..][0] == s[pos] == 0xc0;
      assert HeadAt(s, pos) == Head(Nil, [], pos + 1);
      DecodeUnfold(s, pos, n);
      DecodeNone(s, pos + 1);
      Nils(s, pos + 1, n - 1);
    }
  }

  /** Anything below 4 GiB fits. */
  lemma {:induction false} SmallFits(s: Bytes, pos: nat, n: nat, slots: nat, lim: Limits)
    requires pos <= |s| < 0x1_0000_0000
    ensures Fits(s, pos, n, slots, lim)
    decreases |s| - pos
  {
    hide HeadAt;
    var h := HeadAt(s, pos);
    if n > 0 && h.Head? { SmallFits(s, h.end, KidCount(h.tag) + n - 1, slots + KidCount(h.tag), lim); }
  }

  /** Every message of a stream fits. */
  ghost predicate StreamFits(s: Bytes, lim: Limits)
    decreases |s|
  {
    && Fits(s, 0, 1, 1, lim)
    && (Decode(s, 0, 1).Done? ==> StreamFits(s[Decode(s, 0, 1).end..], lim))
  }

  lemma {:induction false} StreamFitsFirst(s: Bytes, lim: Limits)
    requires StreamFits(s, lim)
    ensures Fits(s, 0, 1, 1, lim)
    ensures var next := Decode(s, 0, 1); next.Done? ==> StreamFits(s[next.end..], lim)
  {
    hide Fits, Decode;
  }

  lemma {:induction false} SmallStreamFits(s: Bytes, lim: Limits)
    requires |s| < 0x1_0000_0000
    ensures StreamFits(s, lim)
    decreases |s|
  {
    hide Fits, Decode;
    SmallFits(s, 0, 1, 1, lim);
    if Decode(s, 0, 1).Done? { SmallStreamFits(s[Decode(s, 0, 1).end..], lim); }
  }

  /** A stream of whole messages fits if their maps do. */
  lemma {:induction false} StreamFitsDecoded(s: Bytes, n: nat, lim: Limits)
    requires Decode(s, 0, n).Done? && Decode(s, 0, n).end == |s| && AllSmallMaps(Decode(s, 0, n).vals)
    ensures StreamFits(s, lim)
    decreases n
  {
    hide Fits, Decode, AllSmallMaps;
    if n == 0 {
      DecodeNone(s, 0);
      NothingLeft(s, lim);
    } else {
      DecodeSplit(s, 0, 1, n - 1);
      var one := Decode(s, 0, 1);
      assert s == s[..one.end] + s[one.end..];
      DecodeShift(s[..one.end], s[one.end..], 0, n - 1);
      SmallMapsSplit(one.vals, Decode(s, one.end, n - 1).vals);
      FitsDecoded(s, 0, 1, 1);
      FitsLimited(s, 0, 1, 1, lim);
      StreamFitsDecoded(s[one.end..], n - 1, lim);
    }
  }

  lemma {:induction false} SmallMapsSplit(x: seq<Value>, y: seq<Value>)
    ensures AllSmallMaps(x + y) <==> AllSmallMaps(x) && AllSmallMaps(y)
  {
    assert forall v :: v in x + y <==> v in x || v in y;
  }

  lemma {:induction false} NothingLeft(s: Bytes, lim: Limits)
    ensures Fits(s, |s|, 1, 1, lim) && Decode(s, |s|, 1) == Short
  {
    assert s[|s|..] == [];
  }

  // ----- what a refused reservation means

  /**
   If the whole message lies within the first `limit` bytes, so do the next head and one byte for every slot behind
   it.
   */
  lemma {:induction false} NeedFits(s: Bytes, goal: Decoded, pos: nat, pend: seq<Ptr>, plan: map<Ptr, Value>,
      limit: nat)
    requires QueueOk(s, goal, pos, pend, plan) && pend != []
    requires goal.Done? && goal.end <= limit
    ensures var h := HeadAt(s, pos);
            h.Head? && h.end + KidCount(h.tag) + |pend| - 1 <= limit
  {
  }

  /** What the buffer holds is what the stream holds there. */
  lemma {:induction false} BufferedGoal(data: Bytes, rest: Bytes)
    requires Decode(data, 0, 1).Done?
    ensures Decode(data + rest, 0, 1) == Decode(data, 0, 1)
  {
    hide Decode;
    DecodeStable(data, 0, 1, rest);
  }

  /** The head of the stream at `pos`, if any, starts with the tag that the buffer holds there. */
  lemma {:induction false} TagInBuffer(data: Bytes, rest: Bytes, pos: nat)
    requires pos < |data| && Supported(data[pos]) && pos + TagSize(data[pos]) <= |data|
    ensures var h := HeadAt(data + rest, pos);
            var tag := LoadTag(data[pos..]);
            var end := pos + TagSize(data[pos]) + PayloadLen(tag);
            && (h.Head? ==> h.tag == tag && h.end == end)
            && (end <= |data + rest| ==> h == Head(tag, (data + rest)[end - PayloadLen(tag)..end], end))
  {
    hide LoadTag;
    var d := data[pos..];
    assert (data + rest)[pos..] == d + rest;
    DecodeTagStable(d, rest);
    assert d[0] == data[pos];
    assert DecodeTag(d) == TagOk(LoadTag(d), TagSize(data[pos]));
  }

  /** Seen from its type byte alone: the head is bad, or no shorter than the byte announces. */
  lemma {:induction false} TypeByte(s: Bytes, pos: nat)
    requires pos < |s|
    ensures s[pos] == 0xc1 ==> HeadAt(s, pos) == HeadBad(Invalid)
    ensures IsExt(s[pos]) ==> HeadAt(s, pos) == HeadBad(Unsupported)
    ensures HeadAt(s, pos).Head? ==> Supported(s[pos]) && pos + TagSize(s[pos]) <= HeadAt(s, pos).end
    ensures Supported(s[pos]) ==> !HeadAt(s, pos).HeadBad?
  {
  }

  /** A reservation that does not go past the current head is refused only if the buffer lacks part of the message. */
  lemma {:induction false} Refused(data: Bytes, rest: Bytes, goal: Decoded, size: nat, pend: seq<Ptr>,
      plan: map<Ptr, Value>, possible: nat, reserved: nat)
    requires goal == Decode(data + rest, 0, 1)
    requires QueueOk(data + rest, goal, size, pend, plan) && pend != []
    requires size + |pend| + possible == |data| && possible < reserved
    requires var h := HeadAt(data + rest, size); h.Head? ==> reserved <= h.end - size - 1 + KidCount(h.tag)
    ensures !Decode(data, 0, 1).Done?
  {
    hide HeadAt, Decode, QueueOk;
    if Decode(data, 0, 1).Done? {
      BufferedGoal(data, rest);
      NeedFits(data + rest, goal, size, pend, plan, |data|);
    }
  }

  /** A bad head condemns the whole message. */
  lemma {:induction false} BadGoal(s: Bytes, goal: Decoded, pos: nat, pend: seq<Ptr>, plan: map<Ptr, Value>)
    requires QueueOk(s, goal, pos, pend, plan) && pend != [] && HeadAt(s, pos).HeadBad?
    ensures goal == Bad(HeadAt(s, pos).error)
  {
  }

  /** A compound whose elements exceed what the limits leave belongs to a message that exceeds them. */
  lemma {:induction false} SlotsNeeded(s: Bytes, goal: Decoded, pos: nat, n: nat, slots: nat)
    requires CountOk(s, goal, pos, n, slots) && n > 0 && HeadAt(s, pos).Head?
    requires goal.Done? && Decode(s, pos, n).Done?
    ensures slots + KidCount(HeadAt(s, pos).tag) <= NodeCount(goal.vals)
  {
    hide HeadAt, Decode, NodeCount;
    CountStep(s, goal, pos, n, slots);
    DecodeStep(s, pos, n);
    var h := HeadAt(s, pos);
    NodeCountAtLeast(Decode(s, h.end, KidCount(h.tag) + n - 1).vals);
  }

  /**
   A parse ends well exactly if the objects are all there and their nodes are within the limit and the pool. Otherwise
   its error is that of the first bad byte of the objects, or it ran out of bytes or nodes before it got there.
   */
  lemma {:induction false} FateExact(s: Bytes, pos: nat, n: nat, slots: nat, caps: Caps)
    requires pos <= |s| && n <= slots && caps.short != Ok && !caps.nodes.Exceeded(slots) && !caps.pool.Exceeded(slots)
    ensures var d := Decode(s, pos, n);
            && (Fate(s, pos, n, slots, caps) == Ok <==>
                && d.Done?
                && var all := slots - n + NodeCount(d.vals);
                   !caps.nodes.Exceeded(all) && !caps.pool.Exceeded(all))
            && (d.Bad? ==> Fate(s, pos, n, slots, caps) in {d.error, caps.short, TooBig})
            && (d.Short? ==> Fate(s, pos, n, slots, caps) in {caps.short, TooBig})
            && (d.Done? ==> Fate(s, pos, n, slots, caps) in {Ok, TooBig})
    decreases |s| - pos
  {
    hide HeadAt, Decode, NodeCount;
    if n == 0 {
      DecodeNone(s, pos);
      NodeCountNone();
    } else {
      DecodeUnfold(s, pos, n);
      var h := HeadAt(s, pos);
      if h.Head? {
        var c := KidCount(h.tag);
        DecodeStep(s, pos, n);
        var rest := Decode(s, h.end, c + n - 1);
        if rest.Done? {
          assert rest.vals == rest.vals[..c] + rest.vals[c..];
          NodeCountConcat(rest.vals[..c], rest.vals[c..]);
          NodeCountCons(Node(h.tag, h.data, rest.vals[..c]), rest.vals[c..]);
          NodeCountAtLeast(rest.vals);
        }
        if !caps.nodes.Exceeded(slots + c) && !caps.pool.Exceeded(slots + c) {
          FateExact(s, h.end, c + n - 1, slots + c, caps);
        }
      }
    }
  }

  lemma {:induction false} NodeCountAtLeast(vs: seq<Value>)
    ensures |vs| <= NodeCount(vs)
  {
    if vs != [] { NodeCountAtLeast(vs[1..]); }
  }

  // ----- the invariant of a half-parsed message, on values

  ghost predicate BookedOn(s: Bytes, size: nat, stack: seq<Level>, pages: Pages, book: Book, root: Ptr) {
    && var goal := Decode(s, 0, 1);
    && var pend := Pending(stack);
    && QueueOk(s, goal, size, pend, book.plan)
    && NoDup(pend)
    && WrittenOk(s, goal, size, pend, pages, book)
    && CountOk(s, goal, size, |pend|, |book.order|)
    && OrderOk(book)
    && root in book.plan && (goal.Done? ==> book.plan[root] == goal.vals[0])
  }

  function Pushed(stack: seq<Level>, first: Ptr, n: nat): seq<Level> {
    if n == 0 then stack else stack + [Level(first, n)]
  }

  /** The stack once the top level's current child is done, its own children, if any, pushed above. */
  function Advanced(stack: seq<Level>, first: Ptr, n: nat): seq<Level>
    requires stack != [] && stack[|stack| - 1].left > 0
  {
    var k := |stack| - 1;
    Pushed(stack, first, n)[k := Level(Slot(stack[k].child, 1), stack[k].left - 1)]
  }

  lemma {:induction false} PendingAdvanced(stack: seq<Level>, first: Ptr, n: nat)
    requires stack != [] && stack[|stack| - 1].left > 0
    ensures Pending(stack) != [] && Pending(stack)[0] == stack[|stack| - 1].child
    ensures Pending(Advanced(stack, first, n)) == NextPend(Pending(stack), first, n)
  {
    var k := |stack| - 1;
    PendingTop(stack);
    var done := stack[k := Level(Slot(stack[k].child, 1), stack[k].left - 1)];
    if n > 0 {
      PendingPush(done, first, n);
      assert Advanced(stack, first, n) == done + [Level(first, n)];
    }
    assert Pending(stack)[1..] == Pending(done);
    assert Slots(first, n) + Pending(done) == NextPend(Pending(stack), first, n);
  }

  /** One parsed node keeps the invariant. */
  lemma {:induction false} BookedStep(s: Bytes, size: nat, stack: seq<Level>, pages: Pages, pages': Pages,
      book: Book, root: Ptr, first: Ptr, nd: NodeData)
    requires BookedOn(s, size, stack, pages, book, root)
    requires stack != [] && stack[|stack| - 1].left > 0 && Writes(s, size, nd, first)
    requires Unused(book, first, KidCount(nd.tag))
    requires forall p :: p in book.plan ==> Allocated(pages, p) && Allocated(pages', p)
    requires forall p :: p in book.plan && p != stack[|stack| - 1].child ==> At(pages', p) == At(pages, p)
    requires stack[|stack| - 1].child in book.plan ==> At(pages', stack[|stack| - 1].child) == nd
    ensures stack[|stack| - 1].child in book.plan
    ensures var n := KidCount(nd.tag);
            BookedOn(s, HeadAt(s, size).end, Advanced(stack, first, n), pages', Extend(book,
                stack[|stack| - 1].child, first, n), root)
  {
    hide HeadAt, Decode, Pending, NextPend, Extend, WrittenOk, CountOk, OrderOk;
    var n := KidCount(nd.tag);
    var goal := Decode(s, 0, 1);
    var pend := Pending(stack);
    PendingAdvanced(stack, first, n);
    QueueStep(s, goal, size, pend, book, first);
    NoDupStep(pend, book, first, n);
    WrittenStep(s, goal, size, pend, pages, pages', book, first, nd);
    CountStep(s, goal, size, |pend|, |book.order|);
    OrderStep(book, pend[0], first, n);
  }

  /** Everything that holds once a node is written, its children are counted and the top level has moved on. */
  lemma {:induction false} CommitStep(s: Bytes, size: nat, stack: seq<Level>, pages: Pages, pages': Pages,
      tails: seq<nat>, nodes: Ptr, left: nat, book: Book, root: Ptr, first: Ptr, nd: NodeData, length: nat, lim: Limits)
    requires size <= |s| && BookedOn(s, size, stack, pages, book, root)
    requires Fits(s, size, |Pending(stack)|, |book.order|, lim)
    requires stack != [] && stack[|stack| - 1].left > 0 && Writes(s, size, nd, first)
    requires var h := HeadAt(s, size); h.end - 1 + KidCount(nd.tag) + |Pending(stack)| <= length <= |s|
    requires !lim.size.Exceeded(length) && !lim.nodes.Exceeded(|book.order| + KidCount(nd.tag))
    requires Unused(book, first, KidCount(nd.tag)) && Kept(pages, pages', book.plan)
    requires var p := stack[|stack| - 1].child;
             p in book.plan && MemoryOk(pages', tails, nodes, left, Extend(book, p, first, KidCount(nd.tag)).plan)
    ensures Allocated(pages', stack[|stack| - 1].child)
    ensures var p := stack[|stack| - 1].child;
            var n := KidCount(nd.tag);
            var book' := Extend(book, p, first, n);
            && MemoryOk(Put(pages', p, nd), tails, nodes, left, book'.plan)
            && BookedOn(s, HeadAt(s, size).end, Advanced(stack, first, n), Put(pages', p, nd), book', root)
            && |Pending(Advanced(stack, first, n))| == |Pending(stack)| - 1 + n
            && Fits(s, HeadAt(s, size).end, |Pending(stack)| - 1 + n, |book'.order|, lim)
            && Settled(size, HeadAt(s, size).end - size - 1 + n, nd.tag) == HeadAt(s, size).end
  {
    hide HeadAt, Decode, Pending, WrittenOk, CountOk, OrderOk, QueueOk, MemoryOk, Kept, Unused, Put, Writes,
        BookedOn, Extend, Fits, Settled;
    var p := stack[|stack| - 1].child;
    var n := KidCount(nd.tag);
    PendingAdvanced(stack, first, n);
    WritesTag(s, size, nd, first);
    FitsStep(s, size, |Pending(stack)|, |book.order|, lim);
    PutMemory(pages', tails, nodes, left, Extend(book, p, first, n).plan, p, nd);
    KeptPut(pages, pages', book.plan, p, nd);
    BookedStep(s, size, stack, pages, Put(pages', p, nd), book, root, first, nd);
  }

  /** Closing a finished level drops no slot. */
  lemma {:induction false} PopStep(s: Bytes, size: nat, stack: seq<Level>, pages: Pages, book: Book, root: Ptr)
    requires BookedOn(s, size, stack, pages, book, root)
    requires stack != [] && stack[|stack| - 1].left == 0
    ensures Pending(stack[..|stack| - 1]) == Pending(stack)
    ensures |stack| == 1 ==> Pending(stack) == []
    ensures BookedOn(s, size, stack[..|stack| - 1], pages, book, root)
  {
  }

  /** With nothing pending the message is complete, ends here, and the graph denotes it. */
  lemma {:induction false} Finished(s: Bytes, data: Bytes, size: nat, stack: seq<Level>, pages: Pages, book: Book,
      root: Ptr)
    requires BookedOn(s, size, stack, pages, book, root) && Pending(stack) == []
    requires size <= |data| <= |s| && data == s[..|data|]
    ensures var goal := Decode(s, 0, 1);
            && goal.Done? && goal.end == size && Denotes(data, pages, root, goal.vals[0])
            && Separated(pages, book)
            && root in book.plan && OrderOk(book)
            && |book.order| == NodeCount(goal.vals) && |book.order| <= size
  {
    hide Pending, Decode, NodeCount;
    DecodeNone(s, size);
    assert NodeCount([]) == 0 by { NodeCountNone(); }
    PlanDenotes(s, Decode(s, 0, 1), size, data, pages, book, root, book.plan[root]);
  }

  lemma {:induction false} NodeCountNone()
    ensures NodeCount([]) == 0
  {
  }

  /** The bookkeeping of a message of which nothing is parsed yet. */
  ghost function FirstBook(s: Bytes, root: Ptr): Book {
    var goal := Decode(s, 0, 1);
    Book(map[root := if goal.Done? then goal.vals[0] else Node(Nil, [], [])], map[], [root])
  }

  lemma {:induction false} StartBooked(s: Bytes, page: seq<NodeData>)
    requires s != [] && page != []
    ensures var root := Ptr(0, 0);
            && BookedOn(s, 0, [Level(root, 1)], [page], FirstBook(s, root), root)
            && MemoryOk([page], [1], Ptr(0, 1), |page| - 1, FirstBook(s, root).plan)
            && |Pending([Level(root, 1)])| == 1 && |FirstBook(s, root).order| == 1
  {
    hide Decode, NodeCount;
    var root := Ptr(0, 0);
    var stack := [Level(root, 1)];
    assert stack[..0] == [] && Pending(stack) == Slots(root, 1) + [];
    assert Pending(stack) == [root];
  }
}
