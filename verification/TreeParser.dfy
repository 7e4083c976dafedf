/**
 The parser object itself. Its fields are those of `mpack_tree_t` and of the parser inside it; the
 read function is a `Source`, the node pages are a growing list of blocks.
 */
module TreeParser {
  import opened Wire
  import opened Values
  import opened NodeGraph
  import opened Sources
  import opened Tree
  import opened GraphPaths
  import opened Growth

  const BLANK := NodeData(Nil, 0, Ptr(0, 0))

  lemma {:induction false} NoBytes()
    ensures !Decode([], 0, 1).Done?
  {
  }

  /** What a caller holds once a message is parsed: its bytes, its nodes and the node to start from. */
  datatype Message = Message(data: Bytes, pages: Pages, root: Ptr)

  /** Each graph denotes the value at its place. */
  ghost predicate AllDenote(msgs: seq<Message>, vals: seq<Value>) {
    && |msgs| == |vals|
    && forall i :: 0 <= i < |msgs| ==> Denotes(msgs[i].data, msgs[i].pages, msgs[i].root, vals[i])
  }

  class Parser {
    const source: Source?    // read function; none when the data is all in memory
    const pooled: bool       // nodes come from a fixed pool instead of pages
    const poolCount: nat
    const maxSize: Limit
    const maxNodes: Limit

    var data: Bytes          // bytes buffered from the start of the current message on
    var capacity: nat
    var size: nat            // bytes of the current message parsed so far
    var nodeCount: nat
    var error: Error
    var state: State

    var possible: nat        // bytes neither parsed nor reserved for a pending node
    var reserved: nat        // bytes reserved so far for the node being parsed
    var stack: seq<Level>
    var pages: Pages
    var nodes: Ptr           // next free node of the current page
    var nodesLeft: nat
    var root: Ptr

    ghost var book: Book
    ghost var tails: seq<nat>
    ghost var began: nat     // empty reads before the current message was started

    /** Everything from the start of the current message on: buffered, then still to be delivered. */
    ghost function Stream(): Bytes
      reads this`data, source
    {
      data + (if source == null then [] else source.remaining)
    }

    /** Reads so far that delivered nothing. */
    ghost function Empties(): nat
      reads source
    {
      if source == null then 0 else source.empties
    }

    /** Empty reads since the current message was started: as often a node may have been counted again. */
    ghost function Pauses(): nat
      reads this`began, source
    {
      if Empties() < began then 0 else Empties() - began
    }

    ghost function Goal(): Decoded
      reads this`data, source
    {
      Decode(Stream(), 0, 1)
    }

    ghost predicate Allocating()
      reads this`pages, this`tails, this`nodes, this`nodesLeft, this`book
    {
      && MemoryOk(pages, tails, nodes, nodesLeft, book.plan)
      && (pooled ==> source == null && |book.order| + nodesLeft == poolCount)
    }

    /** Parsed bytes, one byte for every pending node, and free bytes make up the buffer. */
    ghost predicate Conserved()
      reads this`size, this`stack, this`possible, this`data
    {
      size + |Pending(stack)| + possible == |data|
    }

    /** A message is half parsed. */
    ghost predicate Parsing()
      reads this, source
    {
      && error == Ok && state == InProgress
      && stack != []
      && Conserved()
      && Allocating()
      && BookedOn(Stream(), size, stack, pages, book, root)
      && |book.order| <= nodeCount && !maxNodes.Exceeded(nodeCount) && (source == null ==> nodeCount == |book.order|)
      && Recounted(nodeCount, |book.order|)
      && Bounded() && Fits(Stream(), size, |Pending(stack)|, |book.order|, Bounds())
      && Foretold()
    }

    /** Nodes are counted once, and again at most once for every pause. */
    ghost predicate Recounted(count: nat, slots: nat)
      reads this`data, this`began, source
    {
      began <= Empties() && (Goal().Done? ==> count <= slots + Pauses() * NodeCount(Goal().vals))
    }

    /** A node that was counted and is to be counted again has cost a pause. */
    lemma {:induction false} CountedAgain(count: nat, slots: nat, kids: nat, pauses: nat)
      requires Goal().Done? ==> count <= slots + pauses * NodeCount(Goal().vals)
      requires began <= Empties() && pauses <= Pauses()
      requires kids > 0 ==> pauses < Pauses() && (Goal().Done? ==> slots + kids <= NodeCount(Goal().vals))
      ensures Recounted(count + kids, slots)
    {
      hide Decode, NodeCount;
      if Goal().Done? {
        var n := NodeCount(Goal().vals);
        Times(pauses, if kids > 0 then pauses + 1 else pauses, Pauses(), n);
      }
    }

    static lemma {:induction false} Times(a: nat, b: nat, c: nat, n: nat)
      requires b <= c
      ensures b * n <= c * n && (a + 1) * n == a * n + n
    {
    }

    /** Under which conditions a parse fails. */
    function Conditions(): Caps {
      Caps(maxNodes, if pooled then AtMost(poolCount) else Unlimited, if source == null then Invalid else Io)
    }

    /** How parsing the current message ends if nothing comes after the stream. */
    ghost function Ending(): Error
      reads this`data, source
    {
      Fate(Stream(), 0, 1, 1, Conditions())
    }

    /** What is parsed so far has not changed how the parse ends. */
    ghost predicate Foretold()
      reads this`data, this`size, this`stack, this`book, source
    {
      size <= |Stream()| && Ending() == Fate(Stream(), size, |Pending(stack)|, |book.order|, Conditions())
    }

    /** All the data is in memory, or a stream blocks and no limit makes the end depend on its chunks. */
    ghost predicate Determined() {
      source == null || (source.blocking && maxSize == maxNodes == Unlimited)
    }

    /** The limits in force: those set, and the size of a pool. */
    function Bounds(): Limits {
      Limits(maxSize,
             if pooled && !maxNodes.Exceeded(poolCount) then AtMost(poolCount) else maxNodes)
    }

    predicate OverLimit(n: nat) { Bounds().nodes.Exceeded(n) }

    /** A message of that many nodes is acceptable: within the node limit, if one is set, and within the pool. */
    ghost predicate Acceptable(n: nat) {
      (maxNodes.AtMost? ==> n <= maxNodes.max) && (pooled ==> n <= poolCount)
    }

    /** The buffer of a stream stays within the size limit. */
    ghost predicate Bounded()
      reads this`data, this`capacity
    {
      if source == null then maxSize == Unlimited else |data| <= capacity && !maxSize.Exceeded(capacity)
    }

    /** Why an error was flagged. */
    ghost predicate Explained()
      reads this`error, this`data, this`began, source
    {
      match error
      case Invalid => if source == null then !Goal().Done? else Goal() == Bad(Invalid)
      case Unsupported => Goal() == Bad(Unsupported)
      case TooBig =>
        && (source == null && Goal().Done? ==> OverLimit(NodeCount(Goal().vals)))
        && (maxSize.AtMost? || maxNodes.AtMost? || pooled)
        && (source != null && Goal().Done? ==> Tight(Goal()))
      case _ => false
    }

    /** The limits are too tight for a message: below twice its length, or its nodes counted again after pauses. */
    ghost predicate Tight(goal: Decoded)
      requires goal.Done?
      reads this`began, source
    {
      || (maxSize.AtMost? && maxSize.max < 2 * goal.end)
      || (maxNodes.AtMost? && maxNodes.max < NodeCount(goal.vals) + Pauses() * NodeCount(goal.vals))
    }

    // ----- reserving bytes

    method ReserveFill() returns (ok: bool)
      requires error == Ok && possible < reserved && Bounded()
      modifies this`data, this`capacity, this`possible, this`error, source
      ensures Stream() == old(Stream()) && old(data) <= data && Bounded()
      ensures |data| - possible == old(|data| - possible)
      ensures ok ==> error == Ok && reserved <= possible
      ensures !ok ==> possible < reserved
      ensures !ok && error == Ok ==> source != null && (source.blocking ==> source.remaining == [])
      ensures error == Ok || (error == TooBig && maxSize.Exceeded(|data| + reserved))
              || (error == Invalid && source == null)
      ensures error != Ok ==> !ok
      ensures error == Ok ==>
                var need := |old(data)| + reserved;
                capacity == if need <= old(capacity) then old(capacity)
                            else maxSize.Cap(Doubled(if old(capacity) == 0 then BUFFER_SIZE else old(capacity), need))
      ensures error != Ok ==> data == old(data) && capacity == old(capacity)
      ensures Empties() == old(Empties()) + if !ok && error == Ok then 1 else 0
    {
      if maxSize.Exceeded(|data| + reserved) {
        error := TooBig;
        return false;
      }
      if source == null {
        error := Invalid;
        return false;
      }
      if |data| + reserved > capacity {
        var newCapacity := if capacity == 0 then BUFFER_SIZE else capacity;
        while newCapacity < |data| + reserved
          invariant newCapacity > 0
          invariant Doubled(newCapacity, |data| + reserved)
              == Doubled(if capacity == 0 then BUFFER_SIZE else capacity, |data| + reserved)
          decreases |data| + reserved - newCapacity
        {
          newCapacity := newCapacity * 2;
        }
        capacity := maxSize.Cap(newCapacity);
      }
      ok := Fill();
    }

    /** Reads until the reserved bytes are there or the stream has nothing for now. */
    method Fill() returns (ok: bool)
      requires error == Ok && source != null && possible < reserved && |data| + reserved - possible <= capacity
      modifies this`data, this`possible, source
      ensures Stream() == old(Stream()) && old(data) <= data && |data| <= capacity
      ensures |data| - possible == old(|data| - possible)
      ensures ok <==> reserved <= possible
      ensures !ok && source.blocking ==> source.remaining == []
      ensures Empties() == old(Empties()) + if ok then 0 else 1
    {
      while possible < reserved
        invariant Stream() == old(Stream()) && old(data) <= data
        invariant |data| - possible == old(|data| - possible)
        invariant |data| + reserved - possible <= capacity && |data| <= capacity
        invariant Empties() == old(Empties())
        decreases reserved - possible
      {
        var chunk := source.Read(capacity - |data|);
        if chunk == [] {
          return false;
        }
        assert old(data) <= data + chunk;
        data := data + chunk;
        possible := possible + |chunk|;
      }
      return true;
    }

    method Reserve(extra: nat) returns (ok: bool)
      requires error == Ok && Bounded()
      modifies this`reserved, this`data, this`capacity, this`possible, this`error, source
      ensures reserved == old(reserved) + extra
      ensures Stream() == old(Stream()) && old(data) <= data && Bounded()
      ensures |data| - possible == old(|data| - possible)
      ensures ok ==> error == Ok && reserved <= possible
      ensures !ok ==> possible < reserved
      ensures !ok && error == Ok ==> source != null && (source.blocking ==> source.remaining == [])
      ensures error == Ok || (error == TooBig && maxSize.Exceeded(|data| + reserved))
              || (error == Invalid && source == null)
      ensures error != Ok ==> !ok
      ensures Empties() == old(Empties()) + if !ok && error == Ok then 1 else 0
    {
      reserved := reserved + extra;
      if reserved <= possible {
        return true;
      }
      ok := ReserveFill();
    }

    // ----- allocating nodes

    /** Hands out `total` contiguous nodes to the compound at `p`. */
    method Alloc(total: nat, ghost p: Ptr) returns (ok: bool, first: Ptr)
      requires error == Ok && Allocating() && p in book.plan
      modifies this`pages, this`nodes, this`nodesLeft, this`error, this`book, this`tails
      ensures ok ==> error == Ok && Allocating() && Kept(old(pages), pages, old(book).plan)
      ensures ok ==> Unused(old(book), first, total) && book == Extend(old(book), p, first, total)
      ensures ok && total <= old(nodesLeft) ==>
                first == old(nodes) && pages == old(pages) && nodes == Slot(first, total)
                && nodesLeft == old(nodesLeft) - total
      ensures ok && total > old(nodesLeft) ==>
                && first == Ptr(|old(pages)|, 0) && |pages| == |old(pages)| + 1
                && if total > NODES_PER_PAGE || old(nodesLeft) > NODES_PER_PAGE / 8 then
                     |pages[|old(pages)|]| == total && nodes == old(nodes) && nodesLeft == old(nodesLeft)
                   else
                     && |pages[|old(pages)|]| == NODES_PER_PAGE && nodes == Slot(first, total)
                     && nodesLeft == NODES_PER_PAGE - total
      ensures !ok ==> error == TooBig && pooled && poolCount < |book.order| + total
      ensures !ok ==> pages == old(pages) && nodes == old(nodes) && nodesLeft == old(nodesLeft)
                      && book == old(book) && tails == old(tails)
      ensures !ok && old(Foretold()) ==> Foretold()
    {
      hide Extend, MemoryOk, Kept, Unused, Pending, Fate;
      ok := true;
      if total <= nodesLeft {
        AllocInPage(pages, tails, nodes, nodesLeft, book, p, total);
        first := nodes;
        tails := tails[nodes.page := nodes.index + total];
        nodes := Slot(nodes, total);
        nodesLeft := nodesLeft - total;
      } else if pooled {
        error := TooBig;
        return false, nodes;
      } else {
        first := Ptr(|pages|, 0);
        if total > NODES_PER_PAGE || nodesLeft > NODES_PER_PAGE / 8 {
          var page := seq(total, _ => BLANK);
          AllocSeparate(pages, tails, nodes, nodesLeft, book, p, page);
          pages := pages + [page];
        } else {
          var page := seq(NODES_PER_PAGE, _ => BLANK);
          AllocNewPage(pages, tails, nodes, nodesLeft, book, p, total, page);
          pages := pages + [page];
          nodes := Slot(first, total);
          nodesLeft := NODES_PER_PAGE - total;
        }
        tails := tails + [total];
      }
      book := Extend(book, p, first, total);
    }

    // ----- parsing one node

    ghost predicate TopOpen()
      reads this`stack
    {
      stack != [] && stack[|stack| - 1].left > 0
    }

    /** Why the parser stopped before the end of the message. */
    ghost predicate Stopped()
      reads this`error, this`data, this`began, source
    {
      if error != Ok then Explained() && (Determined() ==> error == Ending())
      else && source != null && !Decode(data, 0, 1).Done? && (source.blocking ==> source.remaining == [])
           && (Determined() ==> Ending() == Io)
    }

    /** The head being read is none that spoils the message, and its elements, once asked for, are within the limit. */
    ghost predicate Unspoiled(reserved: nat)
      requires size <= |Stream()|
      reads this`data, this`size, this`book, source
    {
      var h := HeadAt(Stream(), size);
      && !h.HeadBad?
      && (h.Head? && reserved > h.end - size - 1 ==> !maxNodes.Exceeded(|book.order| + KidCount(h.tag)))
    }

    lemma {:induction false} TagUnspoiled(n: nat)
      requires size < |Stream()| && Supported(Stream()[size]) && n <= TagSize(Stream()[size]) - 1
      ensures Unspoiled(n)
    {
      hide HeadAt;
      TypeByte(Stream(), size);
    }

    lemma {:induction false} ContentsUnspoiled(n: nat)
      requires size <= |Stream()| && HeadAt(Stream(), size).Head?
      requires !maxNodes.Exceeded(|book.order| + KidCount(HeadAt(Stream(), size).tag))
      ensures Unspoiled(n)
    {
      hide HeadAt;
    }

    /** A refused reservation for the current node explains itself. */
    lemma {:induction false} ReserveStopped()
      requires BookedOn(Stream(), size, stack, pages, book, root) && TopOpen() && Conserved() && possible < reserved
      requires var h := HeadAt(Stream(), size); h.Head? ==> reserved <= h.end - size - 1 + KidCount(h.tag)
      requires error == Ok ==> source != null && (source.blocking ==> source.remaining == [])
      requires error == Ok || (error == TooBig && maxSize.Exceeded(|data| + reserved))
               || (error == Invalid && source == null)
      requires Foretold() && Unspoiled(reserved) && (source == null ==> maxSize == Unlimited)
      ensures Stopped()
    {
      hide HeadAt, Decode, QueueOk, Pending, WrittenOk, CountOk, OrderOk, Fate;
      if source == null || (source.blocking && source.remaining == []) {
        assert Stream() == data;
        PendingAdvanced(stack, root, 0);
        FateShort(Stream(), size, |Pending(stack)|, |book.order|, Conditions(), reserved);
      }
      PendingAdvanced(stack, root, 0);
      var rest := if source == null then [] else source.remaining;
      if Goal().Done? { NeedFits(Stream(), Goal(), size, Pending(stack), book.plan, Goal().end); }
      Refused(data, rest, Goal(), size, Pending(stack), book.plan, possible, reserved);
      if source == null { assert Stream() == data; }
    }

    /** Reserves bytes for the current node, or says why not. */
    method ReserveNode(extra: nat) returns (ok: bool)
      requires error == Ok && BookedOn(Stream(), size, stack, pages, book, root) && TopOpen() && Conserved()
        && Bounded() && Foretold() && Unspoiled(reserved + extra)
      requires var h := HeadAt(Stream(), size); h.Head? ==> reserved + extra <= h.end - size - 1 + KidCount(h.tag)
      modifies this`reserved, this`data, this`capacity, this`possible, this`error, source
      ensures reserved == old(reserved) + extra && Stream() == old(Stream()) && old(data) <= data
      ensures Conserved() && Bounded() && Foretold() && |data| - possible == old(|data| - possible)
      ensures ok ==> error == Ok && reserved <= possible
      ensures !ok ==> Stopped()
      ensures Empties() == old(Empties()) + if !ok && error == Ok then 1 else 0
    {
      hide HeadAt, BookedOn, Pending, Decode, Stopped, KidCount, Fate;
      ok := Reserve(extra);
      if !ok {
        ReserveStopped();
      }
    }

    lemma {:induction false} Buffered()
      requires size < |data|
      ensures size < |Stream()| && Stream()[size] == data[size]
    {
    }

    /** A type byte that stands for no object spoils the message. */
    lemma {:induction false} BadType()
      requires BookedOn(Stream(), size, stack, pages, book, root) && TopOpen()
      requires size < |Stream()| && !Supported(Stream()[size])
      requires error == (if Stream()[size] == 0xc1 then Invalid else Unsupported) && Foretold()
      ensures Stopped()
    {
      hide HeadAt, Decode, QueueOk, Pending, WrittenOk, CountOk, OrderOk, Fate;
      PendingAdvanced(stack, root, 0);
      if HeadAt(Stream(), size).HeadBad? { FateBad(Stream(), size, |Pending(stack)|, |book.order|, Conditions()); }
      TypeByte(Stream(), size);
      BadGoal(Stream(), Goal(), size, Pending(stack), book.plan);
    }

    /** A tag that the buffer holds is the tag of the stream. */
    lemma {:induction false} TagLoaded()
      requires size < |data| && Supported(data[size]) && size + TagSize(data[size]) <= |data|
      ensures var h := HeadAt(Stream(), size);
              var tag := LoadTag(data[size..]);
              var end := size + TagSize(data[size]) + PayloadLen(tag);
              && (h.Head? ==> h.tag == tag && h.end == end)
              && (end <= |Stream()| ==> h == Head(tag, Stream()[end - PayloadLen(tag)..end], end))
    {
      hide HeadAt, LoadTag, Supported, TagSize;
      TagInBuffer(data, if source == null then [] else source.remaining, size);
    }

    /** Reads the tag of the node at `size`. */
    method ReadTag() returns (ok: bool, tag: Tag)
      requires Parsing() && TopOpen()
      modifies this`reserved, this`data, this`capacity, this`possible, this`error, source
      ensures Stream() == old(Stream()) && Conserved() && Bounded()
      ensures ok ==> error == Ok && reserved <= possible
      ensures ok ==> !HeadAt(Stream(), size).HeadBad?
      ensures ok ==> var h := HeadAt(Stream(), size);
                     var end := size + reserved + 1 + PayloadLen(tag);
                     && (h.Head? ==> h.tag == tag && h.end == end)
                     && (end <= |Stream()| ==> h == Head(tag, Stream()[end - PayloadLen(tag)..end], end))
      ensures !ok ==> Stopped()
      ensures Empties() == old(Empties()) + if !ok && error == Ok then 1 else 0
    {
      hide Stream, Goal, Allocating, HeadAt, LoadTag, Decode, BookedOn, Pending, MemoryOk, Fits, Supported, TagSize,
          PayloadLen, KidCount, Stopped, Foretold, Unspoiled;
      PendingAdvanced(stack, root, 0);
      tag := Nil;
      reserved := 0;
      var kind := data[size];
      Buffered();
      TypeByte(Stream(), size);
      if !Supported(kind) {
        error := if kind == 0xc1 then Invalid else Unsupported;
        BadType();
        return false, tag;
      }
      if TagSize(kind) > 1 {
        TagUnspoiled(TagSize(kind) - 1);
        ok := ReserveNode(TagSize(kind) - 1);
        if !ok {
          return;
        }
      }
      assert data[size] == kind;
      TagLoaded();
      tag := LoadTag(data[size..]);
      ok := true;
    }

    lemma {:induction false} StillBooked()
      requires BookedOn(Stream(), size, stack, pages, book, root) && TopOpen()
      ensures size <= |Stream()| && Pending(stack) != []
    {
      hide Decode, Pending, WrittenOk, CountOk, OrderOk;
      PendingAdvanced(stack, root, 0);
    }

    /** Reads the tag of the node at `size` and makes sure of its raw contents. */
    method ReadHead() returns (ok: bool, tag: Tag, offset: nat)
      requires Parsing() && TopOpen()
      modifies this`reserved, this`data, this`capacity, this`possible, this`error, source
      ensures Stream() == old(Stream()) && Conserved() && Bounded()
      ensures ok ==> error == Ok && reserved <= possible
      ensures ok ==> var h := HeadAt(Stream(), size);
                     && h.Head? && h.tag == tag && reserved == h.end - size - 1
                     && (PayloadLen(tag) > 0 ==>
                           offset + PayloadLen(tag) == h.end && Stream()[offset..h.end] == h.data)
      ensures !ok ==> Stopped()
      ensures error == Ok ==> Parsing()
      ensures Empties() == old(Empties()) + if !ok && error == Ok then 1 else 0
    {
      hide HeadAt, Decode, BookedOn, Pending, MemoryOk, Fits, Fate, Recounted, Stopped;
      StillBooked();
      CountedOnce(0);
      ghost var pauses := Pauses();
      offset := 0;
      ok, tag := ReadTag();
      if ok && (tag.Str? || tag.Bin?) {
        offset := size + reserved + 1;
        ok := ReserveNode(tag.l);
      }
      CountedAgain(nodeCount, |book.order|, 0, pauses);
    }

    lemma {:induction false} TopPending()
      requires TopOpen()
      ensures Pending(stack) != []
    {
      PendingAdvanced(stack, root, 0);
    }

    /** The elements of the compound being parsed are all part of the message. */
    lemma {:induction false} LimitReached()
      requires BookedOn(Stream(), size, stack, pages, book, root) && TopOpen() && HeadAt(Stream(), size).Head?
      ensures Goal().Done? ==> |book.order| + KidCount(HeadAt(Stream(), size).tag) <= NodeCount(Goal().vals)
    {
      hide HeadAt, Decode, Pending, WrittenOk, OrderOk, NodeCount;
      PendingAdvanced(stack, root, 0);
      if Goal().Done? {
        SlotsNeeded(Stream(), Goal(), size, |Pending(stack)|, |book.order|);
      }
    }

    /** Stopping at a limit is explained by the message itself. */
    lemma {:induction false} LimitStopped()
      requires BookedOn(Stream(), size, stack, pages, book, root) && TopOpen() && HeadAt(Stream(), size).Head?
      requires error == TooBig && (maxNodes.AtMost? || pooled)
      requires source == null ==>
                 var h := HeadAt(Stream(), size);
                 var n := |book.order| + KidCount(h.tag);
                 || maxNodes.Exceeded(n)
                 || (pooled && n > poolCount && h.end + KidCount(h.tag) + |Pending(stack)| - 1 <= |data|)
      requires Foretold() && HeadAt(Stream(), size).end + |Pending(stack)| - 1 <= |data|
      requires pooled ==> source == null
      requires source != null ==>
                 && maxNodes.Exceeded(nodeCount)
                 && Recounted(nodeCount, |book.order| + KidCount(HeadAt(Stream(), size).tag))
      ensures Stopped()
    {
      hide HeadAt, Decode, BookedOn, NodeCount, KidCount, Pending, Fate;
      LimitReached();
      if source == null {
        TopPending();
        assert Stream() == data;
        FateLimited(Stream(), size, |Pending(stack)|, |book.order|, Conditions());
      }
    }

    /** Counting nodes that are then handed out keeps the count. */
    lemma {:induction false} CountedOnce(kids: nat)
      requires Recounted(nodeCount, |book.order|)
      ensures Recounted(nodeCount + kids, |book.order| + kids)
      ensures began <= Empties() && (Goal().Done? ==> nodeCount <= |book.order| + Pauses() * NodeCount(Goal().vals))
    {
      hide Decode, NodeCount;
    }

    /** What is reserved past the type byte of the node, and every pending node, lies in the buffer. */
    lemma {:induction false} HeadRoom()
      requires Conserved() && reserved <= possible
      ensures size + 1 + reserved + |Pending(stack)| - 1 <= |data|
    {
      hide Pending;
    }

    /** Counts the elements of the compound being parsed and reserves a byte for each. */
    method CountChildren(tag: Tag) returns (ok: bool)
      requires Parsing() && TopOpen() && reserved <= possible
      requires var h := HeadAt(Stream(), size); h.Head? && h.tag == tag && reserved == h.end - size - 1
      modifies this`nodeCount, this`reserved, this`data, this`capacity, this`possible, this`error, source
      ensures Stream() == old(Stream()) && |data| - possible == old(|data| - possible) && Bounded() && Conserved()
      ensures Ending() == old(Ending()) && Foretold()
      ensures ok ==> error == Ok && reserved == old(reserved) + KidCount(tag) <= possible
      ensures error == Ok ==> nodeCount == old(nodeCount) + KidCount(tag) && !maxNodes.Exceeded(nodeCount)
      ensures ok ==> Recounted(nodeCount, |book.order| + KidCount(tag))
      ensures !ok ==> Stopped() && (error == Ok ==> Parsing())
      ensures Empties() == old(Empties()) + if !ok && error == Ok then 1 else 0
    {
      hide Bounds, HeadAt, Decode, BookedOn, Pending, MemoryOk, Fits, KidCount, Stopped, Unspoiled, Recounted, Fate,
          NodeCount;
      var total := KidCount(tag);
      LimitReached();
      CountedOnce(total);
      ghost var count, pauses := nodeCount, Pauses();
      nodeCount := nodeCount + total;
      HeadRoom();
      if maxNodes.Exceeded(nodeCount) {
        error := TooBig;
        LimitStopped();
        return false;
      }
      ContentsUnspoiled(reserved + total);
      ok := ReserveNode(total);
      if ok {
        CountedAgain(nodeCount, |book.order| + total, 0, pauses);
      } else if error == Ok {
        CountedAgain(count, |book.order|, total, pauses);
      }
    }

    /** Reserves a byte and allocates a node for every element of the compound at `p`, and opens a level for them. */
    method ParseChildren(tag: Tag, ghost p: Ptr) returns (ok: bool, first: Ptr)
      requires Parsing() && TopOpen() && p in book.plan && reserved <= possible
      requires var h := HeadAt(Stream(), size); h.Head? && h.tag == tag && reserved == h.end - size - 1
      modifies this`nodeCount, this`reserved, this`data, this`capacity, this`possible, this`error, source,
               this`pages, this`nodes, this`nodesLeft, this`book, this`tails, this`stack
      ensures Stream() == old(Stream()) && |data| - possible == old(|data| - possible) && Bounded()
      ensures Ending() == old(Ending())
      ensures ok ==> error == Ok && reserved == old(reserved) + KidCount(tag) <= possible
      ensures ok ==> nodeCount == old(nodeCount) + KidCount(tag) && !maxNodes.Exceeded(nodeCount)
      ensures ok ==> Recounted(nodeCount, |book.order|)
      ensures ok ==> Allocating() && Kept(old(pages), pages, old(book).plan)
      ensures ok ==> Unused(old(book), first, KidCount(tag)) && book == Extend(old(book), p, first, KidCount(tag))
      ensures ok ==> stack == Pushed(old(stack), first, KidCount(tag))
      ensures !ok ==> Stopped() && stack == old(stack) && pages == old(pages) && nodes == old(nodes)
                      && nodesLeft == old(nodesLeft) && book == old(book) && tails == old(tails)
      ensures !ok && error == Ok ==> Parsing()
      ensures Empties() == old(Empties()) + if !ok && error == Ok then 1 else 0
    {
      hide Bounds, Bounded, Conserved, Stream, Goal, HeadAt, Decode, BookedOn, Pending, MemoryOk, Fits, Extend,
          Kept, Unused, KidCount, Stopped, Foretold, Recounted, Ending;
      first := nodes;
      ok := CountChildren(tag);
      if ok {
        ghost var slots := |book.order|;
        ok, first := AllocChildren(tag, p);
        if ok {
          stack := Pushed(stack, first, KidCount(tag));
          assert |book.order| == slots + KidCount(tag);
        }
      }
    }

    /** Allocates a node for every element of the compound at `p`; too small a pool explains itself. */
    method AllocChildren(tag: Tag, ghost p: Ptr) returns (ok: bool, first: Ptr)
      requires error == Ok && BookedOn(Stream(), size, stack, pages, book, root) && TopOpen() && Allocating()
      requires Conserved() && Foretold() && p in book.plan && reserved <= possible
      requires var h := HeadAt(Stream(), size);
               h.Head? && h.tag == tag && reserved == h.end - size - 1 + KidCount(tag)
      modifies this`pages, this`nodes, this`nodesLeft, this`error, this`book, this`tails
      ensures ok ==> error == Ok && Allocating() && Kept(old(pages), pages, old(book).plan)
      ensures ok ==> Unused(old(book), first, KidCount(tag)) && book == Extend(old(book), p, first, KidCount(tag))
      ensures !ok ==> error != Ok && Stopped() && pages == old(pages) && nodes == old(nodes)
                      && nodesLeft == old(nodesLeft) && book == old(book) && tails == old(tails)
    {
      hide Stream, Conserved, HeadAt, Decode, BookedOn, Pending, MemoryOk, Extend, Kept, Unused, KidCount, Stopped,
          Foretold;
      HeadRoom();
      ok, first := Alloc(KidCount(tag), p);
      if !ok {
        LimitStopped();
      }
    }

    /** Makes room for the elements of the node at `p`, if it has any. */
    method ParseContents(tag: Tag, ghost p: Ptr) returns (ok: bool, first: Ptr)
      requires Parsing() && TopOpen() && p in book.plan && reserved <= possible
      requires var h := HeadAt(Stream(), size); h.Head? && h.tag == tag && reserved == h.end - size - 1
      modifies this`nodeCount, this`reserved, this`data, this`capacity, this`possible, this`error, source,
               this`pages, this`nodes, this`nodesLeft, this`book, this`tails, this`stack
      ensures Stream() == old(Stream()) && |data| - possible == old(|data| - possible) && Bounded()
      ensures Ending() == old(Ending())
      ensures ok ==> error == Ok && reserved == old(reserved) + KidCount(tag) <= possible
      ensures ok ==> nodeCount == old(nodeCount) + KidCount(tag) && !maxNodes.Exceeded(nodeCount)
      ensures ok ==> Recounted(nodeCount, |book.order|)
      ensures ok ==> Allocating() && Kept(old(pages), pages, old(book).plan)
      ensures ok ==> Unused(old(book), first, KidCount(tag)) && book == Extend(old(book), p, first, KidCount(tag))
      ensures ok ==> stack == Pushed(old(stack), first, KidCount(tag))
      ensures !ok ==> Stopped() && stack == old(stack) && pages == old(pages) && nodes == old(nodes)
                      && nodesLeft == old(nodesLeft) && book == old(book) && tails == old(tails)
      ensures !ok && error == Ok ==> Parsing()
      ensures Empties() == old(Empties()) + if !ok && error == Ok then 1 else 0
    {
      hide HeadAt, Decode, BookedOn, Fits, Extend, Pending, Fate;
      if tag.Array? || tag.Map? {
        ok, first := ParseChildren(tag, p);
      } else {
        ok, first := true, BLANK.children;
        ExtendNone(book, p, first);
      }
    }

    /** What is in use is within the limits. */
    lemma {:induction false} WithinBounds()
      requires Bounded() && Allocating() && |book.order| <= nodeCount && !maxNodes.Exceeded(nodeCount)
      ensures |data| <= |Stream()| && !Bounds().size.Exceeded(|data|) && !Bounds().nodes.Exceeded(|book.order|)
    {
      hide MemoryOk;
    }

    /** Writes the parsed node, settles the byte budget, and steps to the next child. */
    method Commit(level: nat, tag: Tag, offset: nat, first: Ptr,
                  ghost pages0: Pages, ghost book0: Book, ghost stack0: seq<Level>)
      requires error == Ok && state == InProgress
      requires stack0 != [] && level == |stack0| - 1 && stack0[level].left > 0
          && stack == Pushed(stack0, first, KidCount(tag))
      requires size + |Pending(stack0)| + possible == |data|
      requires BookedOn(Stream(), size, stack0, pages0, book0, root)
      requires Bounded() && Fits(Stream(), size, |Pending(stack0)|, |book0.order|, Bounds())
      requires Ending() == Fate(Stream(), size, |Pending(stack0)|, |book0.order|, Conditions())
      requires HeadAt(Stream(), size).Head? && Writes(Stream(), size, NodeData(tag, offset, first), first)
      requires reserved == HeadAt(Stream(), size).end - size - 1 + KidCount(tag) <= possible
      requires stack0[level].child in book0.plan
      requires Allocating() && Kept(pages0, pages, book0.plan)
      requires Unused(book0, first, KidCount(tag)) && book == Extend(book0, stack0[level].child, first, KidCount(tag))
      requires |book.order| <= nodeCount && !maxNodes.Exceeded(nodeCount) && (source == null
          ==> nodeCount == |book.order|) && Recounted(nodeCount, |book.order|)
      modifies this`possible, this`pages, this`size, this`stack
      ensures Stream() == old(Stream()) && Parsing() && size > old(size)
    {
      hide Stream, Bounds, Bounded, HeadAt, Decode, Pending, MemoryOk, Kept, Unused, Put, Writes, BookedOn, Extend,
          Fits, Fate, Recounted;
      var node := stack[level].child;
      var nd := NodeData(tag, offset, first);
      WithinBounds();
      WritesTag(Stream(), size, nd, first);
      PendingAdvanced(stack0, first, KidCount(tag));
      FateStep(Stream(), size, |Pending(stack0)|, |book0.order|, Conditions());
      CommitStep(Stream(), size, stack0, pages0, pages, tails, nodes, nodesLeft, book0, root, first, nd, |data|,
                 Bounds());
      var advanced := stack[level := Level(Slot(node, 1), stack[level].left - 1)];
      assert advanced == Advanced(stack0, first, KidCount(tag));
      Step(possible - reserved, Put(pages, node, nd), Settled(size, reserved, tag), advanced);
    }

    method Step(possible: nat, pages: Pages, size: nat, stack: seq<Level>)
      modifies this`possible, this`pages, this`size, this`stack
      ensures this.possible == possible && this.pages == pages && this.size == size && this.stack == stack
    {
      this.possible, this.pages, this.size, this.stack := possible, pages, size, stack;
    }

    lemma {:induction false} TopPlanned()
      requires BookedOn(Stream(), size, stack, pages, book, root) && TopOpen()
      ensures stack[|stack| - 1].child in book.plan
    {
      hide Decode, Pending, WrittenOk, CountOk, OrderOk;
      PendingAdvanced(stack, root, 0);
    }

    lemma {:induction false} ForetoldIs()
      requires Foretold()
      ensures size <= |Stream()| && Ending() == Fate(Stream(), size, |Pending(stack)|, |book.order|, Conditions())
    {
      hide Fate, Pending;
    }

    /** Parses the next node and steps over it. */
    method ParseNode() returns (ok: bool)
      requires Parsing() && TopOpen()
      modifies this`nodeCount, this`reserved, this`data, this`capacity, this`possible, this`error, source,
               this`pages, this`nodes, this`nodesLeft, this`book, this`tails, this`stack, this`size
      ensures Stream() == old(Stream()) && size <= |data| && Bounded()
      ensures ok ==> Parsing() && size > old(size)
      ensures !ok ==> Stopped() && (error == Ok ==> Parsing() && TopOpen())
      ensures Empties() == old(Empties()) + if !ok && error == Ok then 1 else 0
    {
      hide Stream, HeadAt, Decode, BookedOn, Pending, MemoryOk, Extend, Kept, Unused, Fits, Stopped, KidCount,
          Recounted, Fate, Foretold, Ending;
      TopPlanned();
      var tag, offset;
      ok, tag, offset := ReadHead();
      if !ok {
        StoppedShort();
        return;
      }
      var level := |stack| - 1;
      var node := stack[level].child;
      ghost var pages0, book0, stack0 := pages, book, stack;
      var first;
      ForetoldIs();
      ok, first := ParseContents(tag, node);
      if !ok {
        StoppedShort();
        return;
      }
      Commit(level, tag, offset, first, pages0, book0, stack0);
    }

    // ----- parsing messages

    /** The current message is parsed: its length, its trailing bytes and the object its nodes denote. */
    ghost predicate Complete()
      reads this`data, this`size, this`pages, this`root, this`possible, this`book, this`tails, this`nodes,
          this`nodesLeft, source
    {
      && Goal().Done? && Goal().end == size <= |data|
      && Denotes(data, pages, root, Goal().vals[0])
      && possible == |data| - size
      && Allocating() && Separated(pages, book)
      && root in book.plan && OrderOk(book)
      && |book.order| == NodeCount(Goal().vals) && |book.order| <= size
      && Acceptable(NodeCount(Goal().vals)) && (maxSize.AtMost? ==> size <= maxSize.max)
      && Ending() == Ok
    }

    /** When the last level is empty the message is complete. */
    lemma {:induction false} LastLevel()
      requires Parsing() && |stack| == 1 && stack[0].left == 0
      ensures Complete()
    {
      hide HeadAt, Decode, BookedOn, Pending, MemoryOk, Fits, Denotes, NodeCount, OrderOk, Fate;
      FateDone(Stream(), size, |book.order|, Conditions());
      PopStep(Stream(), size, stack, pages, book, root);
      assert data == Stream()[..|data|];
      Finished(Stream(), data, size, stack, pages, book, root);
    }

    lemma {:induction false} BufferedSoFar()
      ensures |data| <= |Stream()|
    {
    }

    /** Parses nodes until the stack is empty or the parser has to stop. */
    method ContinueParsing() returns (ok: bool)
      requires Parsing() && TopOpen()
      modifies this, source
      ensures Stream() == old(Stream()) && state == InProgress && size <= |data| && Bounded()
      ensures ok ==> error == Ok && Complete()
      ensures !ok ==> Stopped() && (error == Ok ==> Parsing() && TopOpen())
      ensures Empties() == old(Empties()) + if !ok && error == Ok then 1 else 0
    {
      hide Stream, Complete, Bounded, Bounds, HeadAt, Decode, BookedOn, Pending, MemoryOk, Fits, Denotes, Stopped;
      while true
        invariant Parsing() && TopOpen() && Stream() == old(Stream()) && Empties() == old(Empties())
        decreases |Stream()| - size
      {
        ok := ParseNode();
        BufferedSoFar();
        if !ok {
          return;
        }
        ghost var before := size;
        while stack[|stack| - 1].left == 0
          invariant Parsing() && Stream() == old(Stream()) && size == before && Empties() == old(Empties())
          decreases |stack|
        {
          if |stack| == 1 {
            LastLevel();
            return true;
          }
          PopStep(Stream(), size, stack, pages, book, root);
          stack := stack[..|stack| - 1];
        }
      }
    }

    /** The nodes of a parsed message form a tree: different paths from the root lead to different nodes. */
    lemma {:induction false} PathsToNodes(a: Path, c: Path)
      requires Complete() && Follow(pages, root, a).To? && Follow(pages, root, a) == Follow(pages, root, c)
      ensures a == c
    {
      hide Decode, Denotes, NodeCount, MemoryOk, Follow, OrderOk, Separated;
      PathsApart(data, pages, book, root, Goal().vals[0], a, c);
    }

    /** Element ranges of different nodes of a parsed message are allocated and share no slot. */
    lemma {:induction false} ElementsApart(a: Path, c: Path, i: nat, j: nat)
      requires Complete() && a != c
      requires Into(pages, Follow(pages, root, a), i).To? && Into(pages, Follow(pages, root, c), j).To?
      ensures var x, y := Into(pages, Follow(pages, root, a), i).p, Into(pages, Follow(pages, root, c), j).p;
              x != y && Allocated(pages, x) && Allocated(pages, y)
    {
      hide Decode, Denotes, NodeCount, MemoryOk, Follow, OrderOk, Separated;
      RangesApart(data, pages, tails, nodes, nodesLeft, book, root, Goal().vals[0], a, c, i, j);
    }

    /**
     On every page the slots in use come first and are exactly nodes of the parsed message; a page left behind has at
     most an eighth of a standard page after them.
     */
    lemma {:induction false} NodesOnPage(k: nat) returns (used: nat)
      requires Complete() && k < |pages|
      ensures used <= |pages[k]| && forall i: nat :: i < used <==> Reached(pages, root, Ptr(k, i))
      ensures k != nodes.page ==> |pages[k]| <= used + NODES_PER_PAGE / 8
    {
      hide Decode, Denotes, NodeCount, Reached, OrderOk, Separated;
      assert Goal().vals == [Goal().vals[0]];
      Inhabited(data, pages, book, root, Goal().vals[0]);
      used := tails[k];
    }

    /** What is left of the stream once the messages parsed so far are taken off. */
    ghost function Unparsed(): Bytes
      requires size <= |data|
      reads this`data, this`size, this`state, source
    {
      if state == Parsed then Stream()[size..] else Stream()
    }

    lemma {:induction false} UnparsedIs()
      requires size <= |data|
      ensures |data| <= |Stream()| && Unparsed() == if state == Parsed then Stream()[size..] else Stream()
    {
    }

    /** The state between two calls. */
    ghost predicate Valid()
      reads this, source
    {
      && size <= |data|
      && Bounded() && (pooled ==> source == null && poolCount > 0)
      && (maxNodes.AtMost? ==> maxNodes.max > 0)
      && (error == Ok ==>
            match state
            case NotStarted => size == 0
            case InProgress => Parsing() && TopOpen()
            case Parsed => true)
    }

    /** A tree over data that is all in memory, its nodes in pages or, with `poolCount > 0`, in a pool. */
    constructor InMemory(data: Bytes, poolCount: nat, maxNodes: Limit)
      requires maxNodes.AtMost? ==> maxNodes.max > 0
      ensures Valid() && error == Ok && source == null && Unparsed() == data
      ensures pooled == (poolCount > 0) && this.poolCount == poolCount && this.maxNodes == maxNodes
          && maxSize == Unlimited
    {
      source, maxSize, this.maxNodes := null, Unlimited, maxNodes;
      pooled, this.poolCount := poolCount > 0, poolCount;
      this.data, capacity, size, nodeCount := data, 0, 0, 0;
      error, state, possible, reserved := Ok, NotStarted, 0, 0;
      stack, pages, nodes, nodesLeft, root := [], [], Ptr(0, 0), 0, Ptr(0, 0);
      new;
      assert Stream() == data;
    }

    /** A tree fed by a stream. */
    constructor OnStream(from: Source, maxSize: Limit, maxNodes: Limit)
      requires maxNodes.AtMost? ==> maxNodes.max > 0
      ensures Valid() && error == Ok && source == from && Unparsed() == from.remaining
      ensures !pooled && this.maxSize == maxSize && this.maxNodes == maxNodes
    {
      source, this.maxSize, this.maxNodes := from, maxSize, maxNodes;
      pooled, poolCount := false, 0;
      data, capacity, size, nodeCount := [], 0, 0, 0;
      error, state, possible, reserved := Ok, NotStarted, 0, 0;
      stack, pages, nodes, nodesLeft, root := [], [], Ptr(0, 0), 0, Ptr(0, 0);
      new;
      assert Stream() == from.remaining;
    }

    /** Drops the message parsed before, its nodes and its bytes. */
    method DropParsed()
      requires Valid() && error == Ok && state != InProgress
      modifies this`data, this`size, this`nodeCount, this`pages, this`state, this`reserved, this`possible
      ensures Stream() == old(Unparsed()) && size == 0 && state == InProgress && reserved == 0 && possible == |data|
    {
      ghost var rest := if source == null then [] else source.remaining;
      assert (data + rest)[size..] == data[size..] + rest;
      if state == Parsed {
        pages := [];
      }
      state := InProgress;
      reserved := 0;
      if size > 0 {
        data := data[size..];
        size := 0;
        nodeCount := 0;
      }
      possible := |data|;
    }

    /** A byte, a node and a level for the message itself. */
    method PlaceRoot()
      requires error == Ok && state == InProgress && size == 0 && 0 < possible == |data|
        && Bounded() && Fits(Stream(), 0, 1, 1, Bounds()) && began <= Empties()
      requires (pooled ==> source == null && poolCount > 0) && (maxNodes.AtMost? ==> maxNodes.max > 0)
      modifies this`possible, this`nodeCount, this`pages, this`root, this`nodes, this`nodesLeft, this`stack,
          this`book, this`tails
      ensures Stream() == old(Stream()) && Parsing() && TopOpen()
    {
      hide HeadAt, BookedOn, Pending, MemoryOk, Fits, FirstBook, Decode;
      var count := if pooled then poolCount else NODES_PER_PAGE;
      var page := seq(count, _ => BLANK);
      StartBooked(Stream(), page);
      FirstNode(page, FirstBook(Stream(), Ptr(0, 0)));
    }

    method FirstNode(page: seq<NodeData>, ghost first: Book)
      requires page != [] && possible > 0
      modifies this`possible, this`nodeCount, this`pages, this`root, this`nodes, this`nodesLeft, this`stack,
          this`book, this`tails
      ensures possible == old(possible) - 1 && nodeCount == 1 && pages == [page] && root == Ptr(0, 0)
      ensures nodes == Ptr(0, 1) && nodesLeft == |page| - 1 && stack == [Level(root, 1)] && book == first
          && tails == [1]
    {
      possible, nodeCount := possible - 1, 1;
      pages, root, nodes, nodesLeft := [page], Ptr(0, 0), Ptr(0, 1), |page| - 1;
      stack := [Level(root, 1)];
      book, tails := first, [1];
    }

    /** Drops the previous message and prepares for the next, once its first byte is there. */
    method ParseStart() returns (ok: bool)
      requires Valid() && error == Ok && state != InProgress && Fits(Unparsed(), 0, 1, 1, Bounds())
      modifies this, source
      ensures Stream() == old(Unparsed())
      ensures ok ==> Parsing() && TopOpen()
      ensures !ok ==> Valid() && state == NotStarted && Stopped()
      ensures Empties() == old(Empties()) + if !ok && error == Ok then 1 else 0
    {
      hide HeadAt, BookedOn, Pending, MemoryOk, Fits, FirstBook, Decode;
      DropParsed();
      began := Empties();
      ok := Reserve(1);
      if !ok {
        state := NotStarted;
        assert data == [];
        NoBytes();
        FateEmpty(1, Conditions());
        return;
      }
      PlaceRoot();
    }

    lemma {:induction false} CompleteBuffered()
      requires Complete()
      ensures Decode(data, 0, 1).Done?
    {
      hide Decode, Denotes, NodeCount, MemoryOk;
      assert data == Stream()[..|data|];
      DecodeWithin(Stream(), 0, 1, |data|);
    }

    lemma {:induction false} CompleteMessage()
      requires Complete()
      ensures Goal().Done? && Goal().end == size <= |data| && Denotes(data, pages, root, Goal().vals[0])
    {
      hide Decode, Denotes, NodeCount, MemoryOk;
    }

    lemma {:induction false} StoppedShort()
      requires Stopped()
      ensures error == Ok ==> source != null && !Decode(data, 0, 1).Done?
      ensures error == Ok && source.blocking ==> Stream() == data
      ensures error != Ok ==> Explained()
      ensures Determined() ==> Ending() == if error != Ok then error else Io
      ensures error == Ok && source.blocking ==> source.remaining == []
    {
      hide Decode, Explained;
    }

    /** One attempt to parse the next message with whatever the stream delivers. */
    method TryParse() returns (ok: bool)
      requires Valid() && Fits(Unparsed(), 0, 1, 1, Bounds())
      modifies this, source
      ensures Valid()
      ensures old(error) != Ok ==> !ok && error == old(error) && Unparsed() == old(Unparsed())
      ensures old(error) == Ok && ok ==> error == Ok && state == Parsed && Stream() == old(Unparsed()) && Complete()
      ensures old(error) == Ok && !ok ==> state != Parsed && Stream() == old(Unparsed()) && Stopped()
      ensures error == Ok ==> (ok <==> Decode(data, 0, 1).Done?)
      ensures Empties() == old(Empties()) + if old(error) == Ok && !ok && error == Ok then 1 else 0
    {
      hide HeadAt, Decode, BookedOn, Pending, MemoryOk, Fits, Denotes, Stopped, Complete;
      if error != Ok {
        return false;
      }
      if state != InProgress {
        ok := ParseStart();
        if !ok {
          StoppedShort();
          return;
        }
      }
      ok := ContinueParsing();
      if ok {
        CompleteBuffered();
        state := Parsed;
      } else {
        StoppedShort();
      }
    }

    /** Parses the next message on data in memory or on a stream that blocks; anything short of it is an error. */
    method Parse()
      requires Valid() && Fits(Unparsed(), 0, 1, 1, Bounds())
      modifies this, source
      ensures Valid()
      ensures old(error) != Ok ==> error == old(error)
      ensures old(error) == Ok && error == Ok ==> state == Parsed && Stream() == old(Unparsed()) && Complete()
      ensures old(error) == Ok && source == null ==>
                var goal := Decode(old(Unparsed()), 0, 1);
                (error == Ok <==> goal.Done? && Acceptable(NodeCount(goal.vals)))
      ensures old(error) == Ok && source != null && source.blocking && maxSize == maxNodes == Unlimited ==>
                (error == Ok <==> Decode(old(Unparsed()), 0, 1).Done?)
      ensures old(error) == Ok && source != null && source.blocking ==>
                var goal := Decode(old(Unparsed()), 0, 1);
                goal.Done? && !Tight(goal) ==> error == Ok
      ensures old(error) == Ok ==> Empties() == old(Empties()) + if error == Io then 1 else 0
      ensures old(error) == Ok && Determined() ==> error == Fate(old(Unparsed()), 0, 1, 1, Conditions())
      ensures old(error) == Ok ==>
                var goal := Decode(old(Unparsed()), 0, 1);
                match error
                case Ok => goal.Done?
                case Invalid => if source == null then !goal.Done? else goal == Bad(Invalid)
                case Unsupported => goal == Bad(Unsupported)
                case TooBig => && (maxSize.AtMost? || maxNodes.AtMost? || pooled)
                               && (source != null && goal.Done? ==> Tight(goal))
                case Io => source != null && (source.blocking ==> !goal.Done? && source.remaining == [])
                case Bug => false
    {
      hide HeadAt, Decode, BookedOn, Pending, MemoryOk, Fits, Denotes, NodeCount, Stopped, Fate;
      if error != Ok {
        return;
      }
      if state != InProgress {
        var started := ParseStart();
        if !started {
          StoppedShort();
          if error == Ok {
            error := if source == null then Invalid else Io;
          }
          return;
        }
      }
      var ok := ContinueParsing();
      if !ok {
        StoppedShort();
        if error == Ok {
          error := if source == null then Invalid else Io;
        }
        return;
      }
      state := Parsed;
    }

    /** One attempt, seen from the stream: it takes the first message off and hands out its graph, or takes nothing. */
    method TryNext() returns (ok: bool, msg: Message)
      requires Valid() && error == Ok && Fits(Unparsed(), 0, 1, 1, Bounds())
      modifies this, source
      ensures Valid() && (error != Ok ==> !ok && state != Parsed && Explained())
      ensures ok ==> var next := Decode(old(Unparsed()), 0, 1);
                     && next.Done? && Unparsed() == old(Unparsed())[next.end..]
                     && Denotes(msg.data, msg.pages, msg.root, next.vals[0])
      ensures !ok ==> Unparsed() == old(Unparsed())
      ensures !ok && error == Ok && source != null && source.blocking ==> !Decode(Unparsed(), 0, 1).Done?
      ensures Empties() == old(Empties()) + if !ok && error == Ok then 1 else 0
    {
      hide HeadAt, Decode, BookedOn, Pending, MemoryOk, Fits, Denotes, NodeCount, Stopped, Explained, Complete, Parsing,
          Unparsed, Stream, Bounded;
      ok := TryParse();
      UnparsedIs();
      if ok {
        CompleteMessage();
      } else {
        StoppedShort();
      }
      msg := Message(data, pages, root);
    }

    /**
     A receive loop: any number of attempts, on a stream cut into chunks in any way. The node graphs that came out
     denote the first messages of the stream, in order, and nothing else was consumed, whether or not an error was
     flagged in the end. Without an error every attempt yields a message or ends on a read that delivered nothing; on a
     stream that blocks, fewer messages than attempts means that no more are there.
     */
    method Drain(attempts: nat) returns (msgs: seq<Message>, ghost vals: seq<Value>)
      requires Valid() && error == Ok && StreamFits(Unparsed(), Bounds())
      modifies this, source
      ensures Valid() && |vals| <= attempts
      ensures AllDenote(msgs, vals)
      ensures var s := old(Unparsed());
              var all := Decode(s, 0, |vals|);
              all.Done? && all.vals == vals && Unparsed() == s[all.end..]
      ensures error != Ok ==> state != Parsed && Explained()
      ensures error == Ok && source != null && source.blocking && |vals| < attempts ==> !Decode(Unparsed(), 0, 1).Done?
      ensures error == Ok ==> |vals| + (Empties() - old(Empties())) == attempts
    {
      hide HeadAt, Decode, BookedOn, Pending, MemoryOk, Fits, Denotes, NodeCount, StreamFits, Stopped, Explained,
          Complete, Parsing, Unparsed, Stream, Bounded, Bounds;
      msgs, vals := [], [];
      ghost var s: Bytes, taken: nat := Unparsed(), 0;
      DecodeNone(s, 0);
      assert s[0..] == s;
      for i := 0 to attempts
        invariant Valid() && error == Ok && taken <= |s| && StreamFits(s[taken..], Bounds()) && |vals| <= i
        invariant Unparsed() == s[taken..] && Decode(s, 0, |vals|) == Done(vals, taken) && AllDenote(msgs, vals)
        invariant source != null && source.blocking && |vals| < i ==> !Decode(Unparsed(), 0, 1).Done?
        invariant |vals| + (Empties() - old(Empties())) == i
      {
        StreamFitsFirst(s[taken..], Bounds());
        var ok, msg := TryNext();
        if error != Ok {
          return;
        }
        if ok {
          ghost var next := Decode(s[taken..], 0, 1);
          DecodeNext(s, vals, taken);
          assert s[taken..][next.end..] == s[taken + next.end..];
          msgs, vals := msgs + [msg], vals + next.vals;
          taken := taken + next.end;
        }
      }
    }
  }
}
