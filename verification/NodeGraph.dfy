/**
 The node memory of a parsed tree, and the bookkeeping that ties a half-parsed tree to the
 value it will denote.

 Node pointers are (page, index) pairs. While a message is being parsed, `Book` records for every slot
 handed out so far the object that slot must end up denoting (`plan`), the compound that owns it
 (`owner`) and the order of allocation. The facts kept about one slot are local, so that
 writing one node disturbs no other; the recursive reading `Denotes` is recovered at the end.
 */
module NodeGraph {
  import opened Wire
  import opened Values

  /** A standard page of 4096 bytes: an 8-byte link and as many 16-byte nodes as fit. */
  const NODES_PER_PAGE: nat := (4096 - 24) / 16 + 1

  datatype Ptr = Ptr(page: nat, index: nat)

  /** `offset` locates the raw contents of a str or bin, `children` the elements of a compound. */
  datatype NodeData = NodeData(tag: Tag, offset: nat, children: Ptr)

  type Pages = seq<seq<NodeData>>

  function Slot(first: Ptr, i: nat): Ptr { Ptr(first.page, first.index + i) }

  function Slots(first: Ptr, n: nat): (s: seq<Ptr>)
    ensures |s| == n
    ensures forall i :: 0 <= i < n ==> s[i] == Slot(first, i)
  {
    seq(n, i requires 0 <= i => Slot(first, i))
  }

  predicate InRange(p: Ptr, first: Ptr, n: nat) {
    p.page == first.page && first.index <= p.index < first.index + n
  }

  predicate Allocated(pages: Pages, p: Ptr) {
    p.page < |pages| && p.index < |pages[p.page]|
  }

  function At(pages: Pages, p: Ptr): NodeData
    requires Allocated(pages, p)
  {
    pages[p.page][p.index]
  }

  function Put(pages: Pages, p: Ptr, nd: NodeData): (r: Pages)
    requires Allocated(pages, p)
    ensures |r| == |pages| && forall k :: 0 <= k < |r| ==> |r[k]| == |pages[k]|
    ensures At(r, p) == nd
    ensures forall q :: q != p && Allocated(pages, q) ==> At(r, q) == At(pages, q)
  {
    pages[p.page := pages[p.page][p.index := nd]]
  }

  ghost predicate NoDup<T>(s: seq<T>) {
    forall i, j :: 0 <= i < j < |s| ==> s[i] != s[j]
  }

  /** The node at `p` and everything below it read as the object `v`. */
  ghost predicate Denotes(data: Bytes, pages: Pages, p: Ptr, v: Value)
    decreases v
  {
    && Allocated(pages, p)
    && var nd := At(pages, p);
    && nd.tag == v.tag
    && |v.data| == PayloadLen(v.tag) && |v.kids| == KidCount(v.tag)
    && (PayloadLen(v.tag) > 0 ==>
          nd.offset + |v.data| <= |data| && data[nd.offset..nd.offset + |v.data|] == v.data)
    && forall i :: 0 <= i < |v.kids| ==> Denotes(data, pages, Slot(nd.children, i), v.kids[i])
  }

  /** A graph denotes at most one object. */
  lemma {:induction false} DenotesUnique(data: Bytes, pages: Pages, p: Ptr, v: Value, w: Value)
    requires Denotes(data, pages, p, v) && Denotes(data, pages, p, w)
    ensures v == w
    decreases v
  {
    var nd := At(pages, p);
    forall i | 0 <= i < |v.kids| ensures v.kids[i] == w.kids[i] {
      DenotesUnique(data, pages, Slot(nd.children, i), v.kids[i], w.kids[i]);
    }
    assert v.kids == w.kids;
    if PayloadLen(v.tag) == 0 { assert v.data == w.data; }
  }

  // ----- bookkeeping

  datatype Book = Book(plan: map<Ptr, Value>, owner: map<Ptr, Ptr>, order: seq<Ptr>)

  /** Reading `|pend|` objects from `pos` finishes the message, and yields what the pending slots wait for. */
  ghost predicate QueueOk(s: Bytes, goal: Decoded, pos: nat, pend: seq<Ptr>, plan: map<Ptr, Value>) {
    && pos <= |s|
    && (forall i :: 0 <= i < |pend| ==> pend[i] in plan)
    && var rest := Decode(s, pos, |pend|);
    && if rest.Done? then
         goal.Done? && goal.end == rest.end && forall i :: 0 <= i < |pend| ==> plan[pend[i]] == rest.vals[i]
       else goal == rest
  }

  /** Elements of the compound at `p` are slots of their own, owned by `p`. */
  ghost predicate Owns(pages: Pages, p: Ptr, b: Book) {
    && Allocated(pages, p)
    && var nd := At(pages, p);
    && forall i :: 0 <= i < KidCount(nd.tag) ==>
         var k := Slot(nd.children, i); k in b.plan && k in b.owner && b.owner[k] == p
  }

  /** The node at `p`, already parsed, agrees with the plan. */
  ghost predicate Agrees(s: Bytes, pos: nat, pages: Pages, p: Ptr, b: Book)
    requires p in b.plan && Owns(pages, p, b)
  {
    var nd, v := At(pages, p), b.plan[p];
    && nd.tag == v.tag
    && |v.data| == PayloadLen(v.tag) && |v.kids| == KidCount(v.tag)
    && (PayloadLen(v.tag) > 0 ==>
          nd.offset + |v.data| <= pos <= |s| && s[nd.offset..nd.offset + |v.data|] == v.data)
    && forall i :: 0 <= i < |v.kids| ==> b.plan[Slot(nd.children, i)] == v.kids[i]
  }

  ghost predicate WrittenOk(s: Bytes, goal: Decoded, pos: nat, pend: seq<Ptr>, pages: Pages, b: Book) {
    forall p :: p in b.plan && p !in pend ==>
      Owns(pages, p, b) && (goal.Done? ==> Agrees(s, pos, pages, p, b))
  }

  /** The slots are listed once each, in the order they were handed out. */
  ghost predicate OrderOk(b: Book) {
    && NoDup(b.order)
    && forall p :: p in b.plan <==> p in b.order
  }

  /**
   `tails[k]` is the number of slots in use on page `k`, always its first ones. A page other than the
   current one has at most one eighth of a standard page unused.
   */
  ghost predicate TailsOk(pages: Pages, tails: seq<nat>, cur: nat, plan: map<Ptr, Value>) {
    && |tails| == |pages| && cur < |pages|
    && (forall p :: p in plan <==> p.page < |pages| && p.index < tails[p.page])
    && (forall k :: 0 <= k < |pages| ==>
          tails[k] <= |pages[k]| && (k != cur ==> |pages[k]| - tails[k] <= NODES_PER_PAGE / 8))
  }

  /** Slots handed out never outnumber bytes; together with the objects still to come they make up the message. */
  ghost predicate CountOk(s: Bytes, goal: Decoded, pos: nat, n: nat, slots: nat) {
    && pos <= |s|
    && slots <= pos + n
    && (Decode(s, pos, n).Done? && goal.Done? ==>
          slots - n + NodeCount(Decode(s, pos, n).vals) == NodeCount(goal.vals))
  }

  // ----- allocation of a run of fresh slots

  ghost function Range(first: Ptr, n: nat): (r: set<Ptr>)
    ensures forall p :: p in r <==> InRange(p, first, n)
  {
    var r := set i | 0 <= i < n :: Slot(first, i);
    assert forall p :: InRange(p, first, n) ==> p == Slot(first, p.index - first.index) && p in r;
    r
  }

  ghost function Grow<V>(m: map<Ptr, V>, first: Ptr, vals: seq<V>): (r: map<Ptr, V>)
    ensures forall p :: p in r <==> p in m || InRange(p, first, |vals|)
    ensures forall i :: 0 <= i < |vals| ==> Slot(first, i) in r && r[Slot(first, i)] == vals[i]
    ensures forall p :: p in m && !InRange(p, first, |vals|) ==> r[p] == m[p]
  {
    map p | p in m.Keys + Range(first, |vals|) ::
      if InRange(p, first, |vals|) then vals[p.index - first.index] else m[p]
  }

  /** The objects planned for the elements of `p`; arbitrary when the message can not be completed. */
  ghost function PlanKids(v: Value, n: nat): (vals: seq<Value>)
    ensures |vals| == n
    ensures |v.kids| == n ==> vals == v.kids
  {
    if |v.kids| == n then v.kids else seq(n, _ => v)
  }

  ghost function Extend(b: Book, p: Ptr, first: Ptr, n: nat): (r: Book)
    requires p in b.plan
    ensures forall q :: q in r.plan <==> q in b.plan || InRange(q, first, n)
    ensures forall i :: 0 <= i < n ==>
              var k := Slot(first, i);
              k in r.plan && r.plan[k] == PlanKids(b.plan[p], n)[i] && k in r.owner && r.owner[k] == p
    ensures forall q :: q in b.plan && !InRange(q, first, n) ==> r.plan[q] == b.plan[q]
    ensures forall q :: q in b.owner && !InRange(q, first, n) ==> q in r.owner && r.owner[q] == b.owner[q]
    ensures r.order == b.order + Slots(first, n)
  {
    Book(Grow(b.plan, first, PlanKids(b.plan[p], n)), Grow(b.owner, first, seq(n, _ => p)), b.order + Slots(first, n))
  }

  lemma {:induction false} ExtendNone(b: Book, p: Ptr, first: Ptr)
    requires p in b.plan
    ensures Extend(b, p, first, 0) == b
  {
  }

  ghost predicate Unused(b: Book, first: Ptr, n: nat) {
    forall p :: p in b.plan ==> !InRange(p, first, n)
  }

  lemma {:induction false} OrderStep(b: Book, p: Ptr, first: Ptr, n: nat)
    requires OrderOk(b) && p in b.plan && Unused(b, first, n)
    ensures OrderOk(Extend(b, p, first, n))
  {
    hide Extend;
    var c := Extend(b, p, first, n);
    var s := Slots(first, n);
    forall q | InRange(q, first, n) ensures q in s {
      assert q == s[q.index - first.index];
    }
    forall q | q in s ensures InRange(q, first, n) {}
    assert forall q :: q in c.order <==> q in b.order || q in s;
    forall i, j | 0 <= i < j < |c.order| ensures c.order[i] != c.order[j] {
      if i < |b.order| && |b.order| <= j {
        assert c.order[i] == b.order[i] && b.order[i] in b.plan;
        assert c.order[j] == s[j - |b.order|] && InRange(c.order[j], first, n);
      }
    }
  }

  /** The allocator: `nodes` is the next free slot of the current page, with `left` slots from there on. */
  ghost predicate MemoryOk(pages: Pages, tails: seq<nat>, nodes: Ptr, left: nat, plan: map<Ptr, Value>) {
    && TailsOk(pages, tails, nodes.page, plan)
    && tails[nodes.page] == nodes.index && nodes.index + left == |pages[nodes.page]|
  }

  /** Slots in use lie in both memories and hold the same nodes in both. */
  ghost predicate Kept(pages: Pages, pages': Pages, plan: map<Ptr, Value>) {
    forall p :: p in plan ==> Allocated(pages, p) && Allocated(pages', p) && At(pages', p) == At(pages, p)
  }

  /** Writing a node moves no boundary. */
  lemma {:induction false} PutMemory(pages: Pages, tails: seq<nat>, nodes: Ptr, left: nat, plan: map<Ptr, Value>,
      p: Ptr, nd: NodeData)
    requires MemoryOk(pages, tails, nodes, left, plan) && p in plan
    ensures Allocated(pages, p) && MemoryOk(Put(pages, p, nd), tails, nodes, left, plan)
  {
  }

  lemma {:induction false} KeptPut(pages: Pages, pages': Pages, plan: map<Ptr, Value>, p: Ptr, nd: NodeData)
    requires Kept(pages, pages', plan) && Allocated(pages', p)
    ensures forall q :: q in plan ==> Allocated(pages, q) && Allocated(Put(pages', p, nd), q)
    ensures forall q :: q in plan && q != p ==> At(Put(pages', p, nd), q) == At(pages, q)
    ensures Allocated(Put(pages', p, nd), p) && At(Put(pages', p, nd), p) == nd
  {
  }

  /** The next `n` slots of the current page. */
  lemma {:induction false} AllocInPage(pages: Pages, tails: seq<nat>, nodes: Ptr, left: nat, b: Book, p: Ptr, n: nat)
    requires MemoryOk(pages, tails, nodes, left, b.plan) && p in b.plan && n <= left
    ensures Unused(b, nodes, n) && Kept(pages, pages, b.plan) && nodes.page < |tails|
    ensures MemoryOk(pages, tails[nodes.page := nodes.index + n], Slot(nodes, n), left - n, Extend(b, p, nodes, n).plan)
  {
    hide Extend;
  }

  /** A separate page that holds the `n` slots and nothing else. */
  lemma {:induction false} AllocSeparate(pages: Pages, tails: seq<nat>, nodes: Ptr, left: nat, b: Book, p: Ptr,
      page: seq<NodeData>)
    requires MemoryOk(pages, tails, nodes, left, b.plan) && p in b.plan
    ensures Unused(b, Ptr(|pages|, 0), |page|) && Kept(pages, pages + [page], b.plan)
    ensures MemoryOk(pages + [page], tails + [|page|], nodes, left, Extend(b, p, Ptr(|pages|, 0), |page|).plan)
  {
    hide Extend;
  }

  /** A new current page; the one left behind is nearly full. */
  lemma {:induction false} AllocNewPage(pages: Pages, tails: seq<nat>, nodes: Ptr, left: nat, b: Book, p: Ptr,
      n: nat, page: seq<NodeData>)
    requires MemoryOk(pages, tails, nodes, left, b.plan) && p in b.plan && n <= |page| && left <= NODES_PER_PAGE / 8
    ensures Unused(b, Ptr(|pages|, 0), n) && Kept(pages, pages + [page], b.plan)
    ensures MemoryOk(pages + [page], tails + [n], Ptr(|pages|, n), |page| - n, Extend(b, p, Ptr(|pages|, 0), n).plan)
  {
    hide Extend;
  }

  lemma {:induction false} CountStep(s: Bytes, goal: Decoded, pos: nat, n: nat, slots: nat)
    requires CountOk(s, goal, pos, n, slots) && n > 0 && HeadAt(s, pos).Head?
    ensures var h := HeadAt(s, pos);
            CountOk(s, goal, h.end, KidCount(h.tag) + n - 1, slots + KidCount(h.tag))
  {
    hide HeadAt, Decode;
    var h := HeadAt(s, pos);
    var c := KidCount(h.tag);
    DecodeStep(s, pos, n);
    var rest := Decode(s, h.end, c + n - 1);
    if rest.Done? {
      var kids, tail := rest.vals[..c], rest.vals[c..];
      assert rest.vals == kids + tail;
      NodeCountConcat(kids, tail);
      NodeCountCons(Node(h.tag, h.data, kids), tail);
    }
  }

  lemma {:induction false} NodeCountCons(v: Value, tail: seq<Value>)
    ensures NodeCount([v] + tail) == 1 + NodeCount(v.kids) + NodeCount(tail)
  {
  }

  /** The queue after a head: its element slots, then the slots that were pending behind it. */
  ghost function NextPend(pend: seq<Ptr>, first: Ptr, n: nat): (r: seq<Ptr>)
    requires pend != []
    ensures |r| == n + |pend| - 1
    ensures forall i :: 0 <= i < n ==> r[i] == Slot(first, i)
    ensures forall i :: n <= i < |r| ==> r[i] == pend[i - n + 1]
  {
    Slots(first, n) + pend[1..]
  }

  lemma {:induction false} NoDupStep(pend: seq<Ptr>, b: Book, first: Ptr, n: nat)
    requires pend != [] && NoDup(pend) && Unused(b, first, n)
    requires forall i :: 0 <= i < |pend| ==> pend[i] in b.plan
    ensures NoDup(NextPend(pend, first, n))
  {
  }

  lemma {:induction false} QueueStep(s: Bytes, goal: Decoded, pos: nat, pend: seq<Ptr>, b: Book, first: Ptr)
    requires QueueOk(s, goal, pos, pend, b.plan) && pend != [] && HeadAt(s, pos).Head?
    requires Unused(b, first, KidCount(HeadAt(s, pos).tag))
    ensures var Head(tag, data, body) := HeadAt(s, pos);
            var n := KidCount(tag);
            && QueueOk(s, goal, body, NextPend(pend, first, n), Extend(b, pend[0], first, n).plan)
            && (goal.Done? ==>
                b.plan[pend[0]].tag == tag && b.plan[pend[0]].data == data && |b.plan[pend[0]].kids| == n)
  {
    hide HeadAt, Decode, Extend, NextPend;
    var Head(tag, data, body) := HeadAt(s, pos);
    var n := KidCount(tag);
    var v := b.plan[pend[0]];
    var c := Extend(b, pend[0], first, n);
    var next := NextPend(pend, first, n);
    DecodeStep(s, pos, |pend|);
    var rest := Decode(s, body, n + |pend| - 1);
    forall i | 0 <= i < |next| ensures next[i] in c.plan {
      if i >= n { assert pend[i - n + 1] in b.plan; }
    }
    if rest.Done? {
      assert v == Node(tag, data, rest.vals[..n]);
      forall i | 0 <= i < |next| ensures c.plan[next[i]] == rest.vals[i] {
        if i < n {
          assert next[i] == Slot(first, i) && v.kids[i] == rest.vals[i];
        } else {
          assert b.plan[pend[i - n + 1]] == ([v] + rest.vals[n..])[i - n + 1] == rest.vals[i];
        }
      }
    }
  }

  /** The node written for the head at `pos`: right tag, contents located where they lie, elements at `first`. */
  ghost predicate Writes(s: Bytes, pos: nat, nd: NodeData, first: Ptr)
    requires pos <= |s|
  {
    && var h := HeadAt(s, pos);
    && h.Head?
    && nd.tag == h.tag
    && (KidCount(h.tag) > 0 ==> nd.children == first)
    && (PayloadLen(h.tag) > 0 ==> nd.offset + PayloadLen(h.tag) == h.end && s[nd.offset..h.end] == h.data)
  }

  lemma {:induction false} WritesTag(s: Bytes, pos: nat, nd: NodeData, first: Ptr)
    requires pos <= |s| && Writes(s, pos, nd, first)
    ensures HeadAt(s, pos).Head? && HeadAt(s, pos).tag == nd.tag
  {
  }

  /** The new slots and those that were pending behind the head are still pending. */
  lemma {:induction false} NextHolds(pend: seq<Ptr>, first: Ptr, n: nat)
    requires pend != []
    ensures forall p :: InRange(p, first, n) ==> p in NextPend(pend, first, n)
    ensures forall p :: p in pend && p != pend[0] ==> p in NextPend(pend, first, n)
  {
    var next := NextPend(pend, first, n);
    forall p | InRange(p, first, n) ensures p in next {
      assert p == next[p.index - first.index];
    }
    forall p | p in pend && p != pend[0] ensures p in next {
      var i :| 0 <= i < |pend| && pend[i] == p;
      assert p == next[n + i - 1];
    }
  }

  lemma {:induction false} WrittenStep(s: Bytes, goal: Decoded, pos: nat, pend: seq<Ptr>, pages: Pages,
      pages': Pages, b: Book, first: Ptr, nd: NodeData)
    requires QueueOk(s, goal, pos, pend, b.plan) && pend != [] && Writes(s, pos, nd, first)
    requires WrittenOk(s, goal, pos, pend, pages, b) && Unused(b, first, KidCount(nd.tag))
    requires forall p :: p in b.plan ==> Allocated(pages, p) && Allocated(pages', p)
    requires forall p :: p in b.plan && p != pend[0] ==> At(pages', p) == At(pages, p)
    requires At(pages', pend[0]) == nd
    ensures var n := KidCount(nd.tag);
            WrittenOk(s, goal, HeadAt(s, pos).end, NextPend(pend, first, n), pages', Extend(b, pend[0], first, n))
  {
    hide HeadAt, Decode, Extend, NextPend;
    var h := HeadAt(s, pos);
    var n := KidCount(h.tag);
    var c := Extend(b, pend[0], first, n);
    var next := NextPend(pend, first, n);
    QueueStep(s, goal, pos, pend, b, first);
    NextHolds(pend, first, n);
    forall p | p in c.plan && p !in next
      ensures Owns(pages', p, c) && (goal.Done? ==> Agrees(s, h.end, pages', p, c))
    {
      if p != pend[0] { KeepsNode(s, goal, pos, h.end, pages, pages', b, c, p); }
    }
  }

  /** Growing the book and moving on leaves a parsed node as it was. */
  lemma {:induction false} KeepsNode(s: Bytes, goal: Decoded, pos: nat, pos': nat, pages: Pages, pages': Pages,
      b: Book, c: Book, p: Ptr)
    requires p in b.plan && Owns(pages, p, b) && (goal.Done? ==> Agrees(s, pos, pages, p, b))
    requires Allocated(pages', p) && At(pages', p) == At(pages, p) && pos <= pos' <= |s|
    requires forall q :: q in b.plan ==> q in c.plan && c.plan[q] == b.plan[q]
    requires forall q :: q in b.plan && q in b.owner ==> q in c.owner && c.owner[q] == b.owner[q]
    ensures p in c.plan && Owns(pages', p, c) && (goal.Done? ==> Agrees(s, pos', pages', p, c))
  {
  }

  /** Once no slot is pending, every slot denotes what was planned for it. */
  lemma {:induction false} PlanDenotes(s: Bytes, goal: Decoded, pos: nat, data: Bytes, pages: Pages, b: Book,
      p: Ptr, v: Value)
    requires WrittenOk(s, goal, pos, [], pages, b) && goal.Done?
    requires pos <= |data| <= |s| && data == s[..|data|]
    requires p in b.plan && b.plan[p] == v
    ensures Denotes(data, pages, p, v)
    decreases v
  {
    assert Owns(pages, p, b) && Agrees(s, pos, pages, p, b);
    var nd := At(pages, p);
    if PayloadLen(v.tag) > 0 {
      assert data[nd.offset..nd.offset + |v.data|] == s[nd.offset..nd.offset + |v.data|];
    }
    forall i | 0 <= i < |v.kids| ensures Denotes(data, pages, Slot(nd.children, i), v.kids[i]) {
      PlanDenotes(s, goal, pos, data, pages, b, Slot(nd.children, i), v.kids[i]);
    }
  }

  /** Every compound owns its elements. */
  ghost predicate Separated(pages: Pages, b: Book) {
    forall p :: p in b.plan ==> Owns(pages, p, b)
  }

  /** Over a whole message, element ranges of different compounds are in bounds and share no slot. */
  lemma {:induction false} RangesDisjoint(pages: Pages, tails: seq<nat>, nodes: Ptr, left: nat, b: Book, p: Ptr,
      q: Ptr, i: nat, j: nat)
    requires Separated(pages, b) && MemoryOk(pages, tails, nodes, left, b.plan)
    requires p in b.plan && q in b.plan && p != q
    requires i < KidCount(At(pages, p).tag) && j < KidCount(At(pages, q).tag)
    ensures var x, y := Slot(At(pages, p).children, i), Slot(At(pages, q).children, j);
            x != y && Allocated(pages, x) && Allocated(pages, y)
  {
  }
}
