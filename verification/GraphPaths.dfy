/**
 The node graph of a parsed message, seen from its root: which nodes a caller can walk to, and how they lie in memory.
 */
module GraphPaths {
  import opened Wire
  import opened Values
  import opened NodeGraph

  /** Indices of elements to descend into, outermost first. */
  type Path = seq<nat>

  datatype Reach = To(p: Ptr) | Nowhere

  /** The node at the end of a path from `p`. */
  ghost function Follow(pages: Pages, p: Ptr, path: Path): Reach
    decreases |path|
  {
    if path == [] then To(p)
    else if Allocated(pages, p) && path[0] < KidCount(At(pages, p).tag) then
      Follow(pages, Slot(At(pages, p).children, path[0]), path[1..])
    else Nowhere
  }

  /** A node of the graph under `root`. */
  ghost predicate Reached(pages: Pages, root: Ptr, p: Ptr) {
    exists path :: Follow(pages, root, path) == To(p)
  }

  /** One element further. */
  ghost function Into(pages: Pages, r: Reach, i: nat): Reach {
    if r.To? && Allocated(pages, r.p) && i < KidCount(At(pages, r.p).tag) then To(Slot(At(pages, r.p).children, i))
    else Nowhere
  }

  lemma {:induction false} FollowSnoc(pages: Pages, p: Ptr, path: Path, i: nat)
    ensures Follow(pages, p, path + [i]) == Into(pages, Follow(pages, p, path), i)
    decreases |path|
  {
    if path == [] {
      assert [] + [i] == [i] && [i][1..] == [];
    } else {
      assert (path + [i])[1..] == path[1..] + [i];
      if Allocated(pages, p) && path[0] < KidCount(At(pages, p).tag) {
        FollowSnoc(pages, Slot(At(pages, p).children, path[0]), path[1..], i);
      }
    }
  }

  /** Every node that can be walked to was handed out for this message. */
  lemma {:induction false} FollowPlanned(pages: Pages, b: Book, p: Ptr, path: Path)
    requires Separated(pages, b) && p in b.plan && Follow(pages, p, path).To?
    ensures Follow(pages, p, path).p in b.plan
    decreases |path|
  {
    if path != [] {
      assert Owns(pages, p, b);
      FollowPlanned(pages, b, Slot(At(pages, p).children, path[0]), path[1..]);
    }
  }

  lemma {:induction false} KidSmaller(v: Value, i: nat)
    requires i < |v.kids|
    ensures NodeCount([v.kids[i]]) < NodeCount([v])
  {
    var kids := v.kids;
    assert kids == kids[..i] + ([kids[i]] + kids[i + 1..]);
    NodeCountConcat(kids[..i], [kids[i]] + kids[i + 1..]);
    NodeCountConcat([kids[i]], kids[i + 1..]);
    NodeCountCons(v, []);
    assert [v] + [] == [v];
  }

  /** What a path leads to denotes a smaller object, unless it is the node itself. */
  lemma {:induction false} FollowDenotes(data: Bytes, pages: Pages, p: Ptr, v: Value, path: Path) returns (w: Value)
    requires Denotes(data, pages, p, v) && Follow(pages, p, path).To?
    ensures Denotes(data, pages, Follow(pages, p, path).p, w)
    ensures if path == [] then w == v else NodeCount([w]) < NodeCount([v])
    decreases |path|
  {
    hide NodeCount;
    if path == [] {
      w := v;
    } else {
      w := FollowDenotes(data, pages, Slot(At(pages, p).children, path[0]), v.kids[path[0]], path[1..]);
      KidSmaller(v, path[0]);
    }
  }

  /** The graph is a tree: different paths lead to different nodes. */
  lemma {:induction false} PathsApart(data: Bytes, pages: Pages, b: Book, root: Ptr, v: Value, a: Path, c: Path)
    requires Separated(pages, b) && root in b.plan && Denotes(data, pages, root, v)
    requires Follow(pages, root, a).To? && Follow(pages, root, a) == Follow(pages, root, c)
    ensures a == c
    decreases |a| + |c|
  {
    hide Follow, Denotes, NodeCount;
    if a == [] || c == [] {
      Circular(data, pages, root, v, a, c);
    } else {
      var m, n := |a| - 1, |c| - 1;
      assert a == a[..m] + [a[m]] && c == c[..n] + [c[n]];
      FollowSnoc(pages, root, a[..m], a[m]);
      FollowSnoc(pages, root, c[..n], c[n]);
      FollowPlanned(pages, b, root, a[..m]);
      FollowPlanned(pages, b, root, c[..n]);
      var p, q := Follow(pages, root, a[..m]).p, Follow(pages, root, c[..n]).p;
      assert Owns(pages, p, b) && Owns(pages, q, b);
      PathsApart(data, pages, b, root, v, a[..m], c[..n]);
    }
  }

  /** No path leads back to the root. */
  lemma {:induction false} Circular(data: Bytes, pages: Pages, root: Ptr, v: Value, a: Path, c: Path)
    requires Denotes(data, pages, root, v) && (a == [] || c == [])
    requires Follow(pages, root, a).To? && Follow(pages, root, a) == Follow(pages, root, c)
    ensures a == c
  {
    hide Denotes, NodeCount;
    var w := FollowDenotes(data, pages, root, v, a);
    var u := FollowDenotes(data, pages, root, v, c);
    DenotesUnique(data, pages, Follow(pages, root, a).p, w, u);
  }

  // ----- all the paths of an object

  ghost function Under(i: nat, paths: seq<Path>): (r: seq<Path>)
    ensures |r| == |paths| && forall k :: 0 <= k < |r| ==> r[k] == [i] + paths[k]
  {
    seq(|paths|, k requires 0 <= k < |paths| => [i] + paths[k])
  }

  /** The paths to an object and everything in it, outermost first. */
  ghost function Paths(v: Value): seq<Path>
    decreases v
  {
    [[]] + KidPaths(v.kids, |v.kids|)
  }

  ghost function KidPaths(kids: seq<Value>, n: nat): seq<Path>
    requires n <= |kids|
    decreases kids, n
  {
    if n == 0 then [] else KidPaths(kids, n - 1) + Under(n - 1, Paths(kids[n - 1]))
  }

  lemma {:induction false} CountPaths(v: Value)
    ensures |Paths(v)| == NodeCount([v])
    decreases v
  {
    CountKidPaths(v.kids, |v.kids|);
    assert v.kids[..|v.kids|] == v.kids && [v] + [] == [v];
    NodeCountCons(v, []);
  }

  lemma {:induction false} CountKidPaths(kids: seq<Value>, n: nat)
    requires n <= |kids|
    ensures |KidPaths(kids, n)| == NodeCount(kids[..n])
    decreases kids, n
  {
    if n > 0 {
      CountKidPaths(kids, n - 1);
      CountPaths(kids[n - 1]);
      assert kids[..n] == kids[..n - 1] + [kids[n - 1]];
      NodeCountConcat(kids[..n - 1], [kids[n - 1]]);
    }
  }

  lemma {:induction false} InUnder(i: nat, paths: seq<Path>, path: Path)
    ensures path in Under(i, paths) <==> path != [] && path[0] == i && path[1..] in paths
  {
    var r := Under(i, paths);
    if path in r {
      var k :| 0 <= k < |r| && r[k] == path;
      assert ([i] + paths[k])[1..] == paths[k];
    }
    if path != [] && path[0] == i && path[1..] in paths {
      var k :| 0 <= k < |paths| && paths[k] == path[1..];
      assert r[k] == [i] + path[1..] == path;
    }
  }

  lemma {:induction false} InKidPaths(kids: seq<Value>, n: nat, path: Path)
    requires n <= |kids|
    ensures path in KidPaths(kids, n) <==> path != [] && path[0] < n && path[1..] in Paths(kids[path[0]])
    decreases n
  {
    hide Paths, Under;
    if n > 0 {
      InKidPaths(kids, n - 1, path);
      InUnder(n - 1, Paths(kids[n - 1]), path);
    }
  }

  lemma {:induction false} PathsDistinct(v: Value)
    ensures NoDup(Paths(v))
    decreases v
  {
    KidPathsDistinct(v.kids, |v.kids|);
    var ps := KidPaths(v.kids, |v.kids|);
    forall k | 0 <= k < |ps| ensures ps[k] != [] { InKidPaths(v.kids, |v.kids|, ps[k]); }
  }

  lemma {:induction false} KidPathsDistinct(kids: seq<Value>, n: nat)
    requires n <= |kids|
    ensures NoDup(KidPaths(kids, n))
    decreases kids, n
  {
    if n > 0 {
      hide Paths;
      KidPathsDistinct(kids, n - 1);
      PathsDistinct(kids[n - 1]);
      var x, y := KidPaths(kids, n - 1), Under(n - 1, Paths(kids[n - 1]));
      forall k | 0 <= k < |x| ensures x[k] != [] && x[k][0] < n - 1 { InKidPaths(kids, n - 1, x[k]); }
      forall i, j | 0 <= i < j < |y| ensures y[i] != y[j] {
        assert y[i][1..] == Paths(kids[n - 1])[i] && y[j][1..] == Paths(kids[n - 1])[j];
      }
      assert forall k :: 0 <= k < |y| ==> y[k][0] == n - 1;
    }
  }

  /** The paths of the object are exactly those that lead somewhere in its graph. */
  lemma {:induction false} PathsLead(data: Bytes, pages: Pages, p: Ptr, v: Value, path: Path)
    requires Denotes(data, pages, p, v)
    ensures path in Paths(v) <==> Follow(pages, p, path).To?
    decreases |path|
  {
    if path == [] {
      assert Paths(v)[0] == [];
    } else {
      InKidPaths(v.kids, |v.kids|, path);
      assert path in Paths(v) <==> path in KidPaths(v.kids, |v.kids|);
      if path[0] < |v.kids| {
        PathsLead(data, pages, Slot(At(pages, p).children, path[0]), v.kids[path[0]], path[1..]);
      }
    }
  }

  // ----- counting

  lemma {:induction false} NoDupSize<T>(s: seq<T>)
    requires NoDup(s)
    ensures |(set x | x in s)| == |s|
    decreases |s|
  {
    if s != [] {
      var n := |s| - 1;
      var t := s[..n];
      NoDupSize(t);
      assert s == t + [s[n]];
      assert s[n] !in t;
      assert (set x | x in s) == (set x | x in t) + {s[n]};
    }
  }

  /** Two lists without repetition, of one length, one within the other: the same elements. */
  lemma {:induction false} Exhausted<T>(a: seq<T>, b: seq<T>)
    requires NoDup(a) && NoDup(b) && |a| == |b| && forall x :: x in a ==> x in b
    ensures forall x :: x in b ==> x in a
  {
    NoDupSize(a);
    NoDupSize(b);
    var x, y := (set e | e in a), (set e | e in b);
    assert x <= y && |y - x| == |y| - |x|;
    assert y - x == {};
    forall e | e in b ensures e in a { assert e in y; }
  }

  /** The slots handed out for a message are exactly the nodes of its graph. */
  lemma {:induction false} Inhabited(data: Bytes, pages: Pages, b: Book, root: Ptr, v: Value)
    requires Separated(pages, b) && OrderOk(b) && root in b.plan && Denotes(data, pages, root, v)
    requires |b.order| == NodeCount([v])
    ensures forall q :: q in b.plan <==> Reached(pages, root, q)
  {
    hide Follow, Denotes, NodeCount, Paths, Separated;
    var ps := Paths(v);
    CountPaths(v);
    PathsDistinct(v);
    forall k | 0 <= k < |ps| ensures Follow(pages, root, ps[k]).To? { PathsLead(data, pages, root, v, ps[k]); }
    var nodes := seq(|ps|, k requires 0 <= k < |ps| => Follow(pages, root, ps[k]).p);
    forall k | 0 <= k < |ps| ensures nodes[k] in b.plan { FollowPlanned(pages, b, root, ps[k]); }
    forall i, j | 0 <= i < j < |nodes| ensures nodes[i] != nodes[j] {
      if nodes[i] == nodes[j] { PathsApart(data, pages, b, root, v, ps[i], ps[j]); }
    }
    Exhausted(nodes, b.order);
    forall q ensures q in b.plan <==> Reached(pages, root, q) {
      if Reached(pages, root, q) {
        var path :| Follow(pages, root, path) == To(q);
        FollowPlanned(pages, b, root, path);
      }
      if q in b.plan {
        var k :| 0 <= k < |nodes| && nodes[k] == q;
        assert Follow(pages, root, ps[k]) == To(q);
      }
    }
  }

  /** Element ranges of any two nodes of the graph lie in allocated pages and share no slot. */
  lemma {:induction false} RangesApart(data: Bytes, pages: Pages, tails: seq<nat>, nodes: Ptr, left: nat, b: Book,
                                       root: Ptr, v: Value, a: Path, c: Path, i: nat, j: nat)
    requires Separated(pages, b) && MemoryOk(pages, tails, nodes, left, b.plan)
    requires root in b.plan && Denotes(data, pages, root, v) && a != c
    requires Into(pages, Follow(pages, root, a), i).To? && Into(pages, Follow(pages, root, c), j).To?
    ensures var x, y := Into(pages, Follow(pages, root, a), i).p, Into(pages, Follow(pages, root, c), j).p;
            x != y && Allocated(pages, x) && Allocated(pages, y)
  {
    hide Follow, Denotes;
    FollowPlanned(pages, b, root, a);
    FollowPlanned(pages, b, root, c);
    var p, q := Follow(pages, root, a).p, Follow(pages, root, c).p;
    if p == q { PathsApart(data, pages, b, root, v, a, c); }
    RangesDisjoint(pages, tails, nodes, left, b, p, q, i, j);
  }
}
