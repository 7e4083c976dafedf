/**
 Library search paths: a string of directories separated by colons, its canonical form, and the
 argz vector of its directories.
 */
module SearchPath {
  import opened Wire
  import opened Argz

  const COLON: Byte := 0x3a
  const SLASH: Byte := 0x2f

  // ----- components

  /** Length of the leading run of bytes other than colons. */
  function Span(p: Bytes): (n: nat)
    ensures n <= |p| && COLON !in p[..n] && (n < |p| ==> p[n] == COLON)
  {
    if p == [] || p[0] == COLON then 0
    else
      var n := Span(p[1..]);
      assert p[..n + 1] == [p[0]] + p[1..][..n];
      n + 1
  }

  /** The non-empty components of a path, in order. */
  ghost function Components(p: Bytes): seq<Bytes>
    decreases |p|
  {
    if p == [] then []
    else if p[0] == COLON then Components(p[1..])
    else [p[..Span(p)]] + Components(p[Span(p)..])
  }

  /** A directory without repeated or trailing slashes. */
  function Strip(c: Bytes): Bytes {
    if c == [] then []
    else if c[0] == SLASH && (|c| == 1 || c[1] == SLASH) then Strip(c[1..])
    else [c[0]] + Strip(c[1..])
  }

  ghost predicate Clean(c: Bytes) {
    forall i :: 0 <= i < |c| && c[i] == SLASH ==> i + 1 < |c| && c[i + 1] != SLASH
  }

  ghost predicate AllSlashes(c: Bytes) { forall i :: 0 <= i < |c| ==> c[i] == SLASH }

  /** Stripping leaves a clean directory, changes no clean one, and loses everything only to slashes. */
  lemma {:induction false} StripClean(c: Bytes)
    ensures Clean(Strip(c))
    ensures Clean(c) ==> Strip(c) == c
    ensures Strip(c) == [] <==> AllSlashes(c)
    ensures COLON !in c ==> COLON !in Strip(c)
    ensures c != [] && Strip(c) != [] && c[0] != SLASH ==> Strip(c)[0] == c[0]
    decreases |c|
  {
    if c != [] {
      StripClean(c[1..]);
      assert c == [c[0]] + c[1..];
      var r := Strip(c[1..]);
      if Clean(c) {
        assert forall i :: 0 <= i < |c[1..]| ==> c[1..][i] == c[i + 1];
        assert Clean(c[1..]);
      }
      if !(c[0] == SLASH && (|c| == 1 || c[1] == SLASH)) {
        var s := [c[0]] + r;
        forall i | 0 <= i < |s| && s[i] == SLASH ensures i + 1 < |s| && s[i + 1] != SLASH {
          if i == 0 {
            assert c[1..][0] != SLASH && r != [];
          } else {
            assert r[i - 1] == SLASH;
          }
        }
      }
    }
  }

  ghost function StripAll(cs: seq<Bytes>): (r: seq<Bytes>)
    ensures |r| == |cs| && forall k :: 0 <= k < |cs| ==> r[k] == Strip(cs[k])
  {
    seq(|cs|, k requires 0 <= k < |cs| => Strip(cs[k]))
  }

  /** Strings joined by colons. */
  ghost function Join(es: seq<Bytes>): Bytes {
    if es == [] then [] else es[0] + JoinTail(es[1..])
  }

  ghost function JoinTail(es: seq<Bytes>): Bytes {
    if es == [] then [] else [COLON] + es[0] + JoinTail(es[1..])
  }

  /** The components from the first one that is not made of slashes only. */
  ghost function FromReal(cs: seq<Bytes>): seq<Bytes> {
    if cs == [] || Strip(cs[0]) != [] then cs else FromReal(cs[1..])
  }

  /** The canonical form of a path, for every path. */
  ghost function Canonical(p: Bytes): Bytes {
    Join(StripAll(FromReal(Components(p))))
  }

  // ----- the canonicalizing loop

  /** What the loop still emits for the rest of a path, given whether it has emitted anything. */
  ghost function Emit(p: Bytes, started: bool): Bytes {
    if p == [] then []
    else
      var last := |p| == 1;
      if p[0] == COLON && (!started || last || p[1] == COLON) then Emit(p[1..], started)
      else if p[0] != SLASH then [p[0]] + Emit(p[1..], true)
      else if !last && p[1] != COLON && p[1] != SLASH then [SLASH] + Emit(p[1..], true)
      else Emit(p[1..], started)
  }

  /** A byte of a component is dropped if it is a slash before another slash or at the end of the component. */
  lemma {:induction false} EmitByte(p: Bytes, started: bool)
    requires p != [] && p[0] != COLON
    ensures var n := Span(p);
            var dropped := p[0] == SLASH && (n == 1 || p[1] == SLASH);
            && n == Span(p[1..]) + 1
            && Emit(p, started) == (if dropped then Emit(p[1..], started) else [p[0]] + Emit(p[1..], true))
            && Strip(p[..n]) == (if dropped then [] else [p[0]]) + Strip(p[1..][..n - 1])
  {
    var n, c := Span(p), p[..Span(p)];
    assert c[0] == p[0] && c[1..] == p[1..][..n - 1];
    assert n > 1 ==> c[1] == p[1];
  }

  lemma {:induction false} NoComponent(p: Bytes, started: bool)
    requires p == [] || p[0] == COLON
    ensures Span(p) == 0 && Strip(p[..0]) == [] && p[0..] == p
  {
    assert p[..0] == [] && p[0..] == p;
  }

  lemma {:induction false} EmitComponent(p: Bytes, started: bool)
    ensures var c := Strip(p[..Span(p)]);
            Emit(p, started) == c + Emit(p[Span(p)..], started || c != [])
    decreases |p|
  {
    hide Emit, Strip, Span;
    if p == [] || p[0] == COLON {
      NoComponent(p, started);
    } else {
      EmitByte(p, started);
      var n, tail := Span(p), p[1..];
      var c, rest := Strip(tail[..n - 1]), p[n..];
      assert tail[n - 1..] == rest;
      assert tail[..Span(tail)] == tail[..n - 1] && tail[Span(tail)..] == rest;
      if p[0] == SLASH && (n == 1 || p[1] == SLASH) {
        EmitComponent(tail, started);
        Dropped(Strip(p[..n]), c);
      } else {
        EmitComponent(tail, true);
        Prefixed([p[0]], c, Emit(rest, true));
      }
    }
  }

  lemma {:induction false} Dropped(x: Bytes, y: Bytes)
    requires x == [] + y
    ensures x == y
  {
  }

  lemma {:induction false} Prefixed(x: Bytes, y: Bytes, z: Bytes)
    ensures x + (y + z) == (x + y) + z && [] + y == y && (x != [] ==> x + y != [])
  {
  }

  lemma {:induction false} EmitComponents(p: Bytes)
    ensures p == [] || p[0] == COLON ==> Emit(p, true) == JoinTail(StripAll(Components(p)))
    ensures p != [] && p[0] != COLON ==> Emit(p, true) == Join(StripAll(Components(p)))
    decreases |p|
  {
    if p != [] {
      if p[0] == COLON {
        EmitComponents(p[1..]);
        if |p| > 1 && p[1] != COLON {
          var cs := Components(p[1..]);
          assert StripAll(cs)[1..] == StripAll(cs[1..]);
        }
      } else {
        var n := Span(p);
        EmitComponent(p, true);
        EmitComponents(p[n..]);
        StripAllCons(p[..n], Components(p[n..]));
      }
    }
  }

  lemma {:induction false} StripAllCons(c: Bytes, cs: seq<Bytes>)
    ensures StripAll([c] + cs) == [Strip(c)] + StripAll(cs)
    ensures Join(StripAll([c] + cs)) == Strip(c) + JoinTail(StripAll(cs))
  {
  }

  /** The loop computes the canonical form. */
  lemma {:induction false} EmitCanonical(p: Bytes)
    ensures Emit(p, false) == Canonical(p)
    decreases |p|
  {
    if p == [] {
    } else if p[0] == COLON {
      EmitCanonical(p[1..]);
    } else {
      var n := Span(p);
      var cs := Components(p[n..]);
      assert Components(p) == [p[..n]] + cs && ([p[..n]] + cs)[1..] == cs;
      EmitComponent(p, false);
      if Strip(p[..n]) == [] {
        EmitCanonical(p[n..]);
      } else {
        EmitComponents(p[n..]);
        StripAllCons(p[..n], cs);
      }
    }
  }

  lemma {:induction false} NothingEmitted()
    ensures Emit([], true) == Emit([], false) == []
  {
  }

  /** What the loop emits for one byte, looking at the next. */
  lemma {:induction false} EmitStep(path: Bytes, src: nat, done: Bytes, started: bool)
    requires src < |path|
    ensures var last := src + 1 == |path|;
            if path[src] == COLON && (!started || last || path[src + 1] == COLON) then
              Emit(path[src..], started) == Emit(path[src + 1..], started)
            else if path[src] != SLASH || (!last && path[src + 1] != COLON && path[src + 1] != SLASH) then
              done + Emit(path[src..], started) == (done + [path[src]]) + Emit(path[src + 1..], true)
            else Emit(path[src..], started) == Emit(path[src + 1..], started)
  {
    var rest := path[src..];
    assert rest[1..] == path[src + 1..];
    assert |rest| > 1 ==> rest[1] == path[src + 1];
  }

  /** `canonicalize_path`: separators and slashes are dropped by looking one byte ahead. */
  method Canonicalize(path: Bytes) returns (canonical: Bytes)
    ensures canonical == Canonical(path)
  {
    hide Emit, Canonical;
    var out := new Byte[1 + |path|](_ => 0);
    var dest := 0;
    assert path[0..] == path;
    for src := 0 to |path|
      invariant dest <= src
      invariant Emit(path, false) == out[..dest] + Emit(path[src..], dest > 0)
    {
      ghost var done := out[..dest];
      EmitStep(path, src, done, dest > 0);
      var last := src + 1 == |path|;
      if path[src] == COLON && (dest == 0 || last || path[src + 1] == COLON) {
        continue;
      }
      if path[src] != SLASH || (!last && path[src + 1] != COLON && path[src + 1] != SLASH) {
        out[dest] := path[src];
        dest := dest + 1;
        assert out[..dest] == done + [path[src]];
      }
    }
    assert path[|path|..] == [];
    NothingEmitted();
    EmitCanonical(path);
    return out[..dest];
  }

  // ----- canonical paths are canonical, exactly when

  ghost function NonEmpty(es: seq<Bytes>): seq<Bytes> {
    if es == [] then []
    else if es[0] == [] then NonEmpty(es[1..])
    else [es[0]] + NonEmpty(es[1..])
  }

  ghost predicate ColonFree(es: seq<Bytes>) {
    forall k :: 0 <= k < |es| ==> COLON !in es[k]
  }

  lemma {:induction false} SpanConcat(e: Bytes, q: Bytes)
    requires COLON !in e && (q == [] || q[0] == COLON)
    ensures Span(e + q) == |e|
    decreases |e|
  {
    if e == [] {
      assert e + q == q;
    } else {
      assert (e + q)[1..] == e[1..] + q;
      SpanConcat(e[1..], q);
    }
  }

  lemma {:induction false} ComponentsConcat(e: Bytes, q: Bytes)
    requires COLON !in e && (q == [] || q[0] == COLON)
    ensures Components(e + q) == (if e == [] then [] else [e]) + Components(q)
  {
    SpanConcat(e, q);
    if e == [] {
      assert e + q == q;
    } else {
      assert (e + q)[..|e|] == e && (e + q)[|e|..] == q;
    }
  }

  lemma {:induction false} ComponentsColon(q: Bytes)
    ensures Components([COLON] + q) == Components(q)
  {
  }

  /** Splitting what was joined gives back the non-empty strings. */
  lemma {:induction false} ComponentsJoin(es: seq<Bytes>)
    requires ColonFree(es)
    ensures Components(JoinTail(es)) == NonEmpty(es)
    ensures Components(Join(es)) == NonEmpty(es)
    decreases |es|
  {
    if es != [] {
      hide Components;
      var q := es[0] + JoinTail(es[1..]);
      ComponentsJoin(es[1..]);
      ComponentsConcat(es[0], JoinTail(es[1..]));
      ComponentsColon(q);
      assert JoinTail(es) == [COLON] + q;
    }
  }

  lemma {:induction false} JoinLength(es: seq<Bytes>)
    ensures |NonEmpty(es)| <= |es| && (|NonEmpty(es)| == |es| <==> [] !in es)
    ensures |JoinTail(es)| == |JoinTail(NonEmpty(es))| + |es| - |NonEmpty(es)|
    ensures [] !in es ==> NonEmpty(es) == es
    decreases |es|
  {
    if es != [] {
      JoinLength(es[1..]);
      assert es == [es[0]] + es[1..];
      if es[0] != [] {
        assert ([es[0]] + NonEmpty(es[1..]))[1..] == NonEmpty(es[1..]);
      }
    }
  }

  ghost predicate AllClean(es: seq<Bytes>) {
    forall k :: 0 <= k < |es| ==> Clean(es[k])
  }

  lemma {:induction false} NonEmptyClean(es: seq<Bytes>)
    requires AllClean(es)
    ensures AllClean(NonEmpty(es)) && [] !in NonEmpty(es)
    decreases |es|
  {
    if es != [] { NonEmptyClean(es[1..]); }
  }

  lemma {:induction false} ComponentsColonFree(p: Bytes)
    ensures ColonFree(Components(p)) && [] !in Components(p)
    decreases |p|
  {
    if p != [] {
      if p[0] == COLON {
        ComponentsColonFree(p[1..]);
      } else {
        ComponentsColonFree(p[Span(p)..]);
      }
    }
  }

  lemma {:induction false} FromRealSuffix(cs: seq<Bytes>) returns (k: nat)
    ensures k <= |cs| && FromReal(cs) == cs[k..]
    ensures k < |cs| ==> Strip(cs[k]) != []
    ensures forall i :: 0 <= i < k ==> Strip(cs[i]) == []
    decreases |cs|
  {
    if cs == [] || Strip(cs[0]) != [] {
      k := 0;
      assert cs[0..] == cs;
    } else {
      k := FromRealSuffix(cs[1..]);
      assert cs[1..][k..] == cs[k + 1..];
      forall i | 0 <= i < k + 1 ensures Strip(cs[i]) == [] {
        if i > 0 { assert cs[i] == cs[1..][i - 1]; }
      }
      k := k + 1;
    }
  }

  /** The strings that a canonical path consists of. */
  ghost function Parts(p: Bytes): seq<Bytes> {
    StripAll(FromReal(Components(p)))
  }

  lemma {:induction false} PartsOk(p: Bytes)
    ensures ColonFree(Parts(p)) && AllClean(Parts(p)) && (Parts(p) != [] ==> Parts(p)[0] != [])
  {
    var cs := Components(p);
    ComponentsColonFree(p);
    var k := FromRealSuffix(cs);
    forall i | 0 <= i < |Parts(p)| ensures COLON !in Parts(p)[i] && Clean(Parts(p)[i]) {
      assert Parts(p)[i] == Strip(cs[k + i]);
      StripClean(cs[k + i]);
    }
  }

  /** No component made only of slashes comes after one that is not. */
  ghost predicate Tidy(p: Bytes) {
    var cs := Components(p);
    forall i, j :: 0 <= i < j < |cs| && AllSlashes(cs[j]) ==> AllSlashes(cs[i])
  }

  lemma {:induction false} TidyParts(p: Bytes)
    ensures Tidy(p) <==> [] !in Parts(p)
  {
    var cs := Components(p);
    var k := FromRealSuffix(cs);
    forall i | 0 <= i < |cs| ensures AllSlashes(cs[i]) <==> Strip(cs[i]) == [] { StripClean(cs[i]); }
    assert forall i :: 0 <= i < |Parts(p)| ==> Parts(p)[i] == Strip(cs[k + i]);
    if [] in Parts(p) {
      var i :| 0 <= i < |Parts(p)| && Parts(p)[i] == [];
      assert AllSlashes(cs[k + i]) && !AllSlashes(cs[k]) && i > 0;
    } else {
      forall j | k <= j < |cs| ensures Strip(cs[j]) in Parts(p) { assert Parts(p)[j - k] == Strip(cs[j]); }
    }
  }

  /** Canonicalizing again keeps the non-empty strings only. */
  lemma {:induction false} CanonicalTwice(p: Bytes)
    ensures Canonical(Canonical(p)) == Join(NonEmpty(Parts(p)))
  {
    var es := NonEmpty(Parts(p));
    PartsOk(p);
    ComponentsJoin(Parts(p));
    NonEmptyClean(Parts(p));
    forall k | 0 <= k < |es| ensures Strip(es[k]) == es[k] { StripClean(es[k]); }
    assert FromReal(es) == es && StripAll(es) == es;
  }

  /** `canonicalize_path` is idempotent on a path exactly when it is tidy. */
  lemma {:induction false} CanonicalIdempotent(p: Bytes)
    ensures Canonical(Canonical(p)) == Canonical(p) <==> Tidy(p)
  {
    var es := Parts(p);
    CanonicalTwice(p);
    TidyParts(p);
    PartsOk(p);
    JoinLength(es);
    if es != [] {
      JoinLength(es[1..]);
      assert es == [es[0]] + es[1..];
      assert NonEmpty(es)[1..] == NonEmpty(es[1..]);
    }
  }

  /** A path that is not tidy: canonicalizing `a:/:b` leaves a double separator, which a second pass removes. */
  lemma {:induction false} UntidyPath()
    ensures var p: Bytes := [0x61, 0x3a, 0x2f, 0x3a, 0x62];
            !Tidy(p) && Canonical(p) == [0x61, 0x3a, 0x3a, 0x62] && Canonical(Canonical(p)) != Canonical(p)
  {
    var p: Bytes := [0x61, COLON, SLASH, COLON, 0x62];
    EmitCanonical(p);
    assert p[1..] == [COLON, SLASH, COLON, 0x62] && p[1..][1..] == [SLASH, COLON, 0x62];
    assert p[1..][1..][1..] == [COLON, 0x62] && p[1..][1..][1..][1..] == [0x62];
    assert Emit([0x62], true) == [0x62];
    assert Emit([COLON, 0x62], true) == [COLON, 0x62];
    assert Emit([SLASH, COLON, 0x62], true) == [COLON, 0x62];
    var q: Bytes := [0x61, COLON, COLON, 0x62];
    assert Canonical(p) == q;
    EmitCanonical(q);
    assert q[1..] == [COLON, COLON, 0x62] && q[1..][1..] == [COLON, 0x62];
    assert Emit(q[1..], true) == [COLON, 0x62];
    CanonicalIdempotent(p);
  }

  // ----- the argz vector of a path

  /** The strings of the vector made from a path: its components, and an empty one after a final separator. */
  ghost function EntriesOf(p: Bytes): seq<Bytes> {
    Components(p) + (if p == [] || p[|p| - 1] == COLON then [[]] else [])
  }

  /** What the splitting loop still emits, given whether it is inside a component. */
  ghost function Cells(p: Bytes, inside: bool): Bytes {
    if p == [] then [0]
    else if p[0] == COLON then (if inside then [0] else []) + Cells(p[1..], false)
    else [p[0]] + Cells(p[1..], true)
  }

  lemma {:induction false} CellsComponent(p: Bytes, inside: bool)
    ensures Cells(p, inside) == p[..Span(p)] + Cells(p[Span(p)..], inside || Span(p) > 0)
    decreases |p|
  {
    if p == [] || p[0] == COLON {
      assert p[..0] == [] && p[0..] == p;
    } else {
      var n := Span(p);
      CellsComponent(p[1..], true);
      assert p[1..][n - 1..] == p[n..] && p[..n] == [p[0]] + p[1..][..n - 1];
    }
  }

  lemma {:induction false} ComponentsStep(p: Bytes)
    requires p != []
    ensures p[0] == COLON ==> Components(p) == Components(p[1..])
    ensures p[0] != COLON && Span(p) == |p| ==> Components(p) == [p]
    ensures p[0] != COLON && Span(p) < |p| ==> Components(p) == [p[..Span(p)]] + Components(p[Span(p) + 1..])
  {
    var n := Span(p);
    if p[0] != COLON && n == |p| {
      assert p[n..] == [] && p[..n] == p;
    } else if p[0] != COLON {
      assert p[n..][0] == COLON && p[n..][1..] == p[n + 1..];
    }
  }

  lemma {:induction false} EntriesStep(p: Bytes)
    requires p != []
    ensures p[0] == COLON ==> EntriesOf(p) == EntriesOf(p[1..])
    ensures p[0] != COLON && Span(p) == |p| ==> EntriesOf(p) == [p]
    ensures p[0] != COLON && Span(p) < |p| ==> EntriesOf(p) == [p[..Span(p)]] + EntriesOf(p[Span(p) + 1..])
  {
    hide Components, Span;
    ComponentsStep(p);
    var n := Span(p);
    if p[0] == COLON {
      if |p| > 1 { assert p[1..][|p| - 2] == p[|p| - 1]; }
    } else if n == |p| {
      assert p[..n] == p && p[|p| - 1] in p;
    } else if n + 1 < |p| {
      assert p[n + 1..][|p| - n - 2] == p[|p| - 1];
    }
  }

  /** The splitting loop lays out the block of the entries. */
  lemma {:induction false} CellsBlock(p: Bytes)
    ensures Cells(p, false) == Block(EntriesOf(p))
    decreases |p|
  {
    if p == [] {
      assert EntriesOf(p) == [[]] && Block([[]]) == [] + [0] + Block([]);
    } else {
      hide EntriesOf, Block;
      EntriesStep(p);
      if p[0] == COLON {
        CellsBlock(p[1..]);
      } else {
        var n := Span(p);
        CellsComponent(p, false);
        EmptyVector();
        if n == |p| {
          BlockCons(p, []);
          assert [p] + [] == [p] && p[..n] == p;
        } else {
          var q := p[n..];
          assert q[0] == COLON && q[1..] == p[n + 1..];
          CellsBlock(q[1..]);
          BlockCons(p[..n], EntriesOf(q[1..]));
        }
      }
    }
  }

  lemma {:induction false} CellsStep(path: Bytes, p: nat, done: Bytes)
    requires p < |path|
    ensures path[p] == COLON ==> done + Cells(path[p..], true) == (done + [0]) + Cells(path[p + 1..], false)
    ensures path[p] == COLON ==> Cells(path[p..], false) == Cells(path[p + 1..], false)
    ensures path[p] != COLON
        ==> forall open :: done + Cells(path[p..], open) == (done + [path[p]]) + Cells(path[p + 1..], true)
  {
  }

  lemma {:induction false} NoCells()
    ensures forall open :: Cells([], open) == [0]
  {
  }

  /** `argz_create_sep`: a copy of the path with each run of separators turned into one NUL. */
  method CreateSep(path: Bytes) returns (block: Bytes)
    requires NulFree(path)
    ensures block == Block(EntriesOf(path))
  {
    hide Cells, Block, EntriesOf;
    var argzLen := 1 + |path|;
    var out := new Byte[argzLen](_ => 0);
    var q := 0;
    assert path[0..] == path;
    for p := 0 to |path|
      invariant q <= p && argzLen == q + 1 + (|path| - p)
      invariant Cells(path, false) == out[..q] + Cells(path[p..], q > 0 && out[q - 1] != 0)
    {
      ghost var done := out[..q];
      CellsStep(path, p, done);
      if path[p] == COLON {
        if q > 0 && out[q - 1] != 0 {
          out[q] := 0;
          q := q + 1;
          assert out[..q] == done + [0];
        } else {
          argzLen := argzLen - 1;
        }
      } else {
        assert path[p] in path;
        out[q] := path[p];
        q := q + 1;
        assert out[..q] == done + [path[p]];
      }
    }
    out[q] := 0;
    assert path[|path|..] == [] && out[..argzLen] == out[..q] + [0];
    NoCells();
    CellsBlock(path);
    return out[..argzLen];
  }

  /** Lists a vector by stepping through it. */
  method List(v: Vector) returns (list: seq<Bytes>)
    requires v.Valid()
    ensures list == v.entries
  {
    hide Block, Offset, StrLen;
    list := [];
    var at := v.Next(Null, 0);
    while at.At?
      invariant |list| <= |v.entries| && list == v.entries[..|list|] && at == CursorTo(v.entries, |list|)
      decreases |v.entries| - |list|
    {
      EntryAt(v.entries, |list|);
      var tail := v.argz[..][at.offset..];
      at := v.Next(at, |list|);
      list := list + [tail[..StrLen(tail)]];
    }
  }

  /** The vector of a path. */
  method Argzize(path: Bytes) returns (v: Vector)
    requires NulFree(path)
    ensures fresh(v) && fresh(v.argz) && v.Valid() && v.entries == EntriesOf(path)
  {
    var block := CreateSep(path);
    v := new Vector();
    v.AppendBlock(block);
    v.entries := EntriesOf(path);
    EntriesNulFree(path);
  }

  lemma {:induction false} ComponentsNulFree(p: Bytes)
    requires NulFree(p)
    ensures AllNulFree(Components(p))
    decreases |p|
  {
    if p != [] {
      if p[0] == COLON {
        ComponentsNulFree(p[1..]);
      } else {
        ComponentsNulFree(p[Span(p)..]);
      }
    }
  }

  lemma {:induction false} EntriesNulFree(p: Bytes)
    requires NulFree(p)
    ensures AllNulFree(EntriesOf(p))
  {
    ComponentsNulFree(p);
  }

  // ----- and back

  /** A block with its inner terminators, other than at offset 0, overwritten. */
  ghost function Rejoined(b: Bytes, from: nat): (r: Bytes)
    ensures |r| == |b|
  {
    seq(|b|, i requires 0 <= i < |b| => if from < i < |b| - 1 && b[i] == 0 then COLON else b[i])
  }

  lemma {:induction false} JoinBlock(es: seq<Bytes>)
    requires es != [] && AllNulFree(es)
    ensures |Block(es)| == |Join(es)| + 1
    ensures forall i :: 0 <= i < |Join(es)| ==> Join(es)[i] == if Block(es)[i] == 0 then COLON else Block(es)[i]
    ensures Block(es)[|Join(es)|] == 0
    decreases |es|
  {
    var e, rest := es[0], es[1..];
    if rest == [] {
      assert Join(es) == e + [] && Block(es) == e + [0] + [];
    } else {
      JoinBlock(rest);
      assert AllNulFree(rest);
      assert Join(es) == e + ([COLON] + Join(rest));
      assert Block(es) == e + ([0] + Block(rest));
    }
  }

  const SIZE_MAX: U64 := 0xffff_ffff_ffff_ffff

  /** A decrement of an unsigned 64-bit counter. */
  function Decrement(x: U64): U64 { if x == 0 then SIZE_MAX else x - 1 }

  /** The offsets that the loop of `argz_stringify` visits, from counter `c` on, all lie in a block of that length. */
  ghost predicate StaysInside(c: U64, length: U64) {
    var d := Decrement(c);
    d == 0 || (d < length && StaysInside(d, length))
  }

  lemma {:induction false} CountsDown(c: U64, length: U64)
    requires 0 < c <= length
    ensures StaysInside(c, length)
  {
    if c > 1 { CountsDown(c - 1, length); }
  }

  /** The loop stays inside the block if and only if the block has at least two bytes. */
  lemma {:induction false} StringifyInside(length: U64)
    ensures StaysInside(Decrement(length), length) <==> length >= 2
  {
    if length >= 2 { CountsDown(length - 1, length); }
  }

  /** The block of a path has at least two bytes if and only if the path is more than separators. */
  lemma {:induction false} BlockOfPath(p: Bytes)
    ensures |Block(EntriesOf(p))| >= 2 <==> exists i :: 0 <= i < |p| && p[i] != COLON
    decreases |p|
  {
    EmptyVector();
    BlockCons([], []);
    var none: Bytes := [];
    assert [none] + [] == [none];
    if p == [] {
      assert EntriesOf(p) == [[]];
    } else {
      hide EntriesOf, Block;
      EntriesStep(p);
      if p[0] == COLON {
        BlockOfPath(p[1..]);
        assert forall i :: 0 <= i < |p| - 1 ==> p[1..][i] == p[i + 1];
      } else {
        var e := if Span(p) == |p| then p else p[..Span(p)];
        var rest := if Span(p) == |p| then [] else EntriesOf(p[Span(p) + 1..]);
        assert EntriesOf(p) == [e] + rest;
        BlockCons(e, rest);
      }
    }
  }

  /** The vector of a lone separator is one byte, and stringifying it leaves the block at once. */
  lemma {:induction false} LoneSeparator()
    ensures Block(EntriesOf([0x3a])) == [0] && !StaysInside(Decrement(1), 1)
  {
    EntriesStep([COLON]);
    assert [COLON][1..] == [] && EntriesOf([]) == [[]];
    EmptyVector();
    BlockCons([], []);
    var none: Bytes := [];
    assert [none] + [] == [none];
    StringifyInside(1);
  }

  /**
   `argz_stringify`: overwrites every terminator but the last and one at offset 0. On a block of fewer than two bytes
   the counter wraps around and the first access is already outside; the call ends there.
   */
  method Stringify(v: Vector) returns (inside: bool)
    requires v.Valid() && v.argz.Length <= SIZE_MAX
    modifies v.argz
    ensures inside <==> v.argz.Length >= 2
    ensures v.argz[..] == if inside then Rejoined(old(v.argz[..]), 0) else old(v.argz[..])
  {
    ghost var was := v.argz[..];
    var argzLen: U64 := v.argz.Length;
    argzLen := Decrement(argzLen);
    argzLen := Decrement(argzLen);
    while argzLen > 0
      invariant v.argz.Length >= 2 ==> argzLen <= v.argz.Length - 2 && v.argz[..] == Rejoined(was, argzLen)
      invariant v.argz.Length < 2 ==> argzLen >= SIZE_MAX - 1 && v.argz[..] == was
    {
      if argzLen >= v.argz.Length {
        return false;
      }
      if v.argz[argzLen] == 0 {
        v.argz[argzLen] := COLON;
      }
      argzLen := Decrement(argzLen);
    }
    inside := true;
  }

  lemma {:induction false} RejoinedBlock(es: seq<Bytes>)
    requires es != [] && es[0] != [] && AllNulFree(es)
    ensures Rejoined(Block(es), 0) == Join(es) + [0]
  {
    JoinBlock(es);
    assert Block(es)[0] == es[0][0] && es[0][0] in es[0];
  }

  lemma {:induction false} JoinNulFree(es: seq<Bytes>)
    requires AllNulFree(es)
    ensures NulFree(JoinTail(es)) && NulFree(Join(es))
    decreases |es|
  {
    if es != [] { JoinNulFree(es[1..]); }
  }

  lemma {:induction false} StripNulFree(c: Bytes)
    requires NulFree(c)
    ensures NulFree(Strip(c))
    decreases |c|
  {
    if c != [] { StripNulFree(c[1..]); }
  }

  lemma {:induction false} JoinSnoc(es: seq<Bytes>, e: Bytes)
    ensures JoinTail(es + [e]) == JoinTail(es) + ([COLON] + e)
    ensures es != [] ==> Join(es + [e]) == Join(es) + ([COLON] + e)
    decreases |es|
  {
    if es == [] {
      assert [] + [e] == [e] && [e][1..] == [];
      assert JoinTail([]) == [] && JoinTail([e]) == [COLON] + e + JoinTail([]);
    } else {
      JoinSnoc(es[1..], e);
      assert (es + [e])[1..] == es[1..] + [e];
      hide JoinTail;
      JoinTailStep(es);
      JoinTailStep(es + [e]);
    }
  }

  lemma {:induction false} JoinTailStep(es: seq<Bytes>)
    requires es != []
    ensures JoinTail(es) == [COLON] + es[0] + JoinTail(es[1..])
  {
  }

  lemma {:induction false} NonEmptySnoc(es: seq<Bytes>, e: Bytes)
    ensures NonEmpty(es + [e]) == NonEmpty(es) + if e == [] then [] else [e]
    decreases |es|
  {
    if es == [] {
      assert [] + [e] == [e] && [e][1..] == [];
      assert NonEmpty([]) == [];
    } else {
      NonEmptySnoc(es[1..], e);
      assert (es + [e])[1..] == es[1..] + [e];
    }
  }

  /**
   What splitting the canonical form lists: the parts that are not empty, and an empty one after a final separator.
   */
  ghost function Listed(p: Bytes): seq<Bytes> {
    var es := Parts(p);
    NonEmpty(es) + if es == [] || es[|es| - 1] == [] then [[]] else []
  }

  lemma {:induction false} CanonicalEntries(p: Bytes)
    ensures EntriesOf(Canonical(p)) == Listed(p)
  {
    hide Components, Canonical, Parts, NonEmpty;
    var es := Parts(p);
    CanonicalParts(p);
    PartsOk(p);
    ComponentsJoin(es);
    if es != [] {
      var k := |es| - 1;
      assert es == es[..k] + [es[k]];
      JoinSnoc(es[..k], es[k]);
      if k == 0 {
        assert Join(es) == es[0] + [];
        assert es[0][|es[0]| - 1] in es[0];
      } else if es[k] != [] {
        assert es[k][|es[k]| - 1] in es[k];
      }
    }
  }

  lemma {:induction false} CanonicalParts(p: Bytes)
    ensures Canonical(p) == Join(Parts(p)) && Parts(p) == StripAll(FromReal(Components(p)))
  {
  }

  lemma {:induction false} CanonicalNulFree(p: Bytes)
    requires NulFree(p)
    ensures NulFree(Canonical(p))
  {
    hide Components, Canonical, Parts, Join, Strip;
    var es := Parts(p);
    CanonicalParts(p);
    ComponentsNulFree(p);
    var k := FromRealSuffix(Components(p));
    forall i | 0 <= i < |es| ensures NulFree(es[i]) { StripNulFree(Components(p)[k + i]); }
    JoinNulFree(es);
  }

  /** No component made only of slashes stands between a real one and the last component. */
  ghost predicate Restorable(p: Bytes) {
    var cs := Components(p);
    forall i, j :: 0 <= i < j < |cs| - 1 && AllSlashes(cs[j]) ==> AllSlashes(cs[i])
  }

  lemma {:induction false} RestorableParts(p: Bytes)
    ensures Restorable(p) <==> forall i :: 0 <= i < |Parts(p)| - 1 ==> Parts(p)[i] != []
  {
    hide Components, AllSlashes, Strip;
    var cs, es := Components(p), Parts(p);
    var k := FromRealSuffix(cs);
    forall i | 0 <= i < |cs| ensures AllSlashes(cs[i]) <==> Strip(cs[i]) == [] { StripClean(cs[i]); }
    assert |es| == |cs| - k && forall i :: 0 <= i < |es| ==> es[i] == Strip(cs[k + i]);
    if i :| 0 <= i < |es| - 1 && es[i] == [] {
      assert AllSlashes(cs[k + i]) && !AllSlashes(cs[k]) && i > 0;
    } else {
      forall j | k <= j < |cs| - 1 ensures Strip(cs[j]) != [] { assert es[j - k] == Strip(cs[j]); }
    }
  }

  /** A path that is not restored: `a:/:b` comes back as `a:b`, not as its canonical form `a::b`. */
  lemma {:induction false} UnrestoredPath()
    ensures var p: Bytes := [0x61, 0x3a, 0x2f, 0x3a, 0x62];
            !Restorable(p) && Parts(p) != [] && Join(Listed(p)) != Canonical(p)
  {
    hide Canonical, Listed, Join;
    var p: Bytes := [0x61, COLON, SLASH, COLON, 0x62];
    var q, r: Bytes := [SLASH, COLON, 0x62], [0x62];
    assert Span(p) == 1 && p[..1] == [0x61] && p[2..] == q;
    assert Span(q) == 1 && q[..1] == [SLASH] && q[2..] == r && Span(r) == 1;
    ComponentsStep(p);
    ComponentsStep(q);
    ComponentsStep(r);
    var cs: seq<Bytes> := [[0x61], [SLASH], [0x62]];
    assert Components(p) == cs;
    assert AllSlashes(cs[1]) && !AllSlashes(cs[0]);
    var k := FromRealSuffix(cs);
    StripClean(cs[0]);
    assert Parts(p) != [];
    JoinListed(p);
  }

  /** Joining the list again gives the canonical form back if and only if the path is restorable. */
  lemma {:induction false} JoinListed(p: Bytes)
    requires Parts(p) != []
    ensures Listed(p) != [] && Listed(p)[0] == Parts(p)[0] != []
    ensures Join(Listed(p)) == Canonical(p) <==> Restorable(p)
    ensures Tidy(p) ==> Restorable(p) && Listed(p) == Parts(p)
  {
    hide Components, Canonical, Parts, NonEmpty, Join, JoinTail, Tidy, Restorable;
    var es := Parts(p);
    CanonicalParts(p);
    PartsOk(p);
    TidyParts(p);
    var k := |es| - 1;
    var init := es[..k];
    assert es == init + [es[k]];
    NonEmptySnoc(init, es[k]);
    JoinLength(init);
    JoinLength(es);
    NonEmptyFirst(es);
    RestorableParts(p);
    assert Restorable(p) <==> [] !in init;
    assert [] !in init ==> Listed(p) == es;
    JoinSizes(es);
    JoinSizes(NonEmpty(es));
    if es[k] == [] {
      assert NonEmpty(init) == NonEmpty(es);
      JoinSnoc(NonEmpty(es), []);
    } else {
      assert Listed(p) == NonEmpty(es);
    }
  }

  lemma {:induction false} JoinSizes(es: seq<Bytes>)
    requires es != []
    ensures |Join(es)| + 1 == |JoinTail(es)|
  {
  }

  lemma {:induction false} NonEmptyFirst(es: seq<Bytes>)
    requires es != [] && es[0] != []
    ensures NonEmpty(es) != [] && NonEmpty(es)[0] == es[0]
  {
  }

  /**
   A whole search path: canonicalized, split, listed and put together again. With at least one component that is not
   only slashes the canonical path comes back exactly if the path is restorable; on a tidy path the list is its
   components from the first real one on, stripped. Without one the last step leaves the block.
   */
  method RoundTrip(path: Bytes) returns (list: seq<Bytes>, canonical: Bytes, again: Bytes, inside: bool)
    requires NulFree(path) && |path| < SIZE_MAX
    ensures canonical == Canonical(path) && list == Listed(path)
    ensures inside <==> Parts(path) != []
    ensures inside ==> (again == canonical + [0] <==> Restorable(path))
    ensures inside && Tidy(path) ==> list == StripAll(FromReal(Components(path))) && again == canonical + [0]
  {
    hide Components, Canonical, Parts, Listed, Join, Tidy, Restorable, Block, Rejoined, EntriesOf;
    canonical := Canonicalize(path);
    CanonicalNulFree(path);
    CanonicalEntries(path);
    CanonicalSize(path);
    var v := Argzize(canonical);
    list := List(v);
    assert AllNulFree(list);
    inside := Stringify(v);
    again := v.argz[..];
    if Parts(path) != [] {
      CanonicalParts(path);
      JoinListed(path);
      RejoinedBlock(list);
      assert again[..|again| - 1] == Join(list) && (canonical + [0])[..|canonical|] == canonical;
    }
  }

  lemma {:induction false} EmitShrinks(p: Bytes, started: bool)
    ensures |Emit(p, started)| <= |p|
    decreases |p|
  {
    if p != [] {
      EmitShrinks(p[1..], started);
      EmitShrinks(p[1..], true);
    }
  }

  lemma {:induction false} CellsShrink(p: Bytes, inside: bool)
    ensures |Cells(p, inside)| <= |p| + 1
    decreases |p|
  {
    if p != [] {
      CellsShrink(p[1..], false);
      CellsShrink(p[1..], true);
    }
  }

  /** The block of a canonical path is no longer than the path and its terminator, and has two bytes for a real one. */
  lemma {:induction false} CanonicalSize(p: Bytes)
    ensures |Block(EntriesOf(Canonical(p)))| <= |p| + 1
    ensures |Block(EntriesOf(Canonical(p)))| >= 2 <==> Parts(p) != []
  {
    hide Components, Canonical, Parts, Emit, Cells, EntriesOf, Block;
    var c := Canonical(p);
    EmitCanonical(p);
    EmitShrinks(p, false);
    CellsBlock(c);
    CellsShrink(c, false);
    BlockOfPath(c);
    CanonicalParts(p);
    PartsOk(p);
    var es := Parts(p);
    if es != [] {
      assert c[0] == es[0][0] && es[0][0] in es[0];
    }
  }
}
