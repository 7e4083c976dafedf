/**
 What the columns of a flat file say about the quantities that were logged: name and cell together, for every
 component of every type, against the literal names.
 */
module Quantities {
  import opened Wire
  import opened FlatFile
  import OldLog

  /** Three coordinates. */
  datatype Point = Point(x: Eight, y: Eight, z: Eight)

  /** A logged quantity, its components by name. */
  datatype Quantity =
    | Number(d: Eight, floating: bool)
    | Planar(x: Eight, y: Eight)
    | Spatial(p: Point)
    | Rotation(w: Eight, v: Point)
    | Six(v0: Eight, v1: Eight, v2: Eight, v3: Eight, v4: Eight, v5: Eight)
    | Pose(qw: Eight, q: Point, t: Point)
    | Force(couple: Point, force: Point)
    | Motion(angular: Point, linear: Point)
    | Elements(s: seq<Eight>)

  function List(p: Point): seq<Eight> { [p.x, p.y, p.z] }

  /** The row logged for a quantity. */
  function RowOf(q: Quantity): seq<Eight> {
    match q
    case Number(d, _) => [d]
    case Planar(x, y) => [x, y]
    case Spatial(p) => List(p)
    case Rotation(w, v) => [w] + List(v)
    case Six(v0, v1, v2, v3, v4, v5) => [v0, v1, v2, v3, v4, v5]
    case Pose(qw, v, t) => [qw] + List(v) + List(t)
    case Force(c, f) => List(c) + List(f)
    case Motion(a, l) => List(a) + List(l)
    case Elements(s) => s
  }

  /** An entry that logs quantities of this type. */
  predicate Logs(t: LogType, q: Quantity) {
    match q
    case Number(_, floating) => t == Scalar(floating)
    case Planar(_, _) => t == Vector2d
    case Spatial(_) => t == Vector3d
    case Rotation(_, _) => t == Quaterniond
    case Six(_, _, _, _, _, _) => t == Vector6d
    case Pose(_, _, _) => t == PTransformd
    case Force(_, _) => t == ForceVecd
    case Motion(_, _) => t == MotionVecd
    case Elements(_) => t == VectorXd || t == VectorDouble
  }

  ghost predicate SaysPoint(p: Point, prefix: string, suffix: string, c: Eight) {
    || (suffix == prefix + "x" && c == p.x)
    || (suffix == prefix + "y" && c == p.y)
    || (suffix == prefix + "z" && c == p.z)
  }

  /** What a quantity says about the column with this suffix. */
  ghost predicate Says(q: Quantity, suffix: string, c: Eight) {
    match q
    case Number(d, _) => suffix == "" && c == d
    case Planar(x, y) => (suffix == "_x" && c == x) || (suffix == "_y" && c == y)
    case Spatial(p) => SaysPoint(p, "_", suffix, c)
    case Rotation(w, v) => (suffix == "_w" && c == w) || SaysPoint(v, "_", suffix, c)
    case Six(v0, v1, v2, v3, v4, v5) =>
      || (suffix == "_0" && c == v0) || (suffix == "_1" && c == v1) || (suffix == "_2" && c == v2)
      || (suffix == "_3" && c == v3) || (suffix == "_4" && c == v4) || (suffix == "_5" && c == v5)
    case Pose(qw, v, t) =>
      (suffix == "_qw" && c == qw) || SaysPoint(v, "_q", suffix, c) || SaysPoint(t, "_t", suffix, c)
    case Force(m, f) => SaysPoint(m, "_c", suffix, c) || SaysPoint(f, "_f", suffix, c)
    case Motion(a, l) => SaysPoint(a, "_w", suffix, c) || SaysPoint(l, "_v", suffix, c)
    case Elements(s) => exists j :: 0 <= j < |s| && suffix == "_" + OldLog.Decimal(j) && c == s[j]
  }

  /** An entry of which row `i` logs the quantity. */
  ghost predicate LoggedAt(e: Entry, i: nat, q: Quantity) {
    e.NumberEntry? && EntryOk(e) && i < |e.rows| && Logs(e.t, q) && e.rows[i] == Some(RowOf(q))
  }

  /** The suffix of column `j`. */
  function SuffixAt(t: LogType, j: nat): string {
    if j < |Suffixes(t)| then Suffixes(t)[j] else "_" + OldLog.Decimal(j)
  }

  lemma {:induction false} Joined()
    ensures "_" + "x" == "_x" && "_" + "y" == "_y" && "_" + "z" == "_z"
    ensures "_q" + "x" == "_qx" && "_q" + "y" == "_qy" && "_q" + "z" == "_qz"
    ensures "_t" + "x" == "_tx" && "_t" + "y" == "_ty" && "_t" + "z" == "_tz"
    ensures "_c" + "x" == "_cx" && "_c" + "y" == "_cy" && "_c" + "z" == "_cz"
    ensures "_f" + "x" == "_fx" && "_f" + "y" == "_fy" && "_f" + "z" == "_fz"
    ensures "_w" + "x" == "_wx" && "_w" + "y" == "_wy" && "_w" + "z" == "_wz"
    ensures "_v" + "x" == "_vx" && "_v" + "y" == "_vy" && "_v" + "z" == "_vz"
  {
  }

  /** The component in column `j` is the one its name stands for. */
  lemma {:induction false} NamedRight(t: LogType, q: Quantity, j: nat)
    requires Logs(t, q) && j < |RowOf(q)|
    ensures Says(q, SuffixAt(t, j), RowOf(q)[j])
  {
    Joined();
  }

  const AXES := ["x", "y", "z"]

  lemma {:induction false} PointAt(p: Point, prefix: string, suffix: string, c: Eight) returns (k: nat)
    requires SaysPoint(p, prefix, suffix, c)
    ensures k < 3 && List(p)[k] == c && suffix == prefix + AXES[k]
  {
    k := if suffix == prefix + "x" && c == p.x then 0 else if suffix == prefix + "y" && c == p.y then 1 else 2;
  }

  /** A quantity of two points, and what stands before them. */
  lemma {:induction false} PointsAt(t: LogType, q: Quantity, head: seq<Eight>, a: Point, x: string, b: Point, y: string,
      suffix: string, c: Eight) returns (j: nat)
    requires RowOf(q) == head + List(a) + List(b) && |Suffixes(t)| == |head| + 6
    requires forall k :: 0 <= k < 3 ==>
               Suffixes(t)[|head| + k] == x + AXES[k] && Suffixes(t)[|head| + 3 + k] == y + AXES[k]
    requires SaysPoint(a, x, suffix, c) || SaysPoint(b, y, suffix, c)
    ensures j < |RowOf(q)| && RowOf(q)[j] == c && SuffixAt(t, j) == suffix
  {
    hide RowOf, Suffixes, SaysPoint;
    if SaysPoint(a, x, suffix, c) {
      var k := PointAt(a, x, suffix, c);
      j := |head| + k;
    } else {
      var k := PointAt(b, y, suffix, c);
      j := |head| + 3 + k;
    }
  }

  /** The quantities of two points. */
  lemma {:induction false} SaidInPoints(t: LogType, q: Quantity, suffix: string, c: Eight) returns (j: nat)
    requires Logs(t, q) && Says(q, suffix, c) && (q.Pose? || q.Force? || q.Motion?)
    ensures j < |RowOf(q)| && RowOf(q)[j] == c && SuffixAt(t, j) == suffix
  {
    hide SaysPoint;
    Joined();
    match q
    case Pose(qw, v, p) =>
      if suffix == "_qw" && c == qw {
        j := 0;
      } else {
        j := PointsAt(t, q, [qw], v, "_q", p, "_t", suffix, c);
      }
    case Force(m, f) =>
      assert RowOf(q) == [] + List(m) + List(f);
      j := PointsAt(t, q, [], m, "_c", f, "_f", suffix, c);
    case Motion(a, l) =>
      assert RowOf(q) == [] + List(a) + List(l);
      j := PointsAt(t, q, [], a, "_w", l, "_v", suffix, c);
  }

  lemma {:induction false} SaidInPoint(t: LogType, q: Quantity, suffix: string, c: Eight) returns (j: nat)
    requires Logs(t, q) && Says(q, suffix, c) && (q.Spatial? || q.Rotation?)
    ensures j < |RowOf(q)| && RowOf(q)[j] == c && SuffixAt(t, j) == suffix
  {
    hide SaysPoint;
    if q.Rotation? && suffix == "_w" && c == q.w {
      j := 0;
    } else {
      var p := if q.Spatial? then q.p else q.v;
      var k := PointAt(p, "_", suffix, c);
      j := if q.Spatial? then k else k + 1;
      Joined();
    }
  }

  /** Everything a quantity says is among its components. */
  lemma {:induction false} SaidAt(t: LogType, q: Quantity, suffix: string, c: Eight) returns (j: nat)
    requires Logs(t, q) && Says(q, suffix, c)
    ensures j < |RowOf(q)| && RowOf(q)[j] == c && SuffixAt(t, j) == suffix
  {
    if q.Six? {
      j := SixAt(q, suffix, c);
    } else if q.Pose? || q.Force? || q.Motion? {
      j := SaidInPoints(t, q, suffix, c);
    } else if q.Spatial? || q.Rotation? {
      j := SaidInPoint(t, q, suffix, c);
    } else if q.Planar? {
      j := if suffix == "_x" && c == q.x then 0 else 1;
    } else if q.Elements? {
      j :| 0 <= j < |q.s| && suffix == "_" + OldLog.Decimal(j) && c == q.s[j];
    } else {
      j := 0;
    }
  }

  lemma {:induction false} SixAt(q: Quantity, suffix: string, c: Eight) returns (j: nat)
    requires q.Six? && Says(q, suffix, c)
    ensures j < |RowOf(q)| && RowOf(q)[j] == c && SuffixAt(Vector6d, j) == suffix
  {
    j := if suffix == "_0" then 0 else if suffix == "_1" then 1 else if suffix == "_2" then 2
         else if suffix == "_3" then 3 else if suffix == "_4" then 4 else 5;
  }

  /**
   A column with its cell at row `i` is one of the entry exactly if the quantity logged there says so; columns of a
   ragged entry past the row's own length are missing there.
   */
  lemma {:induction false} CellSays(e: Entry, i: nat, q: Quantity, j: nat)
    requires LoggedAt(e, i, q) && j < |RowOf(q)|
    ensures j < |LinesOf(e)| && LinesOf(e)[j].Numbers? && i < |LinesOf(e)[j].cells|
    ensures LinesOf(e)[j].key == e.name + Ascii(SuffixAt(e.t, j))
    ensures Says(q, SuffixAt(e.t, j), LinesOf(e)[j].cells[i])
  {
    EveryCell(e, i, j);
    NamedRight(e.t, q, j);
  }

  lemma {:induction false} SaidInCell(e: Entry, i: nat, q: Quantity, suffix: string, c: Eight) returns (j: nat)
    requires LoggedAt(e, i, q) && Says(q, suffix, c)
    ensures j < |LinesOf(e)| && LinesOf(e)[j].Numbers? && i < |LinesOf(e)[j].cells|
    ensures LinesOf(e)[j].key == e.name + Ascii(suffix) && LinesOf(e)[j].cells[i] == c
  {
    hide Says, RowOf, SuffixAt;
    j := SaidAt(e.t, q, suffix, c);
    EveryCell(e, i, j);
    KeyOf(e, j);
  }

  lemma {:induction false} KeyOf(e: Entry, j: nat)
    requires e.NumberEntry? && j < |LinesOf(e)|
    ensures LinesOf(e)[j].key == e.name + Ascii(SuffixAt(e.t, j))
  {
  }

  /** Names become bytes character by character. */
  lemma {:induction false} AsciiAt(s: string, i: nat)
    requires i < |s|
    ensures |Ascii(s)| == |s| && (s[i] as int < 0x80 ==> Ascii(s)[i] == s[i] as int)
  {
  }

  /** Where nothing was logged: the bits of a quiet NaN, or of zero for integers and booleans. */
  lemma {:induction false} MissingBits(e: Entry, i: nat, j: nat)
    requires e.NumberEntry? && i < |e.rows| && j < |LinesOf(e)|
    requires e.rows[i].None? || |e.rows[i].value| <= j
    ensures LinesOf(e)[j].Numbers? && i < |LinesOf(e)[j].cells|
    ensures Unlittle(LinesOf(e)[j].cells[i]) == if e.t == Scalar(false) then 0 else 0x7ff8_0000_0000_0000
  {
    NanBits();
  }

  lemma {:induction false} NanBits()
    ensures Unlittle(QUIET_NAN) == 0x7ff8_0000_0000_0000 && Unlittle(ZERO) == 0
  {
    var b: Byte, c: Byte := 0xf8, 0x7f;
    assert QUIET_NAN[6..] == [b, c] && QUIET_NAN[7..] == [c];
    assert Unlittle([c]) == 0x7f by { assert [c][1..] == []; }
    assert Unlittle(QUIET_NAN[6..]) == 0x7ff8 by { assert [b, c][1..] == [c]; }
    LeadingZeros(QUIET_NAN, 6);
    LeadingZeros(ZERO, 8);
    Pows();
    assert ZERO[8..] == [];
  }

  lemma {:induction false} Pows()
    ensures Pow256(6) == 0x1_0000_0000_0000
  {
  }

  lemma {:induction false} LeadingZeros(s: Bytes, n: nat)
    requires n <= |s| && forall i :: 0 <= i < n ==> s[i] == 0
    ensures Unlittle(s) == Pow256(n) * Unlittle(s[n..])
    decreases n
  {
    if n > 0 {
      LeadingZeros(s[1..], n - 1);
      assert s[1..][n - 1..] == s[n..];
    }
  }

  /** A text entry is one column under its own name: the texts, or nothing where none was logged. */
  lemma {:induction false} TextColumn(e: Entry, i: nat)
    requires e.TextEntry? && i < |e.texts|
    ensures |LinesOf(e)| == 1 && LinesOf(e)[0].Texts? && LinesOf(e)[0].key == e.name
    ensures |LinesOf(e)[0].texts| == |e.texts|
    ensures LinesOf(e)[0].texts[i] == if e.texts[i].Some? then e.texts[i].value else []
  {
  }

  // ----- the bytes of a column

  /** A numeric column: a one, the length of the key, the key, the number of cells, and the cells. */
  lemma {:induction false} NumbersLayout(key: Bytes, cells: seq<Eight>, i: nat)
    requires |key| < LONG_LIMIT && |cells| < LONG_LIMIT
    ensures var s, k := Image(Numbers(key, cells)), |key|;
            && |s| == 17 + k + 8 * |cells|
            && s[0] == 1 && Unlittle(s[1..9]) == k && s[9..9 + k] == key && Unlittle(s[9 + k..17 + k]) == |cells|
            && (i < |cells| ==> s[17 + k + 8 * i..25 + k + 8 * i] == cells[i])
  {
    hide Word, Flat, Unlittle;
    var k := |key|;
    var s := Image(Numbers(key, cells));
    HeadLayout(Head(1, key, |cells|), Flat(cells));
    if i < |cells| {
      FlatAt(cells, i);
      assert s[17 + k + 8 * i..25 + k + 8 * i] == Flat(cells)[8 * i..8 * i + 8];
    }
  }

  /** A text column: a zero, the length of the key, the key, the number of texts, and the texts. */
  lemma {:induction false} TextsLayout(key: Bytes, texts: seq<Bytes>)
    requires |key| < LONG_LIMIT && |texts| < LONG_LIMIT
    ensures var s, k := Image(Texts(key, texts)), |key|;
            && |s| >= 17 + k
            && s[0] == 0 && Unlittle(s[1..9]) == k && s[9..9 + k] == key && Unlittle(s[9 + k..17 + k]) == |texts|
            && s[17 + k..] == TextImage(texts)
  {
    hide Word, Unlittle, TextImage;
    HeadLayout(Head(0, key, |texts|), TextImage(texts));
  }

  /** Every text stands after its length. */
  lemma {:induction false} FirstText(texts: seq<Bytes>)
    requires texts != [] && |texts[0]| < LONG_LIMIT
    ensures var s, n := TextImage(texts), |texts[0]|;
            && |s| >= 8 + n && Unlittle(s[..8]) == n && s[8..8 + n] == texts[0] && s[8 + n..] == TextImage(texts[1..])
  {
    hide Word, Unlittle;
    WordValue(|texts[0]|);
    var s := TextImage(texts);
    assert s[..8] == Word(|texts[0]|);
  }

  lemma {:induction false} WordValue(n: nat)
    requires n < LONG_LIMIT
    ensures Unlittle(Word(n)) == n
  {
    Pow256Eight();
    LittleRoundTrip(n, 8);
  }

  lemma {:induction false} HeadLayout(h: Head, body: Bytes)
    requires |h.key| < LONG_LIMIT && h.count < LONG_LIMIT
    ensures var s, k := HeadImage(h) + body, |h.key|;
            && |s| == 17 + k + |body| && s[0] == h.kind && Unlittle(s[1..9]) == k && s[9..9 + k] == h.key
            && Unlittle(s[9 + k..17 + k]) == h.count && s[17 + k..] == body
  {
    hide Word, Unlittle;
    WordValue(|h.key|);
    WordValue(h.count);
    var s, k := HeadImage(h) + body, |h.key|;
    assert s[1..9] == Word(k) && s[9 + k..17 + k] == Word(h.count);
  }

  lemma {:induction false} FlatAt(cells: seq<Eight>, i: nat)
    requires i < |cells|
    ensures Flat(cells)[8 * i..8 * i + 8] == cells[i]
    decreases |cells|
  {
    if i > 0 {
      FlatAt(cells[1..], i - 1);
      assert Flat(cells)[8..] == Flat(cells[1..]);
      assert Flat(cells)[8 * i..8 * i + 8] == Flat(cells)[8..][8 * (i - 1)..8 * (i - 1) + 8];
    }
  }
}
