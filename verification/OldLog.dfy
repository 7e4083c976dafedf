/**
 Reading an old binary log into columns. Records come row by row, a record without keys using the last key
 list; columns appear when their key is first listed and must stay aligned for ever after.
 */
module OldLog {
  import opened LogKeys

  datatype Number = Finite(x: real) | NotANumber

  datatype Triple = Triple(x: Number, y: Number, z: Number)

  /** A logged value, by type. */
  datatype LogValue =
    | Bool(b: bool)
    | Double(d: Number)
    | UnsignedInt(i: nat)
    | UInt64(u: nat)
    | Text(s: string)
    | Vector2d(x: Number, y: Number)
    | Vector3d(v3: Triple)
    | Quaterniond(w: Number, q: Triple)
    | PTransformd(ow: Number, ori: Triple, pos: Triple)
    | ForceVecd(couple: Triple, force: Triple)
    | MotionVecd(angular: Triple, linear: Triple)
    | DoubleVector(v: seq<Number>)
    | Unknown

  datatype Cell = Num(n: Number) | Str(s: string)

  // ----- expansion of a value into cells

  /** Decimal digits of a number. */
  function Decimal(n: nat): string {
    if n < 10 then [('0' as int + n) as char] else Decimal(n / 10) + [('0' as int + n % 10) as char]
  }

  /** The number that a string of digits spells. */
  ghost function Spelled(s: string): int {
    if s == [] then 0 else 10 * Spelled(s[..|s| - 1]) + (s[|s| - 1] as int - '0' as int)
  }

  /** Written out, a number is spelled by digits, the first of which is zero only for zero itself. */
  lemma {:induction false} DecimalSpells(n: nat)
    ensures Spelled(Decimal(n)) == n && Decimal(n) != []
    ensures forall c :: c in Decimal(n) ==> '0' <= c <= '9'
    ensures Decimal(n)[0] == '0' <==> n == 0
    decreases n
  {
    var s := Decimal(n);
    if n < 10 {
      assert s[..0] == [];
    } else {
      DecimalSpells(n / 10);
      assert s[..|s| - 1] == Decimal(n / 10);
    }
  }

  /** Columns that a keyed value occupies, in the order in which they are created. */
  function Names(k: Key, v: LogValue): seq<Key> {
    match v
    case Vector2d(_, _) => [k + "_x", k + "_y"]
    case Vector3d(_) => [k + "_z", k + "_x", k + "_y"]
    case Quaterniond(_, _) => [k + "_w", k + "_z", k + "_x", k + "_y"]
    case PTransformd(_, _, _) => [k + "_qw", k + "_qx", k + "_qy", k + "_qz", k + "_tx", k + "_ty", k + "_tz"]
    case ForceVecd(_, _) => [k + "_cx", k + "_cy", k + "_cz", k + "_fx", k + "_fy", k + "_fz"]
    case MotionVecd(_, _) => [k + "_wx", k + "_wy", k + "_wz", k + "_vx", k + "_vy", k + "_vz"]
    case DoubleVector(v) => seq(|v|, i requires 0 <= i => k + "_" + Decimal(i))
    case Unknown => []
    case _ => [k]
  }

  function Integer(n: nat): Cell { Num(Finite(n as real)) }

  /** Cells that a value pushes, in order. A UInt64 is read through the 32-bit accessor of UnsignedInt. */
  function Pushes(v: LogValue): (cells: seq<Cell>)
    ensures forall k :: |cells| == |Names(k, v)|
  {
    match v
    case Bool(b) => [Integer(if b then 1 else 0)]
    case Double(d) => [Num(d)]
    case UnsignedInt(i) => [Integer(i)]
    case UInt64(u) => [Integer(u % 0x1_0000_0000)]
    case Text(s) => [Str(s)]
    case Vector2d(x, y) => [Num(x), Num(y)]
    case Vector3d(t) => [Num(t.z), Num(t.x), Num(t.y)]
    case Quaterniond(w, t) => [Num(w), Num(t.z), Num(t.x), Num(t.y)]
    case PTransformd(w, o, p) => [Num(w), Num(o.x), Num(o.y), Num(o.z), Num(p.x), Num(p.y), Num(p.z)]
    case ForceVecd(c, f) => [Num(c.x), Num(c.y), Num(c.z), Num(f.x), Num(f.y), Num(f.z)]
    case MotionVecd(a, l) => [Num(a.x), Num(a.y), Num(a.z), Num(l.x), Num(l.y), Num(l.z)]
    case DoubleVector(v) => seq(|v|, i requires 0 <= i < |v| => Num(v[i]))
    case Unknown => []
  }

  /** The coordinates of a triple under a prefix. */
  ghost predicate TripleLabel(t: Triple, prefix: string, name: Key, c: Cell) {
    || (name == prefix + "x" && c == Num(t.x))
    || (name == prefix + "y" && c == Num(t.y))
    || (name == prefix + "z" && c == Num(t.z))
  }

  /** What the value logged under `k` says about the column `name`. */
  ghost predicate Label(k: Key, v: LogValue, name: Key, c: Cell) {
    match v
    case Bool(b) => name == k && c == Integer(if b then 1 else 0)
    case Double(d) => name == k && c == Num(d)
    case UnsignedInt(i) => name == k && c == Integer(i)
    case UInt64(u) => name == k && c == Integer(u)
    case Text(s) => name == k && c == Str(s)
    case Vector2d(x, y) => (name == k + "_x" && c == Num(x)) || (name == k + "_y" && c == Num(y))
    case Vector3d(t) => TripleLabel(t, k + "_", name, c)
    case Quaterniond(w, t) => (name == k + "_w" && c == Num(w)) || TripleLabel(t, k + "_", name, c)
    case PTransformd(w, o, p) =>
      (name == k + "_qw" && c == Num(w)) || TripleLabel(o, k + "_q", name, c) || TripleLabel(p, k + "_t", name, c)
    case ForceVecd(m, f) => TripleLabel(m, k + "_c", name, c) || TripleLabel(f, k + "_f", name, c)
    case MotionVecd(a, l) => TripleLabel(a, k + "_w", name, c) || TripleLabel(l, k + "_v", name, c)
    case DoubleVector(v) => exists i :: 0 <= i < |v| && name == k + "_" + Decimal(i) && c == Num(v[i])
    case Unknown => false
  }

  lemma {:induction false} Suffixes(k: Key)
    ensures (k + "_") + "x" == k + "_x" && (k + "_") + "y" == k + "_y" && (k + "_") + "z" == k + "_z"
    ensures (k + "_q") + "x" == k + "_qx" && (k + "_q") + "y" == k + "_qy" && (k + "_q") + "z" == k + "_qz"
    ensures (k + "_t") + "x" == k + "_tx" && (k + "_t") + "y" == k + "_ty" && (k + "_t") + "z" == k + "_tz"
    ensures (k + "_c") + "x" == k + "_cx" && (k + "_c") + "y" == k + "_cy" && (k + "_c") + "z" == k + "_cz"
    ensures (k + "_f") + "x" == k + "_fx" && (k + "_f") + "y" == k + "_fy" && (k + "_f") + "z" == k + "_fz"
    ensures (k + "_w") + "x" == k + "_wx" && (k + "_w") + "y" == k + "_wy" && (k + "_w") + "z" == k + "_wz"
    ensures (k + "_v") + "x" == k + "_vx" && (k + "_v") + "y" == k + "_vy" && (k + "_v") + "z" == k + "_vz"
  {
  }

  /** The cell pushed to a column is what the value says about it, unless it is a UInt64 of 2^32 or more. */
  lemma {:induction false} PushesLabelled(k: Key, v: LogValue, t: nat)
    requires t < |Names(k, v)|
    ensures Label(k, v, Names(k, v)[t], Pushes(v)[t]) <==> !(v.UInt64? && v.u >= 0x1_0000_0000)
  {
    Suffixes(k);
  }

  /** Every column a value speaks about is among those it occupies. */
  lemma {:induction false} LabelledNames(k: Key, v: LogValue, name: Key, c: Cell)
    requires Label(k, v, name, c)
    ensures name in Names(k, v)
  {
    Suffixes(k);
    match v
    case DoubleVector(d) =>
      var i :| 0 <= i < |d| && name == k + "_" + Decimal(i) && c == Num(d[i]);
      assert Names(k, v)[i] == name;
    case _ =>
  }

  /** A value as it is read. */
  function Narrow(v: LogValue): LogValue { if v.UInt64? then UInt64(v.u % 0x1_0000_0000) else v }

  lemma {:induction false} NarrowLabelled(k: Key, v: LogValue, t: nat)
    requires t < |Names(k, v)|
    ensures Label(k, Narrow(v), Names(k, v)[t], Pushes(v)[t])
  {
    hide Label;
    assert Names(k, Narrow(v)) == Names(k, v) && Pushes(Narrow(v)) == Pushes(v);
    PushesLabelled(k, Narrow(v), t);
  }

  /** A counter of 2^32 comes out as 0. */
  lemma {:induction false} LargeCounter(k: Key)
    ensures Pushes(UInt64(0x1_0000_0000)) == [Integer(0)] && !Label(k, UInt64(0x1_0000_0000), k, Integer(0))
  {
  }

  // ----- columns

  /** Magnitudes below the smallest normal number become zero. */
  function Normal(n: Number, tiny: real): Number {
    if n.Finite? && -tiny < n.x < tiny then Finite(0.0) else n
  }

  function Stored(c: Cell, tiny: real): Cell {
    if c.Num? then Num(Normal(c.n, tiny)) else c
  }

  function Magnitude(x: real): real { if x < 0.0 then -x else x }

  /** What a column makes of a logged cell: zero of a number whose magnitude is below `tiny`, else the cell itself. */
  ghost predicate Keeps(logged: Cell, c: Cell, tiny: real) {
    match logged
    case Str(s) => c == Str(s)
    case Num(NotANumber) => c == Num(NotANumber)
    case Num(Finite(x)) =>
      (Magnitude(x) >= tiny ==> c == Num(Finite(x))) && (Magnitude(x) < tiny ==> c == Num(Finite(0.0)))
  }

  lemma {:induction false} StoredKeeps(logged: Cell, c: Cell, tiny: real)
    ensures Keeps(logged, c, tiny) <==> c == Stored(logged, tiny)
  {
  }

  datatype Column = Numbers(nums: seq<Number>) | Texts(texts: seq<string>) {
    function Length(): nat { if Numbers? then |nums| else |texts| }

    function Get(r: nat): Cell
      requires r < Length()
    {
      if Numbers? then Num(nums[r]) else Str(texts[r])
    }

    /** A cell of the wrong kind is dropped. */
    function Push(c: Cell, tiny: real): Column {
      match (this, c)
      case (Numbers(d), Num(n)) => Numbers(d + [Normal(n, tiny)])
      case (Texts(d), Str(s)) => Texts(d + [s])
      case _ => this
    }

    function PushMissing(): Column {
      match this
      case Numbers(d) => Numbers(d + [NotANumber])
      case Texts(d) => Texts(d + [""])
    }
  }

  /** The cell of a column where its key is absent. */
  function Missing(numeric: bool): Cell { if numeric then Num(NotANumber) else Str("") }

  function FreshColumn(numeric: bool, entries: nat): (col: Column)
    ensures col.Length() == entries && col.Numbers? == numeric
    ensures forall r :: 0 <= r < entries ==> col.Get(r) == Missing(numeric)
  {
    if numeric then Numbers(seq(entries, _ => NotANumber)) else Texts(seq(entries, _ => ""))
  }

  type Columns = map<Key, Column>

  // ----- rows

  datatype Sample = Sample(keys: seq<Key>, values: seq<LogValue>)

  /** The columns of the first `n` keyed values, and the cells they push, one after the other. */
  ghost function RowNames(keys: seq<Key>, values: seq<LogValue>, n: nat): seq<Key>
    requires n <= |keys| && n <= |values|
  {
    if n == 0 then [] else RowNames(keys, values, n - 1) + Names(keys[n - 1], values[n - 1])
  }

  ghost function RowCells(keys: seq<Key>, values: seq<LogValue>, n: nat): (cells: seq<Cell>)
    requires n <= |keys| && n <= |values|
    ensures |cells| == |RowNames(keys, values, n)|
  {
    if n == 0 then [] else RowCells(keys, values, n - 1) + Pushes(values[n - 1])
  }

  ghost predicate Distinct(names: seq<Key>) {
    forall i, j :: 0 <= i < j < |names| ==> names[i] != names[j]
  }

  /** A row: the columns in force and the cells recorded for them. */
  datatype CellRow = CellRow(names: seq<Key>, cells: seq<Cell>)

  /** `c` is the cell that column `name` must show for a row. */
  ghost predicate Shows(row: CellRow, name: Key, numeric: bool, tiny: real, c: Cell) {
    && |row.names| == |row.cells|
    && if name in row.names then exists t ::
        0 <= t < |row.names| && row.names[t] == name && c == Stored(row.cells[t], tiny)
       else c == Missing(numeric)
  }

  /** A column has one cell for every row, and each is the right one. */
  ghost predicate Aligned(col: Column, name: Key, rows: seq<CellRow>, tiny: real) {
    && col.Length() == |rows|
    && forall r :: 0 <= r < |rows| ==> Shows(rows[r], name, col.Numbers?, tiny, col.Get(r))
  }

  ghost predicate AllAligned(cols: Columns, rows: seq<CellRow>, tiny: real) {
    forall k :: k in cols ==> Aligned(cols[k], k, rows, tiny)
  }

  /** The first `n` cells pushed to their columns, one after the other. */
  function PushAll(cols: Columns, names: seq<Key>, cells: seq<Cell>, tiny: real, n: nat): (r: Columns)
    requires n <= |names| == |cells| && forall t :: 0 <= t < |names| ==> names[t] in cols
    ensures r.Keys == cols.Keys
  {
    if n == 0 then cols
    else
      var before := PushAll(cols, names, cells, tiny, n - 1);
      before[names[n - 1] := before[names[n - 1]].Push(cells[n - 1], tiny)]
  }

  /** With distinct columns each receives its own cell and no other changes. */
  lemma {:induction false} PushAllAt(cols: Columns, names: seq<Key>, cells: seq<Cell>, tiny: real, n: nat, k: Key)
    requires n <= |names| == |cells| && Distinct(names) && k in cols
    requires forall t :: 0 <= t < |names| ==> names[t] in cols
    ensures k !in names[..n] ==> PushAll(cols, names, cells, tiny, n)[k] == cols[k]
    ensures forall t ::
        0 <= t < n && names[t] == k ==> PushAll(cols, names, cells, tiny, n)[k] == cols[k].Push(cells[t], tiny)
  {
    if n > 0 {
      PushAllAt(cols, names, cells, tiny, n - 1, k);
      assert names[..n] == names[..n - 1] + [names[n - 1]];
    }
  }

  lemma {:induction false} AlignedPush(col: Column, name: Key, rows: seq<CellRow>, tiny: real, row: CellRow, t: nat)
    requires Aligned(col, name, rows, tiny)
    requires |row.names| == |row.cells| && t < |row.names| && row.names[t] == name && row.cells[t].Num? == col.Numbers?
    ensures Aligned(col.Push(row.cells[t], tiny), name, rows + [row], tiny)
  {
  }

  lemma {:induction false} AlignedMissing(col: Column, name: Key, rows: seq<CellRow>, tiny: real, row: CellRow)
    requires Aligned(col, name, rows, tiny)
    requires |row.names| == |row.cells| && name !in row.names
    ensures Aligned(col.PushMissing(), name, rows + [row], tiny)
  {
  }

  function PadMissing(cols: Columns, absent: set<Key>): Columns {
    map k | k in cols :: if k in absent then cols[k].PushMissing() else cols[k]
  }

  /** A whole row, pushed and padded, keeps every column aligned. */
  lemma {:induction false} RowStep(cols: Columns, rows: seq<CellRow>, tiny: real, row: CellRow)
    requires AllAligned(cols, rows, tiny) && |row.names| == |row.cells| && Distinct(row.names)
    requires forall t :: 0 <= t < |row.names| ==>
        row.names[t] in cols && cols[row.names[t]].Numbers? == row.cells[t].Num?
    ensures var absent := set k | k in cols && k !in row.names;
            AllAligned(PadMissing(PushAll(cols, row.names, row.cells, tiny, |row.names|), absent), rows + [row], tiny)
  {
    var absent := set k | k in cols && k !in row.names;
    var pushed := PushAll(cols, row.names, row.cells, tiny, |row.names|);
    assert row.names[..|row.names|] == row.names;
    forall k | k in cols ensures Aligned(PadMissing(pushed, absent)[k], k, rows + [row], tiny) {
      PushAllAt(cols, row.names, row.cells, tiny, |row.names|, k);
      if k in row.names {
        var t :| 0 <= t < |row.names| && row.names[t] == k;
        AlignedPush(cols[k], k, rows, tiny, row, t);
      } else {
        AlignedMissing(cols[k], k, rows, tiny, row);
      }
    }
  }

  // ----- counting cells

  /** How often a column is named among the first `n`. */
  ghost function Count(names: seq<Key>, n: nat, k: Key): nat
    requires n <= |names|
  {
    if n == 0 then 0 else Count(names, n - 1, k) + if names[n - 1] == k then 1 else 0
  }

  lemma {:induction false} CountIn(names: seq<Key>, n: nat, k: Key)
    requires n <= |names|
    ensures Count(names, n, k) > 0 <==> exists t :: 0 <= t < n && names[t] == k
  {
    if n > 0 { CountIn(names, n - 1, k); }
  }

  /** A column named twice is counted twice, and only such a one. */
  lemma {:induction false} CountTwice(names: seq<Key>, n: nat, k: Key)
    requires n <= |names|
    ensures Count(names, n, k) > 1 <==> exists i, j :: 0 <= i < j < n && names[i] == k && names[j] == k
  {
    if n > 0 {
      CountTwice(names, n - 1, k);
      CountIn(names, n - 1, k);
      if names[n - 1] == k && Count(names, n - 1, k) > 0 {
        var t :| 0 <= t < n - 1 && names[t] == k;
        assert 0 <= t < n - 1 < n && names[t] == k && names[n - 1] == k;
      }
    }
  }

  /** Cells that a column receives beyond one for each row. */
  ghost function Surplus(rows: seq<CellRow>, k: Key): nat {
    if rows == [] then 0
    else
      var row := rows[|rows| - 1];
      var c := Count(row.names, |row.names|, k);
      Surplus(rows[..|rows| - 1], k) + if c > 1 then c - 1 else 0
  }

  /** No row names a column twice. */
  ghost predicate Clean(rows: seq<CellRow>) { forall r :: 0 <= r < |rows| ==> Distinct(rows[r].names) }

  /** A column receives a surplus if and only if some row names it twice. */
  lemma {:induction false} SurplusTwice(rows: seq<CellRow>, k: Key)
    ensures Surplus(rows, k) > 0 <==>
              exists r :: 0 <= r < |rows| && Count(rows[r].names, |rows[r].names|, k) > 1
    decreases |rows|
  {
    hide Count;
    if rows != [] {
      var n := |rows| - 1;
      SurplusTwice(rows[..n], k);
      assert forall r :: 0 <= r < n ==> rows[..n][r] == rows[r];
    }
  }

  /** Every column has one cell for every row, and its surplus. */
  ghost predicate AllCounted(cols: Columns, rows: seq<CellRow>) {
    forall k :: k in cols ==> cols[k].Length() == |rows| + Surplus(rows, k)
  }

  /** All columns have one cell for every row if and only if no row names a column twice. */
  lemma {:induction false} CountedExactly(cols: Columns, rows: seq<CellRow>)
    requires AllCounted(cols, rows) && forall r, k :: 0 <= r < |rows| && k in rows[r].names ==> k in cols
    ensures (forall k :: k in cols ==> cols[k].Length() == |rows|) <==> Clean(rows)
  {
    hide Count, Surplus;
    if Clean(rows) {
      forall k | k in cols ensures Surplus(rows, k) == 0 {
        SurplusTwice(rows, k);
        forall r | 0 <= r < |rows| ensures Count(rows[r].names, |rows[r].names|, k) <= 1 {
          CountTwice(rows[r].names, |rows[r].names|, k);
        }
      }
    } else {
      var r :| 0 <= r < |rows| && !Distinct(rows[r].names);
      var names := rows[r].names;
      var i, j :| 0 <= i < j < |names| && names[i] == names[j];
      CountTwice(names, |names|, names[i]);
      SurplusTwice(rows, names[i]);
    }
  }

  lemma {:induction false} SurplusNext(rows: seq<CellRow>, row: CellRow, k: Key)
    ensures var c := Count(row.names, |row.names|, k);
            Surplus(rows + [row], k) == Surplus(rows, k) + if c > 1 then c - 1 else 0
  {
    assert (rows + [row])[..|rows|] == rows;
  }

  /** A row, pushed, adds to every column as many cells as it names it. */
  lemma {:induction false} PushAllCount(cols: Columns, names: seq<Key>, cells: seq<Cell>, tiny: real, n: nat, k: Key)
    requires n <= |names| == |cells| && k in cols
    requires forall t :: 0 <= t < |names| ==> names[t] in cols && cols[names[t]].Numbers? == cells[t].Num?
    ensures PushAll(cols, names, cells, tiny, n)[k].Length() == cols[k].Length() + Count(names, n, k)
  {
    if n > 0 {
      PushAllCount(cols, names, cells, tiny, n - 1, k);
      KindsKept(cols, names, cells, tiny, n - 1);
    }
  }

  lemma {:induction false} CountedStep(cols: Columns, rows: seq<CellRow>, tiny: real, row: CellRow)
    requires AllCounted(cols, rows) && |row.names| == |row.cells|
    requires forall t :: 0 <= t < |row.names| ==>
               row.names[t] in cols && cols[row.names[t]].Numbers? == row.cells[t].Num?
    ensures var absent := set k | k in cols && k !in row.names;
            AllCounted(PadMissing(PushAll(cols, row.names, row.cells, tiny, |row.names|), absent), rows + [row])
  {
    hide PushAll, Surplus, Count;
    var absent := set k | k in cols && k !in row.names;
    var cols' := PadMissing(PushAll(cols, row.names, row.cells, tiny, |row.names|), absent);
    forall k | k in cols' ensures cols'[k].Length() == |rows| + 1 + Surplus(rows + [row], k) {
      PushAllCount(cols, row.names, row.cells, tiny, |row.names|, k);
      CountIn(row.names, |row.names|, k);
      SurplusNext(rows, row, k);
    }
  }

  // ----- conditions on a log

  /** Values of the same shape: the same columns, of the same kind. */
  ghost predicate SameShape(keys: seq<Key>, shape: seq<LogValue>, values: seq<LogValue>) {
    && |keys| <= |shape| && |keys| <= |values|
    && forall i :: 0 <= i < |keys| ==> Names(keys[i], values[i]) == Names(keys[i], shape[i])
  }

  /** Each column is of its own kind. */
  ghost predicate KindsOk(numeric: Key -> bool, keys: seq<Key>, values: seq<LogValue>) {
    && |keys| <= |values|
    && forall i, t :: 0 <= i < |keys| && 0 <= t < |Names(keys[i], values[i])| ==>
         numeric(Names(keys[i], values[i])[t]) == !values[i].Text?
  }

  lemma {:induction false} ShapeNames(keys: seq<Key>, shape: seq<LogValue>, values: seq<LogValue>, n: nat)
    requires SameShape(keys, shape, values) && n <= |keys|
    ensures RowNames(keys, values, n) == RowNames(keys, shape, n)
  {
    if n > 0 { ShapeNames(keys, shape, values, n - 1); }
  }

  lemma {:induction false} PushKind(v: LogValue, t: nat)
    requires t < |Pushes(v)|
    ensures Pushes(v)[t].Num? == !v.Text?
  {
  }

  lemma {:induction false} RowKinds(numeric: Key -> bool, keys: seq<Key>, values: seq<LogValue>, n: nat)
    requires KindsOk(numeric, keys, values) && n <= |keys|
    ensures var names, cells := RowNames(keys, values, n), RowCells(keys, values, n);
            forall t :: 0 <= t < |names| ==> numeric(names[t]) == cells[t].Num?
  {
    hide Names, Pushes;
    if n > 0 {
      RowKinds(numeric, keys, values, n - 1);
      var names, cells := RowNames(keys, values, n), RowCells(keys, values, n);
      var m := |RowNames(keys, values, n - 1)|;
      forall t | 0 <= t < |names| ensures numeric(names[t]) == cells[t].Num? {
        if t < m {
          assert names[t] == RowNames(keys, values, n - 1)[t] && cells[t] == RowCells(keys, values, n - 1)[t];
        } else {
          PushKind(values[n - 1], t - m);
          assert names[t] == Names(keys[n - 1], values[n - 1])[t - m] && cells[t] == Pushes(values[n - 1])[t - m];
        }
      }
    }
  }

  /** Value `i` fills the stretch of the row that follows the values before it. */
  lemma {:induction false} Stretch(keys: seq<Key>, values: seq<LogValue>, i: nat, n: nat)
    requires i < n <= |keys| && n <= |values|
    ensures var j, cells := |RowNames(keys, values, i)|, RowCells(keys, values, n);
            && |RowNames(keys, values, i + 1)| == j + |Names(keys[i], values[i])| <= |cells|
            && cells[j..j + |Names(keys[i], values[i])|] == Pushes(values[i])
    decreases n
  {
    hide Names, Pushes;
    if i < n - 1 { Stretch(keys, values, i, n - 1); }
  }

  // ----- what the reader keeps

  /** The columns so far are aligned with the rows so far if no row names one twice, and each is of its own kind. */
  ghost predicate ColumnsOk(cols: Columns, rows: seq<CellRow>, tiny: real, numeric: Key -> bool) {
    && (Clean(rows) ==> AllAligned(cols, rows, tiny)) && AllCounted(cols, rows)
    && (forall k :: k in cols ==> cols[k].Numbers? == numeric(k))
    && (forall r :: 0 <= r < |rows| ==> |rows[r].names| == |rows[r].cells|)
    && (forall r, n :: 0 <= r < |rows| && n in rows[r].names ==> n in cols)
  }

  /** `names` are the columns of the key list in force. */
  ghost predicate KeysOk(cols: Columns, names: seq<Key>, absent: set<Key>, sizes: seq<nat>, keys: seq<Key>,
      shape: seq<LogValue>) {
    && |sizes| == |keys| <= |shape|
    && (forall i :: 0 <= i < |keys| ==> sizes[i] == |Names(keys[i], shape[i])|)
    && names == RowNames(keys, shape, |keys|)
    && (forall t :: 0 <= t < |names| ==> names[t] in cols)
    && absent == set k | k in cols && k !in names
  }

  lemma {:induction false} AddColumn(cols: Columns, rows: seq<CellRow>, tiny: real, numeric: Key -> bool, key: Key)
    requires ColumnsOk(cols, rows, tiny, numeric) && key !in cols
    ensures ColumnsOk(cols[key := FreshColumn(numeric(key), |rows|)], rows, tiny, numeric)
  {
    hide Count, Surplus;
    forall r | 0 <= r < |rows| ensures Count(rows[r].names, |rows[r].names|, key) == 0 {
      CountIn(rows[r].names, |rows[r].names|, key);
    }
    SurplusTwice(rows, key);
  }

  lemma {:induction false} NoNames(keys: seq<Key>, values: seq<LogValue>)
    requires |keys| <= |values|
    ensures RowNames(keys, values, 0) == []
  {
  }

  lemma {:induction false} NextNames(keys: seq<Key>, values: seq<LogValue>, i: nat)
    requires i < |keys| <= |values|
    ensures RowNames(keys, values, i + 1) == RowNames(keys, values, i) + Names(keys[i], values[i])
  {
  }

  lemma {:induction false} KindAt(numeric: Key -> bool, keys: seq<Key>, values: seq<LogValue>, i: nat)
    requires KindsOk(numeric, keys, values) && i < |keys|
    ensures forall t ::
        0 <= t < |Names(keys[i], values[i])| ==> numeric(Names(keys[i], values[i])[t]) == !values[i].Text?
  {
  }

  lemma {:induction false} KeysSet(cols: Columns, sizes: seq<nat>, keys: seq<Key>, values: seq<LogValue>)
    requires |sizes| == |keys| <= |values|
    requires forall i :: 0 <= i < |keys| ==> sizes[i] == |Names(keys[i], values[i])|
    requires forall n :: n in RowNames(keys, values, |keys|) ==> n in cols
    ensures var names := RowNames(keys, values, |keys|);
            KeysOk(cols, names, (set k | k in cols && k !in names), sizes, keys, values)
  {
  }

  lemma {:induction false} NothingPushed(cols: Columns, keys: seq<Key>, values: seq<LogValue>, cells: seq<Cell>,
      tiny: real)
    requires |keys| <= |values| && |RowNames(keys, values, |keys|)| == |cells|
    requires forall t :: 0 <= t < |cells| ==> RowNames(keys, values, |keys|)[t] in cols
    ensures RowNames(keys, values, 0) == [] && PushAll(cols, RowNames(keys, values, |keys|), cells, tiny, 0) == cols
  {
  }

  /** Values of the shape in force fit its columns. */
  lemma {:induction false} FitsColumns(cols: Columns, names: seq<Key>, absent: set<Key>, sizes: seq<nat>,
      keys: seq<Key>, shape: seq<LogValue>, values: seq<LogValue>)
    requires KeysOk(cols, names, absent, sizes, keys, shape) && SameShape(keys, shape, values)
    ensures |sizes| == |keys| <= |values| && names == RowNames(keys, values, |keys|)
    ensures forall i :: 0 <= i < |keys| ==> sizes[i] == |Names(keys[i], values[i])|
    ensures forall t :: 0 <= t < |names| ==> names[t] in cols
  {
    ShapeNames(keys, shape, values, |keys|);
  }

  /** A row of the right kinds, pushed and padded, keeps what is known of the columns. */
  lemma {:induction false} ColumnsStep(cols: Columns, rows: seq<CellRow>, tiny: real, numeric: Key -> bool,
      row: CellRow)
    requires ColumnsOk(cols, rows, tiny, numeric) && |row.names| == |row.cells|
    requires forall t :: 0 <= t < |row.names| ==> row.names[t] in cols && numeric(row.names[t]) == row.cells[t].Num?
    ensures var cols' := PadMissing(PushAll(cols, row.names, row.cells, tiny, |row.names|),
                                    set k | k in cols && k !in row.names);
            cols'.Keys == cols.Keys && ColumnsOk(cols', rows + [row], tiny, numeric)
  {
    hide PushAll, AllAligned, AllCounted;
    var cols' := PadMissing(PushAll(cols, row.names, row.cells, tiny, |row.names|), set k | k in cols
        && k !in row.names);
    assert cols'.Keys == cols.Keys;
    CountedStep(cols, rows, tiny, row);
    KindsKept(cols, row.names, row.cells, tiny, |row.names|);
    var all := rows + [row];
    assert forall r :: 0 <= r < |rows| ==> all[r] == rows[r];
    if Clean(all) {
      assert Distinct(all[|rows|].names);
      RowStep(cols, rows, tiny, row);
    }
  }

  /** Pushing a record and padding the absent columns keeps everything in step. */
  lemma {:induction false} RecordStep(cols: Columns, names: seq<Key>, absent: set<Key>, sizes: seq<nat>,
      keys: seq<Key>, shape: seq<LogValue>, values: seq<LogValue>, rows: seq<CellRow>, tiny: real, numeric: Key -> bool)
    requires ColumnsOk(cols, rows, tiny, numeric) && KeysOk(cols, names, absent, sizes, keys, shape)
    requires SameShape(keys, shape, values) && KindsOk(numeric, keys, values)
    ensures var cells := RowCells(keys, values, |keys|);
            && |cells| == |names| && (forall t :: 0 <= t < |names| ==> names[t] in cols)
            && var cols' := PadMissing(PushAll(cols, names, cells, tiny, |names|), absent);
            && cols'.Keys == cols.Keys && ColumnsOk(cols', rows + [CellRow(names, cells)], tiny, numeric)
            && KeysOk(cols', names, absent, sizes, keys, shape)
  {
    hide Names, Pushes, ColumnsOk, PushAll, PadMissing, RowNames, RowCells, KindsOk, SameShape;
    FitsColumns(cols, names, absent, sizes, keys, shape, values);
    var row := CellRow(names, RowCells(keys, values, |keys|));
    RowKinds(numeric, keys, values, |keys|);
    ColumnsStep(cols, rows, tiny, numeric, row);
  }

  lemma {:induction false} KindsKept(cols: Columns, names: seq<Key>, cells: seq<Cell>, tiny: real, n: nat)
    requires n <= |names| == |cells| && forall t :: 0 <= t < |names| ==> names[t] in cols
    ensures forall k :: k in cols ==> PushAll(cols, names, cells, tiny, n)[k].Numbers? == cols[k].Numbers?
  {
    if n > 0 { KindsKept(cols, names, cells, tiny, n - 1); }
  }

  // ----- whole logs

  /** The key list in force after `n` records, and the values it came with. */
  ghost function KeyedBy(log: seq<Sample>, n: nat): Sample
    requires n <= |log|
  {
    if n == 0 then Sample([], []) else if log[n - 1].keys != [] then log[n - 1] else KeyedBy(log, n - 1)
  }

  /** Sample `r` fits the key list in force: as many values at least, of the shape that came with the keys. */
  ghost predicate RegularAt(log: seq<Sample>, r: nat, numeric: Key -> bool)
    requires r < |log|
  {
    var f := KeyedBy(log, r + 1);
    SameShape(f.keys, f.values, log[r].values) && KindsOk(numeric, f.keys, log[r].values)
  }

  ghost predicate Regular(log: seq<Sample>, numeric: Key -> bool) {
    forall r :: 0 <= r < |log| ==> RegularAt(log, r, numeric)
  }

  /** The expanded names of every key list in force are distinct. */
  ghost predicate NamesApart(log: seq<Sample>) {
    forall r :: 0 <= r < |log| ==> NamesApartAt(log, r)
  }

  ghost predicate NamesApartAt(log: seq<Sample>, r: nat)
    requires r < |log|
  {
    var keys, values := KeyedBy(log, r + 1).keys, log[r].values;
    |keys| <= |values| ==> Distinct(RowNames(keys, values, |keys|))
  }

  /** The row that record `r` stands for. */
  ghost function RowOf(log: seq<Sample>, r: nat): CellRow
    requires r < |log| && |KeyedBy(log, r + 1).keys| <= |log[r].values|
  {
    var keys := KeyedBy(log, r + 1).keys;
    CellRow(RowNames(keys, log[r].values, |keys|), RowCells(keys, log[r].values, |keys|))
  }

  /** Column `name` of a record: what its values say about it, or nothing where no key in force speaks of it. */
  ghost predicate Reports(keys: seq<Key>, values: seq<LogValue>, name: Key, numeric: bool, tiny: real, c: Cell)
    requires |keys| <= |values|
  {
    || (exists i, c' :: 0 <= i < |keys| && Label(keys[i], Narrow(values[i]), name, c') && Keeps(c', c, tiny))
    || (&& c == (if numeric then Num(NotANumber) else Str(""))
        && forall i :: 0 <= i < |keys| ==> name !in Names(keys[i], values[i]))
  }

  /** Column `name` is among those of the key list in force at record `r`. */
  ghost predicate Listed(log: seq<Sample>, r: nat, name: Key)
    requires r < |log|
  {
    var keys, values := KeyedBy(log, r + 1).keys, log[r].values;
    exists i :: 0 <= i < |keys| && i < |values| && name in Names(keys[i], values[i])
  }

  ghost predicate ReportsAt(log: seq<Sample>, r: nat, name: Key, numeric: bool, tiny: real, c: Cell)
    requires r < |log|
  {
    && |KeyedBy(log, r + 1).keys| <= |log[r].values|
    && Reports(KeyedBy(log, r + 1).keys, log[r].values, name, numeric, tiny, c)
  }

  /** The same, in terms of the values as they were logged. */
  ghost predicate Shown(keys: seq<Key>, values: seq<LogValue>, name: Key, numeric: bool, tiny: real, c: Cell)
    requires |keys| <= |values|
  {
    || (exists i, c' :: 0 <= i < |keys| && Label(keys[i], values[i], name, c') && Keeps(c', c, tiny))
    || (&& c == (if numeric then Num(NotANumber) else Str(""))
        && forall i :: 0 <= i < |keys| ==> name !in Names(keys[i], values[i]))
  }

  ghost predicate ShownAt(log: seq<Sample>, r: nat, name: Key, numeric: bool, tiny: real, c: Cell)
    requires r < |log|
  {
    && |KeyedBy(log, r + 1).keys| <= |log[r].values|
    && Shown(KeyedBy(log, r + 1).keys, log[r].values, name, numeric, tiny, c)
  }

  /** A 64-bit counter of 2^32 or more. */
  predicate Large(v: LogValue) { v.UInt64? && v.u >= 0x1_0000_0000 }

  ghost predicate LargeAt(log: seq<Sample>, r: nat, i: nat)
    requires r < |log|
  {
    i < |KeyedBy(log, r + 1).keys| && i < |log[r].values| && Large(log[r].values[i])
  }

  /** No value under a key in force is a large counter. */
  ghost predicate NoLarge(log: seq<Sample>) {
    forall r, i: nat :: 0 <= r < |log| ==> !LargeAt(log, r, i)
  }

  /** Every cell of a row comes from one of its values, and every column of a value is in the row. */
  lemma {:induction false} RowSources(keys: seq<Key>, values: seq<LogValue>, n: nat, t: nat) returns (i: nat, u: nat)
    requires n <= |keys| && n <= |values| && t < |RowNames(keys, values, n)|
    ensures i < n && u < |Names(keys[i], values[i])|
    ensures RowNames(keys, values, n)[t] == Names(keys[i], values[i])[u]
        && RowCells(keys, values, n)[t] == Pushes(values[i])[u]
  {
    hide Names, Pushes;
    var m := |RowNames(keys, values, n - 1)|;
    if t < m {
      i, u := RowSources(keys, values, n - 1, t);
    } else {
      i, u := n - 1, t - m;
    }
  }

  lemma {:induction false} RowHolds(keys: seq<Key>, values: seq<LogValue>, n: nat, i: nat, name: Key)
    requires i < n <= |keys| && n <= |values| && name in Names(keys[i], values[i])
    ensures name in RowNames(keys, values, n)
  {
    hide Names;
    if i < n - 1 { RowHolds(keys, values, n - 1, i, name); }
  }

  /** Where the columns of value `i` lie in the row. */
  lemma {:induction false} RowPlace(keys: seq<Key>, values: seq<LogValue>, n: nat, i: nat, u: nat)
    requires i < n <= |keys| && n <= |values| && u < |Names(keys[i], values[i])|
    ensures var at := |RowNames(keys, values, i)| + u;
            at < |RowNames(keys, values, i + 1)| <= |RowNames(keys, values, n)|
            && RowNames(keys, values, n)[at] == Names(keys[i], values[i])[u]
    decreases n
  {
    hide Names;
    if i < n - 1 { RowPlace(keys, values, n - 1, i, u); }
  }

  /** With distinct columns only one value speaks of a column. */
  lemma {:induction false} OneSpeaker(keys: seq<Key>, values: seq<LogValue>, i: nat, j: nat, name: Key)
    requires i < |keys| && j < |keys| <= |values| && Distinct(RowNames(keys, values, |keys|))
    requires name in Names(keys[i], values[i]) && name in Names(keys[j], values[j])
    ensures i == j
  {
    hide Names, RowNames;
    var u :| 0 <= u < |Names(keys[i], values[i])| && Names(keys[i], values[i])[u] == name;
    var w :| 0 <= w < |Names(keys[j], values[j])| && Names(keys[j], values[j])[w] == name;
    RowPlace(keys, values, |keys|, i, u);
    RowPlace(keys, values, |keys|, j, w);
    if i < j {
      RowPlace(keys, values, j, i, u);
    } else if j < i {
      RowPlace(keys, values, i, j, w);
    }
  }

  lemma {:induction false} NarrowNames(k: Key, v: LogValue)
    ensures Names(k, Narrow(v)) == Names(k, v) && (!Large(v) ==> Narrow(v) == v)
  {
  }

  /** A column of a large counter does not show what was logged. */
  lemma {:induction false} LargeHidden(keys: seq<Key>, values: seq<LogValue>, i: nat, numeric: bool, tiny: real,
      c: Cell)
    requires i < |keys| <= |values| && Distinct(RowNames(keys, values, |keys|)) && Large(values[i]) && tiny <= 1.0
    requires Reports(keys, values, keys[i], numeric, tiny, c)
    ensures !Shown(keys, values, keys[i], numeric, tiny, c)
  {
    var name, u := keys[i], values[i].u;
    assert Names(name, values[i]) == [name];
    assert name in Names(name, values[i]);
    forall j, c' | 0 <= j < |keys| && Label(keys[j], Narrow(values[j]), name, c')
      ensures c' == Integer(u % 0x1_0000_0000)
    {
      LabelledNames(keys[j], Narrow(values[j]), name, c');
      NarrowNames(keys[j], values[j]);
      OneSpeaker(keys, values, i, j, name);
    }
    forall j, c' | 0 <= j < |keys| && Label(keys[j], values[j], name, c')
      ensures c' == Integer(u)
    {
      LabelledNames(keys[j], values[j], name, c');
      OneSpeaker(keys, values, i, j, name);
    }
    hide Names, Label, Distinct, RowNames, Keeps;
    LargeApart(u, tiny, c);
  }

  lemma {:induction false} LargeApart(u: nat, tiny: real, c: Cell)
    requires u >= 0x1_0000_0000 && tiny <= 1.0
    ensures !(Keeps(Integer(u % 0x1_0000_0000), c, tiny) && Keeps(Integer(u), c, tiny))
    ensures !Keeps(Integer(u), Num(NotANumber), tiny) && !Keeps(Integer(u), Str(""), tiny)
  {
  }

  lemma {:induction false} SmallShown(keys: seq<Key>, values: seq<LogValue>, name: Key, numeric: bool, tiny: real,
      c: Cell)
    requires |keys| <= |values| && forall i :: 0 <= i < |keys| ==> !Large(values[i])
    ensures Reports(keys, values, name, numeric, tiny, c) <==> Shown(keys, values, name, numeric, tiny, c)
  {
    hide Names, Label, Keeps;
    forall i | 0 <= i < |keys| ensures Narrow(values[i]) == values[i] { NarrowNames(keys[i], values[i]); }
  }

  lemma {:induction false} RowReports(keys: seq<Key>, values: seq<LogValue>, name: Key, numeric: bool, tiny: real,
      c: Cell)
    requires |keys| <= |values|
    requires Shows(CellRow(RowNames(keys, values, |keys|), RowCells(keys, values, |keys|)), name, numeric, tiny, c)
    ensures Reports(keys, values, name, numeric, tiny, c)
  {
    hide Names, Pushes, Label, RowNames, RowCells, Stored, Keeps;
    var names, cells := RowNames(keys, values, |keys|), RowCells(keys, values, |keys|);
    if name in names {
      var t :| 0 <= t < |names| && names[t] == name && c == Stored(cells[t], tiny);
      var i, u := RowSources(keys, values, |keys|, t);
      NarrowLabelled(keys[i], values[i], u);
      StoredKeeps(cells[t], c, tiny);
      assert Label(keys[i], Narrow(values[i]), name, cells[t]) && Keeps(cells[t], c, tiny);
    } else {
      forall i | 0 <= i < |keys| ensures name !in Names(keys[i], values[i]) {
        if name in Names(keys[i], values[i]) { RowHolds(keys, values, |keys|, i, name); }
      }
    }
  }

  class LogReader {
    const tiny: real
    ghost const numeric: Key -> bool

    var ret: Columns
    var currentKeys: seq<Key>
    var emptyKeys: set<Key>
    var dataSize: seq<nat>
    var entries: nat

    ghost var rows: seq<CellRow>
    ghost var keys: seq<Key>          // key list in force
    ghost var shape: seq<LogValue>    // values recorded with it

    ghost predicate Valid()
      reads this
    {
      && entries == |rows| && ColumnsOk(ret, rows, tiny, numeric)
      && KeysOk(ret, currentKeys, emptyKeys, dataSize, keys, shape)
    }

    constructor (tiny: real, ghost numeric: Key -> bool)
      ensures Valid() && this.tiny == tiny && this.numeric == numeric && rows == [] && keys == [] && shape == []
          && ret == map[]
    {
      this.tiny, this.numeric := tiny, numeric;
      ret, currentKeys, emptyKeys, dataSize, entries := map[], [], {}, [], 0;
      rows, keys, shape := [], [], [];
    }

    method AddKey(key: Key, isNumeric: bool)
      requires entries == |rows| && ColumnsOk(ret, rows, tiny, numeric) && isNumeric == numeric(key)
      modifies this`currentKeys, this`ret
      ensures ColumnsOk(ret, rows, tiny, numeric) && currentKeys == old(currentKeys) + [key]
      ensures ret.Keys == old(ret).Keys + {key}
    {
      hide *;
      currentKeys := currentKeys + [key];
      if key !in ret {
        AddColumn(ret, rows, tiny, numeric, key);
        ret := ret[key := FreshColumn(isNumeric, entries)];
      }
    }

    /** The columns of one keyed value. */
    method AddKeys(names: seq<Key>, isNumeric: bool)
      requires entries == |rows| && ColumnsOk(ret, rows, tiny, numeric)
      requires forall t :: 0 <= t < |names| ==> isNumeric == numeric(names[t])
      modifies this`currentKeys, this`ret
      ensures ColumnsOk(ret, rows, tiny, numeric) && currentKeys == old(currentKeys) + names
      ensures ret.Keys == old(ret).Keys + set n | n in names
    {
      hide *;
      for i := 0 to |names|
        invariant ColumnsOk(ret, rows, tiny, numeric) && currentKeys == old(currentKeys) + names[..i]
        invariant ret.Keys == old(ret).Keys + set n | n in names[..i]
      {
        AddKey(names[i], isNumeric);
        assert names[..i + 1] == names[..i] + [names[i]];
      }
      assert names[..|names|] == names;
    }

    /** A record with keys: the columns in force from now on. */
    method SetKeys(r: Sample)
      requires entries == |rows| && ColumnsOk(ret, rows, tiny, numeric)
      requires KindsOk(numeric, r.keys, r.values) && |r.keys| <= |r.values|
      modifies this`ret, this`currentKeys, this`emptyKeys, this`dataSize, this`keys, this`shape
      ensures Valid() && keys == r.keys && shape == r.values
      ensures ret.Keys == old(ret).Keys + set n | n in RowNames(keys, shape, |keys|)
    {
      hide ColumnsOk, KeysOk, KindsOk, Distinct, RowNames, Names;
      ListKeys(r);
      KeysSet(ret, dataSize, r.keys, r.values);
      emptyKeys := set k | k in ret && k !in currentKeys;
      keys, shape := r.keys, r.values;
    }

    method ListKeys(r: Sample)
      requires entries == |rows| && ColumnsOk(ret, rows, tiny, numeric)
      requires KindsOk(numeric, r.keys, r.values) && |r.keys| <= |r.values|
      modifies this`ret, this`currentKeys, this`dataSize
      ensures ColumnsOk(ret, rows, tiny, numeric) && currentKeys == RowNames(r.keys, r.values, |r.keys|)
      ensures |dataSize| == |r.keys| && forall j :: 0 <= j < |r.keys| ==> dataSize[j] == |Names(r.keys[j], r.values[j])|
      ensures ret.Keys == old(ret).Keys + set n | n in currentKeys
    {
      hide *;
      currentKeys, dataSize := [], [];
      NoNames(r.keys, r.values);
      for i := 0 to |r.keys|
        invariant ColumnsOk(ret, rows, tiny, numeric) && currentKeys == RowNames(r.keys, r.values, i)
        invariant |dataSize| == i && forall j :: 0 <= j < i ==> dataSize[j] == |Names(r.keys[j], r.values[j])|
        invariant ret.Keys == old(ret).Keys + set n | n in currentKeys
      {
        var names := Names(r.keys[i], r.values[i]);
        KindAt(numeric, r.keys, r.values, i);
        AddKeys(names, !r.values[i].Text?);
        NextNames(r.keys, r.values, i);
        dataSize := dataSize + [|names|];
      }
    }

    /** The cells of one value, into the columns from position `j` on. */
    method PushCells(j: nat, cells: seq<Cell>, ghost before: Columns, ghost all: seq<Cell>)
      requires j + |cells| <= |currentKeys| == |all| && cells == all[j..j + |cells|]
      requires forall t :: 0 <= t < |currentKeys| ==> currentKeys[t] in before
      requires ret == PushAll(before, currentKeys, all, tiny, j)
      modifies this`ret
      ensures unchanged(this`currentKeys) && ret == PushAll(before, currentKeys, all, tiny, j + |cells|)
    {
      for t := 0 to |cells|
        invariant ret == PushAll(before, currentKeys, all, tiny, j + t)
      {
        var k := currentKeys[j + t];
        ret := ret[k := ret[k].Push(cells[t], tiny)];
      }
    }

    /** The values of a record, into the columns in force. */
    method PushRow(values: seq<LogValue>)
      requires |dataSize| == |keys| <= |values| && currentKeys == RowNames(keys, values, |keys|)
      requires forall i :: 0 <= i < |keys| ==> dataSize[i] == |Names(keys[i], values[i])|
      requires forall t :: 0 <= t < |currentKeys| ==> currentKeys[t] in ret
      modifies this`ret
      ensures ret == PushAll(old(ret), currentKeys, RowCells(keys, values, |keys|), tiny, |currentKeys|)
    {
      hide *;
      ghost var all := RowCells(keys, values, |keys|);
      NothingPushed(ret, keys, values, all, tiny);
      var j, sizes := 0, dataSize;
      for i := 0 to |sizes|
        invariant j == |RowNames(keys, values, i)| <= |currentKeys|
        invariant ret == PushAll(old(ret), currentKeys, all, tiny, j)
      {
        Stretch(keys, values, i, |keys|);
        var cells := Pushes(values[i]);
        assert sizes[i] == |cells|;
        PushCells(j, cells, old(ret), all);
        j := j + sizes[i];
      }
    }

    /** One record. */
    method ReadRecord(r: Sample)
      requires Valid()
      requires var f := if r.keys != [] then r else Sample(keys, shape);
               SameShape(f.keys, f.values, r.values) && KindsOk(numeric, f.keys, r.values)
      modifies this
      ensures Valid() && Sample(keys, shape) == if r.keys != [] then r else old(Sample(keys, shape))
      ensures |keys| <= |r.values|
      ensures rows == old(rows) + [CellRow(RowNames(keys, r.values, |keys|), RowCells(keys, r.values, |keys|))]
      ensures ret.Keys == old(ret).Keys + set k | k in RowNames(keys, r.values, |keys|)
    {
      hide Names, KindsOk, Distinct, RowNames, RowCells, ColumnsOk, KeysOk, PushAll, PadMissing;
      if r.keys != [] {
        SetKeys(r);
      }
      FitsColumns(ret, currentKeys, emptyKeys, dataSize, keys, shape, r.values);
      RecordStep(ret, currentKeys, emptyKeys, dataSize, keys, shape, r.values, rows, tiny, numeric);
      PushRow(r.values);
      ret := PadMissing(ret, emptyKeys);
      entries := entries + 1;
      rows := rows + [CellRow(currentKeys, RowCells(keys, r.values, |keys|))];
    }
  }

  ghost predicate RowsOf(rows: seq<CellRow>, log: seq<Sample>, n: nat)
    requires n <= |log|
  {
    && |rows| == n
    && forall r :: 0 <= r < n ==> |KeyedBy(log, r + 1).keys| <= |log[r].values| && rows[r] == RowOf(log, r)
  }

  lemma {:induction false} CellMeaning(cols: Columns, rows: seq<CellRow>, log: seq<Sample>, tiny: real,
      numeric: Key -> bool, k: Key, r: nat)
    requires ColumnsOk(cols, rows, tiny, numeric) && RowsOf(rows, log, |log|) && k in cols && r < |log| && Clean(rows)
    ensures cols[k].Length() == |log| && ReportsAt(log, r, k, numeric(k), tiny, cols[k].Get(r))
  {
    hide Names, Pushes, Label, RowNames, RowCells, Stored, Reports;
    RowReports(KeyedBy(log, r + 1).keys, log[r].values, k, numeric(k), tiny, cols[k].Get(r));
  }

  lemma {:induction false} ListedInRow(log: seq<Sample>, r: nat, k: Key)
    requires r < |log| && |KeyedBy(log, r + 1).keys| <= |log[r].values|
    ensures Listed(log, r, k) <==> k in RowOf(log, r).names
  {
    hide Names, Pushes, RowNames, RowCells;
    var keys, values := KeyedBy(log, r + 1).keys, log[r].values;
    var names := RowNames(keys, values, |keys|);
    if k in names {
      var t :| 0 <= t < |names| && names[t] == k;
      var i, u := RowSources(keys, values, |keys|, t);
    }
    if Listed(log, r, k) {
      var i :| 0 <= i < |keys| && i < |values| && k in Names(keys[i], values[i]);
      RowHolds(keys, values, |keys|, i, k);
    }
  }

  /** No row names a column twice if and only if the expanded names of every list in force are distinct. */
  lemma {:induction false} CleanApart(rows: seq<CellRow>, log: seq<Sample>)
    requires RowsOf(rows, log, |log|)
    ensures Clean(rows) <==> NamesApart(log)
  {
    hide KeyedBy, RowNames, RowCells, Distinct;
    forall r | 0 <= r < |log| ensures Distinct(rows[r].names) <==> NamesApartAt(log, r) {
      assert rows[r] == RowOf(log, r);
    }
  }

  lemma {:induction false} RowsMeaning(cols: Columns, rows: seq<CellRow>, log: seq<Sample>, tiny: real,
      numeric: Key -> bool)
    requires ColumnsOk(cols, rows, tiny, numeric) && RowsOf(rows, log, |log|)
    requires forall k :: k in cols ==> exists r :: 0 <= r < |rows| && k in rows[r].names
    ensures forall k :: k in cols ==> cols[k].Numbers? == numeric(k)
    ensures forall k :: k in cols <==> exists r :: 0 <= r < |log| && Listed(log, r, k)
    ensures (forall k :: k in cols ==> cols[k].Length() == |log|) <==> NamesApart(log)
    ensures NamesApart(log) ==>
              forall k, r :: k in cols && 0 <= r < |log| ==> ReportsAt(log, r, k, numeric(k), tiny, cols[k].Get(r))
  {
    hide KeyedBy, Listed, ReportsAt, Reports, RowOf, NamesApart, Clean, AllAligned, AllCounted;
    CountedExactly(cols, rows);
    CleanApart(rows, log);
    if NamesApart(log) {
      forall k, r | k in cols && 0 <= r < |log|
        ensures ReportsAt(log, r, k, numeric(k), tiny, cols[k].Get(r))
      {
        CellMeaning(cols, rows, log, tiny, numeric, k, r);
      }
    }
    forall r, k | 0 <= r < |log| ensures Listed(log, r, k) <==> k in rows[r].names {
      ListedInRow(log, r, k);
    }
  }

  /** Every cell of every column shows what was logged. */
  ghost predicate AllShown(cols: Columns, log: seq<Sample>, tiny: real, numeric: Key -> bool)
    requires forall k :: k in cols ==> cols[k].Length() == |log|
  {
    forall k, r :: k in cols && 0 <= r < |log| ==> ShownAt(log, r, k, numeric(k), tiny, cols[k].Get(r))
  }

  lemma {:induction false} LargeSpoils(cols: Columns, log: seq<Sample>, tiny: real, numeric: Key -> bool, r: nat,
      i: nat)
    requires forall k :: k in cols ==> cols[k].Length() == |log|
    requires r < |log| && RegularAt(log, r, numeric) && NamesApartAt(log, r) && LargeAt(log, r, i) && tiny <= 1.0
    requires forall k :: Listed(log, r, k) ==> k in cols && ReportsAt(log, r, k, numeric(k), tiny, cols[k].Get(r))
    ensures !AllShown(cols, log, tiny, numeric)
  {
    hide Label, Stored, RowNames, Distinct, Reports, Shown, KindsOk, KeyedBy;
    var f, values := KeyedBy(log, r + 1), log[r].values;
    var k := f.keys[i];
    assert Names(k, values[i]) == [k];
    assert k in Names(k, values[i]);
    assert Listed(log, r, k);
    ShapeNames(f.keys, f.values, values, |f.keys|);
    LargeHidden(f.keys, values, i, numeric(k), tiny, cols[k].Get(r));
  }

  /** The columns show what was logged if and only if no counter in force is large. */
  lemma {:induction false} ShownExactly(cols: Columns, log: seq<Sample>, tiny: real, numeric: Key -> bool)
    requires Regular(log, numeric) && NamesApart(log) && tiny <= 1.0
    requires forall k :: k in cols ==> cols[k].Length() == |log|
    requires forall k, r :: 0 <= r < |log| && Listed(log, r, k) ==> k in cols
    requires forall k, r :: k in cols && 0 <= r < |log| ==> ReportsAt(log, r, k, numeric(k), tiny, cols[k].Get(r))
    ensures AllShown(cols, log, tiny, numeric) <==> NoLarge(log)
  {
    hide Label, Stored, RowNames, Distinct, Reports, Shown, KindsOk, KeyedBy, Listed, Names, SameShape;
    forall r, i: nat | 0 <= r < |log| && LargeAt(log, r, i) ensures !AllShown(cols, log, tiny, numeric) {
      assert RegularAt(log, r, numeric) && NamesApartAt(log, r);
      LargeSpoils(cols, log, tiny, numeric, r, i);
    }
    if NoLarge(log) {
      forall k, r | k in cols && 0 <= r < |log| ensures ShownAt(log, r, k, numeric(k), tiny, cols[k].Get(r)) {
        assert ReportsAt(log, r, k, numeric(k), tiny, cols[k].Get(r));
        var keys, values := KeyedBy(log, r + 1).keys, log[r].values;
        forall i: nat | i < |keys| ensures !Large(values[i]) { assert !LargeAt(log, r, i); }
        SmallShown(keys, values, k, numeric(k), tiny, cols[k].Get(r));
      }
    }
  }

  lemma {:induction false} NoRecords(log: seq<Sample>)
    ensures KeyedBy(log, 0) == Sample([], [])
  {
  }

  lemma {:induction false} NextRecord(log: seq<Sample>, n: nat, numeric: Key -> bool)
    requires n < |log| && Regular(log, numeric)
    ensures var f := if log[n].keys != [] then log[n] else KeyedBy(log, n);
            && KeyedBy(log, n + 1) == f && SameShape(f.keys, f.values, log[n].values)
                && KindsOk(numeric, f.keys, log[n].values)
            && RowOf(log, n) == CellRow(RowNames(f.keys, log[n].values, |f.keys|), RowCells(f.keys, log[n].values,
                |f.keys|))
  {
    hide Names, KindsOk, Distinct, RowNames, RowCells;
    assert RegularAt(log, n, numeric);
  }

  /** The whole log, column by column. */
  method ReadLog(log: seq<Sample>, tiny: real, ghost numeric: Key -> bool) returns (cols: Columns)
    requires Regular(log, numeric)
    ensures forall k :: k in cols <==> exists r :: 0 <= r < |log| && Listed(log, r, k)
    ensures forall k :: k in cols ==> cols[k].Numbers? == numeric(k)
    ensures (forall k :: k in cols ==> cols[k].Length() == |log|) <==> NamesApart(log)
    ensures NamesApart(log) ==>
              forall k, r :: k in cols && 0 <= r < |log| ==> ReportsAt(log, r, k, numeric(k), tiny, cols[k].Get(r))
    ensures NamesApart(log) && tiny <= 1.0 ==> (AllShown(cols, log, tiny, numeric) <==> NoLarge(log))
  {
    hide AllShown, NoLarge, NamesApart, KeyedBy, Listed, ReportsAt, Reports, RowOf, ColumnsOk, KeysOk, Regular,
        SameShape,
        KindsOk, Distinct, RowNames, RowCells;
    var reader := new LogReader(tiny, numeric);
    NoRecords(log);
    for n := 0 to |log|
      invariant reader.Valid() && fresh(reader) && reader.tiny == tiny && reader.numeric == numeric
      invariant RowsOf(reader.rows, log, n) && Sample(reader.keys, reader.shape) == KeyedBy(log, n)
      invariant forall k :: k in reader.ret ==> exists r :: 0 <= r < n && k in reader.rows[r].names
    {
      NextRecord(log, n, numeric);
      ghost var before := reader.rows;
      reader.ReadRecord(log[n]);
      assert reader.rows[..n] == before;
    }
    cols := reader.ret;
    RowsMeaning(cols, reader.rows, log, tiny, numeric);
    if NamesApart(log) && tiny <= 1.0 { ShownExactly(cols, log, tiny, numeric); }
  }

  /** Keys whose expanded names collide: `a` with two coordinates and `a_x` both name the column `a_x`. */
  lemma {:induction false} CollidingKeys(x: Number, y: Number, d: Number)
    ensures var log := [Sample(["a", "a_x"], [Vector2d(x, y), Double(d)])];
            Regular(log, _ => true) && !NamesApart(log)
  {
    var keys, values := ["a", "a_x"], [Vector2d(x, y), Double(d)];
    var log := [Sample(keys, values)];
    assert KeyedBy(log, 1) == log[0];
    assert RegularAt(log, 0, _ => true);
    assert RowNames(keys, values, 0) == [];
    assert "a" + "_x" == "a_x" && "a" + "_y" == "a_y";
    assert RowNames(keys, values, 1) == RowNames(keys, values, 0) + Names("a", values[0]) == ["a_x", "a_y"];
    var names := RowNames(keys, values, 2);
    assert names == ["a_x", "a_y"] + ["a_x"];
    assert names[0] == names[2];
    assert !NamesApartAt(log, 0);
  }
}
