/**
 The converter from the old binary format, end to end: read a log into columns, write the columns to a flat file.
 How a number is laid out in eight bytes is left open: any rendering will do.
 */
module OldConvert {
  import opened Wire
  import opened LogKeys
  import OldLog
  import FlatFile

  /** The record written for a column. */
  function LineOf(k: Key, col: OldLog.Column, render: OldLog.Number -> FlatFile.Eight): FlatFile.Line {
    match col
    case Numbers(nums) =>
      FlatFile.Numbers(FlatFile.Ascii(k), seq(|nums|, i requires 0 <= i < |nums| => render(nums[i])))
    case Texts(texts) =>
      FlatFile.Texts(FlatFile.Ascii(k), seq(|texts|, i requires 0 <= i < |texts| => FlatFile.Ascii(texts[i])))
  }

  /** The record of a column: its key, and its cells one by one. */
  ghost predicate Spells(line: FlatFile.Line, k: Key, col: OldLog.Column, render: OldLog.Number -> FlatFile.Eight) {
    match col
    case Numbers(nums) =>
      && line.Numbers? && line.key == FlatFile.Ascii(k) && |line.cells| == |nums|
      && forall i :: 0 <= i < |nums| ==> line.cells[i] == render(nums[i])
    case Texts(texts) =>
      && line.Texts? && line.key == FlatFile.Ascii(k) && |line.texts| == |texts|
      && forall i :: 0 <= i < |texts| ==> line.texts[i] == FlatFile.Ascii(texts[i])
  }

  /** The file holds one record for every column, in some order. */
  ghost predicate Holds(lines: seq<FlatFile.Line>, order: seq<Key>, cols: OldLog.Columns,
      render: OldLog.Number -> FlatFile.Eight) {
    && |lines| == |order| == |cols|
    && (forall k :: k in cols <==> k in order)
    && (forall i, j :: 0 <= i < j < |order| ==> order[i] != order[j])
    && forall i :: 0 <= i < |order| ==> order[i] in cols && Spells(lines[i], order[i], cols[order[i]], render)
  }

  /** Every name that the first `n` records list. */
  ghost function AllNames(log: seq<OldLog.Sample>, n: nat): set<Key>
    requires n <= |log|
  {
    if n == 0 then {}
    else
      var keys, values := OldLog.KeyedBy(log, n).keys, log[n - 1].values;
      AllNames(log, n - 1) +
      if |keys| <= |values| then set k | k in OldLog.RowNames(keys, values, |keys|) else {}
  }

  lemma {:induction false} NamesListed(log: seq<OldLog.Sample>, numeric: Key -> bool, n: nat, k: Key)
    requires n <= |log| && OldLog.Regular(log, numeric)
    ensures k in AllNames(log, n) <==> exists r :: 0 <= r < n && OldLog.Listed(log, r, k)
  {
    hide OldLog.Listed, OldLog.RowNames, OldLog.RowCells, OldLog.KeyedBy, OldLog.KindsOk, OldLog.Distinct, OldLog.Names;
    if n > 0 {
      NamesListed(log, numeric, n - 1, k);
      assert OldLog.RegularAt(log, n - 1, numeric);
      OldLog.ListedInRow(log, n - 1, k);
    }
  }

  /** Counts and lengths that the stream's write can take. */
  ghost predicate Writable(log: seq<OldLog.Sample>) {
    && 8 * |log| < FlatFile.LONG_LIMIT && |AllNames(log, |log|)| < FlatFile.LONG_LIMIT
    && (forall k :: k in AllNames(log, |log|) ==> |k| < FlatFile.LONG_LIMIT)
    && forall r, i :: 0 <= r < |log| && 0 <= i < |log[r].values| && log[r].values[i].Text? ==>
         |log[r].values[i].s| < FlatFile.LONG_LIMIT
  }

  /** What reading a log promises of its columns. */
  ghost predicate ReadFrom(cols: OldLog.Columns, log: seq<OldLog.Sample>, tiny: real, numeric: Key -> bool) {
    && (forall k :: k in cols <==> exists r :: 0 <= r < |log| && OldLog.Listed(log, r, k))
    && (forall k :: k in cols ==> cols[k].Length() == |log| && cols[k].Numbers? == numeric(k))
    && forall k, r :: k in cols && 0 <= r < |log| ==> OldLog.ReportsAt(log, r, k, numeric(k), tiny, cols[k].Get(r))
  }

  lemma {:induction false} ColumnNames(cols: OldLog.Columns, log: seq<OldLog.Sample>, tiny: real, numeric: Key -> bool)
    requires ReadFrom(cols, log, tiny, numeric) && OldLog.Regular(log, numeric)
    ensures cols.Keys == AllNames(log, |log|) && |cols| == |AllNames(log, |log|)|
  {
    hide AllNames, OldLog.Listed, OldLog.ReportsAt, OldLog.Regular;
    forall k ensures k in cols <==> k in AllNames(log, |log|) { NamesListed(log, numeric, |log|, k); }
    assert cols.Keys == AllNames(log, |log|);
  }

  /** A text cell is empty or was logged. */
  lemma {:induction false} TextLogged(log: seq<OldLog.Sample>, r: nat, k: Key, numeric: bool, tiny: real,
      c: OldLog.Cell)
    requires r < |log| && OldLog.ReportsAt(log, r, k, numeric, tiny, c) && c.Str?
    ensures c.s == "" || exists i :: 0 <= i < |log[r].values| && log[r].values[i] == OldLog.Text(c.s)
  {
    hide OldLog.Names, OldLog.KeyedBy;
    var keys, values := OldLog.KeyedBy(log, r + 1).keys, log[r].values;
    if i, c' :|
        0 <= i < |keys| && OldLog.Label(keys[i], OldLog.Narrow(values[i]), k, c') && OldLog.Keeps(c', c, tiny) {
      assert values[i] == OldLog.Text(c.s);
    }
  }

  lemma {:induction false} LineFits(cols: OldLog.Columns, log: seq<OldLog.Sample>, tiny: real, numeric: Key -> bool,
      k: Key, line: FlatFile.Line, render: OldLog.Number -> FlatFile.Eight)
    requires ReadFrom(cols, log, tiny, numeric) && OldLog.Regular(log, numeric) && Writable(log) && k in cols
    requires Spells(line, k, cols[k], render)
    ensures FlatFile.Castable(line, FlatFile.LONG_LIMIT)
  {
    hide AllNames, OldLog.ReportsAt, OldLog.Listed, OldLog.Regular;
    ColumnNames(cols, log, tiny, numeric);
    if cols[k].Texts? {
      forall r | 0 <= r < |log| ensures |cols[k].texts[r]| < FlatFile.LONG_LIMIT {
        TextLogged(log, r, k, numeric(k), tiny, cols[k].Get(r));
      }
    }
  }

  /** Reads a log and writes its columns, in whatever order; reading the file gives every column back. */
  method Convert(log: seq<OldLog.Sample>, tiny: real, render: OldLog.Number -> FlatFile.Eight,
      ghost numeric: Key -> bool)
    returns (bytes: Bytes, cols: OldLog.Columns, ghost order: seq<Key>, ghost lines: seq<FlatFile.Line>)
    requires OldLog.Regular(log, numeric) && OldLog.NamesApart(log) && Writable(log)
    ensures ReadFrom(cols, log, tiny, numeric) && Holds(lines, order, cols, render)
    ensures FlatFile.ParseFile(bytes) == FlatFile.Got(lines, [])
  {
    hide OldLog.Regular, OldLog.NamesApart, OldLog.Listed, OldLog.ReportsAt, OldLog.AllShown, OldLog.NoLarge;
    cols := OldLog.ReadLog(log, tiny, numeric);
    assert ReadFrom(cols, log, tiny, numeric);
    var ls;
    ls, order := Lines(cols, render);
    lines := ls;
    LinesFit(cols, log, tiny, numeric, ls, order, render);
    var out := new FlatFile.Output();
    out.PutLines(ls);
    bytes := out.bytes;
    assert FlatFile.FileImage(ls) + [] == FlatFile.FileImage(ls)
        && [] + FlatFile.FileImage(ls) == FlatFile.FileImage(ls);
    FlatFile.FileRoundTrip(ls, []);
  }

  lemma {:induction false} LinesFit(cols: OldLog.Columns, log: seq<OldLog.Sample>, tiny: real, numeric: Key -> bool,
                                    lines: seq<FlatFile.Line>, order: seq<Key>, render: OldLog.Number -> FlatFile.Eight)
    requires ReadFrom(cols, log, tiny, numeric) && OldLog.Regular(log, numeric) && Writable(log)
    requires Holds(lines, order, cols, render)
    ensures FlatFile.AllCastable(lines, FlatFile.LONG_LIMIT)
  {
    hide AllNames, OldLog.ReportsAt, OldLog.Listed, OldLog.Regular, FlatFile.Castable, Spells;
    ColumnNames(cols, log, tiny, numeric);
    forall i | 0 <= i < |lines| ensures FlatFile.Castable(lines[i], FlatFile.LONG_LIMIT) {
      LineFits(cols, log, tiny, numeric, order[i], lines[i], render);
    }
  }

  lemma {:induction false} LineSpells(k: Key, col: OldLog.Column, render: OldLog.Number -> FlatFile.Eight)
    ensures Spells(LineOf(k, col, render), k, col, render)
  {
  }

  /** The columns one after the other, in no particular order. */
  method Lines(cols: OldLog.Columns, render: OldLog.Number -> FlatFile.Eight) returns (lines: seq<FlatFile.Line>,
      ghost order: seq<Key>)
    ensures Holds(lines, order, cols, render)
  {
    hide LineOf, Spells;
    var rest := cols.Keys;
    lines, order := [], [];
    while rest != {}
      invariant rest <= cols.Keys && |lines| == |order| && |order| + |rest| == |cols|
      invariant forall k :: k in cols <==> k in order || k in rest
      invariant forall i :: 0 <= i < |order| ==> order[i] in cols && order[i] !in rest
      invariant forall i, j :: 0 <= i < j < |order| ==> order[i] != order[j]
      invariant forall i :: 0 <= i < |order| ==> Spells(lines[i], order[i], cols[order[i]], render)
    {
      var k :| k in rest;
      LineSpells(k, cols[k], render);
      lines, order, rest := lines + [LineOf(k, cols[k], render)], order + [k], rest - {k};
    }
  }
}
