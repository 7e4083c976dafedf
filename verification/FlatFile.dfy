/**
 The flat log file: how its bytes spell a list of columns, how the columns of a log are laid out, and what the
 column readers get back. A double is its eight bytes; lengths are 64-bit little-endian words.
 */
module FlatFile {

  import opened Wire
  import OldLog

  const INT_LIMIT: nat := 0x8000_0000
  const LONG_LIMIT: nat := 0x8000_0000_0000_0000

  type Eight = s: Bytes | |s| == 8 witness [0, 0, 0, 0, 0, 0, 0, 0]

  const ZERO: Eight := [0, 0, 0, 0, 0, 0, 0, 0]
  const QUIET_NAN: Eight := [0, 0, 0, 0, 0, 0, 0xf8, 0x7f]

  datatype Line = Numbers(key: Bytes, cells: seq<Eight>) | Texts(key: Bytes, texts: seq<Bytes>)

  // ----- the bytes of a file

  function Pow256(k: nat): (p: nat)
    ensures p > 0
  {
    if k == 0 then 1 else 256 * Pow256(k - 1)
  }

  function Little(n: nat, k: nat): (s: Bytes)
    ensures |s| == k
  {
    if k == 0 then [] else [n % 256] + Little(n / 256, k - 1)
  }

  function Unlittle(s: Bytes): nat {
    if s == [] then 0 else var b: int := s[0]; b + 256 * Unlittle(s[1..])
  }

  lemma {:induction false} LittleRoundTrip(n: nat, k: nat)
    requires n < Pow256(k)
    ensures Unlittle(Little(n, k)) == n
  {
    if k > 0 {
      LittleRoundTrip(n / 256, k - 1);
      assert Little(n, k)[1..] == Little(n / 256, k - 1);
    }
  }

  lemma {:induction false} UnlittleRoundTrip(s: Bytes)
    ensures Unlittle(s) < Pow256(|s|) && Little(Unlittle(s), |s|) == s
  {
    if s != [] {
      UnlittleRoundTrip(s[1..]);
      assert Unlittle(s) / 256 == Unlittle(s[1..]) && Unlittle(s) % 256 == s[0];
    }
  }

  lemma {:induction false} Pow256Eight()
    ensures Pow256(8) == 0x1_0000_0000_0000_0000
  {
  }

  function Word(n: nat): (s: Bytes)
    ensures |s| == 8
  {
    Little(n, 8)
  }

  function Flat(cells: seq<Eight>): (s: Bytes)
    ensures |s| == 8 * |cells|
  {
    if cells == [] then [] else cells[0] + Flat(cells[1..])
  }

  /** Strings, each after its length. */
  function TextImage(texts: seq<Bytes>): Bytes {
    if texts == [] then [] else Word(|texts[0]|) + texts[0] + TextImage(texts[1..])
  }

  /** What stands before the cells: kind, key and number of cells. */
  datatype Head = Head(kind: Byte, key: Bytes, count: nat)

  function HeadImage(h: Head): Bytes { [h.kind] + Word(|h.key|) + h.key + Word(h.count) }

  function HeadOf(l: Line): Head {
    match l
    case Numbers(key, cells) => Head(1, key, |cells|)
    case Texts(key, texts) => Head(0, key, |texts|)
  }

  function Body(l: Line): Bytes { if l.Numbers? then Flat(l.cells) else TextImage(l.texts) }

  function Image(l: Line): Bytes { HeadImage(HeadOf(l)) + Body(l) }

  function Images(ls: seq<Line>): Bytes {
    if ls == [] then [] else Image(ls[0]) + Images(ls[1..])
  }

  function FileImage(ls: seq<Line>): Bytes { Word(|ls|) + Images(ls) }

  /** Byte counts below the cast of the stream's write. */
  ghost predicate Castable(l: Line, limit: nat) {
    match l
    case Numbers(key, cells) => |key| < limit && 8 * |cells| < limit
    case Texts(key, texts) => |key| < limit && |texts| < LONG_LIMIT && forall i ::
        0 <= i < |texts| ==> |texts[i]| < limit
  }

  ghost predicate AllCastable(ls: seq<Line>, limit: nat) {
    |ls| < LONG_LIMIT && forall i :: 0 <= i < |ls| ==> Castable(ls[i], limit)
  }

  // ----- reading

  datatype Parsed<T> = Got(value: T, rest: Bytes) | Fail

  function ParseWord(s: Bytes): Parsed<nat> {
    if |s| < 8 then Fail else Got(Unlittle(s[..8]), s[8..])
  }

  /** A byte block after its length. */
  function ParseText(s: Bytes): Parsed<Bytes> {
    match ParseWord(s)
    case Fail => Fail
    case Got(n, r) => if |r| < n then Fail else Got(r[..n], r[n..])
  }

  function Cut(b: Bytes): (cells: seq<Eight>)
    requires |b| % 8 == 0
    ensures 8 * |cells| == |b|
  {
    if b == [] then [] else [b[..8]] + Cut(b[8..])
  }

  function ParseTexts(s: Bytes, n: nat): (p: Parsed<seq<Bytes>>)
    ensures p.Got? ==> |p.value| == n
    decreases n
  {
    if n == 0 then Got([], s)
    else match ParseText(s)
      case Fail => Fail
      case Got(t, r) => match ParseTexts(r, n - 1)
        case Fail => Fail
        case Got(ts, r') => Got([t] + ts, r')
  }

  function ParseHead(s: Bytes): Parsed<Head> {
    if s == [] || s[0] > 1 then Fail
    else match ParseText(s[1..])
      case Fail => Fail
      case Got(key, r) => match ParseWord(r)
        case Fail => Fail
        case Got(n, r') => Got(Head(s[0], key, n), r')
  }

  function ParseLine(s: Bytes): Parsed<Line> {
    match ParseHead(s)
    case Fail => Fail
    case Got(h, r) =>
      if h.kind == 1 then
        if |r| < 8 * h.count then Fail else Got(Numbers(h.key, Cut(r[..8 * h.count])), r[8 * h.count..])
      else match ParseTexts(r, h.count)
        case Fail => Fail
        case Got(ts, r') => Got(Texts(h.key, ts), r')
  }

  function ParseLines(s: Bytes, n: nat): (p: Parsed<seq<Line>>)
    ensures p.Got? ==> |p.value| == n
    decreases n
  {
    if n == 0 then Got([], s)
    else match ParseLine(s)
      case Fail => Fail
      case Got(l, r) => match ParseLines(r, n - 1)
        case Fail => Fail
        case Got(ls, r') => Got([l] + ls, r')
  }

  function ParseFile(s: Bytes): Parsed<seq<Line>> {
    match ParseWord(s)
    case Fail => Fail
    case Got(n, r) => ParseLines(r, n)
  }

  // ----- round trips: every image is read back, and only images are read

  lemma {:induction false} WordRead(n: nat, rest: Bytes)
    requires n < LONG_LIMIT
    ensures ParseWord(Word(n) + rest) == Got(n, rest)
  {
    Pow256Eight();
    LittleRoundTrip(n, 8);
    assert (Word(n) + rest)[..8] == Word(n) && (Word(n) + rest)[8..] == rest;
  }

  lemma {:induction false} WordExact(s: Bytes)
    requires ParseWord(s).Got?
    ensures s == Word(ParseWord(s).value) + ParseWord(s).rest
  {
    UnlittleRoundTrip(s[..8]);
    assert s == s[..8] + s[8..];
  }

  lemma {:induction false} TextRead(t: Bytes, rest: Bytes)
    requires |t| < LONG_LIMIT
    ensures ParseText(Word(|t|) + t + rest) == Got(t, rest)
  {
    hide Word, ParseWord;
    WordRead(|t|, t + rest);
    assert Word(|t|) + t + rest == Word(|t|) + (t + rest);
    assert (t + rest)[..|t|] == t && (t + rest)[|t|..] == rest;
  }

  lemma {:induction false} TextExact(s: Bytes)
    requires ParseText(s).Got?
    ensures var p := ParseText(s); s == Word(|p.value|) + p.value + p.rest
  {
    hide Word, ParseWord;
    WordExact(s);
    var w := ParseWord(s);
    assert w.rest == w.rest[..w.value] + w.rest[w.value..];
  }

  lemma {:induction false} CutFlat(cells: seq<Eight>)
    ensures Cut(Flat(cells)) == cells
  {
    if cells != [] {
      CutFlat(cells[1..]);
      assert Flat(cells)[..8] == cells[0] && Flat(cells)[8..] == Flat(cells[1..]);
    }
  }

  lemma {:induction false} FlatCut(b: Bytes)
    requires |b| % 8 == 0
    ensures Flat(Cut(b)) == b
  {
    if b != [] {
      FlatCut(b[8..]);
      assert Cut(b)[1..] == Cut(b[8..]) && b == b[..8] + b[8..];
    }
  }

  lemma {:induction false} TextsRead(ts: seq<Bytes>, rest: Bytes)
    requires forall i :: 0 <= i < |ts| ==> |ts[i]| < LONG_LIMIT
    ensures ParseTexts(TextImage(ts) + rest, |ts|) == Got(ts, rest)
  {
    hide Word, ParseText;
    if ts == [] {
      assert TextImage(ts) + rest == rest;
    } else {
      TextRead(ts[0], TextImage(ts[1..]) + rest);
      TextsRead(ts[1..], rest);
      assert ts == [ts[0]] + ts[1..];
      assert TextImage(ts) + rest == Word(|ts[0]|) + ts[0] + (TextImage(ts[1..]) + rest);
    }
  }

  lemma {:induction false} TextsExact(s: Bytes, n: nat)
    requires ParseTexts(s, n).Got?
    ensures s == TextImage(ParseTexts(s, n).value) + ParseTexts(s, n).rest
    decreases n
  {
    hide Word, ParseText;
    if n > 0 {
      TextExact(s);
      var p := ParseText(s);
      TextsExact(p.rest, n - 1);
      assert ParseTexts(s, n).value[1..] == ParseTexts(p.rest, n - 1).value;
    }
  }

  lemma {:induction false} HeadRead(h: Head, rest: Bytes)
    requires h.kind <= 1 && |h.key| < LONG_LIMIT && h.count < LONG_LIMIT
    ensures ParseHead(HeadImage(h) + rest) == Got(h, rest)
  {
    hide Word, ParseText, ParseWord;
    var s := HeadImage(h) + rest;
    assert s[1..] == Word(|h.key|) + h.key + (Word(h.count) + rest);
    TextRead(h.key, Word(h.count) + rest);
    WordRead(h.count, rest);
  }

  lemma {:induction false} HeadExact(s: Bytes)
    requires ParseHead(s).Got?
    ensures s == HeadImage(ParseHead(s).value) + ParseHead(s).rest && ParseHead(s).value.kind <= 1
  {
    hide Word, ParseText, ParseWord;
    TextExact(s[1..]);
    WordExact(ParseText(s[1..]).rest);
    assert s == [s[0]] + s[1..];
  }

  lemma {:induction false} LineRead(l: Line, rest: Bytes)
    requires Castable(l, LONG_LIMIT)
    ensures ParseLine(Image(l) + rest) == Got(l, rest)
  {
    hide HeadImage, ParseHead, ParseTexts, TextImage, Flat, Cut;
    HeadRead(HeadOf(l), Body(l) + rest);
    assert Image(l) + rest == HeadImage(HeadOf(l)) + (Body(l) + rest);
    if l.Numbers? {
      CutFlat(l.cells);
      assert (Body(l) + rest)[..8 * |l.cells|] == Body(l) && (Body(l) + rest)[8 * |l.cells|..] == rest;
    } else {
      TextsRead(l.texts, rest);
    }
  }

  lemma {:induction false} LineExact(s: Bytes)
    requires ParseLine(s).Got?
    ensures s == Image(ParseLine(s).value) + ParseLine(s).rest
  {
    hide HeadImage, ParseHead, ParseTexts, TextImage, Flat, Cut;
    HeadExact(s);
    var h, r := ParseHead(s).value, ParseHead(s).rest;
    if h.kind == 1 {
      FlatCut(r[..8 * h.count]);
      assert r == r[..8 * h.count] + r[8 * h.count..];
    } else {
      TextsExact(r, h.count);
    }
  }

  lemma {:induction false} LinesRead(ls: seq<Line>, rest: Bytes)
    requires forall i :: 0 <= i < |ls| ==> Castable(ls[i], LONG_LIMIT)
    ensures ParseLines(Images(ls) + rest, |ls|) == Got(ls, rest)
  {
    hide ParseLine, Image, Castable;
    if ls == [] {
      assert Images(ls) + rest == rest;
    } else {
      LineRead(ls[0], Images(ls[1..]) + rest);
      LinesRead(ls[1..], rest);
      assert ls == [ls[0]] + ls[1..];
      assert Images(ls) + rest == Image(ls[0]) + (Images(ls[1..]) + rest);
    }
  }

  lemma {:induction false} LinesExact(s: Bytes, n: nat)
    requires ParseLines(s, n).Got?
    ensures s == Images(ParseLines(s, n).value) + ParseLines(s, n).rest
    decreases n
  {
    hide ParseLine, Image;
    if n > 0 {
      LineExact(s);
      LinesExact(ParseLine(s).rest, n - 1);
      assert ParseLines(s, n).value[1..] == ParseLines(ParseLine(s).rest, n - 1).value;
    }
  }

  lemma {:induction false} FileRoundTrip(ls: seq<Line>, rest: Bytes)
    requires AllCastable(ls, LONG_LIMIT)
    ensures ParseFile(FileImage(ls) + rest) == Got(ls, rest)
  {
    hide Word, ParseWord, ParseLines, Images, Castable;
    WordRead(|ls|, Images(ls) + rest);
    LinesRead(ls, rest);
    assert FileImage(ls) + rest == Word(|ls|) + (Images(ls) + rest);
  }

  lemma {:induction false} FileExact(s: Bytes)
    requires ParseFile(s).Got?
    ensures s == FileImage(ParseFile(s).value) + ParseFile(s).rest
  {
    hide Word, ParseWord, ParseLines, Images;
    WordExact(s);
    LinesExact(ParseWord(s).rest, ParseWord(s).value);
  }

  /** The columns of a flat file as its lines are read: one line after the other from what is left of the stream. */
  class Input {
    var rest: Bytes

    constructor (s: Bytes)
      ensures rest == s
    {
      rest := s;
    }

    /** A read of `n` bytes fails when fewer are left. */
    method Take(n: nat) returns (ok: bool, b: Bytes)
      modifies this
      ensures ok == (n <= |old(rest)|)
      ensures if ok then b == old(rest)[..n] && rest == old(rest)[n..] else rest == old(rest)
    {
      ok, b := n <= |rest|, [];
      if ok { b, rest := rest[..n], rest[n..]; }
    }

    method ReadWord() returns (ok: bool, n: nat)
      modifies this
      ensures if ok then ParseWord(old(rest)) == Got(n, rest) else ParseWord(old(rest)) == Fail
    {
      var b;
      ok, b := Take(8);
      n := Unlittle(b);
    }

    method ReadText() returns (ok: bool, t: Bytes)
      modifies this
      ensures if ok then ParseText(old(rest)) == Got(t, rest) else ParseText(old(rest)) == Fail
    {
      hide ParseWord;
      var n;
      t := [];
      ok, n := ReadWord();
      if ok { ok, t := Take(n); }
    }

    method ReadTexts(n: nat) returns (ok: bool, ts: seq<Bytes>)
      modifies this
      ensures if ok then ParseTexts(old(rest), n) == Got(ts, rest) else ParseTexts(old(rest), n) == Fail
    {
      hide ParseText, ParseTexts;
      ts, ok := [], true;
      PrependNone(ParseTexts(rest, n));
      for i := 0 to n
        invariant ok && |ts| == i && ParseTexts(old(rest), n) == Prepend(ts, ParseTexts(rest, n - i))
      {
        var t;
        TextsStep(rest, n - i);
        ok, t := ReadText();
        if !ok { return; }
        PrependOne(ts, t, ParseTexts(rest, n - i - 1));
        ts := ts + [t];
      }
      TextsStep(rest, 0);
      assert ts + [] == ts;
    }

    method ReadHead() returns (ok: bool, h: Head)
      modifies this
      ensures if ok then ParseHead(old(rest)) == Got(h, rest) else ParseHead(old(rest)) == Fail
    {
      hide ParseText, ParseWord;
      var kind, key, n;
      h := Head(0, [], 0);
      ok, kind := Take(1);
      ok := ok && kind[0] <= 1;
      if ok {
        ok, key := ReadText();
        if ok {
          ok, n := ReadWord();
          h := Head(kind[0], key, n);
        }
      }
    }

    /** A column: its kind, then what the reader of that kind takes. */
    method ReadLine() returns (ok: bool, l: Line)
      modifies this
      ensures if ok then ParseLine(old(rest)) == Got(l, rest) else ParseLine(old(rest)) == Fail
    {
      hide ParseHead, ParseTexts, Cut;
      var h, b, ts;
      l := Texts([], []);
      ok, h := ReadHead();
      if ok && h.kind == 1 {
        ok, b := Take(8 * h.count);
        if ok { l := Numbers(h.key, Cut(b)); }
      } else if ok {
        ok, ts := ReadTexts(h.count);
        l := Texts(h.key, ts);
      }
    }

    method ReadFile() returns (ok: bool, ls: seq<Line>)
      modifies this
      ensures if ok then ParseFile(old(rest)) == Got(ls, rest) else ParseFile(old(rest)) == Fail
      ensures ok ==> old(rest) == FileImage(ls) + rest
      ensures forall ls', rest' :: AllCastable(ls', LONG_LIMIT) && old(rest) == FileImage(ls') + rest' ==>
          ok && ls == ls'
    {
      hide ParseWord, ParseLine, ParseLines, FileImage, AllCastable;
      ls := [];
      var n;
      forall ls', rest' | AllCastable(ls', LONG_LIMIT) && rest == FileImage(ls') + rest'
        ensures ParseFile(rest) == Got(ls', rest')
      {
        FileRoundTrip(ls', rest');
      }
      if ParseFile(rest).Got? { FileExact(rest); }
      ok, n := ReadWord();
      if !ok { return; }
      ghost var start := rest;
      PrependNone(ParseLines(rest, n));
      for i := 0 to n
        invariant ok && |ls| == i && ParseLines(start, n) == Prepend(ls, ParseLines(rest, n - i))
      {
        var l;
        LinesStep(rest, n - i);
        ok, l := ReadLine();
        if !ok { return; }
        PrependOne(ls, l, ParseLines(rest, n - i - 1));
        ls := ls + [l];
      }
      LinesStep(rest, 0);
      assert ls + [] == ls;
    }
  }

  /** A parse continued after `xs`. */
  function Prepend<T>(xs: seq<T>, p: Parsed<seq<T>>): Parsed<seq<T>> {
    if p.Got? then Got(xs + p.value, p.rest) else Fail
  }

  lemma {:induction false} PrependNone<T>(p: Parsed<seq<T>>)
    ensures Prepend([], p) == p
  {
    if p.Got? { assert [] + p.value == p.value; }
  }

  lemma {:induction false} PrependOne<T>(xs: seq<T>, x: T, p: Parsed<seq<T>>)
    ensures Prepend(xs, Prepend([x], p)) == Prepend(xs + [x], p)
  {
    if p.Got? { assert xs + ([x] + p.value) == (xs + [x]) + p.value; }
  }

  lemma {:induction false} TextsStep(s: Bytes, n: nat)
    ensures ParseTexts(s, n) == if n == 0 then Got([], s) else match ParseText(s)
              case Fail => Fail
              case Got(t, r) => Prepend([t], ParseTexts(r, n - 1))
  {
  }

  lemma {:induction false} LinesStep(s: Bytes, n: nat)
    ensures ParseLines(s, n) == if n == 0 then Got([], s) else match ParseLine(s)
              case Fail => Fail
              case Got(l, r) => Prepend([l], ParseLines(r, n - 1))
  {
  }

  // ----- the columns of a log

  datatype Option<T> = None | Some(value: T)

  /** Types of log entries; the scalar types differ only in what stands for a missing value. */
  datatype LogType =
    | Scalar(floating: bool) | Quaterniond | Vector2d | Vector3d | Vector6d | PTransformd | ForceVecd | MotionVecd
    | VectorXd | VectorDouble | NoType
  {
    predicate Ragged() { VectorXd? || VectorDouble? }
  }

  /** An entry of a log, row by row; a row may be missing. */
  datatype Entry = NumberEntry(name: Bytes, t: LogType, rows: seq<Option<seq<Eight>>>) | TextEntry(name: Bytes,
      texts: seq<Option<Bytes>>)

  function Ascii(s: string): Bytes { seq(|s|, i requires 0 <= i < |s| => s[i] as int % 0x100) }

  function Suffixes(t: LogType): seq<string> {
    match t
    case Scalar(_) => [""]
    case Quaterniond => ["_w", "_x", "_y", "_z"]
    case Vector2d => ["_x", "_y"]
    case Vector3d => ["_x", "_y", "_z"]
    case Vector6d => ["_0", "_1", "_2", "_3", "_4", "_5"]
    case PTransformd => ["_qw", "_qx", "_qy", "_qz", "_tx", "_ty", "_tz"]
    case ForceVecd => ["_cx", "_cy", "_cz", "_fx", "_fy", "_fz"]
    case MotionVecd => ["_wx", "_wy", "_wz", "_vx", "_vy", "_vz"]
    case _ => []
  }

  /** Rows of a fixed type have its number of components. */
  ghost predicate EntryOk(e: Entry) {
    e.NumberEntry? && !e.t.Ragged() ==>
      forall i :: 0 <= i < |e.rows| && e.rows[i].Some? ==> |e.rows[i].value| == |Suffixes(e.t)|
  }

  function CellAt(row: Option<seq<Eight>>, j: nat, missing: Eight): Eight {
    if row.Some? && j < |row.value| then row.value[j] else missing
  }

  /** Component `j` of every row. */
  function Column(rows: seq<Option<seq<Eight>>>, j: nat, missing: Eight): (c: seq<Eight>)
    ensures |c| == |rows| && forall i :: 0 <= i < |rows| ==> c[i] == CellAt(rows[i], j, missing)
  {
    seq(|rows|, i requires 0 <= i < |rows| => CellAt(rows[i], j, missing))
  }

  /** `m` is the length of the longest row. */
  ghost predicate IsLongest(rows: seq<Option<seq<Eight>>>, m: nat) {
    && (forall i :: 0 <= i < |rows| && rows[i].Some? ==> |rows[i].value| <= m)
    && (m == 0 || exists i :: 0 <= i < |rows| && rows[i].Some? && |rows[i].value| == m)
  }

  /** A missing integer or boolean is written as zero: their types have no NaN. */
  function MissingOf(t: LogType): Eight { if t == Scalar(false) then ZERO else QUIET_NAN }

  function TextOf(t: Option<Bytes>): Bytes { if t.Some? then t.value else [] }

  /** Column `j` of an entry. */
  function LineOf(e: Entry, j: nat): Line {
    match e
    case TextEntry(name, texts) => Texts(name, seq(|texts|, i requires 0 <= i < |texts| => TextOf(texts[i])))
    case NumberEntry(name, t, rows) =>
      var suffix := if j < |Suffixes(t)| then Suffixes(t)[j] else "_" + OldLog.Decimal(j);
      Numbers(name + Ascii(suffix), Column(rows, j, MissingOf(t)))
  }

  function SizeOf(row: Option<seq<Eight>>): nat { if row.Some? then |row.value| else 0 }

  function Longest(rows: seq<Option<seq<Eight>>>, n: nat): nat
    requires n <= |rows|
  {
    if n == 0 then 0
    else var m := Longest(rows, n - 1); if SizeOf(rows[n - 1]) > m then SizeOf(rows[n - 1]) else m
  }

  lemma {:induction false} LongestBounds(rows: seq<Option<seq<Eight>>>, n: nat)
    requires n <= |rows|
    ensures forall i :: 0 <= i < n ==> SizeOf(rows[i]) <= Longest(rows, n)
    ensures Longest(rows, n) == 0 || exists i :: 0 <= i < n && SizeOf(rows[i]) == Longest(rows, n)
  {
    if n > 0 { LongestBounds(rows, n - 1); }
  }

  lemma {:induction false} LongestRow(rows: seq<Option<seq<Eight>>>)
    ensures IsLongest(rows, Longest(rows, |rows|))
  {
    LongestBounds(rows, |rows|);
    var m := Longest(rows, |rows|);
    if m > 0 {
      var i :| 0 <= i < |rows| && SizeOf(rows[i]) == m;
      assert rows[i].Some?;
    }
  }

  /** The number of columns of an entry. */
  function Width(e: Entry): nat {
    match e
    case TextEntry(_, _) => 1
    case NumberEntry(_, t, rows) => if t.Ragged() then Longest(rows, |rows|) else |Suffixes(t)|
  }

  function LinesOf(e: Entry): seq<Line> { seq(Width(e), j requires 0 <= j => LineOf(e, j)) }

  function AllLines(es: seq<Entry>, n: nat): seq<Line>
    requires n <= |es|
  {
    if n == 0 then [] else AllLines(es, n - 1) + LinesOf(es[n - 1])
  }

  /** No element of a row is lost: it stands in the column of its index, at its row. */
  lemma {:induction false} EveryCell(e: Entry, i: nat, j: nat)
    requires e.NumberEntry? && EntryOk(e) && i < |e.rows| && e.rows[i].Some? && j < |e.rows[i].value|
    ensures j < |LinesOf(e)| && LinesOf(e)[j].Numbers? && |LinesOf(e)[j].cells| == |e.rows|
    ensures LinesOf(e)[j].cells[i] == e.rows[i].value[j]
  {
    LongestRow(e.rows);
  }

  // ----- ragged transposition

  function Slot(j: nat, n: nat, i: nat): nat { j * n + i }

  lemma {:induction false} SlotBounds(j: nat, n: nat, i: nat, m: nat)
    requires j < m && i < n
    ensures Slot(j, n, i) < m * n
  {
    assert (j + 1) * n <= m * n;
  }

  lemma {:induction false} SlotInjective(j: nat, i: nat, j': nat, i': nat, n: nat)
    requires i < n && i' < n && Slot(j, n, i) == Slot(j', n, i')
    ensures j == j' && i == i'
  {
    if j < j' {
      SlotBounds(j, n, i, j');
    } else if j' < j {
      SlotBounds(j', n, i', j);
    }
  }

  /** The cells of the rows before `i`, and of row `i` before column `k`, are in place. */
  ghost predicate Filled(v: seq<Eight>, rows: seq<Option<seq<Eight>>>, m: nat, i: nat, k: nat) {
    && |v| == m * |rows|
    && forall j: nat, r: nat :: j < m && r < |rows| && (r < i || (r == i && j < k)) ==>
         Slot(j, |rows|, r) < |v| && v[Slot(j, |rows|, r)] == CellAt(rows[r], j, QUIET_NAN)
  }

  lemma {:induction false} FilledStep(v: seq<Eight>, rows: seq<Option<seq<Eight>>>, m: nat, i: nat, k: nat)
    requires Filled(v, rows, m, i, k) && i < |rows| && k < m
    ensures Slot(k, |rows|, i) < |v|
        && Filled(v[Slot(k, |rows|, i) := CellAt(rows[i], k, QUIET_NAN)], rows, m, i, k + 1)
  {
    var n := |rows|;
    SlotBounds(k, n, i, m);
    var v' := v[Slot(k, n, i) := CellAt(rows[i], k, QUIET_NAN)];
    forall j: nat, r: nat | j < m && r < n && (r < i || (r == i && j < k + 1))
      ensures Slot(j, n, r) < |v'| && v'[Slot(j, n, r)] == CellAt(rows[r], j, QUIET_NAN)
    {
      if Slot(j, n, r) == Slot(k, n, i) {
        SlotInjective(j, r, k, i, n);
      } else {
        SlotBounds(j, n, r, m);
      }
    }
  }

  lemma {:induction false} NoneFilled(v: seq<Eight>, rows: seq<Option<seq<Eight>>>, m: nat)
    requires |v| == m * |rows|
    ensures Filled(v, rows, m, 0, 0)
  {
  }

  lemma {:induction false} FilledRow(v: seq<Eight>, rows: seq<Option<seq<Eight>>>, m: nat, i: nat)
    requires Filled(v, rows, m, i, m)
    ensures Filled(v, rows, m, i + 1, 0)
  {
  }

  /** A filled buffer holds the columns one after the other. */
  lemma {:induction false} FilledColumn(v: seq<Eight>, rows: seq<Option<seq<Eight>>>, m: nat, j: nat)
    requires Filled(v, rows, m, |rows|, 0) && j < m
    ensures j * |rows| + |rows| <= |v| && v[j * |rows|..j * |rows| + |rows|] == Column(rows, j, QUIET_NAN)
  {
    hide CellAt;
    var n := |rows|;
    if n > 0 { SlotBounds(j, n, n - 1, m); }
    forall r: nat | r < n ensures v[Slot(j, n, 0) + r] == CellAt(rows[r], j, QUIET_NAN) {
      assert Slot(j, n, r) == Slot(j, n, 0) + r;
    }
  }

  method RowSizes(rows: seq<Option<seq<Eight>>>) returns (maxS: nat)
    ensures maxS == Longest(rows, |rows|)
  {
    maxS := 0;
    for i := 0 to |rows|
      invariant maxS == Longest(rows, i)
    {
      if rows[i].Some? {
        maxS := if |rows[i].value| > maxS then |rows[i].value| else maxS;
      }
    }
  }

  /** The rows of a ragged entry, transposed into one buffer. */
  method Transpose(rows: seq<Option<seq<Eight>>>) returns (maxS: nat, vec: array<Eight>)
    ensures fresh(vec) && maxS == Longest(rows, |rows|) && Filled(vec[..], rows, maxS, |rows|, 0)
  {
    hide Filled, Longest;
    maxS := RowSizes(rows);
    var n := |rows|;
    vec := new Eight[maxS * n](_ => ZERO);
    NoneFilled(vec[..], rows, maxS);
    LongestBounds(rows, n);
    for i := 0 to n
      invariant Filled(vec[..], rows, maxS, i, 0)
    {
      var vSize := 0;
      if rows[i].Some? {
        vSize := |rows[i].value|;
        for j := 0 to vSize
          invariant Filled(vec[..], rows, maxS, i, j)
        {
          FilledStep(vec[..], rows, maxS, i, j);
          vec[j * n + i] := rows[i].value[j];
        }
      }
      for j := vSize to maxS
        invariant Filled(vec[..], rows, maxS, i, j)
      {
        FilledStep(vec[..], rows, maxS, i, j);
        vec[j * n + i] := QUIET_NAN;
      }
      FilledRow(vec[..], rows, maxS, i);
    }
  }

  // ----- writing

  lemma {:induction false} TextImageConcat(a: seq<Bytes>, t: Bytes)
    ensures TextImage(a + [t]) == TextImage(a) + (Word(|t|) + t)
  {
    hide Word;
    if a == [] {
      assert [] + [t] == [t] && [t][1..] == [];
      assert TextImage([]) == [];
    } else {
      TextImageConcat(a[1..], t);
      assert (a + [t])[1..] == a[1..] + [t];
    }
  }

  lemma {:induction false} ImagesStep(a: seq<Line>)
    requires a != []
    ensures Images(a) == Image(a[0]) + Images(a[1..])
  {
  }

  lemma {:induction false} ImagesConcat(a: seq<Line>, b: seq<Line>)
    ensures Images(a + b) == Images(a) + Images(b)
    decreases |a|
  {
    hide Image, Images;
    if a == [] {
      NoLines();
      assert a + b == b;
    } else {
      ImagesConcat(a[1..], b);
      ImagesStep(a);
      ImagesStep(a + b);
      assert (a + b)[1..] == a[1..] + b;
    }
  }

  lemma {:induction false} ImagesOne(a: seq<Line>, l: Line)
    ensures Images(a + [l]) == Images(a) + Image(l)
  {
    ImagesConcat(a, [l]);
    assert [l][1..] == [];
    assert Images([l]) == Image(l) + Images([]);
  }

  class Output {
    var bytes: Bytes

    constructor ()
      ensures bytes == []
    {
      bytes := [];
    }

    /** The stream's own write, whose byte count is cast to an integer type. */
    method Put(b: Bytes, ghost limit: nat)
      requires |b| < limit
      modifies this
      ensures bytes == old(bytes) + b
    {
      bytes := bytes + b;
    }

    method PutHead(key: Bytes, numeric: bool, count: nat, ghost limit: nat)
      requires |key| < limit
      modifies this
      ensures bytes == old(bytes) + HeadImage(Head(if numeric then 1 else 0, key, count))
    {
      hide Word;
      Put([if numeric then 1 else 0], 2);
      Put(Word(|key|), 9);
      Put(key, limit);
      Put(Word(count), 9);
    }

    method PutNumbers(key: Bytes, cells: seq<Eight>, ghost limit: nat)
      requires Castable(Numbers(key, cells), limit)
      modifies this
      ensures bytes == old(bytes) + Image(Numbers(key, cells))
    {
      hide HeadImage, Flat;
      PutHead(key, true, |cells|, limit);
      Put(Flat(cells), limit);
    }

    method PutTexts(key: Bytes, texts: seq<Bytes>, ghost limit: nat)
      requires Castable(Texts(key, texts), limit)
      modifies this
      ensures bytes == old(bytes) + Image(Texts(key, texts))
    {
      hide HeadImage, TextImage, Word;
      PutHead(key, false, |texts|, limit);
      ghost var start := bytes;
      NoTexts();
      for i := 0 to |texts|
        invariant bytes == start + TextImage(texts[..i])
      {
        TextImageConcat(texts[..i], texts[i]);
        assert texts[..i + 1] == texts[..i] + [texts[i]];
        Put(Word(|texts[i]|), 9);
        Put(texts[i], limit);
      }
      assert texts[..|texts|] == texts;
    }

    /** Columns as they are, in the order given, after their number. */
    method PutLines(ls: seq<Line>)
      requires AllCastable(ls, LONG_LIMIT)
      modifies this
      ensures bytes == old(bytes) + FileImage(ls)
    {
      hide Word, Image, Images, Castable;
      Put(Word(|ls|), 9);
      ghost var start := bytes;
      NoLines();
      for i := 0 to |ls|
        invariant bytes == start + Images(ls[..i])
      {
        ImagesOne(ls[..i], ls[i]);
        assert ls[..i + 1] == ls[..i] + [ls[i]];
        assert Castable(ls[i], LONG_LIMIT);
        match ls[i] {
          case Numbers(key, cells) => PutNumbers(key, cells, LONG_LIMIT);
          case Texts(key, texts) => PutTexts(key, texts, LONG_LIMIT);
        }
      }
      assert ls[..|ls|] == ls;
    }

    /** A ragged entry: the transposed buffer, one column after the other. */
    method PutRagged(name: Bytes, t: LogType, rows: seq<Option<seq<Eight>>>)
      requires t.Ragged() && AllCastable(LinesOf(NumberEntry(name, t, rows)), INT_LIMIT)
      modifies this
      ensures bytes == old(bytes) + Images(LinesOf(NumberEntry(name, t, rows)))
    {
      hide *;
      ghost var e := NumberEntry(name, t, rows);
      ghost var ls := LinesOf(e);
      var maxS, vec := Transpose(rows);
      ghost var v := vec[..];
      NoLines();
      RaggedLines(name, t, rows);
      for j := 0 to maxS
        invariant vec[..] == v && bytes == old(bytes) + Images(ls[..j])
      {
        CastableAt(ls, j, INT_LIMIT);
        FilledColumn(vec[..], rows, maxS, j);
        PutNumbers(name + Ascii("_" + OldLog.Decimal(j)), vec[j * |rows|..j * |rows| + |rows|], INT_LIMIT);
        ImagesOne(ls[..j], ls[j]);
        assert ls[..j + 1] == ls[..j] + [ls[j]];
      }
      assert ls[..maxS] == ls;
    }

    /** An entry of a fixed type: a column for every component. */
    method PutFixed(name: Bytes, t: LogType, rows: seq<Option<seq<Eight>>>)
      requires !t.Ragged() && EntryOk(NumberEntry(name, t, rows))
          && AllCastable(LinesOf(NumberEntry(name, t, rows)), INT_LIMIT)
      modifies this
      ensures bytes == old(bytes) + Images(LinesOf(NumberEntry(name, t, rows)))
    {
      hide *;
      ghost var ls := LinesOf(NumberEntry(name, t, rows));
      var suffixes := Suffixes(t);
      NoLines();
      FixedLines(name, t, rows);
      for j := 0 to |suffixes|
        invariant bytes == old(bytes) + Images(ls[..j])
      {
        CastableAt(ls, j, INT_LIMIT);
        var column := FillColumn(rows, j, MissingOf(t));
        PutNumbers(name + Ascii(suffixes[j]), column, INT_LIMIT);
        ImagesOne(ls[..j], ls[j]);
        assert ls[..j + 1] == ls[..j] + [ls[j]];
      }
      assert ls[..|suffixes|] == ls;
    }

    method PutEntry(e: Entry)
      requires EntryOk(e) && AllCastable(LinesOf(e), INT_LIMIT)
      modifies this
      ensures bytes == old(bytes) + Images(LinesOf(e))
    {
      hide Image, Images, AllCastable, Castable, EntryOk, LinesOf;
      match e {
        case TextEntry(name, texts) =>
          var column := seq(|texts|, i requires 0 <= i < |texts| => TextOf(texts[i]));
          NoLines();
          TextLines(name, texts, column);
          CastableAt(LinesOf(e), 0, INT_LIMIT);
          PutTexts(name, column, INT_LIMIT);
          ImagesOne([], LinesOf(e)[0]);
        case NumberEntry(name, t, rows) =>
          if t.Ragged() { PutRagged(name, t, rows); } else { PutFixed(name, t, rows); }
      }
    }

    /** The whole log: the number of columns, then the columns of every entry. */
    method Convert(es: seq<Entry>)
      requires forall k :: 0 <= k < |es| ==> EntryOk(es[k])
      requires AllCastable(AllLines(es, |es|), INT_LIMIT) && bytes == []
      modifies this
      ensures bytes == FileImage(AllLines(es, |es|)) && ParseFile(bytes) == Got(AllLines(es, |es|), [])
    {
      hide *;
      ghost var ls := AllLines(es, |es|);
      var count := CountColumns(es);
      Put(Word(count), 9);
      NoEntries(es);
      for k := 0 to |es|
        invariant bytes == Word(count) + Images(AllLines(es, k))
      {
        NextEntry(es, k, INT_LIMIT);
        PutEntry(es[k]);
        ImagesConcat(AllLines(es, k), LinesOf(es[k]));
      }
      FileOf(ls);
    }
  }

  /** Component `j` of rows that all have it. */
  method FillColumn(rows: seq<Option<seq<Eight>>>, j: nat, missing: Eight) returns (column: seq<Eight>)
    requires forall i :: 0 <= i < |rows| && rows[i].Some? ==> j < |rows[i].value|
    ensures column == Column(rows, j, missing)
  {
    var x := new Eight[|rows|](_ => missing);
    for i := 0 to |rows|
      invariant forall r :: 0 <= r < i ==> x[r] == CellAt(rows[r], j, missing)
      invariant forall r :: i <= r < |rows| ==> x[r] == missing
    {
      if rows[i].Some? { x[i] := rows[i].value[j]; }
    }
    column := x[..];
  }

  /** The leading count: as many as there are columns. */
  method CountColumns(es: seq<Entry>) returns (s: nat)
    ensures s == |AllLines(es, |es|)|
  {
    s := 0;
    for k := 0 to |es|
      invariant s == |AllLines(es, k)|
    {
      var w := EntrySize(es[k]);
      s := s + w;
    }
  }

  method EntrySize(e: Entry) returns (s: nat)
    ensures s == |LinesOf(e)|
  {
    match e {
      case TextEntry(_, _) => s := 1;
      case NumberEntry(_, t, rows) =>
        match t {
          case Scalar(_) => s := 1;
          case Quaterniond => s := 4;
          case Vector2d => s := 2;
          case Vector3d => s := 3;
          case Vector6d => s := 6;
          case PTransformd => s := 7;
          case ForceVecd => s := 6;
          case MotionVecd => s := 6;
          case VectorXd => s := RowSizes(rows);
          case VectorDouble => s := RowSizes(rows);
          case NoType => s := 0;
        }
    }
  }

  lemma {:induction false} RaggedLines(name: Bytes, t: LogType, rows: seq<Option<seq<Eight>>>)
    requires t.Ragged()
    ensures var ls := LinesOf(NumberEntry(name, t, rows));
            && |ls| == Longest(rows, |rows|)
            && forall j :: 0 <= j < |ls| ==>
                 ls[j] == Numbers(name + Ascii("_" + OldLog.Decimal(j)), Column(rows, j, QUIET_NAN))
  {
  }

  lemma {:induction false} FixedLines(name: Bytes, t: LogType, rows: seq<Option<seq<Eight>>>)
    requires !t.Ragged() && EntryOk(NumberEntry(name, t, rows))
    ensures var ls := LinesOf(NumberEntry(name, t, rows));
            && |ls| == |Suffixes(t)|
            && forall j :: 0 <= j < |ls|
                ==> ls[j] == Numbers(name + Ascii(Suffixes(t)[j]), Column(rows, j, MissingOf(t)))
    ensures forall i :: 0 <= i < |rows| && rows[i].Some? ==> |rows[i].value| == |Suffixes(t)|
  {
  }

  lemma {:induction false} TextLines(name: Bytes, texts: seq<Option<Bytes>>, column: seq<Bytes>)
    requires |column| == |texts| && forall i :: 0 <= i < |texts| ==> column[i] == TextOf(texts[i])
    ensures LinesOf(TextEntry(name, texts)) == [Texts(name, column)] == [] + [Texts(name, column)]
  {
    var e := TextEntry(name, texts);
    assert LinesOf(e)[0].texts == column;
  }

  lemma {:induction false} CastableAt(ls: seq<Line>, j: nat, limit: nat)
    requires AllCastable(ls, limit) && j < |ls|
    ensures Castable(ls[j], limit)
  {
  }

  lemma {:induction false} NoEntries(es: seq<Entry>)
    ensures AllLines(es, 0) == [] && Images([]) == []
  {
  }

  lemma {:induction false} NextEntry(es: seq<Entry>, k: nat, limit: nat)
    requires k < |es| && AllCastable(AllLines(es, |es|), limit)
    ensures AllLines(es, k + 1) == AllLines(es, k) + LinesOf(es[k]) && AllCastable(LinesOf(es[k]), limit)
  {
    hide LinesOf, Castable;
    LinesWithin(es, k + 1, |es|);
    var ls := AllLines(es, |es|);
    forall j | 0 <= j < |LinesOf(es[k])| ensures Castable(LinesOf(es[k])[j], limit) {
      assert ls[|AllLines(es, k)| + j] == AllLines(es, k + 1)[|AllLines(es, k)| + j] == LinesOf(es[k])[j];
    }
  }

  lemma {:induction false} LinesWithin(es: seq<Entry>, k: nat, n: nat)
    requires k <= n <= |es|
    ensures AllLines(es, k) <= AllLines(es, n)
    decreases n
  {
    hide LinesOf;
    if k < n { LinesWithin(es, k, n - 1); }
  }

  lemma {:induction false} FileOf(ls: seq<Line>)
    requires AllCastable(ls, INT_LIMIT)
    ensures ParseFile(Word(|ls|) + Images(ls)) == Got(ls, []) && FileImage(ls) == Word(|ls|) + Images(ls)
  {
    hide ParseFile, Images, Word;
    FileRoundTrip(ls, []);
    assert FileImage(ls) + [] == FileImage(ls);
  }

  lemma {:induction false} NoTexts()
    ensures TextImage([]) == []
  {
  }

  lemma {:induction false} NoLines()
    ensures Images([]) == []
  {
  }
}
