/**
 The formats of the MessagePack specification, each against its literal type bytes: what the tag layer reads is what
 the specification says, also for the forms that the writer never emits.
 */
module Formats {
  import opened Wire
  import opened Values

  /** 256 to the given power. */
  ghost function Power(k: nat): nat {
    if k == 0 then 1 else 0x100 * Power(k - 1)
  }

  /** The number that bytes spell, most significant first: every byte times its power of 256. */
  ghost function Number(s: Bytes): nat {
    if s == [] then 0 else s[0] * Power(|s| - 1) + Number(s[1..])
  }

  /** `i` is the two's complement reading of the bytes: the number in range that differs by the modulus or not. */
  ghost predicate Complement(i: int, s: Bytes) {
    var m: int, n: int := Power(|s|), Number(s);
    -m <= 2 * i < m && (i == n || i == n - m)
  }

  lemma {:induction false} Powers()
    ensures Power(0) == 1 && Power(1) == 0x100 && Power(2) == 0x1_0000 && Power(3) == 0x100_0000
    ensures Power(4) == 0x1_0000_0000 && Power(8) == 0x1_0000_0000_0000_0000
  {
    assert Power(1) == 0x100 * Power(0) && Power(2) == 0x100 * Power(1) && Power(3) == 0x100 * Power(2);
    assert Power(4) == 0x100 * Power(3) && Power(5) == 0x100 * Power(4) && Power(6) == 0x100 * Power(5);
    assert Power(7) == 0x100 * Power(6) && Power(8) == 0x100 * Power(7);
  }

  /** Numbers of twice as many bytes. */
  lemma {:induction false} NumberConcat(x: Bytes, y: Bytes)
    ensures Number(x + y) == Number(x) * Power(|y|) + Number(y)
    decreases |x|
  {
    if x == [] {
      assert x + y == y;
    } else {
      NumberConcat(x[1..], y);
      assert (x + y)[1..] == x[1..] + y;
      PowerSum(|x| - 1, |y|);
      Distribute(x[0], Power(|x| - 1), Number(x[1..]), Power(|y|));
    }
  }

  lemma {:induction false} Distribute(a: int, b: int, c: int, d: int)
    ensures (a * b + c) * d == a * (b * d) + c * d
  {
  }

  lemma {:induction false} PowerSum(a: nat, b: nat)
    ensures Power(a + b) == Power(a) * Power(b)
    decreases a
  {
    if a > 0 { PowerSum(a - 1, b); }
  }

  /** The loads read big-endian numbers. */
  lemma {:induction false} Loads(s: Bytes, k: nat)
    ensures k + 1 <= |s| ==> Number(s[k..k + 1]) == s[k]
    ensures k + 2 <= |s| ==> Load16(s, k) == Number(s[k..k + 2])
    ensures k + 4 <= |s| ==> Load32(s, k) == Number(s[k..k + 4])
    ensures k + 8 <= |s| ==> Load64(s, k) == Number(s[k..k + 8])
  {
    hide Load16, Load32, Load64, Number, Power;
    Powers();
    if k + 1 <= |s| { SingleByte(s[k]); assert s[k..k + 1] == [s[k]]; }
    if k + 2 <= |s| { Loads16(s, k); }
    if k + 4 <= |s| { Loads32(s, k); }
    if k + 8 <= |s| {
      Loads32(s, k);
      Loads32(s, k + 4);
      assert s[k..k + 8] == s[k..k + 4] + s[k + 4..k + 8];
      NumberConcat(s[k..k + 4], s[k + 4..k + 8]);
      Load64Parts(s, k);
    }
  }

  lemma {:induction false} SingleByte(b: Byte)
    ensures Number([b]) == b
  {
    assert [b][1..] == [];
  }

  lemma {:induction false} Load64Parts(s: Bytes, k: nat)
    requires k + 8 <= |s|
    ensures Load64(s, k) == Load32(s, k) * 0x1_0000_0000 + Load32(s, k + 4)
  {
  }

  lemma {:induction false} Loads16(s: Bytes, k: nat)
    requires k + 2 <= |s|
    ensures Load16(s, k) == Number(s[k..k + 2])
  {
    Powers();
    assert s[k..k + 2] == [s[k]] + [s[k + 1]];
    NumberConcat([s[k]], [s[k + 1]]);
    SingleByte(s[k]);
    SingleByte(s[k + 1]);
  }

  lemma {:induction false} Loads32(s: Bytes, k: nat)
    requires k + 4 <= |s|
    ensures Load32(s, k) == Number(s[k..k + 4])
  {
    hide Number, Power, Load16;
    Powers();
    Loads16(s, k);
    Loads16(s, k + 2);
    assert s[k..k + 4] == s[k..k + 2] + s[k + 2..k + 4];
    NumberConcat(s[k..k + 2], s[k + 2..k + 4]);
  }

  // ----- one byte

  /** Formats of a single byte, and the bytes that open none. */
  lemma {:induction false} SingleFormats(s: Bytes)
    requires s != []
    ensures 0x00 <= s[0] <= 0x7f ==> DecodeTag(s) == TagOk(Uint(s[0]), 1)
    ensures 0x80 <= s[0] <= 0x8f ==> DecodeTag(s) == TagOk(Map(s[0] - 0x80), 1)
    ensures 0x90 <= s[0] <= 0x9f ==> DecodeTag(s) == TagOk(Array(s[0] - 0x90), 1)
    ensures 0xa0 <= s[0] <= 0xbf ==> DecodeTag(s) == TagOk(Str(s[0] - 0xa0), 1)
    ensures s[0] == 0xc0 ==> DecodeTag(s) == TagOk(Nil, 1)
    ensures s[0] == 0xc1 ==> DecodeTag(s) == TagBad(Invalid)
    ensures s[0] == 0xc2 ==> DecodeTag(s) == TagOk(Bool(false), 1)
    ensures s[0] == 0xc3 ==> DecodeTag(s) == TagOk(Bool(true), 1)
    ensures 0xc7 <= s[0] <= 0xc9 || 0xd4 <= s[0] <= 0xd8 ==> DecodeTag(s) == TagBad(Unsupported)
    ensures 0xe0 <= s[0] <= 0xff ==> DecodeTag(s) == TagOk(Int(s[0] as int - 0x100), 1)
  {
  }

  // ----- several bytes

  /** Bytes of a format that has any after its type byte. */
  ghost function Width(t: Byte): nat {
    match t
    case 0xc4 => 1 case 0xc5 => 2 case 0xc6 => 4
    case 0xca => 4 case 0xcb => 8
    case 0xcc => 1 case 0xcd => 2 case 0xce => 4 case 0xcf => 8
    case 0xd0 => 1 case 0xd1 => 2 case 0xd2 => 4 case 0xd3 => 8
    case 0xd9 => 1 case 0xda => 2 case 0xdb => 4
    case 0xdc => 2 case 0xdd => 4 case 0xde => 2 case 0xdf => 4
    case _ => 0
  }

  /** A tag is cut short exactly if bytes of its format are missing. */
  lemma {:induction false} CutFormats(s: Bytes)
    ensures DecodeTag(s).TagShort? <==> s == [] || |s| < 1 + Width(s[0])
    ensures DecodeTag(s).TagOk? ==> s != [] && DecodeTag(s).size == 1 + Width(s[0])
  {
  }

  /** The lengths, numbers and counts of the wide formats are what the bytes after the type byte spell. */
  lemma {:induction false} WideFormats(s: Bytes)
    requires s != [] && 1 + Width(s[0]) <= |s|
    ensures var t, n, r := s[0], Number(s[1..1 + Width(s[0])]), DecodeTag(s);
            && (0xc4 <= t <= 0xc6 ==> r.TagOk? && r.tag.Bin? && r.tag.l == n)
            && (t == 0xca ==> r.TagOk? && r.tag.Float? && r.tag.single == n)
            && (t == 0xcb ==> r.TagOk? && r.tag.Double? && r.tag.double == n)
            && (0xcc <= t <= 0xcf ==> r.TagOk? && r.tag.Uint? && r.tag.u == n)
            && (0xd9 <= t <= 0xdb ==> r.TagOk? && r.tag.Str? && r.tag.l == n)
            && (0xdc <= t <= 0xdd ==> r.TagOk? && r.tag.Array? && r.tag.n == n)
            && (0xde <= t <= 0xdf ==> r.TagOk? && r.tag.Map? && r.tag.n == n)
  {
    hide Number, Load16, Load32, Load64;
    Loads(s, 1);
  }

  /** The signed formats are read in two's complement, whatever the sign. */
  lemma {:induction false} SignedFormats(s: Bytes)
    requires s != [] && 0xd0 <= s[0] <= 0xd3 && 1 + Width(s[0]) <= |s|
    ensures var p, r := s[1..1 + Width(s[0])], DecodeTag(s);
            && r.TagOk? && r.tag.Int? && Complement(r.tag.i, p)
            && (p[0] < 0x80 ==> r.tag.i == Number(p))
            && (p[0] >= 0x80 ==> r.tag.i == Number(p) - Power(|p|))
  {
    hide Number, Power, Load16, Load32, Load64;
    Powers();
    Loads(s, 1);
    TopBit(s[1..1 + Width(s[0])]);
  }

  /** The first byte decides on which half of the range a number lies. */
  lemma {:induction false} TopBit(p: Bytes)
    requires p != []
    ensures p[0] < 0x80 <==> 2 * Number(p) < Power(|p|)
    ensures Number(p) < Power(|p|)
  {
    hide Number, Power;
    Below(p[1..]);
    Below(p);
    Leading(p);
    var b: int, q: int := p[0], Power(|p| - 1);
    if b < 0x80 { Times(b, 0x7f, q); } else { Times(0x80, b, q); }
  }

  lemma {:induction false} Times(a: int, b: int, q: int)
    requires a <= b && q >= 0
    ensures a * q <= b * q
  {
  }

  lemma {:induction false} Leading(p: Bytes)
    requires p != []
    ensures Number(p) == p[0] * Power(|p| - 1) + Number(p[1..]) && Power(|p|) == 0x100 * Power(|p| - 1)
  {
  }

  lemma {:induction false} Below(p: Bytes)
    ensures Number(p) < Power(|p|)
    decreases |p|
  {
    if p != [] {
      hide Number, Power;
      Below(p[1..]);
      Leading(p);
      Times(p[0], 0xff, Power(|p| - 1));
    }
  }

  // ----- objects

  /** What follows a tag: the bytes of a str or bin, the elements of an array, the keys and values of a map. */
  lemma {:induction false} DecodedShape(s: Bytes, pos: nat, n: nat, v: Value)
    requires pos <= |s| && Decode(s, pos, n).Done? && v in Decode(s, pos, n).vals
    ensures |v.data| == if v.tag.Str? || v.tag.Bin? then v.tag.l else 0
    ensures |v.kids| == if v.tag.Array? then v.tag.n else if v.tag.Map? then 2 * v.tag.n else 0
  {
    DecodeWellFormed(s, pos, n);
  }
}
