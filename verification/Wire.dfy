/**
 The MessagePack tag layer of MPack: which byte strings denote which tag, which
 byte string the writer emits for a tag, and the order on tags.

 Bytes and machine integers are ranges of `int`; floats and doubles are opaque bit
 patterns. Masks and shifts of the C code appear as `/` and `%` by powers of two.
 */
module Wire {

  type Byte = x: int | 0 <= x < 0x100
  type U16 = x: int | 0 <= x < 0x1_0000
  type U32 = x: int | 0 <= x < 0x1_0000_0000
  type U64 = x: int | 0 <= x < 0x1_0000_0000_0000_0000
  type I64 = x: int | -0x8000_0000_0000_0000 <= x < 0x8000_0000_0000_0000

  type Bytes = seq<Byte>

  /** Error states shared by trees, readers and writers. */
  datatype Error = Ok | Io | Invalid | Unsupported | TooBig | Bug

  datatype Tag =
    | Nil
    | Bool(b: bool)
    | Int(i: I64)
    | Uint(u: U64)
    | Float(single: U32)
    | Double(double: U64)
    | Str(l: U32)
    | Bin(l: U32)
    | Array(n: U32)
    | Map(n: U32)

  /** Bytes of raw contents that follow the tag. */
  function PayloadLen(t: Tag): nat {
    if t.Str? || t.Bin? then t.l else 0
  }

  /** Objects that follow the tag. */
  function KidCount(t: Tag): nat {
    match t
    case Array(n) => n
    case Map(n) => 2 * n
    case _ => 0
  }

  // ----- big-endian loads and stores

  function Store16(x: U16): (s: Bytes) { [x / 0x100, x % 0x100] }

  function Store32(x: U32): (s: Bytes) { Store16(x / 0x1_0000) + Store16(x % 0x1_0000) }

  function Store64(x: U64): (s: Bytes) { Store32(x / 0x1_0000_0000) + Store32(x % 0x1_0000_0000) }

  function Load16(s: Bytes, k: nat): U16
    requires k + 2 <= |s|
  {
    var hi: int, lo: int := s[k], s[k + 1];
    hi * 0x100 + lo
  }

  function Load32(s: Bytes, k: nat): U32
    requires k + 4 <= |s|
  {
    var hi: int, lo: int := Load16(s, k), Load16(s, k + 2);
    hi * 0x1_0000 + lo
  }

  function Load64(s: Bytes, k: nat): U64
    requires k + 8 <= |s|
  {
    var hi: int, lo: int := Load32(s, k), Load32(s, k + 4);
    hi * 0x1_0000_0000 + lo
  }

  /** Two's complement reading of an unsigned value of the given modulus, and its inverse. */
  function Signed(x: int, modulus: int): int {
    if x < modulus / 2 then x else x - modulus
  }

  function Unsigned(x: int, modulus: int): int {
    if x < 0 then x + modulus else x
  }

  // ----- decoding

  predicate IsExt(t: Byte) { 0xc7 <= t <= 0xc9 || 0xd4 <= t <= 0xd8 }

  /** Type bytes the default build understands: neither the reserved byte nor an extension. */
  predicate Supported(t: Byte) { t != 0xc1 && !IsExt(t) }

  /** Size of the tag announced by a type byte, the type byte included. */
  function TagSize(t: Byte): (n: nat)
    requires Supported(t)
    ensures 1 <= n <= 9
  {
    if t < 0xc4 || 0xe0 <= t then 1
    else if t in {0xc4, 0xcc, 0xd0, 0xd9} then 2
    else if t in {0xc5, 0xcd, 0xd1, 0xda, 0xdc, 0xde} then 3
    else if t in {0xcb, 0xcf, 0xd3} then 9
    else 5
  }

  /** The tag at the front of `s`, which holds all of it. */
  function LoadTag(s: Bytes): Tag
    requires |s| > 0 && Supported(s[0]) && TagSize(s[0]) <= |s|
  {
    var t := s[0];
    if t < 0x80 then Uint(t)
    else if t < 0x90 then Map(t % 0x10)
    else if t < 0xa0 then Array(t % 0x10)
    else if t < 0xc0 then Str(t % 0x20)
    else if t == 0xc0 then Nil
    else if t <= 0xc3 then Bool(t == 0xc3)
    else if t == 0xc4 then Bin(s[1])
    else if t == 0xc5 then Bin(Load16(s, 1))
    else if t == 0xc6 then Bin(Load32(s, 1))
    else if t == 0xca then Float(Load32(s, 1))
    else if t == 0xcb then Double(Load64(s, 1))
    else if t == 0xcc then Uint(s[1])
    else if t == 0xcd then Uint(Load16(s, 1))
    else if t == 0xce then Uint(Load32(s, 1))
    else if t == 0xcf then Uint(Load64(s, 1))
    else if t == 0xd0 then Int(Signed(s[1], 0x100))
    else if t == 0xd1 then Int(Signed(Load16(s, 1), 0x1_0000))
    else if t == 0xd2 then Int(Signed(Load32(s, 1), 0x1_0000_0000))
    else if t == 0xd3 then Int(Signed(Load64(s, 1), 0x1_0000_0000_0000_0000))
    else if t == 0xd9 then Str(s[1])
    else if t == 0xda then Str(Load16(s, 1))
    else if t == 0xdb then Str(Load32(s, 1))
    else if t == 0xdc then Array(Load16(s, 1))
    else if t == 0xdd then Array(Load32(s, 1))
    else if t == 0xde then Map(Load16(s, 1))
    else if t == 0xdf then Map(Load32(s, 1))
    else Int(Signed(t, 0x100))
  }

  datatype TagResult =
    | TagOk(tag: Tag, size: nat)
    | TagShort
    | TagBad(error: Error)

  /** What a byte string starts with: a whole tag, a cut tag, or a byte that opens no tag. */
  function DecodeTag(s: Bytes): (r: TagResult)
    ensures r.TagOk? ==> 1 <= r.size <= 9 && r.size <= |s|
    ensures r.TagBad? ==> r.error != Ok
  {
    if |s| == 0 then TagShort
    else if s[0] == 0xc1 then TagBad(Invalid)
    else if IsExt(s[0]) then TagBad(Unsupported)
    else if |s| < TagSize(s[0]) then TagShort
    else TagOk(LoadTag(s), TagSize(s[0]))
  }

  /** A verdict other than "cut short" is final: appending bytes does not change it. */
  lemma {:induction false} DecodeTagStable(s: Bytes, more: Bytes)
    ensures !DecodeTag(s).TagShort? ==> DecodeTag(s + more) == DecodeTag(s)
  {
  }

  // ----- encoding

  function EncodeUint(u: U64): Bytes {
    if u <= 127 then [u]
    else if u < 0x100 then [0xcc, u]
    else if u < 0x1_0000 then [0xcd] + Store16(u)
    else if u < 0x1_0000_0000 then [0xce] + Store32(u)
    else [0xcf] + Store64(u)
  }

  function EncodeInt(i: I64): Bytes {
    if i >= -32 then
      if i <= 127 then [Unsigned(i, 0x100)]
      else if i < 0x100 then [0xcc, i]
      else if i < 0x1_0000 then [0xcd] + Store16(i)
      else if i < 0x1_0000_0000 then [0xce] + Store32(i)
      else [0xcf] + Store64(i)
    else if i >= -0x80 then [0xd0, Unsigned(i, 0x100)]
    else if i >= -0x8000 then [0xd1] + Store16(Unsigned(i, 0x1_0000))
    else if i >= -0x8000_0000 then [0xd2] + Store32(Unsigned(i, 0x1_0000_0000))
    else [0xd3] + Store64(Unsigned(i, 0x1_0000_0000_0000_0000))
  }

  function EncodeStr(l: U32): Bytes {
    if l <= 31 then [0xa0 + l]
    else if l < 0x100 then [0xd9, l]
    else if l < 0x1_0000 then [0xda] + Store16(l)
    else [0xdb] + Store32(l)
  }

  function EncodeBin(l: U32): Bytes {
    if l < 0x100 then [0xc4, l]
    else if l < 0x1_0000 then [0xc5] + Store16(l)
    else [0xc6] + Store32(l)
  }

  function EncodeArray(n: U32): Bytes {
    if n <= 15 then [0x90 + n]
    else if n < 0x1_0000 then [0xdc] + Store16(n)
    else [0xdd] + Store32(n)
  }

  function EncodeMap(n: U32): Bytes {
    if n <= 15 then [0x80 + n]
    else if n < 0x1_0000 then [0xde] + Store16(n)
    else [0xdf] + Store32(n)
  }

  /** The bytes the writer emits for a tag. */
  function EncodeTag(t: Tag): (s: Bytes)
    ensures 1 <= |s| <= 9
  {
    match t
    case Nil => [0xc0]
    case Bool(b) => [if b then 0xc3 else 0xc2]
    case Int(i) => EncodeInt(i)
    case Uint(u) => EncodeUint(u)
    case Float(f) => [0xca] + Store32(f)
    case Double(d) => [0xcb] + Store64(d)
    case Str(l) => EncodeStr(l)
    case Bin(l) => EncodeBin(l)
    case Array(n) => EncodeArray(n)
    case Map(n) => EncodeMap(n)
  }

  // ----- the order on tags

  /** Non-negative signed integers are read back as unsigned ones. */
  function Canon(t: Tag): Tag {
    if t.Int? && t.i >= 0 then Uint(t.i) else t
  }

  function Rank(t: Tag): nat {
    match t
    case Nil => 1 case Bool(_) => 2 case Int(_) => 3 case Uint(_) => 4 case Float(_) => 5
    case Double(_) => 6 case Str(_) => 7 case Bin(_) => 8 case Array(_) => 9 case Map(_) => 10
  }

  function Compare(x: int, y: int): int { if x == y then 0 else if x < y then -1 else 1 }

  /** Lexicographic comparison of two memory blocks of one size. */
  function MemCmp(x: Bytes, y: Bytes): int
    requires |x| == |y|
  {
    if x == [] then 0
    else if x[0] != y[0] then x[0] - y[0]
    else MemCmp(x[1..], y[1..])
  }

  /** In-memory image of a float or double on a little-endian host. */
  function Image16(x: U16): Bytes { [x % 0x100, x / 0x100] }
  function Image32(x: U32): (s: Bytes) ensures |s| == 4 { Image16(x % 0x1_0000) + Image16(x / 0x1_0000) }
  function Image64(x: U64): (s: Bytes) ensures |s| == 8 { Image32(x % 0x1_0000_0000) + Image32(x / 0x1_0000_0000) }

  function TagCmp(left: Tag, right: Tag): int {
    var l, r := Canon(left), Canon(right);
    if Rank(l) != Rank(r) then if Rank(l) < Rank(r) then -1 else 1
    else match l
      case Nil => 0
      case Bool(b) => (if b then 1 else 0) - (if r.b then 1 else 0)
      case Int(i) => Compare(i, r.i)
      case Uint(u) => Compare(u, r.u)
      case Float(f) => MemCmp(Image32(f), Image32(r.single))
      case Double(d) => MemCmp(Image64(d), Image64(r.double))
      case Str(k) => Compare(k, r.l)
      case Bin(k) => Compare(k, r.l)
      case Array(k) => Compare(k, r.n)
      case Map(k) => Compare(k, r.n)
  }

  lemma {:induction false} MemCmpOrder(x: Bytes, y: Bytes, z: Bytes)
    requires |x| == |y| == |z|
    ensures MemCmp(x, y) == 0 <==> x == y
    ensures MemCmp(x, y) < 0 <==> MemCmp(y, x) > 0
    ensures MemCmp(x, y) <= 0 && MemCmp(y, z) <= 0 ==> MemCmp(x, z) <= 0
    decreases |x|
  {
    if x != [] {
      MemCmpOrder(x[1..], y[1..], z[1..]);
      assert x == [x[0]] + x[1..] && y == [y[0]] + y[1..];
    }
  }

  lemma {:induction false} ImageInjective32(x: U32, y: U32)
    requires Image32(x) == Image32(y)
    ensures x == y
  {
    var p, q := Image32(x), Image32(y);
    assert p[0] == q[0] && p[1] == q[1] && p[2] == q[2] && p[3] == q[3];
  }

  lemma {:induction false} ImageInjective64(x: U64, y: U64)
    requires Image64(x) == Image64(y)
    ensures x == y
  {
    var p, q := Image64(x), Image64(y);
    assert p[..4] == Image32(x % 0x1_0000_0000) && q[..4] == Image32(y % 0x1_0000_0000);
    assert p[4..] == Image32(x / 0x1_0000_0000) && q[4..] == Image32(y / 0x1_0000_0000);
    ImageInjective32(x % 0x1_0000_0000, y % 0x1_0000_0000);
    ImageInjective32(x / 0x1_0000_0000, y / 0x1_0000_0000);
  }

  /** `TagCmp` is a total preorder whose equivalence is "same tag, up to the sign of the type". */
  lemma {:induction false} TagCmpOrder(x: Tag, y: Tag, z: Tag)
    ensures TagCmp(x, y) == 0 <==> Canon(x) == Canon(y)
    ensures TagCmp(x, y) < 0 <==> TagCmp(y, x) > 0
    ensures TagCmp(x, y) <= 0 && TagCmp(y, z) <= 0 ==> TagCmp(x, z) <= 0
  {
    var a, b, c := Canon(x), Canon(y), Canon(z);
    if a.Float? && b.Float? {
      MemCmpOrder(Image32(a.single), Image32(b.single), if c.Float? then Image32(c.single) else Image32(0));
      if Image32(a.single) == Image32(b.single) { ImageInjective32(a.single, b.single); }
    } else if a.Double? && b.Double? {
      MemCmpOrder(Image64(a.double), Image64(b.double), if c.Double? then Image64(c.double) else Image64(0));
      if Image64(a.double) == Image64(b.double) { ImageInjective64(a.double, b.double); }
    }
  }

  /** The value of an integer tag. */
  function IntegerOf(t: Tag): int
    requires t.Int? || t.Uint?
  {
    if t.Int? then t.i else t.u
  }

  /** Memory blocks are ordered by the first byte in which they differ. */
  lemma {:induction false} MemCmpSign(x: Bytes, y: Bytes)
    requires |x| == |y|
    ensures MemCmp(x, y) < 0 <==> exists k :: 0 <= k < |x| && x[..k] == y[..k] && x[k] < y[k]
    decreases |x|
  {
    if x != [] {
      var u, v := x[1..], y[1..];
      MemCmpSign(u, v);
      if x[0] == y[0] && MemCmp(u, v) < 0 {
        var k :| 0 <= k < |u| && u[..k] == v[..k] && u[k] < v[k];
        assert x[..k + 1] == [x[0]] + u[..k] && y[..k + 1] == [y[0]] + v[..k] && x[k + 1] < y[k + 1];
      } else if x[0] < y[0] {
        assert x[..0] == y[..0] && x[0] < y[0];
      }
      if k :| 0 <= k < |x| && x[..k] == y[..k] && x[k] < y[k] {
        if k > 0 {
          assert x[0] == x[..k][0] == y[..k][0] == y[0];
          assert u[..k - 1] == x[..k][1..] == y[..k][1..] == v[..k - 1] && u[k - 1] < v[k - 1];
        }
      }
    }
  }

  /** Smaller comes first: integers by value whatever their sign and type, lengths, counts, and false before true. */
  lemma {:induction false} TagCmpSign(x: Tag, y: Tag)
    ensures x.Bool? && y.Bool? ==> (TagCmp(x, y) < 0 <==> !x.b && y.b)
    ensures (x.Int? || x.Uint?) && (y.Int? || y.Uint?) ==> (TagCmp(x, y) < 0 <==> IntegerOf(x) < IntegerOf(y))
    ensures (x.Str? && y.Str?) || (x.Bin? && y.Bin?) ==> (TagCmp(x, y) < 0 <==> x.l < y.l)
    ensures (x.Array? && y.Array?) || (x.Map? && y.Map?) ==> (TagCmp(x, y) < 0 <==> x.n < y.n)
    ensures x.Float? && y.Float? ==>
              var a, b := Image32(x.single), Image32(y.single);
              (TagCmp(x, y) < 0 <==> exists k :: 0 <= k < 4 && a[..k] == b[..k] && a[k] < b[k])
    ensures x.Double? && y.Double? ==>
              var a, b := Image64(x.double), Image64(y.double);
              (TagCmp(x, y) < 0 <==> exists k :: 0 <= k < 8 && a[..k] == b[..k] && a[k] < b[k])
  {
    if x.Float? && y.Float? { MemCmpSign(Image32(x.single), Image32(y.single)); }
    if x.Double? && y.Double? { MemCmpSign(Image64(x.double), Image64(y.double)); }
  }

  /** Tags of different types come in the order nil, bool, integer, float, double, str, bin, array, map. */
  lemma {:induction false} TagCmpTypes(x: Tag, y: Tag)
    ensures x.Nil? && !y.Nil? ==> TagCmp(x, y) < 0
    ensures x.Bool? && !(y.Nil? || y.Bool?) ==> TagCmp(x, y) < 0
    ensures (x.Int? || x.Uint?) && (y.Float? || y.Double? || y.Str? || y.Bin? || y.Array? || y.Map?) ==>
              TagCmp(x, y) < 0
    ensures x.Float? && (y.Double? || y.Str? || y.Bin? || y.Array? || y.Map?) ==> TagCmp(x, y) < 0
    ensures x.Double? && (y.Str? || y.Bin? || y.Array? || y.Map?) ==> TagCmp(x, y) < 0
    ensures x.Str? && (y.Bin? || y.Array? || y.Map?) ==> TagCmp(x, y) < 0
    ensures x.Bin? && (y.Array? || y.Map?) ==> TagCmp(x, y) < 0
    ensures x.Array? && y.Map? ==> TagCmp(x, y) < 0
  {
  }

  /** The memory image has the least significant byte first: it is the stored form backwards. */
  lemma {:induction false} ImageReversed(f: U32, d: U64, i: nat)
    ensures i < 4 ==> |Store32(f)| == 4 && Image32(f)[i] == Store32(f)[3 - i]
    ensures i < 8 ==> |Store64(d)| == 8 && Image64(d)[i] == Store64(d)[7 - i]
  {
  }

  // ----- round trip and minimality

  lemma {:induction false} Load16Store(x: U16, pre: Bytes, post: Bytes)
    ensures Load16(pre + Store16(x) + post, |pre|) == x
  {
  }

  lemma {:induction false} Load32Store(x: U32, pre: Bytes, post: Bytes)
    ensures Load32(pre + Store32(x) + post, |pre|) == x
  {
  }

  lemma {:induction false} Load64Store(x: U64, pre: Bytes, post: Bytes)
    ensures Load64(pre + Store64(x) + post, |pre|) == x
  {
  }

  lemma {:induction false} UintRoundTrip(u: U64, rest: Bytes)
    ensures DecodeTag(EncodeUint(u) + rest) == TagOk(Uint(u), |EncodeUint(u)|)
  {
    if 0x100 <= u < 0x1_0000 { Load16Store(u, [0xcd], rest); }
    else if 0x1_0000 <= u < 0x1_0000_0000 { Load32Store(u, [0xce], rest); }
    else if 0x1_0000_0000 <= u { Load64Store(u, [0xcf], rest); }
  }

  lemma {:induction false} IntRoundTrip(i: I64, rest: Bytes)
    ensures DecodeTag(EncodeInt(i) + rest) == TagOk(Canon(Int(i)), |EncodeInt(i)|)
  {
    if i >= 0 {
      UintRoundTrip(i, rest);
    } else if -0x8000 <= i < -0x80 {
      Load16Store(Unsigned(i, 0x1_0000), [0xd1], rest);
    } else if -0x8000_0000 <= i < -0x8000 {
      Load32Store(Unsigned(i, 0x1_0000_0000), [0xd2], rest);
    } else if i < -0x8000_0000 {
      Load64Store(Unsigned(i, 0x1_0000_0000_0000_0000), [0xd3], rest);
    }
  }

  lemma {:induction false} LengthRoundTrip(l: U32, rest: Bytes)
    ensures DecodeTag(EncodeStr(l) + rest) == TagOk(Str(l), |EncodeStr(l)|)
    ensures DecodeTag(EncodeBin(l) + rest) == TagOk(Bin(l), |EncodeBin(l)|)
  {
    if 0x100 <= l < 0x1_0000 {
      Load16Store(l, [0xda], rest);
      Load16Store(l, [0xc5], rest);
    } else if 0x1_0000 <= l {
      Load32Store(l, [0xdb], rest);
      Load32Store(l, [0xc6], rest);
    }
  }

  lemma {:induction false} CountRoundTrip(n: U32, rest: Bytes)
    ensures DecodeTag(EncodeArray(n) + rest) == TagOk(Array(n), |EncodeArray(n)|)
    ensures DecodeTag(EncodeMap(n) + rest) == TagOk(Map(n), |EncodeMap(n)|)
  {
    if 15 < n < 0x1_0000 {
      Load16Store(n, [0xdc], rest);
      Load16Store(n, [0xde], rest);
    } else if 0x1_0000 <= n {
      Load32Store(n, [0xdd], rest);
      Load32Store(n, [0xdf], rest);
    }
  }

  /** Whatever follows it, an emitted tag is read back whole and as an equal tag. */
  lemma {:induction false} TagRoundTrip(t: Tag, rest: Bytes)
    ensures DecodeTag(EncodeTag(t) + rest) == TagOk(Canon(t), |EncodeTag(t)|)
  {
    match t
    case Nil =>
    case Bool(_) =>
    case Int(i) => IntRoundTrip(i, rest);
    case Uint(u) => UintRoundTrip(u, rest);
    case Float(f) => Load32Store(f, [0xca], rest);
    case Double(d) => Load64Store(d, [0xcb], rest);
    case Str(l) => LengthRoundTrip(l, rest);
    case Bin(l) => LengthRoundTrip(l, rest);
    case Array(n) => CountRoundTrip(n, rest);
    case Map(n) => CountRoundTrip(n, rest);
  }

  /** No byte string that reads back as an equal tag is shorter than the emitted one. */
  lemma {:induction false} TagMinimal(t: Tag, s: Bytes)
    requires DecodeTag(s).TagOk? && TagCmp(DecodeTag(s).tag, t) == 0
    ensures |EncodeTag(t)| <= DecodeTag(s).size
  {
    TagCmpOrder(DecodeTag(s).tag, t, t);
    var c := Canon(t);
    assert |EncodeTag(t)| == |EncodeTag(c)|;
    assert Canon(DecodeTag(s).tag) == c;
    assert TagSize(s[0]) == DecodeTag(s).size;
  }
}
