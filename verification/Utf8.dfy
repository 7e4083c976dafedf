/**
 The UTF-8 check, against the grammar of section 4 of RFC 3629 and against the encoding of Unicode scalar values.
 */
module Utf8 {
  import opened Wire

  // ----- the grammar

  predicate Tail(b: Byte) { 0x80 <= b <= 0xBF }

  predicate Char1(c: Bytes) { |c| == 1 && c[0] <= 0x7F }

  predicate Char2(c: Bytes) { |c| == 2 && 0xC2 <= c[0] <= 0xDF && Tail(c[1]) }

  predicate Char3(c: Bytes) {
    && |c| == 3 && Tail(c[2])
    && (|| (c[0] == 0xE0 && 0xA0 <= c[1] <= 0xBF)
        || (0xE1 <= c[0] <= 0xEC && Tail(c[1]))
        || (c[0] == 0xED && 0x80 <= c[1] <= 0x9F)
        || (0xEE <= c[0] <= 0xEF && Tail(c[1])))
  }

  predicate Char4(c: Bytes) {
    && |c| == 4 && Tail(c[2]) && Tail(c[3])
    && (|| (c[0] == 0xF0 && 0x90 <= c[1] <= 0xBF)
        || (0xF1 <= c[0] <= 0xF3 && Tail(c[1]))
        || (c[0] == 0xF4 && 0x80 <= c[1] <= 0x8F))
  }

  predicate Char(c: Bytes) { Char1(c) || Char2(c) || Char3(c) || Char4(c) }

  ghost function Concat(chars: seq<Bytes>): Bytes {
    if chars == [] then [] else chars[0] + Concat(chars[1..])
  }

  /** `chars` are characters of the grammar that make up `s`. */
  ghost predicate Spells(chars: seq<Bytes>, s: Bytes) {
    (forall k :: 0 <= k < |chars| ==> Char(chars[k])) && Concat(chars) == s
  }

  /** A byte string generated by the grammar: some sequence of characters, one after the other. */
  ghost predicate IsUtf8(s: Bytes) {
    exists chars: seq<Bytes> :: Spells(chars, s)
  }

  ghost predicate Acceptable(s: Bytes, allowNull: bool) {
    IsUtf8(s) && (allowNull || 0 !in s)
  }

  // ----- scalar values

  predicate Scalar(z: int) { 0 <= z <= 0x10FFFF && !(0xD800 <= z <= 0xDFFF) }

  function EncodeScalar(z: int): Bytes
    requires Scalar(z)
  {
    var y := z / 0x40;
    var x := y / 0x40;
    if z <= 0x7F then [z]
    else if z <= 0x7FF then [0xC0 + y, 0x80 + z % 0x40]
    else if z <= 0xFFFF then [0xE0 + x, 0x80 + y % 0x40, 0x80 + z % 0x40]
    else [0xF0 + x / 0x40, 0x80 + x % 0x40, 0x80 + y % 0x40, 0x80 + z % 0x40]
  }

  /** One more six-bit group. */
  function Shift(z: int, b: Byte): int { z * 0x40 + (b - 0x80) }

  function DecodeScalar(c: Bytes): int
    requires Char(c)
  {
    var b: int := c[0];
    if |c| == 1 then b
    else if |c| == 2 then Shift(b - 0xC0, c[1])
    else if |c| == 3 then Shift(Shift(b - 0xE0, c[1]), c[2])
    else Shift(Shift(Shift(b - 0xF0, c[1]), c[2]), c[3])
  }

  lemma {:induction false} ShiftDigits(z: int, b: Byte)
    requires Tail(b)
    ensures Shift(z, b) / 0x40 == z && Shift(z, b) % 0x40 == b - 0x80
  {
  }

  lemma {:induction false} Char2IsScalar(c: Bytes)
    requires Char2(c)
    ensures Scalar(DecodeScalar(c)) && EncodeScalar(DecodeScalar(c)) == c
  {
    ShiftDigits(c[0] - 0xC0, c[1]);
  }

  /** Three bytes are enough and needed, and spell no surrogate. */
  lemma {:induction false} Range3(c: Bytes)
    requires Char3(c)
    ensures 0x800 <= Shift(Shift(c[0] - 0xE0, c[1]), c[2]) <= 0xFFFF && Scalar(Shift(Shift(c[0] - 0xE0, c[1]), c[2]))
  {
  }

  lemma {:induction false} Char3IsScalar(c: Bytes)
    requires Char3(c)
    ensures Scalar(DecodeScalar(c)) && EncodeScalar(DecodeScalar(c)) == c
  {
    hide Shift;
    var b: int := c[0];
    var x := Shift(b - 0xE0, c[1]);
    Range3(c);
    ShiftDigits(b - 0xE0, c[1]);
    ShiftDigits(x, c[2]);
  }

  /** Four bytes are needed, and spell nothing above the last scalar value. */
  lemma {:induction false} Range4(c: Bytes)
    requires Char4(c)
    ensures 0xFFFF < Shift(Shift(Shift(c[0] - 0xF0, c[1]), c[2]), c[3]) <= 0x10FFFF
  {
  }

  lemma {:induction false} Char4IsScalar(c: Bytes)
    requires Char4(c)
    ensures Scalar(DecodeScalar(c)) && EncodeScalar(DecodeScalar(c)) == c
  {
    hide Shift;
    var b: int := c[0];
    var x := Shift(b - 0xF0, c[1]);
    var y := Shift(x, c[2]);
    Range4(c);
    ShiftDigits(b - 0xF0, c[1]);
    ShiftDigits(x, c[2]);
    ShiftDigits(y, c[3]);
  }

  /** The characters of the grammar are encodings of scalar values ... */
  lemma {:induction false} CharIsScalar(c: Bytes)
    requires Char(c)
    ensures Scalar(DecodeScalar(c)) && EncodeScalar(DecodeScalar(c)) == c
  {
    if Char2(c) {
      Char2IsScalar(c);
    } else if Char3(c) {
      Char3IsScalar(c);
    } else if Char4(c) {
      Char4IsScalar(c);
    }
  }

  /** ... and every scalar value has one, and only one, such encoding. */
  lemma {:induction false} ScalarIsChar(z: int)
    requires Scalar(z)
    ensures Char(EncodeScalar(z)) && DecodeScalar(EncodeScalar(z)) == z
  {
    var c := EncodeScalar(z);
    if z <= 0x7F {
    } else if z <= 0x7FF {
      assert Char2(c);
    } else if z <= 0xFFFF {
      assert Char3(c);
    } else {
      assert Char4(c);
    }
  }

  // ----- taking the first character off

  lemma {:induction false} ConcatCons(c: Bytes, chars: seq<Bytes>)
    ensures Concat([c] + chars) == c + Concat(chars)
  {
  }

  /** The first character is settled by the bytes: no character is the start of another. */
  lemma {:induction false} PrefixFree(s: Bytes, m: nat, n: nat)
    requires m <= |s| && n <= |s| && Char(s[..m]) && Char(s[..n])
    ensures m == n
  {
  }

  lemma {:induction false} TakeChar(s: Bytes, n: nat, allowNull: bool)
    requires n <= |s| && Char(s[..n])
    ensures Acceptable(s, allowNull) <==> (allowNull || 0 !in s[..n]) && Acceptable(s[n..], allowNull)
  {
    hide Char;
    assert s == s[..n] + s[n..];
    if IsUtf8(s[n..]) {
      var chars :| Spells(chars, s[n..]);
      ConcatCons(s[..n], chars);
      assert Spells([s[..n]] + chars, s);
    }
    if IsUtf8(s) {
      var chars :| Spells(chars, s);
      FirstOfSpelling(s, chars, n);
      assert Spells(chars[1..], s[n..]);
    }
  }

  lemma {:induction false} FirstOfSpelling(s: Bytes, chars: seq<Bytes>, n: nat)
    requires Spells(chars, s) && n <= |s| && Char(s[..n])
    ensures chars != [] && chars[0] == s[..n] && Concat(chars[1..]) == s[n..]
  {
  }

  /** A spelled string starts with a character. */
  lemma {:induction false} HasChar(s: Bytes, chars: seq<Bytes>)
    requires s != [] && Spells(chars, s)
    ensures chars != [] && |chars[0]| <= |s| && Char(s[..|chars[0]|])
  {
  }

  lemma {:induction false} NoChar(s: Bytes)
    requires s != [] && forall n :: 0 <= n <= |s| ==> !Char(s[..n])
    ensures !IsUtf8(s)
  {
    hide Char;
    forall chars | Spells(chars, s) ensures chars != [] && |chars[0]| <= |s|
        && Char(s[..|chars[0]|]) { HasChar(s, chars); }
  }

  // ----- the check

  /** Length of the well-formed character at the front of `s`, or 0. */
  method LeadingChar(s: Bytes) returns (n: nat)
    requires s != []
    ensures n > 0 ==> n <= |s| && Char(s[..n])
    ensures n == 0 ==> forall k :: 0 <= k <= |s| ==> !Char(s[..k])
  {
    var lead := s[0];
    assert forall k :: 0 < k <= |s| ==> s[..k][0] == lead;
    assert forall k :: 1 < k <= |s| ==> s[..k][1] == s[1];
    assert forall k :: 2 < k <= |s| ==> s[..k][2] == s[2];
    assert forall k :: 3 < k <= |s| ==> s[..k][3] == s[3];
    if lead <= 0x7F {
      return 1;
    } else if lead / 0x20 == 6 {
      if |s| < 2 || s[1] / 0x40 != 2 { return 0; }
      var x: int, y: int := lead % 0x20, s[1] % 0x40;
      var z := x * 0x40 + y;
      return if z < 0x80 then 0 else 2;
    } else if lead / 0x10 == 14 {
      if |s| < 3 || s[1] / 0x40 != 2 || s[2] / 0x40 != 2 { return 0; }
      var w: int, x: int, y: int := lead % 0x10, s[1] % 0x40, s[2] % 0x40;
      var z := w * 0x1000 + x * 0x40 + y;
      return if z < 0x800 || 0xD800 <= z <= 0xDFFF then 0 else 3;
    } else if lead / 8 == 30 {
      if |s| < 4 || s[1] / 0x40 != 2 || s[2] / 0x40 != 2 || s[3] / 0x40 != 2 { return 0; }
      var v: int, w: int, x: int, y: int := lead % 8, s[1] % 0x40, s[2] % 0x40, s[3] % 0x40;
      var z := v * 0x4_0000 + w * 0x1000 + x * 0x40 + y;
      return if z < 0x1_0000 || z > 0x10FFFF then 0 else 4;
    } else {
      return 0;
    }
  }

  /** Accepts exactly UTF-8, and with `allowNull` off only without NUL bytes. */
  method Check(str: Bytes, allowNull: bool) returns (ok: bool)
    ensures ok <==> Acceptable(str, allowNull)
  {
    var s := str;
    while |s| > 0
      invariant Acceptable(str, allowNull) <==> Acceptable(s, allowNull)
      decreases |s|
    {
      if !allowNull && s[0] == 0 {
        return false;
      }
      var n := LeadingChar(s);
      if n == 0 {
        NoChar(s);
        return false;
      }
      TakeChar(s, n, allowNull);
      NonNull(s[..n]);
      s := s[n..];
    }
    assert Spells([], s);
    return true;
  }

  /** Only the one-byte character NUL contains a zero byte. */
  lemma {:induction false} NonNull(c: Bytes)
    requires Char(c)
    ensures 0 in c ==> c[0] == 0
  {
  }
}
