/** UTF-8 from the code points it encodes (section 3 of RFC 3629), against the byte-wise test. */
module CborText {
  import opened Base
  import opened Cbor

  /** A Unicode scalar value: a code point that is no surrogate. */
  predicate Scalar(c: nat) { c <= 0x10ffff && !(0xd800 <= c <= 0xdfff) }

  /** The one to four bytes of a code point: six payload bits in each continuation byte. */
  function EncodeScalar(c: nat): (b: Bytes)
    requires c <= 0x10ffff
    ensures 1 <= |b| <= 4
  {
    if c < 0x80 then [c]
    else if c < 0x800 then [0xc0 + c / 64, 0x80 + c % 64]
    else if c < 0x1_0000 then [0xe0 + c / 4096, 0x80 + c / 64 % 64, 0x80 + c % 64]
    else [0xf0 + c / 262144, 0x80 + c / 4096 % 64, 0x80 + c / 64 % 64, 0x80 + c % 64]
  }

  ghost predicate Scalars(text: seq<nat>) { forall i :: 0 <= i < |text| ==> Scalar(text[i]) }

  function Encoding(text: seq<nat>): Bytes
    requires Scalars(text)
  {
    if text == [] then [] else EncodeScalar(text[0]) + Encoding(text[1..])
  }

  /** The test reads one encoded code point off the front, whatever follows. */
  lemma EncodedIsValid(c: nat, rest: Bytes)
    requires Scalar(c)
    ensures ValidUtf8(EncodeScalar(c) + rest) <==> ValidUtf8(rest)
  {
    var b := EncodeScalar(c);
    var s := b + rest;
    assert s[|b|..] == rest;
    assert forall i :: 0 <= i < |b| ==> s[i] == b[i];
    if c < 0x80 {
    } else if c < 0x800 {
    } else if c < 0x1_0000 {
      ThreeBytes(c);
    } else {
      FourBytes(c);
    }
  }

  lemma ThreeBytes(c: nat)
    requires Scalar(c) && 0x800 <= c < 0x1_0000
    ensures var b := EncodeScalar(c);
            && 0xe0 <= b[0] <= 0xef && (b[0] == 0xe0 ==> b[1] >= 0xa0) && (b[0] == 0xed ==> b[1] <= 0x9f)
  {
    assert c / 64 == c / 4096 * 64 + c / 64 % 64;
  }

  lemma FourBytes(c: nat)
    requires Scalar(c) && 0x1_0000 <= c
    ensures var b := EncodeScalar(c);
            && 0xf0 <= b[0] <= 0xf4 && (b[0] == 0xf0 ==> b[1] >= 0x90) && (b[0] == 0xf4 ==> b[1] <= 0x8f)
  {
    assert c / 4096 == c / 262144 * 64 + c / 4096 % 64;
  }

  lemma TwoDigits(a: nat, b: nat)
    requires 2 <= a < 32 && b < 64
    ensures EncodeScalar(a * 64 + b) == [0xc0 + a, 0x80 + b]
  {
    DivUnique(a * 64 + b, 64, a, b);
  }

  lemma ThreeDigits(a: nat, b: nat, c: nat)
    requires a < 16 && b < 64 && c < 64 && (a == 0 ==> b >= 32)
    ensures EncodeScalar(a * 4096 + b * 64 + c) == [0xe0 + a, 0x80 + b, 0x80 + c]
  {
    var n := a * 4096 + b * 64 + c;
    DivUnique(n, 64, a * 64 + b, c);
    DivUnique(a * 64 + b, 64, a, b);
    DivUnique(n, 4096, a, b * 64 + c);
  }

  lemma FourDigits(a: nat, b: nat, c: nat, d: nat)
    requires a <= 4 && b < 64 && c < 64 && d < 64 && (a == 0 ==> b >= 16) && (a == 4 ==> b < 16)
    ensures var n := a * 262144 + b * 4096 + c * 64 + d;
            n <= 0x10ffff && EncodeScalar(n) == [0xf0 + a, 0x80 + b, 0x80 + c, 0x80 + d]
  {
    var n := a * 262144 + b * 4096 + c * 64 + d;
    DivUnique(n, 64, a * 4096 + b * 64 + c, d);
    DivUnique(a * 4096 + b * 64 + c, 64, a * 64 + b, c);
    DivUnique(n, 4096, a * 64 + b, c * 64 + d);
    DivUnique(a * 64 + b, 64, a, b);
    DivUnique(n, 262144, a, b * 4096 + c * 64 + d);
  }

  /** A string that passes the test starts with an encoded code point. */
  lemma ValidStartsWithScalar(s: Bytes) returns (c: nat)
    requires s != [] && ValidUtf8(s)
    ensures Scalar(c) && EncodeScalar(c) <= s && ValidUtf8(s[|EncodeScalar(c)|..])
  {
    hide EncodeScalar;
    var digit := (i: nat, lead: int) requires i < |s| => (s[i] as int) - lead;
    if s[0] < 0x80 {
      c := s[0];
      assert EncodeScalar(c) == [s[0]] == s[..1] by { OneDigit(c); }
    } else if s[0] <= 0xdf {
      c := digit(0, 0xc0) * 64 + digit(1, 0x80);
      TwoDigits(digit(0, 0xc0), digit(1, 0x80));
      assert EncodeScalar(c) == s[..2];
    } else if s[0] <= 0xef {
      c := digit(0, 0xe0) * 4096 + digit(1, 0x80) * 64 + digit(2, 0x80);
      ThreeDigits(digit(0, 0xe0), digit(1, 0x80), digit(2, 0x80));
      assert EncodeScalar(c) == s[..3];
    } else {
      c := digit(0, 0xf0) * 262144 + digit(1, 0x80) * 4096 + digit(2, 0x80) * 64 + digit(3, 0x80);
      FourDigits(digit(0, 0xf0), digit(1, 0x80), digit(2, 0x80), digit(3, 0x80));
      assert EncodeScalar(c) == s[..4];
    }
  }

  lemma OneDigit(c: nat)
    requires c < 0x80
    ensures EncodeScalar(c) == [c]
  {
  }

  lemma {:induction false} EncodingIsValid(text: seq<nat>)
    requires Scalars(text)
    ensures ValidUtf8(Encoding(text))
  {
    hide EncodeScalar;
    if text != [] {
      EncodingIsValid(text[1..]);
      EncodedIsValid(text[0], Encoding(text[1..]));
    }
  }

  lemma {:induction false} Decode(s: Bytes) returns (text: seq<nat>)
    requires ValidUtf8(s)
    ensures Scalars(text) && Encoding(text) == s
    decreases |s|
  {
    hide EncodeScalar, ValidUtf8;
    if s == [] {
      text := [];
    } else {
      var c := ValidStartsWithScalar(s);
      var more := Decode(s[|EncodeScalar(c)|..]);
      text := [c] + more;
      assert text[1..] == more;
      assert s == EncodeScalar(c) + s[|EncodeScalar(c)|..];
    }
  }

  /** The byte-wise test accepts exactly the encodings of sequences of code points. */
  lemma ValidUtf8Exact(s: Bytes)
    ensures ValidUtf8(s) <==> exists text: seq<nat> :: Scalars(text) && Encoding(text) == s
  {
    hide ValidUtf8, Encoding;
    if ValidUtf8(s) {
      var text := Decode(s);
      assert Scalars(text) && Encoding(text) == s;
    }
    if exists text: seq<nat> :: Scalars(text) && Encoding(text) == s {
      var text: seq<nat> :| Scalars(text) && Encoding(text) == s;
      EncodingIsValid(text);
    }
  }
}
