/** UTF-8 by its other definition: the encodings of Unicode scalar values, one after another. */
module Utf8Text {
  import opened Bytes

  /** A Unicode scalar value: any code point but a surrogate. */
  predicate Scalar(c: nat) { c < 0xD800 || 0xE000 <= c < 0x11_0000 }

  /** Section 3 of RFC 3629. */
  function EncodeChar(c: nat): (b: seq<byte>)
    requires Scalar(c)
    ensures 1 <= |b| <= 4
  {
    if c < 0x80 then [c]
    else if c < 0x800 then [0xC0 + c / 64, 0x80 + c % 64]
    else if c < 0x1_0000 then [0xE0 + c / 4096, 0x80 + c / 64 % 64, 0x80 + c % 64]
    else [0xF0 + c / 262144, 0x80 + c / 4096 % 64, 0x80 + c / 64 % 64, 0x80 + c % 64]
  }

  predicate AllScalar(chars: seq<nat>) { forall i :: 0 <= i < |chars| ==> Scalar(chars[i]) }

  function EncodeText(chars: seq<nat>): seq<byte>
    requires AllScalar(chars)
  {
    if chars == [] then [] else EncodeChar(chars[0]) + EncodeText(chars[1..])
  }

  lemma EncodedCharIsRead(c: nat, rest: seq<byte>)
    requires Scalar(c)
    ensures CharLength(EncodeChar(c) + rest) == |EncodeChar(c)|
  {}

  /** The character that the first `CharLength(s)` bytes encode. */
  lemma ReadCharIsEncoded(s: seq<byte>) returns (c: nat)
    requires s != [] && CharLength(s) > 0
    ensures Scalar(c) && EncodeChar(c) == s[..CharLength(s)]
  {
    var n := CharLength(s);
    if n == 1 {
      c := s[0];
    } else if n == 2 {
      c := TwoBytes(s[0], s[1]);
      assert s[..2] == [s[0], s[1]];
    } else if n == 3 {
      c := ThreeBytes(s[0], s[1], s[2]);
      assert s[..3] == [s[0], s[1], s[2]];
    } else {
      c := FourBytes(s[0], s[1], s[2], s[3]);
      assert s[..4] == [s[0], s[1], s[2], s[3]];
    }
  }

  lemma TwoBytes(a: byte, b: byte) returns (c: nat)
    requires CharLength([a, b]) == 2
    ensures Scalar(c) && EncodeChar(c) == [a, b]
  {
    c := (a - 0xC0) * 64 + (b - 0x80);
  }

  lemma ThreeBytes(a: byte, b: byte, d: byte) returns (c: nat)
    requires CharLength([a, b, d]) == 3
    ensures Scalar(c) && EncodeChar(c) == [a, b, d]
  {
    c := (a - 0xE0) * 4096 + (b - 0x80) * 64 + (d - 0x80);
    assert c / 64 == (a - 0xE0) * 64 + (b - 0x80);
  }

  lemma FourBytes(a: byte, b: byte, d: byte, e: byte) returns (c: nat)
    requires CharLength([a, b, d, e]) == 4
    ensures Scalar(c) && EncodeChar(c) == [a, b, d, e]
  {
    c := (a - 0xF0) * 262144 + (b - 0x80) * 4096 + (d - 0x80) * 64 + (e - 0x80);
    assert c / 64 == (a - 0xF0) * 4096 + (b - 0x80) * 64 + (d - 0x80);
    assert c / 4096 == (a - 0xF0) * 64 + (b - 0x80);
  }

  lemma {:induction false} TextIsValid(chars: seq<nat>)
    requires AllScalar(chars)
    ensures ValidUtf8(EncodeText(chars))
  {
    if chars != [] {
      TextIsValid(chars[1..]);
      EncodedCharIsRead(chars[0], EncodeText(chars[1..]));
      assert EncodeText(chars)[|EncodeChar(chars[0])|..] == EncodeText(chars[1..]);
    }
  }

  lemma {:induction false} ValidIsText(s: seq<byte>) returns (chars: seq<nat>)
    requires ValidUtf8(s)
    ensures AllScalar(chars) && EncodeText(chars) == s
  {
    if s == [] {
      chars := [];
    } else {
      var c := ReadCharIsEncoded(s);
      var rest := ValidIsText(s[CharLength(s)..]);
      chars := [c] + rest;
      assert chars[1..] == rest;
    }
  }

  /** Bytes are taken for UTF-8 exactly when they encode some text. */
  lemma Utf8Iff(s: seq<byte>)
    ensures ValidUtf8(s) <==> exists chars :: AllScalar(chars) && EncodeText(chars) == s
  {
    if ValidUtf8(s) { var chars := ValidIsText(s); }
    if chars :| AllScalar(chars) && EncodeText(chars) == s { TextIsValid(chars); }
  }
}
