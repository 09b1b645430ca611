/** Well-formed UTF-8, as the source's string conversion checks it. */
module Utf8 {

  type byte = b: int | 0 <= b < 256

  predicate IsContinuation(b: byte) {
    0x80 <= b <= 0xBF
  }

  /** The second byte a multi-byte character may have after this first byte. */
  predicate SecondByteFits(first: byte, second: byte) {
    && IsContinuation(second)
    && (first == 0xE0 ==> second >= 0xA0) && (first == 0xED ==> second <= 0x9F)
    && (first == 0xF0 ==> second >= 0x90) && (first == 0xF4 ==> second <= 0x8F)
  }

  /** Number of bytes of the character `s` starts with, 0 when it starts with none. */
  function CharLength(s: seq<byte>): (n: nat)
    ensures n <= |s|
  {
    if s == [] then 0
    else if s[0] < 0x80 then 1
    else if 0xC2 <= s[0] <= 0xDF && |s| >= 2 && IsContinuation(s[1]) then 2
    else if 0xE0 <= s[0] <= 0xEF && |s| >= 3 && SecondByteFits(s[0], s[1]) && IsContinuation(s[2]) then 3
    else if 0xF0 <= s[0] <= 0xF4 && |s| >= 4 && SecondByteFits(s[0], s[1])
            && IsContinuation(s[2]) && IsContinuation(s[3]) then 4
    else 0
  }

  predicate ValidUtf8(s: seq<byte>) {
    s == [] || (CharLength(s) > 0 && ValidUtf8(s[CharLength(s)..]))
  }

  /** After a well-formed prefix, the rest decides. */
  lemma {:induction false} ValidAfterPrefix(a: seq<byte>, b: seq<byte>)
    requires ValidUtf8(a)
    ensures ValidUtf8(a + b) <==> ValidUtf8(b)
    decreases |a|
  {
    if a == [] {
      assert a + b == b;
    } else {
      var n := CharLength(a);
      assert CharLength(a + b) == n && (a + b)[n..] == a[n..] + b;
      ValidAfterPrefix(a[n..], b);
    }
  }

  /** An ASCII byte is never inside a character: text splits around it into well-formed parts. */
  lemma {:induction false} ValidAroundAscii(a: seq<byte>, c: byte, b: seq<byte>)
    requires c < 0x80
    ensures ValidUtf8(a + [c] + b) <==> ValidUtf8(a) && ValidUtf8(b)
    decreases |a|
  {
    var s := a + [c] + b;
    if a == [] {
      assert s == [c] + b && s[1..] == b;
    } else {
      var n := CharLength(s);
      if n > 0 {
        assert n <= |a| by {
          assert s[|a|] == c;
        }
        assert CharLength(a) == n && s[n..] == a[n..] + [c] + b;
        ValidAroundAscii(a[n..], c, b);
      } else {
        assert CharLength(a) == 0;
      }
    }
  }

  // ---------- What well-formed means ----------

  /** A Unicode scalar value: any code point but a surrogate. */
  type Scalar = c: int | 0 <= c < 0xD800 || 0xE000 <= c < 0x11_0000

  /** UTF-8: six bits to a continuation byte. */
  function EncodeChar(c: Scalar): (bytes: seq<byte>)
    ensures 1 <= |bytes| <= 4
  {
    if c < 0x80 then [c]
    else if c < 0x800 then [0xC0 + c / 64, 0x80 + c % 64]
    else if c < 0x1_0000 then [0xE0 + c / 4_096, 0x80 + c / 64 % 64, 0x80 + c % 64]
    else [0xF0 + c / 262_144, 0x80 + c / 4_096 % 64, 0x80 + c / 64 % 64, 0x80 + c % 64]
  }

  function EncodeText(text: seq<Scalar>): seq<byte> {
    if text == [] then [] else EncodeChar(text[0]) + EncodeText(text[1..])
  }

  lemma SixBits(high: nat, low: nat)
    requires low < 64
    ensures (high * 64 + low) / 64 == high && (high * 64 + low) % 64 == low
  {
  }

  lemma NestedQuotients(c: nat)
    ensures c / 4_096 == c / 64 / 64 && c / 262_144 == c / 64 / 64 / 64
  {
  }

  lemma ShortCharIsRead(c: Scalar, rest: seq<byte>)
    requires c < 0x800
    ensures CharLength(EncodeChar(c) + rest) == |EncodeChar(c)|
  {
  }

  lemma MiddleCharIsRead(c: Scalar, rest: seq<byte>)
    requires 0x800 <= c < 0x1_0000
    ensures CharLength(EncodeChar(c) + rest) == 3
  {
    var b0, b1 := 0xE0 + c / 4_096, 0x80 + c / 64 % 64;
    NestedQuotients(c);
    assert SecondByteFits(b0, b1);
    assert (EncodeChar(c) + rest)[..3] == EncodeChar(c);
  }

  lemma LongCharIsRead(c: Scalar, rest: seq<byte>)
    requires c >= 0x1_0000
    ensures CharLength(EncodeChar(c) + rest) == 4
  {
    var b0, b1 := 0xF0 + c / 262_144, 0x80 + c / 4_096 % 64;
    NestedQuotients(c);
    assert SecondByteFits(b0, b1);
    assert (EncodeChar(c) + rest)[..4] == EncodeChar(c);
  }

  lemma EncodedCharIsRead(c: Scalar, rest: seq<byte>)
    ensures CharLength(EncodeChar(c) + rest) == |EncodeChar(c)|
  {
    if c < 0x800 {
      ShortCharIsRead(c, rest);
    } else if c < 0x1_0000 {
      MiddleCharIsRead(c, rest);
    } else {
      LongCharIsRead(c, rest);
    }
  }

  lemma TwoBytes(b0: byte, b1: byte) returns (c: Scalar)
    requires 0xC2 <= b0 <= 0xDF && IsContinuation(b1)
    ensures EncodeChar(c) == [b0, b1]
  {
    SixBits(b0 - 0xC0, b1 - 0x80);
    c := (b0 - 0xC0) * 64 + (b1 - 0x80);
  }

  lemma ThreeBytes(b0: byte, b1: byte, b2: byte) returns (c: Scalar)
    requires 0xE0 <= b0 <= 0xEF && SecondByteFits(b0, b1) && IsContinuation(b2)
    ensures EncodeChar(c) == [b0, b1, b2]
  {
    var upper := (b0 - 0xE0) * 64 + (b1 - 0x80);
    SixBits(b0 - 0xE0, b1 - 0x80);
    SixBits(upper, b2 - 0x80);
    c := upper * 64 + (b2 - 0x80);
    NestedQuotients(c);
  }

  lemma FourBytes(b0: byte, b1: byte, b2: byte, b3: byte) returns (c: Scalar)
    requires 0xF0 <= b0 <= 0xF4 && SecondByteFits(b0, b1) && IsContinuation(b2) && IsContinuation(b3)
    ensures EncodeChar(c) == [b0, b1, b2, b3]
  {
    var upper := (b0 - 0xF0) * 64 + (b1 - 0x80);
    var middle := upper * 64 + (b2 - 0x80);
    SixBits(b0 - 0xF0, b1 - 0x80);
    SixBits(upper, b2 - 0x80);
    SixBits(middle, b3 - 0x80);
    c := middle * 64 + (b3 - 0x80);
    NestedQuotients(c);
  }

  lemma ReadCharIsEncoded(s: seq<byte>) returns (c: Scalar)
    requires CharLength(s) > 0
    ensures EncodeChar(c) == s[..CharLength(s)]
  {
    if s[0] < 0x80 {
      c := s[0];
    } else if s[0] <= 0xDF {
      c := TwoBytes(s[0], s[1]);
    } else if s[0] <= 0xEF {
      c := ThreeBytes(s[0], s[1], s[2]);
    } else {
      c := FourBytes(s[0], s[1], s[2], s[3]);
    }
  }

  lemma {:induction false} EncodedIsValid(text: seq<Scalar>)
    ensures ValidUtf8(EncodeText(text))
    decreases |text|
  {
    if text != [] {
      var c, rest := text[0], EncodeText(text[1..]);
      EncodedCharIsRead(c, rest);
      assert (EncodeChar(c) + rest)[|EncodeChar(c)|..] == rest;
      EncodedIsValid(text[1..]);
    }
  }

  lemma {:induction false} ValidIsEncoded(s: seq<byte>) returns (text: seq<Scalar>)
    requires ValidUtf8(s)
    ensures EncodeText(text) == s
    decreases |s|
  {
    text := [];
    if s != [] {
      var n := CharLength(s);
      var c := ReadCharIsEncoded(s);
      var rest := ValidIsEncoded(s[n..]);
      text := [c] + rest;
      assert text[1..] == rest && s == s[..n] + s[n..];
    }
  }

  /** Theorem: the bytes that count as text are exactly the encodings of scalar values. */
  lemma ValidIffEncoded(s: seq<byte>)
    ensures ValidUtf8(s) <==> exists text :: EncodeText(text) == s
  {
    if ValidUtf8(s) {
      var text := ValidIsEncoded(s);
    } else {
      forall text
        ensures EncodeText(text) != s
      {
        EncodedIsValid(text);
      }
    }
  }
}
