/** Valid UTF-8 is what encoding characters gives (section 3 of RFC 3629). */
module Utf8 {
  import opened Wrappers
  import opened Paging

  /** A Unicode scalar value: a code point that is no surrogate. */
  predicate Scalar(c: int) {
    0 <= c < 0xD800 || 0xE000 <= c <= 0x10FFFF
  }

  /** The bytes of a character. */
  function Encoded(c: int): (r: seq<Byte>)
    requires Scalar(c)
    ensures 1 <= |r| <= 4
  {
    if c < 0x80 then [c]
    else if c < 0x800 then [0xC0 + c / 0x40, 0x80 + c % 0x40]
    else if c < 0x10000 then [0xE0 + c / 0x1000, 0x80 + c / 0x40 % 0x40, 0x80 + c % 0x40]
    else [0xF0 + c / 0x40000, 0x80 + c / 0x1000 % 0x40, 0x80 + c / 0x40 % 0x40, 0x80 + c % 0x40]
  }

  /** The text holds the part at this place. */
  predicate PartAt(bytes: seq<Byte>, i: nat, part: seq<Byte>) {
    i + |part| <= |bytes| && bytes[i..i + |part|] == part
  }

  /** Where the bytes of a character are, one of this length begins. */
  lemma EncodedRead(bytes: seq<Byte>, i: nat, c: int)
    requires Scalar(c) && PartAt(bytes, i, Encoded(c))
    ensures i < |bytes| && CharLen(bytes, i) == |Encoded(c)|
  {
    var part := Encoded(c);
    assert forall k | 0 <= k < |part| :: bytes[i + k] == part[k];
    if c >= 0x10000 {
      assert c / 0x40000 <= 4;
      assert 64 * (c / 0x1000 / 64) + c / 0x1000 % 0x40 == c / 0x1000;
      assert c / 0x1000 / 64 == c / 0x40000;
    } else if c >= 0x800 {
      assert c / 0x1000 <= 15;
      assert 64 * (c / 0x40 / 64) + c / 0x40 % 0x40 == c / 0x40;
      assert c / 0x40 / 64 == c / 0x1000;
    }
  }

  lemma TwoBytes(a: Byte, b: Byte) returns (c: int)
    requires 0xC2 <= a <= 0xDF && IsTail(b)
    ensures Scalar(c) && Encoded(c) == [a, b]
  {
    var high: int, low: int := a - 0xC0, b - 0x80;
    c := high * 0x40 + low;
  }

  lemma ThreeBytes(a: Byte, b: Byte, d: Byte) returns (c: int)
    requires 0xE0 <= a <= 0xEF && SecondOk(a, b) && IsTail(d)
    ensures Scalar(c) && Encoded(c) == [a, b, d]
  {
    var high: int, middle: int, low: int := a - 0xE0, b - 0x80, d - 0x80;
    c := high * 0x1000 + middle * 0x40 + low;
    assert c / 0x40 == high * 0x40 + middle;
  }

  lemma FourBytes(a: Byte, b: Byte, d: Byte, e: Byte) returns (c: int)
    requires 0xF0 <= a <= 0xF4 && SecondOk(a, b) && IsTail(d) && IsTail(e)
    ensures Scalar(c) && Encoded(c) == [a, b, d, e]
  {
    var high: int, second: int, third: int, low: int := a - 0xF0, b - 0x80, d - 0x80, e - 0x80;
    c := high * 0x40000 + second * 0x1000 + third * 0x40 + low;
    assert c / 0x40 == high * 0x1000 + second * 0x40 + third;
    assert c / 0x1000 == high * 0x40 + second;
  }

  /** Where a character begins, there are the bytes of one. */
  lemma CharDecoded(bytes: seq<Byte>, i: nat) returns (c: int)
    requires i < |bytes| && CharLen(bytes, i) > 0
    ensures Scalar(c) && PartAt(bytes, i, Encoded(c)) && |Encoded(c)| == CharLen(bytes, i)
  {
    hide Encoded, Scalar;
    var n := CharLen(bytes, i);
    if n == 1 {
      c := OneByte(bytes[i]);
    } else if n == 2 {
      c := TwoBytes(bytes[i], bytes[i + 1]);
    } else if n == 3 {
      c := ThreeBytes(bytes[i], bytes[i + 1], bytes[i + 2]);
    } else {
      c := FourBytes(bytes[i], bytes[i + 1], bytes[i + 2], bytes[i + 3]);
    }
  }

  lemma OneByte(a: Byte) returns (c: int)
    requires a < 0x80
    ensures Scalar(c) && Encoded(c) == [a]
  {
    c := a;
  }

  function EncodedAll(text: seq<int>): seq<Byte>
    requires forall c | c in text :: Scalar(c)
  {
    if text == [] then [] else Encoded(text[0]) + EncodedAll(text[1..])
  }

  ghost predicate Encodes(text: seq<int>, bytes: seq<Byte>) {
    (forall c | c in text :: Scalar(c)) && bytes == EncodedAll(text)
  }

  lemma {:induction false} DecodedFrom(bytes: seq<Byte>, i: nat) returns (text: seq<int>)
    requires i <= |bytes| && ValidFrom(bytes, i)
    ensures Encodes(text, bytes[i..])
    decreases |bytes| - i
  {
    hide CharLen, Encoded;
    if i == |bytes| {
      text := [];
    } else {
      var c := CharDecoded(bytes, i);
      var n := |Encoded(c)|;
      var rest := DecodedFrom(bytes, i + n);
      text := [c] + rest;
      assert bytes[i..] == bytes[i..i + n] + bytes[i + n..];
    }
  }

  lemma {:induction false} EncodedFrom(bytes: seq<Byte>, i: nat, text: seq<int>)
    requires i <= |bytes| && Encodes(text, bytes[i..])
    ensures ValidFrom(bytes, i)
    decreases |text|
  {
    hide CharLen, Encoded;
    if text != [] {
      var first := Encoded(text[0]);
      assert bytes[i..][..|first|] == bytes[i..i + |first|] && bytes[i..][|first|..] == bytes[i + |first|..];
      EncodedRead(bytes, i, text[0]);
      EncodedFrom(bytes, i + |first|, text[1..]);
    }
  }

  /** Bytes are valid UTF-8 if and only if they are the encoding of some text. */
  lemma ValidExact(bytes: seq<Byte>)
    ensures ValidUtf8(bytes) <==> exists text :: Encodes(text, bytes)
  {
    hide EncodedAll, ValidFrom;
    assert bytes[0..] == bytes;
    if ValidUtf8(bytes) {
      var text := DecodedFrom(bytes, 0);
      assert Encodes(text, bytes);
    }
    if text :| Encodes(text, bytes) { EncodedFrom(bytes, 0, text); }
  }
}
