/** UTF-8: the byte form of a Rust `str`, the checked decoding `str::from_utf8` and
    the lossy decoding `String::from_utf8_lossy`. */
module Utf8 {
  import opened Prelude

  function EncodeChar(c: char): (r: bytes)
    ensures 1 <= |r| <= 4
  {
    var v := c as int;
    if v < 0x80 then [v as byte]
    else if v < 0x800 then [(0xC0 + v / 64) as byte, (0x80 + v % 64) as byte]
    else if v < 0x10000 then
      [(0xE0 + v / 4096) as byte, (0x80 + v / 64 % 64) as byte, (0x80 + v % 64) as byte]
    else
      [(0xF0 + v / 262144) as byte, (0x80 + v / 4096 % 64) as byte, (0x80 + v / 64 % 64) as byte, (0x80 + v % 64) as byte]
  }

  function Encode(s: string): (r: bytes)
  {
    if s == [] then [] else EncodeChar(s[0]) + Encode(s[1..])
  }

  predicate IsContinuation(b: byte) { 0x80 <= b < 0xC0 }

  /** The second bytes that keep a three- or four-byte form in range and unique. */
  predicate IsSecondOf(first: byte, second: byte)
  {
    if first == 0xE0 then 0xA0 <= second < 0xC0
    else if first == 0xED then 0x80 <= second < 0xA0
    else if first == 0xF0 then 0x90 <= second < 0xC0
    else if first == 0xF4 then 0x80 <= second < 0x90
    else IsContinuation(second)
  }

  /** One decoding step: a character and its length, or the length of the ill-formed
      prefix that is replaced as one unit. */
  datatype Step = Char(c: char, len: nat) | Bad(len: nat)

  function DecodeStep(b: bytes): (r: Step)
    requires b != []
    ensures 1 <= r.len <= |b|
  {
    var first := b[0] as int;
    if first < 0x80 then Char(first as char, 1)
    else if 0xC2 <= first < 0xE0 then
      if |b| < 2 || !IsContinuation(b[1]) then Bad(1)
      else Char(((first - 0xC0) * 64 + (b[1] as int - 0x80)) as char, 2)
    else if 0xE0 <= first < 0xF0 then
      if |b| < 2 || !IsSecondOf(b[0], b[1]) then Bad(1)
      else if |b| < 3 || !IsContinuation(b[2]) then Bad(2)
      else Char(((first - 0xE0) * 4096 + (b[1] as int - 0x80) * 64 + (b[2] as int - 0x80)) as char, 3)
    else if 0xF0 <= first < 0xF5 then
      if |b| < 2 || !IsSecondOf(b[0], b[1]) then Bad(1)
      else if |b| < 3 || !IsContinuation(b[2]) then Bad(2)
      else if |b| < 4 || !IsContinuation(b[3]) then Bad(3)
      else Char(((first - 0xF0) * 262144 + (b[1] as int - 0x80) * 4096
                 + (b[2] as int - 0x80) * 64 + (b[3] as int - 0x80)) as char, 4)
    else Bad(1)
  }

  /** `str::from_utf8` */
  function FromUtf8(b: bytes): (r: Option<string>)
  {
    if b == [] then Some([])
    else match DecodeStep(b)
      case Bad(_) => None
      case Char(c, n) =>
        match FromUtf8(b[n..])
        case None => None
        case Some(rest) => Some([c] + rest)
  }

  /** `String::from_utf8_lossy` */
  function FromUtf8Lossy(b: bytes): (r: string)
  {
    if b == [] then []
    else match DecodeStep(b)
      case Bad(n) => ['\U{FFFD}'] + FromUtf8Lossy(b[n..])
      case Char(c, n) => [c] + FromUtf8Lossy(b[n..])
  }

  lemma DecodeEncodedChar(c: char, rest: bytes)
    ensures DecodeStep(EncodeChar(c) + rest) == Char(c, |EncodeChar(c)|)
  {
    var v := c as int;
    if v < 0x800 {
      assert v == v / 64 * 64 + v % 64;
    } else if v < 0x10000 {
      DecodeThree(v, rest);
    } else {
      DecodeFour(v, rest);
    }
  }

  lemma DecodeThree(v: int, rest: bytes)
    requires 0x800 <= v < 0xD800 || 0xE000 <= v < 0x10000
    ensures DecodeStep([(0xE0 + v / 4096) as byte, (0x80 + v / 64 % 64) as byte, (0x80 + v % 64) as byte] + rest) == Char(v as char, 3)
  {
    var x, y, z := v / 4096, v / 64 % 64, v % 64;
    assert v == x * 4096 + y * 64 + z && 0 <= x < 16 && 0 <= y < 64 && 0 <= z < 64;
    assert x == 0 ==> y >= 32;
    assert x == 13 ==> y < 32;
  }

  lemma FourBytes(w: int, x: int, y: int, z: int, rest: bytes)
    requires 0 <= w < 5 && 0 <= x < 64 && 0 <= y < 64 && 0 <= z < 64 && (w == 0 ==> x >= 16) && (w == 4 ==> x < 16)
    ensures DecodeStep([(0xF0 + w) as byte, (0x80 + x) as byte, (0x80 + y) as byte, (0x80 + z) as byte] + rest)
         == Char((w * 262144 + x * 4096 + y * 64 + z) as char, 4)
  {
  }

  lemma DecodeFour(v: int, rest: bytes)
    requires 0x10000 <= v < 0x110000
    ensures DecodeStep([(0xF0 + v / 262144) as byte, (0x80 + v / 4096 % 64) as byte, (0x80 + v / 64 % 64) as byte, (0x80 + v % 64) as byte] + rest)
         == Char(v as char, 4)
  {
    var w, x, y, z := v / 262144, v / 4096 % 64, v / 64 % 64, v % 64;
    assert v / 4096 == w * 64 + x && v / 64 == (w * 64 + x) * 64 + y;
    FourBytes(w, x, y, z, rest);
  }

  lemma ThreeDigits(x: int, y: int, z: int)
    requires 0 <= x && 0 <= y < 64 && 0 <= z < 64
    ensures var v := x * 4096 + y * 64 + z;
            v % 64 == z && v / 64 % 64 == y && v / 4096 == x
  {
    var v := x * 4096 + y * 64 + z;
    assert v / 64 == x * 64 + y;
    assert v / 4096 == v / 64 / 64;
  }

  lemma FourDigits(w: int, x: int, y: int, z: int)
    requires 0 <= w && 0 <= x < 64 && 0 <= y < 64 && 0 <= z < 64
    ensures var v := w * 262144 + x * 4096 + y * 64 + z;
            v % 64 == z && v / 64 % 64 == y && v / 4096 % 64 == x && v / 262144 == w
  {
    ThreeDigits(w * 64 + x, y, z);
  }

  lemma EncodeDecodedChar(b: bytes)
    requires b != [] && DecodeStep(b).Char?
    ensures EncodeChar(DecodeStep(b).c) == b[..DecodeStep(b).len]
  {
    var first := b[0] as int;
    if 0xE0 <= first < 0xF0 {
      ThreeDigits(first - 0xE0, b[1] as int - 0x80, b[2] as int - 0x80);
    } else if 0xF0 <= first {
      FourDigits(first - 0xF0, b[1] as int - 0x80, b[2] as int - 0x80, b[3] as int - 0x80);
    }
  }

  lemma DecodeFirst(c: char, first: bytes, rest: bytes)
    requires first != [] && DecodeStep(first + rest) == Char(c, |first|)
    ensures FromUtf8(rest).Some? ==> FromUtf8(first + rest) == Some([c] + FromUtf8(rest).value)
    ensures FromUtf8(rest).None? ==> FromUtf8(first + rest) == None
    ensures FromUtf8Lossy(first + rest) == [c] + FromUtf8Lossy(rest)
  {
    assert (first + rest)[|first|..] == rest;
  }

  /** Decoding undoes encoding, in the checked and in the lossy form. */
  lemma {:induction false} DecodeUndoesEncode(s: string)
    ensures FromUtf8(Encode(s)) == Some(s)
    ensures FromUtf8Lossy(Encode(s)) == s
  {
    if s != [] {
      DecodeUndoesEncode(s[1..]);
      DecodeEncodedChar(s[0], Encode(s[1..]));
      DecodeFirst(s[0], EncodeChar(s[0]), Encode(s[1..]));
      assert [s[0]] + s[1..] == s;
    }
  }

  lemma EncodeFirst(c: char, rest: string)
    ensures Encode([c] + rest) == EncodeChar(c) + Encode(rest)
  {
    assert ([c] + rest)[1..] == rest;
  }

  /** What the checked decoding accepts is exactly the encoding of its result. */
  lemma {:induction false} EncodeUndoesDecode(b: bytes)
    requires FromUtf8(b).Some?
    ensures Encode(FromUtf8(b).value) == b
    decreases |b|
  {
    if b != [] {
      var n := DecodeStep(b).len;
      EncodeDecodedChar(b);
      assert b[..n] + b[n..] == b;
      EncodeUndoesDecode(b[n..]);
      EncodeFirst(DecodeStep(b).c, FromUtf8(b[n..]).value);
    }
  }

  lemma {:induction false} EncodeAppend(a: string, b: string)
    ensures Encode(a + b) == Encode(a) + Encode(b)
  {
    if a == [] {
      assert a + b == b;
    } else {
      assert (a + b)[1..] == a[1..] + b;
      EncodeAppend(a[1..], b);
    }
  }
}
