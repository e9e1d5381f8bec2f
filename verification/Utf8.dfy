/**
 * UTF-8 over UTF-16 code units: the encoder, and the strict decoder that rejects everything else.
 * Decoding undoes encoding for every well-formed text, and encoding undoes decoding for every byte
 * sequence that decodes, so neither side has two forms of one text.
 */
module Utf8 {
  import opened Basics

  predicate High(c: int) { 0xD800 <= c <= 0xDBFF }

  predicate Low(c: int) { 0xDC00 <= c <= 0xDFFF }

  /** No lone surrogate. */
  predicate WellFormed(u: Text) {
    if u == [] then true
    else if High(u[0]) then |u| >= 2 && Low(u[1]) && WellFormed(u[2..])
    else !Low(u[0]) && WellFormed(u[1..])
  }

  function Scalar(high: Code, low: Code): int
    requires High(high) && Low(low)
  {
    0x10000 + (high - 0xD800) * 0x400 + (low - 0xDC00)
  }

  function EncodeOne(c: Code): (b: seq<Byte>)
    requires !High(c) && !Low(c)
  {
    if c < 0x80 then [c]
    else if c < 0x800 then [0xC0 + c / 64, 0x80 + c % 64]
    else [0xE0 + c / 4096, 0x80 + c / 64 % 64, 0x80 + c % 64]
  }

  function EncodePair(high: Code, low: Code): (b: seq<Byte>)
    requires High(high) && Low(low)
    ensures |b| == 4
  {
    FourBytes(Scalar(high, low))
  }

  function FourBytes(s: int): (b: seq<Byte>)
    requires 0x10000 <= s < 0x110000
    ensures |b| == 4
  {
    [0xF0 + s / 262144, 0x80 + s / 4096 % 64, 0x80 + s / 64 % 64, 0x80 + s % 64]
  }

  function Encode(u: Text): seq<Byte>
    requires WellFormed(u)
  {
    if u == [] then []
    else if High(u[0]) then EncodePair(u[0], u[1]) + Encode(u[2..])
    else EncodeOne(u[0]) + Encode(u[1..])
  }

  predicate Continuation(b: int) { 0x80 <= b <= 0xBF }

  function Join2(x: int, y: int): int { (x - 0xC0) * 64 + (y - 0x80) }

  function Join3(x: int, y: int, z: int): int { (x - 0xE0) * 4096 + (y - 0x80) * 64 + (z - 0x80) }

  function Join4(x: int, y: int, z: int, w: int): int {
    (x - 0xF0) * 262144 + (y - 0x80) * 4096 + (z - 0x80) * 64 + (w - 0x80)
  }

  predicate Lead2(b: seq<Byte>) {
    |b| >= 2 && 0xC2 <= b[0] <= 0xDF && Continuation(b[1])
  }

  /** No overlong form and no surrogate. */
  predicate Lead3(b: seq<Byte>) {
    && |b| >= 3 && 0xE0 <= b[0] <= 0xEF && Continuation(b[1]) && Continuation(b[2])
    && (b[0] == 0xE0 ==> 0xA0 <= b[1]) && (b[0] == 0xED ==> b[1] <= 0x9F)
  }

  /** No overlong form and nothing above U+10FFFF. */
  predicate Lead4(b: seq<Byte>) {
    && |b| >= 4 && 0xF0 <= b[0] <= 0xF4 && Continuation(b[1]) && Continuation(b[2]) && Continuation(b[3])
    && (b[0] == 0xF0 ==> 0x90 <= b[1]) && (b[0] == 0xF4 ==> b[1] <= 0x8F)
  }

  function HighOf(s: int): int { 0xD800 + (s - 0x10000) / 0x400 }

  function LowOf(s: int): int { 0xDC00 + (s - 0x10000) % 0x400 }

  /** The code units of the first encoded scalar and the number of bytes it takes. */
  function DecodeOne(b: seq<Byte>): (r: Option<(Text, nat)>)
    requires b != []
    ensures r.Some? ==> 1 <= r.value.1 <= |b|
  {
    if b[0] < 0x80 then Some(([b[0]], 1))
    else if Lead2(b) then
      var c: Code := Join2(b[0], b[1]);
      Some(([c], 2))
    else if Lead3(b) then
      var c: Code := Join3(b[0], b[1], b[2]);
      Some(([c], 3))
    else if Lead4(b) then
      var s := Join4(b[0], b[1], b[2], b[3]);
      var high: Code := HighOf(s);
      var low: Code := LowOf(s);
      Some(([high, low], 4))
    else None
  }

  function Decode(b: seq<Byte>): Option<Text>
    decreases |b|
  {
    if b == [] then Some([])
    else match DecodeOne(b)
      case None => None
      case Some((units, n)) =>
        match Decode(b[n..])
        case None => None
        case Some(rest) => Some(units + rest)
  }

  lemma Split3(c: Code)
    requires c >= 0x800
    ensures Join3(0xE0 + c / 4096, 0x80 + c / 64 % 64, 0x80 + c % 64) == c
    ensures c / 4096 == 0 ==> c / 64 % 64 >= 0x20
    ensures c / 4096 == 13 && !High(c) && !Low(c) ==> c / 64 % 64 <= 0x1F
  {
  }

  lemma DecodeEncodedOne(c: Code, rest: seq<Byte>)
    requires !High(c) && !Low(c)
    ensures DecodeOne(EncodeOne(c) + rest) == Some(([c], |EncodeOne(c)|))
  {
    var b := EncodeOne(c) + rest;
    if c >= 0x800 {
      Split3(c);
      assert b[0] == 0xE0 + c / 4096 && b[1] == 0x80 + c / 64 % 64 && b[2] == 0x80 + c % 64;
    } else if c >= 0x80 {
      assert b[0] == 0xC0 + c / 64 && b[1] == 0x80 + c % 64;
    }
  }

  lemma Split4(s: int)
    requires 0x10000 <= s < 0x110000
    ensures Join4(0xF0 + s / 262144, 0x80 + s / 4096 % 64, 0x80 + s / 64 % 64, 0x80 + s % 64) == s
    ensures 0 <= s / 262144 <= 4
    ensures s / 262144 == 0 ==> s / 4096 % 64 >= 0x10
    ensures s / 262144 == 4 ==> s / 4096 % 64 <= 0x0F
  {
    assert s / 4096 == s / 262144 * 64 + s / 4096 % 64;
    assert s / 64 == s / 4096 * 64 + s / 64 % 64;
  }

  lemma ScalarHalves(high: Code, low: Code)
    requires High(high) && Low(low)
    ensures 0x10000 <= Scalar(high, low) < 0x110000
    ensures HighOf(Scalar(high, low)) == high && LowOf(Scalar(high, low)) == low
  {
  }

  lemma DecodeEncodedPair(high: Code, low: Code, rest: seq<Byte>)
    requires High(high) && Low(low)
    ensures DecodeOne(EncodePair(high, low) + rest) == Some(([high, low], 4))
  {
    var b := EncodePair(high, low) + rest;
    var s := Scalar(high, low);
    ScalarHalves(high, low);
    Split4(s);
    assert b[..4] == EncodePair(high, low);
    assert b[0] == b[..4][0] && b[1] == b[..4][1] && b[2] == b[..4][2] && b[3] == b[..4][3];
    assert Lead4(b);
    assert Join4(b[0], b[1], b[2], b[3]) == s;
  }

  /** Encoding then decoding gives the text back. */
  lemma {:induction false} DecodeEncode(u: Text)
    requires WellFormed(u)
    ensures Decode(Encode(u)) == Some(u)
    decreases |u|
  {
    if u != [] {
      if High(u[0]) {
        DecodeEncode(u[2..]);
        DecodeEncodedPair(u[0], u[1], Encode(u[2..]));
        assert Encode(u)[4..] == Encode(u[2..]);
        assert u == [u[0], u[1]] + u[2..];
      } else {
        DecodeEncode(u[1..]);
        DecodeEncodedOne(u[0], Encode(u[1..]));
        assert Encode(u)[|EncodeOne(u[0])|..] == Encode(u[1..]);
        assert u == [u[0]] + u[1..];
      }
    }
  }

  lemma DecodedThree(b: seq<Byte>)
    requires Lead3(b)
    ensures var c := Join3(b[0], b[1], b[2]);
            0x800 <= c < 0x10000 && !High(c) && !Low(c) && EncodeOne(c) == b[..3]
  {
    var c := Join3(b[0], b[1], b[2]);
    assert c / 4096 == b[0] - 0xE0;
    var x: int, y: int := b[0], b[1];
    assert c / 64 == (x - 0xE0) * 64 + (y - 0x80);
    assert b[..3] == [b[0], b[1], b[2]];
  }

  lemma JoinedParts(x: int, y: int, z: int, w: int)
    requires 0xF0 <= x && Continuation(y) && Continuation(z) && Continuation(w)
    ensures var s := Join4(x, y, z, w);
            && s / 262144 == x - 0xF0 && s / 4096 % 64 == y - 0x80
            && s / 64 % 64 == z - 0x80 && s % 64 == w - 0x80
  {
    var s := Join4(x, y, z, w);
    assert s / 64 == ((x - 0xF0) * 64 + (y - 0x80)) * 64 + (z - 0x80);
    assert s / 4096 == (x - 0xF0) * 64 + (y - 0x80);
  }

  lemma HalvesScalar(s: int)
    requires 0x10000 <= s < 0x110000
    ensures High(HighOf(s)) && Low(LowOf(s)) && Scalar(HighOf(s), LowOf(s)) == s
  {
  }

  lemma FourRange(x: int, y: int, z: int, w: int)
    requires 0xF0 <= x <= 0xF4 && Continuation(y) && Continuation(z) && Continuation(w)
    requires (x == 0xF0 ==> 0x90 <= y) && (x == 0xF4 ==> y <= 0x8F)
    ensures 0x10000 <= Join4(x, y, z, w) < 0x110000
  {
  }

  lemma JoinedBytes(x: Byte, y: Byte, z: Byte, w: Byte)
    requires 0xF0 <= x <= 0xF4 && Continuation(y) && Continuation(z) && Continuation(w)
    requires (x == 0xF0 ==> 0x90 <= y) && (x == 0xF4 ==> y <= 0x8F)
    ensures 0x10000 <= Join4(x, y, z, w) < 0x110000
    ensures FourBytes(Join4(x, y, z, w)) == [x, y, z, w]
  {
    FourRange(x, y, z, w);
    JoinedParts(x, y, z, w);
  }

  lemma DecodedFour(b: seq<Byte>)
    requires Lead4(b)
    ensures var s := Join4(b[0], b[1], b[2], b[3]);
            High(HighOf(s)) && Low(LowOf(s)) && EncodePair(HighOf(s), LowOf(s)) == b[..4]
  {
    hide Join4, HighOf, LowOf, Scalar, FourBytes, High, Low, Continuation;
    assert b[..4] == [b[0], b[1], b[2], b[3]];
    LeadingFour(b);
    HalvesScalar(Join4(b[0], b[1], b[2], b[3]));
  }

  lemma LeadingFour(b: seq<Byte>)
    requires Lead4(b)
    ensures 0x10000 <= Join4(b[0], b[1], b[2], b[3]) < 0x110000
    ensures FourBytes(Join4(b[0], b[1], b[2], b[3])) == [b[0], b[1], b[2], b[3]]
  {
    hide Join4, FourBytes;
    JoinedBytes(b[0], b[1], b[2], b[3]);
  }

  lemma DecodedTwo(b: seq<Byte>)
    requires Lead2(b)
    ensures var c := Join2(b[0], b[1]);
            0x80 <= c < 0x800 && EncodeOne(c) == b[..2]
  {
    assert b[..2] == [b[0], b[1]];
  }

  /** What the first step of decoding returns encodes to the bytes it took. */
  predicate Reencodes(units: Text, b: seq<Byte>) {
    if |units| == 1 then !High(units[0]) && !Low(units[0]) && EncodeOne(units[0]) == b
    else |units| == 2 && High(units[0]) && Low(units[1]) && EncodePair(units[0], units[1]) == b
  }

  lemma DecodedOneEncodes(b: seq<Byte>)
    requires b != [] && DecodeOne(b).Some?
    ensures Reencodes(DecodeOne(b).value.0, b[..DecodeOne(b).value.1])
  {
    if b[0] < 0x80 {
      assert b[..1] == [b[0]];
    } else if Lead2(b) {
      DecodedTwo(b);
    } else if Lead3(b) {
      DecodedThree(b);
    } else {
      DecodedFour(b);
    }
  }

  lemma PrependEncoded(units: Text, b: seq<Byte>, rest: Text)
    requires Reencodes(units, b) && WellFormed(rest)
    ensures WellFormed(units + rest) && Encode(units + rest) == b + Encode(rest)
  {
    var u := units + rest;
    assert u[|units|..] == rest;
  }

  /** Decoding accepts only encodings: what it returns is well formed and encodes back to the input. */
  lemma {:induction false} EncodeDecode(b: seq<Byte>, u: Text)
    requires Decode(b) == Some(u)
    ensures WellFormed(u) && Encode(u) == b
    decreases |b|
  {
    if b != [] {
      var (units, n) := DecodeOne(b).value;
      var tail := b[n..];
      var rest := Decode(tail).value;
      EncodeDecode(tail, rest);
      DecodedOneEncodes(b);
      PrependEncoded(units, b[..n], rest);
      assert b == b[..n] + tail;
    }
  }

  /** A text never has more code units than bytes. */
  lemma {:induction false} EncodeIsLonger(u: Text)
    requires WellFormed(u)
    ensures |u| <= |Encode(u)|
    decreases |u|
  {
    if u != [] {
      EncodeIsLonger(if High(u[0]) then u[2..] else u[1..]);
    }
  }
}
