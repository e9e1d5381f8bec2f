/**
 * Standard base64 with padding (section 4 of RFC 4648), and a decoder of unpadded content that ignores the
 * unused bits of the last character: decoding an encoding gives the bytes back, whatever bytes they are, and
 * encoding what was decoded gives the content back with its unused bits cleared.
 */
module Base64 {
  import opened Basics

  predicate Alphabet(c: int) {
    65 <= c <= 90 || 97 <= c <= 122 || 48 <= c <= 57 || c == 43 || c == 47
  }

  function Symbol(v: int): (c: Code)
    requires 0 <= v < 64
    ensures Alphabet(c) && Sextet(c) == v
  {
    if v < 26 then 65 + v
    else if v < 52 then 71 + v
    else if v < 62 then v - 4
    else if v == 62 then 43
    else 47
  }

  function Sextet(c: int): (v: int)
    requires Alphabet(c)
    ensures 0 <= v < 64
  {
    if 65 <= c <= 90 then c - 65
    else if 97 <= c <= 122 then c - 71
    else if 48 <= c <= 57 then c + 4
    else if c == 43 then 62
    else 63
  }

  predicate AllAlphabet(t: Text) { forall i | 0 <= i < |t| :: Alphabet(t[i]) }

  function ByteOr0(b: seq<Byte>, i: nat): int { if i < |b| then b[i] else 0 }

  /** The `j`-th group of six bits, bits past the end being zero. */
  function SextetAt(b: seq<Byte>, j: nat): (v: int)
    ensures 0 <= v < 64
  {
    var k := j / 4 * 3;
    match j % 4
    case 0 => ByteOr0(b, k) / 4
    case 1 => ByteOr0(b, k) % 4 * 16 + ByteOr0(b, k + 1) / 16
    case 2 => ByteOr0(b, k + 1) % 16 * 4 + ByteOr0(b, k + 2) / 64
    case _ => ByteOr0(b, k + 2) % 64
  }

  /** The symbols of some bytes, without padding. */
  function Content(b: seq<Byte>): (t: Text)
    ensures AllAlphabet(t)
    ensures |t| == (|b| * 8 + 5) / 6
  {
    seq((|b| * 8 + 5) / 6, j requires 0 <= j => Symbol(SextetAt(b, j)))
  }

  function Padding(n: nat): (t: Text)
    ensures |t| == (3 - n % 3) % 3
    ensures forall i | 0 <= i < |t| :: t[i] == 61
  {
    if n % 3 == 0 then [] else if n % 3 == 1 then [61, 61] else [61]
  }

  function Encode(b: seq<Byte>): (t: Text) { Content(b) + Padding(|b|) }

  /** Eight bits out of two neighbouring groups of six, by their position in the group of three bytes. */
  function Join(r: int, x: int, y: int): (b: int)
    requires 0 <= x < 64 && 0 <= y < 64
    ensures 0 <= b < 256
  {
    if r == 0 then x * 4 + y / 16 else if r == 1 then x % 16 * 16 + y / 4 else x % 4 * 64 + y
  }

  function ByteAt(t: Text, i: nat): (b: int)
    requires AllAlphabet(t) && i / 3 * 4 + i % 3 + 1 < |t|
    ensures 0 <= b < 256
  {
    var j := i / 3 * 4 + i % 3;
    Join(i % 3, Sextet(t[j]), Sextet(t[j + 1]))
  }

  lemma WholeBytes(n: nat, i: nat)
    requires i < n * 6 / 8
    ensures i / 3 * 4 + i % 3 + 1 < n
  {
  }

  /** The bytes of unpadded content; bits that do not fill a byte are dropped. */
  function Decode(t: Text): (b: seq<Byte>)
    requires AllAlphabet(t)
    ensures |b| == |t| * 6 / 8
  {
    assert forall i: nat | i < |t| * 6 / 8 :: i / 3 * 4 + i % 3 + 1 < |t| by {
      forall i: nat | i < |t| * 6 / 8 ensures i / 3 * 4 + i % 3 + 1 < |t| {
        WholeBytes(|t|, i);
      }
    }
    seq(|t| * 6 / 8, i requires 0 <= i < |t| * 6 / 8 => ByteAt(t, i))
  }

  lemma SizesAgree(n: nat)
    ensures (n * 8 + 5) / 6 * 6 / 8 == n
  {
    var q, r := n / 3, n % 3;
    assert n == 3 * q + r;
    if r == 0 {
      assert (n * 8 + 5) / 6 == 4 * q;
    } else if r == 1 {
      assert (n * 8 + 5) / 6 == 4 * q + 2;
    } else {
      assert (n * 8 + 5) / 6 == 4 * q + 3;
    }
  }

  lemma Sextets(b: seq<Byte>, q: nat)
    ensures SextetAt(b, 4 * q) == ByteOr0(b, 3 * q) / 4
    ensures SextetAt(b, 4 * q + 1) == ByteOr0(b, 3 * q) % 4 * 16 + ByteOr0(b, 3 * q + 1) / 16
    ensures SextetAt(b, 4 * q + 2) == ByteOr0(b, 3 * q + 1) % 16 * 4 + ByteOr0(b, 3 * q + 2) / 64
    ensures SextetAt(b, 4 * q + 3) == ByteOr0(b, 3 * q + 2) % 64
  {
    assert (4 * q) / 4 == q && (4 * q + 1) / 4 == q && (4 * q + 2) / 4 == q && (4 * q + 3) / 4 == q;
    assert (4 * q) % 4 == 0 && (4 * q + 1) % 4 == 1 && (4 * q + 2) % 4 == 2 && (4 * q + 3) % 4 == 3;
  }

  lemma JoinedBytes(x: int, y: int, z: int)
    requires 0 <= x < 256 && 0 <= y < 256 && 0 <= z < 256
    ensures Join(0, x / 4, x % 4 * 16 + y / 16) == x
    ensures Join(1, x % 4 * 16 + y / 16, y % 16 * 4 + z / 64) == y
    ensures Join(2, y % 16 * 4 + z / 64, z % 64) == z
  {
  }

  lemma SameByte(b: seq<Byte>, q: nat, r: nat)
    requires r < 3 && 3 * q + r < |b|
    ensures Join(r, SextetAt(b, 4 * q + r), SextetAt(b, 4 * q + r + 1)) == b[3 * q + r]
  {
    hide SextetAt, Join;
    Sextets(b, q);
    JoinedBytes(ByteOr0(b, 3 * q), ByteOr0(b, 3 * q + 1), ByteOr0(b, 3 * q + 2));
  }

  lemma ByteOfContent(b: seq<Byte>, i: nat)
    requires i < |b|
    ensures i / 3 * 4 + i % 3 + 1 < |Content(b)| && ByteAt(Content(b), i) == b[i]
  {
    hide SextetAt, Join;
    var t, j := Content(b), i / 3 * 4 + i % 3;
    SizesAgree(|b|);
    WholeBytes(|t|, i);
    SameByte(b, i / 3, i % 3);
    assert t[j] == Symbol(SextetAt(b, j)) && t[j + 1] == Symbol(SextetAt(b, j + 1));
  }

  lemma DecodeContent(b: seq<Byte>)
    ensures Decode(Content(b)) == b
  {
    SizesAgree(|b|);
    forall i | 0 <= i < |b| ensures Decode(Content(b))[i] == b[i] {
      ByteOfContent(b, i);
    }
  }

  /** How much of the last character's value is not used: nothing in whole groups, four bits after one byte, two after two. */
  function Unit(n: nat): (u: int)
    ensures u > 0
  {
    if n % 4 == 2 then 16 else if n % 4 == 3 then 4 else 1
  }

  lemma JoinedSextets(x: int, y: int, z: int, w: int)
    requires 0 <= x < 64 && 0 <= y < 64 && 0 <= z < 64 && 0 <= w < 64
    ensures Join(0, x, y) / 4 == x && Join(2, z, w) % 64 == w
    ensures Join(0, x, y) % 4 * 16 + Join(1, y, z) / 16 == y && Join(0, x, y) % 4 * 16 == y - y % 16
    ensures Join(1, y, z) % 16 * 4 + Join(2, z, w) / 64 == z && Join(1, y, z) % 16 * 4 == z - z % 4
  {
  }

  /** The symbol values of a group of four, or zero past the end. */
  function SextetOr0(t: Text, j: nat): (v: int)
    requires AllAlphabet(t)
    ensures 0 <= v < 64
  {
    if j < |t| then Sextet(t[j]) else 0
  }

  lemma BytesOfGroup(t: Text, q: nat, r: nat)
    requires AllAlphabet(t) && r < 3
    ensures 3 * q + r < |t| * 6 / 8 <==> 4 * q + r + 1 < |t|
    ensures 3 * q + r < |t| * 6 / 8 ==>
              Decode(t)[3 * q + r] == Join(r, SextetOr0(t, 4 * q + r), SextetOr0(t, 4 * q + r + 1))
  {
    var m, e := |t| / 4, |t| % 4;
    assert |t| == 4 * m + e;
    assert |t| * 6 / 8 == 3 * m + e * 6 / 8;
    if 3 * q + r < |t| * 6 / 8 {
      assert (3 * q + r) / 3 == q && (3 * q + r) % 3 == r;
    }
  }

  lemma SymbolBack(c: int)
    requires Alphabet(c)
    ensures Symbol(Sextet(c)) == c
  {
  }

  lemma SextetBack(t: Text, q: nat, r: nat)
    requires AllAlphabet(t) && |t| % 4 != 1 && r < 4 && 4 * q + r < |t|
    ensures SextetAt(Decode(t), 4 * q + r)
         == if 4 * q + r == |t| - 1 then Sextet(t[4 * q + r]) - Sextet(t[4 * q + r]) % Unit(|t|) else Sextet(t[4 * q + r])
  {
    hide SextetAt, Join, Decode;
    var b := Decode(t);
    Sextets(b, q);
    JoinedSextets(SextetOr0(t, 4 * q), SextetOr0(t, 4 * q + 1), SextetOr0(t, 4 * q + 2), SextetOr0(t, 4 * q + 3));
    BytesOfGroup(t, q, 0);
    BytesOfGroup(t, q, 1);
    BytesOfGroup(t, q, 2);
  }

  /**
   * What content denotes: the bytes whose own content is the same text, except that the last character
   * keeps only the bits that belong to a byte.
   */
  lemma ContentDecode(t: Text)
    requires AllAlphabet(t) && |t| % 4 != 1
    ensures var u := Content(Decode(t));
      && |u| == |t| && (forall j | 0 <= j < |t| - 1 :: u[j] == t[j])
      && (t != [] ==> Sextet(u[|t| - 1]) == Sextet(t[|t| - 1]) - Sextet(t[|t| - 1]) % Unit(|t|))
  {
    hide SextetAt, Unit, Decode;
    var u := Content(Decode(t));
    assert |u| == |t| by {
      var m, e := |t| / 4, |t| % 4;
      assert |t| == 4 * m + e && |t| * 6 / 8 == 3 * m + e * 6 / 8;
    }
    forall j: nat | j < |t|
      ensures Sextet(u[j]) == if j == |t| - 1 then Sextet(t[j]) - Sextet(t[j]) % Unit(|t|) else Sextet(t[j])
    {
      SextetBack(t, j / 4, j % 4);
    }
    forall j: nat | j < |t| - 1 ensures u[j] == t[j] {
      SymbolBack(t[j]);
      SymbolBack(u[j]);
    }
  }
}
