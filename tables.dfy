/**
 * The lookup tables the packet code indexes (HamTab, DehamTable, ParTab)
 * and the libzvbi coders it calls (vbi_unham8, vbi_ham24p), defined from
 * ETSI EN 300 706: Hamming 8/4 in section 8.2, odd parity in section 8.1,
 * Hamming 24/18 in section 8.3.
 */
module Tables {

  type byte = bv8

  /** Odd parity over the eight bits of a byte: 1 when an odd number of bits are set. */
  function Parity8(b: byte): byte
  {
    var x := b ^ (b >> 4);
    var y := x ^ (x >> 2);
    (y ^ (y >> 1)) & 1
  }

  predicate OddParity(b: byte)
  {
    Parity8(b) == 1
  }

  /**
   * HamTab: the Hamming 8/4 codeword of a nibble (section 8.2).
   * Transmission order b1..b8 = P1 D1 P2 D2 P3 D3 P4 D4, b1 the least
   * significant bit; every protection bit gives odd parity over its group.
   */
  function Ham(n: byte): byte
    requires n < 16
  {
    var d1, d2, d3, d4 := n & 1, (n >> 1) & 1, (n >> 2) & 1, (n >> 3) & 1;
    var p1 := 1 ^ d1 ^ d3 ^ d4;
    var p2 := 1 ^ d1 ^ d2 ^ d4;
    var p3 := 1 ^ d1 ^ d2 ^ d3;
    var p4 := 1 ^ p1 ^ d1 ^ p2 ^ d2 ^ p3 ^ d3 ^ d4;
    p1 | (d1 << 1) | (p2 << 2) | (d2 << 3) | (p3 << 4) | (d3 << 5) | (p4 << 6) | (d4 << 7)
  }

  /** The data nibble carried by the even-numbered bits of a Hamming 8/4 byte. */
  function HamData(b: byte): byte
  {
    ((b >> 1) & 1) | ((b >> 2) & 2) | ((b >> 3) & 4) | ((b >> 4) & 8)
  }

  /** The four parity checks of section 8.2 hold and the data bits are the nibble. */
  lemma HamIsCodeword(n: byte)
    requires n < 16
    ensures OddParity(Ham(n))
    ensures HamData(Ham(n)) == n
    ensures Parity8(Ham(n) & 0xA3) == 1 && Parity8(Ham(n) & 0x8E) == 1 && Parity8(Ham(n) & 0x3A) == 1
  {
  }

  /** The data bits of a codeword are its nibble. */
  lemma HamDataHam(n: byte)
    requires n < 16
    ensures HamData(Ham(n)) == n
  {
  }

  /** The codewords, as the table in hamm.h lists them. */
  lemma HamTabValues()
    ensures Ham(0) == 0x15 && Ham(1) == 0x02 && Ham(2) == 0x49 && Ham(3) == 0x5E
    ensures Ham(4) == 0x64 && Ham(5) == 0x73 && Ham(6) == 0x38 && Ham(7) == 0x2F
    ensures Ham(8) == 0xD0 && Ham(9) == 0xC7 && Ham(10) == 0x8C && Ham(11) == 0x9B
    ensures Ham(12) == 0xA1 && Ham(13) == 0xB6 && Ham(14) == 0xFD && Ham(15) == 0xEA
  {
  }

  /** The lowest nibble n >= from whose codeword, with bit 7 masked, is x; 0xFF when none is. */
  function DehamFrom(x: byte, from: byte): (r: byte)
    requires from <= 16
    ensures r == 0xFF || (from <= r < 16 && Ham(r) & 0x7F == x)
    decreases 16 - from as int
  {
    if from == 16 then 0xFF
    else if Ham(from) & 0x7F == x then from
    else DehamFrom(x, from + 1)
  }

  /**
   * DehamTable, indexed by a byte with its parity bit masked off: the
   * nibble whose codeword that is. The entries for indices that are not a
   * masked codeword are not part of this model; they are taken to be 0xFF.
   */
  function Deham(x: byte): (r: byte)
    ensures r == 0xFF || r < 16
  {
    DehamFrom(x, 0)
  }

  /** Masking bit 7 keeps the sixteen codewords distinct, so DehamTable inverts HamTab. */
  lemma {:induction false} DehamHam(n: byte)
    requires n < 16
    ensures Deham(Ham(n) & 0x7F) == n
  {
    DehamFromFinds(Ham(n) & 0x7F, 0, n);
  }

  /** Scanning from any nibble up to n finds n when x is n's masked codeword. */
  lemma {:induction false} DehamFromFinds(x: byte, from: byte, n: byte)
    requires from <= n < 16
    requires Ham(n) & 0x7F == x
    ensures DehamFrom(x, from) == n
    decreases n - from
  {
    if from < n && Ham(from) & 0x7F == x {
      MaskedCodewordsDistinct(from, n);
    } else if from < n {
      DehamFromFinds(x, from + 1, n);
    }
  }

  lemma MaskedCodewordsDistinct(m: byte, n: byte)
    requires m < 16 && n < 16
    requires Ham(m) & 0x7F == Ham(n) & 0x7F
    ensures m == n
  {
  }

  /** ParTab, indexed by a 7-bit code: the code with bit 7 set so the byte has odd parity. */
  function ParTab(x: byte): (r: byte)
    requires x < 0x80
    ensures r & 0x7F == x
    ensures OddParity(r)
  {
    if Parity8(x) == 1 then x else x | 0x80
  }

  /** The number of bits in which two bytes differ is at most one. */
  predicate WithinOneBit(a: byte, b: byte)
  {
    var d := a ^ b;
    d & (d - 1) == 0
  }

  /** The lowest nibble n >= from whose codeword is within one bit of b, or 0xFF. */
  function UnhamFrom(b: byte, from: byte): (r: byte)
    requires from <= 16
    ensures r == 0xFF || (from <= r < 16 && WithinOneBit(Ham(r), b))
    decreases 16 - from as int
  {
    if from == 16 then 0xFF
    else if WithinOneBit(Ham(from), b) then from
    else UnhamFrom(b, from + 1)
  }

  /**
   * vbi_unham8: decodes a Hamming 8/4 byte, correcting a single bit error;
   * -1 when the byte is not within one bit of any codeword.
   */
  function Unham8(b: byte): (r: int)
    ensures r == -1 || 0 <= r < 16
  {
    var n := UnhamFrom(b, 0);
    if n == 0xFF then -1 else n as int
  }

  /** vbi_unham8 fails exactly when no codeword is within one bit of the byte. */
  lemma Unham8Fails(b: byte)
    ensures Unham8(b) == -1 <==> forall n: byte :: n < 16 ==> !WithinOneBit(Ham(n), b)
  {
    UnhamFromNone(b, 0);
    if Unham8(b) != -1 {
      var n := UnhamFrom(b, 0);
      assert n < 16 && WithinOneBit(Ham(n), b);
    }
  }

  /** A scan that finds nothing has passed no codeword within one bit of b. */
  lemma {:induction false} UnhamFromNone(b: byte, from: byte)
    requires from <= 16
    ensures UnhamFrom(b, from) == 0xFF ==> forall n: byte :: from <= n < 16 ==> !WithinOneBit(Ham(n), b)
    decreases 16 - from as int
  {
    if from < 16 && !WithinOneBit(Ham(from), b) {
      UnhamFromNone(b, from + 1);
    }
  }

  /** Codewords are at least three bits apart, so at most one is within one bit of a byte. */
  lemma CodewordsFarApart(m: byte, n: byte, b: byte)
    requires m < 16 && n < 16
    requires WithinOneBit(Ham(m), b) && WithinOneBit(Ham(n), b)
    ensures m == n
  {
  }

  /** Scanning from any nibble up to n finds n when n's codeword is within one bit of b. */
  lemma {:induction false} UnhamFromFinds(b: byte, from: byte, n: byte)
    requires from <= n < 16
    requires WithinOneBit(Ham(n), b)
    ensures UnhamFrom(b, from) == n
    decreases n - from
  {
    if from < n && WithinOneBit(Ham(from), b) {
      CodewordsFarApart(from, n, b);
    } else if from < n {
      UnhamFromFinds(b, from + 1, n);
    }
  }

  /** vbi_unham8 recovers the nibble from its codeword with any single bit flipped (or none). */
  lemma UnhamHam(n: byte, e: byte)
    requires n < 16
    requires e & (e - 1) == 0
    ensures Unham8(Ham(n) ^ e) == n as int
  {
    var b := Ham(n) ^ e;
    assert WithinOneBit(Ham(n), b) by { assert Ham(n) ^ b == e; }
    UnhamFromFinds(b, 0, n);
  }

  /** Odd parity of the set bits of a 24-bit word (held in a bv32). */
  function Parity24(w: bv32): bv32
  {
    var a := w ^ (w >> 16);
    var b := a ^ (a >> 8);
    var c := b ^ (b >> 4);
    var d := c ^ (c >> 2);
    (d ^ (d >> 1)) & 1
  }

  /** The bit positions b1..b24 (bit index b - 1) covered by each protection bit of section 8.3. */
  const P1Group: bv32 := 0x555555
  const P2Group: bv32 := 0x666666
  const P3Group: bv32 := 0x787878
  const P4Group: bv32 := 0x007F80
  const P5Group: bv32 := 0x7F8000
  const AllBits: bv32 := 0xFFFFFF

  /** D1 at b3, D2..D4 at b5..b7, D5..D11 at b9..b15, D12..D18 at b17..b23. */
  function PlaceData(c: bv32): bv32
  {
    ((c & 1) << 2) | ((c & 0xE) << 3) | ((c & 0x7F0) << 4) | ((c & 0x3F800) << 5)
  }

  /** The protection bit that gives the group g of x odd parity. */
  function Protect(x: bv32, g: bv32): bv32
  {
    1 ^ Parity24(x & g)
  }

  /** The data bits with P1..P5 (b1, b2, b4, b8, b16) added. */
  function Ham24Word5(c: bv32): bv32
  {
    var d := PlaceData(c);
    d | Protect(d, P1Group) | (Protect(d, P2Group) << 1) | (Protect(d, P3Group) << 3) |
      (Protect(d, P4Group) << 7) | (Protect(d, P5Group) << 15)
  }

  /** The 24-bit Hamming 24/18 word for the low 18 bits of c: P6 (b24) makes the whole word odd. */
  function Ham24Word(c: bv32): (w: bv32)
  {
    var w5 := Ham24Word5(c);
    w5 | (Protect(w5, AllBits) << 23)
  }

  /** vbi_ham24p: the three transmitted bytes of a triplet, b1..b8 first. */
  function Ham24(c: bv32): (t: seq<byte>)
    ensures |t| == 3
  {
    var w := Ham24Word(c);
    [(w & 0xFF) as byte, ((w >> 8) & 0xFF) as byte, ((w >> 16) & 0xFF) as byte]
  }

  /** The 18 data bits read back from the three bytes of a triplet. */
  function Ham24Data(t: seq<byte>): bv32
    requires |t| == 3
  {
    var w := (t[0] as bv32) | ((t[1] as bv32) << 8) | ((t[2] as bv32) << 16);
    ((w >> 2) & 1) | ((w >> 3) & 0xE) | ((w >> 4) & 0x7F0) | ((w >> 5) & 0x3F800)
  }

  /** A triplet carries the low 18 bits of its value: the data bits read back are those bits. */
  lemma Ham24RoundTrip(c: bv32)
    ensures Ham24Data(Ham24(c)) == c & 0x3FFFF
  {
  }
}
