/** atlas/js/export.js: the table-driven CRC-32, proved equal to the bit-serial register of section 8
    of RFC 1952. Words are naturals below 2^32 (JavaScript's operands after >>> 0), so
    c >>> 1 is c / 2, c & 0xFF is c % 256, and ^ is Xor below. */
module Crc32 {
  import opened Common

  const WORDS := 0x1_0000_0000
  type Word = w: int | 0 <= w < WORDS

  const POLY: Word := 0xEDB88320
  const ONES: Word := 0xFFFFFFFF

  /** Bitwise exclusive or. */
  function Xor(a: nat, b: nat): nat
    decreases a + b
  {
    if a == 0 then b
    else if b == 0 then a
    else (if a % 2 != b % 2 then 1 else 0) + 2 * Xor(a / 2, b / 2)
  }

  lemma {:induction false} XorHalves(a: nat, b: nat)
    ensures Xor(a, b) / 2 == Xor(a / 2, b / 2)
    ensures (Xor(a, b) % 2 == 1) <==> (a % 2 != b % 2)
  {
  }

  lemma {:induction false} XorCommutes(a: nat, b: nat)
    ensures Xor(a, b) == Xor(b, a)
    decreases a + b
  {
    if a != 0 && b != 0 {
      XorCommutes(a / 2, b / 2);
    }
  }

  lemma SameHalves(x: nat, y: nat)
    requires x / 2 == y / 2 && x % 2 == y % 2
    ensures x == y
  {
  }

  lemma {:induction false} XorAssociates(a: nat, b: nat, c: nat)
    ensures Xor(Xor(a, b), c) == Xor(a, Xor(b, c))
    decreases a + b + c
  {
    if a != 0 && b != 0 && c != 0 {
      XorHalves(a, b);
      XorHalves(b, c);
      XorHalves(Xor(a, b), c);
      XorHalves(a, Xor(b, c));
      XorAssociates(a / 2, b / 2, c / 2);
      SameHalves(Xor(Xor(a, b), c), Xor(a, Xor(b, c)));
    }
  }

  lemma {:induction false} XorSelf(a: nat)
    ensures Xor(a, a) == 0
  {
    if a != 0 {
      XorSelf(a / 2);
    }
  }

  /** Xor stays within any power of two that bounds both operands. */
  lemma {:induction false} XorBounded(a: nat, b: nat, bits: nat)
    requires a < Pow2(bits) && b < Pow2(bits)
    ensures Xor(a, b) < Pow2(bits)
    decreases bits
  {
    if bits > 0 && a != 0 && b != 0 {
      XorBounded(a / 2, b / 2, bits - 1);
    }
  }

  function Pow2(n: nat): (r: nat)
    ensures r > 0
  {
    if n == 0 then 1 else 2 * Pow2(n - 1)
  }

  lemma WordBits()
    ensures Pow2(32) == WORDS
  {
    assert Pow2(8) == 256;
    assert Pow2(16) == 256 * Pow2(8);
    assert Pow2(24) == 256 * Pow2(16);
    assert Pow2(32) == 256 * Pow2(24);
  }

  function XorWord(a: Word, b: Word): (r: Word) {
    WordBits();
    XorBounded(a, b, 32);
    Xor(a, b)
  }

  // ------------------------------------------------------------------ the bit-serial reference

  /** One message bit into the register: shift right, and add the polynomial if the bit that falls out
      differs from the message bit. */
  function Feed(c: nat, bit: nat): nat {
    if c % 2 != bit % 2 then Xor(POLY, c / 2) else c / 2
  }

  /** The k lowest bits of b, least significant first. */
  function FeedBits(c: nat, b: nat, k: nat): nat
    decreases k
  {
    if k == 0 then c else FeedBits(Feed(c, b % 2), b / 2, k - 1)
  }

  function FeedBytes(c: nat, bytes: seq<Byte>): nat {
    if bytes == [] then c else FeedBits(FeedBytes(c, bytes[..|bytes| - 1]), bytes[|bytes| - 1], 8)
  }

  function BitSerialCrc(bytes: seq<Byte>): nat {
    Xor(FeedBytes(ONES, bytes), ONES)
  }

  lemma {:induction false} FeedBytesAppend(c: nat, a: seq<Byte>, b: seq<Byte>)
    ensures FeedBytes(c, a + b) == FeedBytes(FeedBytes(c, a), b)
  {
    if b == [] {
      assert a + b == a;
    } else {
      assert (a + b)[..|a + b| - 1] == a + b[..|b| - 1];
      FeedBytesAppend(c, a, b[..|b| - 1]);
    }
  }

  // ------------------------------------------------------------------ the table

  /** c & 1 ? 0xEDB88320 ^ (c >>> 1) : c >>> 1 */
  function Step(c: nat): nat {
    if c % 2 == 1 then Xor(POLY, c / 2) else c / 2
  }

  function Steps(c: nat, k: nat): nat
    decreases k
  {
    if k == 0 then c else Steps(Step(c), k - 1)
  }

  lemma StepXor(a: nat, b: nat)
    ensures Step(Xor(a, b)) == Xor(Step(a), Step(b))
  {
    var x, y := a / 2, b / 2;
    XorHalves(a, b);
    XorAssociates(POLY, x, y);
    XorCommutes(POLY, x);
    XorAssociates(x, POLY, y);
    if a % 2 == 1 && b % 2 == 1 {
      // (P ^ x) ^ (P ^ y) == ((x ^ P) ^ P) ^ y
      XorAssociates(Xor(x, POLY), POLY, y);
      XorAssociates(x, POLY, POLY);
      XorSelf(POLY);
      assert Xor(x, 0) == x;
    }
  }

  lemma {:induction false} StepsXor(a: nat, b: nat, k: nat)
    ensures Steps(Xor(a, b), k) == Xor(Steps(a, k), Steps(b, k))
    decreases k
  {
    if k > 0 {
      StepXor(a, b);
      StepsXor(Step(a), Step(b), k - 1);
    }
  }

  /** x >>> k, the k low bits of x, and h << k. */
  function Shr(x: nat, k: nat): nat
    decreases k
  {
    if k == 0 then x else Shr(x / 2, k - 1)
  }

  function Low(x: nat, k: nat): nat
    decreases k
  {
    if k == 0 then 0 else x % 2 + 2 * Low(x / 2, k - 1)
  }

  function Shl(h: nat, k: nat): nat {
    if k == 0 then h else 2 * Shl(h, k - 1)
  }

  lemma TwoBits(x: nat)
    ensures Shr(x, 2) == x / 4 && Low(x, 2) == x % 4
  {
    assert Shr(x, 2) == Shr(x / 2, 1) == Shr(x / 2 / 2, 0);
    assert Low(x, 2) == x % 2 + 2 * Low(x / 2, 1) && Low(x / 2, 1) == x / 2 % 2 + 2 * Low(x / 2 / 2, 0);
  }

  lemma {:induction false} BitsJoin(x: nat, k: nat, m: nat)
    ensures Shr(x, k + m) == Shr(Shr(x, k), m) && Low(x, k + m) == Low(x, k) + Shl(Low(Shr(x, k), m), k)
    decreases k
  {
    if k > 0 {
      BitsJoin(x / 2, k - 1, m);
    }
  }

  lemma EightBits(x: nat)
    ensures Shr(x, 8) == x / 256 && Low(x, 8) == x % 256
  {
    FourBits(x);
    FourBits(x / 16);
    BitsJoin(x, 4, 4);
    ShlFour(x / 16 % 16);
  }

  lemma FourBits(x: nat)
    ensures Shr(x, 4) == x / 16 && Low(x, 4) == x % 16
  {
    TwoBits(x);
    TwoBits(x / 4);
    BitsJoin(x, 2, 2);
    var h := x / 4 % 4;
    assert Shl(h, 2) == 2 * Shl(h, 1) && Shl(h, 1) == 2 * Shl(h, 0);
  }

  lemma ShlFour(h: nat)
    ensures Shl(h, 4) == 16 * h
  {
    assert Shl(h, 4) == 2 * Shl(h, 3) && Shl(h, 3) == 2 * Shl(h, 2) && Shl(h, 2) == 2 * Shl(h, 1)
      && Shl(h, 1) == 2 * Shl(h, 0);
  }

  lemma {:induction false} StepsShift(h: nat, k: nat)
    ensures Steps(Shl(h, k), k) == h
    decreases k
  {
    if k > 0 {
      StepsShift(h, k - 1);
    }
  }

  lemma {:induction false} XorSplits(x: nat, k: nat)
    ensures Xor(Low(x, k), Shl(Shr(x, k), k)) == x
    decreases k
  {
    if k > 0 {
      var lo, hi := Low(x, k), Shl(Shr(x, k), k);
      assert lo / 2 == Low(x / 2, k - 1) && lo % 2 == x % 2;
      assert hi / 2 == Shl(Shr(x / 2, k - 1), k - 1) && hi % 2 == 0;
      XorSplits(x / 2, k - 1);
      XorHalves(lo, hi);
      SameHalves(Xor(lo, hi), x);
    }
  }

  /** Eight steps of a register are one table lookup on its low byte. */
  lemma TableLookup(x: nat)
    ensures Steps(x, 8) == Xor(Steps(x % 256, 8), x / 256)
  {
    EightBits(x);
    XorSplits(x, 8);
    StepsXor(Low(x, 8), Shl(Shr(x, 8), 8), 8);
    StepsShift(x / 256, 8);
  }

  /** Feeding the bits of b one at a time is adding b and then stepping. */
  lemma {:induction false} FeedBitsIsSteps(c: nat, b: nat, k: nat)
    ensures Steps(Xor(c, b), k) == Xor(FeedBits(c, b, k), Shr(b, k))
    decreases k
  {
    if k > 0 {
      StepFeeds(c, b);
      FeedBitsIsSteps(Feed(c, b % 2), b / 2, k - 1);
    }
  }

  lemma StepFeeds(c: nat, b: nat)
    ensures Step(Xor(c, b)) == Xor(Feed(c, b % 2), b / 2)
  {
    StepFeedsBy(POLY, c, b);
  }

  lemma StepFeedsBy(p: nat, c: nat, b: nat)
    ensures (if Xor(c, b) % 2 == 1 then Xor(p, Xor(c, b) / 2) else Xor(c, b) / 2)
      == Xor(if c % 2 != b % 2 % 2 then Xor(p, c / 2) else c / 2, b / 2)
  {
    hide Xor;
    XorHalves(c, b);
    XorAssociates(p, c / 2, b / 2);
  }

  /** One turn of the crc32 loop is eight bits of the reference. */
  lemma LoopTurn(c: nat, b: Byte)
    ensures Xor(Steps(Xor(c, b) % 256, 8), c / 256) == FeedBits(c, b, 8)
  {
    TableLookup(Xor(c, b));
    FeedBitsIsSteps(c, b, 8);
    EightBits(b);
    XorCommutes(FeedBits(c, b, 8), 0);
    XorShr(c, b, 8);
    EightBits(Xor(c, b));
    EightBits(c);
    XorCommutes(c / 256, 0);
  }

  lemma {:induction false} XorShr(a: nat, b: nat, k: nat)
    ensures Shr(Xor(a, b), k) == Xor(Shr(a, k), Shr(b, k))
    decreases k
  {
    if k > 0 {
      XorHalves(a, b);
      XorShr(a / 2, b / 2, k - 1);
    }
  }

  // ------------------------------------------------------------------ the code

  ghost predicate IsTable(t: array<Word>)
    reads t
  {
    t.Length == 256 && forall n: nat :: n < 256 ==> t[n] == Steps(n, 8)
  }

  lemma StepIs(c: nat)
    ensures Step(c) == if c % 2 == 1 then Xor(POLY, c / 2) else c / 2
  {
  }

  method BuildTable() returns (t: array<Word>)
    ensures IsTable(t)
  {
    hide Xor, Pow2, Step;
    t := new Word[256];
    for n := 0 to 256
      invariant forall i: nat :: i < n ==> t[i] == Steps(i, 8)
    {
      var c: Word := n;
      for k := 0 to 8
        invariant Steps(c, 8 - k) == Steps(n, 8)
        invariant forall i: nat :: i < n ==> t[i] == Steps(i, 8)
      {
        StepIs(c);
        c := if c % 2 == 1 then XorWord(POLY, c / 2) else c / 2;
      }
      t[n] := c;
    }
  }

  // ------------------------------------------------------------------ known values

  /** Exclusive or, one hexadecimal digit off the end. */
  lemma XorDigit(a: nat, b: nat)
    ensures Xor(a, b) == Xor(a % 16, b % 16) + 16 * Xor(a / 16, b / 16)
  {
    hide Xor;
    XorTwoBits(a, b);
    XorTwoBits(a / 4, b / 4);
    XorTwoBits(a % 16, b % 16);
    assert a / 4 / 4 == a / 16 && b / 4 / 4 == b / 16;
    assert a % 16 % 4 == a % 4 && b % 16 % 4 == b % 4 && a % 16 / 4 == a / 4 % 4 && b % 16 / 4 == b / 4 % 4;
  }

  lemma XorTwoBits(a: nat, b: nat)
    ensures Xor(a, b) == Xor(a % 4, b % 4) + 4 * Xor(a / 4, b / 4)
  {
    hide Xor;
    XorBit(a, b);
    XorBit(a / 2, b / 2);
    XorBit(a % 4, b % 4);
    XorBit(a % 4 / 2, b % 4 / 2);
    XorZero(0);
    LowBits(a);
    LowBits(b);
  }

  lemma LowBits(a: nat)
    ensures a / 2 / 2 == a / 4 && a % 4 / 2 % 2 == a / 2 % 2 && a % 4 % 2 == a % 2 && a % 4 / 2 / 2 == 0
  {
  }

  lemma XorBit(a: nat, b: nat)
    ensures Xor(a, b) == (if a % 2 != b % 2 then 1 else 0) + 2 * Xor(a / 2, b / 2)
  {
  }

  lemma Digits()
    ensures Xor(0x0, 0xC) == 0xC && Xor(0x2, 0x0) == 0x2 && Xor(0x3, 0x2) == 0x1 && Xor(0x8, 0xE) == 0x6
    ensures Xor(0x8, 0x6) == 0xE && Xor(0xB, 0xB) == 0x0 && Xor(0xD, 0x3) == 0xE && Xor(0xE, 0x0) == 0xE
  {
    XorSelf(0xB);
  }

  /** The table's published entries 0, 1 and 128: none, the polynomial's image, and the polynomial itself. */
  lemma KnownEntries()
    ensures Steps(0, 8) == 0 && Steps(1, 8) == 0x77073096 && Steps(128, 8) == 0xEDB88320
  {
    hide Xor;
    XorZero(0xEDB88320);
    KnownXor();
    assert Steps(1, 8) == Steps(0xEDB88320, 7);
    assert Steps(0xEDB88320, 7) == Steps(0x076DC419, 2);
    assert Steps(0x076DC419, 2) == Steps(0xEE0E612C, 1);
    assert Steps(128, 8) == Steps(1, 1);
  }

  lemma KnownXor()
    ensures Xor(0xEDB88320, 0x03B6E20C) == 0xEE0E612C
  {
    hide Xor;
    Digits();
    XorDigit(0xEDB88320, 0x03B6E20C);
    XorDigit(0xEDB8832, 0x03B6E20);
    XorDigit(0xEDB883, 0x03B6E2);
    XorDigit(0xEDB88, 0x03B6E);
    XorDigit(0xEDB8, 0x03B6);
    XorDigit(0xEDB, 0x03B);
    XorDigit(0xED, 0x03);
  }

  /** The CRC of no bytes is 0, that of the byte 0xFF is 0xFF000000: what the register starts from and is
      finally combined with. */
  lemma KnownCrcs()
    ensures BitSerialCrc([]) == 0 && BitSerialCrc([0xFF]) == 0xFF000000
  {
    hide Xor, FeedBits;
    XorSelf(ONES);
    Complement();
    ShiftedOnes();
    assert [0xFF][..0] == [];
    assert FeedBytes(ONES, [0xFF]) == FeedBits(FeedBytes(ONES, []), 0xFF, 8);
  }

  /** As long as the bits agree, the register is only shifted. */
  lemma {:induction false} ShiftedOnly(c: nat, b: nat, k: nat)
    requires c >= Pow2(k) - 1 && c % Pow2(k) == Pow2(k) - 1 && b % Pow2(k) == Pow2(k) - 1
    ensures FeedBits(c, b, k) == c / Pow2(k)
  {
    if k > 0 {
      var m := Pow2(k - 1);
      HalfOfOnes(c, m);
      HalfOfOnes(b, m);
      ShiftedOnly(c / 2, b / 2, k - 1);
    }
  }

  lemma HalfOfOnes(c: nat, m: nat)
    requires m > 0 && c % (2 * m) == 2 * m - 1
    ensures c % 2 == 1 && c / 2 % m == m - 1 && c / 2 / m == c / (2 * m)
  {
    var q := c / (2 * m);
    assert c == 2 * m * q + 2 * m - 1;
    assert 2 * m * q == 2 * (m * q);
    assert c / 2 == m * q + (m - 1);
    Divided(c / 2, m, q, m - 1);
  }

  lemma Divided(x: nat, m: nat, q: nat, r: nat)
    requires m > 0 && x == m * q + r && r < m
    ensures x / m == q && x % m == r
  {
    var d := x / m - q;
    assert x == m * (x / m) + x % m;
    assert m * (x / m) - m * q == m * d;
    assert d >= 1 ==> m * d >= m;
    assert d <= -1 ==> m * d + m <= 0;
  }

  lemma ShiftedOnes()
    ensures FeedBits(0xFFFFFFFF, 0xFF, 8) == 0x00FFFFFF
  {
    hide FeedBits;
    assert Pow2(8) == 256;
    ShiftedOnly(0xFFFFFFFF, 0xFF, 8);
  }

  lemma Complement()
    ensures Xor(0x00FFFFFF, 0xFFFFFFFF) == 0xFF000000
  {
    hide Xor;
    XorSelf(0xF);
    XorDigit(0x00FFFFFF, 0xFFFFFFFF);
    XorDigit(0x00FFFFF, 0xFFFFFFF);
    XorDigit(0x00FFFF, 0xFFFFFF);
    XorDigit(0x00FFF, 0xFFFFF);
    XorDigit(0x00FF, 0xFFFF);
    XorDigit(0x00F, 0xFFF);
    XorCommutes(0, 0xFF);
    XorZero(0xFF);
  }

  lemma XorZero(a: nat)
    ensures Xor(a, 0) == a
  {
  }

  /** crc32 computes the bit-serial CRC of any byte sequence. */
  method Crc(table: array<Word>, bytes: seq<Byte>) returns (crc: Word)
    requires IsTable(table)
    ensures crc == BitSerialCrc(bytes)
  {
    var c := ONES;
    for i := 0 to |bytes|
      invariant c == FeedBytes(ONES, bytes[..i])
    {
      assert bytes[..i + 1][..i] == bytes[..i];
      LoopTurn(c, bytes[i]);
      c := XorWord(table[XorWord(c, bytes[i]) % 256], c / 256);
    }
    assert bytes[..|bytes|] == bytes;
    crc := XorWord(c, ONES);
  }

  /** Processing a concatenation is continuing from the first part's register. */
  lemma CrcOfConcatenation(a: seq<Byte>, b: seq<Byte>)
    ensures BitSerialCrc(a + b) == Xor(FeedBytes(Xor(BitSerialCrc(a), ONES), b), ONES)
  {
    FeedBytesAppend(ONES, a, b);
    XorAssociates(FeedBytes(ONES, a), ONES, ONES);
    XorSelf(ONES);
    XorCommutes(FeedBytes(ONES, a), 0);
  }
}
