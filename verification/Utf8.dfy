/** UTF-8 as Python encodes it, and decodes it with errors="replace": every maximal ill-formed
    subpart becomes one U+FFFD. */
module Utf8 {
  import opened Common

  const REPLACEMENT: char := '\U{FFFD}'

  predicate Continuation(b: Byte) {
    0x80 <= b <= 0xBF
  }

  function EncodeChar(c: char): (r: seq<Byte>)
    ensures 1 <= |r| <= 4 && !Continuation(r[0])
    ensures (c as int) < 0x80 ==> r == [c as int]
    ensures (c as int) >= 0x80 ==> r[0] >= 0xC2
  {
    var n := c as int;
    if n < 0x80 then [n]
    else if n < 0x800 then [0xC0 + n / 0x40, 0x80 + n % 0x40]
    else if n < 0x1_0000 then [0xE0 + n / 0x1000, 0x80 + n / 0x40 % 0x40, 0x80 + n % 0x40]
    else [0xF0 + n / 0x4_0000, 0x80 + n / 0x1000 % 0x40, 0x80 + n / 0x40 % 0x40, 0x80 + n % 0x40]
  }

  function Encode(s: string): seq<Byte> {
    if s == [] then [] else EncodeChar(s[0]) + Encode(s[1..])
  }

  lemma {:induction false} EncodeAppend(a: string, b: string)
    ensures Encode(a + b) == Encode(a) + Encode(b)
  {
    if a == [] {
      assert a + b == b;
    } else {
      assert (a + b)[1..] == a[1..] + b;
      EncodeAppend(a[1..], b);
      assert EncodeChar(a[0]) + (Encode(a[1..]) + Encode(b)) == (EncodeChar(a[0]) + Encode(a[1..])) + Encode(b);
    }
  }

  /** How many bytes a lead byte announces; 0 for a byte that cannot start a sequence. */
  function Announced(b: Byte): nat {
    if b < 0x80 then 1
    else if 0xC2 <= b <= 0xDF then 2
    else if 0xE0 <= b <= 0xEF then 3
    else if 0xF0 <= b <= 0xF4 then 4
    else 0
  }

  /** The second byte of a sequence: overlong forms, surrogates and values past U+10FFFF are excluded here. */
  predicate SecondOk(lead: Byte, b: Byte) {
    && (if lead == 0xE0 then 0xA0 else if lead == 0xF0 then 0x90 else 0x80) <= b
    && b <= (if lead == 0xED then 0x9F else if lead == 0xF4 then 0x8F else 0xBF)
  }

  /** The number of bytes, at most `want`, that form a well-formed beginning of a sequence. */
  function WellFormed(b: seq<Byte>, want: nat): (k: nat)
    requires b != [] && 1 <= want <= 4
    ensures 1 <= k <= want && k <= |b|
  {
    if want == 1 || |b| < 2 || !SecondOk(b[0], b[1]) then 1
    else if want == 2 || |b| < 3 || !Continuation(b[2]) then 2
    else if want == 3 || |b| < 4 || !Continuation(b[3]) then 3
    else 4
  }

  /** The first decoded character and how many bytes it takes. */
  function DecodeOne(b: seq<Byte>): (r: (char, nat))
    requires b != []
    ensures 1 <= r.1 <= |b|
  {
    var want := Announced(b[0]);
    if want == 0 then (REPLACEMENT, 1)
    else
      var k := WellFormed(b, want);
      if k < want then (REPLACEMENT, k)
      else if want == 1 then (b[0] as char, 1)
      else if want == 2 then (((b[0] as int - 0xC0) * 0x40 + (b[1] as int - 0x80)) as char, 2)
      else if want == 3 then
        (((b[0] as int - 0xE0) * 0x1000 + (b[1] as int - 0x80) * 0x40 + (b[2] as int - 0x80)) as char, 3)
      else
        (((b[0] as int - 0xF0) * 0x4_0000 + (b[1] as int - 0x80) * 0x1000 + (b[2] as int - 0x80) * 0x40
          + (b[3] as int - 0x80)) as char, 4)
  }

  function Decode(b: seq<Byte>): string {
    if b == [] then [] else [DecodeOne(b).0] + Decode(b[DecodeOne(b).1..])
  }

  lemma DecodeOneChar(c: char, rest: seq<Byte>)
    ensures DecodeOne(EncodeChar(c) + rest) == (c, |EncodeChar(c)|)
  {
    var n, e := c as int, EncodeChar(c);
    var b := e + rest;
    assert b[0] == e[0] && (|e| > 1 ==> b[1] == e[1]) && (|e| > 2 ==> b[2] == e[2]) && (|e| > 3 ==> b[3] == e[3]);
    Digits(n);
    assert Announced(e[0]) == |e|;
    assert WellFormed(b, |e|) == |e|;
  }

  /** The four layouts: the code point's base-64 digits under the lead byte of its length (RFC 3629
      section 3). */
  lemma Layout(c: char)
    ensures var (r, n) := (EncodeChar(c), c as int);
      && (n < 0x80 ==> |r| == 1 && r[0] == n)
      && (0x80 <= n < 0x800 ==> |r| == 2 && n == (r[0] as int - 0xC0) * 0x40 + (r[1] as int - 0x80))
      && (0x800 <= n < 0x1_0000 ==>
            |r| == 3 && n == (r[0] as int - 0xE0) * 0x1000 + (r[1] as int - 0x80) * 0x40 + (r[2] as int - 0x80))
      && (n >= 0x1_0000 ==>
            |r| == 4 && n == (r[0] as int - 0xF0) * 0x4_0000 + (r[1] as int - 0x80) * 0x1000
                             + (r[2] as int - 0x80) * 0x40 + (r[3] as int - 0x80))
      && (forall i :: 0 < i < |r| ==> Continuation(r[i]))
      && Announced(r[0]) == |r| && (|r| > 1 ==> SecondOk(r[0], r[1]))
  {
    Digits(c as int);
  }

  /** Some character's encoding starts with these bytes. */
  ghost predicate Begins(b: seq<Byte>) {
    exists c: char :: b <= EncodeChar(c)
  }

  /** Malformed bytes: one replacement character stands for the longest start of any character's encoding, or
      for a single byte that starts none. */
  lemma ReplacedPrefix(b: seq<Byte>)
    requires b != [] && forall c: char :: !(EncodeChar(c) <= b)
    ensures DecodeOne(b).0 == REPLACEMENT == '\U{FFFD}'
    ensures var k := DecodeOne(b).1;
      (k == 1 || Begins(b[..k])) && (k < |b| ==> !Begins(b[..k + 1]))
  {
    var want := Announced(b[0]);
    forall c: char, j: nat | j <= |b| && b[..j] <= EncodeChar(c) && j > 0
      ensures Announced(b[0]) == |EncodeChar(c)| && (j > 1 ==> SecondOk(b[0], b[1]))
      ensures (j > 2 ==> Continuation(b[2])) && (j > 3 ==> Continuation(b[3]))
    {
      Layout(c);
      assert forall i :: 0 <= i < j ==> b[i] == b[..j][i] == EncodeChar(c)[i];
    }
    if want > 0 {
      var k := WellFormed(b, want);
      if k == want {
        WellFormedIs(b, want);
      } else if k > 1 {
        StartOf(b, want, k);
      }
    }
  }

  lemma WellFormedIs(b: seq<Byte>, want: nat)
    requires b != [] && want == Announced(b[0]) > 0 && WellFormed(b, want) == want
    ensures exists c: char :: EncodeChar(c) <= b
  {
    hide EncodeChar;
    var c := DecodeOne(b).0;
    if want == 1 {
      OneByte(b[0]);
      assert b[..1] == [b[0]];
    } else if want == 2 {
      TwoBytes(b[0], b[1]);
      assert b[..2] == [b[0], b[1]];
    } else if want == 3 {
      ThreeBytes(b[0], b[1], b[2]);
      assert b[..3] == [b[0], b[1], b[2]];
    } else {
      FourBytes(b[0], b[1], b[2], b[3]);
      assert b[..4] == [b[0], b[1], b[2], b[3]];
    }
    assert EncodeChar(c) <= b;
  }

  lemma OneByte(x: Byte)
    requires x < 0x80
    ensures EncodeChar(x as char) == [x]
  {
  }

  lemma TwoBytes(x: Byte, y: Byte)
    requires Announced(x) == 2 && SecondOk(x, y)
    ensures EncodeChar(((x as int - 0xC0) * 0x40 + (y as int - 0x80)) as char) == [x, y]
  {
    Quotient((x as int - 0xC0) * 0x40 + (y as int - 0x80), x as int - 0xC0, y as int - 0x80);
  }

  lemma ThreeBytes(x: Byte, y: Byte, z: Byte)
    requires Announced(x) == 3 && SecondOk(x, y) && Continuation(z)
    ensures EncodeChar(((x as int - 0xE0) * 0x1000 + (y as int - 0x80) * 0x40 + (z as int - 0x80)) as char) == [x, y, z]
  {
    var m := (x as int - 0xE0) * 0x40 + (y as int - 0x80);
    var n := m * 0x40 + (z as int - 0x80);
    Quotient(n, m, z as int - 0x80);
    Quotient(m, x as int - 0xE0, y as int - 0x80);
    Digits(n);
    assert n / 0x1000 == n / 0x40 / 0x40;
  }

  lemma FourBytes(x: Byte, y: Byte, z: Byte, u: Byte)
    requires Announced(x) == 4 && SecondOk(x, y) && Continuation(z) && Continuation(u)
    ensures EncodeChar(((x as int - 0xF0) * 0x4_0000 + (y as int - 0x80) * 0x1000 + (z as int - 0x80) * 0x40
                        + (u as int - 0x80)) as char) == [x, y, z, u]
  {
    var l := (x as int - 0xF0) * 0x40 + (y as int - 0x80);
    var m := l * 0x40 + (z as int - 0x80);
    var n := m * 0x40 + (u as int - 0x80);
    Quotient(n, m, u as int - 0x80);
    Quotient(m, l, z as int - 0x80);
    Quotient(l, x as int - 0xF0, y as int - 0x80);
    Digits(n);
    assert n / 0x1000 == n / 0x40 / 0x40 && n / 0x4_0000 == n / 0x1000 / 0x40;
  }

  lemma Quotient(n: int, q: nat, r: nat)
    requires n == q * 0x40 + r && r < 0x40
    ensures n / 0x40 == q && n % 0x40 == r
  {
  }

  /** A truncated sequence of well-formed bytes is the start of some character's encoding. */
  lemma StartOf(b: seq<Byte>, want: nat, k: nat)
    requires b != [] && want == Announced(b[0]) > 0 && k == WellFormed(b, want) && 1 < k < want
    ensures Begins(b[..k])
  {
    hide EncodeChar;
    var z: Byte := if k == 3 then b[2] else 0x80;
    if want == 3 {
      ThreeBytes(b[0], b[1], z);
      assert b[..k] <= EncodeChar(((b[0] as int - 0xE0) * 0x1000 + (b[1] as int - 0x80) * 0x40
                                   + (z as int - 0x80)) as char);
    } else {
      FourBytes(b[0], b[1], z, 0x80);
      assert b[..k] <= EncodeChar(((b[0] as int - 0xF0) * 0x4_0000 + (b[1] as int - 0x80) * 0x1000
                                   + (z as int - 0x80) * 0x40 + (0x80 - 0x80)) as char);
    }
  }

  /** The base-64 digits of a code point. */
  lemma Digits(n: nat)
    ensures n == n / 0x40 * 0x40 + n % 0x40
    ensures n / 0x40 == n / 0x1000 * 0x40 + n / 0x40 % 0x40
    ensures n / 0x1000 == n / 0x4_0000 * 0x40 + n / 0x1000 % 0x40
  {
    assert n / 0x40 / 0x40 == n / 0x1000;
    assert n / 0x1000 / 0x40 == n / 0x4_0000;
  }

  /** A cut before a byte that is not a continuation byte does not change what is decoded. */
  lemma {:induction false} DecodeSplits(a: seq<Byte>, b: seq<Byte>)
    requires b == [] || !Continuation(b[0])
    ensures Decode(a + b) == Decode(a) + Decode(b)
    decreases |a|
  {
    if a == [] {
      assert a + b == b;
    } else {
      DecodeOneSplits(a, b);
      var k := DecodeOne(a).1;
      assert (a + b)[k..] == a[k..] + b;
      DecodeSplits(a[k..], b);
    }
  }

  lemma DecodeOneSplits(a: seq<Byte>, b: seq<Byte>)
    requires a != [] && (b == [] || !Continuation(b[0]))
    ensures DecodeOne(a + b) == DecodeOne(a)
  {
    var c := a + b;
    assert forall k :: 0 <= k < |a| ==> c[k] == a[k];
    assert b != [] ==> c[|a|] == b[0];
  }

  /** Decoding undoes encoding. */
  lemma {:induction false} DecodeEncode(s: string)
    ensures Decode(Encode(s)) == s
  {
    if s != [] {
      DecodeOneChar(s[0], Encode(s[1..]));
      var e := EncodeChar(s[0]);
      assert (e + Encode(s[1..]))[|e|..] == Encode(s[1..]);
      DecodeEncode(s[1..]);
    }
  }
}
