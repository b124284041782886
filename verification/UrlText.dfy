/** The URL text functions both crawlers' canonical() is built from, as urllib.parse defines them:
    quote and unquote (section 2.1 of RFC 3986), parse_qsl, urlencode, and sorted(). */
module UrlText {
  import opened Common
  import opened Utf8

  predicate IsAscii(c: char) {
    (c as int) < 0x80
  }

  predicate Alphanumeric(c: char) {
    'a' <= c <= 'z' || 'A' <= c <= 'Z' || '0' <= c <= '9'
  }

  function HexDigit(n: int): (c: char)
    requires 0 <= n < 16
    ensures Alphanumeric(c)
  {
    if n < 10 then '0' + n as char else 'A' + (n - 10) as char
  }

  predicate IsHex(c: char) {
    '0' <= c <= '9' || 'a' <= c <= 'f' || 'A' <= c <= 'F'
  }

  function HexValue(c: char): (n: int)
    requires IsHex(c)
    ensures 0 <= n < 16
  {
    if c <= '9' then c as int - '0' as int
    else if c <= 'F' then c as int - 'A' as int + 10
    else c as int - 'a' as int + 10
  }

  // ------------------------------------------------------------------ quoting

  /** quote(path, safe="/%;:@!$&'()*+,=-._~") and quote_plus(text). */
  datatype Style = Path | Form

  predicate Safe(style: Style, c: char) {
    Alphanumeric(c) || c in "_.-~" || (style.Path? && c in "/%;:@!$&'()*+,=")
  }

  function QuoteByte(style: Style, b: Byte): (r: string)
    ensures r != []
    ensures forall c :: c in r ==> IsAscii(c)
  {
    if b < 0x80 && Safe(style, b as char) then [b as char]
    else if style.Form? && b == 0x20 then ['+']
    else ['%', HexDigit(b / 16), HexDigit(b % 16)]
  }

  function QuoteBytes(style: Style, bs: seq<Byte>): string {
    if bs == [] then [] else QuoteByte(style, bs[0]) + QuoteBytes(style, bs[1..])
  }

  function Quote(style: Style, s: string): string {
    QuoteBytes(style, Encode(s))
  }

  lemma {:induction false} QuoteBytesAppend(style: Style, a: seq<Byte>, b: seq<Byte>)
    ensures QuoteBytes(style, a + b) == QuoteBytes(style, a) + QuoteBytes(style, b)
  {
    if a == [] {
      assert a + b == b;
    } else {
      assert (a + b)[1..] == a[1..] + b;
      QuoteBytesAppend(style, a[1..], b);
      assert QuoteByte(style, a[0]) + (QuoteBytes(style, a[1..]) + QuoteBytes(style, b))
        == (QuoteByte(style, a[0]) + QuoteBytes(style, a[1..])) + QuoteBytes(style, b);
    }
  }

  /** What quoting leaves: safe characters, the escapes' own characters, and '+' for a space. */
  const HEX := "0123456789ABCDEF"

  /** What quoting writes for one character of one byte: itself if it is a letter, a digit or listed, '+' for a
      form's space, and otherwise '%' and two upper-case hex digits. */
  lemma QuotedChar(style: Style, c: char)
    requires IsAscii(c)
    ensures Quote(style, [c]) ==
      if 'a' <= c <= 'z' || 'A' <= c <= 'Z' || '0' <= c <= '9' || c in "_.-~" then [c]
      else if style == Path && c in "/%;:@!$&'()*+,=" then [c]
      else if style == Form && c == ' ' then "+"
      else ['%', HEX[c as int / 16], HEX[c as int % 16]]
  {
    QuoteOfChar(style, [c]);
    HexDigits();
    assert Encode([c]) == EncodeChar(c) + Encode([c][1..]) == [c as int];
    assert QuoteBytes(style, [c as int]) == QuoteByte(style, c as int) + QuoteBytes(style, [c as int][1..]);
  }

  /** Beyond ASCII every byte of the character is escaped. */
  lemma QuotedWide(style: Style, b: Byte)
    requires b >= 0x80
    ensures QuoteByte(style, b) == ['%', HEX[b / 16], HEX[b % 16]]
  {
    HexDigits();
  }

  /** Both cases of hex digits are read. */
  lemma HexReads()
    ensures forall c: char :: IsHex(c) <==> '0' <= c <= '9' || 'A' <= c <= 'F' || 'a' <= c <= 'f'
    ensures forall n: nat :: n < 16 ==> IsHex(HEX[n]) && HexValue(HEX[n]) == n
    ensures forall n: nat :: n < 16 ==> IsHex("0123456789abcdef"[n]) && HexValue("0123456789abcdef"[n]) == n
  {
  }

  lemma HexDigits()
    ensures forall n :: 0 <= n < 16 ==> HexDigit(n) == HEX[n]
  {
  }

  predicate Plain(style: Style, c: char) {
    Safe(style, c) || (style.Form? && c in "%+")
  }

  lemma {:induction false} QuotedIsPlain(style: Style, bs: seq<Byte>)
    ensures forall c :: c in QuoteBytes(style, bs) ==> Plain(style, c)
  {
    if bs != [] {
      QuotedIsPlain(style, bs[1..]);
      var q := QuoteByte(style, bs[0]);
      assert forall c :: c in q ==> Plain(style, c);
    }
  }

  /** Quoting a path leaves safe text alone, so it is idempotent. */
  lemma {:induction false} QuoteSafe(s: string)
    requires forall c :: c in s ==> Safe(Path, c)
    ensures Quote(Path, s) == s
  {
    if s != [] {
      var c := s[0];
      assert c in s && IsAscii(c) && EncodeChar(c) == [c as int];
      assert Encode(s) == [c as int] + Encode(s[1..]);
      QuoteSafe(s[1..]);
    }
  }

  lemma QuotePathIdempotent(s: string)
    ensures Quote(Path, Quote(Path, s)) == Quote(Path, s)
  {
    QuotedIsPlain(Path, Encode(s));
    QuoteSafe(Quote(Path, s));
  }

  // ------------------------------------------------------------------ unquoting

  predicate IsEscape(s: string) {
    |s| >= 3 && s[0] == '%' && IsHex(s[1]) && IsHex(s[2])
  }

  function EscapeValue(s: string): Byte
    requires IsEscape(s)
  {
    HexValue(s[1]) * 16 + HexValue(s[2])
  }

  /** unquote_to_bytes on ASCII text. */
  function UnquoteToBytes(s: string): seq<Byte>
    requires forall c :: c in s ==> IsAscii(c)
  {
    if s == [] then []
    else if IsEscape(s) then [EscapeValue(s)] + UnquoteToBytes(s[3..])
    else
      assert s[0] in s && IsAscii(s[0]);
      var b: Byte := s[0] as int;
      [b] + UnquoteToBytes(s[1..])
  }

  function AsciiRun(s: string): (k: nat)
    ensures k <= |s|
    ensures forall i :: 0 <= i < k ==> IsAscii(s[i])
    ensures k < |s| ==> !IsAscii(s[k])
  {
    if s == [] || !IsAscii(s[0]) then 0 else 1 + AsciiRun(s[1..])
  }

  /** unquote: each maximal ASCII run is unescaped and decoded as UTF-8 with replacement; other
      characters pass through. */
  function Unquote(s: string): string
    decreases |s|
  {
    var k := AsciiRun(s);
    Decode(UnquoteToBytes(s[..k])) + if k == |s| then [] else [s[k]] + Unquote(s[k + 1..])
  }

  /** The bytes a string stands for when its escapes are undone and the rest is encoded. */
  function BytesOf(s: string): seq<Byte> {
    if s == [] then []
    else if IsEscape(s) then [EscapeValue(s)] + BytesOf(s[3..])
    else EncodeChar(s[0]) + BytesOf(s[1..])
  }

  lemma {:induction false} BytesOfAscii(s: string)
    requires forall c :: c in s ==> IsAscii(c)
    ensures BytesOf(s) == UnquoteToBytes(s)
    decreases |s|
  {
    if s != [] {
      if IsEscape(s) {
        BytesOfAscii(s[3..]);
      } else {
        assert s[0] in s;
        BytesOfAscii(s[1..]);
      }
    }
  }

  /** An escape never spans a non-ASCII character. */
  lemma EscapeSplits(a: string, b: string)
    requires a != [] && (b == [] || !IsAscii(b[0]))
    ensures IsEscape(a + b) <==> IsEscape(a)
    ensures IsEscape(a) ==> EscapeValue(a + b) == EscapeValue(a) && (a + b)[3..] == a[3..] + b
    ensures (a + b)[0] == a[0] && (a + b)[1..] == a[1..] + b
  {
    var s := a + b;
    assert |a| > 1 ==> s[1] == a[1];
    assert |a| > 2 ==> s[2] == a[2];
    assert b != [] ==> s[|a|] == b[0];
    assert |a| >= 3 ==> s[3..] == a[3..] + b;
  }

  lemma {:induction false} BytesOfSplits(a: string, b: string)
    requires (forall c :: c in a ==> IsAscii(c)) && (b == [] || !IsAscii(b[0]))
    ensures BytesOf(a + b) == BytesOf(a) + BytesOf(b)
    decreases |a|
  {
    hide EncodeChar, IsEscape, EscapeValue;
    if a == [] {
      assert a + b == b;
      assert BytesOf(a) + BytesOf(b) == BytesOf(b);
    } else {
      EscapeSplits(a, b);
      if IsEscape(a) {
        LongEnough(a);
        BytesOfSplits(a[3..], b);
        assert [EscapeValue(a)] + (BytesOf(a[3..]) + BytesOf(b)) == ([EscapeValue(a)] + BytesOf(a[3..])) + BytesOf(b);
      } else {
        BytesOfSplits(a[1..], b);
        assert EncodeChar(a[0]) + (BytesOf(a[1..]) + BytesOf(b)) == (EncodeChar(a[0]) + BytesOf(a[1..])) + BytesOf(b);
      }
    }
  }

  lemma LongEnough(s: string)
    requires IsEscape(s)
    ensures |s| >= 3
  {
  }

  lemma BytesOfStart(s: string)
    requires s != [] && !IsAscii(s[0])
    ensures BytesOf(s) == EncodeChar(s[0]) + BytesOf(s[1..]) && BytesOf(s) != [] && !Continuation(BytesOf(s)[0])
  {
  }

  /** unquote is decoding the bytes the string stands for. */
  lemma {:induction false} UnquoteIsDecode(s: string)
    ensures Unquote(s) == Decode(BytesOf(s))
    decreases |s|
  {
    var k := AsciiRun(s);
    var a, b := s[..k], s[k..];
    assert s == a + b;
    BytesOfSplits(a, b);
    BytesOfAscii(a);
    if b != [] {
      BytesOfStart(b);
      assert b[1..] == s[k + 1..];
      DecodeSplits(BytesOf(a), BytesOf(b));
      DecodeOneChar(b[0], BytesOf(b[1..]));
      var e := EncodeChar(b[0]);
      assert (e + BytesOf(b[1..]))[|e|..] == BytesOf(b[1..]);
      assert Decode(BytesOf(b)) == [b[0]] + Decode(BytesOf(b[1..]));
      UnquoteIsDecode(s[k + 1..]);
    } else {
      assert BytesOf(a) + [] == BytesOf(a);
      assert a == s;
      assert Decode(BytesOf(a)) + [] == Decode(BytesOf(a));
    }
  }

  lemma QuoteOfChar(style: Style, s: string)
    requires s != []
    ensures Quote(style, s) == QuoteBytes(style, EncodeChar(s[0])) + Quote(style, s[1..])
  {
    QuoteBytesAppend(style, EncodeChar(s[0]), Encode(s[1..]));
  }

  lemma QuoteOneSafe(c: char)
    requires Safe(Path, c)
    ensures QuoteBytes(Path, EncodeChar(c)) == [c]
  {
    assert EncodeChar(c) == [c as int];
    assert QuoteBytes(Path, [c as int][1..]) == [];
  }

  /** A quoted text starts with a hex digit exactly if the text does. */
  lemma QuotedHexStart(s: string)
    ensures Quote(Path, s) != [] && IsHex(Quote(Path, s)[0]) <==> s != [] && IsHex(s[0])
    ensures s != [] && IsHex(s[0]) ==> Quote(Path, s) == [s[0]] + Quote(Path, s[1..])
  {
    if s != [] {
      QuoteOfChar(Path, s);
      hide Quote, QuoteBytes;
      QuotedHead(s[0]);
      if IsHex(s[0]) {
        QuoteOneSafe(s[0]);
      }
    }
  }

  lemma QuotedSafeStart(s: string)
    requires s != [] && Safe(Path, s[0])
    ensures Quote(Path, s) == [s[0]] + Quote(Path, s[1..])
  {
    QuoteOfChar(Path, s);
    QuoteOneSafe(s[0]);
  }

  lemma QuotedKeepsEscape(s: string)
    requires IsEscape(s)
    ensures Quote(Path, s) == s[..3] + Quote(Path, s[3..])
  {
    hide Quote, Safe;
    var t, u := s[1..], s[2..];
    assert Safe(Path, '%') && Safe(Path, t[0]) && Safe(Path, u[0]) by {
      QuotedHead(t[0]);
      QuotedHead(u[0]);
      PercentSafe();
    }
    QuotedSafeStart(s);
    QuotedSafeStart(t);
    QuotedSafeStart(u);
    assert t[1..] == u && u[1..] == s[3..];
  }

  lemma PercentSafe()
    ensures Safe(Path, '%')
  {
  }

  lemma QuotedMakesNoEscape(s: string)
    requires s != [] && s[0] == '%' && IsEscape(Quote(Path, s))
    ensures IsEscape(s)
  {
    hide Quote, Safe, IsHex;
    PercentSafe();
    QuotedSafeStart(s);
    var t := s[1..];
    assert Quote(Path, s)[1] == Quote(Path, t)[0];
    QuotedHexStart(t);
    var u := t[1..];
    assert Quote(Path, s)[2] == Quote(Path, u)[0];
    QuotedHexStart(u);
  }

  /** The two characters after a '%' are hex digits in the quoted path exactly when they were before. */
  lemma QuotedEscape(s: string)
    requires s != []
    ensures IsEscape(Quote(Path, s)) && s[0] == '%' <==> IsEscape(s)
    ensures IsEscape(s) ==> Quote(Path, s) == s[..3] + Quote(Path, s[3..])
  {
    hide Quote, IsHex;
    if IsEscape(s) {
      QuotedKeepsEscape(s);
      var q := Quote(Path, s);
      assert q[0] == s[0] && q[1] == s[1] && q[2] == s[2];
    } else if s[0] == '%' && IsEscape(Quote(Path, s)) {
      QuotedMakesNoEscape(s);
    }
  }

  /** Quoting starts with a hex digit only for a hex digit. */
  lemma QuotedHead(c: char)
    ensures QuoteBytes(Path, EncodeChar(c)) != []
    ensures IsHex(QuoteBytes(Path, EncodeChar(c))[0]) <==> IsHex(c)
    ensures IsHex(c) ==> Safe(Path, c)
  {
    var e := EncodeChar(c);
    assert QuoteBytes(Path, e) == QuoteByte(Path, e[0]) + QuoteBytes(Path, e[1..]);
  }

  /** A byte that quoting a path turns into an escape. */
  predicate Escaped(b: Byte) {
    !(b < 0x80 && Safe(Path, b as char))
  }

  lemma BytesOfQuotedByte(b: Byte, rest: string)
    requires Escaped(b)
    ensures BytesOf(QuoteByte(Path, b) + rest) == [b] + BytesOf(rest)
  {
    var q := QuoteByte(Path, b);
    assert (q + rest)[3..] == rest;
    assert EscapeValue(q + rest) == b;
  }

  lemma {:induction false} BytesOfQuotedBytes(bs: seq<Byte>, rest: string)
    requires forall b :: b in bs ==> Escaped(b)
    ensures BytesOf(QuoteBytes(Path, bs) + rest) == bs + BytesOf(rest)
  {
    hide Escaped, QuoteByte, BytesOf;
    if bs == [] {
      assert QuoteBytes(Path, bs) + rest == rest;
      assert bs + BytesOf(rest) == BytesOf(rest);
    } else {
      assert bs[0] in bs;
      BytesOfQuotedBytes(bs[1..], rest);
      BytesOfQuotedByte(bs[0], QuoteBytes(Path, bs[1..]) + rest);
      assert QuoteBytes(Path, bs) + rest == QuoteByte(Path, bs[0]) + (QuoteBytes(Path, bs[1..]) + rest);
      assert [bs[0]] + (bs[1..] + BytesOf(rest)) == bs + BytesOf(rest);
    }
  }

  lemma EncodedUnsafe(c: char)
    requires !Safe(Path, c)
    ensures forall b :: b in EncodeChar(c) ==> Escaped(b)
  {
    if (c as int) < 0x80 {
      assert EncodeChar(c) == [c as int];
    }
  }

  /** Quoting a path does not change the bytes it stands for. */
  lemma {:induction false} BytesOfQuoted(s: string)
    ensures BytesOf(Quote(Path, s)) == BytesOf(s)
    decreases |s|
  {
    hide Quote, IsEscape, BytesOf, EncodeChar, Safe;
    if s == [] {
      QuoteNothing();
    } else if IsEscape(s) {
      LongEnough(s);
      BytesOfQuoted(s[3..]);
      BytesOfQuotedEscape(s);
    } else {
      BytesOfQuoted(s[1..]);
      if Safe(Path, s[0]) {
        BytesOfQuotedSafe(s);
      } else {
        BytesOfQuotedUnsafe(s);
      }
    }
  }

  lemma QuoteNothing()
    ensures Quote(Path, []) == []
  {
  }

  lemma BytesOfQuotedEscape(s: string)
    requires IsEscape(s) && BytesOf(Quote(Path, s[3..])) == BytesOf(s[3..])
    ensures BytesOf(Quote(Path, s)) == BytesOf(s)
  {
    hide Quote, EncodeChar;
    QuotedEscape(s);
    var q := Quote(Path, s);
    assert q[..3] == s[..3] && q[3..] == Quote(Path, s[3..]);
    assert q[0] == s[0] && q[1] == s[1] && q[2] == s[2];
  }

  lemma BytesOfQuotedSafe(s: string)
    requires s != [] && !IsEscape(s) && Safe(Path, s[0]) && BytesOf(Quote(Path, s[1..])) == BytesOf(s[1..])
    ensures BytesOf(Quote(Path, s)) == BytesOf(s)
  {
    hide Quote, EncodeChar, Safe;
    QuotedEscape(s);
    QuoteOfChar(Path, s);
    QuoteOneSafe(s[0]);
    var q := Quote(Path, s);
    assert q[0] == s[0] && q[1..] == Quote(Path, s[1..]);
  }

  lemma BytesOfQuotedUnsafe(s: string)
    requires s != [] && !IsEscape(s) && !Safe(Path, s[0]) && BytesOf(Quote(Path, s[1..])) == BytesOf(s[1..])
    ensures BytesOf(Quote(Path, s)) == BytesOf(s)
  {
    hide Quote, QuoteBytes, EncodeChar, Safe, IsEscape;
    QuoteOfChar(Path, s);
    EncodedUnsafe(s[0]);
    BytesOfQuotedBytes(EncodeChar(s[0]), Quote(Path, s[1..]));
  }

  /** unquote sees the same text before and after the path is quoted. */
  lemma UnquoteQuoted(s: string)
    ensures Unquote(Quote(Path, s)) == Unquote(s)
  {
    UnquoteIsDecode(s);
    UnquoteIsDecode(Quote(Path, s));
    BytesOfQuoted(s);
  }

  // ------------------------------------------------------------------ forms

  function PlusToSpace(s: string): (r: string)
    ensures |r| == |s| && forall i :: 0 <= i < |s| ==> r[i] == if s[i] == '+' then ' ' else s[i]
  {
    seq(|s|, i requires 0 <= i < |s| => if s[i] == '+' then ' ' else s[i])
  }

  /** How parse_qsl reads one name or value. */
  function ReadField(s: string): string {
    Unquote(PlusToSpace(s))
  }

  lemma BytesOfFormByte(b: Byte, rest: string)
    ensures BytesOf(PlusToSpace(QuoteByte(Form, b) + rest)) == [b] + BytesOf(PlusToSpace(rest))
  {
    var q := QuoteByte(Form, b);
    var s := PlusToSpace(q + rest);
    if |q| == 1 {
      assert s[0] == b as char && !IsEscape(s);
      assert s[1..] == PlusToSpace(rest);
      assert EncodeChar(s[0]) == [b];
    } else {
      assert s[0] == '%' && s[1] == HexDigit(b / 16) && s[2] == HexDigit(b % 16);
      assert s[3..] == PlusToSpace(rest);
      assert EscapeValue(s) == b;
    }
  }

  lemma {:induction false} BytesOfForm(bs: seq<Byte>)
    ensures BytesOf(PlusToSpace(QuoteBytes(Form, bs))) == bs
  {
    if bs == [] {
      assert PlusToSpace([]) == [];
    } else {
      hide QuoteByte, BytesOf, PlusToSpace;
      BytesOfForm(bs[1..]);
      BytesOfFormByte(bs[0], QuoteBytes(Form, bs[1..]));
      assert [bs[0]] + bs[1..] == bs;
    }
  }

  /** Reading back a form-encoded field gives the field. */
  lemma ReadQuoted(s: string)
    ensures ReadField(Quote(Form, s)) == s
  {
    UnquoteIsDecode(PlusToSpace(Quote(Form, s)));
    BytesOfForm(Encode(s));
    DecodeEncode(s);
  }

  datatype Pair = Pair(key: string, value: string)

  function Find(s: string, c: char): (k: nat)
    ensures k <= |s| && (k < |s| ==> s[k] == c) && c !in s[..k]
  {
    if s == [] || s[0] == c then 0
    else
      var k := Find(s[1..], c);
      assert s[..k + 1] == [s[0]] + s[1..][..k];
      k + 1
  }

  function SplitAmp(s: string): (parts: seq<string>)
    ensures parts != []
    decreases |s|
  {
    var k := Find(s, '&');
    if k == |s| then [s] else [s[..k]] + SplitAmp(s[k + 1..])
  }

  /** name[=value]; a missing '=' means an empty value (keep_blank_values). */
  function ReadPair(s: string): Pair {
    var k := Find(s, '=');
    Pair(ReadField(s[..k]), if k == |s| then [] else ReadField(s[k + 1..]))
  }

  function ReadPairs(parts: seq<string>): seq<Pair> {
    if parts == [] then []
    else (if parts[0] == [] then [] else [ReadPair(parts[0])]) + ReadPairs(parts[1..])
  }

  /** parse_qsl(query, keep_blank_values=True) */
  function ParseQuery(query: string): seq<Pair> {
    ReadPairs(SplitAmp(query))
  }

  function WritePair(p: Pair): string {
    Quote(Form, p.key) + "=" + Quote(Form, p.value)
  }

  /** urlencode */
  function WriteQuery(ps: seq<Pair>): string {
    if ps == [] then [] else if |ps| == 1 then WritePair(ps[0]) else WritePair(ps[0]) + "&" + WriteQuery(ps[1..])
  }

  lemma {:induction false} FindAt(a: string, c: char, b: string)
    requires c !in a
    ensures Find(a + [c] + b, c) == |a|
  {
    var s := a + [c] + b;
    if a != [] {
      assert s[0] == a[0] && a[0] in a;
      assert s[1..] == a[1..] + [c] + b;
      FindAt(a[1..], c, b);
    }
  }

  lemma {:induction false} FindNone(s: string, c: char)
    requires c !in s
    ensures Find(s, c) == |s|
  {
    if s != [] {
      assert s[0] in s;
      FindNone(s[1..], c);
    }
  }

  lemma QuotedField(s: string)
    ensures '&' !in Quote(Form, s) && '=' !in Quote(Form, s)
  {
    QuotedIsPlain(Form, Encode(s));
  }

  lemma ReadWritten(p: Pair)
    ensures ReadPair(WritePair(p)) == p && WritePair(p) != [] && '&' !in WritePair(p)
  {
    QuotedField(p.key);
    QuotedField(p.value);
    var a, b := Quote(Form, p.key), Quote(Form, p.value);
    FindAt(a, '=', b);
    var s := WritePair(p);
    assert s == a + ['='] + b;
    assert s[..|a|] == a && s[|a| + 1..] == b;
    ReadQuoted(p.key);
    ReadQuoted(p.value);
  }

  lemma ParseOnePart(s: string)
    requires '&' !in s
    ensures ParseQuery(s) == if s == [] then [] else [ReadPair(s)]
  {
    hide ReadPair;
    FindNone(s, '&');
    assert SplitAmp(s) == [s] && [s][1..] == [];
    assert ReadPairs([]) == [];
  }

  lemma ParseFirstPart(s: string, rest: string)
    requires '&' !in s && s != []
    ensures ParseQuery(s + "&" + rest) == [ReadPair(s)] + ParseQuery(rest)
  {
    hide ReadPair;
    FindAt(s, '&', rest);
    var all := s + "&" + rest;
    assert all[..|s|] == s && all[|s| + 1..] == rest;
    assert SplitAmp(all) == [s] + SplitAmp(rest);
    assert ([s] + SplitAmp(rest))[1..] == SplitAmp(rest);
  }

  /** What parse_qsl makes of any query, field by field: fields are cut at '&', an empty one is skipped, and each
      other is cut at its first '=', without which its value is empty. */
  lemma ParseFields(field: string, rest: string)
    requires '&' !in field
    ensures ParseQuery(field + "&" + rest) == ParseQuery(field) + ParseQuery(rest)
    ensures ParseQuery("") == []
  {
    hide ReadPair;
    ParseOnePart(field);
    ParseOnePart("");
    if field == [] {
      FindAt([], '&', rest);
      var all := "&" + rest;
      assert field + "&" + rest == all == [] + ['&'] + rest;
      assert all[..0] == [] && all[1..] == rest;
      assert SplitAmp(all) == [[]] + SplitAmp(rest);
      assert ([[]] + SplitAmp(rest))[1..] == SplitAmp(rest);
    } else {
      ParseFirstPart(field, rest);
    }
  }

  lemma ParseField(key: string, value: string)
    requires '&' !in key && '&' !in value && '=' !in key
    ensures ParseQuery(key + "=" + value) == [Pair(Unquote(PlusToSpace(key)), Unquote(PlusToSpace(value)))]
    ensures key != "" ==> ParseQuery(key) == [Pair(Unquote(PlusToSpace(key)), "")]
  {
    hide Unquote, PlusToSpace, Find, ParseQuery;
    var s := key + "=" + value;
    ParseOnePart(s);
    ParseOnePart(key);
    FindAt(key, '=', value);
    FindNone(key, '=');
    assert s == key + ['='] + value && s[..|key|] == key && s[|key| + 1..] == value;
    assert key[..|key|] == key;
  }

  /** Parsing an encoded query gives back the pairs, whatever characters they hold. */
  lemma {:induction false} ParseWritten(ps: seq<Pair>)
    ensures ParseQuery(WriteQuery(ps)) == ps
  {
    hide ReadPair, WritePair, ParseQuery;
    if ps == [] {
      ParseOnePart([]);
    } else {
      ReadWritten(ps[0]);
      if |ps| == 1 {
        ParseOnePart(WritePair(ps[0]));
      } else {
        ParseWritten(ps[1..]);
        ParseFirstPart(WritePair(ps[0]), WriteQuery(ps[1..]));
      }
    }
  }

  // ------------------------------------------------------------------ sorted()

  predicate LexLe(a: string, b: string) {
    a == [] || (b != [] && (a[0] < b[0] || (a[0] == b[0] && LexLe(a[1..], b[1..]))))
  }

  /** The order of strings by their first difference, a prefix coming first. */
  lemma {:induction false} LexLeIs(a: string, b: string)
    ensures LexLe(a, b) <==> a <= b || exists k: nat :: k < |a| && k < |b| && a[..k] == b[..k] && a[k] < b[k]
  {
    if a != [] && b != [] {
      LexLeIs(a[1..], b[1..]);
      if a[0] == b[0] {
        if k: nat :| k < |a| && k < |b| && a[..k] == b[..k] && a[k] < b[k] {
          assert a[1..][..k - 1] == a[..k][1..] && b[1..][..k - 1] == b[..k][1..];
          assert a[1..][k - 1] < b[1..][k - 1];
        }
        if k: nat :| k < |a[1..]| && k < |b[1..]| && a[1..][..k] == b[1..][..k] && a[1..][k] < b[1..][k] {
          assert a[..k + 1] == [a[0]] + a[1..][..k] && b[..k + 1] == [b[0]] + b[1..][..k];
          assert a[k + 1] < b[k + 1];
        }
        assert a[1..] <= b[1..] <==> a <= b;
      } else if a[0] < b[0] {
        assert a[..0] == b[..0];
      } else {
        assert forall k: nat :: 0 < k < |a| && k < |b| && a[..k] == b[..k] ==> a[..k][0] == b[..k][0];
      }
    }
  }

  /** Tuple order: by key, then by value. */
  predicate PairLe(a: Pair, b: Pair) {
    if a.key == b.key then LexLe(a.value, b.value) else LexLe(a.key, b.key)
  }

  lemma {:induction false} LexTotal(a: string, b: string)
    ensures LexLe(a, b) || LexLe(b, a)
  {
    if a != [] && b != [] && a[0] == b[0] {
      LexTotal(a[1..], b[1..]);
    }
  }

  ghost predicate Sorted(ps: seq<Pair>) {
    forall i :: 0 < i < |ps| ==> PairLe(ps[i - 1], ps[i])
  }

  function Insert(p: Pair, ps: seq<Pair>): seq<Pair> {
    if ps == [] || PairLe(p, ps[0]) then [p] + ps else [ps[0]] + Insert(p, ps[1..])
  }

  function Sort(ps: seq<Pair>): seq<Pair> {
    if ps == [] then [] else Insert(ps[0], Sort(ps[1..]))
  }

  lemma SortedTail(ps: seq<Pair>)
    requires Sorted(ps) && ps != []
    ensures Sorted(ps[1..])
  {
    forall i | 0 < i < |ps[1..]| ensures PairLe(ps[1..][i - 1], ps[1..][i]) {
      assert PairLe(ps[i + 1 - 1], ps[i + 1]);
    }
  }

  lemma PairTotal(a: Pair, b: Pair)
    ensures PairLe(a, b) || PairLe(b, a)
  {
    hide LexLe;
    LexTotal(a.key, b.key);
    LexTotal(a.value, b.value);
  }

  lemma SortedCons(p: Pair, ps: seq<Pair>)
    requires Sorted(ps) && (ps != [] ==> PairLe(p, ps[0]))
    ensures Sorted([p] + ps)
  {
    hide PairLe;
    var all := [p] + ps;
    forall i | 0 < i < |all| ensures PairLe(all[i - 1], all[i]) {
      if i > 1 {
        assert PairLe(ps[i - 1 - 1], ps[i - 1]);
      }
    }
  }

  lemma {:induction false} InsertSorted(p: Pair, ps: seq<Pair>)
    requires Sorted(ps)
    ensures Sorted(Insert(p, ps)) && Insert(p, ps) != []
    ensures Insert(p, ps)[0] == p || (ps != [] && Insert(p, ps)[0] == ps[0])
  {
    hide PairLe, Sorted;
    if ps == [] || PairLe(p, ps[0]) {
      SortedCons(p, ps);
    } else {
      SortedTail(ps);
      InsertSorted(p, ps[1..]);
      PairTotal(p, ps[0]);
      SecondNotBefore(ps);
      SortedCons(ps[0], Insert(p, ps[1..]));
    }
  }

  lemma SecondNotBefore(ps: seq<Pair>)
    requires Sorted(ps) && ps != []
    ensures ps[1..] != [] ==> PairLe(ps[0], ps[1..][0])
  {
    hide PairLe;
    if |ps| > 1 {
      assert PairLe(ps[1 - 1], ps[1]);
    }
  }

  lemma {:induction false} InsertAdds(p: Pair, ps: seq<Pair>)
    ensures multiset(Insert(p, ps)) == multiset(ps) + multiset{p} && |Insert(p, ps)| == |ps| + 1
  {
    hide PairLe;
    if ps != [] && !PairLe(p, ps[0]) {
      InsertAdds(p, ps[1..]);
      assert ps == [ps[0]] + ps[1..];
    }
  }

  lemma {:induction false} SortSorts(ps: seq<Pair>)
    ensures Sorted(Sort(ps)) && multiset(Sort(ps)) == multiset(ps) && |Sort(ps)| == |ps|
  {
    if ps != [] {
      SortSorts(ps[1..]);
      InsertSorted(ps[0], Sort(ps[1..]));
      InsertAdds(ps[0], Sort(ps[1..]));
      hide Insert, Sorted;
      assert ps == [ps[0]] + ps[1..];
    }
  }

  lemma {:induction false} SortOfSorted(ps: seq<Pair>)
    requires Sorted(ps)
    ensures Sort(ps) == ps
  {
    if ps != [] {
      SortedTail(ps);
      SortOfSorted(ps[1..]);
      if |ps| > 1 {
        assert PairLe(ps[1 - 1], ps[1]);
      }
      assert [ps[0]] + ps[1..] == ps;
    }
  }
}
