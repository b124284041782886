/** audit/audit_ingest_node.py: splitting over-long transcript segments and building passages of
    reviewable size. Sentence splitting is a regular expression and comes in as its result. */
module Passages {
  import opened Common

  /** The characters str.strip() removes. */
  predicate Space(c: char) {
    var n := c as int;
    9 <= n <= 13 || 28 <= n <= 32 || n == 0x85 || n == 0xA0 || n == 0x1680 || 0x2000 <= n <= 0x200A
    || n == 0x2028 || n == 0x2029 || n == 0x202F || n == 0x205F || n == 0x3000
  }

  /** The characters of a text that are not white space, in order. */
  function Ink(s: string): string {
    if s == [] then [] else (if Space(s[0]) then [] else [s[0]]) + Ink(s[1..])
  }

  function InkOfAll(parts: seq<string>): string {
    if parts == [] then [] else Ink(parts[0]) + InkOfAll(parts[1..])
  }

  lemma {:induction false} InkAppend(a: string, b: string)
    ensures Ink(a + b) == Ink(a) + Ink(b)
  {
    if a == [] {
      assert a + b == b;
    } else {
      assert (a + b)[1..] == a[1..] + b;
      InkAppend(a[1..], b);
    }
  }

  lemma {:induction false} InkOfAllAppend(a: seq<string>, b: seq<string>)
    ensures InkOfAll(a + b) == InkOfAll(a) + InkOfAll(b)
  {
    if a == [] {
      assert a + b == b;
    } else {
      assert (a + b)[1..] == a[1..] + b;
      InkOfAllAppend(a[1..], b);
    }
  }

  lemma InkOfAllSnoc(a: seq<string>, s: string)
    ensures InkOfAll(a + [s]) == InkOfAll(a) + Ink(s)
  {
    InkOfAllAppend(a, [s]);
    assert InkOfAll([s]) == Ink(s) + InkOfAll([s][1..]) == Ink(s);
  }

  function StripLeft(s: string): (r: string)
    ensures |r| <= |s| && (r == [] || !Space(r[0]))
  {
    if s != [] && Space(s[0]) then StripLeft(s[1..]) else s
  }

  function StripRight(s: string): (r: string)
    ensures |r| <= |s| && (r == [] || !Space(r[|r| - 1]))
  {
    if s != [] && Space(s[|s| - 1]) then StripRight(s[..|s| - 1]) else s
  }

  function Strip(s: string): (r: string)
    ensures |r| <= |s|
  {
    StripRight(StripLeft(s))
  }

  lemma {:induction false} StripLeftInk(s: string)
    ensures Ink(StripLeft(s)) == Ink(s)
  {
    if s != [] && Space(s[0]) {
      StripLeftInk(s[1..]);
    }
  }

  lemma {:induction false} StripRightInk(s: string)
    ensures Ink(StripRight(s)) == Ink(s)
  {
    if s != [] && Space(s[|s| - 1]) {
      var front, last := s[..|s| - 1], [s[|s| - 1]];
      StripRightInk(front);
      assert s == front + last;
      InkAppend(front, last);
      assert Ink(last) == [];
    }
  }

  /** Stripping loses white space only. */
  lemma StripInk(s: string)
    ensures Ink(Strip(s)) == Ink(s)
  {
    StripLeftInk(s);
    StripRightInk(StripLeft(s));
  }

  lemma CutInk(s: string, cut: nat)
    requires cut <= |s|
    ensures Ink(Strip(s[..cut])) + Ink(Strip(s[cut..])) == Ink(s)
  {
    hide Ink, Strip;
    var a, b := s[..cut], s[cut..];
    assert a + b == s;
    InkAppend(a, b);
    StripInk(a);
    StripInk(b);
  }

  lemma JoinInk(a: string, b: string)
    ensures Ink(Strip(a + " " + b)) == Ink(a) + Ink(b)
    ensures a == [] ==> |Strip(a + " " + b)| <= |b|
  {
    hide Ink, Strip;
    StripInk(a + " " + b);
    InkAppend(a + " ", b);
    InkAppend(a, " ");
    InkOfSpace();
    assert Ink(a) + [] == Ink(a);
    if a == [] {
      assert a + " " + b == " " + b;
      StripAfterSpace(b);
    }
  }

  lemma InkOfSpace()
    ensures Ink(" ") == []
  {
    assert Ink(" ") == Ink(" "[1..]) == [];
  }

  lemma StripAfterSpace(b: string)
    ensures |Strip(" " + b)| <= |b|
  {
    var t := " " + b;
    assert t[0] == ' ' && t[1..] == b;
    assert StripLeft(t) == StripLeft(b);
  }

  /** All the non-white characters on hand: in the pieces, in the open piece, and still to be placed. */
  function Held(pieces: seq<string>, cur: string, sent: string): string {
    InkOfAll(pieces) + (Ink(cur) + Ink(sent))
  }

  lemma HeldPush(pieces: seq<string>, cur: string, sent: string)
    ensures Held(pieces + [cur], "", sent) == Held(pieces, cur, sent) == Held(pieces + [cur], sent, "")
  {
    InkOfAllSnoc(pieces, cur);
    assert Ink("") == "";
    hide Ink, InkOfAll;
    assert (InkOfAll(pieces) + Ink(cur)) + Ink(sent) == InkOfAll(pieces) + (Ink(cur) + Ink(sent));
    assert "" + Ink(sent) == Ink(sent) == Ink(sent) + "";
  }

  lemma HeldCut(pieces: seq<string>, sent: string, cut: nat)
    requires cut <= |sent|
    ensures Held(pieces + [Strip(sent[..cut])], "", Strip(sent[cut..])) == Held(pieces, "", sent)
  {
    assert Ink("") == "";
    hide Ink, InkOfAll, Strip;
    CutInk(sent, cut);
    HeldPush(pieces, Strip(sent[..cut]), Strip(sent[cut..]));
    assert "" + Ink(sent) == Ink(sent);
  }

  lemma HeldJoin(pieces: seq<string>, cur: string, sent: string)
    ensures Held(pieces, Strip(cur + " " + sent), "") == Held(pieces, cur, sent)
  {
    JoinInk(cur, sent);
    assert Ink("") == "";
    hide Ink, InkOfAll, Strip;
    assert (Ink(cur) + Ink(sent)) + "" == Ink(cur) + Ink(sent);
  }

  /** s.rfind(" ", 0, limit) */
  function LastSpace(s: string, limit: nat): (r: int)
    requires limit <= |s|
    ensures -1 <= r < limit
    ensures r >= 0 ==> s[r] == ' '
    ensures forall i :: r < i < limit ==> s[i] != ' '
  {
    if limit == 0 then -1 else if s[limit - 1] == ' ' then limit - 1 else LastSpace(s, limit - 1)
  }

  // ------------------------------------------------------------------ words

  /** The white space Python's str.strip removes, among the first 128 characters: tab to carriage return, the
      four separators and the blank. */
  lemma AsciiSpaces()
    ensures forall c: char :: c < '\U{80}' ==>
      (Space(c) <==> c in "\t\n\U{0B}\U{0C}\r\U{1C}\U{1D}\U{1E}\U{1F} ")
  {
  }

  /** The length of the run of non-white characters a text starts with. */
  function Run(s: string): (k: nat)
    ensures k <= |s| && (forall i :: 0 <= i < k ==> !Space(s[i])) && (k < |s| ==> Space(s[k]))
  {
    if s == [] || Space(s[0]) then 0 else 1 + Run(s[1..])
  }

  /** The words of a text, as str.split() gives them. */
  function Words(s: string): seq<string> {
    if s == [] then []
    else if Space(s[0]) then Words(s[1..])
    else [s[..Run(s)]] + Words(s[Run(s)..])
  }

  function WordsOfAll(parts: seq<string>): seq<string> {
    if parts == [] then [] else Words(parts[0]) + WordsOfAll(parts[1..])
  }

  /** A cut beside a white character loses no word and makes none. */
  lemma {:induction false} WordsAppend(a: string, b: string)
    requires a == [] || b == [] || Space(b[0]) || Space(a[|a| - 1])
    ensures Words(a + b) == Words(a) + Words(b)
    decreases |a|
  {
    hide Space;
    if a == [] {
      assert a + b == b;
    } else if Space(a[0]) {
      assert (a + b)[1..] == a[1..] + b;
      WordsAppend(a[1..], b);
    } else {
      var k := Run(a);
      RunAppend(a, b);
      assert (a + b)[..k] == a[..k] && (a + b)[k..] == a[k..] + b;
      WordsAppend(a[k..], b);
    }
  }

  lemma RunAppend(a: string, b: string)
    requires a != [] && (b == [] || Space(b[0]) || Space(a[|a| - 1]))
    ensures Run(a + b) == Run(a)
  {
    var s := a + b;
    assert forall i :: 0 <= i < |a| ==> s[i] == a[i];
    assert b != [] ==> s[|a|] == b[0];
  }

  lemma {:induction false} WordsOfSpaces(s: string)
    requires forall i :: 0 <= i < |s| ==> Space(s[i])
    ensures Words(s) == []
  {
    if s != [] {
      WordsOfSpaces(s[1..]);
    }
  }

  lemma {:induction false} StripLeftWords(s: string)
    ensures Words(StripLeft(s)) == Words(s)
  {
    if s != [] && Space(s[0]) {
      StripLeftWords(s[1..]);
    }
  }

  lemma {:induction false} StripRightWords(s: string)
    ensures Words(StripRight(s)) == Words(s)
  {
    if s != [] && Space(s[|s| - 1]) {
      var front, last := s[..|s| - 1], [s[|s| - 1]];
      StripRightWords(front);
      assert s == front + last;
      WordsAppend(front, last);
      WordsOfSpaces(last);
    }
  }

  lemma StripWords(s: string)
    ensures Words(Strip(s)) == Words(s)
  {
    StripLeftWords(s);
    StripRightWords(StripLeft(s));
  }

  lemma {:induction false} WordsOfAllSnoc(parts: seq<string>, s: string)
    ensures WordsOfAll(parts + [s]) == WordsOfAll(parts) + Words(s)
  {
    hide Words;
    if parts != [] {
      assert (parts + [s])[1..] == parts[1..] + [s];
      WordsOfAllSnoc(parts[1..], s);
    } else {
      assert (parts + [s])[1..] == [];
    }
  }

  /** No run of non-white characters is longer than the limit. */
  ghost predicate ShortRuns(s: string, limit: nat) {
    forall i, j :: 0 <= i < j <= |s| && Solid(s[i..j]) ==> j - i <= limit
  }

  ghost predicate Solid(s: string) {
    forall k :: 0 <= k < |s| ==> !Space(s[k])
  }

  /** White space collapsed to blanks, none in front, and words that fit. */
  ghost predicate Breakable(s: string, limit: nat) {
    && ShortRuns(s, limit) && (forall i :: 0 <= i < |s| && Space(s[i]) ==> s[i] == ' ')
    && (s != [] ==> !Space(s[0]))
  }

  lemma {:induction false} StripLeftSlice(s: string) returns (i: nat)
    ensures i <= |s| && StripLeft(s) == s[i..]
  {
    if s != [] && Space(s[0]) {
      i := StripLeftSlice(s[1..]);
      i := i + 1;
    } else {
      i := 0;
    }
  }

  lemma {:induction false} StripRightSlice(s: string) returns (j: nat)
    ensures j <= |s| && StripRight(s) == s[..j]
  {
    if s != [] && Space(s[|s| - 1]) {
      j := StripRightSlice(s[..|s| - 1]);
    } else {
      j := |s|;
    }
  }

  /** What is left of a breakable text behind a cut is breakable. */
  lemma RestBreakable(s: string, limit: nat, cut: nat)
    requires Breakable(s, limit) && cut <= |s|
    ensures Breakable(Strip(s[cut..]), limit)
  {
    var t := s[cut..];
    var i := StripLeftSlice(t);
    var j := StripRightSlice(t[i..]);
    var r := Strip(t);
    assert r == t[i..][..j];
    forall a, b | 0 <= a < b <= |r| && Solid(r[a..b]) ensures b - a <= limit {
      assert s[cut + i + a..cut + i + b] == r[a..b];
    }
    assert forall k :: 0 <= k < |r| ==> r[k] == s[cut + i + k];
    assert r != [] ==> r[0] == StripLeft(t)[0];
  }

  /** The break point of an over-long breakable text lies at a blank: the last one in reach, or the end of a word
      that fills the limit. */
  lemma BreaksAtBlank(s: string, limit: nat)
    requires limit >= 1 && |s| > limit && Breakable(s, limit)
    ensures var cut := if LastSpace(s, limit) > 0 then LastSpace(s, limit) else limit; 0 < cut < |s| && Space(s[cut])
  {
    LongRun(s, limit);
    assert s[0..limit + 1] == s[..limit + 1];
  }

  lemma LongRun(s: string, limit: nat)
    requires limit >= 1 && |s| > limit && !Space(s[0]) && forall i :: 0 <= i < |s| && Space(s[i]) ==> s[i] == ' '
    ensures LastSpace(s, limit) <= 0 && !Space(s[limit]) ==> Solid(s[..limit + 1])
  {
  }

  lemma CutWords(s: string, cut: nat)
    requires cut < |s| && Space(s[cut])
    ensures Words(Strip(s[..cut])) + Words(Strip(s[cut..])) == Words(s)
  {
    hide Words, Strip, Space;
    assert s[..cut] + s[cut..] == s && s[cut..][0] == s[cut];
    WordsAppend(s[..cut], s[cut..]);
    StripWords(s[..cut]);
    StripWords(s[cut..]);
  }

  lemma JoinWords(a: string, b: string)
    ensures Words(Strip(a + " " + b)) == Words(a) + Words(b)
  {
    hide Words, Strip;
    StripWords(a + " " + b);
    assert a + " " + b == (a + " ") + b;
    WordsAppend(a + " ", b);
    WordsAppend(a, " ");
    WordsOfSpaces(" ");
    assert Words(a) + [] == Words(a);
  }

  /** The words in the pieces, in the open piece, and still to be placed. */
  function WordsHeld(pieces: seq<string>, cur: string, sent: string): seq<string> {
    WordsOfAll(pieces) + Words(cur) + Words(sent)
  }

  lemma WordsPush(pieces: seq<string>, cur: string, sent: string)
    ensures WordsHeld(pieces + [cur], "", sent) == WordsHeld(pieces, cur, sent) == WordsHeld(pieces + [cur], sent, "")
  {
    WordsOfAllSnoc(pieces, cur);
    assert Words("") == [];
    hide Words, WordsOfAll;
    assert WordsOfAll(pieces) + Words(cur) + [] == WordsOfAll(pieces) + Words(cur);
    var all := WordsOfAll(pieces) + Words(cur) + Words(sent);
    assert all + [] == all;
  }

  lemma WordsCut(pieces: seq<string>, sent: string, cut: nat)
    requires cut < |sent| && Space(sent[cut])
    ensures WordsHeld(pieces + [Strip(sent[..cut])], "", Strip(sent[cut..])) == WordsHeld(pieces, "", sent)
  {
    assert Words("") == [];
    hide Words, WordsOfAll, Strip, Space;
    CutWords(sent, cut);
    WordsOfAllSnoc(pieces, Strip(sent[..cut]));
    Regroup(WordsOfAll(pieces), Words(Strip(sent[..cut])), Words(Strip(sent[cut..])));
  }

  lemma Regroup(p: seq<string>, a: seq<string>, b: seq<string>)
    ensures p + a + [] + b == p + [] + (a + b) && p + (a + b) + [] == p + a + b
  {
  }

  lemma WordsJoin(pieces: seq<string>, cur: string, sent: string)
    ensures WordsHeld(pieces, Strip(cur + " " + sent), "") == WordsHeld(pieces, cur, sent)
  {
    JoinWords(cur, sent);
    assert Words("") == [];
    hide Words, WordsOfAll, Strip;
    Regroup(WordsOfAll(pieces), Words(cur), Words(sent));
  }

  lemma WordsNext(all: seq<string>, cur: string, sentences: seq<string>, i: nat)
    requires i < |sentences| && WordsHeld(all, cur, "") == WordsOfAll(sentences[..i])
    ensures WordsHeld(all, cur, sentences[i]) == WordsOfAll(sentences[..i + 1])
  {
    assert Words("") == [];
    assert sentences[..i + 1] == sentences[..i] + [sentences[i]];
    WordsOfAllSnoc(sentences[..i], sentences[i]);
    hide Words, WordsOfAll;
    var x := WordsOfAll(all) + Words(cur);
    assert x + [] == x;
  }

  lemma WordsNone(pieces: seq<string>)
    ensures WordsHeld(pieces, "", "") == WordsOfAll(pieces)
  {
    assert Words("") == [];
    hide Words, WordsOfAll;
    var x := WordsOfAll(pieces);
    assert x + [] == x && x + [] + [] == x;
  }

  lemma {:induction false} NonEmptyWords(pieces: seq<string>)
    ensures WordsOfAll(NonEmpty(pieces)) == WordsOfAll(pieces)
  {
    if pieces != [] {
      NonEmptyWords(pieces[1..]);
      if pieces[0] != [] {
        assert ([pieces[0]] + NonEmpty(pieces[1..]))[1..] == NonEmpty(pieces[1..]);
      } else {
        assert Words(pieces[0]) == [];
      }
    }
  }

  // ------------------------------------------------------------------ splitting

  ghost predicate Bounded(pieces: seq<string>, limit: nat) {
    forall i :: 0 <= i < |pieces| ==> |pieces[i]| <= limit
  }

  /** The inner loop: break pieces off a sentence with no usable punctuation until it fits. */
  method BreakSentence(pieces0: seq<string>, cur0: string, sent0: string, limit: nat)
    returns (pieces: seq<string>, cur: string, sent: string)
    requires limit >= 1 && Bounded(pieces0, limit) && |cur0| <= limit
    ensures Bounded(pieces, limit) && |cur| <= limit && |sent| <= limit
    ensures Held(pieces, cur, sent) == Held(pieces0, cur0, sent0)
    ensures Breakable(sent0, limit) ==> WordsHeld(pieces, cur, sent) == WordsHeld(pieces0, cur0, sent0)
    ensures |sent0| <= limit ==> pieces == pieces0 && cur == cur0 && sent == sent0
  {
    hide Held, Strip, LastSpace, WordsHeld, Breakable;
    pieces, cur, sent := pieces0, cur0, sent0;
    while |sent| > limit
      invariant Bounded(pieces, limit) && |cur| <= limit
      invariant Held(pieces, cur, sent) == Held(pieces0, cur0, sent0)
      invariant Breakable(sent0, limit) ==>
        Breakable(sent, limit) && WordsHeld(pieces, cur, sent) == WordsHeld(pieces0, cur0, sent0)
      invariant |sent0| <= limit ==> pieces == pieces0 && cur == cur0 && sent == sent0
      decreases |sent|
    {
      if Breakable(sent, limit) { BreaksAtBlank(sent, limit); }
      var cut := LastSpace(sent, limit);
      cut := if cut > 0 then cut else limit;
      if cur != [] {
        HeldPush(pieces, cur, sent);
        WordsPush(pieces, cur, sent);
        pieces := pieces + [cur];
        cur := [];
      }
      HeldCut(pieces, sent, cut);
      if Breakable(sent, limit) {
        WordsCut(pieces, sent, cut);
        RestBreakable(sent, limit, cut);
      }
      pieces := pieces + [Strip(sent[..cut])];
      sent := Strip(sent[cut..]);
    }
  }

  function NonEmpty(pieces: seq<string>): (r: seq<string>)
    ensures forall i :: 0 <= i < |r| ==> r[i] != [] && r[i] in pieces
  {
    if pieces == [] then []
    else
      var rest := NonEmpty(pieces[1..]);
      assert forall i :: 0 <= i < |rest| ==> rest[i] in pieces[1..];
      if pieces[0] == [] then rest else [pieces[0]] + rest
  }

  lemma {:induction false} NonEmptyInk(pieces: seq<string>)
    ensures InkOfAll(NonEmpty(pieces)) == InkOfAll(pieces)
  {
    if pieces != [] {
      NonEmptyInk(pieces[1..]);
      if pieces[0] != [] {
        assert ([pieces[0]] + NonEmpty(pieces[1..]))[1..] == NonEmpty(pieces[1..]);
      }
    }
  }

  // ------------------------------------------------------------------ packing

  /** A sentence that fits and has no white space at its ends. */
  predicate Tidy(s: string, limit: nat) {
    0 < |s| <= limit && !Space(s[0]) && !Space(s[|s| - 1])
  }

  /** " ".join */
  function Spaced(group: seq<string>): string {
    if group == [] then "" else if |group| == 1 then group[0]
    else Spaced(group[..|group| - 1]) + " " + group[|group| - 1]
  }

  /** The pieces are the groups, each joined by blanks, and none could have taken the next group's first
      sentence. */
  ghost predicate Packed(pieces: seq<string>, groups: seq<seq<string>>, limit: nat) {
    && |pieces| == |groups|
    && (forall i :: 0 <= i < |groups| ==> groups[i] != [] && pieces[i] == Spaced(groups[i]) != "")
    && (forall i :: 0 < i < |groups| ==> |pieces[i - 1]| + 1 + |groups[i][0]| > limit)
  }

  /** The packing with the open piece as its last group, if there is one. */
  ghost predicate Packing(all: seq<string>, cur: string, groups: seq<seq<string>>, group: seq<string>, limit: nat) {
    && (group == [] ==> cur == "" && all == [] && groups == [])
    && (group != [] ==> Packed(all + [cur], groups + [group], limit))
    && (cur != "" ==> !Space(cur[0]) && !Space(cur[|cur| - 1]))
  }

  lemma StripTidy(s: string)
    requires s != "" && !Space(s[0]) && !Space(s[|s| - 1])
    ensures Strip(s) == s
  {
  }

  lemma StripPadded(s: string)
    requires s != "" && !Space(s[0]) && !Space(s[|s| - 1])
    ensures Strip("" + " " + s) == s
  {
    var padded := "" + " " + s;
    assert padded[0] == ' ' && padded[1..] == s;
    assert StripLeft(padded) == StripLeft(s) == s;
  }

  lemma SpacedSnoc(group: seq<string>, s: string)
    requires group != []
    ensures Spaced(group + [s]) == Spaced(group) + " " + s
  {
    assert (group + [s])[..|group|] == group;
  }

  lemma PackOpen(all: seq<string>, cur: string, groups: seq<seq<string>>, group: seq<string>, s: string, limit: nat)
    requires Packing(all, cur, groups, group, limit) && Tidy(s, limit)
    requires cur != "" ==> |cur| + |s| + 1 <= limit
    ensures Packing(all, Strip(cur + " " + s), groups, group + [s], limit)
  {
    hide Strip, Space, Spaced;
    if group == [] {
      StripPadded(s);
      SpacedOne(s);
      assert [] + [s] == [s];
    } else {
      OpenNotEmpty(all, cur, groups, group, limit);
      StripTidy(cur + " " + s);
      SpacedSnoc(group, s);
      var a, b := all + [cur], all + [cur + " " + s];
      var g, h := groups + [group], groups + [group + [s]];
      assert forall i :: 0 <= i < |all| ==> b[i] == a[i] && h[i] == g[i];
      assert a[|all|] == cur && g[|all|] == group && b[|all|] == cur + " " + s && h[|all|] == group + [s];
    }
  }

  lemma SpacedOne(s: string)
    ensures Spaced([s]) == s
  {
  }

  lemma OpenNotEmpty(all: seq<string>, cur: string, groups: seq<seq<string>>, group: seq<string>, limit: nat)
    requires Packing(all, cur, groups, group, limit) && group != []
    ensures |all| == |groups| && cur == Spaced(group) != ""
  {
    assert (all + [cur])[|all|] == cur && (groups + [group])[|groups|] == group;
  }

  lemma PackClose(all: seq<string>, cur: string, groups: seq<seq<string>>, group: seq<string>, s: string, limit: nat)
    requires Packing(all, cur, groups, group, limit) && Tidy(s, limit)
    requires cur != "" && |cur| + |s| + 1 > limit
    ensures group != [] && Packing(all + [cur], s, groups + [group], [s], limit)
  {
    hide Space, Spaced;
    SpacedOne(s);
    OpenNotEmpty(all, cur, groups, group, limit);
    var a, g := all + [cur], groups + [group];
    var b, h := a + [s], g + [[s]];
    assert forall i :: 0 <= i < |a| ==> b[i] == a[i] && h[i] == g[i];
    assert b[|a|] == s && h[|g|] == [s];
  }

  /** One sentence is broken up if it is over-long, and then joins the open piece or starts a new one. */
  method PlaceSentence(all0: seq<string>, cur0: string, sent0: string, limit: nat)
    returns (all: seq<string>, cur: string)
    requires limit >= 1 && Bounded(all0, limit) && |cur0| <= limit
    ensures Bounded(all, limit) && |cur| <= limit
    ensures Held(all, cur, "") == Held(all0, cur0, sent0)
    ensures Breakable(sent0, limit) ==> WordsHeld(all, cur, "") == WordsHeld(all0, cur0, sent0)
    ensures |sent0| <= limit ==>
      if cur0 != "" && |cur0| + |sent0| + 1 > limit then all == all0 + [cur0] && cur == sent0
      else all == all0 && cur == Strip(cur0 + " " + sent0)
  {
    hide Held, Strip, WordsHeld, Breakable;
    var sent;
    all, cur, sent := BreakSentence(all0, cur0, sent0, limit);
    if cur != [] && |cur| + |sent| + 1 > limit {
      HeldPush(all, cur, sent);
      WordsPush(all, cur, sent);
      all := all + [cur];
      cur := sent;
    } else {
      HeldJoin(all, cur, sent);
      WordsJoin(all, cur, sent);
      JoinInk(cur, sent);
      JoinedLength(cur, sent);
      cur := Strip(cur + " " + sent);
    }
  }

  /** _split_long, after the sentence split: it terminates, its pieces are non-empty and within the limit,
      and read in order they hold exactly the non-white characters of the text. No word that fits is broken,
      and sentences that fit are packed whole, as many to a piece as fit. */
  method SplitLong(sentences: seq<string>, limit: nat) returns (pieces: seq<string>, ghost groups: seq<seq<string>>)
    requires limit >= 1
    ensures forall i :: 0 <= i < |pieces| ==> 0 < |pieces[i]| <= limit
    ensures InkOfAll(pieces) == InkOfAll(sentences)
    ensures (forall i :: 0 <= i < |sentences| ==> Breakable(sentences[i], limit)) ==>
      WordsOfAll(pieces) == WordsOfAll(sentences)
    ensures (forall i :: 0 <= i < |sentences| ==> Tidy(sentences[i], limit)) ==>
      Flatten(groups) == sentences && Packed(pieces, groups, limit)
  {
    var all: seq<string> := [];
    var cur := "";
    ghost var group: seq<string> := [];
    groups := [];
    NothingHeld(limit);
    hide Held, Strip, Ink, InkOfAll, WordsHeld, WordsOfAll, Breakable, NonEmpty, Tidy, Packing, Packed, Flatten;
    ghost var whole := forall i :: 0 <= i < |sentences| ==> Breakable(sentences[i], limit);
    ghost var tidy := forall i :: 0 <= i < |sentences| ==> Tidy(sentences[i], limit);
    for i := 0 to |sentences|
      invariant Bounded(all, limit) && |cur| <= limit
      invariant Held(all, cur, "") == InkOfAll(sentences[..i])
      invariant whole ==> WordsHeld(all, cur, "") == WordsOfAll(sentences[..i])
      invariant tidy ==> Packing(all, cur, groups, group, limit) && Flatten(groups) + group == sentences[..i]
    {
      HeldNext(all, cur, sentences, i);
      if whole { WordsNext(all, cur, sentences, i); }
      ghost var all0, cur0 := all, cur;
      all, cur := PlaceSentence(all, cur, sentences[i], limit);
      if tidy {
        TidyFits(sentences[i], limit);
        groups, group := PackNext(all0, cur0, groups, group, sentences, i, limit);
      }
    }
    assert sentences[..|sentences|] == sentences;
    if tidy {
      PackDone(all, cur, groups, group, limit);
      FlattenLast(groups, group);
      groups := if group == [] then groups else groups + [group];
    }
    if cur != [] {
      HeldPush(all, cur, "");
      WordsPush(all, cur, "");
      all := all + [cur];
    }
    HeldNone(all);
    WordsNone(all);
    NonEmptyInk(all);
    NonEmptyWords(all);
    pieces := NonEmpty(all);
    if tidy { PackedNonEmpty(all, groups, limit); }
    assert forall i :: 0 <= i < |pieces| ==> pieces[i] in all;
  }

  lemma NothingHeld(limit: nat)
    ensures Held([], "", "") == InkOfAll([]) && WordsHeld([], "", "") == WordsOfAll([])
    ensures Packing([], "", [], [], limit) && Flatten<string>([]) + [] == []
  {
  }

  lemma TidyFits(s: string, limit: nat)
    requires Tidy(s, limit)
    ensures |s| <= limit
  {
  }

  lemma PackNext(all: seq<string>, cur: string, groups: seq<seq<string>>, group: seq<string>, sentences: seq<string>,
                 i: nat, limit: nat)
    returns (groups1: seq<seq<string>>, group1: seq<string>)
    requires i < |sentences| && Tidy(sentences[i], limit)
    requires Packing(all, cur, groups, group, limit) && Flatten(groups) + group == sentences[..i]
    ensures Flatten(groups1) + group1 == sentences[..i + 1]
    ensures if cur != "" && |cur| + |sentences[i]| + 1 > limit
      then Packing(all + [cur], sentences[i], groups1, group1, limit)
      else Packing(all, Strip(cur + " " + sentences[i]), groups1, group1, limit)
  {
    hide Packing, Tidy, Flatten, Strip;
    var s := sentences[i];
    assert sentences[..i + 1] == sentences[..i] + [s];
    if cur != "" && |cur| + |s| + 1 > limit {
      PackClose(all, cur, groups, group, s, limit);
      FlattenSnoc(groups, group);
      groups1, group1 := groups + [group], [s];
    } else {
      PackOpen(all, cur, groups, group, s, limit);
      groups1, group1 := groups, group + [s];
      assert Flatten(groups) + (group + [s]) == (Flatten(groups) + group) + [s];
    }
  }

  lemma PackDone(all: seq<string>, cur: string, groups: seq<seq<string>>, group: seq<string>, limit: nat)
    requires Packing(all, cur, groups, group, limit)
    ensures Packed(if cur == "" then all else all + [cur], if group == [] then groups else groups + [group], limit)
  {
    hide Spaced;
    if group != [] {
      OpenNotEmpty(all, cur, groups, group, limit);
    }
  }

  lemma FlattenLast(groups: seq<seq<string>>, group: seq<string>)
    ensures Flatten(if group == [] then groups else groups + [group]) == Flatten(groups) + group
  {
    hide Flatten;
    FlattenSnoc(groups, group);
    assert Flatten(groups) + [] == Flatten(groups);
  }

  lemma {:induction false} NonEmptySame(pieces: seq<string>)
    requires forall i :: 0 <= i < |pieces| ==> pieces[i] != ""
    ensures NonEmpty(pieces) == pieces
  {
    if pieces != [] {
      NonEmptySame(pieces[1..]);
      assert [pieces[0]] + pieces[1..] == pieces;
    }
  }

  lemma PackedNonEmpty(pieces: seq<string>, groups: seq<seq<string>>, limit: nat)
    requires Packed(pieces, groups, limit)
    ensures NonEmpty(pieces) == pieces
  {
    NonEmptySame(pieces);
  }

  lemma JoinedLength(a: string, b: string)
    ensures |Strip(a + " " + b)| <= |a| + 1 + |b|
  {
  }

  lemma HeldNone(pieces: seq<string>)
    ensures Held(pieces, "", "") == InkOfAll(pieces)
  {
    assert Ink("") == "";
    assert InkOfAll(pieces) + ("" + "") == InkOfAll(pieces);
  }

  lemma HeldNext(all: seq<string>, cur: string, sentences: seq<string>, i: nat)
    requires i < |sentences| && Held(all, cur, "") == InkOfAll(sentences[..i])
    ensures Held(all, cur, sentences[i]) == InkOfAll(sentences[..i + 1])
  {
    assert sentences[..i + 1] == sentences[..i] + [sentences[i]];
    InkOfAllSnoc(sentences[..i], sentences[i]);
    HeldSplit(all, cur, sentences[i]);
  }

  lemma HeldSplit(all: seq<string>, cur: string, sent: string)
    ensures Held(all, cur, sent) == Held(all, cur, "") + Ink(sent)
  {
    InkOfNothing();
    hide Ink, InkOfAll;
    var a, c, s := InkOfAll(all), Ink(cur), Ink(sent);
    assert c + Ink("") == c;
    assert a + (c + s) == (a + c) + s;
  }

  // ------------------------------------------------------------------ segments and passages

  datatype Segment = Segment(ts: int, text: string)

  ghost function InkOfSegments(ss: seq<Segment>): string {
    if ss == [] then [] else InkOfSegments(ss[..|ss| - 1]) + Ink(ss[|ss| - 1].text)
  }

  /** Every piece keeps the stamp it started at. */
  function Stamped(ts: int, pieces: seq<string>): (r: seq<Segment>)
    ensures |r| == |pieces| && forall i :: 0 <= i < |r| ==> r[i] == Segment(ts, pieces[i])
  {
    seq(|pieces|, i requires 0 <= i < |pieces| => Segment(ts, pieces[i]))
  }

  lemma InkOfSegmentsSnoc(ss: seq<Segment>, seg: Segment)
    ensures InkOfSegments(ss + [seg]) == InkOfSegments(ss) + Ink(seg.text)
  {
    hide Ink;
    assert (ss + [seg])[..|ss|] == ss;
  }

  lemma {:induction false} SegmentsInk(ss: seq<Segment>, ts: int, pieces: seq<string>)
    ensures InkOfSegments(ss + Stamped(ts, pieces)) == InkOfSegments(ss) + InkOfAll(pieces)
  {
    hide Ink, InkOfSegments;
    if pieces == [] {
      assert ss + Stamped(ts, pieces) == ss;
      assert InkOfSegments(ss) + [] == InkOfSegments(ss);
    } else {
      hide InkOfAll, Stamped;
      var front, last := pieces[..|pieces| - 1], pieces[|pieces| - 1];
      SegmentsInk(ss, ts, front);
      assert ss + Stamped(ts, pieces) == ss + Stamped(ts, front) + [Segment(ts, last)];
      InkOfSegmentsSnoc(ss + Stamped(ts, front), Segment(ts, last));
      assert pieces == front + [last];
      InkOfAllSnoc(front, last);
      assert (InkOfSegments(ss) + InkOfAll(front)) + Ink(last) == InkOfSegments(ss) + (InkOfAll(front) + Ink(last));
    }
  }

  lemma InkOfNothing()
    ensures Ink("") == ""
  {
  }

  /** The segments made of one stamped text: they keep its stamp and together its characters. */
  ghost predicate Keeps(group: seq<Segment>, part: Segment) {
    (forall k :: 0 <= k < |group| ==> group[k].ts == part.ts) && InkOfSegments(group) == Ink(part.text)
  }

  /** A text of up to twice the size stays whole; a longer one is cut to pieces of the size. */
  ghost predicate Sized(group: seq<Segment>, part: Segment, chunkChars: nat) {
    && (0 < |part.text| <= 2 * chunkChars ==> group == [part])
    && (|part.text| > 2 * chunkChars ==> forall k :: 0 <= k < |group| ==> |group[k].text| <= chunkChars)
  }

  lemma StampedKeeps(part: Segment, pieces: seq<string>)
    requires InkOfAll(pieces) == Ink(part.text)
    ensures Keeps(Stamped(part.ts, pieces), part)
  {
    hide Ink, InkOfAll, Stamped;
    SegmentsInk([], part.ts, pieces);
    assert [] + Stamped(part.ts, pieces) == Stamped(part.ts, pieces);
    assert InkOfSegments([]) + InkOfAll(pieces) == InkOfAll(pieces);
  }

  /** The segments of one text: itself if it is short enough, its pieces if not, none if it is blank. */
  method SegmentsOf(part: Segment, chunkChars: nat, sentences: string -> seq<string>) returns (group: seq<Segment>)
    requires chunkChars >= 1 && InkOfAll(sentences(part.text)) == Ink(part.text)
    ensures Keeps(group, part)
    ensures forall k :: 0 <= k < |group| ==> 0 < |group[k].text| <= 2 * chunkChars
    ensures 0 < |part.text| <= 2 * chunkChars ==> group == [part]
    ensures |part.text| > 2 * chunkChars ==> forall k :: 0 <= k < |group| ==> |group[k].text| <= chunkChars
  {
    hide Ink, InkOfAll, Keeps;
    var txt := part.text;
    assert Ink("") == "" by { InkOfNothing(); }
    if |txt| > 2 * chunkChars {
      var pieces, _ := SplitLong(sentences(txt), chunkChars);
      StampedKeeps(part, pieces);
      group := Stamped(part.ts, pieces);
    } else if txt != [] {
      group := [Segment(part.ts, txt)];
      OneKeeps(part);
    } else {
      group := [];
      NoneKeeps(part);
    }
  }

  lemma OneKeeps(part: Segment)
    ensures Keeps([Segment(part.ts, part.text)], part)
  {
    hide Ink;
    InkOfSegmentsSnoc([], part);
    assert [] + [part] == [part] && [] + Ink(part.text) == Ink(part.text);
  }

  lemma NoneKeeps(part: Segment)
    requires part.text == []
    ensures Keeps([], part)
  {
    InkOfNothing();
  }

  /** _timestamped_segments, on the stamped texts with white space already collapsed: no segment is empty or
      longer than 2 x chunkChars, and the segments are, in order, one group for each text, stamped with that
      text's stamp and holding its characters. `sentences` is the sentence splitter; it drops white space
      only. */
  method TimestampedSegments(parts: seq<Segment>, chunkChars: nat, sentences: string -> seq<string>)
    returns (out: seq<Segment>, ghost groups: seq<seq<Segment>>)
    requires chunkChars >= 1
    requires forall t :: InkOfAll(sentences(t)) == Ink(t)
    ensures forall i :: 0 <= i < |out| ==> 0 < |out[i].text| <= 2 * chunkChars
    ensures out == Flatten(groups) && |groups| == |parts| && forall i :: 0 <= i < |parts| ==> Keeps(groups[i], parts[i])
    ensures InkOfSegments(out) == InkOfSegments(parts)
    ensures forall i :: 0 <= i < |parts| ==> Sized(groups[i], parts[i], chunkChars)
  {
    hide Ink, InkOfAll, InkOfSegments, Keeps, Flatten;
    out, groups := [], [];
    FlattenNone();
    for i := 0 to |parts|
      invariant forall k :: 0 <= k < |out| ==> 0 < |out[k].text| <= 2 * chunkChars
      invariant out == Flatten(groups) && |groups| == i && forall k :: 0 <= k < i ==> Keeps(groups[k], parts[k])
      invariant forall k :: 0 <= k < i ==> Sized(groups[k], parts[k], chunkChars)
    {
      var group := SegmentsOf(parts[i], chunkChars, sentences);
      FlattenSnoc(groups, group);
      out, groups := out + group, groups + [group];
    }
    GroupsInk(groups, parts);
  }

  lemma FlattenNone()
    ensures Flatten<Segment>([]) == []
  {
  }

  lemma {:induction false} GroupsInk(groups: seq<seq<Segment>>, parts: seq<Segment>)
    requires |groups| == |parts| && forall i :: 0 <= i < |parts| ==> Keeps(groups[i], parts[i])
    ensures InkOfSegments(Flatten(groups)) == InkOfSegments(parts)
  {
    hide Ink, InkOfSegments, Flatten;
    if parts == [] {
      InkOfNoSegments();
      FlattenNone();
      assert groups == [];
    } else {
      var n := |parts| - 1;
      GroupsInk(groups[..n], parts[..n]);
      assert groups == groups[..n] + [groups[n]] && parts == parts[..n] + [parts[n]];
      FlattenSnoc(groups[..n], groups[n]);
      InkOfSegmentsSnoc(parts[..n], parts[n]);
      InkOfSegmentsAppend(Flatten(groups[..n]), groups[n]);
    }
  }

  lemma {:induction false} InkOfSegmentsAppend(a: seq<Segment>, b: seq<Segment>)
    ensures InkOfSegments(a + b) == InkOfSegments(a) + InkOfSegments(b)
    decreases |b|
  {
    hide Ink, InkOfSegments;
    if b == [] {
      InkOfNoSegments();
      assert a + b == a && InkOfSegments(a) + [] == InkOfSegments(a);
    } else {
      var n := |b| - 1;
      var front, last := b[..n], b[n];
      InkOfSegmentsAppend(a, front);
      assert a + b == (a + front) + [last] && b == front + [last];
      InkOfSegmentsSnoc(a + front, last);
      InkOfSegmentsSnoc(front, last);
      var x, y, z := InkOfSegments(a), InkOfSegments(front), Ink(last.text);
      assert (x + y) + z == x + (y + z);
    }
  }

  lemma InkOfNoSegments()
    ensures InkOfSegments([]) == []
  {
  }

  /** The running size of a passage: each text and a separator. The joined text is one shorter. */
  function Size(buf: seq<Segment>): nat {
    if buf == [] then 0 else Size(buf[..|buf| - 1]) + |buf[|buf| - 1].text| + 1
  }

  /** " ".join of the passage's texts. */
  function PassageText(buf: seq<Segment>): string {
    if buf == [] then []
    else if |buf| == 1 then buf[0].text
    else PassageText(buf[..|buf| - 1]) + " " + buf[|buf| - 1].text
  }

  lemma {:induction false} PassageLength(buf: seq<Segment>)
    requires buf != []
    ensures |PassageText(buf)| == Size(buf) - 1
  {
    if |buf| > 1 {
      PassageLength(buf[..|buf| - 1]);
    } else {
      assert buf[..0] == [];
    }
  }

  /** A passage is cut as soon as it reaches chunkChars, so it is short of that without its last segment. */
  ghost predicate Cut(p: seq<Segment>, chunkChars: nat) {
    p != [] && Size(p) >= chunkChars && Size(p[..|p| - 1]) < chunkChars
  }

  /** The passage loop of iter_transcripts: an ordered partition of the segments into passages, each (but
      perhaps the last) at least chunkChars and, for segments of at most 2 x chunkChars, under three times
      that. */
  method BuildPassages(paras: seq<Segment>, chunkChars: nat) returns (passages: seq<seq<Segment>>)
    requires chunkChars >= 1
    requires forall i :: 0 <= i < |paras| ==> |paras[i].text| <= 2 * chunkChars
    ensures Flatten(passages) == paras
    ensures forall i :: 0 <= i < |passages| ==> passages[i] != [] && |PassageText(passages[i])| < 3 * chunkChars
    ensures forall i :: 0 <= i < |passages| - 1 ==> Cut(passages[i], chunkChars)
  {
    passages := [];
    var buf: seq<Segment> := [];
    var size := 0;
    assert Flatten(passages) + buf == [];
    hide Flatten, PassageText, AllCut;
    AllCutMeans(passages, chunkChars);
    for i := 0 to |paras|
      invariant Flatten(passages) + buf == paras[..i]
      invariant size == Size(buf) && size < chunkChars
      invariant AllCut(passages, chunkChars)
    {
      GrownBuffer(Flatten(passages), buf, paras, i);
      ghost var before := buf;
      buf := buf + [paras[i]];
      assert buf[..|buf| - 1] == before;
      size := size + |paras[i].text| + 1;
      if size >= chunkChars {
        FlattenSnoc(passages, buf);
        CutAdded(passages, buf, chunkChars);
        passages := passages + [buf];
        buf, size := [], 0;
      }
    }
    assert paras[..|paras|] == paras;
    AllCutMeans(passages, chunkChars);
    if buf != [] {
      PassageLength(buf);
      FlattenSnoc(passages, buf);
      passages := passages + [buf];
    } else {
      assert Flatten(passages) + [] == Flatten(passages);
    }
  }

  ghost predicate AllCut(passages: seq<seq<Segment>>, chunkChars: nat) {
    forall k :: 0 <= k < |passages| ==>
        passages[k] != [] && |PassageText(passages[k])| < 3 * chunkChars && Cut(passages[k], chunkChars)
  }

  lemma AllCutMeans(passages: seq<seq<Segment>>, chunkChars: nat)
    ensures AllCut(passages, chunkChars) ==>
      forall k :: 0 <= k < |passages| ==>
          passages[k] != [] && |PassageText(passages[k])| < 3 * chunkChars && Cut(passages[k], chunkChars)
    ensures passages == [] ==> AllCut(passages, chunkChars)
  {
  }

  lemma CutAdded(passages: seq<seq<Segment>>, buf: seq<Segment>, chunkChars: nat)
    requires AllCut(passages, chunkChars) && Cut(buf, chunkChars) && |buf[|buf| - 1].text| <= 2 * chunkChars
    ensures AllCut(passages + [buf], chunkChars)
  {
    PassageLength(buf);
  }

  lemma GrownBuffer(front: seq<Segment>, buf: seq<Segment>, paras: seq<Segment>, i: nat)
    requires i < |paras| && front + buf == paras[..i]
    ensures front + (buf + [paras[i]]) == paras[..i + 1] == (front + (buf + [paras[i]])) + []
  {
    assert front + (buf + [paras[i]]) == (front + buf) + [paras[i]];
  }
}
