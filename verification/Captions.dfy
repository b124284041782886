/** tools/fetch_transcripts.py: merging rolling caption windows into one stream of lines, and packing
    the lines into paragraphs. A cue is its start time and its cleaned, non-empty lines. */
module Captions {
  import opened Common

  datatype Cue = Cue(start: int, lines: seq<string>)

  datatype Line = Line(start: int, text: string)

  function Texts(ls: seq<Line>): seq<string> {
    seq(|ls|, i requires 0 <= i < |ls| => ls[i].text)
  }

  ghost predicate EndsWith(s: seq<string>, t: seq<string>) {
    |t| <= |s| && s[|s| - |t|..] == t
  }

  // ------------------------------------------------------------------ rolling windows

  /** The first k lines of the new window repeat the last k of the previous one. */
  predicate Repeats(prev: seq<string>, lines: seq<string>, k: nat)
    requires k <= |prev| && k <= |lines|
  {
    lines[..k] == prev[|prev| - k..]
  }

  function LongestFrom(prev: seq<string>, lines: seq<string>, k: nat): (r: nat)
    requires k <= |prev| && k <= |lines|
    ensures r <= k && Repeats(prev, lines, r)
    ensures forall j :: r < j <= k ==> !Repeats(prev, lines, j)
  {
    if k == 0 || Repeats(prev, lines, k) then k else LongestFrom(prev, lines, k - 1)
  }

  /** The overlap the code looks for, from the longest possible down. */
  function Overlap(prev: seq<string>, lines: seq<string>): (r: nat)
    ensures r <= |prev| && r <= |lines|
  {
    LongestFrom(prev, lines, Min(|prev|, |lines|))
  }

  function Stamped(start: int, texts: seq<string>): seq<Line> {
    seq(|texts|, i requires 0 <= i < |texts| => Line(start, texts[i]))
  }

  datatype Merge = Merge(emitted: seq<Line>, prev: seq<string>)

  function MergeCue(m: Merge, cue: Cue): Merge {
    Merge(m.emitted + Stamped(cue.start, cue.lines[Overlap(m.prev, cue.lines)..]),
          if cue.lines == [] then m.prev else cue.lines)
  }

  function MergeAll(cues: seq<Cue>): Merge {
    if cues == [] then Merge([], []) else MergeCue(MergeAll(cues[..|cues| - 1]), cues[|cues| - 1])
  }

  /** The scan for the overlap, from the longest possible down to 1. */
  method FindOverlap(prev: seq<string>, lines: seq<string>) returns (overlap: nat)
    ensures overlap == Overlap(prev, lines)
  {
    var k := Min(|lines|, |prev|);
    while k > 0
      invariant 0 <= k <= Min(|lines|, |prev|)
      invariant LongestFrom(prev, lines, k) == Overlap(prev, lines)
    {
      if lines[..k] == prev[|prev| - k..] {
        return k;
      }
      k := k - 1;
    }
    overlap := 0;
  }

  /** emitted_lines */
  method EmittedLines(cues: seq<Cue>) returns (emitted: seq<Line>)
    ensures emitted == MergeAll(cues).emitted
  {
    hide Overlap, Stamped;
    emitted := [];
    var prev: seq<string> := [];
    for c := 0 to |cues|
      invariant Merge(emitted, prev) == MergeAll(cues[..c])
    {
      assert cues[..c + 1][..c] == cues[..c];
      var lines := cues[c].lines;
      var overlap := FindOverlap(prev, lines);
      emitted := emitted + Stamped(cues[c].start, lines[overlap..]);
      if lines != [] {
        prev := lines;
      }
    }
    assert cues[..|cues|] == cues;
  }

  /** After every cue the stream ends with the window kept for the next overlap. */
  lemma {:induction false} StreamEndsWithPrev(cues: seq<Cue>)
    ensures EndsWith(Texts(MergeAll(cues).emitted), MergeAll(cues).prev)
  {
    if cues != [] {
      StreamEndsWithPrev(cues[..|cues| - 1]);
      WindowAppended(MergeAll(cues[..|cues| - 1]), cues[|cues| - 1]);
    }
  }

  /** The window kept for the next overlap is the last non-empty one. */
  lemma {:induction false} LastWindow(cues: seq<Cue>, c: nat)
    requires c < |cues| && cues[c].lines != [] && forall k :: c < k < |cues| ==> cues[k].lines == []
    ensures MergeAll(cues).prev == cues[c].lines
    decreases |cues|
  {
    hide Overlap, Stamped;
    if c < |cues| - 1 {
      LastWindow(cues[..|cues| - 1], c);
    }
  }

  /** After every cue the stream ends with the last non-empty window, whole. */
  lemma StreamEndsWithWindow(cues: seq<Cue>, c: nat)
    requires c < |cues| && cues[c].lines != [] && forall k :: c < k < |cues| ==> cues[k].lines == []
    ensures EndsWith(Texts(MergeAll(cues).emitted), cues[c].lines)
  {
    StreamEndsWithPrev(cues);
    LastWindow(cues, c);
  }

  lemma TextsAppend(a: seq<Line>, start: int, texts: seq<string>)
    ensures Texts(a + Stamped(start, texts)) == Texts(a) + texts
  {
  }

  lemma WindowAppended(m: Merge, cue: Cue)
    requires EndsWith(Texts(m.emitted), m.prev)
    ensures EndsWith(Texts(MergeCue(m, cue).emitted), MergeCue(m, cue).prev)
  {
    var lines, k := cue.lines, Overlap(m.prev, cue.lines);
    TextsAppend(m.emitted, cue.start, lines[k..]);
    if lines == [] {
      assert Texts(m.emitted) + lines[k..] == Texts(m.emitted);
    } else {
      hide Overlap, Texts, Stamped;
      assert Repeats(m.prev, lines, k) by { OverlapRepeats(m.prev, lines); }
      TailExtended(Texts(m.emitted), m.prev, lines, k);
    }
  }

  lemma OverlapRepeats(prev: seq<string>, lines: seq<string>)
    ensures Repeats(prev, lines, Overlap(prev, lines))
    ensures forall j :: Overlap(prev, lines) < j <= |prev| && j <= |lines| ==> !Repeats(prev, lines, j)
  {
  }

  lemma TailExtended(s: seq<string>, prev: seq<string>, lines: seq<string>, k: nat)
    requires EndsWith(s, prev) && k <= |prev| && k <= |lines| && Repeats(prev, lines, k)
    ensures EndsWith(s + lines[k..], lines)
  {
    TailOfTail(s, prev, k);
    var r := s + lines[k..];
    assert r[|r| - |lines|..] == s[|s| - k..] + lines[k..];
    assert lines == lines[..k] + lines[k..];
  }

  lemma TailOfTail(s: seq<string>, prev: seq<string>, k: nat)
    requires EndsWith(s, prev) && k <= |prev|
    ensures s[|s| - k..] == prev[|prev| - k..]
  {
    assert s[|s| - |prev|..][|prev| - k..] == s[|s| - k..];
  }

  /** The extension is the shortest one: no shorter text after the previous window would end with the new
      window. */
  lemma ExtensionShortest(prev: seq<string>, lines: seq<string>, extension: seq<string>)
    requires EndsWith(prev + extension, lines)
    ensures |extension| >= |lines| - Overlap(prev, lines)
  {
    var e, n := |extension|, |lines|;
    if e < n {
      var k := n - e;
      var all := prev + extension;
      assert all[|all| - n..][..k] == prev[|prev| - k..];
      assert Repeats(prev, lines, k);
      assert k <= Overlap(prev, lines);
    }
  }

  /** What one cue adds to the stream: the lines behind the longest overlap with the window before it, each
      stamped with this cue's start; and nothing emitted before changes. */
  lemma CueEmits(cues: seq<Cue>, c: nat) returns (k: nat)
    requires c < |cues|
    ensures var (a, b, lines) := (MergeAll(cues[..c]), MergeAll(cues[..c + 1]).emitted, cues[c].lines);
      && k <= |lines| && |b| == |a.emitted| + |lines| - k && b[..|a.emitted|] == a.emitted
      && (forall i :: |a.emitted| <= i < |b| ==> b[i] == Line(cues[c].start, lines[k + i - |a.emitted|]))
      && k <= |a.prev| && lines[..k] == a.prev[|a.prev| - k..]
      && forall j :: k < j <= |a.prev| && j <= |lines| ==> !Repeats(a.prev, lines, j)
  {
    hide Overlap, MergeAll;
    var m, cue := MergeAll(cues[..c]), cues[c];
    OneMoreCue(cues, c);
    OverlapRepeats(m.prev, cue.lines);
    k := Overlap(m.prev, cue.lines);
  }

  lemma OneMoreCue(cues: seq<Cue>, c: nat)
    requires c < |cues|
    ensures MergeAll(cues[..c + 1]) == MergeCue(MergeAll(cues[..c]), cues[c])
  {
    hide MergeCue;
    assert cues[..c + 1][..c] == cues[..c];
  }

  /** Stamps never decrease and none is after `last`. */
  ghost predicate StampsInOrder(ls: seq<Line>, last: int) {
    && (forall i, j :: 0 <= i < j < |ls| ==> ls[i].start <= ls[j].start)
    && (forall i :: 0 <= i < |ls| ==> ls[i].start <= last)
  }

  lemma AppendStamped(ls: seq<Line>, last: int, start: int, texts: seq<string>)
    requires StampsInOrder(ls, last) && last <= start
    ensures StampsInOrder(ls + Stamped(start, texts), start)
  {
  }

  /** Each cue's lines are emitted with that cue's start, so the stream's stamps follow the cues'. */
  lemma {:induction false} StampsFollowCues(cues: seq<Cue>, last: int)
    requires forall i, j :: 0 <= i < j < |cues| ==> cues[i].start <= cues[j].start
    requires forall i :: 0 <= i < |cues| ==> cues[i].start <= last
    ensures StampsInOrder(MergeAll(cues).emitted, last)
  {
    hide Overlap, Stamped;
    if cues != [] {
      var front, cue := cues[..|cues| - 1], cues[|cues| - 1];
      StampsFollowCues(front, cue.start);
      AppendStamped(MergeAll(front).emitted, cue.start, cue.start,
                    cue.lines[Overlap(MergeAll(front).prev, cue.lines)..]);
    }
  }

  // ------------------------------------------------------------------ paragraphs

  datatype Paragraph = Paragraph(start: int, text: string)

  /** " ".join(texts) */
  function Joined(texts: seq<string>): string {
    if texts == [] then [] else if |texts| == 1 then texts[0] else texts[0] + " " + Joined(texts[1..])
  }

  lemma {:induction false} JoinedSnoc(texts: seq<string>, last: string)
    requires texts != []
    ensures Joined(texts + [last]) == Joined(texts) + " " + last
  {
    if |texts| > 1 {
      assert (texts + [last])[1..] == texts[1..] + [last];
      JoinedSnoc(texts[1..], last);
    } else {
      assert (texts + [last])[1..] == [last];
    }
  }

  /** Lines of text are never empty; emitted_lines and clean_line see to it. */
  ghost predicate NonBlank(lines: seq<Line>) {
    forall i :: 0 <= i < |lines| ==> lines[i].text != []
  }

  /** The lines taken so far: finished groups, the open group, and the running length the code keeps. */
  datatype Packing = Packing(groups: seq<seq<Line>>, group: seq<Line>, len: nat)

  /** One turn of the loop in paragraphs. The separator is counted only once the length is not 0. */
  function Take(k: Packing, line: Line, maxChars: int): Packing {
    if k.group != [] && k.len + 1 + |line.text| > maxChars
    then Packing(k.groups + [k.group], [line], |line.text|)
    else Packing(k.groups, k.group + [line], k.len + (if k.len != 0 then 1 else 0) + |line.text|)
  }

  function TakeAll(lines: seq<Line>, maxChars: int): Packing {
    if lines == [] then Packing([], [], 0)
    else Take(TakeAll(lines[..|lines| - 1], maxChars), lines[|lines| - 1], maxChars)
  }

  function Groups(lines: seq<Line>, maxChars: int): seq<seq<Line>> {
    var k := TakeAll(lines, maxChars);
    if k.group == [] then k.groups else k.groups + [k.group]
  }

  /** A paragraph made of consecutive lines: their texts joined, stamped with the first line's start. */
  function Made(group: seq<Line>): Paragraph
    requires group != []
  {
    Paragraph(group[0].start, Joined(Texts(group)))
  }

  ghost predicate AllMade(paras: seq<Paragraph>, groups: seq<seq<Line>>) {
    |paras| == |groups| && forall i :: 0 <= i < |paras| ==> groups[i] != [] && paras[i] == Made(groups[i])
  }

  /** paragraphs */
  method Paragraphs(lines: seq<Line>, maxChars: int) returns (paras: seq<Paragraph>)
    ensures AllMade(paras, Groups(lines, maxChars))
    ensures forall i :: 0 <= i < |paras| ==>
      Groups(lines, maxChars)[i] != [] && paras[i].start == Groups(lines, maxChars)[i][0].start
  {
    hide Joined;
    paras := [];
    var current: seq<string> := [];
    var currentStart := 0;
    var currentLen := 0;
    for i := 0 to |lines|
      invariant AllMade(paras, TakeAll(lines[..i], maxChars).groups)
      invariant current == Texts(TakeAll(lines[..i], maxChars).group)
      invariant current != [] ==> currentStart == TakeAll(lines[..i], maxChars).group[0].start
      invariant currentLen == TakeAll(lines[..i], maxChars).len && (current == [] ==> currentLen == 0)
    {
      var line := lines[i];
      assert lines[..i + 1][..i] == lines[..i];
      ghost var k := TakeAll(lines[..i], maxChars);
      TextsSnoc(k.group, line);
      TextsSnoc([], line);
      if current != [] && currentLen + 1 + |line.text| > maxChars {
        paras := paras + [Paragraph(currentStart, Joined(current))];
        current, currentStart, currentLen := [], 0, 0;
      }
      if current == [] {
        currentStart := line.start;
      }
      current := current + [line.text];
      currentLen := currentLen + (if currentLen != 0 then 1 else 0) + |line.text|;
    }
    assert lines[..|lines|] == lines;
    if current != [] {
      paras := paras + [Paragraph(currentStart, Joined(current))];
    }
  }

  lemma TextsSnoc(group: seq<Line>, line: Line)
    ensures Texts(group + [line]) == Texts(group) + [line.text]
    ensures [] + [line] == [line] && Texts([]) == []
  {
  }

  lemma {:induction false} TakenPartition(lines: seq<Line>, maxChars: int)
    ensures var k := TakeAll(lines, maxChars); Flatten(k.groups) + k.group == lines
  {
    if lines != [] {
      hide Flatten;
      var front, last := lines[..|lines| - 1], lines[|lines| - 1];
      TakenPartition(front, maxChars);
      var k := TakeAll(front, maxChars);
      FlattenSnoc(k.groups, k.group);
      assert Flatten(k.groups) + (k.group + [last]) == front + [last] == lines;
    }
  }

  /** No line is lost, duplicated or moved: the paragraphs' groups are the lines in order. */
  lemma GroupsPartition(lines: seq<Line>, maxChars: int)
    ensures Flatten(Groups(lines, maxChars)) == lines
  {
    hide Flatten, TakeAll;
    var k := TakeAll(lines, maxChars);
    TakenPartition(lines, maxChars);
    FlattenSnoc(k.groups, k.group);
    assert Flatten(k.groups) + [] == Flatten(k.groups);
  }

  function Size(group: seq<Line>): nat {
    |Joined(Texts(group))|
  }

  /** The empty lines a group starts with, before its last line: the code counts no separator after them. */
  function Lead(group: seq<Line>): nat {
    if |group| <= 1 || group[0].text != [] then 0 else 1 + Lead(group[1..])
  }

  /** The length the code counts for a group. */
  function Counted(group: seq<Line>): int {
    Size(group) - Lead(group)
  }

  /** Every group's counted length fits the limit unless it is a single line, and no group could have taken the
      first line of the next one. */
  ghost predicate Fits(groups: seq<seq<Line>>, maxChars: int) {
    && (forall i :: 0 <= i < |groups| ==> groups[i] != [])
    && (forall i :: 0 <= i < |groups| ==> Counted(groups[i]) <= maxChars || |groups[i]| == 1)
    && (forall i :: 0 < i < |groups| ==> Counted(groups[i - 1]) + 1 + |groups[i][0].text| > maxChars)
  }

  lemma SizeSnoc(group: seq<Line>, line: Line)
    requires group != []
    ensures Size(group + [line]) == Size(group) + 1 + |line.text|
  {
    TextsSnoc(group, line);
    JoinedSnoc(Texts(group), line.text);
  }

  lemma SizeOne(line: Line)
    ensures Size([line]) == |line.text|
  {
    assert Texts([line]) == [line.text];
  }

  ghost predicate Blank(group: seq<Line>) {
    forall i :: 0 <= i < |group| ==> group[i].text == []
  }

  lemma {:induction false} LeadSnoc(group: seq<Line>, line: Line)
    requires group != []
    ensures Lead(group + [line]) == if Blank(group) then |group| else Lead(group)
    ensures Blank(group) ==> Lead(group) == |group| - 1
  {
    assert (group + [line])[1..] == group[1..] + [line] && (group + [line])[0] == group[0];
    if |group| == 1 {
      assert group[1..] + [line] == [line];
    } else {
      LeadSnoc(group[1..], line);
      assert Blank(group) <==> group[0].text == [] && Blank(group[1..]);
    }
  }

  /** The counted length is 0 only for empty lines. */
  lemma {:induction false} CountedBlank(group: seq<Line>)
    requires group != []
    ensures Counted(group) >= 0 && (Counted(group) == 0 <==> Blank(group))
    decreases |group|
  {
    hide Size, Lead;
    var front, last := group[..|group| - 1], group[|group| - 1];
    assert group == front + [last];
    if front == [] {
      assert group == [last];
      SizeOne(last);
      LeadOne(last);
    } else {
      CountedBlank(front);
      SizeSnoc(front, last);
      LeadSnoc(front, last);
      assert Blank(group) <==> Blank(front) && last.text == [];
    }
  }

  lemma LeadOne(line: Line)
    ensures Lead([line]) == 0
  {
  }

  /** How one more line changes it: the separator counts only if something was counted before. */
  lemma CountedSnoc(group: seq<Line>, line: Line)
    requires group != []
    ensures Counted(group + [line]) == Counted(group) + (if Counted(group) != 0 then 1 else 0) + |line.text|
  {
    hide Size, Lead;
    CountedBlank(group);
    SizeSnoc(group, line);
    LeadSnoc(group, line);
  }

  /** What the loop keeps: its running length is the counted length of the open group. */
  ghost predicate PackingOk(k: Packing, maxChars: int) {
    && k.len == (if k.group == [] then 0 else Counted(k.group))
    && (k.group == [] ==> k.groups == [])
    && Fits(if k.group == [] then k.groups else k.groups + [k.group], maxChars)
  }

  lemma TakeKeeps(k: Packing, line: Line, maxChars: int)
    requires PackingOk(k, maxChars)
    ensures PackingOk(Take(k, line, maxChars), maxChars)
  {
    hide Size, Counted, Fits;
    CountedOne(line);
    var all := k.groups + [k.group];
    if k.group == [] {
      assert k.group + [line] == [line];
      FitsOne(line, maxChars);
      assert [] + [[line]] == [[line]];
    } else if k.len + 1 + |line.text| > maxChars {
      FitsSnoc(all, [line], maxChars);
    } else {
      CountedSnoc(k.group, line);
      FitsLast(k.groups, k.group, k.group + [line], maxChars);
    }
  }

  lemma CountedOne(line: Line)
    ensures Counted([line]) == |line.text|
  {
    SizeOne(line);
  }

  lemma FitsOne(line: Line, maxChars: int)
    ensures Fits([[line]], maxChars)
  {
    hide Counted;
  }

  lemma FitsSnoc(groups: seq<seq<Line>>, last: seq<Line>, maxChars: int)
    requires Fits(groups, maxChars) && last != [] && (Counted(last) <= maxChars || |last| == 1)
    requires groups != [] ==> Counted(groups[|groups| - 1]) + 1 + |last[0].text| > maxChars
    ensures Fits(groups + [last], maxChars)
  {
    hide Counted;
  }

  lemma FitsLast(groups: seq<seq<Line>>, last: seq<Line>, more: seq<Line>, maxChars: int)
    requires Fits(groups + [last], maxChars) && last <= more && Counted(more) <= maxChars && last != []
    ensures Fits(groups + [more], maxChars)
  {
    hide Counted;
    var a, b := groups + [last], groups + [more];
    assert forall i :: 0 <= i < |groups| ==> a[i] == b[i] == groups[i];
    forall i | 0 < i < |b| ensures Counted(b[i - 1]) + 1 + |b[i][0].text| > maxChars {
      assert Counted(a[i - 1]) + 1 + |a[i][0].text| > maxChars;
      assert a[i - 1] == b[i - 1] && a[i][0] == b[i][0];
    }
  }

  lemma {:induction false} TakeAllKeeps(lines: seq<Line>, maxChars: int)
    ensures PackingOk(TakeAll(lines, maxChars), maxChars)
  {
    hide PackingOk, Take;
    if lines == [] {
      NothingTaken(maxChars);
    } else {
      TakeAllKeeps(lines[..|lines| - 1], maxChars);
      TakeKeeps(TakeAll(lines[..|lines| - 1], maxChars), lines[|lines| - 1], maxChars);
    }
  }

  lemma NothingTaken(maxChars: int)
    ensures PackingOk(Packing([], [], 0), maxChars)
  {
  }

  /** For any lines a paragraph of several lines exceeds max_chars by no more than the number of empty lines it
      starts with, and packing is greedy. For lines as emitted_lines yields them, none of them empty, it
      exceeds max_chars only if it is a single line. */
  lemma ParagraphsFit(lines: seq<Line>, maxChars: int)
    ensures Fits(Groups(lines, maxChars), maxChars)
    ensures forall i :: 0 <= i < |Groups(lines, maxChars)| && |Groups(lines, maxChars)[i]| > 1 ==>
      Size(Groups(lines, maxChars)[i]) <= maxChars + Lead(Groups(lines, maxChars)[i])
    ensures NonBlank(lines) ==>
      forall i :: 0 <= i < |Groups(lines, maxChars)| && |Groups(lines, maxChars)[i]| > 1 ==>
          Size(Groups(lines, maxChars)[i]) <= maxChars
  {
    hide Size, Lead, Groups, TakeAll;
    var groups := Groups(lines, maxChars);
    GroupsFit(lines, maxChars);
    if NonBlank(lines) {
      GroupsPartition(lines, maxChars);
      forall i | 0 <= i < |groups| && |groups[i]| > 1 ensures Size(groups[i]) <= maxChars {
        InFlatten(groups, i);
        assert groups[i][0] in lines;
        NoLead(groups[i]);
      }
    }
  }

  lemma GroupsFit(lines: seq<Line>, maxChars: int)
    ensures Fits(Groups(lines, maxChars), maxChars)
  {
    TakeAllKeeps(lines, maxChars);
  }

  lemma NoLead(group: seq<Line>)
    requires group != [] && group[0].text != []
    ensures Lead(group) == 0
  {
  }

  lemma {:induction false} InFlatten(groups: seq<seq<Line>>, i: nat)
    requires i < |groups|
    ensures forall x :: x in groups[i] ==> x in Flatten(groups)
  {
    if i > 0 {
      InFlatten(groups[1..], i - 1);
    }
  }

  /** Every emitted line is one of the cues' lines, so blank-free cues give blank-free lines. */
  lemma {:induction false} EmittedNonBlank(cues: seq<Cue>)
    requires forall c :: 0 <= c < |cues| ==> forall i :: 0 <= i < |cues[c].lines| ==> cues[c].lines[i] != []
    ensures NonBlank(MergeAll(cues).emitted)
  {
    if cues != [] {
      EmittedNonBlank(cues[..|cues| - 1]);
    }
  }

  /** That bound is reached: an empty line, "a" and "b" form one paragraph of four characters under a limit
      of three. */
  lemma BlankLinesOverrun()
    ensures var lines := [Line(0, ""), Line(1, "a"), Line(2, "b")];
      Groups(lines, 3) == [lines] && Size(lines) == 4 && Lead(lines) == 1
  {
    var a, b, c := Line(0, ""), Line(1, "a"), Line(2, "b");
    var lines := [a, b, c];
    assert lines[..2] == [a, b] && [a, b][..1] == [a] && [a][..0] == [];
    assert TakeAll([a], 3) == Packing([], [a], 0) by { assert [] + [a] == [a]; }
    assert TakeAll([a, b], 3) == Packing([], [a, b], 1);
    assert TakeAll(lines, 3) == Packing([], lines, 3);
    SizeOne(a);
    SizeSnoc([a], b);
    SizeSnoc([a, b], c);
    assert [a, b] + [c] == lines && [a] + [b] == [a, b];
    assert Lead(lines[1..]) == 0;
  }
}
