/** audit/reconcile.py voting_record: the counters behind the members' table and the pairwise agreement,
    as a loop over the votes of all minutes. Names are numbers in the order sorted() gives them. */
module Votes {

  type Name = nat

  /** A recorded vote; the lists are as parsed from the minutes and may repeat or share a name. */
  datatype Vote = Vote(yes: seq<Name>, no: seq<Name>)

  predicate Contested(v: Vote) {
    v.yes != [] && v.no != []
  }

  /** An unordered pair of members, the smaller name first. */
  datatype Pair = Pair(a: Name, b: Name)

  type Counter = map<Pair, nat>
  type Tally = map<Name, nat>

  function At<K>(m: map<K, nat>, k: K): nat {
    if k in m then m[k] else 0
  }

  // ------------------------------------------------------------------ what is to be counted

  function AsSet(s: seq<Name>): set<Name> {
    set x | x in s
  }

  function Voters(v: Vote): set<Name> {
    AsSet(v.yes) + AsSet(v.no)
  }

  /** Both members voted, and on the same side as far as the yes list tells. */
  predicate Together(v: Vote, p: Pair) {
    p.a in Voters(v) && p.b in Voters(v)
  }

  predicate SameSide(v: Vote, p: Pair) {
    p.a in v.yes <==> p.b in v.yes
  }

  function One(b: bool): nat {
    if b then 1 else 0
  }

  /** The contested votes in which both members of the pair voted. */
  function VotedTogether(votes: seq<Vote>, p: Pair): nat {
    if votes == [] then 0
    else
      var v := votes[|votes| - 1];
      VotedTogether(votes[..|votes| - 1], p) + One(Contested(v) && Together(v, p))
  }

  /** Those of them in which both were on the same side. */
  function VotedAlike(votes: seq<Vote>, p: Pair): nat {
    if votes == [] then 0
    else
      var v := votes[|votes| - 1];
      VotedAlike(votes[..|votes| - 1], p) + One(Contested(v) && Together(v, p) && SameSide(v, p))
  }

  function Occurrences(s: seq<Name>, x: Name): nat {
    if s == [] then 0 else Occurrences(s[..|s| - 1], x) + One(s[|s| - 1] == x)
  }

  /** The side with fewer entries; nobody on a tie. */
  function Minority(v: Vote): seq<Name> {
    if |v.no| < |v.yes| then v.no else if |v.yes| < |v.no| then v.yes else []
  }

  function ContestedOf(votes: seq<Vote>, x: Name): nat {
    if votes == [] then 0
    else
      var v := votes[|votes| - 1];
      ContestedOf(votes[..|votes| - 1], x) + (if Contested(v) then Occurrences(v.yes + v.no, x) else 0)
  }

  /** The entries of a member on the shorter side of a vote with both sides present. */
  function MinorityVotes(v: Vote, x: Name): nat {
    if v.yes == [] || v.no == [] then 0
    else if |v.no| < |v.yes| then Occurrences(v.no, x)
    else if |v.yes| < |v.no| then Occurrences(v.yes, x)
    else 0
  }

  function MinorityOf(votes: seq<Vote>, x: Name): nat {
    if votes == [] then 0
    else MinorityOf(votes[..|votes| - 1], x) + MinorityVotes(votes[|votes| - 1], x)
  }

  function CastOf(votes: seq<Vote>, x: Name): nat {
    if votes == [] then 0
    else
      var v := votes[|votes| - 1];
      CastOf(votes[..|votes| - 1], x) + Occurrences(v.yes + v.no, x)
  }

  function NoOf(votes: seq<Vote>, x: Name): nat {
    if votes == [] then 0 else NoOf(votes[..|votes| - 1], x) + Occurrences(votes[|votes| - 1].no, x)
  }

  // ------------------------------------------------------------------ the code

  ghost predicate Ascending(s: seq<Name>) {
    forall i, j :: 0 <= i < j < |s| ==> s[i] < s[j]
  }

  function Insert(x: Name, s: seq<Name>): (r: seq<Name>)
    requires Ascending(s) && x !in s
    ensures Ascending(r) && forall y :: y in r <==> y == x || y in s
  {
    if s == [] || x < s[0] then [x] + s
    else
      var rest := Insert(x, s[1..]);
      assert forall j :: 0 <= j < |rest| ==> rest[j] in rest;
      assert forall y :: y in s ==> y == s[0] || y in s[1..];
      [s[0]] + rest
  }

  /** sorted(set(yes) | set(no)) */
  function SortedSet(s: seq<Name>): (r: seq<Name>)
    ensures Ascending(r) && forall y :: y in r <==> y in s
  {
    if s == [] then []
    else
      var r := SortedSet(s[..|s| - 1]);
      assert forall y :: y in s <==> y in s[..|s| - 1] || y == s[|s| - 1];
      if s[|s| - 1] in r then r else Insert(s[|s| - 1], r)
  }

  /** Adds one for every entry of a list. */
  method CountNames(m: Tally, names: seq<Name>) returns (r: Tally)
    ensures forall x :: At(r, x) == At(m, x) + Occurrences(names, x)
  {
    r := m;
    for i := 0 to |names|
      invariant forall x :: At(r, x) == At(m, x) + Occurrences(names[..i], x)
    {
      assert names[..i + 1][..i] == names[..i];
      r := r[names[i] := At(r, names[i]) + 1];
    }
    assert names[..|names|] == names;
  }

  /** The loop over combinations(voters, 2) of one vote. */
  method CountPairs(v: Vote, pairN: Counter, agree: Counter) returns (n: Counter, g: Counter)
    ensures forall p: Pair :: At(n, p) == At(pairN, p) + One(p.a < p.b && Together(v, p))
    ensures forall p: Pair :: At(g, p) == At(agree, p) + One(p.a < p.b && Together(v, p) && SameSide(v, p))
  {
    hide SortedSet, Ascending, SameSide;
    var voters := SortedSet(v.yes + v.no);
    assert forall x :: x in voters <==> x in Voters(v);
    n, g := pairN, agree;
    for i := 0 to |voters|
      invariant forall p: Pair :: At(n, p) == At(pairN, p) + One(InPrefix(voters, i, p.a) && p.a < p.b && p.b in voters)
      invariant forall p: Pair ::
        At(g, p) == At(agree, p) + One(InPrefix(voters, i, p.a) && p.a < p.b && p.b in voters && SameSide(v, p))
    {
      n, g := CountRow(v, voters, i, n, g);
      PrefixGrows(voters, i, i + 1);
    }
    assert voters[..|voters|] == voters;
  }

  predicate InPrefix(s: seq<Name>, j: nat, x: Name)
    requires j <= |s|
  {
    x in s[..j]
  }

  lemma PrefixGrows(s: seq<Name>, j: nat, k: nat)
    requires Ascending(s) && j < |s| && k == j + 1
    ensures forall x :: InPrefix(s, k, x) <==> InPrefix(s, j, x) || x == s[j]
    ensures !InPrefix(s, j, s[j]) && forall x :: InPrefix(s, k, x) ==> x <= s[j]
  {
    assert s[..k] == s[..j] + [s[j]];
    assert forall i :: 0 <= i < j ==> s[i] < s[j];
  }

  /** `m` is `m0` plus one for each pair of voters[i] with a later voter among the first j; with `alike`,
      only for pairs on the same side. */
  ghost predicate RowCounted(m: Counter, m0: Counter, v: Vote, voters: seq<Name>, i: nat, j: nat, alike: bool)
    requires i < |voters| && j <= |voters|
  {
    forall p: Pair :: At(m, p) ==
      At(m0, p) + One(p.a == voters[i] && p.a < p.b && InPrefix(voters, j, p.b) && (alike ==> SameSide(v, p)))
  }

  lemma RowStep(m: Counter, m0: Counter, v: Vote, voters: seq<Name>, i: nat, j: nat, alike: bool)
    requires Ascending(voters) && i < j < |voters| && RowCounted(m, m0, v, voters, i, j, alike)
    ensures var p := Pair(voters[i], voters[j]);
      RowCounted(if alike && !SameSide(v, p) then m else m[p := At(m, p) + 1], m0, v, voters, i, j + 1, alike)
  {
    PrefixGrows(voters, j, j + 1);
    hide InPrefix;
  }

  lemma RowStart(m: Counter, v: Vote, voters: seq<Name>, i: nat, alike: bool)
    requires Ascending(voters) && i < |voters|
    ensures RowCounted(m, m, v, voters, i, i + 1, alike)
  {
    PrefixGrows(voters, i, i + 1);
  }

  method CountRow(v: Vote, voters: seq<Name>, i: nat, n0: Counter, g0: Counter) returns (n: Counter, g: Counter)
    requires Ascending(voters) && i < |voters|
    ensures forall p: Pair :: At(n, p) == At(n0, p) + One(p.a == voters[i] && p.a < p.b && p.b in voters)
    ensures forall p: Pair ::
      At(g, p) == At(g0, p) + One(p.a == voters[i] && p.a < p.b && p.b in voters && SameSide(v, p))
  {
    hide RowCounted;
    n, g := n0, g0;
    RowStart(n0, v, voters, i, false);
    RowStart(g0, v, voters, i, true);
    for j := i + 1 to |voters|
      invariant RowCounted(n, n0, v, voters, i, j, false)
      invariant RowCounted(g, g0, v, voters, i, j, true)
    {
      var p := Pair(voters[i], voters[j]);
      RowStep(n, n0, v, voters, i, j, false);
      RowStep(g, g0, v, voters, i, j, true);
      n := n[p := At(n, p) + 1];
      if (p.a in v.yes) == (p.b in v.yes) {
        g := g[p := At(g, p) + 1];
      }
    }
    RowDone(n, n0, v, voters, i, false);
    RowDone(g, g0, v, voters, i, true);
  }

  lemma RowDone(m: Counter, m0: Counter, v: Vote, voters: seq<Name>, i: nat, alike: bool)
    requires Ascending(voters) && i < |voters| && RowCounted(m, m0, v, voters, i, |voters|, alike)
    ensures forall p: Pair ::
      At(m, p) == At(m0, p) + One(p.a == voters[i] && p.a < p.b && p.b in voters && (alike ==> SameSide(v, p)))
  {
    assert voters[..|voters|] == voters;
  }

  /** The list the code picks for a contested vote is the shorter side. */
  lemma ShorterSide(v: Vote)
    ensures Contested(v) ==> forall x :: Occurrences(Minority(v), x) == MinorityVotes(v, x)
    ensures !Contested(v) ==> forall x :: MinorityVotes(v, x) == 0
  {
    assert forall x :: Occurrences([], x) == 0;
  }

  datatype Record = Record(cast: Tally, noVotes: Tally, minority: Tally, contested: Tally, pairN: Counter,
                           agree: Counter)

  /** voting_record, over the votes of all minutes in order. */
  method VotingRecord(votes: seq<Vote>) returns (r: Record)
    ensures forall x :: At(r.cast, x) == CastOf(votes, x) && At(r.noVotes, x) == NoOf(votes, x)
    ensures forall x :: At(r.minority, x) == MinorityOf(votes, x) && At(r.contested, x) == ContestedOf(votes, x)
    ensures forall p: Pair :: At(r.pairN, p) == if p.a < p.b then VotedTogether(votes, p) else 0
    ensures forall p: Pair :: At(r.agree, p) == if p.a < p.b then VotedAlike(votes, p) else 0
  {
    hide Occurrences, Minority, MinorityVotes, Together, SameSide;
    var cast, noVotes, minority, contested := map[], map[], map[], map[];
    var pairN, agree: Counter := map[], map[];
    for i := 0 to |votes|
      invariant forall x :: At(cast, x) == CastOf(votes[..i], x) && At(noVotes, x) == NoOf(votes[..i], x)
      invariant forall x ::
        At(minority, x) == MinorityOf(votes[..i], x) && At(contested, x) == ContestedOf(votes[..i], x)
      invariant forall p: Pair :: At(pairN, p) == if p.a < p.b then VotedTogether(votes[..i], p) else 0
      invariant forall p: Pair :: At(agree, p) == if p.a < p.b then VotedAlike(votes[..i], p) else 0
    {
      assert votes[..i + 1][..i] == votes[..i];
      var v := votes[i];
      ShorterSide(v);
      cast := CountNames(cast, v.yes + v.no);
      noVotes := CountNames(noVotes, v.no);
      if v.no != [] && v.yes != [] {
        minority := CountNames(minority, Minority(v));
        contested := CountNames(contested, v.yes + v.no);
        pairN, agree := CountPairs(v, pairN, agree);
      }
    }
    assert votes[..|votes|] == votes;
    r := Record(cast, noVotes, minority, contested, pairN, agree);
  }

  // ------------------------------------------------------------------ per member and per pair

  lemma {:induction false} OccurrencesJoin(a: seq<Name>, b: seq<Name>, x: Name)
    ensures Occurrences(a + b, x) == Occurrences(a, x) + Occurrences(b, x)
  {
    if b == [] {
      assert a + b == a;
    } else {
      assert (a + b)[..|a + b| - 1] == a + b[..|b| - 1];
      OccurrencesJoin(a, b[..|b| - 1], x);
    }
  }

  /** Nobody is more often in the minority than in a contested vote, nor votes no more often than votes;
      and no pair agrees more often than it votes together. So every rate is between 0 and 1. */
  lemma {:induction false} RatesAtMostOne(votes: seq<Vote>, x: Name, p: Pair)
    ensures MinorityOf(votes, x) <= ContestedOf(votes, x) <= CastOf(votes, x)
    ensures NoOf(votes, x) <= CastOf(votes, x)
    ensures VotedAlike(votes, p) <= VotedTogether(votes, p)
  {
    if votes != [] {
      RatesAtMostOne(votes[..|votes| - 1], x, p);
      OccurrencesJoin(votes[|votes| - 1].yes, votes[|votes| - 1].no, x);
    }
  }

  /** The agreement that is reported, as a fraction. */
  function Agreement(votes: seq<Vote>, p: Pair): real
    requires VotedTogether(votes, p) > 0
  {
    VotedAlike(votes, p) as real / VotedTogether(votes, p) as real
  }

  lemma AgreementInRange(votes: seq<Vote>, p: Pair)
    requires VotedTogether(votes, p) > 0
    ensures 0.0 <= Agreement(votes, p) <= 1.0
  {
    RatesAtMostOne(votes, 0, p);
    Ratio(VotedAlike(votes, p) as real, VotedTogether(votes, p) as real);
  }

  lemma Ratio(g: real, n: real)
    requires 0.0 <= g <= n && n > 0.0
    ensures 0.0 <= g / n <= 1.0
  {
  }

  // ------------------------------------------------------------------ totals over members

  /** Adding up a count over a set of members. */
  ghost function SumMembers(s: set<Name>, f: Name -> nat): nat {
    if s == {} then 0 else var x :| x in s; f(x) + SumMembers(s - {x}, f)
  }

  lemma {:induction false} SumMembersWithout(s: set<Name>, f: Name -> nat, x: Name)
    requires x in s
    ensures SumMembers(s, f) == f(x) + SumMembers(s - {x}, f)
  {
    var y :| y in s && SumMembers(s, f) == f(y) + SumMembers(s - {y}, f);
    if y != x {
      SumMembersWithout(s - {y}, f, x);
      SumMembersWithout(s - {x}, f, y);
      assert s - {y} - {x} == s - {x} - {y};
    }
  }

  lemma {:induction false} SumMembersAdd(s: set<Name>, f: Name -> nat, g: Name -> nat, h: Name -> nat)
    requires forall x :: x in s ==> f(x) == g(x) + h(x)
    ensures SumMembers(s, f) == SumMembers(s, g) + SumMembers(s, h)
  {
    if s != {} {
      var x :| x in s;
      SumMembersWithout(s, f, x);
      SumMembersWithout(s, g, x);
      SumMembersWithout(s, h, x);
      SumMembersAdd(s - {x}, f, g, h);
    }
  }

  lemma {:induction false} SumMembersZero(s: set<Name>, f: Name -> nat)
    requires forall x :: x in s ==> f(x) == 0
    ensures SumMembers(s, f) == 0
  {
    if s != {} {
      var x :| x in s;
      SumMembersWithout(s, f, x);
      SumMembersZero(s - {x}, f);
    }
  }

  /** A list's entries, counted member by member, are its length. */
  lemma {:induction false} OccurrencesTotal(s: set<Name>, names: seq<Name>)
    requires AsSet(names) <= s
    ensures SumMembers(s, x => Occurrences(names, x)) == |names|
  {
    if names == [] {
      SumMembersZero(s, x => Occurrences(names, x));
    } else {
      var front, last := names[..|names| - 1], names[|names| - 1];
      assert forall x :: x in front ==> x in names;
      assert last in names;
      OccurrencesTotal(s, front);
      SumMembersAdd(s, x => Occurrences(names, x), x => Occurrences(front, x), x => One(last == x));
      SumMembersWithout(s, x => One(last == x), last);
      SumMembersZero(s - {last}, x => One(last == x));
    }
  }

  /** The votes cast, the no votes, the votes in contested rolls and the minority votes of all members together. */
  function CastTotal(votes: seq<Vote>): nat {
    if votes == [] then 0
    else CastTotal(votes[..|votes| - 1]) + |votes[|votes| - 1].yes| + |votes[|votes| - 1].no|
  }

  function NoTotal(votes: seq<Vote>): nat {
    if votes == [] then 0 else NoTotal(votes[..|votes| - 1]) + |votes[|votes| - 1].no|
  }

  function ContestedTotal(votes: seq<Vote>): nat {
    if votes == [] then 0
    else
      var (y, n) := (|votes[|votes| - 1].yes|, |votes[|votes| - 1].no|);
      ContestedTotal(votes[..|votes| - 1]) + (if y > 0 && n > 0 then y + n else 0)
  }

  /** A contested vote has as many minority votes as its shorter side has entries, and none on a tie. */
  function MinorityTotal(votes: seq<Vote>): nat {
    if votes == [] then 0
    else
      var (y, n) := (|votes[|votes| - 1].yes|, |votes[|votes| - 1].no|);
      MinorityTotal(votes[..|votes| - 1]) + (if y == n then 0 else if y < n then y else n)
  }

  lemma {:induction false} CastTotals(votes: seq<Vote>, everyone: set<Name>)
    requires Everyone(votes) <= everyone
    ensures SumMembers(everyone, x => CastOf(votes, x)) == CastTotal(votes)
  {
    if votes == [] {
      SumMembersZero(everyone, x => CastOf(votes, x));
    } else {
      hide Occurrences, SumMembers;
      var front, v := votes[..|votes| - 1], votes[|votes| - 1];
      CastTotals(front, everyone);
      var counted := v.yes + v.no;
      OccurrencesTotal(everyone, counted);
      SumMembersAdd(everyone, x => CastOf(votes, x), x => CastOf(front, x), x => Occurrences(counted, x));
    }
  }

  lemma {:induction false} NoTotals(votes: seq<Vote>, everyone: set<Name>)
    requires Everyone(votes) <= everyone
    ensures SumMembers(everyone, x => NoOf(votes, x)) == NoTotal(votes)
  {
    if votes == [] {
      SumMembersZero(everyone, x => NoOf(votes, x));
    } else {
      hide Occurrences, SumMembers;
      var front, v := votes[..|votes| - 1], votes[|votes| - 1];
      NoTotals(front, everyone);
      var counted := v.no;
      OccurrencesTotal(everyone, counted);
      SumMembersAdd(everyone, x => NoOf(votes, x), x => NoOf(front, x), x => Occurrences(counted, x));
    }
  }

  lemma {:induction false} ContestedTotals(votes: seq<Vote>, everyone: set<Name>)
    requires Everyone(votes) <= everyone
    ensures SumMembers(everyone, x => ContestedOf(votes, x)) == ContestedTotal(votes)
  {
    if votes == [] {
      SumMembersZero(everyone, x => ContestedOf(votes, x));
    } else {
      hide Occurrences, SumMembers;
      var front, v := votes[..|votes| - 1], votes[|votes| - 1];
      ContestedTotals(front, everyone);
      var counted := if v.yes == [] || v.no == [] then [] else v.yes + v.no;
      NoOccurrences();
      OccurrencesTotal(everyone, counted);
      SumMembersAdd(everyone, x => ContestedOf(votes, x), x => ContestedOf(front, x), x => Occurrences(counted, x));
    }
  }

  lemma {:induction false} MinorityTotals(votes: seq<Vote>, everyone: set<Name>)
    requires Everyone(votes) <= everyone
    ensures SumMembers(everyone, x => MinorityOf(votes, x)) == MinorityTotal(votes)
  {
    if votes == [] {
      SumMembersZero(everyone, x => MinorityOf(votes, x));
    } else {
      hide Occurrences, SumMembers;
      var front, v := votes[..|votes| - 1], votes[|votes| - 1];
      MinorityTotals(front, everyone);
      var counted := if v.yes == [] || v.no == [] || |v.yes| == |v.no| then []
                     else if |v.no| < |v.yes| then v.no else v.yes;
      NoOccurrences();
      OccurrencesTotal(everyone, counted);
      SumMembersAdd(everyone, x => MinorityOf(votes, x), x => MinorityOf(front, x), x => Occurrences(counted, x));
    }
  }

  /** Every counter of the members' table, added up over all members. */
  lemma MemberTotals(votes: seq<Vote>, everyone: set<Name>)
    requires Everyone(votes) <= everyone
    ensures SumMembers(everyone, x => CastOf(votes, x)) == CastTotal(votes)
    ensures SumMembers(everyone, x => NoOf(votes, x)) == NoTotal(votes)
    ensures SumMembers(everyone, x => ContestedOf(votes, x)) == ContestedTotal(votes)
    ensures SumMembers(everyone, x => MinorityOf(votes, x)) == MinorityTotal(votes)
  {
    CastTotals(votes, everyone);
    NoTotals(votes, everyone);
    ContestedTotals(votes, everyone);
    MinorityTotals(votes, everyone);
  }

  lemma NoOccurrences()
    ensures forall x :: Occurrences([], x) == 0
  {
  }

  // ------------------------------------------------------------------ totals over pairs

  /** The number of two-element subsets. */
  function Choose2(n: nat): nat {
    n * (n - 1) / 2
  }

  /** The pairs a < b of members of s. */
  ghost function PairsOf(s: set<Name>): set<Pair> {
    set a, b | a in s && b in s && a < b :: Pair(a, b)
  }

  ghost function PairsWith(s: set<Name>, x: Name): set<Pair> {
    set y | y in s :: if y < x then Pair(y, x) else Pair(x, y)
  }

  lemma {:induction false} PairsWithCount(s: set<Name>, x: Name)
    requires x !in s
    ensures |PairsWith(s, x)| == |s|
  {
    if s != {} {
      var y :| y in s;
      PairsWithCount(s - {y}, x);
      var p := if y < x then Pair(y, x) else Pair(x, y);
      assert PairsWith(s, x) == PairsWith(s - {y}, x) + {p};
      assert p !in PairsWith(s - {y}, x);
    }
  }

  /** A set of n members has n (n - 1) / 2 pairs. */
  lemma {:induction false} PairsCount(s: set<Name>)
    ensures |PairsOf(s)| == Choose2(|s|)
  {
    hide Choose2;
    if s == {} {
      Choose2Zero();
      assert PairsOf(s) == {};
    } else {
      hide PairsOf, PairsWith;
      var x :| x in s;
      var rest := s - {x};
      PairsCount(rest);
      PairsWithCount(rest, x);
      PairsAdd(s, x);
      Choose2Step(|rest|);
    }
  }

  lemma PairsAdd(s: set<Name>, x: Name)
    requires x in s
    ensures |PairsOf(s)| == |PairsOf(s - {x})| + |PairsWith(s - {x}, x)|
  {
    var rest := s - {x};
    forall p | p in PairsOf(s) ensures p in PairsOf(rest) + PairsWith(rest, x) {
      if p.a == x {
        assert p.b in rest && p == Pair(x, p.b);
      } else if p.b == x {
        assert p.a in rest && p == Pair(p.a, x);
      }
    }
    assert PairsOf(s) == PairsOf(rest) + PairsWith(rest, x);
    assert PairsOf(rest) !! PairsWith(rest, x);
  }

  lemma Choose2Zero()
    ensures Choose2(0) == 0
  {
  }

  lemma Choose2Step(n: nat)
    ensures Choose2(n + 1) == Choose2(n) + n
  {
    assert (n + 1) * n == n * (n - 1) + 2 * n;
  }

  /** Adding up a count over a set of pairs. */
  ghost function SumOver(ps: set<Pair>, f: Pair -> nat): nat {
    if ps == {} then 0 else var p :| p in ps; f(p) + SumOver(ps - {p}, f)
  }

  lemma {:induction false} SumWithout(ps: set<Pair>, f: Pair -> nat, p: Pair)
    requires p in ps
    ensures SumOver(ps, f) == f(p) + SumOver(ps - {p}, f)
  {
    var q :| q in ps && SumOver(ps, f) == f(q) + SumOver(ps - {q}, f);
    if q != p {
      SumWithout(ps - {q}, f, p);
      SumWithout(ps - {p}, f, q);
      assert ps - {q} - {p} == ps - {p} - {q};
    }
  }

  /** f counts one more than g exactly on the pairs of `more`. */
  lemma {:induction false} SumIncrements(ps: set<Pair>, f: Pair -> nat, g: Pair -> nat, more: set<Pair>)
    requires more <= ps && forall p :: p in ps ==> f(p) == g(p) + One(p in more)
    ensures SumOver(ps, f) == SumOver(ps, g) + |more|
  {
    if ps == {} {
      assert more == {};
    } else {
      var p :| p in ps;
      SumWithout(ps, f, p);
      SumWithout(ps, g, p);
      SumIncrements(ps - {p}, f, g, more - {p});
    }
  }

  lemma {:induction false} SumZero(ps: set<Pair>, f: Pair -> nat)
    requires forall p :: p in ps ==> f(p) == 0
    ensures SumOver(ps, f) == 0
  {
    if ps != {} {
      var p :| p in ps;
      SumWithout(ps, f, p);
      SumZero(ps - {p}, f);
    }
  }

  /** Sum over contested votes of C(|Y u N|, 2). */
  function TogetherTotal(votes: seq<Vote>): nat {
    if votes == [] then 0
    else
      var v := votes[|votes| - 1];
      TogetherTotal(votes[..|votes| - 1]) + (if Contested(v) then Choose2(|Voters(v)|) else 0)
  }

  /** Sum over contested votes of C(|Y|, 2) + C(|N \\ Y|, 2). */
  function AlikeTotal(votes: seq<Vote>): nat {
    if votes == [] then 0
    else
      var v := votes[|votes| - 1];
      AlikeTotal(votes[..|votes| - 1])
        + (if Contested(v) then Choose2(|AsSet(v.yes)|) + Choose2(|AsSet(v.no) - AsSet(v.yes)|) else 0)
  }

  ghost function Everyone(votes: seq<Vote>): set<Name> {
    if votes == [] then {} else Everyone(votes[..|votes| - 1]) + Voters(votes[|votes| - 1])
  }

  lemma {:induction false} TogetherTotals(votes: seq<Vote>, everyone: set<Name>)
    requires Everyone(votes) <= everyone
    ensures SumOver(PairsOf(everyone), p => VotedTogether(votes, p)) == TogetherTotal(votes)
  {
    hide Choose2, PairsOf, Contested, Together, PairsIn;
    var ps := PairsOf(everyone);
    if votes == [] {
      SumZero(ps, p => VotedTogether(votes, p));
    } else {
      var front, v := votes[..|votes| - 1], votes[|votes| - 1];
      TogetherTotals(front, everyone);
      VotePairs(v, everyone);
      SumIncrements(ps, p => VotedTogether(votes, p), p => VotedTogether(front, p), PairsIn(v));
    }
  }

  lemma {:induction false} AlikeTotals(votes: seq<Vote>, everyone: set<Name>)
    requires Everyone(votes) <= everyone
    ensures SumOver(PairsOf(everyone), p => VotedAlike(votes, p)) == AlikeTotal(votes)
  {
    hide Choose2, PairsOf, Contested, Together, SameSide, PairsAlike;
    var ps := PairsOf(everyone);
    if votes == [] {
      SumZero(ps, p => VotedAlike(votes, p));
    } else {
      var front, v := votes[..|votes| - 1], votes[|votes| - 1];
      AlikeTotals(front, everyone);
      VotePairs(v, everyone);
      SumIncrements(ps, p => VotedAlike(votes, p), p => VotedAlike(front, p), PairsAlike(v));
    }
  }

  /** Double counting: over any minutes, the pair counters add up to the pairs present at each contested
      vote, and the agreement counters to the pairs on each side of it. */
  lemma PairTotals(votes: seq<Vote>, everyone: set<Name>)
    requires Everyone(votes) <= everyone
    ensures SumOver(PairsOf(everyone), p => VotedTogether(votes, p)) == TogetherTotal(votes)
    ensures SumOver(PairsOf(everyone), p => VotedAlike(votes, p)) == AlikeTotal(votes)
  {
    TogetherTotals(votes, everyone);
    AlikeTotals(votes, everyone);
  }

  /** The pairs one vote adds to the two counters. */
  ghost function PairsIn(v: Vote): set<Pair> {
    if Contested(v) then PairsOf(Voters(v)) else {}
  }

  ghost function PairsAlike(v: Vote): set<Pair> {
    if Contested(v) then PairsOf(AsSet(v.yes)) + PairsOf(AsSet(v.no) - AsSet(v.yes)) else {}
  }

  lemma VotePairs(v: Vote, everyone: set<Name>)
    requires Voters(v) <= everyone
    ensures PairsIn(v) <= PairsOf(everyone) && PairsAlike(v) <= PairsOf(everyone)
    ensures forall p :: p in PairsOf(everyone) ==>
      && (p in PairsIn(v) <==> Contested(v) && Together(v, p))
      && (p in PairsAlike(v) <==> Contested(v) && Together(v, p) && SameSide(v, p))
    ensures |PairsIn(v)| == if Contested(v) then Choose2(|Voters(v)|) else 0
    ensures |PairsAlike(v)|
         == if Contested(v) then Choose2(|AsSet(v.yes)|) + Choose2(|AsSet(v.no) - AsSet(v.yes)|) else 0
  {
    hide Choose2;
    PairsCount(Voters(v));
    SidesApart(AsSet(v.yes), AsSet(v.no) - AsSet(v.yes));
  }

  lemma SidesApart(yes: set<Name>, rest: set<Name>)
    requires yes !! rest
    ensures |PairsOf(yes) + PairsOf(rest)| == Choose2(|yes|) + Choose2(|rest|)
  {
    hide Choose2;
    PairsCount(yes);
    PairsCount(rest);
    assert PairsOf(yes) !! PairsOf(rest);
  }

  /** The counters of a voting record, added up. */
  lemma RecordTotals(votes: seq<Vote>, r: Record)
    requires forall p: Pair :: At(r.pairN, p) == if p.a < p.b then VotedTogether(votes, p) else 0
    requires forall p: Pair :: At(r.agree, p) == if p.a < p.b then VotedAlike(votes, p) else 0
    ensures SumOver(PairsOf(Everyone(votes)), p => At(r.pairN, p)) == TogetherTotal(votes)
    ensures SumOver(PairsOf(Everyone(votes)), p => At(r.agree, p)) == AlikeTotal(votes)
  {
    var ps := PairsOf(Everyone(votes));
    PairTotals(votes, Everyone(votes));
    SumIncrements(ps, p => At(r.pairN, p), p => VotedTogether(votes, p), {});
    SumIncrements(ps, p => At(r.agree, p), p => VotedAlike(votes, p), {});
  }
}
