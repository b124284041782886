/** audit/alignment.py: choosing the best chain of anchors for the agenda items, and reading item
    spans off it. Scores are real numbers; a candidate's score is given, positive, or absent. */
module Alignment {
  import opened Common

  /** A candidate: agenda item `item` is read at anchor `anchor`. */
  datatype Key = Key(item: nat, anchor: nat)

  datatype Cand = Cand(key: Key, score: real)

  predicate Precedes(a: Key, b: Key) {
    a.item < b.item && a.anchor < b.anchor
  }

  predicate LexLess(a: Key, b: Key) {
    a.item < b.item || (a.item == b.item && a.anchor < b.anchor)
  }

  /** The sorted candidate list: in (item, anchor) order, no pair twice, positive scores. */
  ghost predicate Flat(flat: seq<Cand>) {
    && (forall i, j :: 0 <= i < j < |flat| ==> LexLess(flat[i].key, flat[j].key))
    && (forall i :: 0 <= i < |flat| ==> flat[i].score > 0.0)
  }

  /** Collecting the rows of all items in order yields the sorted list. */
  method CollectCandidates(score: (nat, nat) -> Option<real>, items: nat, anchors: nat) returns (flat: seq<Cand>)
    requires forall i, a :: score(i, a).Some? ==> score(i, a).value > 0.0
    ensures Flat(flat)
    ensures forall c :: c in flat <==>
      c.key.item < items && c.key.anchor < anchors && score(c.key.item, c.key.anchor) == Some(c.score)
  {
    flat := [];
    for ii := 0 to items
      invariant Flat(flat)
      invariant forall c :: c in flat <==>
        c.key.item < ii && c.key.anchor < anchors && score(c.key.item, c.key.anchor) == Some(c.score)
    {
      for ai := 0 to anchors
        invariant Flat(flat)
        invariant forall c :: c in flat <==>
          (c.key.item < ii || (c.key.item == ii && c.key.anchor < ai)) && c.key.anchor < anchors
          && score(c.key.item, c.key.anchor) == Some(c.score)
      {
        var s := score(ii, ai);
        if s.Some? {
          assert forall i :: 0 <= i < |flat| ==> flat[i] in flat;
          flat := flat + [Cand(Key(ii, ai), s.value)];
        }
      }
    }
  }

  // ------------------------------------------------------------------ chains

  /** A chain of candidates, given by positions in the flat list: strictly increasing in item and in
      anchor. */
  ghost predicate Chain(flat: seq<Cand>, ch: seq<nat>) {
    && (forall i :: 0 <= i < |ch| ==> ch[i] < |flat|)
    && (forall i :: 0 < i < |ch| ==> Precedes(flat[ch[i - 1]].key, flat[ch[i]].key))
  }

  ghost function Total(flat: seq<Cand>, ch: seq<nat>): real
    requires forall i :: 0 <= i < |ch| ==> ch[i] < |flat|
  {
    if ch == [] then 0.0 else Total(flat, ch[..|ch| - 1]) + flat[ch[|ch| - 1]].score
  }

  /** An entry of `best`: the value of the best chain ending here and the position before it. */
  datatype Entry = Entry(value: real, prev: Option<nat>)

  /** Every back-pointer points to an earlier position. */
  ghost predicate BackPointers(best: seq<Entry>) {
    forall i :: 0 <= i < |best| && best[i].prev.Some? ==> best[i].prev.value < i
  }

  /** The chain that back-pointers spell out, ending at position k. */
  ghost function BackTrace(best: seq<Entry>, k: nat): (ch: seq<nat>)
    requires k < |best| && BackPointers(best)
    ensures ch != [] && ch[|ch| - 1] == k
  {
    (if best[k].prev.Some? then BackTrace(best, best[k].prev.value) else []) + [k]
  }

  /** Entry k carries the value of its back-traced chain... */
  ghost predicate Attained(flat: seq<Cand>, best: seq<Entry>, k: nat)
    requires k < |best| && BackPointers(best)
  {
    Chain(flat, BackTrace(best, k)) && Total(flat, BackTrace(best, k)) == best[k].value
  }

  /** ...and no chain ending among the entries beats the entry it ends at. */
  ghost predicate Bounds(flat: seq<Cand>, best: seq<Entry>) {
    forall ch :: Chain(flat, ch) && ch != [] && ch[|ch| - 1] < |best| ==> Total(flat, ch) <= best[ch[|ch| - 1]].value
  }

  ghost predicate Optimal(flat: seq<Cand>, best: seq<Entry>) {
    && |best| <= |flat|
    && BackPointers(best)
    && (forall k: nat :: k < |best| ==> Attained(flat, best, k))
    && Bounds(flat, best)
  }

  lemma {:induction false} BackTraceStable(best: seq<Entry>, e: Entry, k: nat)
    requires k < |best| && BackPointers(best) && BackPointers(best + [e])
    ensures BackTrace(best + [e], k) == BackTrace(best, k)
    decreases k
  {
    if best[k].prev.Some? {
      BackTraceStable(best, e, best[k].prev.value);
    }
  }

  lemma ChainSnoc(flat: seq<Cand>, ch: seq<nat>, k: nat)
    requires Chain(flat, ch) && k < |flat| && (ch != [] ==> Precedes(flat[ch[|ch| - 1]].key, flat[k].key))
    ensures Chain(flat, ch + [k]) && Total(flat, ch + [k]) == Total(flat, ch) + flat[k].score
  {
    assert (ch + [k])[..|ch|] == ch;
  }

  /** Every chain into position k of the flat list comes from a chain ending earlier in it. */
  lemma ChainFront(flat: seq<Cand>, ch: seq<nat>)
    requires Flat(flat) && Chain(flat, ch) && ch != []
    ensures Chain(flat, ch[..|ch| - 1])
    ensures Total(flat, ch) == Total(flat, ch[..|ch| - 1]) + flat[ch[|ch| - 1]].score
    ensures |ch| > 1 ==> ch[|ch| - 2] < ch[|ch| - 1] && Precedes(flat[ch[|ch| - 2]].key, flat[ch[|ch| - 1]].key)
  {
    if |ch| > 1 {
      assert Precedes(flat[ch[|ch| - 1 - 1]].key, flat[ch[|ch| - 1]].key);
      PlacesFollow(flat, ch[|ch| - 2], ch[|ch| - 1]);
    }
  }

  lemma PlacesFollow(flat: seq<Cand>, a: nat, b: nat)
    requires Flat(flat) && a < |flat| && b < |flat| && Precedes(flat[a].key, flat[b].key)
    ensures a < b
  {
  }

  /** The next entry: the first best predecessor among positions before k (strictly better wins), as
      the scan over `best` finds it. */
  ghost predicate BestPredecessor(flat: seq<Cand>, best: seq<Entry>, k: nat, value: real, prev: Option<nat>)
    requires k == |best| < |flat|
  {
    && (prev.None? ==> value == 0.0)
    && (prev.Some? ==> prev.value < k && Precedes(flat[prev.value].key, flat[k].key) && value == best[prev.value].value)
    && value >= 0.0 && (prev.Some? ==> value > 0.0)
    && (forall i :: 0 <= i < k && Precedes(flat[i].key, flat[k].key) ==> best[i].value <= value)
    && (prev.Some? ==> forall i :: 0 <= i < prev.value && Precedes(flat[i].key, flat[k].key) ==> best[i].value < value)
  }

  lemma OptimalStep(flat: seq<Cand>, best: seq<Entry>, value: real, prev: Option<nat>)
    requires Flat(flat) && Optimal(flat, best) && |best| < |flat|
    requires BestPredecessor(flat, best, |best|, value, prev)
    ensures Optimal(flat, best + [Entry(value + flat[|best|].score, prev)])
  {
    hide Attained, Bounds, BestPredecessor, Flat;
    AttainedStep(flat, best, value, prev);
    BoundsStep(flat, best, value, prev);
  }

  lemma AttainedStep(flat: seq<Cand>, best: seq<Entry>, value: real, prev: Option<nat>)
    requires Optimal(flat, best) && |best| < |flat| && BestPredecessor(flat, best, |best|, value, prev)
    ensures var more := best + [Entry(value + flat[|best|].score, prev)];
      BackPointers(more) && forall j: nat :: j < |more| ==> Attained(flat, more, j)
  {
    hide Attained, Bounds, Chain, Total;
    var e := Entry(value + flat[|best|].score, prev);
    var more := best + [e];
    assert BackPointers(more);
    forall j: nat | j < |more| ensures Attained(flat, more, j) {
      if j < |best| {
        AttainedStable(flat, best, e, j);
      } else {
        AttainedLast(flat, best, value, prev);
      }
    }
  }

  lemma AttainedStable(flat: seq<Cand>, best: seq<Entry>, e: Entry, j: nat)
    requires j < |best| && BackPointers(best) && BackPointers(best + [e]) && Attained(flat, best, j)
    ensures Attained(flat, best + [e], j)
  {
    hide BackTrace, Chain, Total;
    BackTraceStable(best, e, j);
  }

  lemma AttainedLast(flat: seq<Cand>, best: seq<Entry>, value: real, prev: Option<nat>)
    requires |best| < |flat| && BackPointers(best) && (forall k: nat :: k < |best| ==> Attained(flat, best, k))
    requires BestPredecessor(flat, best, |best|, value, prev)
    requires BackPointers(best + [Entry(value + flat[|best|].score, prev)])
    ensures Attained(flat, best + [Entry(value + flat[|best|].score, prev)], |best|)
  {
    hide Total, BackTrace;
    var k, e := |best|, Entry(value + flat[|best|].score, prev);
    BackTraceLast(best, e);
    if prev.Some? {
      BackTraceStable(best, e, prev.value);
      assert Attained(flat, best, prev.value);
      ChainSnoc(flat, BackTrace(best, prev.value), k);
    } else {
      TotalEmpty(flat);
      ChainSnoc(flat, [], k);
    }
  }

  lemma BackTraceLast(best: seq<Entry>, e: Entry)
    requires BackPointers(best + [e]) && (e.prev.Some? ==> e.prev.value < |best|)
    ensures BackTrace(best + [e], |best|)
         == (if e.prev.Some? then BackTrace(best + [e], e.prev.value) else []) + [|best|]
  {
    assert (best + [e])[|best|] == e;
  }

  lemma TotalEmpty(flat: seq<Cand>)
    ensures Total(flat, []) == 0.0
  {
  }

  lemma BoundsStep(flat: seq<Cand>, best: seq<Entry>, value: real, prev: Option<nat>)
    requires Flat(flat) && Bounds(flat, best) && |best| < |flat| && BestPredecessor(flat, best, |best|, value, prev)
    ensures Bounds(flat, best + [Entry(value + flat[|best|].score, prev)])
  {
    var k, more := |best|, best + [Entry(value + flat[|best|].score, prev)];
    forall ch | Chain(flat, ch) && ch != [] && ch[|ch| - 1] < |more|
      ensures Total(flat, ch) <= more[ch[|ch| - 1]].value
    {
      if ch[|ch| - 1] == k {
        ChainFront(flat, ch);
        var front := ch[..|ch| - 1];
        if front != [] {
          assert front[|front| - 1] == ch[|ch| - 2];
        }
      }
    }
  }

  /** `chosen` is a chain and no chain of candidates has a larger total. */
  ghost predicate BestChain(flat: seq<Cand>, chosen: seq<nat>) {
    && Chain(flat, chosen)
    && (forall ch :: Chain(flat, ch) ==> Total(flat, ch) <= Total(flat, chosen))
  }

  // ------------------------------------------------------------------ ties

  /** Read from the last member, `a` has the earlier candidate where the two chains first differ. */
  ghost predicate ReadsBefore(a: seq<nat>, b: seq<nat>) {
    exists k: nat :: BeforeAt(a, b, k)
  }

  /** The last k members agree, and the one before them is earlier in `a`. */
  ghost predicate BeforeAt(a: seq<nat>, b: seq<nat>, k: nat) {
    k < |a| && k < |b| && a[|a| - k..] == b[|b| - k..] && a[|a| - 1 - k] < b[|b| - 1 - k]
  }

  lemma ReadsBeforeSnoc(a: seq<nat>, b: seq<nat>, x: nat)
    requires ReadsBefore(a, b)
    ensures ReadsBefore(a + [x], b + [x])
  {
    var k: nat :| BeforeAt(a, b, k);
    var c, d := a + [x], b + [x];
    assert c[|c| - (k + 1)..] == a[|a| - k..] + [x] == b[|b| - k..] + [x] == d[|d| - (k + 1)..];
    assert BeforeAt(c, d, k + 1);
  }

  /** The back-trace from an entry comes first among the chains into it with its value. */
  ghost predicate FirstInto(flat: seq<Cand>, best: seq<Entry>, k: nat)
    requires k < |best| && BackPointers(best)
  {
    forall ch :: Chain(flat, ch) && ch != [] && ch[|ch| - 1] == k && Total(flat, ch) == best[k].value ==>
      ch == BackTrace(best, k) || ReadsBefore(BackTrace(best, k), ch)
  }

  ghost predicate AllFirst(flat: seq<Cand>, best: seq<Entry>)
    requires BackPointers(best)
  {
    forall k: nat :: k < |best| ==> FirstInto(flat, best, k) && best[k].value > 0.0
  }

  lemma FirstStep(flat: seq<Cand>, best: seq<Entry>, value: real, prev: Option<nat>)
    requires Flat(flat) && Optimal(flat, best) && |best| < |flat| && AllFirst(flat, best)
    requires BestPredecessor(flat, best, |best|, value, prev)
    ensures var more := best + [Entry(value + flat[|best|].score, prev)];
      BackPointers(more) && AllFirst(flat, more)
  {
    hide Attained, BestPredecessor, FirstInto, BackTrace, Flat, Chain, Total;
    var e := Entry(value + flat[|best|].score, prev);
    var more := best + [e];
    PointersStep(flat, best, value, prev);
    forall k: nat | k < |more| ensures FirstInto(flat, more, k) && more[k].value > 0.0 {
      if k < |best| {
        BackTraceStable(best, e, k);
        FirstStable(flat, best, e, k);
      } else {
        FirstLast(flat, best, value, prev);
      }
    }
  }

  lemma PointersStep(flat: seq<Cand>, best: seq<Entry>, value: real, prev: Option<nat>)
    requires Flat(flat) && BackPointers(best) && |best| < |flat| && BestPredecessor(flat, best, |best|, value, prev)
    ensures BackPointers(best + [Entry(value + flat[|best|].score, prev)])
    ensures value + flat[|best|].score > 0.0
  {
  }

  lemma FirstStable(flat: seq<Cand>, best: seq<Entry>, e: Entry, k: nat)
    requires k < |best| && BackPointers(best) && BackPointers(best + [e]) && FirstInto(flat, best, k)
    ensures FirstInto(flat, best + [e], k)
  {
    hide BackTrace, Chain, Total, ReadsBefore;
    BackTraceStable(best, e, k);
  }

  lemma FirstLast(flat: seq<Cand>, best: seq<Entry>, value: real, prev: Option<nat>)
    requires Flat(flat) && Optimal(flat, best) && |best| < |flat| && AllFirst(flat, best)
    requires BestPredecessor(flat, best, |best|, value, prev)
    requires BackPointers(best + [Entry(value + flat[|best|].score, prev)])
    ensures FirstInto(flat, best + [Entry(value + flat[|best|].score, prev)], |best|)
  {
    hide Attained, Bounds, BestPredecessor, FirstInto, BackTrace, Flat, Total, ReadsBefore;
    var k, e := |best|, Entry(value + flat[|best|].score, prev);
    var more := best + [e];
    if prev.Some? {
      PrevInRange(flat, best, value, prev);
      BackTraceStable(best, e, prev.value);
    }
    BackTraceLast(best, e);
    forall ch | Chain(flat, ch) && ch != [] && ch[|ch| - 1] == k && Total(flat, ch) == more[k].value
      ensures ch == BackTrace(more, k) || ReadsBefore(BackTrace(more, k), ch)
    {
      PointersOf(flat, best);
      BestFront(flat, best, value, prev, ch);
      if |ch| > 1 {
        FirstAmong(flat, best, prev.value, ch[..|ch| - 1], k);
      }
    }
    FirstIntoMeans(flat, more, k);
  }

  lemma FirstIntoMeans(flat: seq<Cand>, best: seq<Entry>, k: nat)
    requires k < |best| && BackPointers(best)
    ensures FirstInto(flat, best, k) <==>
      forall ch :: Chain(flat, ch) && ch != [] && ch[|ch| - 1] == k && Total(flat, ch) == best[k].value ==>
        ch == BackTrace(best, k) || ReadsBefore(BackTrace(best, k), ch)
  {
  }

  lemma PrevInRange(flat: seq<Cand>, best: seq<Entry>, value: real, prev: Option<nat>)
    requires |best| < |flat| && BestPredecessor(flat, best, |best|, value, prev) && prev.Some?
    ensures prev.value < |best|
  {
  }

  /** A chain into position k with the entry's value goes through a best predecessor, no earlier than the
      first. */
  lemma BestFront(flat: seq<Cand>, best: seq<Entry>, value: real, prev: Option<nat>, ch: seq<nat>)
    requires Flat(flat) && Bounds(flat, best) && |best| < |flat| && forall j :: 0 <= j < |best| ==> best[j].value > 0.0
    requires BestPredecessor(flat, best, |best|, value, prev)
    requires Chain(flat, ch) && ch != [] && ch[|ch| - 1] == |best| && Total(flat, ch) == value + flat[|best|].score
    ensures var front := ch[..|ch| - 1];
      && Chain(flat, front) && ch == front + [|best|]
      && (front == [] ==> prev.None?)
      && (front != [] ==> prev.Some? && prev.value <= front[|front| - 1] < |best|
                          && Total(flat, front) == best[front[|front| - 1]].value)
  {
    var front := ch[..|ch| - 1];
    ChainFront(flat, ch);
    TotalEmpty(flat);
    assert front != [] ==> front[|front| - 1] == ch[|ch| - 2];
  }

  lemma FirstAmong(flat: seq<Cand>, best: seq<Entry>, prev: nat, front: seq<nat>, k: nat)
    requires BackPointers(best) && AllFirst(flat, best) && Chain(flat, front) && front != []
    requires prev <= front[|front| - 1] < |best| && Total(flat, front) == best[front[|front| - 1]].value
    ensures front + [k] == BackTrace(best, prev) + [k] || ReadsBefore(BackTrace(best, prev) + [k], front + [k])
  {
    hide BackTrace, Total, Chain, ReadsBefore, AllFirst;
    if front[|front| - 1] == prev {
      FirstOf(flat, best, front);
    }
    FirstWithLast(BackTrace(best, prev), front, k);
  }

  lemma FirstWithLast(a: seq<nat>, b: seq<nat>, x: nat)
    requires a != [] && b != [] && (a[|a| - 1] < b[|b| - 1] || b == a || ReadsBefore(a, b))
    ensures b + [x] == a + [x] || ReadsBefore(a + [x], b + [x])
  {
    hide ReadsBefore;
    if a[|a| - 1] < b[|b| - 1] {
      LastsDiffer(a, b, x);
    } else if b != a {
      ReadsBeforeSnoc(a, b, x);
    }
  }

  lemma PointersOf(flat: seq<Cand>, best: seq<Entry>)
    requires Optimal(flat, best) && AllFirst(flat, best)
    ensures BackPointers(best) && Bounds(flat, best) && forall j :: 0 <= j < |best| ==> best[j].value > 0.0
  {
    hide Attained, Bounds, FirstInto;
  }

  lemma FirstOf(flat: seq<Cand>, best: seq<Entry>, ch: seq<nat>)
    requires BackPointers(best) && AllFirst(flat, best)
    requires Chain(flat, ch) && ch != [] && ch[|ch| - 1] < |best| && Total(flat, ch) == best[ch[|ch| - 1]].value
    ensures ch == BackTrace(best, ch[|ch| - 1]) || ReadsBefore(BackTrace(best, ch[|ch| - 1]), ch)
  {
    hide BackTrace, Total, ReadsBefore;
    assert FirstInto(flat, best, ch[|ch| - 1]);
  }

  lemma LastsDiffer(a: seq<nat>, b: seq<nat>, x: nat)
    requires a != [] && b != [] && a[|a| - 1] < b[|b| - 1]
    ensures ReadsBefore(a + [x], b + [x])
  {
    var c, d := a + [x], b + [x];
    assert c[|c| - 1..] == [x] == d[|d| - 1..];
    assert BeforeAt(c, d, 1);
  }

  // ------------------------------------------------------------------ the scans

  /** The scan over the entries filled so far, in insertion order. */
  method ScanPredecessors(flat: seq<Cand>, best: seq<Entry>) returns (prevBest: real, prevKey: Option<nat>)
    requires |best| < |flat|
    ensures BestPredecessor(flat, best, |best|, prevBest, prevKey)
  {
    var k := |best|;
    prevBest, prevKey := 0.0, None;
    for i := 0 to k
      invariant prevKey.None? ==> prevBest == 0.0
      invariant prevKey.Some? ==> prevKey.value < i && Precedes(flat[prevKey.value].key, flat[k].key)
      invariant prevKey.Some? ==> prevBest == best[prevKey.value].value
      invariant prevBest >= 0.0
      invariant forall j :: 0 <= j < i && Precedes(flat[j].key, flat[k].key) ==> best[j].value <= prevBest
      invariant prevKey.Some? ==> prevBest > 0.0
      invariant prevKey.Some? ==>
        forall j :: 0 <= j < prevKey.value && Precedes(flat[j].key, flat[k].key) ==> best[j].value < prevBest
    {
      if Precedes(flat[i].key, flat[k].key) && best[i].value > prevBest {
        prevBest, prevKey := best[i].value, Some(i);
      }
    }
  }

  /** max(best, key = (value, -item)), the first among equals: items never decrease along the list. */
  ghost predicate LastKey(flat: seq<Cand>, best: seq<Entry>, key: nat)
    requires |best| <= |flat|
  {
    && key < |best|
    && (forall j :: 0 <= j < |best| ==> best[j].value <= best[key].value)
    && (forall j :: 0 <= j < |best| && best[j].value == best[key].value ==> key <= j)
  }

  method PickLast(flat: seq<Cand>, best: seq<Entry>) returns (key: nat)
    requires Flat(flat) && 0 < |best| <= |flat|
    ensures LastKey(flat, best, key)
  {
    key := 0;
    for i := 1 to |best|
      invariant key < i
      invariant forall j :: 0 <= j < i ==> best[j].value <= best[key].value
      invariant forall j :: 0 <= j < i && best[j].value == best[key].value ==> key <= j
    {
      if best[i].value > best[key].value
        || (best[i].value == best[key].value && flat[i].key.item < flat[key].key.item) {
        key := i;
      }
    }
  }

  /** No chain's total beats the picked entry, and an equal chain ends at no earlier item. */
  lemma PickedIsBest(flat: seq<Cand>, best: seq<Entry>, key: nat)
    requires Flat(flat) && Optimal(flat, best) && |best| == |flat| && LastKey(flat, best, key)
    ensures BestChain(flat, BackTrace(best, key)) && Total(flat, BackTrace(best, key)) == best[key].value > 0.0
    ensures forall ch :: Chain(flat, ch) && ch != [] && Total(flat, ch) == best[key].value ==> key <= ch[|ch| - 1]
  {
    assert Attained(flat, best, key);
    PickedIsPositive(flat, best, key);
    forall ch | Chain(flat, ch) ensures Total(flat, ch) <= best[key].value {
      if ch != [] {
        assert ch[|ch| - 1] < |flat|;
      }
    }
  }

  lemma PickedIsPositive(flat: seq<Cand>, best: seq<Entry>, key: nat)
    requires Flat(flat) && Bounds(flat, best) && |best| == |flat| && LastKey(flat, best, key)
    ensures best[key].value > 0.0
  {
    var one: seq<nat> := [0];
    assert one[..0] == [];
    assert Total(flat, one) == Total(flat, []) + flat[0].score;
    assert Chain(flat, one);
  }

  /** Every chain of the best total other than the back-trace has a later candidate where, read from the end,
      they first differ. */
  lemma PickedIsFirst(flat: seq<Cand>, best: seq<Entry>, key: nat)
    requires Flat(flat) && Optimal(flat, best) && AllFirst(flat, best) && |best| == |flat| && LastKey(flat, best, key)
    ensures forall ch :: Chain(flat, ch) && ch != [] && Total(flat, ch) == best[key].value ==>
      ch == BackTrace(best, key) || ReadsBefore(BackTrace(best, key), ch)
  {
    hide BackTrace, Total, ReadsBefore, Attained;
    PickedIsBest(flat, best, key);
    forall ch | Chain(flat, ch) && ch != [] && Total(flat, ch) == best[key].value
      ensures ch == BackTrace(best, key) || ReadsBefore(BackTrace(best, key), ch)
    {
      var b := BackTrace(best, key);
      if ch[|ch| - 1] == key {
        assert FirstInto(flat, best, key);
      } else {
        EarlierLast(b, ch);
      }
    }
  }

  lemma EarlierLast(a: seq<nat>, b: seq<nat>)
    requires a != [] && b != [] && a[|a| - 1] < b[|b| - 1]
    ensures ReadsBefore(a, b)
  {
    assert BeforeAt(a, b, 0);
  }

  /** The dynamic program and back-trace of align. Ties are decided: of the chains of the best total it returns
      the one that, read from the end, has the earlier candidate where it first differs from another. */
  method ChooseChain(flat: seq<Cand>) returns (chosen: seq<nat>)
    requires Flat(flat)
    ensures Chain(flat, chosen) && BestChain(flat, chosen)
    ensures flat != [] ==> chosen != [] && Total(flat, chosen) > 0.0
    ensures forall ch :: Chain(flat, ch) && ch != [] && Total(flat, ch) == Total(flat, chosen) ==>
      ch == chosen || ReadsBefore(chosen, ch)
  {
    hide BestPredecessor, AllFirst, BackTrace, ReadsBefore;
    var best: seq<Entry> := [];
    NoneFirst(flat);
    while |best| < |flat|
      invariant Optimal(flat, best) && AllFirst(flat, best)
      decreases |flat| - |best|
    {
      var prevBest, prevKey := ScanPredecessors(flat, best);
      OptimalStep(flat, best, prevBest, prevKey);
      FirstStep(flat, best, prevBest, prevKey);
      best := best + [Entry(prevBest + flat[|best|].score, prevKey)];
    }
    if best == [] {
      assert forall ch :: Chain(flat, ch) ==> ch == [];
      return [];
    }
    var key := PickLast(flat, best);
    PickedIsBest(flat, best, key);
    PickedIsFirst(flat, best, key);
    chosen := TraceBack(best, key);
  }

  lemma NoneFirst(flat: seq<Cand>)
    ensures Optimal(flat, []) && AllFirst(flat, [])
  {
  }

  /** The loop that follows the back-pointers and reverses what it collected. */
  method TraceBack(best: seq<Entry>, k: nat) returns (chosen: seq<nat>)
    requires k < |best| && BackPointers(best)
    ensures chosen == BackTrace(best, k)
  {
    hide BackTrace, Reverse;
    var collected: seq<nat> := [];
    var key: Option<nat> := Some(k);
    ReverseEmpty();
    assert BackTrace(best, k) + [] == BackTrace(best, k);
    while key.Some?
      invariant key.Some? ==> key.value < |best|
      invariant BackTrace(best, k) == Rest(best, key) + Reverse(collected)
      decreases if key.Some? then key.value + 1 else 0
    {
      TraceTurn(best, key.value, Reverse(collected));
      ReverseSnoc(collected, key.value);
      collected := collected + [key.value];
      key := best[key.value].prev;
    }
    chosen := Reverse(collected);
    assert [] + chosen == chosen;
  }

  /** What is still to be traced back from `key`. */
  ghost function Rest(best: seq<Entry>, key: Option<nat>): seq<nat>
    requires BackPointers(best) && (key.Some? ==> key.value < |best|)
  {
    if key.Some? then BackTrace(best, key.value) else []
  }

  lemma TraceTurn(best: seq<Entry>, k: nat, tail: seq<nat>)
    requires BackPointers(best) && k < |best|
    ensures BackTrace(best, k) + tail == Rest(best, best[k].prev) + ([k] + tail)
  {
    var front := Rest(best, best[k].prev);
    assert BackTrace(best, k) == front + [k];
    assert (front + [k]) + tail == front + ([k] + tail);
  }

  function Reverse(s: seq<nat>): seq<nat> {
    if s == [] then [] else [s[|s| - 1]] + Reverse(s[..|s| - 1])
  }

  lemma ReverseEmpty()
    ensures Reverse([]) == []
  {
  }

  lemma ReverseSnoc(s: seq<nat>, x: nat)
    ensures Reverse(s + [x]) == [x] + Reverse(s)
  {
    assert (s + [x])[..|s|] == s;
  }

  // ------------------------------------------------------------------ item spans

  /** An aligned item: where it starts, and where the next aligned item starts. */
  datatype Aligned = Aligned(item: nat, start: nat, end: Option<nat>)

  ghost predicate InTimeOrder(times: seq<nat>) {
    forall i, j :: 0 <= i <= j < |times| ==> times[i] <= times[j]
  }

  /** anchors[a] is the segment anchor a was found in; the anchors are sorted by segment. */
  ghost predicate AnchorsSorted(anchors: seq<nat>, segments: nat) {
    && (forall a :: 0 <= a < |anchors| ==> anchors[a] < segments)
    && (forall a, b :: 0 <= a <= b < |anchors| ==> anchors[a] <= anchors[b])
  }

  /** What align returns: consecutive items end where the next begins, in time order. */
  ghost predicate Spans(out: seq<Aligned>) {
    && (forall i :: 0 <= i < |out| - 1 ==> out[i].end == Some(out[i + 1].start))
    && (out != [] ==> out[|out| - 1].end.None?)
    && (forall i, j :: 0 <= i <= j < |out| ==> out[i].start <= out[j].start)
    && (forall i, j :: 0 <= i < j < |out| ==> out[i].item < out[j].item)
  }

  /** The i-th chosen candidate as an aligned item. */
  function AlignedAt(flat: seq<Cand>, anchors: seq<nat>, times: seq<nat>, chosen: seq<nat>, i: nat): Aligned
    requires i < |chosen| && forall j :: 0 <= j < |chosen| ==>
      chosen[j] < |flat| && flat[chosen[j]].key.anchor < |anchors| && anchors[flat[chosen[j]].key.anchor] < |times|
  {
    var c := flat[chosen[i]].key;
    Aligned(c.item, times[anchors[c.anchor]],
      if i + 1 < |chosen| then Some(times[anchors[flat[chosen[i + 1]].key.anchor]]) else None)
  }

  lemma {:induction false} ChainIncreasing(flat: seq<Cand>, ch: seq<nat>, i: nat, j: nat)
    requires Chain(flat, ch) && i < j < |ch|
    ensures flat[ch[i]].key.item < flat[ch[j]].key.item && flat[ch[i]].key.anchor < flat[ch[j]].key.anchor
    decreases j - i
  {
    assert Precedes(flat[ch[j - 1]].key, flat[ch[j]].key);
    if i < j - 1 {
      ChainIncreasing(flat, ch, i, j - 1);
    }
  }

  /** The chains are exactly the selections that increase strictly in both indices. */
  lemma ChainIff(flat: seq<Cand>, ch: seq<nat>)
    ensures Chain(flat, ch) <==>
      && (forall i :: 0 <= i < |ch| ==> ch[i] < |flat|)
      && (forall i, j :: 0 <= i < j < |ch| ==> flat[ch[i]].key.item < flat[ch[j]].key.item)
      && (forall i, j :: 0 <= i < j < |ch| ==> flat[ch[i]].key.anchor < flat[ch[j]].key.anchor)
  {
    forall i, j | Chain(flat, ch) && 0 <= i < j < |ch|
      ensures flat[ch[i]].key.item < flat[ch[j]].key.item && flat[ch[i]].key.anchor < flat[ch[j]].key.anchor
    {
      ChainIncreasing(flat, ch, i, j);
    }
  }

  /** align, from the scored candidates on. */
  method Align(flat: seq<Cand>, anchors: seq<nat>, times: seq<nat>) returns (chosen: seq<nat>, out: seq<Aligned>)
    requires Flat(flat) && AnchorsSorted(anchors, |times|) && InTimeOrder(times)
    requires forall i :: 0 <= i < |flat| ==> flat[i].key.anchor < |anchors|
    ensures BestChain(flat, chosen)
    ensures forall ch :: Chain(flat, ch) && ch != [] && Total(flat, ch) == Total(flat, chosen) ==>
      ch == chosen || ReadsBefore(chosen, ch)
    ensures |out| == |chosen| && Spans(out)
    ensures forall i :: 0 <= i < |out| ==>
      out[i].item == flat[chosen[i]].key.item && out[i].start == times[anchors[flat[chosen[i]].key.anchor]]
  {
    hide BestChain, Total, Flat, Spans, AnchorsSorted, InTimeOrder, ReadsBefore;
    chosen := ChooseChain(flat);
    ChainPlaces(flat, anchors, |times|, chosen);
    out := [];
    for idx := 0 to |chosen|
      invariant |out| == idx
      invariant forall i :: 0 <= i < idx ==> out[i] == AlignedAt(flat, anchors, times, chosen, i)
    {
      var c := flat[chosen[idx]].key;
      var next := if idx + 1 < |chosen| then Some(times[anchors[flat[chosen[idx + 1]].key.anchor]]) else None;
      out := out + [Aligned(c.item, times[anchors[c.anchor]], next)];
    }
    SpansOf(flat, anchors, times, chosen, out);
  }

  lemma ChainPlaces(flat: seq<Cand>, anchors: seq<nat>, segments: nat, chosen: seq<nat>)
    requires Chain(flat, chosen) && AnchorsSorted(anchors, segments)
    requires forall i :: 0 <= i < |flat| ==> flat[i].key.anchor < |anchors|
    ensures forall j :: 0 <= j < |chosen| ==>
      chosen[j] < |flat| && flat[chosen[j]].key.anchor < |anchors| && anchors[flat[chosen[j]].key.anchor] < segments
  {
  }

  /** Anchors later in the list are in later segments, so no earlier in time. */
  lemma AnchorTimes(anchors: seq<nat>, times: seq<nat>, a: nat, b: nat)
    requires AnchorsSorted(anchors, |times|) && InTimeOrder(times) && a <= b < |anchors|
    ensures anchors[a] < |times| && anchors[b] < |times| && times[anchors[a]] <= times[anchors[b]]
  {
  }

  lemma SpansOf(flat: seq<Cand>, anchors: seq<nat>, times: seq<nat>, chosen: seq<nat>, out: seq<Aligned>)
    requires Chain(flat, chosen) && AnchorsSorted(anchors, |times|) && InTimeOrder(times)
    requires forall i :: 0 <= i < |flat| ==> flat[i].key.anchor < |anchors|
    requires |out| == |chosen| && forall i :: 0 <= i < |out| ==> out[i] == AlignedAt(flat, anchors, times, chosen, i)
    ensures Spans(out)
  {
    hide AnchorsSorted, InTimeOrder;
    ChainPlaces(flat, anchors, |times|, chosen);
    forall i, j | 0 <= i < j < |out| ensures out[i].item < out[j].item && out[i].start <= out[j].start {
      ChainIncreasing(flat, chosen, i, j);
      AnchorTimes(anchors, times, flat[chosen[i]].key.anchor, flat[chosen[j]].key.anchor);
    }
  }

  /** item_at: the last aligned item that has started at time t. */
  method ItemAt(aligned: seq<Aligned>, t: nat) returns (cur: Option<nat>)
    requires Spans(aligned)
    ensures cur.None? ==> forall i :: 0 <= i < |aligned| ==> aligned[i].start > t
    ensures cur.Some? ==> cur.value < |aligned| && Covers(aligned[cur.value], t)
    ensures forall i :: 0 <= i < |aligned| && Covers(aligned[i], t) ==> cur == Some(i)
  {
    cur := None;
    for i := 0 to |aligned|
      invariant cur.None? ==> i == 0
      invariant cur.Some? ==> cur.value == i - 1 && i <= |aligned| && aligned[i - 1].start <= t
    {
      if aligned[i].start <= t {
        cur := Some(i);
      } else {
        CoversOnce(aligned, t);
        return;
      }
    }
    CoversOnce(aligned, t);
  }

  predicate Covers(a: Aligned, t: nat) {
    a.start <= t && (a.end.Some? ==> t < a.end.value)
  }

  lemma CoversOnce(aligned: seq<Aligned>, t: nat)
    requires Spans(aligned)
    ensures forall i, j :: 0 <= i < j < |aligned| ==> !(Covers(aligned[i], t) && Covers(aligned[j], t))
  {
    forall i, j | 0 <= i < j < |aligned| ensures !(Covers(aligned[i], t) && Covers(aligned[j], t)) {
      assert aligned[i].end == Some(aligned[i + 1].start) && aligned[i + 1].start <= aligned[j].start;
    }
  }

  /** The first segment at or after time t: next(i for i, s in enumerate(starts) if s >= t, default n). */
  function FirstAtOrAfter(times: seq<nat>, t: nat): (k: nat)
    ensures k <= |times|
    ensures forall i :: 0 <= i < k ==> times[i] < t
    ensures k < |times| ==> times[k] >= t
  {
    if times == [] then 0
    else
      var k := FirstAtOrAfter(times[..|times| - 1], t);
      assert forall i :: 0 <= i < |times| - 1 ==> times[..|times| - 1][i] == times[i];
      if k < |times| - 1 then k
      else if times[|times| - 1] >= t then |times| - 1 else |times|
  }

  /** Item bounds in segment indices: the ranges tile the segments from the first anchor's time to the
      end, and the range holding segment k is that of the one item covering k's time, the item
      item_at returns. */
  method ItemBounds(aligned: seq<Aligned>, times: seq<nat>) returns (bounds: seq<(nat, nat)>)
    requires Spans(aligned) && InTimeOrder(times)
    ensures |bounds| == |aligned|
    ensures forall j :: 0 <= j < |bounds| ==> bounds[j].0 <= bounds[j].1 <= |times|
    ensures forall j :: 0 < j < |bounds| ==> bounds[j - 1].1 == bounds[j].0
    ensures bounds != [] ==> bounds[0].0 == FirstAtOrAfter(times, aligned[0].start) && bounds[|bounds| - 1].1 == |times|
    ensures forall j, k :: 0 <= j < |bounds| && 0 <= k < |times| ==>
      (bounds[j].0 <= k < bounds[j].1 <==> Covers(aligned[j], times[k]))
  {
    hide FirstAtOrAfter, Spans, InTimeOrder, Covers;
    bounds := [];
    for j := 0 to |aligned|
      invariant |bounds| == j
      invariant forall i :: 0 <= i < j ==> bounds[i] == RangeOf(aligned[i], times)
    {
      var lo := FirstAtOrAfter(times, aligned[j].start);
      var hi := if aligned[j].end.Some? then FirstAtOrAfter(times, aligned[j].end.value) else |times|;
      bounds := bounds + [(lo, hi)];
    }
    hide RangeOf;
    RangesTile(aligned, times);
    RangesEnds(aligned, times);
    RangesCover(aligned, times, bounds);
  }

  lemma RangesCover(aligned: seq<Aligned>, times: seq<nat>, bounds: seq<(nat, nat)>)
    requires InTimeOrder(times)
    requires |bounds| == |aligned| && forall i :: 0 <= i < |bounds| ==> bounds[i] == RangeOf(aligned[i], times)
    ensures forall j, k :: 0 <= j < |bounds| && 0 <= k < |times| ==>
      (bounds[j].0 <= k < bounds[j].1 <==> Covers(aligned[j], times[k]))
  {
    hide RangeOf, InTimeOrder, Covers;
    forall j, k | 0 <= j < |bounds| && 0 <= k < |times|
      ensures bounds[j].0 <= k < bounds[j].1 <==> Covers(aligned[j], times[k])
    {
      RangeCovers(aligned[j], times, k);
    }
  }

  lemma RangesEnds(aligned: seq<Aligned>, times: seq<nat>)
    requires Spans(aligned)
    ensures aligned != [] ==> RangeOf(aligned[0], times).0 == FirstAtOrAfter(times, aligned[0].start)
    ensures aligned != [] ==> RangeOf(aligned[|aligned| - 1], times).1 == |times|
  {
  }

  lemma RangesTile(aligned: seq<Aligned>, times: seq<nat>)
    requires Spans(aligned)
    ensures forall j :: 0 <= j < |aligned| ==> RangeOf(aligned[j], times).0 <= RangeOf(aligned[j], times).1 <= |times|
    ensures forall j :: 0 < j < |aligned| ==> RangeOf(aligned[j - 1], times).1 == RangeOf(aligned[j], times).0
  {
    forall j | 0 <= j < |aligned| ensures RangeOf(aligned[j], times).0 <= RangeOf(aligned[j], times).1 <= |times| {
      if aligned[j].end.Some? {
        assert aligned[j].start <= aligned[j + 1].start;
        FirstMonotone(times, aligned[j].start, aligned[j].end.value);
      }
    }
    forall j | 0 < j < |aligned| ensures RangeOf(aligned[j - 1], times).1 == RangeOf(aligned[j], times).0 {
      assert aligned[j - 1].end == Some(aligned[j - 1 + 1].start);
    }
  }

  function RangeOf(a: Aligned, times: seq<nat>): (nat, nat) {
    (FirstAtOrAfter(times, a.start), if a.end.Some? then FirstAtOrAfter(times, a.end.value) else |times|)
  }

  lemma RangeCovers(a: Aligned, times: seq<nat>, k: nat)
    requires InTimeOrder(times) && k < |times|
    ensures RangeOf(a, times).0 <= k < RangeOf(a, times).1 <==> Covers(a, times[k])
  {
    AtOrAfter(times, a.start, k);
    if a.end.Some? {
      AtOrAfter(times, a.end.value, k);
    }
  }

  lemma AtOrAfter(times: seq<nat>, t: nat, k: nat)
    requires InTimeOrder(times) && k < |times|
    ensures FirstAtOrAfter(times, t) <= k <==> t <= times[k]
  {
  }

  lemma FirstMonotone(times: seq<nat>, a: nat, b: nat)
    requires a <= b
    ensures FirstAtOrAfter(times, a) <= FirstAtOrAfter(times, b)
  {
  }
}
