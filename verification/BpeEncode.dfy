/** Byte-pair encoding with the recovered merges. The encoder that will load the converted model applies
    merges in list order, lowest index first; the rank table's own encoder merges any pair whose
    concatenation is a token, lowest rank first. On the bytes of a token the two agree step by step. */
module BpeEncode {
  import opened Common
  import opened MergeRecovery

  // ------------------------------------------------------------------ the encoder

  function IndexOf(merges: seq<Merge>, m: Merge): (k: nat)
    ensures k <= |merges| && (k < |merges| ==> merges[k] == m) && m !in merges[..k]
  {
    if merges == [] || merges[0] == m then 0 else 1 + IndexOf(merges[1..], m)
  }

  function PairIndex(merges: seq<Merge>, word: seq<Token>, i: nat): nat
    requires i + 1 < |word|
  {
    IndexOf(merges, Merge(word[i], word[i + 1]))
  }

  /** The first of the adjacent pairs whose merge comes earliest in the list, among the first n. */
  function EarliestPair(merges: seq<Merge>, word: seq<Token>, n: nat): (i: nat)
    requires 1 <= n < |word|
    ensures i < n
    ensures forall j :: 0 <= j < n ==> PairIndex(merges, word, i) <= PairIndex(merges, word, j)
    ensures forall j :: 0 <= j < i ==> PairIndex(merges, word, i) < PairIndex(merges, word, j)
  {
    if n == 1 then 0
    else
      var i := EarliestPair(merges, word, n - 1);
      if PairIndex(merges, word, n - 1) < PairIndex(merges, word, i) then n - 1 else i
  }

  function Encode(merges: seq<Merge>, word: seq<Token>): seq<Token>
    decreases |word|
  {
    if |word| < 2 then word
    else
      var i := EarliestPair(merges, word, |word| - 1);
      if PairIndex(merges, word, i) == |merges| then word else Encode(merges, MergeAt(word, i))
  }

  // ------------------------------------------------------------------ greedy merging is local

  /** The word after its lowest-ranked pair is merged. */
  function Next(ranks: map<Token, int>, word: seq<Token>): (r: seq<Token>)
    requires |word| >= 2
    ensures |r| == |word| - 1
  {
    MergeAt(word, BestPair(ranks, word, |word| - 1))
  }

  /** Merging the lowest-ranked pair until at most n pieces are left. */
  function Greedy(ranks: map<Token, int>, word: seq<Token>, n: nat): seq<Token>
    decreases |word|
  {
    if |word| <= n || |word| < 2 then word
    else Greedy(ranks, Next(ranks, word), n)
  }

  lemma {:induction false} ReduceIsGreedy(ranks: map<Token, int>, word: seq<Token>, rank: int)
    requires |word| >= 2 && |Reduce(ranks, word, rank)| == 2
    ensures Reduce(ranks, word, rank) == Greedy(ranks, word, 2)
    decreases |word|
  {
    if |word| > 2 {
      ReduceIsGreedy(ranks, Next(ranks, word), rank);
    }
  }

  lemma {:induction false} GreedyOneMore(ranks: map<Token, int>, word: seq<Token>, n: nat)
    requires n >= 1 && |Greedy(ranks, word, n + 1)| == n + 1
    ensures Greedy(ranks, word, n) == Next(ranks, Greedy(ranks, word, n + 1))
    decreases |word|
  {
    hide Next;
    if |word| > n + 1 {
      GreedyOneMore(ranks, Next(ranks, word), n);
    } else {
      assert Greedy(ranks, Next(ranks, word), n) == Next(ranks, word);
    }
  }

  /** Every run of adjacent pieces is what greedy merging makes of its own bytes alone. */
  ghost predicate LocallyGreedy(ranks: map<Token, int>, word: seq<Token>) {
    forall i, j :: 0 <= i < j <= |word| ==> OwnGreedy(ranks, word[i..j])
  }

  ghost predicate OwnGreedy(ranks: map<Token, int>, span: seq<Token>) {
    span == Greedy(ranks, Bytes(Flatten(span)), |span|)
  }

  lemma BytesLocallyGreedy(ranks: map<Token, int>, t: Token)
    ensures LocallyGreedy(ranks, Bytes(t))
  {
    forall i, j | 0 <= i < j <= |Bytes(t)| ensures OwnGreedy(ranks, Bytes(t)[i..j]) {
      assert Bytes(t)[i..j] == Bytes(t[i..j]);
      BytesFlatten(t[i..j]);
    }
  }

  /** The lowest-ranked pair of a word is the lowest-ranked pair of every run of pieces that holds it. */
  lemma BestInSpan(ranks: map<Token, int>, word: seq<Token>, i: nat, j: nat)
    requires |word| >= 2 && j <= |word|
    requires i <= BestPair(ranks, word, |word| - 1) && BestPair(ranks, word, |word| - 1) + 1 < j
    ensures BestPair(ranks, word[i..j], j - i - 1) == BestPair(ranks, word, |word| - 1) - i
  {
    var m, span := BestPair(ranks, word, |word| - 1), word[i..j];
    assert forall k :: 0 <= k < |span| - 1 ==> PairRank(ranks, span, k) == PairRank(ranks, word, i + k);
    var b := BestPair(ranks, span, |span| - 1);
    assert PairRank(ranks, span, b) == PairRank(ranks, word, i + b);
    assert PairRank(ranks, span, m - i) == PairRank(ranks, word, m);
  }

  lemma LocalStep(ranks: map<Token, int>, word: seq<Token>)
    requires LocallyGreedy(ranks, word) && |word| >= 2
    ensures LocallyGreedy(ranks, Next(ranks, word))
  {
    hide Greedy, OwnGreedy, BestPair, MergeAt;
    var m := BestPair(ranks, word, |word| - 1);
    var w := Next(ranks, word);
    forall i, j | 0 <= i < j <= |w| ensures OwnGreedy(ranks, w[i..j]) {
      SpanOfMerged(word, m, i, j);
      if i <= m < j {
        assert OwnGreedy(ranks, word[i..j + 1]);
        BestInSpan(ranks, word, i, j + 1);
        SpanStep(ranks, word[i..j + 1]);
      }
    }
  }

  lemma SpanOfMerged(word: seq<Token>, m: nat, i: nat, j: nat)
    requires m + 1 < |word| && i < j < |word|
    ensures |MergeAt(word, m)| == |word| - 1
    ensures j <= m ==> MergeAt(word, m)[i..j] == word[i..j]
    ensures i > m ==> MergeAt(word, m)[i..j] == word[i + 1..j + 1]
    ensures i <= m < j ==> MergeAt(word, m)[i..j] == MergeAt(word[i..j + 1], m - i)
  {
    var w := MergeAt(word, m);
    if j <= m {
      assert w[i..j] == word[i..j];
    } else if i > m {
      assert w[i..j] == word[i + 1..j + 1];
    } else {
      var span := word[i..j + 1];
      assert span[..m - i] == word[i..m] && span[m - i + 2..] == word[m + 2..j + 1];
      SliceAround(word[..m], word[m] + word[m + 1], word[m + 2..], i, j);
      assert word[..m][i..] == word[i..m] && word[m + 2..][..j - m - 1] == word[m + 2..j + 1];
    }
  }

  lemma SliceAround(a: seq<Token>, x: Token, b: seq<Token>, i: nat, j: nat)
    requires i <= |a| < j <= |a| + 1 + |b|
    ensures (a + [x] + b)[i..j] == a[i..] + [x] + b[..j - |a| - 1]
  {
  }

  lemma SpanStep(ranks: map<Token, int>, span: seq<Token>)
    requires OwnGreedy(ranks, span) && |span| >= 2
    ensures OwnGreedy(ranks, Next(ranks, span))
  {
    hide Greedy, MergeAt, BestPair, Flatten, Bytes;
    MergeAtFlatten(span, BestPair(ranks, span, |span| - 1));
    GreedyOneMore(ranks, Bytes(Flatten(span)), |span| - 1);
  }

  // ------------------------------------------------------------------ every pair merged is a recovered one

  /** Ranks name tokens uniquely, and none lies above the code's stand-in for a missing pair. */
  ghost predicate UniqueRanks(ranks: map<Token, int>) {
    && (forall u, v :: u in ranks && v in ranks && ranks[u] == ranks[v] ==> u == v)
    && (forall u :: u in ranks ==> ranks[u] <= 1_000_000_000)
  }

  /** Every longer token yields a merge. */
  ghost predicate AllRecovered(ranks: map<Token, int>) {
    forall u :: u in ranks && |u| >= 2 ==> MergeOf(ranks, u, ranks[u]).Some?
  }

  ghost predicate Complete(ranks: map<Token, int>) {
    UniqueRanks(ranks) && AllRecovered(ranks)
  }

  /** Two pieces of a greedily merged word that join to a token are that token's recovered merge. */
  lemma PairIsRecovered(ranks: map<Token, int>, a: Token, b: Token)
    requires Complete(ranks) && a != [] && b != [] && a + b in ranks && OwnGreedy(ranks, [a, b])
    ensures MergeOf(ranks, a + b, ranks[a + b]) == Some(Merge(a, b))
  {
    hide Greedy, Reduce, Flatten;
    FlattenTwo(a, b);
    assert |a + b| >= 2 && MergeOf(ranks, a + b, ranks[a + b]).Some?;
    ReduceIsGreedy(ranks, Bytes(a + b), ranks[a + b]);
  }

  lemma {:induction false} ListedIsRecovered(ranks: map<Token, int>, items: seq<Ranked>, m: Merge)
    requires forall i :: 0 <= i < |items| ==> items[i].token in ranks && ranks[items[i].token] == items[i].rank
    requires m in MergesOf(ranks, items)
    ensures m.left + m.right in ranks && MergeOf(ranks, m.left + m.right, ranks[m.left + m.right]) == Some(m)
  {
    hide MergeOf;
    var last := items[|items| - 1];
    if MergeOf(ranks, last.token, last.rank) == Some(m) {
      MergeRejoins(ranks, last.token, last.rank);
    } else {
      ListedIsRecovered(ranks, items[..|items| - 1], m);
    }
  }

  lemma RecoveredIsListed(ranks: map<Token, int>, items: seq<Ranked>, u: Token)
    requires Listing(items, ranks) && u in ranks && MergeOf(ranks, u, ranks[u]).Some?
    ensures MergeOf(ranks, u, ranks[u]).value in MergesOf(ranks, items)
  {
    hide MergeOf, MergesOf;
    var i :| 0 <= i < |items| && items[i] == Ranked(u, ranks[u]);
    MergeListed(ranks, items, i);
  }

  /** Of two pairs, the first of them a recovered merge, the one of lower rank is not later in the list. */
  lemma IndexFollowsRank(ranks: map<Token, int>, items: seq<Ranked>, p: Merge, q: Merge)
    requires Listing(items, ranks) && Complete(ranks) && p in MergesOf(ranks, items)
    ensures var ms := MergesOf(ranks, items);
      && IndexOf(ms, p) < |ms|
      && (MergeRank(ranks, p) < MergeRank(ranks, q) ==> IndexOf(ms, p) < IndexOf(ms, q))
      && (MergeRank(ranks, p) == MergeRank(ranks, q) ==> IndexOf(ms, p) <= IndexOf(ms, q))
  {
    hide MergeOf, MergesOf;
    var ms := MergesOf(ranks, items);
    MergesInRankOrder(ranks, items);
    var i, j := IndexOf(ms, p), IndexOf(ms, q);
    Found(ms, p);
    ListedIsRecovered(ranks, items, p);
    if j < |ms| {
      assert ms[j] == q && q in ms;
      ListedIsRecovered(ranks, items, q);
    }
  }

  lemma Found(ms: seq<Merge>, m: Merge)
    requires m in ms
    ensures IndexOf(ms, m) < |ms|
  {
    assert ms[..|ms|] == ms;
  }

  /** So the encoder's next pair is the rank table's next pair. */
  lemma SamePair(ranks: map<Token, int>, items: seq<Ranked>, word: seq<Token>)
    requires Listing(items, ranks) && Complete(ranks) && |word| >= 2
    requires var m := BestPair(ranks, word, |word| - 1); Merge(word[m], word[m + 1]) in MergesOf(ranks, items)
    ensures var ms := MergesOf(ranks, items);
      var i := EarliestPair(ms, word, |word| - 1);
      i == BestPair(ranks, word, |word| - 1) && PairIndex(ms, word, i) < |ms|
  {
    hide MergesOf, IndexOf, Complete, Listing;
    var ms, m := MergesOf(ranks, items), BestPair(ranks, word, |word| - 1);
    forall j | 0 <= j < |word| - 1
      ensures PairIndex(ms, word, m) < |ms| && PairIndex(ms, word, m) <= PairIndex(ms, word, j)
      ensures j < m ==> PairIndex(ms, word, m) < PairIndex(ms, word, j)
    {
      IndexFollowsRank(ranks, items, Merge(word[m], word[m + 1]), Merge(word[j], word[j + 1]));
      assert MergeRank(ranks, Merge(word[j], word[j + 1])) == PairRank(ranks, word, j) >= PairRank(ranks, word, m);
    }
  }

  // ------------------------------------------------------------------ the encoder rebuilds every token

  ghost predicate NoEmpty(word: seq<Token>) {
    forall i :: 0 <= i < |word| ==> word[i] != []
  }

  lemma {:induction false} EncodeFrom(ranks: map<Token, int>, items: seq<Ranked>, t: Token, word: seq<Token>)
    requires Listing(items, ranks) && Complete(ranks) && t in ranks
    requires |word| >= 2 && NoEmpty(word) && Flatten(word) == t && LocallyGreedy(ranks, word)
    requires |Reduce(ranks, word, ranks[t])| == 2
    ensures Encode(MergesOf(ranks, items), word) == [t]
    decreases |word|
  {
    hide MergesOf, MergeOf, LocallyGreedy, Listing, Complete, Greedy, OwnGreedy, PairIndex, Flatten;
    var ms, m := MergesOf(ranks, items), BestPair(ranks, word, |word| - 1);
    NextPairListed(ranks, items, t, word);
    SamePair(ranks, items, word);
    var w := MergeAt(word, m);
    MergeAtFlatten(word, m);
    LocalStep(ranks, word);
    assert w == Next(ranks, word);
    if |word| == 2 {
      WholeWord(w, t);
      assert Encode(ms, w) == w;
    } else {
      EncodeFrom(ranks, items, t, w);
    }
  }

  lemma WholeWord(w: seq<Token>, t: Token)
    requires |w| == 1 && Flatten(w) == t
    ensures w == [t]
  {
    assert w == [w[0]] && w[1..] == [];
    assert Flatten(w) == w[0] + Flatten(w[1..]) && w[0] + [] == w[0];
  }

  /** The lowest-ranked pair of a word on the way to t joins to a token, and is that token's merge. */
  lemma NextPairListed(ranks: map<Token, int>, items: seq<Ranked>, t: Token, word: seq<Token>)
    requires Listing(items, ranks) && Complete(ranks) && t in ranks
    requires |word| >= 2 && NoEmpty(word) && Flatten(word) == t && LocallyGreedy(ranks, word)
    requires |Reduce(ranks, word, ranks[t])| == 2
    ensures var m := BestPair(ranks, word, |word| - 1); Merge(word[m], word[m + 1]) in MergesOf(ranks, items)
  {
    hide MergesOf, MergeOf, Greedy, OwnGreedy;
    var m := BestPair(ranks, word, |word| - 1);
    var a, b := word[m], word[m + 1];
    assert word[m..m + 2] == [a, b];
    if |word| == 2 {
      assert word == [a, b];
      FlattenTwo(a, b);
    } else {
      assert PairRank(ranks, word, m) < ranks[t] <= MISSING;
    }
    PairIsRecovered(ranks, a, b);
    RecoveredIsListed(ranks, items, a + b);
  }

  /** Applied in list order to a token's bytes, the recovered merges rebuild exactly that token, for every
      token of a table in which every longer token yields a merge. */
  lemma EncodeRebuildsToken(ranks: map<Token, int>, items: seq<Ranked>, t: Token)
    requires Listing(items, ranks) && Complete(ranks) && t in ranks && t != []
    ensures Encode(MergesOf(ranks, items), Bytes(t)) == [t]
  {
    hide MergesOf, Listing, Greedy;
    if |t| == 1 {
      assert t == [t[0]] && Bytes(t)[0] == [t[0]];
      assert Bytes(t) == [t];
    } else {
      BytesFlatten(t);
      BytesLocallyGreedy(ranks, t);
      EncodeFrom(ranks, items, t, Bytes(t));
    }
  }

  /** A word that the encoder ends as one token was last joined by a listed merge. */
  lemma {:induction false} LastMergeListed(ms: seq<Merge>, word: seq<Token>, t: Token)
    requires |word| >= 2 && Encode(ms, word) == [t]
    ensures exists m :: m in ms && m.left + m.right == t
    decreases |word|
  {
    var i := EarliestPair(ms, word, |word| - 1);
    var m := Merge(word[i], word[i + 1]);
    assert m in ms && Encode(ms, word) == Encode(ms, MergeAt(word, i));
    if |word| == 2 {
      assert MergeAt(word, i) == [m.left + m.right];
    } else {
      LastMergeListed(ms, MergeAt(word, i), t);
    }
  }

  ghost predicate Rebuilds(merges: seq<Merge>, t: Token) {
    Encode(merges, Bytes(t)) == [t]
  }

  /** A longer token that is rebuilt yields a merge, in any table. */
  lemma RebuiltYieldsMerge(ranks: map<Token, int>, items: seq<Ranked>, t: Token)
    requires Listing(items, ranks) && |t| >= 2 && Rebuilds(MergesOf(ranks, items), t)
    ensures t in ranks && MergeOf(ranks, t, ranks[t]).Some?
  {
    hide MergesOf, MergeOf, Encode;
    var ms := MergesOf(ranks, items);
    LastMergeListed(ms, Bytes(t), t);
    var m :| m in ms && m.left + m.right == t;
    ListedIsRecovered(ranks, items, m);
  }

  /** For unique ranks, exactly: the encoder rebuilds every token from its bytes if and only if every longer
      token yields a merge. */
  lemma RebuildsAllIff(ranks: map<Token, int>, items: seq<Ranked>)
    requires Listing(items, ranks) && UniqueRanks(ranks)
    ensures (forall t :: t in ranks && t != [] ==> Rebuilds(MergesOf(ranks, items), t)) <==> AllRecovered(ranks)
  {
    hide MergesOf, MergeOf, Encode, Listing, UniqueRanks;
    if AllRecovered(ranks) {
      forall t | t in ranks && t != [] ensures Rebuilds(MergesOf(ranks, items), t) {
        EncodeRebuildsToken(ranks, items, t);
      }
    } else {
      var u :| u in ranks && |u| >= 2 && MergeOf(ranks, u, ranks[u]).None?;
      if Rebuilds(MergesOf(ranks, items), u) {
        RebuiltYieldsMerge(ranks, items, u);
      }
    }
  }

  // ------------------------------------------------------------------ why ranks must be unique

  /** The recovered merge of a two-byte token is its two bytes. */
  lemma TwoBytes(ranks: map<Token, int>, a: Byte, b: Byte, rank: int)
    requires [a] in ranks && [b] in ranks
    ensures MergeOf(ranks, [a, b], rank) == Some(Merge([a], [b]))
  {
    assert Bytes([a, b]) == [[a], [b]];
  }

  /** Three bytes whose two inner pairs are tokens of one rank: the loop joins the first pair. */
  lemma ThreeBytes(ranks: map<Token, int>, a: Byte, b: Byte, c: Byte, rank: int)
    requires [a, b] in ranks && [b, c] in ranks && [c] in ranks && ranks[[a, b]] == ranks[[b, c]] < rank
    ensures MergeOf(ranks, [a, b, c], rank) == Some(Merge([a, b], [c]))
  {
    var w: seq<Token> := [[a], [b], [c]];
    assert Bytes([a, b, c]) == w;
    assert w[0] + w[1] == [a, b] && w[1] + w[2] == [b, c];
    assert PairRank(ranks, w, 0) == PairRank(ranks, w, 1);
    assert BestPair(ranks, w, 2) == 0;
    assert MergeAt(w, 0) == [[a, b], [c]];
    assert Reduce(ranks, w, rank) == Reduce(ranks, MergeAt(w, 0), rank) == MergeAt(w, 0);
  }

  const TIED: map<Token, int> := map[[1] := 1, [2] := 2, [3] := 3, [2, 3] := 5, [1, 2] := 5, [1, 2, 3] := 6]

  const TIED_LISTING := [Ranked([1], 1), Ranked([2], 2), Ranked([3], 3),
                         Ranked([2, 3], 5), Ranked([1, 2], 5), Ranked([1, 2, 3], 6)]

  /** Two tokens of one rank, listed in the other order than the loop tries them: the merges are all recovered,
      but the encoder joins the other pair first and is stuck short of the token. */
  lemma TiedRanksStick()
    ensures Listing(TIED_LISTING, TIED)
    ensures AllRecovered(TIED)
    ensures Encode(MergesOf(TIED, TIED_LISTING), Bytes([1, 2, 3])) == [[1], [2, 3]]
  {
    hide MergeOf, MergesOf, Listing, Encode;
    TiedListing();
    TwoBytes(TIED, 2, 3, 5);
    TwoBytes(TIED, 1, 2, 5);
    ThreeBytes(TIED, 1, 2, 3, 6);
    TiedEntries();
    assert forall u :: u in TIED && |u| >= 2 ==> u == [2, 3] || u == [1, 2] || u == [1, 2, 3];
    TiedMerges();
    var ms := [Merge([2], [3]), Merge([1], [2]), Merge([1, 2], [3])];
    var w: seq<Token> := [[1], [2], [3]];
    assert Bytes([1, 2, 3]) == w;
    StickyWord(ms, w);
  }

  lemma AtFront(ms: seq<Merge>, m: Merge)
    requires ms != []
    ensures IndexOf(ms, m) == 0 <==> ms[0] == m
  {
  }

  /** The table's entries, one by one. */
  lemma TiedEntries()
    ensures TIED.Keys == {[1], [2], [3], [2, 3], [1, 2], [1, 2, 3]}
    ensures TIED[[1]] == 1 && TIED[[2]] == 2 && TIED[[3]] == 3 && TIED[[2, 3]] == 5 && TIED[[1, 2]] == 5
      && TIED[[1, 2, 3]] == 6
  {
  }

  lemma TiedListing()
    ensures Listing(TIED_LISTING, TIED)
  {
    TiedEntries();
    hide TIED;
    var l := TIED_LISTING;
    assert l[0] in l && l[1] in l && l[2] in l && l[3] in l && l[4] in l && l[5] in l;
    TiedDistinct();
  }

  lemma TiedDistinct()
    ensures forall i, j :: 0 <= i < j < |TIED_LISTING| ==> TIED_LISTING[i].token != TIED_LISTING[j].token
  {
    var l := TIED_LISTING;
    assert l[0].token[0] == 1 && l[1].token[0] == 2 && l[2].token[0] == 3 && l[3].token[0] == 2 && l[4].token[0] == 1;
    assert |l[3].token| == 2 == |l[4].token| && |l[5].token| == 3;
  }

  lemma StickyWord(ms: seq<Merge>, w: seq<Token>)
    requires ms == [Merge([2], [3]), Merge([1], [2]), Merge([1, 2], [3])] && w == [[1], [2], [3]]
    ensures Encode(ms, w) == [[1], [2, 3]]
  {
    hide IndexOf;
    var p, q, r := Merge([1], [2]), Merge([2], [3]), Merge([1], [2, 3]);
    Found(ms, p);
    Found(ms, q);
    assert p != ms[0] && q == ms[0];
    AtFront(ms, q);
    AtFront(ms, p);
    assert IndexOf(ms, q) == 0 && IndexOf(ms, p) > 0;
    assert PairIndex(ms, w, 0) > 0 && PairIndex(ms, w, 1) == 0;
    assert EarliestPair(ms, w, 2) == 1;
    var v := MergeAt(w, 1);
    assert w[1] + w[2] == [2, 3] && w[..1] == [[1]] && w[3..] == [];
    assert v == [[1], [2, 3]];
    assert r !in ms;
    assert PairIndex(ms, v, 0) == |ms|;
    assert Encode(ms, v) == v;
  }

  lemma TiedMerges()
    ensures MergesOf(TIED, TIED_LISTING) == [Merge([2], [3]), Merge([1], [2]), Merge([1, 2], [3])]
  {
    hide MergeOf;
    TwoBytes(TIED, 2, 3, 5);
    TwoBytes(TIED, 1, 2, 5);
    ThreeBytes(TIED, 1, 2, 3, 6);
    var l := TIED_LISTING;
    OneByte(TIED, 1, 1);
    OneByte(TIED, 2, 2);
    OneByte(TIED, 3, 3);
    assert l[..1][..0] == [] && l[..2][..1] == l[..1] && l[..3][..2] == l[..2] && l[..4][..3] == l[..3]
      && l[..5][..4] == l[..4];
    assert l[..6] == l;
    assert MergesOf(TIED, l[..1]) == [];
    assert MergesOf(TIED, l[..2]) == [];
    assert MergesOf(TIED, l[..3]) == [];
    assert MergesOf(TIED, l[..4]) == [Merge([2], [3])];
    assert MergesOf(TIED, l[..5]) == [Merge([2], [3]), Merge([1], [2])];
  }

  lemma OneByte(ranks: map<Token, int>, a: Byte, rank: int)
    ensures MergeOf(ranks, [a], rank) == None
  {
  }
}
