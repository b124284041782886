/** services/scanner_transcriber model_bootstrap.py: the byte-to-character table, and recovering BPE merge
    pairs from a table of token ranks. */
module MergeRecovery {
  import opened Common

  // ------------------------------------------------------------------ bytes to characters

  predicate Printable(b: int) {
    33 <= b <= 126 || 161 <= b <= 172 || 174 <= b <= 255
  }

  function Range(lo: nat, hi: nat): (r: seq<nat>)
    requires lo <= hi
    ensures |r| == hi - lo && forall i :: 0 <= i < |r| ==> r[i] == lo + i
  {
    seq(hi - lo, i requires 0 <= i < hi - lo => lo + i)
  }

  const PRINTABLE_COUNT := 94 + 12 + 82

  /** How many bytes below b are not printable: 0 to 32, 127 to 160, and 173. */
  function UnprintableBelow(b: nat): nat {
    if b <= 33 then b else if b <= 127 then 33 else if b <= 161 then b - 94 else if b <= 173 then 67 else 68
  }

  /** Printable bytes keep their code point; the others, in order, get 256, 257, ... */
  ghost predicate Assigned(bs: seq<nat>, cs: seq<nat>, b: nat) {
    && |bs| == |cs| >= PRINTABLE_COUNT
    && Distinct(bs)
    && (forall x :: x in bs <==> Printable(x) || 0 <= x < b)
    && (forall i :: 0 <= i < PRINTABLE_COUNT ==> Printable(bs[i]) && cs[i] == bs[i])
    && (forall i :: PRINTABLE_COUNT <= i < |cs| ==> !Printable(bs[i]) && cs[i] == 256 + i - PRINTABLE_COUNT)
    && (forall i :: PRINTABLE_COUNT <= i < |cs| ==> i - PRINTABLE_COUNT == UnprintableBelow(bs[i]))
    && |bs| - PRINTABLE_COUNT == UnprintableBelow(b)
  }

  /** A table that gives each byte a character of its own: printable bytes theirs, the others the characters
      from 256 on, in order. */
  ghost predicate OneToOne(table: map<nat, nat>) {
    && (forall b: nat :: b in table <==> b < 256)
    && (forall a, b :: a in table && b in table && table[a] == table[b] ==> a == b)
    && (forall b :: b in table && Printable(b) ==> table[b] == b)
    && (forall b :: b in table && !Printable(b) ==> table[b] == 256 + UnprintableBelow(b))
  }

  /** _bytes_to_unicode */
  method BytesToUnicode() returns (table: map<nat, nat>)
    ensures OneToOne(table)
  {
    var bs := Range(33, 127) + Range(161, 173) + Range(174, 256);
    var cs := bs;
    var n := 0;
    PrintableList(bs);
    for b := 0 to 256
      invariant Assigned(bs, cs, b)
      invariant n == |cs| - PRINTABLE_COUNT
    {
      if b !in bs {
        bs := bs + [b];
        cs := cs + [256 + n];
        n := n + 1;
      }
    }
    table := Zip(bs, cs);
    ZipOneToOne(bs, cs, table);
  }

  lemma PrintableList(bs: seq<nat>)
    requires bs == Range(33, 127) + Range(161, 173) + Range(174, 256)
    ensures Assigned(bs, bs, 0)
  {
    forall x ensures x in bs <==> Printable(x) {
      if Printable(x) {
        var i := if x <= 126 then x - 33 else if x <= 172 then 94 + x - 161 else 106 + x - 174;
        assert bs[i] == x;
      }
    }
  }

  /** {b: chr(c) for b, c in zip(bs, cs)} */
  method Zip(bs: seq<nat>, cs: seq<nat>) returns (table: map<nat, nat>)
    requires |bs| == |cs| && Distinct(bs)
    ensures forall b :: b in table <==> b in bs
    ensures forall i :: 0 <= i < |bs| ==> bs[i] in table && table[bs[i]] == cs[i]
  {
    table := map[];
    for i := 0 to |bs|
      invariant forall b :: b in table <==> b in bs[..i]
      invariant forall k :: 0 <= k < i ==> bs[k] in table && table[bs[k]] == cs[k]
    {
      table := table[bs[i] := cs[i]];
    }
  }

  lemma ZipOneToOne(bs: seq<nat>, cs: seq<nat>, table: map<nat, nat>)
    requires Assigned(bs, cs, 256) && (forall b :: b in table <==> b in bs)
    requires forall i :: 0 <= i < |bs| ==> bs[i] in table && table[bs[i]] == cs[i]
    ensures OneToOne(table)
  {
    forall i, j | 0 <= i < j < |cs| ensures cs[i] != cs[j] {
      if j < PRINTABLE_COUNT {
        assert bs[i] != bs[j];
      }
    }
    forall a, b | a in table && b in table && table[a] == table[b] ensures a == b {
      var i :| 0 <= i < |bs| && bs[i] == a;
      var j :| 0 <= j < |bs| && bs[j] == b;
    }
    forall b | b in table && !Printable(b) ensures table[b] == 256 + UnprintableBelow(b) {
      var i :| 0 <= i < |bs| && bs[i] == b;
    }
    forall b | b in table && Printable(b) ensures table[b] == b {
      var i :| 0 <= i < |bs| && bs[i] == b;
    }
  }

  // ------------------------------------------------------------------ merges

  type Token = seq<Byte>

  const MISSING := 1_000_000_000

  function RankOf(ranks: map<Token, int>, t: Token): int {
    if t in ranks then ranks[t] else MISSING
  }

  function PairRank(ranks: map<Token, int>, word: seq<Token>, i: nat): int
    requires i + 1 < |word|
  {
    RankOf(ranks, word[i] + word[i + 1])
  }

  /** The first of the adjacent pairs with the lowest rank, among the first n. */
  function BestPair(ranks: map<Token, int>, word: seq<Token>, n: nat): (i: nat)
    requires 1 <= n < |word|
    ensures i < n
    ensures forall j :: 0 <= j < n ==> PairRank(ranks, word, i) <= PairRank(ranks, word, j)
    ensures forall j :: 0 <= j < i ==> PairRank(ranks, word, i) < PairRank(ranks, word, j)
  {
    if n == 1 then 0
    else
      var i := BestPair(ranks, word, n - 1);
      if PairRank(ranks, word, n - 1) < PairRank(ranks, word, i) then n - 1 else i
  }

  function MergeAt(word: seq<Token>, i: nat): seq<Token>
    requires i + 1 < |word|
  {
    word[..i] + [word[i] + word[i + 1]] + word[i + 2..]
  }

  /** Merging pairs of rank below `rank`, lowest first, until two pieces are left or none qualifies. */
  function Reduce(ranks: map<Token, int>, word: seq<Token>, rank: int): seq<Token>
    decreases |word|
  {
    if |word| <= 2 then word
    else
      var i := BestPair(ranks, word, |word| - 1);
      if PairRank(ranks, word, i) >= rank then word else Reduce(ranks, MergeAt(word, i), rank)
  }

  function Bytes(t: Token): (r: seq<Token>)
    ensures |r| == |t| && forall i :: 0 <= i < |r| ==> r[i] == [t[i]]
  {
    seq(|t|, i requires 0 <= i < |t| => [t[i]])
  }

  /** The loop that reduces one token. */
  method ReduceToken(ranks: map<Token, int>, token: Token, rank: int) returns (word: seq<Token>)
    ensures word == Reduce(ranks, Bytes(token), rank)
  {
    word := Bytes(token);
    while |word| > 2
      invariant Reduce(ranks, word, rank) == Reduce(ranks, Bytes(token), rank)
      decreases |word|
    {
      var mergeIdx := 0;
      for idx := 1 to |word| - 1
        invariant mergeIdx < |word| - 1 && mergeIdx == BestPair(ranks, word, idx)
      {
        if PairRank(ranks, word, idx) < PairRank(ranks, word, mergeIdx) {
          mergeIdx := idx;
        }
      }
      if PairRank(ranks, word, mergeIdx) >= rank {
        break;
      }
      word := MergeAt(word, mergeIdx);
    }
  }

  /** Every piece is a single byte or a token of rank below `rank` (as the lookup sees it). */
  ghost predicate Below(ranks: map<Token, int>, word: seq<Token>, rank: int) {
    forall i :: 0 <= i < |word| ==> word[i] != [] && (|word[i]| == 1 || RankOf(ranks, word[i]) < rank)
  }

  lemma FlattenTwo(x: Token, y: Token)
    ensures Flatten([x, y]) == x + y == Flatten([x + y])
  {
    assert Flatten([y]) == y + Flatten([y][1..]) == y;
    assert Flatten([x, y]) == x + Flatten([x, y][1..]);
    assert Flatten([x + y]) == x + y + Flatten([x + y][1..]);
  }

  lemma MergeAtFlatten(word: seq<Token>, i: nat)
    requires i + 1 < |word|
    ensures Flatten(MergeAt(word, i)) == Flatten(word)
  {
    hide Flatten;
    var a, pair, one, b := word[..i], [word[i], word[i + 1]], [word[i] + word[i + 1]], word[i + 2..];
    assert word == a + pair + b;
    FlattenAppend(a + pair, b);
    FlattenAppend(a, pair);
    FlattenAppend(a + one, b);
    FlattenAppend(a, one);
    FlattenTwo(word[i], word[i + 1]);
  }

  /** Reduction never changes what the pieces spell, and forms pieces of smaller rank only. */
  lemma {:induction false} ReduceKeeps(ranks: map<Token, int>, word: seq<Token>, rank: int)
    requires Below(ranks, word, rank)
    ensures Below(ranks, Reduce(ranks, word, rank), rank)
    ensures Flatten(Reduce(ranks, word, rank)) == Flatten(word)
    ensures |word| >= 2 ==> |Reduce(ranks, word, rank)| >= 2
    decreases |word|
  {
    if |word| > 2 {
      var i := BestPair(ranks, word, |word| - 1);
      if PairRank(ranks, word, i) < rank {
        MergeAtFlatten(word, i);
        ReduceKeeps(ranks, MergeAt(word, i), rank);
      }
    }
  }

  lemma {:induction false} BytesFlatten(t: Token)
    ensures Flatten(Bytes(t)) == t
  {
    if t != [] {
      assert Bytes(t)[1..] == Bytes(t[1..]);
      BytesFlatten(t[1..]);
    }
  }

  datatype Merge = Merge(left: Token, right: Token)

  /** The merge recovered for a token, if its reduction ends in two known pieces. */
  function MergeOf(ranks: map<Token, int>, token: Token, rank: int): Option<Merge> {
    var word := Reduce(ranks, Bytes(token), rank);
    if |token| >= 2 && |word| == 2 && word[0] in ranks && word[1] in ranks then Some(Merge(word[0], word[1])) else None
  }

  /** A recovered merge rejoins to its token; both halves are tokens, and a half of more than one byte has
      strictly smaller rank. */
  lemma MergeRejoins(ranks: map<Token, int>, token: Token, rank: int)
    requires MergeOf(ranks, token, rank).Some?
    ensures var m := MergeOf(ranks, token, rank).value;
      && m.left + m.right == token && m.left != [] && m.right != []
      && m.left in ranks && m.right in ranks
      && (|m.left| > 1 ==> ranks[m.left] < rank) && (|m.right| > 1 ==> ranks[m.right] < rank)
  {
    var word := Reduce(ranks, Bytes(token), rank);
    ReduceKeeps(ranks, Bytes(token), rank);
    BytesFlatten(token);
    hide Reduce, Flatten;
    assert word == [word[0], word[1]];
    FlattenTwo(word[0], word[1]);
  }

  datatype Ranked = Ranked(token: Token, rank: int)

  /** The entries of the rank table, sorted by rank. */
  ghost predicate Listing(items: seq<Ranked>, ranks: map<Token, int>) {
    && (forall i :: 0 <= i < |items| ==> items[i].token in ranks && ranks[items[i].token] == items[i].rank)
    && (forall t :: t in ranks ==> Ranked(t, ranks[t]) in items)
    && (forall i, j :: 0 <= i < j < |items| ==> items[i].token != items[j].token && items[i].rank <= items[j].rank)
  }

  function MergesOf(ranks: map<Token, int>, items: seq<Ranked>): seq<Merge> {
    if items == [] then []
    else
      var last := items[|items| - 1];
      var m := MergeOf(ranks, last.token, last.rank);
      MergesOf(ranks, items[..|items| - 1]) + if m.Some? then [m.value] else []
  }

  /** "".join(b2u[b] for b in token) */
  function KeyOf(table: map<nat, nat>, token: Token): seq<nat>
    requires OneToOne(table)
  {
    seq(|token|, i requires 0 <= i < |token| => table[token[i]])
  }

  /** Distinct tokens have distinct vocabulary keys. */
  lemma KeysDistinct(table: map<nat, nat>, s: Token, t: Token)
    requires OneToOne(table) && KeyOf(table, s) == KeyOf(table, t)
    ensures s == t
  {
    assert |KeyOf(table, s)| == |KeyOf(table, t)|;
    forall i | 0 <= i < |s| ensures s[i] == t[i] {
      assert KeyOf(table, s)[i] == KeyOf(table, t)[i];
    }
  }

  /** A merge's two keys concatenate to its token's key, and a token of printable bytes is its own key. */
  lemma KeyOfJoin(table: map<nat, nat>, s: Token, t: Token)
    requires OneToOne(table)
    ensures KeyOf(table, s + t) == KeyOf(table, s) + KeyOf(table, t)
    ensures |KeyOf(table, s)| == |s|
    ensures forall i :: 0 <= i < |s| ==>
      KeyOf(table, s)[i] == if Printable(s[i]) then s[i] else 256 + UnprintableBelow(s[i])
  {
  }

  /** Every listed token is in the vocabulary under its own key, and nothing else is. */
  ghost predicate Vocabulary(table: map<nat, nat>, vocab: map<seq<nat>, int>, items: seq<Ranked>)
    requires OneToOne(table)
  {
    && |vocab| == |items|
    && (forall k :: 0 <= k < |items| ==>
        KeyOf(table, items[k].token) in vocab && vocab[KeyOf(table, items[k].token)] == items[k].rank)
    && (forall key :: key in vocab ==> exists k :: 0 <= k < |items| && KeyOf(table, items[k].token) == key)
  }

  lemma VocabularyGrows(table: map<nat, nat>, vocab: map<seq<nat>, int>, items: seq<Ranked>, it: Ranked)
    requires OneToOne(table) && Vocabulary(table, vocab, items)
    requires forall k :: 0 <= k < |items| ==> items[k].token != it.token
    ensures Vocabulary(table, vocab[KeyOf(table, it.token) := it.rank], items + [it])
  {
    var key := KeyOf(table, it.token);
    forall k | 0 <= k < |items| ensures KeyOf(table, items[k].token) != key {
      if KeyOf(table, items[k].token) == key {
        KeysDistinct(table, items[k].token, it.token);
      }
    }
    hide KeyOf;
    var more := items + [it];
    assert more[|items|] == it;
    var grown := vocab[key := it.rank];
    forall x | x in grown ensures exists k :: 0 <= k < |more| && KeyOf(table, more[k].token) == x {
      if x != key {
        var k :| 0 <= k < |items| && KeyOf(table, items[k].token) == x;
        assert more[k] == items[k];
      }
    }
  }

  lemma VocabularyEmpty(table: map<nat, nat>)
    requires OneToOne(table)
    ensures Vocabulary(table, map[], [])
  {
  }

  lemma ListedOnce(items: seq<Ranked>, ranks: map<Token, int>, i: nat)
    requires Listing(items, ranks) && i < |items|
    ensures forall k :: 0 <= k < |items[..i]| ==> items[..i][k].token != items[i].token
  {
  }

  /** A merge as the loop records it: both halves as vocabulary strings. */
  datatype KeyedMerge = KeyedMerge(left: seq<nat>, right: seq<nat>)

  function Keyed(table: map<nat, nat>, m: Merge): KeyedMerge
    requires OneToOne(table)
  {
    KeyedMerge(KeyOf(table, m.left), KeyOf(table, m.right))
  }

  /** The merges in list order, each under its keys. */
  ghost predicate AllKeyed(table: map<nat, nat>, ms: seq<Merge>, keyed: seq<KeyedMerge>)
    requires OneToOne(table)
  {
    |keyed| == |ms| && forall i :: 0 <= i < |ms| ==> keyed[i] == Keyed(table, ms[i])
  }

  method RecoverOne(ranks: map<Token, int>, token: Token, rank: int) returns (m: Option<Merge>)
    ensures m == MergeOf(ranks, token, rank)
  {
    m := None;
    if |token| >= 2 {
      var word := ReduceToken(ranks, token, rank);
      if |word| == 2 && word[0] in ranks && word[1] in ranks {
        m := Some(Merge(word[0], word[1]));
      }
    }
  }

  /** The loop over the sorted table: the vocabulary, and the merges in table order. */
  method RecoverMerges(table: map<nat, nat>, ranks: map<Token, int>, items: seq<Ranked>)
    returns (vocab: map<seq<nat>, int>, merges: seq<KeyedMerge>)
    requires OneToOne(table) && Listing(items, ranks)
    ensures AllKeyed(table, MergesOf(ranks, items), merges)
    ensures Vocabulary(table, vocab, items)
  {
    hide KeyOf, MergeOf, Vocabulary, Listing, OneToOne, MergesOf, AllKeyed;
    VocabularyEmpty(table);
    NoneKeyed(table, ranks);
    vocab, merges := map[], [];
    for i := 0 to |items|
      invariant AllKeyed(table, MergesOf(ranks, items[..i]), merges)
      invariant Vocabulary(table, vocab, items[..i])
    {
      ListedOnce(items, ranks, i);
      assert items[..i + 1] == items[..i] + [items[i]];
      var (token, rank) := (items[i].token, items[i].rank);
      VocabularyGrows(table, vocab, items[..i], items[i]);
      vocab := vocab[KeyOf(table, token) := rank];
      var m := RecoverOne(ranks, token, rank);
      OneMoreKeyed(table, ranks, items[..i], items[i], merges);
      if m.Some? {
        merges := merges + [KeyedMerge(KeyOf(table, m.value.left), KeyOf(table, m.value.right))];
      }
    }
    assert items[..|items|] == items;
  }

  lemma NoneKeyed(table: map<nat, nat>, ranks: map<Token, int>)
    requires OneToOne(table)
    ensures AllKeyed(table, MergesOf(ranks, []), [])
  {
  }

  lemma OneMoreKeyed(table: map<nat, nat>, ranks: map<Token, int>, items: seq<Ranked>, it: Ranked,
                     keyed: seq<KeyedMerge>)
    requires OneToOne(table) && AllKeyed(table, MergesOf(ranks, items), keyed)
    ensures var m := MergeOf(ranks, it.token, it.rank);
      AllKeyed(table, MergesOf(ranks, items + [it]), if m.Some? then keyed + [Keyed(table, m.value)] else keyed)
  {
    hide MergeOf, KeyOf;
    assert (items + [it])[..|items|] == items;
  }

  /** The rank of the token a merge rejoins to. */
  function MergeRank(ranks: map<Token, int>, m: Merge): int {
    RankOf(ranks, m.left + m.right)
  }

  ghost predicate InRankOrder(ranks: map<Token, int>, ms: seq<Merge>) {
    forall i, j :: 0 <= i < j < |ms| ==> MergeRank(ranks, ms[i]) <= MergeRank(ranks, ms[j])
  }

  /** Merges come out in rank order: the ranks of the tokens they rejoin to never decrease. */
  lemma {:induction false} MergesInRankOrder(ranks: map<Token, int>, items: seq<Ranked>)
    requires forall i :: 0 <= i < |items| ==> items[i].token in ranks && ranks[items[i].token] == items[i].rank
    requires forall i, j :: 0 <= i < j < |items| ==> items[i].rank <= items[j].rank
    ensures InRankOrder(ranks, MergesOf(ranks, items))
    ensures forall m :: m in MergesOf(ranks, items) ==> items != [] && MergeRank(ranks, m) <= items[|items| - 1].rank
  {
    if items != [] {
      var front, last := items[..|items| - 1], items[|items| - 1];
      MergesInRankOrder(ranks, front);
      assert front != [] ==> front[|front| - 1].rank <= last.rank;
      var ms := MergesOf(ranks, front);
      assert forall i :: 0 <= i < |ms| ==> ms[i] in ms;
      if MergeOf(ranks, last.token, last.rank).Some? {
        MergeRejoins(ranks, last.token, last.rank);
      }
    }
  }

  /** A token is derivable if it is one byte, or some recovered merge joins it from derivable halves. */
  ghost predicate Derivable(merges: seq<Merge>, t: Token)
    decreases |t|
  {
    |t| == 1 ||
    (exists m :: m in merges && m.left != [] && m.right != [] && m.left + m.right == t
       && Derivable(merges, m.left) && Derivable(merges, m.right))
  }

  lemma {:induction false} MergeListed(ranks: map<Token, int>, items: seq<Ranked>, i: nat)
    requires i < |items| && MergeOf(ranks, items[i].token, items[i].rank).Some?
    ensures MergeOf(ranks, items[i].token, items[i].rank).value in MergesOf(ranks, items)
    decreases |items|
  {
    if i < |items| - 1 {
      MergeListed(ranks, items[..|items| - 1], i);
    }
  }

  /** If every longer token of the table yields a merge, the recovered merges derive every token of the
      table from single bytes. */
  lemma {:induction false} MergesDeriveTokens(ranks: map<Token, int>, items: seq<Ranked>, t: Token)
    requires Listing(items, ranks) && t in ranks && t != []
    requires forall u :: u in ranks && |u| >= 2 ==> MergeOf(ranks, u, ranks[u]).Some?
    ensures Derivable(MergesOf(ranks, items), t)
    decreases |t|
  {
    if |t| >= 2 {
      MergeRejoins(ranks, t, ranks[t]);
      var m := MergeOf(ranks, t, ranks[t]).value;
      var i :| 0 <= i < |items| && items[i] == Ranked(t, ranks[t]);
      MergeListed(ranks, items, i);
      MergesDeriveTokens(ranks, items, m.left);
      MergesDeriveTokens(ranks, items, m.right);
    }
  }
}
