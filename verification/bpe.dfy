/** The rank-guided merge loop (`get_pairs` and `bpe`) and its cache.

    The source's loop body stops after choosing the best pair: the merge
    step itself is missing (tokenizer.cpp:173-174), so `word` never changes.
    The model supplies that step as `MergePair` (replace every
    non-overlapping occurrence of the chosen pair, left to right) and takes
    the rank of a pair to be its position in the parsed merges list, since
    `bpe_ranks` is declared but never filled. */
module Bpe {
  import opened Wrappers
  import opened Seqs
  import opened Text
  import opened Merges

  /** A word under merging: its symbols, in order. */
  type Word = seq<Str>

  /** `bpe_ranks`: the rank of each known pair. */
  type RankMap = map<Merge, nat>

  /** One single-character symbol per code point of x. */
  function Singles(x: Str): (w: Word)
    ensures |w| == |x|
    ensures forall i :: 0 <= i < |x| ==> w[i] == [x[i]]
  {
    seq(|x|, i requires 0 <= i < |x| => [x[i]])
  }

  /** The word `bpe` starts from: the token's code points, with the
      end-of-word marker appended to the last one only. */
  function InitialWord(token: Str): (w: Word)
    requires |token| > 0
    ensures |w| == |token|
  {
    Singles(token[..|token| - 1]) + [[token[|token| - 1]] + EndOfWord]
  }

  lemma {:induction false} FlattenSingles(x: Str)
    ensures Flatten(Singles(x)) == x
    decreases |x|
  {
    if |x| > 0 {
      var n := |x| - 1;
      assert Singles(x)[..n] == Singles(x[..n]);
      FlattenSingles(x[..n]);
      assert x == x[..n] + [x[n]];
    }
  }

  /** The initial word spells the token followed by the end-of-word marker. */
  lemma InitialWordSpelling(token: Str)
    requires |token| > 0
    ensures Flatten(InitialWord(token)) == token + EndOfWord
  {
    var n := |token| - 1;
    FlattenAppend(Singles(token[..n]), [[token[n]] + EndOfWord]);
    FlattenSingles(token[..n]);
    FlattenSingle([token[n]] + EndOfWord);
    assert token == token[..n] + [token[n]];
  }

  /** Every symbol of the initial word is a single code point, the last one
      followed by the marker. */
  lemma InitialWordSymbols(token: Str)
    requires |token| > 0
    ensures forall i :: 0 <= i < |token| - 1 ==> InitialWord(token)[i] == [token[i]]
    ensures InitialWord(token)[|token| - 1] == [token[|token| - 1]] + EndOfWord
  {
  }

  /** The pair of symbols at positions i and i + 1. */
  function PairAt(w: Word, i: nat): (p: Merge)
    requires i + 1 < |w|
  {
    (w[i], w[i + 1])
  }

  /** `get_pairs`: the set of adjacent symbol pairs of a word. */
  function Pairs(w: Word): (pairs: set<Merge>)
  {
    set i: nat | i + 1 < |w| :: PairAt(w, i)
  }

  lemma PairsCons(w: Word)
    requires |w| >= 2
    ensures Pairs(w) == {(w[0], w[1])} + Pairs(w[1..])
  {
    forall p | p in Pairs(w)
      ensures p in {(w[0], w[1])} + Pairs(w[1..])
    {
      var i: nat :| i + 1 < |w| && p == PairAt(w, i);
      if i > 0 {
        assert p == PairAt(w[1..], i - 1);
      }
    }
    forall p | p in Pairs(w[1..])
      ensures p in Pairs(w)
    {
      var i: nat :| i + 1 < |w| - 1 && p == PairAt(w[1..], i);
      assert p == PairAt(w, i + 1);
    }
    assert PairAt(w, 0) == (w[0], w[1]);
  }

  /** A word has a pair exactly when it has at least two symbols. */
  lemma PairsEmpty(w: Word)
    ensures Pairs(w) == {} <==> |w| < 2
  {
    if |w| >= 2 {
      assert PairAt(w, 0) in Pairs(w);
    }
  }

  /** The lowest-ranked pair present in the word (`min_element` over the
      pairs, unranked pairs counting as the largest rank), or None when no
      present pair has a rank, which is where the loop stops. */
  function BestPair(ranks: RankMap, w: Word): (r: Option<Merge>)
    ensures r.Some? ==> r.value in Pairs(w) && r.value in ranks
    ensures r.Some? ==> forall p :: p in Pairs(w) && p in ranks ==> ranks[r.value] <= ranks[p]
    ensures r.None? ==> forall p :: p in Pairs(w) ==> p !in ranks
    decreases |w|
  {
    if |w| < 2 then
      PairsEmpty(w);
      None
    else
      PairsCons(w);
      var rest := BestPair(ranks, w[1..]);
      var p := (w[0], w[1]);
      if p in ranks && (rest.None? || ranks[p] <= ranks[rest.value]) then Some(p) else rest
  }

  /** The merge step: one left-to-right pass that replaces each
      non-overlapping occurrence of the pair (a, b) by the symbol a + b. */
  function MergePair(w: Word, a: Str, b: Str): (r: Word)
    ensures |r| <= |w|
    decreases |w|
  {
    if |w| < 2 then w
    else if w[0] == a && w[1] == b then [a + b] + MergePair(w[2..], a, b)
    else [w[0]] + MergePair(w[1..], a, b)
  }

  /** Merging keeps the spelling of the word. */
  lemma {:induction false} MergePairSpelling(w: Word, a: Str, b: Str)
    ensures Flatten(MergePair(w, a, b)) == Flatten(w)
    decreases |w|
  {
    if |w| >= 2 {
      if w[0] == a && w[1] == b {
        var rest := MergePair(w[2..], a, b);
        MergePairSpelling(w[2..], a, b);
        FlattenCons(a + b, rest);
        assert w == [a] + ([b] + w[2..]);
        FlattenCons(a, [b] + w[2..]);
        FlattenCons(b, w[2..]);
      } else {
        var rest := MergePair(w[1..], a, b);
        MergePairSpelling(w[1..], a, b);
        FlattenCons(w[0], rest);
        assert w == [w[0]] + w[1..];
        FlattenCons(w[0], w[1..]);
      }
    }
  }

  /** Merging a pair that is present shortens the word. */
  lemma {:induction false} MergePairShrinks(w: Word, a: Str, b: Str)
    requires (a, b) in Pairs(w)
    ensures |MergePair(w, a, b)| < |w|
    decreases |w|
  {
    PairsCons(w);
    if !(w[0] == a && w[1] == b) {
      MergePairShrinks(w[1..], a, b);
    }
  }

  /** Each symbol after merging is an old symbol or the merged pair. */
  lemma {:induction false} MergePairSymbols(w: Word, a: Str, b: Str)
    ensures forall x :: x in MergePair(w, a, b) ==> x in w || x == a + b
    decreases |w|
  {
    if |w| >= 2 {
      if w[0] == a && w[1] == b {
        MergePairSymbols(w[2..], a, b);
      } else {
        MergePairSymbols(w[1..], a, b);
      }
    }
  }

  /** After one pass no occurrence of the pair (a, b) is left, provided
      both symbols are non-empty. */
  lemma {:induction false} MergePairRemovesPair(w: Word, a: Str, b: Str)
    requires |a| > 0 && |b| > 0
    ensures (a, b) !in Pairs(MergePair(w, a, b))
    decreases |w|
  {
    var r := MergePair(w, a, b);
    if |w| < 2 {
      PairsEmpty(w);
    } else {
      var head := if w[0] == a && w[1] == b then a + b else w[0];
      var tail := if w[0] == a && w[1] == b then w[2..] else w[1..];
      var rest := MergePair(tail, a, b);
      MergePairRemovesPair(tail, a, b);
      assert r == [head] + rest;
      if |rest| >= 2 || |rest| == 1 {
        PairsCons(r);
        assert r[1..] == rest;
        assert (r[0], r[1]) != (a, b) by {
          if head == a + b {
            assert |r[0]| > |a|;
          } else {
            MergePairHead(tail, a, b);
            if rest[0] == a + b {
              assert |r[1]| > |b|;
            } else {
              assert rest[0] == tail[0];
            }
          }
        }
      } else {
        PairsEmpty(r);
      }
    }
  }

  /** The first symbol after merging is the merged pair or the old first
      symbol. */
  lemma MergePairHead(w: Word, a: Str, b: Str)
    requires |w| > 0
    ensures |MergePair(w, a, b)| > 0
    ensures |w| >= 2 && w[0] == a && w[1] == b ==> MergePair(w, a, b)[0] == a + b
    ensures !(|w| >= 2 && w[0] == a && w[1] == b) ==> MergePair(w, a, b)[0] == w[0]
  {
  }

  /** Overlapping occurrences are merged from the left: of three equal
      symbols, the first two merge and the third stays alone. */
  lemma MergePairLeftFirst(x: Str)
    ensures MergePair([x, x, x], x, x) == [x + x, x]
  {
  }

  /** The merge loop: while the word has two or more symbols and some
      present pair is ranked, merge the lowest-ranked one. Each step
      shortens the word, so the loop terminates. */
  function MergeLoop(ranks: RankMap, w: Word): (merged: Word)
    decreases |w|
  {
    if |w| < 2 then w
    else match BestPair(ranks, w)
      case None => w
      case Some(p) =>
        MergePairShrinks(w, p.0, p.1);
        MergeLoop(ranks, MergePair(w, p.0, p.1))
  }

  /** The merge loop keeps the spelling of the word. */
  lemma {:induction false} MergeLoopSpelling(ranks: RankMap, w: Word)
    ensures Flatten(MergeLoop(ranks, w)) == Flatten(w)
    decreases |w|
  {
    if |w| >= 2 {
      var best := BestPair(ranks, w);
      if best.Some? {
        var p := best.value;
        MergePairShrinks(w, p.0, p.1);
        MergePairSpelling(w, p.0, p.1);
        MergeLoopSpelling(ranks, MergePair(w, p.0, p.1));
      }
    }
  }

  /** The loop stops with a single symbol or with no ranked pair left. */
  lemma {:induction false} MergeLoopDone(ranks: RankMap, w: Word)
    ensures var r := MergeLoop(ranks, w);
      |r| < 2 || forall p :: p in Pairs(r) ==> p !in ranks
    decreases |w|
  {
    if |w| >= 2 {
      var best := BestPair(ranks, w);
      if best.Some? {
        var p := best.value;
        MergePairShrinks(w, p.0, p.1);
        MergeLoopDone(ranks, MergePair(w, p.0, p.1));
      }
    }
  }

  /** A word already left by the loop is left alone. */
  lemma MergeLoopIdempotent(ranks: RankMap, w: Word)
    ensures MergeLoop(ranks, MergeLoop(ranks, w)) == MergeLoop(ranks, w)
  {
    var r := MergeLoop(ranks, w);
    MergeLoopDone(ranks, w);
    if |r| >= 2 {
      assert BestPair(ranks, r).None?;
    }
  }

  /** Symbols of the result come from a set that contains the initial
      symbols and is closed under the ranked merges: this is what makes
      every merged symbol a vocabulary entry. */
  lemma {:induction false} MergeLoopStaysIn(ranks: RankMap, w: Word, known: set<Str>)
    requires forall x :: x in w ==> x in known
    requires forall p :: p in ranks ==> p.0 + p.1 in known
    ensures forall x :: x in MergeLoop(ranks, w) ==> x in known
    decreases |w|
  {
    if |w| >= 2 {
      var best := BestPair(ranks, w);
      if best.Some? {
        var p := best.value;
        MergePairShrinks(w, p.0, p.1);
        MergePairSymbols(w, p.0, p.1);
        MergeLoopStaysIn(ranks, MergePair(w, p.0, p.1), known);
      }
    }
  }

  /** Symbols stay non-empty and whitespace-free under merging. */
  lemma {:induction false} MergeLoopSymbols(ranks: RankMap, w: Word)
    requires forall i :: 0 <= i < |w| ==> IsSymbol(w[i])
    ensures forall i :: 0 <= i < |MergeLoop(ranks, w)| ==> IsSymbol(MergeLoop(ranks, w)[i])
    decreases |w|
  {
    if |w| >= 2 {
      var best := BestPair(ranks, w);
      if best.Some? {
        var p := best.value;
        var i: nat :| i + 1 < |w| && p == PairAt(w, i);
        ConcatSymbols(p.0, p.1);
        var m := MergePair(w, p.0, p.1);
        MergePairShrinks(w, p.0, p.1);
        MergePairSymbols(w, p.0, p.1);
        assert forall j :: 0 <= j < |m| ==> IsSymbol(m[j]) by {
          forall j | 0 <= j < |m|
            ensures IsSymbol(m[j])
          {
            assert m[j] in m;
          }
        }
        MergeLoopSymbols(ranks, m);
      }
    }
  }

  // ---------------------------------------------------------------------
  // The cached `bpe`

  /** What `bpe` returns for a (byte-remapped) token: the special tokens
      stand for themselves (they are pre-seeded in the cache); any other
      token is merged and its symbols joined by single spaces. */
  function Reference(ranks: RankMap, token: Str): (out: Str)
    requires |token| > 0
  {
    if token == StartOfText || token == EndOfText then token
    else Join(MergeLoop(ranks, InitialWord(token)))
  }

  /** The special tokens are cached, and every cache entry holds what `bpe`
      computes for its key. */
  predicate CacheSound(ranks: RankMap, cache: map<Str, Str>)
  {
    && StartOfText in cache && EndOfText in cache
    && forall t :: t in cache ==> |t| > 0 && cache[t] == Reference(ranks, t)
  }

  /** The cache as the constructor leaves it. */
  function SeedCache(): (cache: map<Str, Str>)
    ensures StartOfText in cache && cache[StartOfText] == StartOfText
    ensures EndOfText in cache && cache[EndOfText] == EndOfText
    ensures |cache.Keys| == 2
  {
    SpecialStringsAreSymbols();
    map[StartOfText := StartOfText, EndOfText := EndOfText]
  }

  lemma SeedCacheSound(ranks: RankMap)
    ensures CacheSound(ranks, SeedCache())
  {
    SpecialStringsAreSymbols();
  }

  /** `bpe(token)` with the cache threaded through: a hit returns the stored
      string and leaves the cache alone; a single-symbol token (no pairs)
      returns token + "</w>" without being stored; anything else is merged,
      stored under the token and returned. */
  function BpeCached(ranks: RankMap, cache: map<Str, Str>, token: Str): (out: (Str, map<Str, Str>))
    requires |token| > 0
    ensures CacheSound(ranks, cache) ==> out.0 == Reference(ranks, token) && CacheSound(ranks, out.1)
    ensures token in cache ==> out == (cache[token], cache)
    ensures token !in cache && |token| == 1 ==> out.1 == cache
    ensures token !in cache && |token| > 1 ==> out.1 == cache[token := out.0]
  {
    if token in cache then (cache[token], cache)
    else
      var word := InitialWord(token);
      PairsEmpty(word);
      if Pairs(word) == {} then
        SingleSymbolReference(ranks, token);
        (token + EndOfWord, cache)
      else
        var r := Join(MergeLoop(ranks, word));
        StoreKeepsSound(ranks, cache, token, r);
        (r, cache[token := r])
  }

  lemma StoreKeepsSound(ranks: RankMap, cache: map<Str, Str>, token: Str, r: Str)
    requires |token| > 0 && token !in cache
    requires r == Join(MergeLoop(ranks, InitialWord(token)))
    ensures CacheSound(ranks, cache) ==>
      r == Reference(ranks, token) && CacheSound(ranks, cache[token := r])
  {
  }

  /** A one-symbol token needs no merging: its result is the token with the
      marker. */
  lemma SingleSymbolReference(ranks: RankMap, token: Str)
    requires |token| == 1
    ensures Reference(ranks, token) == token + EndOfWord
  {
    SpecialStringsAreSymbols();
    assert token[..0] == [];
    assert InitialWord(token) == [[token[0]] + EndOfWord];
    assert token == [token[0]];
  }

  /** Calling `bpe` twice on the same token gives the same string and the
      second call changes nothing. */
  lemma BpeTwice(ranks: RankMap, cache: map<Str, Str>, token: Str)
    requires |token| > 0
    ensures var first := BpeCached(ranks, cache, token);
      var second := BpeCached(ranks, first.1, token);
      second.0 == first.0 && second.1 == first.1
  {
  }

  /** The merged result, split on whitespace, gives back the merged symbols,
      and they spell the token followed by the marker. */
  lemma ReferenceFields(ranks: RankMap, token: Str)
    requires IsSymbol(token) && token != StartOfText && token != EndOfText
    ensures Fields(Reference(ranks, token)) == MergeLoop(ranks, InitialWord(token))
    ensures Flatten(Fields(Reference(ranks, token))) == token + EndOfWord
  {
    var w := InitialWord(token);
    SpecialStringsAreSymbols();
    assert forall i :: 0 <= i < |w| ==> IsSymbol(w[i]) by {
      InitialWordSymbols(token);
      forall i | 0 <= i < |w|
        ensures IsSymbol(w[i])
      {
        if i < |w| - 1 {
          assert w[i] == [token[i]];
        } else {
          assert w[i] == [token[i]] + EndOfWord;
          ConcatSymbols([token[i]], EndOfWord);
        }
      }
    }
    MergeLoopSymbols(ranks, w);
    FieldsOfJoin(MergeLoop(ranks, w));
    MergeLoopSpelling(ranks, w);
    InitialWordSpelling(token);
  }

  // ---------------------------------------------------------------------
  // The loop as written

  /** The merge loop as the source writes it (tokenizer.cpp:151-175): a
      word without pairs returns at once; otherwise each round picks the
      lowest-ranked pair and leaves if it is unranked, but never merges it,
      so the word never changes. `fuel` bounds the rounds; None means the
      loop had not left when the fuel ran out. */
  function StubLoop(ranks: RankMap, w: Word, fuel: nat): (r: Option<Word>)
    ensures r.Some? ==> r.value == w
    decreases fuel
  {
    if Pairs(w) == {} then Some(w)
    else if BestPair(ranks, w).None? then Some(w)
    else if fuel == 0 then None
    else StubLoop(ranks, w, fuel - 1)
  }

  /** As written, the loop never leaves once a ranked pair is present, however
      many rounds it is given. */
  lemma {:induction false} StubLoopNeverEnds(ranks: RankMap, w: Word, fuel: nat)
    requires BestPair(ranks, w).Some?
    ensures StubLoop(ranks, w, fuel) == None
    decreases fuel
  {
    if fuel > 0 {
      StubLoopNeverEnds(ranks, w, fuel - 1);
    }
  }

  /** The ranks of the merges "l o" then "lo w". */
  function LoThenLow(): (ranks: RankMap)
  {
    Ranks([([108], [111]), ([108, 111], [119])])
  }

  /** The ranks of the merges "l o" then "lo w</w>". */
  function LoThenLowEnd(): (ranks: RankMap)
  {
    Ranks([([108], [111]), ([108, 111], [119] + EndOfWord)])
  }

  /** The initial word of "low": l, o, w</w>. */
  lemma LowInitialWord()
    ensures InitialWord([108, 111, 119]) == [[108], [111], [119] + EndOfWord]
    ensures Pairs(InitialWord([108, 111, 119])) == {([108], [111]), ([111], [119] + EndOfWord)}
  {
    var w := InitialWord([108, 111, 119]);
    assert [108, 111, 119][..2] == [108, 111];
    assert w == [[108], [111], [119] + EndOfWord];
    PairsCons(w);
    PairsCons(w[1..]);
    PairsEmpty(w[2..]);
  }

  /** The source's loop on "low" with the merge "l o" ranked: it never
      leaves. */
  lemma StubLoopHangsOnLow(fuel: nat)
    ensures StubLoop(LoThenLow(), InitialWord([108, 111, 119]), fuel) == None
  {
    LowInitialWord();
    var w := InitialWord([108, 111, 119]);
    assert ([108], [111]) in Pairs(w) && ([108], [111]) in LoThenLow();
    StubLoopNeverEnds(LoThenLow(), w, fuel);
  }

  /** The merges "l o" then "lo w" on "low": (l, o) merges first; the pair
      left, (lo, w</w>), is unranked because the second merge joins "lo"
      with a bare "w", so the word stops at "lo" and "w</w>". */
  lemma LowWithBareMerge()
    ensures MergeLoop(LoThenLow(), InitialWord([108, 111, 119])) == [[108, 111], [119] + EndOfWord]
  {
    var ranks := LoThenLow();
    var w0 := InitialWord([108, 111, 119]);
    LowInitialWord();
    assert ([111], [119] + EndOfWord) !in ranks;
    var best := BestPair(ranks, w0);
    assert best == Some(([108], [111])) by {
      assert ([108], [111]) in Pairs(w0) && ([108], [111]) in ranks;
    }
    var w1: Word := [[108, 111], [119] + EndOfWord];
    assert MergePair(w0, [108], [111]) == w1 by {
      assert w0[0] == [108] && w0[1] == [111];
      assert w0[2..] == [[119] + EndOfWord];
      assert MergePair(w0[2..], [108], [111]) == w0[2..];
      assert [108] + [111] == [108, 111];
    }
    assert BestPair(ranks, w1) == None by {
      PairsCons(w1);
      PairsEmpty(w1[1..]);
      assert ([108, 111], [119] + EndOfWord) !in ranks;
    }
  }

  /** With the second merge "lo w</w>" instead, the pair left is ranked and
      the word becomes the single symbol "low</w>". */
  lemma LowWithEndMerge()
    ensures MergeLoop(LoThenLowEnd(), InitialWord([108, 111, 119])) == [[108, 111, 119] + EndOfWord]
  {
    var ranks := LoThenLowEnd();
    var w0 := InitialWord([108, 111, 119]);
    LowInitialWord();
    assert ([111], [119] + EndOfWord) !in ranks;
    var best := BestPair(ranks, w0);
    assert best == Some(([108], [111])) by {
      assert ([108], [111]) in Pairs(w0) && ([108], [111]) in ranks;
    }
    var w1: Word := [[108, 111], [119] + EndOfWord];
    assert MergePair(w0, [108], [111]) == w1 by {
      assert w0[0] == [108] && w0[1] == [111];
      assert w0[2..] == [[119] + EndOfWord];
      assert MergePair(w0[2..], [108], [111]) == w0[2..];
      assert [108] + [111] == [108, 111];
    }
    assert BestPair(ranks, w1) == Some(([108, 111], [119] + EndOfWord)) by {
      PairsCons(w1);
      PairsEmpty(w1[1..]);
      assert ([108, 111], [119] + EndOfWord) in ranks;
    }
    assert MergePair(w1, [108, 111], [119] + EndOfWord) == [[108, 111, 119] + EndOfWord] by {
      assert w1[2..] == [];
      assert MergePair(w1[2..], [108, 111], [119] + EndOfWord) == [];
      assert [108, 111] + ([119] + EndOfWord) == [108, 111, 119] + EndOfWord;
    }
  }

  /** As the source leaves `bpe_ranks` (declared in tokeniser.h:35, never
      filled): no pair is ranked, so the loop leaves every word as it
      starts. */
  lemma UnrankedLeavesWord(w: Word)
    ensures MergeLoop(map[], w) == w
  {
    if |w| >= 2 {
      assert BestPair(map[], w).None?;
    }
  }

  /** So "low" comes out as "l o w</w>", one symbol per character. */
  lemma UnrankedLow()
    ensures Reference(map[], [108, 111, 119]) == [108, 32, 111, 32, 119] + EndOfWord
  {
    LowInitialWord();
    UnrankedLeavesWord(InitialWord([108, 111, 119]));
    var w := InitialWord([108, 111, 119]);
    assert [108, 111, 119] != StartOfText && [108, 111, 119] != EndOfText by {
      SpecialStringsAreSymbols();
    }
    assert Join(w) == [108] + [Space] + ([111] + [Space] + ([119] + EndOfWord)) by {
      assert w[1..][1..] == [[119] + EndOfWord];
    }
  }
}
