/** `get_common_sentences`: segment both texts, score every pair of sentences
    (one from each text) with the TF-IDF cosine similarity, keep the pairs at
    or above the threshold, and rank them.

    The similarity comes from outside the model: `sim(i, j)` is the cosine
    similarity of sentence `i` of the first text and sentence `j` of the second
    in the TF-IDF space fitted on both sentence lists, and `fits(sentences)`
    says whether fitting that space succeeds (it raises, among others, when
    the sentences contain no token). */
module SentenceMatcher {
  import opened Strings
  import opened Segmentation
  import opened Rounding
  import opened Ranking
  import opened Pairs

  /** The default value of `threshold`. */
  const DefaultThreshold: real := 0.65

  /** The pairs the inner loop keeps in row `i`: the `(i, j)` with
      `j < cols` whose similarity reaches the threshold, in increasing `j`. */
  function RowPairs(sim: (nat, nat) -> real, threshold: real, i: nat, cols: nat): (r: seq<Pair>)
    ensures forall k :: 0 <= k < |r| ==> r[k].0 == i && r[k].1 < cols
    decreases cols
  {
    if cols == 0 then []
    else RowPairs(sim, threshold, i, cols - 1) + (if sim(i, cols - 1) >= threshold then [(i, cols - 1)] else [])
  }

  /** The pairs the nested loops keep, rows `i < rows`, in discovery order. */
  function GridPairs(sim: (nat, nat) -> real, threshold: real, rows: nat, cols: nat): (r: seq<Pair>)
    ensures forall k :: 0 <= k < |r| ==> r[k].0 < rows && r[k].1 < cols
    decreases rows
  {
    if rows == 0 then []
    else GridPairs(sim, threshold, rows - 1, cols) + RowPairs(sim, threshold, rows - 1, cols)
  }

  /** The triple `(sent1, sent2, round(sim, 3))` stored for a kept pair. */
  function MatchAt(s1: seq<string>, s2: seq<string>, sim: (nat, nat) -> real, p: Pair): SentenceMatch
    requires p.0 < |s1| && p.1 < |s2|
  {
    SentenceMatch(s1[p.0], s2[p.1], Round3(sim(p.0, p.1)))
  }

  /** The list `matches` once both loops are done. */
  function Candidates(s1: seq<string>, s2: seq<string>, sim: (nat, nat) -> real, threshold: real): seq<SentenceMatch> {
    var ps := GridPairs(sim, threshold, |s1|, |s2|);
    seq(|ps|, k requires 0 <= k < |ps| => MatchAt(s1, s2, sim, ps[k]))
  }

  /** The result for the sentence lists `s1` and `s2`: empty when either is
      empty or when fitting the TF-IDF space on `s1 + s2` fails (the source
      catches the exception), and the ranked kept triples otherwise. */
  function MatchesOf(s1: seq<string>, s2: seq<string>, threshold: real,
                     sim: (nat, nat) -> real, fits: seq<string> -> bool): seq<SentenceMatch>
  {
    if s1 == [] || s2 == [] then []
    else if !fits(s1 + s2) then []
    else Ranked(Candidates(s1, s2, sim, threshold))
  }

  /** What `get_common_sentences(text1, text2, threshold)` returns. */
  function CommonSentencesOf(text1: string, text2: string, threshold: real,
                             sim: (nat, nat) -> real, fits: seq<string> -> bool): seq<SentenceMatch>
  {
    MatchesOf(Sentences(text1), Sentences(text2), threshold, sim, fits)
  }

  /** `get_common_sentences`. */
  method CommonSentences(text1: string, text2: string, threshold: real,
                         sim: (nat, nat) -> real, fits: seq<string> -> bool)
    returns (r: seq<SentenceMatch>)
    ensures r == CommonSentencesOf(text1, text2, threshold, sim, fits)
  {
    var s1 := Sentences(text1);
    var s2 := Sentences(text2);
    if s1 == [] || s2 == [] {
      return [];
    }
    if !fits(s1 + s2) {
      return [];
    }
    var matches := ScorePairs(s1, s2, threshold, sim);
    r := Ranked(matches);
  }

  /** `matches` holds, position by position, the stored triples of the
      pairs `ps`. */
  ghost predicate MatchesFor(s1: seq<string>, s2: seq<string>, sim: (nat, nat) -> real,
                             ps: seq<Pair>, matches: seq<SentenceMatch>) {
    && |matches| == |ps|
    && forall k :: 0 <= k < |ps| ==>
         ps[k].0 < |s1| && ps[k].1 < |s2| && matches[k] == MatchAt(s1, s2, sim, ps[k])
  }

  /** Appending the triple of one more pair keeps `MatchesFor`. */
  lemma MatchesForAppend(s1: seq<string>, s2: seq<string>, sim: (nat, nat) -> real,
                         ps: seq<Pair>, matches: seq<SentenceMatch>, p: Pair)
    requires MatchesFor(s1, s2, sim, ps, matches) && p.0 < |s1| && p.1 < |s2|
    ensures MatchesFor(s1, s2, sim, ps + [p], matches + [MatchAt(s1, s2, sim, p)])
  {
  }

  /** Keeping pair `(i, j)` extends both the kept pairs of the scan and the
      triples that mirror them. */
  lemma KeepStep(s1: seq<string>, s2: seq<string>, sim: (nat, nat) -> real, threshold: real,
                 i: nat, j: nat, kept: seq<Pair>, matches: seq<SentenceMatch>)
    requires i < |s1| && j < |s2| && sim(i, j) >= threshold
    requires kept == GridPairs(sim, threshold, i, |s2|) + RowPairs(sim, threshold, i, j)
    requires MatchesFor(s1, s2, sim, kept, matches)
    ensures kept + [(i, j)] == GridPairs(sim, threshold, i, |s2|) + RowPairs(sim, threshold, i, j + 1)
    ensures MatchesFor(s1, s2, sim, kept + [(i, j)], matches + [MatchAt(s1, s2, sim, (i, j))])
  {
    MatchesForAppend(s1, s2, sim, kept, matches, (i, j));
    AppendAssoc(GridPairs(sim, threshold, i, |s2|), RowPairs(sim, threshold, i, j), [(i, j)]);
  }

  /** A pair below the threshold leaves the row's kept pairs as they are. */
  lemma SkipStep(sim: (nat, nat) -> real, threshold: real, i: nat, j: nat)
    requires sim(i, j) < threshold
    ensures RowPairs(sim, threshold, i, j + 1) == RowPairs(sim, threshold, i, j)
  {
  }

  /** A finished row closes one more row of the scan. */
  lemma RowDone(sim: (nat, nat) -> real, threshold: real, i: nat, cols: nat)
    ensures GridPairs(sim, threshold, i + 1, cols) == GridPairs(sim, threshold, i, cols) + RowPairs(sim, threshold, i, cols)
  {
  }

  /** The triples of the pairs `ps`, in order, are `Candidates` once `ps` is
      the whole scan. */
  lemma MatchesForCandidates(s1: seq<string>, s2: seq<string>, sim: (nat, nat) -> real, threshold: real,
                             matches: seq<SentenceMatch>)
    requires MatchesFor(s1, s2, sim, GridPairs(sim, threshold, |s1|, |s2|), matches)
    ensures matches == Candidates(s1, s2, sim, threshold)
  {
  }

  /** The nested loops of `get_common_sentences`: for each sentence `i` of the
      first text and each sentence `j` of the second, in that order, keep
      `(s1[i], s2[j], round(sim, 3))` when the raw similarity reaches the
      threshold. */
  method ScorePairs(s1: seq<string>, s2: seq<string>, threshold: real, sim: (nat, nat) -> real)
    returns (matches: seq<SentenceMatch>)
    ensures matches == Candidates(s1, s2, sim, threshold)
  {
    matches := [];
    ghost var kept: seq<Pair> := [];
    for i := 0 to |s1|
      invariant kept == GridPairs(sim, threshold, i, |s2|)
      invariant MatchesFor(s1, s2, sim, kept, matches)
    {
      for j := 0 to |s2|
        invariant kept == GridPairs(sim, threshold, i, |s2|) + RowPairs(sim, threshold, i, j)
        invariant MatchesFor(s1, s2, sim, kept, matches)
      {
        var score := sim(i, j);
        if score >= threshold {
          var m := SentenceMatch(s1[i], s2[j], Round3(score));
          assert m == MatchAt(s1, s2, sim, (i, j));
          KeepStep(s1, s2, sim, threshold, i, j, kept, matches);
          matches := matches + [m];
          kept := kept + [(i, j)];
        } else {
          SkipStep(sim, threshold, i, j);
        }
      }
      RowDone(sim, threshold, i, |s2|);
    }
    MatchesForCandidates(s1, s2, sim, threshold, matches);
  }

  // ------------------------------------------------------------ the scan

  /** The scan keeps exactly the pairs whose raw similarity reaches the
      threshold. */
  lemma {:induction false} GridPairsMembers(sim: (nat, nat) -> real, threshold: real, rows: nat, cols: nat, p: Pair)
    ensures p in GridPairs(sim, threshold, rows, cols) <==> p.0 < rows && p.1 < cols && sim(p.0, p.1) >= threshold
    decreases rows
  {
    if rows > 0 {
      GridPairsMembers(sim, threshold, rows - 1, cols, p);
      RowPairsMembers(sim, threshold, rows - 1, cols, p);
    }
  }

  lemma {:induction false} RowPairsMembers(sim: (nat, nat) -> real, threshold: real, i: nat, cols: nat, p: Pair)
    ensures p in RowPairs(sim, threshold, i, cols) <==> p.0 == i && p.1 < cols && sim(p.0, p.1) >= threshold
    decreases cols
  {
    if cols > 0 {
      RowPairsMembers(sim, threshold, i, cols - 1, p);
    }
  }

  /** The scan keeps pairs in increasing (i, j) order, each at most once. */
  lemma {:induction false} GridPairsIncreasing(sim: (nat, nat) -> real, threshold: real, rows: nat, cols: nat)
    ensures StrictlyIncreasing(GridPairs(sim, threshold, rows, cols))
    decreases rows
  {
    if rows > 0 {
      var g := GridPairs(sim, threshold, rows - 1, cols);
      var r := RowPairs(sim, threshold, rows - 1, cols);
      GridPairsIncreasing(sim, threshold, rows - 1, cols);
      RowPairsIncreasing(sim, threshold, rows - 1, cols);
      AppendIncreasing(g, r);
    }
  }

  lemma {:induction false} RowPairsIncreasing(sim: (nat, nat) -> real, threshold: real, i: nat, cols: nat)
    ensures StrictlyIncreasing(RowPairs(sim, threshold, i, cols))
    decreases cols
  {
    if cols > 0 {
      var r := RowPairs(sim, threshold, i, cols - 1);
      RowPairsIncreasing(sim, threshold, i, cols - 1);
      if sim(i, cols - 1) >= threshold {
        AppendIncreasing(r, [(i, cols - 1)]);
      }
    }
  }

  // ------------------------------------------------------- kept triples

  /** `m` is the stored triple of a sentence pair whose raw similarity
      reached the threshold. */
  ghost predicate KeptTriple(m: SentenceMatch, s1: seq<string>, s2: seq<string>, sim: (nat, nat) -> real, threshold: real) {
    exists i: nat, j: nat :: i < |s1| && j < |s2| && sim(i, j) >= threshold && m == MatchAt(s1, s2, sim, (i, j))
  }

  /** Every kept triple comes from a sentence pair whose raw similarity (not
      its rounded value) reached the threshold, and every such sentence pair
      contributes its triple. */
  lemma CandidatesSoundComplete(s1: seq<string>, s2: seq<string>, sim: (nat, nat) -> real, threshold: real)
    ensures forall m :: m in Candidates(s1, s2, sim, threshold) ==> KeptTriple(m, s1, s2, sim, threshold)
    ensures forall i: nat, j: nat :: i < |s1| && j < |s2| && sim(i, j) >= threshold ==>
      MatchAt(s1, s2, sim, (i, j)) in Candidates(s1, s2, sim, threshold)
  {
    var ps := GridPairs(sim, threshold, |s1|, |s2|);
    var c := Candidates(s1, s2, sim, threshold);
    forall m | m in c ensures KeptTriple(m, s1, s2, sim, threshold) {
      var k :| 0 <= k < |c| && c[k] == m;
      var p := ps[k];
      GridPairsMembers(sim, threshold, |s1|, |s2|, p);
      assert m == MatchAt(s1, s2, sim, (p.0, p.1));
    }
    forall i: nat, j: nat | i < |s1| && j < |s2| && sim(i, j) >= threshold
      ensures MatchAt(s1, s2, sim, (i, j)) in c
    {
      GridPairsMembers(sim, threshold, |s1|, |s2|, (i, j));
      var k :| 0 <= k < |ps| && ps[k] == (i, j);
      assert c[k] == MatchAt(s1, s2, sim, (i, j));
    }
  }

  /** The triples are listed in (i, j) discovery order: `Candidates` is the
      scan's pairs, in their strictly increasing order, mapped to triples. */
  lemma CandidatesInDiscoveryOrder(s1: seq<string>, s2: seq<string>, sim: (nat, nat) -> real, threshold: real)
    ensures |Candidates(s1, s2, sim, threshold)| == |GridPairs(sim, threshold, |s1|, |s2|)|
    ensures StrictlyIncreasing(GridPairs(sim, threshold, |s1|, |s2|))
    ensures forall k :: 0 <= k < |Candidates(s1, s2, sim, threshold)| ==>
      Candidates(s1, s2, sim, threshold)[k] == MatchAt(s1, s2, sim, GridPairs(sim, threshold, |s1|, |s2|)[k])
  {
    GridPairsIncreasing(sim, threshold, |s1|, |s2|);
  }

  // ------------------------------------------------------------ results

  /** Each returned triple comes from a sentence pair whose raw similarity
      reached the threshold; there are at most `MaxResults` of them, in
      non-increasing order of stored similarity. */
  lemma MatchesSound(s1: seq<string>, s2: seq<string>, threshold: real,
                     sim: (nat, nat) -> real, fits: seq<string> -> bool)
    ensures |MatchesOf(s1, s2, threshold, sim, fits)| <= MaxResults
    ensures SortedDesc(MatchesOf(s1, s2, threshold, sim, fits))
    ensures forall m :: m in MatchesOf(s1, s2, threshold, sim, fits) ==> KeptTriple(m, s1, s2, sim, threshold)
  {
    if s1 != [] && s2 != [] && fits(s1 + s2) {
      var c := Candidates(s1, s2, sim, threshold);
      var r := Ranked(c);
      RankedCorrect(c);
      CandidatesSoundComplete(s1, s2, sim, threshold);
      forall m | m in r ensures m in c {
        assert m in multiset(r);
      }
    }
  }

  /** When at most `MaxResults` pairs reach the threshold, none is dropped:
      the result holds the triple of every such pair. */
  lemma MatchesComplete(s1: seq<string>, s2: seq<string>, threshold: real,
                        sim: (nat, nat) -> real, fits: seq<string> -> bool)
    requires s1 != [] && s2 != [] && fits(s1 + s2)
    requires |Candidates(s1, s2, sim, threshold)| <= MaxResults
    ensures forall i: nat, j: nat :: i < |s1| && j < |s2| && sim(i, j) >= threshold ==>
      MatchAt(s1, s2, sim, (i, j)) in MatchesOf(s1, s2, threshold, sim, fits)
  {
    var c := Candidates(s1, s2, sim, threshold);
    RankedCorrect(c);
    CandidatesSoundComplete(s1, s2, sim, threshold);
    forall i: nat, j: nat | i < |s1| && j < |s2| && sim(i, j) >= threshold
      ensures MatchAt(s1, s2, sim, (i, j)) in Ranked(c)
    {
      assert MatchAt(s1, s2, sim, (i, j)) in multiset(c);
    }
  }

  /** The result is the first `MaxResults` entries of the stable descending
      sort of the kept triples: all of them when there are at most
      `MaxResults`, exactly `MaxResults` otherwise; entries with equal stored
      similarity are the first ones with that similarity in (i, j) discovery
      order, and every kept triple left out ranks no higher than every one
      returned. */
  lemma MatchesRanking(s1: seq<string>, s2: seq<string>, threshold: real,
                       sim: (nat, nat) -> real, fits: seq<string> -> bool)
    requires s1 != [] && s2 != [] && fits(s1 + s2)
    ensures |MatchesOf(s1, s2, threshold, sim, fits)| ==
      if |Candidates(s1, s2, sim, threshold)| <= MaxResults then |Candidates(s1, s2, sim, threshold)| else MaxResults
    ensures forall key :: IsPrefix(WithKey(MatchesOf(s1, s2, threshold, sim, fits), key),
                                   WithKey(Candidates(s1, s2, sim, threshold), key))
    ensures forall x, y ::
      (x in MatchesOf(s1, s2, threshold, sim, fits) &&
       y in multiset(Candidates(s1, s2, sim, threshold)) - multiset(MatchesOf(s1, s2, threshold, sim, fits)))
      ==> x.similarity >= y.similarity
  {
    RankedCorrect(Candidates(s1, s2, sim, threshold));
  }

  /** With a threshold that is a multiple of 0.001, such as the default 0.65,
      the stored (rounded) similarity of every returned triple still reaches
      the threshold; `Round3CanDropBelowFineThreshold` shows a finer threshold
      for which it need not. */
  lemma MatchesAboveThreshold(s1: seq<string>, s2: seq<string>, threshold: real,
                              sim: (nat, nat) -> real, fits: seq<string> -> bool)
    requires OnGrid(threshold)
    ensures forall m :: m in MatchesOf(s1, s2, threshold, sim, fits) ==> m.similarity >= threshold
  {
    MatchesSound(s1, s2, threshold, sim, fits);
    forall m | m in MatchesOf(s1, s2, threshold, sim, fits) ensures m.similarity >= threshold {
      var i: nat, j: nat :| i < |s1| && j < |s2| && sim(i, j) >= threshold && m == MatchAt(s1, s2, sim, (i, j));
      Round3KeepsGridThreshold(sim(i, j), threshold);
    }
  }

  lemma DefaultThresholdOnGrid()
    ensures OnGrid(DefaultThreshold)
  {
    assert (DefaultThreshold * 1000.0 + 0.5).Floor == 650;
  }

  /** Similarities in [0, 1] give stored similarities in [0, 1]. */
  lemma MatchesInUnitInterval(s1: seq<string>, s2: seq<string>, threshold: real,
                              sim: (nat, nat) -> real, fits: seq<string> -> bool)
    requires forall i: nat, j: nat :: 0.0 <= sim(i, j) <= 1.0
    ensures forall m :: m in MatchesOf(s1, s2, threshold, sim, fits) ==> 0.0 <= m.similarity <= 1.0
  {
    MatchesSound(s1, s2, threshold, sim, fits);
    forall m | m in MatchesOf(s1, s2, threshold, sim, fits) ensures 0.0 <= m.similarity <= 1.0 {
      var i: nat, j: nat :| i < |s1| && j < |s2| && sim(i, j) >= threshold && m == MatchAt(s1, s2, sim, (i, j));
      Round3UnitInterval(sim(i, j));
    }
  }

  /** Both sides of every returned triple are drawn from the sentence lists. */
  lemma MatchesFromLists(s1: seq<string>, s2: seq<string>, threshold: real,
                         sim: (nat, nat) -> real, fits: seq<string> -> bool)
    ensures forall m :: m in MatchesOf(s1, s2, threshold, sim, fits) ==> m.first in s1 && m.second in s2
  {
    MatchesSound(s1, s2, threshold, sim, fits);
    forall m | m in MatchesOf(s1, s2, threshold, sim, fits) ensures m.first in s1 && m.second in s2 {
      var i: nat, j: nat :| i < |s1| && j < |s2| && sim(i, j) >= threshold && m == MatchAt(s1, s2, sim, (i, j));
      assert m.first == s1[i] && m.second == s2[j];
    }
  }

  /** Both sides of every returned triple are sentences of their texts:
      trimmed, longer than `MinLength`, free of `.`, `!` and `?`, and found
      verbatim in the text. */
  lemma CommonSentencesAreSentences(text1: string, text2: string, threshold: real,
                                    sim: (nat, nat) -> real, fits: seq<string> -> bool)
    ensures forall m :: m in CommonSentencesOf(text1, text2, threshold, sim, fits) ==>
      SentenceOf(m.first, text1) && SentenceOf(m.second, text2)
  {
    var s1, s2 := Sentences(text1), Sentences(text2);
    MatchesFromLists(s1, s2, threshold, sim, fits);
    SentencesWellFormed(text1);
    SentencesWellFormed(text2);
  }

  /** A text of at most `MinLength` characters has no sentence, so comparing
      it with anything gives no match. */
  lemma ShortTextNoMatches(text1: string, text2: string, threshold: real,
                           sim: (nat, nat) -> real, fits: seq<string> -> bool)
    requires |text1| <= MinLength || |text2| <= MinLength
    ensures Sentences(text1) == [] || Sentences(text2) == []
    ensures CommonSentencesOf(text1, text2, threshold, sim, fits) == []
  {
    NoSentenceInShortText(text1);
    NoSentenceInShortText(text2);
  }

  lemma NoSentenceInShortText(text: string)
    ensures |text| <= MinLength ==> Sentences(text) == []
  {
    SentencesWellFormed(text);
    if Sentences(text) != [] {
      var x := Sentences(text)[0];
      assert SentenceOf(x, text);
      var i :| OccursAt(x, text, i);
    }
  }
}
