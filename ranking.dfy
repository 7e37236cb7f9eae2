/** Ranking of kept sentence pairs: `sorted(matches, key=lambda x: x[2],
    reverse=True)[:50]`. Python's sort is stable, also with `reverse=True`:
    entries with equal keys keep their original order. */
module Ranking {
  import Pairs

  /** A kept sentence pair: a sentence of the first text, a sentence of the
      second, and their stored (rounded) similarity. */
  datatype SentenceMatch = SentenceMatch(first: string, second: string, similarity: real)

  /** The cap on the number of matches returned. */
  const MaxResults: nat := 50

  /** Non-increasing by stored similarity. */
  ghost predicate SortedDesc(s: seq<SentenceMatch>) {
    forall i, j :: 0 <= i < j < |s| ==> s[i].similarity >= s[j].similarity
  }

  /** The entries whose stored similarity is `key`, in their order in `s`. */
  function WithKey(s: seq<SentenceMatch>, key: real): seq<SentenceMatch>
    decreases |s|
  {
    if s == [] then []
    else (if s[0].similarity == key then [s[0]] else []) + WithKey(s[1..], key)
  }

  /** Inserts `x` into a non-increasing sequence after every entry whose
      similarity is at least its own, so that it follows its equals. */
  function Insert(x: SentenceMatch, t: seq<SentenceMatch>): seq<SentenceMatch>
    decreases |t|
  {
    if t == [] then [x]
    else if t[0].similarity >= x.similarity then [t[0]] + Insert(x, t[1..])
    else [x] + t
  }

  /** A stable sort by descending similarity (insertion sort). */
  function SortDesc(s: seq<SentenceMatch>): seq<SentenceMatch>
    decreases |s|
  {
    if s == [] then [] else Insert(s[|s| - 1], SortDesc(s[..|s| - 1]))
  }

  /** The first `MaxResults` entries: Python's `[:50]`. */
  function Cap(s: seq<SentenceMatch>): seq<SentenceMatch> {
    if |s| <= MaxResults then s else s[..MaxResults]
  }

  /** The ranked, capped list that `get_common_sentences` returns for the
      kept pairs `kept`. */
  function Ranked(kept: seq<SentenceMatch>): seq<SentenceMatch> {
    Cap(SortDesc(kept))
  }

  // ---------------------------------------------------------------- filters

  lemma {:induction false} WithKeyAppend(s: seq<SentenceMatch>, t: seq<SentenceMatch>, key: real)
    ensures WithKey(s + t, key) == WithKey(s, key) + WithKey(t, key)
    decreases |s|
  {
    if s == [] {
      assert s + t == t;
    } else {
      var h := if s[0].similarity == key then [s[0]] else [];
      assert s + t == [s[0]] + (s[1..] + t);
      WithKeyCons(s[0], s[1..] + t, key);
      WithKeyAppend(s[1..], t, key);
      assert WithKey(s, key) == h + WithKey(s[1..], key);
      Pairs.AppendAssoc(h, WithKey(s[1..], key), WithKey(t, key));
    }
  }

  lemma {:induction false} WithKeyMembers(s: seq<SentenceMatch>, key: real)
    ensures forall x :: x in WithKey(s, key) ==> x in s && x.similarity == key
    decreases |s|
  {
    if s != [] {
      WithKeyMembers(s[1..], key);
    }
  }

  // ------------------------------------------------------------- insertion

  lemma {:induction false} InsertMultiset(x: SentenceMatch, t: seq<SentenceMatch>)
    ensures multiset(Insert(x, t)) == multiset(t) + multiset{x}
    decreases |t|
  {
    if t != [] && t[0].similarity >= x.similarity {
      InsertMultiset(x, t[1..]);
      assert t == [t[0]] + t[1..];
    }
  }

  lemma {:induction false} InsertSorted(x: SentenceMatch, t: seq<SentenceMatch>)
    requires SortedDesc(t)
    ensures SortedDesc(Insert(x, t))
    decreases |t|
  {
    if t != [] && t[0].similarity >= x.similarity {
      var rest := Insert(x, t[1..]);
      InsertSorted(x, t[1..]);
      InsertMultiset(x, t[1..]);
      forall k | 0 <= k < |rest| ensures t[0].similarity >= rest[k].similarity {
        assert rest[k] in multiset(rest);
        assert rest[k] == x || rest[k] in multiset(t[1..]);
      }
    }
  }

  /** Inserting `x` puts it after every earlier entry with the same key. */
  lemma {:induction false} InsertWithKey(x: SentenceMatch, t: seq<SentenceMatch>, key: real)
    requires SortedDesc(t)
    ensures WithKey(Insert(x, t), key) == WithKey(t, key) + (if x.similarity == key then [x] else [])
    decreases |t|
  {
    if t == [] {
    } else if t[0].similarity >= x.similarity {
      SortedTail(t);
      InsertWithKey(x, t[1..], key);
      InsertAfterHeadWithKey(x, t, key);
    } else {
      WithKeyCons(x, t, key);
      if x.similarity == key {
        NoKeyAboveHead(t, key);
      }
    }
  }

  /** The step of `InsertWithKey` where `x` goes after the head of `t`. */
  lemma InsertAfterHeadWithKey(x: SentenceMatch, t: seq<SentenceMatch>, key: real)
    requires t != [] && t[0].similarity >= x.similarity
    requires WithKey(Insert(x, t[1..]), key) == WithKey(t[1..], key) + (if x.similarity == key then [x] else [])
    ensures WithKey(Insert(x, t), key) == WithKey(t, key) + (if x.similarity == key then [x] else [])
  {
    WithKeyCons(t[0], Insert(x, t[1..]), key);
    var h := if t[0].similarity == key then [t[0]] else [];
    var e := if x.similarity == key then [x] else [];
    assert WithKey(t, key) == h + WithKey(t[1..], key);
    Pairs.AppendAssoc(h, WithKey(t[1..], key), e);
  }

  lemma SortedTail(t: seq<SentenceMatch>)
    requires SortedDesc(t) && t != []
    ensures SortedDesc(t[1..])
  {
  }

  lemma WithKeyCons(h: SentenceMatch, r: seq<SentenceMatch>, key: real)
    ensures WithKey([h] + r, key) == (if h.similarity == key then [h] else []) + WithKey(r, key)
  {
    assert ([h] + r)[1..] == r;
  }

  /** A non-increasing sequence has no entry with a key above its first. */
  lemma NoKeyAboveHead(t: seq<SentenceMatch>, key: real)
    requires SortedDesc(t) && t != [] && t[0].similarity < key
    ensures WithKey(t, key) == []
  {
    WithKeyMembers(t, key);
  }

  // ------------------------------------------------------------------ sort

  /** `SortDesc` sorts: the result is non-increasing, a permutation of the
      input, and stable: for every key, the entries with that key appear in
      the same order as in the input. */
  lemma {:induction false} SortDescCorrect(s: seq<SentenceMatch>)
    ensures SortedDesc(SortDesc(s))
    ensures multiset(SortDesc(s)) == multiset(s)
    ensures forall key :: WithKey(SortDesc(s), key) == WithKey(s, key)
    decreases |s|
  {
    if s != [] {
      var init, last := s[..|s| - 1], s[|s| - 1];
      assert s == init + [last];
      SortDescCorrect(init);
      InsertSorted(last, SortDesc(init));
      InsertMultiset(last, SortDesc(init));
      forall key ensures WithKey(SortDesc(s), key) == WithKey(s, key) {
        InsertWithKey(last, SortDesc(init), key);
        WithKeyAppend(init, [last], key);
      }
    }
  }

  /** Those three properties determine the result: any non-increasing
      sequence with the same entries per key is `SortDesc`'s. So `SortDesc`
      is the one stable descending sort, whatever algorithm computes it. */
  lemma {:induction false} StableSortUnique(a: seq<SentenceMatch>, b: seq<SentenceMatch>)
    requires SortedDesc(a) && SortedDesc(b)
    requires forall key :: WithKey(a, key) == WithKey(b, key)
    ensures a == b
    decreases |a|
  {
    SameKeysSameEmptiness(a, b);
    if a != [] {
      SameKeysSameHead(a, b);
      StableSortUnique(a[1..], b[1..]);
      assert a == [a[0]] + a[1..] && b == [b[0]] + b[1..];
    }
  }

  lemma SameKeysSameEmptiness(a: seq<SentenceMatch>, b: seq<SentenceMatch>)
    requires forall key :: WithKey(a, key) == WithKey(b, key)
    ensures a == [] <==> b == []
  {
    assert a != [] ==> WithKey(a, a[0].similarity) != [];
    assert b != [] ==> WithKey(b, b[0].similarity) != [];
  }

  /** Two non-increasing sequences with the same entries per key start with
      the same entry, and what follows has the same entries per key. */
  lemma SameKeysSameHead(a: seq<SentenceMatch>, b: seq<SentenceMatch>)
    requires a != [] && b != [] && SortedDesc(a) && SortedDesc(b)
    requires forall key :: WithKey(a, key) == WithKey(b, key)
    ensures a[0] == b[0]
    ensures forall key :: WithKey(a[1..], key) == WithKey(b[1..], key)
  {
    var k := a[0].similarity;
    HeadKeyBound(a, b);
    HeadKeyBound(b, a);
    var wa, wb := WithKey(a[1..], k), WithKey(b[1..], k);
    assert WithKey(a, k) == [a[0]] + wa;
    assert WithKey(b, k) == [b[0]] + wb;
    assert ([a[0]] + wa)[0] == a[0] && ([b[0]] + wb)[0] == b[0];
    assert ([a[0]] + wa)[1..] == wa && ([b[0]] + wb)[1..] == wb;
    forall key ensures WithKey(a[1..], key) == WithKey(b[1..], key) {
      if key != k {
        assert WithKey(a, key) == WithKey(a[1..], key);
        assert WithKey(b, key) == WithKey(b[1..], key);
      }
    }
  }

  /** The key of `a`'s first entry is a key of `b`, so it is at most the key
      of `b`'s first entry when `b` is non-increasing. */
  lemma HeadKeyBound(a: seq<SentenceMatch>, b: seq<SentenceMatch>)
    requires a != [] && b != [] && SortedDesc(b)
    requires WithKey(a, a[0].similarity) == WithKey(b, a[0].similarity)
    ensures a[0].similarity <= b[0].similarity
  {
    var key := a[0].similarity;
    assert WithKey(a, key)[0] == a[0];
    WithKeyMembers(b, key);
    var y := WithKey(b, key)[0];
    assert y in b;
    var k :| 0 <= k < |b| && b[k] == y;
    assert k == 0 || b[0].similarity >= b[k].similarity;
  }

  // ------------------------------------------------------------------- cap

  /** What the returned list is: at most `MaxResults` entries, non-increasing,
      taken from the kept pairs; all of them when there are at most
      `MaxResults`; every entry left out has a similarity no higher than any
      entry returned; and entries with equal similarity are the first ones of
      that similarity in the kept (discovery) order. */
  lemma RankedCorrect(kept: seq<SentenceMatch>)
    ensures |Ranked(kept)| == if |kept| <= MaxResults then |kept| else MaxResults
    ensures |Ranked(kept)| <= MaxResults
    ensures SortedDesc(Ranked(kept))
    ensures multiset(Ranked(kept)) <= multiset(kept)
    ensures |kept| <= MaxResults ==> multiset(Ranked(kept)) == multiset(kept)
    ensures forall x, y :: x in Ranked(kept) && y in multiset(kept) - multiset(Ranked(kept)) ==> x.similarity >= y.similarity
    ensures forall key :: IsPrefix(WithKey(Ranked(kept), key), WithKey(kept, key))
  {
    RankedEntries(kept);
    RankedLeftOutLower(kept);
    RankedKeyOrder(kept);
  }

  /** The returned entries are sorted and drawn from the kept ones. */
  lemma RankedEntries(kept: seq<SentenceMatch>)
    ensures |Ranked(kept)| == if |kept| <= MaxResults then |kept| else MaxResults
    ensures |Ranked(kept)| <= MaxResults
    ensures SortedDesc(Ranked(kept))
    ensures multiset(Ranked(kept)) <= multiset(kept)
    ensures |kept| <= MaxResults ==> multiset(Ranked(kept)) == multiset(kept)
  {
    var sorted := SortDesc(kept);
    SortDescCorrect(kept);
    var n := |Ranked(kept)|;
    assert Ranked(kept) == sorted[..n];
    SplitMultiset(sorted, n);
    assert |sorted| == |multiset(sorted)| == |kept|;
  }

  /** What the cap leaves out ranks no higher than what it keeps. */
  lemma RankedLeftOutLower(kept: seq<SentenceMatch>)
    ensures forall x, y :: x in Ranked(kept) && y in multiset(kept) - multiset(Ranked(kept)) ==> x.similarity >= y.similarity
  {
    var sorted := SortDesc(kept);
    SortDescCorrect(kept);
    var n := |Ranked(kept)|;
    assert Ranked(kept) == sorted[..n];
    SplitMultiset(sorted, n);
    RankedLeftOut(sorted, n);
    forall x, y | x in Ranked(kept) && y in multiset(kept) - multiset(Ranked(kept)) ensures x.similarity >= y.similarity {
      assert y in multiset(sorted[n..]);
      assert y in sorted[n..];
    }
  }

  /** For every key, the returned entries with that key are the first ones
      with that key in discovery order. */
  lemma RankedKeyOrder(kept: seq<SentenceMatch>)
    ensures forall key :: IsPrefix(WithKey(Ranked(kept), key), WithKey(kept, key))
  {
    var sorted := SortDesc(kept);
    SortDescCorrect(kept);
    var n := |Ranked(kept)|;
    assert Ranked(kept) == sorted[..n];
    assert sorted == sorted[..n] + sorted[n..];
    forall key ensures IsPrefix(WithKey(sorted[..n], key), WithKey(kept, key)) {
      WithKeyAppend(sorted[..n], sorted[n..], key);
    }
  }

  /** Cutting a sequence at `n` splits its entries between the two parts. */
  lemma SplitMultiset(s: seq<SentenceMatch>, n: nat)
    requires n <= |s|
    ensures multiset(s[..n]) <= multiset(s)
    ensures multiset(s) - multiset(s[..n]) == multiset(s[n..])
  {
    assert s == s[..n] + s[n..];
  }

  /** Cutting a non-increasing sequence at `n` leaves out only entries no
      higher than those kept. */
  lemma RankedLeftOut(sorted: seq<SentenceMatch>, n: nat)
    requires SortedDesc(sorted) && n <= |sorted|
    ensures forall x, y :: x in sorted[..n] && y in sorted[n..] ==> x.similarity >= y.similarity
  {
    forall x, y | x in sorted[..n] && y in sorted[n..] ensures x.similarity >= y.similarity {
      var i :| 0 <= i < n && sorted[..n][i] == x;
      var j :| 0 <= j < |sorted| - n && sorted[n..][j] == y;
      assert sorted[i] == x && sorted[n + j] == y;
    }
  }

  predicate IsPrefix(p: seq<SentenceMatch>, s: seq<SentenceMatch>) {
    |p| <= |s| && s[..|p|] == p
  }
}
