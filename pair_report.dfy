/** The analysis loop of the web front end: every unordered pair of
    documents `i < j`, in order, gets one record with its similarity score
    and a risk label. `score(i, j)` is the cosine similarity of the TF-IDF
    vectors of documents `i` and `j`. */
module PairReport {
  import opened Pairs

  const HighAbove: real := 0.5
  const ModerateAbove: real := 0.2

  /** `"HIGH" if sc > 0.5 else "MODERATE" if sc > 0.2 else "LOW"`. */
  function RiskLabel(score: real): (risk: string)
    ensures risk == "HIGH" <==> score > HighAbove
    ensures risk == "MODERATE" <==> ModerateAbove < score <= HighAbove
    ensures risk == "LOW" <==> score <= ModerateAbove
  {
    if score > HighAbove then "HIGH" else if score > ModerateAbove then "MODERATE" else "LOW"
  }

  /** The labels from least to most severe. */
  function Severity(risk: string): nat {
    if risk == "HIGH" then 2 else if risk == "MODERATE" then 1 else 0
  }

  /** A higher score never gets a less severe label. */
  lemma RiskMonotone(a: real, b: real)
    requires a <= b
    ensures Severity(RiskLabel(a)) <= Severity(RiskLabel(b))
  {
  }

  /** One entry of `res`: `{"a", "b", "score", "risk", "text_a", "text_b"}`. */
  datatype Comparison = Comparison(a: string, b: string, score: real, risk: string, textA: string, textB: string)

  /** `for j in range(i + 1, stop)`, as pairs `(i, j)`. */
  function Row(i: nat, stop: nat): (r: seq<Pair>)
    ensures |r| == if stop > i + 1 then stop - i - 1 else 0
    decreases stop
  {
    if stop <= i + 1 then [] else Row(i, stop - 1) + [(i, stop - 1)]
  }

  /** The pairs visited for the first `rows` values of `i`, among `n`
      documents. */
  function Rows(n: nat, rows: nat): seq<Pair>
    decreases rows
  {
    if rows == 0 then [] else Rows(n, rows - 1) + Row(rows - 1, n)
  }

  /** The record built for the pair `(i, j)`. */
  function RecordOf(names: seq<string>, texts: seq<string>, score: (nat, nat) -> real, p: Pair): Comparison
    requires p.0 < |names| && p.1 < |names| && |texts| == |names|
  {
    var sc := score(p.0, p.1);
    Comparison(names[p.0], names[p.1], sc, RiskLabel(sc), texts[p.0], texts[p.1])
  }

  /** `res` holds, position by position, the records of the pairs `ps`. */
  ghost predicate RecordsFor(names: seq<string>, texts: seq<string>, score: (nat, nat) -> real, ps: seq<Pair>, res: seq<Comparison>)
    requires |names| == |texts|
  {
    && |res| == |ps|
    && forall k :: 0 <= k < |res| ==>
         ps[k].0 < ps[k].1 < |texts| && res[k] == RecordOf(names, texts, score, ps[k])
  }

  /** Appending the record of one more pair keeps `RecordsFor`. */
  lemma RecordsForAppend(names: seq<string>, texts: seq<string>, score: (nat, nat) -> real,
                         ps: seq<Pair>, res: seq<Comparison>, p: Pair)
    requires |names| == |texts| && RecordsFor(names, texts, score, ps, res)
    requires p.0 < p.1 < |texts|
    ensures RecordsFor(names, texts, score, ps + [p], res + [RecordOf(names, texts, score, p)])
  {
  }

  /** The analysis loop (one record per unordered pair, appended in loop
      order). */
  method CompareAll(names: seq<string>, texts: seq<string>, score: (nat, nat) -> real)
    returns (res: seq<Comparison>)
    requires |names| == |texts|
    ensures |res| == |Rows(|texts|, |texts|)| == |names| * (|names| - 1) / 2
    ensures forall k :: 0 <= k < |res| ==>
      var p := Rows(|texts|, |texts|)[k];
      p.0 < p.1 < |texts| && res[k] == RecordOf(names, texts, score, p)
  {
    var n := |texts|;
    res := [];
    ghost var visited: seq<Pair> := [];
    for i := 0 to n
      invariant visited == Rows(n, i)
      invariant RecordsFor(names, texts, score, visited, res)
    {
      for j := i + 1 to n
        invariant visited == Rows(n, i) + Row(i, j)
        invariant RecordsFor(names, texts, score, visited, res)
      {
        var sc := score(i, j);
        var risk := RiskLabel(sc);
        RecordsForAppend(names, texts, score, visited, res, (i, j));
        res := res + [Comparison(names[i], names[j], sc, risk, texts[i], texts[j])];
        AppendAssoc(Rows(n, i), Row(i, j), [(i, j)]);
        visited := visited + [(i, j)];
      }
    }
    RowsCount(n, n);
  }

  // ----------------------------------------------------------- the pairs

  lemma {:induction false} RowMembers(i: nat, stop: nat, p: Pair)
    ensures p in Row(i, stop) <==> p.0 == i && i < p.1 < stop
    decreases stop
  {
    if stop > i + 1 {
      RowMembers(i, stop - 1, p);
    }
  }

  /** The loop visits exactly the pairs `i < j < n`. */
  lemma {:induction false} RowsMembers(n: nat, rows: nat, p: Pair)
    ensures p in Rows(n, rows) <==> p.0 < rows && p.0 < p.1 < n
    decreases rows
  {
    if rows > 0 {
      RowsMembers(n, rows - 1, p);
      RowMembers(rows - 1, n, p);
    }
  }

  /** ... in lexicographic order, each once. */
  lemma {:induction false} RowsIncreasing(n: nat, rows: nat)
    ensures StrictlyIncreasing(Rows(n, rows))
    decreases rows
  {
    if rows > 0 {
      var before, row := Rows(n, rows - 1), Row(rows - 1, n);
      RowsIncreasing(n, rows - 1);
      RowIncreasing(rows - 1, n);
      RowsBelow(n, rows - 1);
      RowAt(rows - 1, n);
      AppendIncreasing(before, row);
    }
  }

  /** Every pair of the first `rows` rows has its first index below `rows`. */
  lemma {:induction false} RowsBelow(n: nat, rows: nat)
    ensures forall k :: 0 <= k < |Rows(n, rows)| ==> Rows(n, rows)[k].0 < rows
    decreases rows
  {
    if rows > 0 {
      var before: seq<Pair>, row: seq<Pair> := Rows(n, rows - 1), Row(rows - 1, n);
      RowsBelow(n, rows - 1);
      RowAt(rows - 1, n);
      forall k | 0 <= k < |before + row| ensures (before + row)[k].0 < rows {
        if k < |before| {
          assert (before + row)[k] == before[k];
        } else {
          assert (before + row)[k] == row[k - |before|];
        }
      }
    }
  }

  /** Every pair of row `i` is `(i, j)` with `i < j < stop`. */
  lemma RowAt(i: nat, stop: nat)
    ensures forall k :: 0 <= k < |Row(i, stop)| ==> Row(i, stop)[k].0 == i && i < Row(i, stop)[k].1 < stop
  {
    forall k | 0 <= k < |Row(i, stop)| ensures Row(i, stop)[k].0 == i && i < Row(i, stop)[k].1 < stop {
      RowMembers(i, stop, Row(i, stop)[k]);
    }
  }

  lemma {:induction false} RowIncreasing(i: nat, stop: nat)
    ensures StrictlyIncreasing(Row(i, stop))
    decreases stop
  {
    if stop > i + 1 {
      var before := Row(i, stop - 1);
      RowIncreasing(i, stop - 1);
      RowAt(i, stop - 1);
      AppendIncreasing(before, [(i, stop - 1)]);
    }
  }

  /** After `rows` rows, `rows * (2n - rows - 1) / 2` pairs. */
  lemma {:induction false} RowsCount(n: nat, rows: nat)
    requires rows <= n
    ensures 2 * |Rows(n, rows)| == rows * (2 * n - rows - 1)
    ensures rows == n ==> |Rows(n, rows)| == n * (n - 1) / 2
    decreases rows
  {
    if rows > 0 {
      RowsCount(n, rows - 1);
      var r := rows - 1;
      assert |Rows(n, rows)| == |Rows(n, r)| + (n - rows);
      assert r * (2 * n - r - 1) + 2 * (n - rows) == rows * (2 * n - rows - 1) by {
        CountStep(n, rows);
      }
    }
  }

  lemma CountStep(n: int, rows: int)
    ensures (rows - 1) * (2 * n - rows) + 2 * (n - rows) == rows * (2 * n - rows - 1)
  {
  }

  /** The pairs of the analysis among `n` documents: `n (n - 1) / 2` of
      them, exactly those with `i < j < n`, in lexicographic order. */
  lemma AllPairs(n: nat)
    ensures |Rows(n, n)| == n * (n - 1) / 2
    ensures forall p :: p in Rows(n, n) <==> p.0 < p.1 < n
    ensures StrictlyIncreasing(Rows(n, n))
  {
    RowsCount(n, n);
    RowsIncreasing(n, n);
    forall p ensures p in Rows(n, n) <==> p.0 < p.1 < n {
      RowsMembers(n, n, p);
    }
  }
}
