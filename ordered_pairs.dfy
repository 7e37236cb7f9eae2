/** The command-line detector: `check_plagiarism` compares every document
    with every other one and collects `(a, b, score)` triples, for both
    orientations of each pair, in a set.

    A document is its file name together with its TF-IDF vector; the model
    keeps the names, and the vectors only through their position: `score(p, q)`
    is the cosine similarity of the vectors at positions `p` and `q`. */
module OrderedPairs {

  /** An element of `plagiarism_results`. */
  datatype Triple = Triple(a: string, b: string, score: real)

  ghost predicate Distinct(names: seq<string>) {
    forall p, q :: 0 <= p < q < |names| ==> names[p] != names[q]
  }

  /** `list.index`: the first position holding `x`. */
  function IndexOf(s: seq<string>, x: string): (k: nat)
    requires x in s
    ensures k < |s| && s[k] == x
    ensures forall j :: 0 <= j < k ==> s[j] != x
  {
    if s[0] == x then 0 else 1 + IndexOf(s[1..], x)
  }

  /** The original position of element `c` of the list with position `k`
      deleted. */
  function Skip(c: nat, k: nat): nat {
    if c < k then c else c + 1
  }

  /** The triples the inner loop adds for document `p`, in order. */
  function RowTriples(names: seq<string>, score: (nat, nat) -> real, p: nat): (r: seq<Triple>)
    requires p < |names|
    ensures |r| == |names| - 1
  {
    var k := IndexOf(names, names[p]);
    seq(|names| - 1, c requires 0 <= c < |names| - 1 => Triple(names[p], names[Skip(c, k)], score(p, Skip(c, k))))
  }

  /** The triples the loops add for the first `rows` documents, in order. */
  function Generated(names: seq<string>, score: (nat, nat) -> real, rows: nat): seq<Triple>
    requires rows <= |names|
    decreases rows
  {
    if rows == 0 then [] else Generated(names, score, rows - 1) + RowTriples(names, score, rows - 1)
  }

  function Elements(s: seq<Triple>): set<Triple> {
    set x | x in s
  }

  lemma ElementsAppend(s: seq<Triple>, t: seq<Triple>)
    ensures Elements(s + t) == Elements(s) + Elements(t)
  {
  }

  class Detector {
    /** The file names of `s_vectors`, in order. */
    var entries: seq<string>
    /** `plagiarism_results`. */
    var results: set<Triple>

    constructor(names: seq<string>)
      ensures entries == names && results == {}
    {
      entries := names;
      results := {};
    }

    /** `check_plagiarism()`. */
    method CheckPlagiarism(score: (nat, nat) -> real)
      modifies this`results
      ensures entries == old(entries)
      ensures results == old(results) + Elements(Generated(entries, score, |entries|))
    {
      var names := entries;
      for p := 0 to |names|
        invariant results == old(results) + Elements(Generated(names, score, p))
      {
        var copy := names;
        var k := IndexOf(copy, names[p]);
        copy := copy[..k] + copy[k + 1..];
        ghost var row := RowTriples(names, score, p);
        ghost var before := results;
        for c := 0 to |copy|
          invariant results == before + Elements(row[..c])
        {
          var q := if c < k then c else c + 1;
          DeleteAt(names, k, c);
          RowTriplesAt(names, score, p, c);
          results := results + {Triple(names[p], copy[c], score(p, q))};
          ElementsSnoc(row, c);
          UnionAssoc(before, Elements(row[..c]), {row[c]});
        }
        assert row[..|copy|] == row;
        ElementsAppend(Generated(names, score, p), row);
        UnionAssoc(old(results), Elements(Generated(names, score, p)), Elements(row));
      }
    }
  }

  /** Element `c` of the list with position `k` deleted is element
      `Skip(c, k)` of the list. */
  lemma DeleteAt(s: seq<string>, k: nat, c: nat)
    requires k < |s| && c < |s| - 1
    ensures (s[..k] + s[k + 1..])[c] == s[Skip(c, k)]
  {
  }

  lemma RowTriplesAt(names: seq<string>, score: (nat, nat) -> real, p: nat, c: nat)
    requires p < |names| && c < |names| - 1
    ensures var k := IndexOf(names, names[p]);
      RowTriples(names, score, p)[c] == Triple(names[p], names[Skip(c, k)], score(p, Skip(c, k)))
  {
  }

  lemma UnionAssoc(a: set<Triple>, b: set<Triple>, c: set<Triple>)
    ensures (a + b) + c == a + (b + c)
  {
  }

  lemma ElementsSnoc(s: seq<Triple>, c: nat)
    requires c < |s|
    ensures Elements(s[..c + 1]) == Elements(s[..c]) + {s[c]}
  {
    assert s[..c + 1] == s[..c] + [s[c]];
    ElementsAppend(s[..c], [s[c]]);
  }

  // --------------------------------------------------------- properties

  /** With distinct names, `index` finds the document's own position. */
  lemma IndexOfOwn(names: seq<string>, p: nat)
    requires Distinct(names) && p < |names|
    ensures IndexOf(names, names[p]) == p
  {
    var k := IndexOf(names, names[p]);
    assert names[k] == names[p];
  }

  /** Every document is compared with the `n - 1` others: `n (n - 1)` triples
      are generated, whatever the names. */
  lemma {:induction false} GeneratedLength(names: seq<string>, score: (nat, nat) -> real, rows: nat)
    requires rows <= |names|
    ensures |Generated(names, score, rows)| == rows * (|names| - 1)
    decreases rows
  {
    if rows > 0 {
      var m := |names| - 1;
      GeneratedLength(names, score, rows - 1);
      assert |Generated(names, score, rows)| == |Generated(names, score, rows - 1)| + m;
      assert (rows - 1) * m + m == rows * m;
    }
  }

  /** The triples of document `p` are those with each other position `q`. */
  lemma RowTriplesMembers(names: seq<string>, score: (nat, nat) -> real, p: nat, t: Triple)
    requires Distinct(names) && p < |names|
    ensures t in RowTriples(names, score, p) <==>
      exists q :: 0 <= q < |names| && q != p && t == Triple(names[p], names[q], score(p, q))
  {
    IndexOfOwn(names, p);
    var row := RowTriples(names, score, p);
    if t in row {
      var c :| 0 <= c < |row| && row[c] == t;
      assert t == Triple(names[p], names[Skip(c, p)], score(p, Skip(c, p)));
    }
    if exists q :: 0 <= q < |names| && q != p && t == Triple(names[p], names[q], score(p, q)) {
      var q :| 0 <= q < |names| && q != p && t == Triple(names[p], names[q], score(p, q));
      var c := if q < p then q else q - 1;
      assert Skip(c, p) == q;
      assert row[c] == t;
    }
  }

  /** `t` is the triple of two distinct positions `p` (among the first
      `rows`) and `q`. */
  ghost predicate TripleOf(names: seq<string>, score: (nat, nat) -> real, rows: nat, t: Triple) {
    exists p, q :: 0 <= p < rows && 0 <= q < |names| && p != q && p < |names| &&
      t == Triple(names[p], names[q], score(p, q))
  }

  lemma {:induction false} GeneratedMembers(names: seq<string>, score: (nat, nat) -> real, rows: nat, t: Triple)
    requires Distinct(names) && rows <= |names|
    ensures t in Generated(names, score, rows) <==> TripleOf(names, score, rows, t)
    decreases rows
  {
    if rows > 0 {
      GeneratedMembers(names, score, rows - 1, t);
      RowTriplesMembers(names, score, rows - 1, t);
      if TripleOf(names, score, rows, t) {
        var p, q :| 0 <= p < rows && 0 <= q < |names| && p != q && p < |names| &&
          t == Triple(names[p], names[q], score(p, q));
        if p < rows - 1 {
          assert TripleOf(names, score, rows - 1, t);
        }
      }
    }
  }

  /** With distinct names the results are exactly the triples of pairs of
      distinct positions, in both orientations; no document is paired with
      itself.  */
  lemma AllOrderedPairs(names: seq<string>, score: (nat, nat) -> real)
    requires Distinct(names)
    ensures forall p, q :: 0 <= p < |names| && 0 <= q < |names| && p != q ==>
      Triple(names[p], names[q], score(p, q)) in Elements(Generated(names, score, |names|))
    ensures forall t :: t in Elements(Generated(names, score, |names|)) ==>
      TripleOf(names, score, |names|, t) && t.a != t.b
  {
    forall p, q | 0 <= p < |names| && 0 <= q < |names| && p != q
      ensures Triple(names[p], names[q], score(p, q)) in Elements(Generated(names, score, |names|))
    {
      GeneratedMembers(names, score, |names|, Triple(names[p], names[q], score(p, q)));
    }
    forall t | t in Elements(Generated(names, score, |names|))
      ensures TripleOf(names, score, |names|, t) && t.a != t.b
    {
      GeneratedMembers(names, score, |names|, t);
    }
  }

  /** With distinct names no triple is generated twice, so the set ends with
      exactly `n (n - 1)` triples. */
  lemma ResultCount(names: seq<string>, score: (nat, nat) -> real)
    requires Distinct(names)
    ensures |Elements(Generated(names, score, |names|))| == |names| * (|names| - 1)
  {
    var g := Generated(names, score, |names|);
    GeneratedLength(names, score, |names|);
    GeneratedNoRepeats(names, score, |names|);
    DistinctElements(g);
  }

  /** No triple occurs twice in the generated sequence. */
  ghost predicate NoRepeats(s: seq<Triple>) {
    forall x, y :: 0 <= x < y < |s| ==> s[x] != s[y]
  }

  lemma {:induction false} GeneratedNoRepeats(names: seq<string>, score: (nat, nat) -> real, rows: nat)
    requires Distinct(names) && rows <= |names|
    ensures NoRepeats(Generated(names, score, rows))
    decreases rows
  {
    if rows > 0 {
      var p := rows - 1;
      var before, row := Generated(names, score, p), RowTriples(names, score, p);
      GeneratedNoRepeats(names, score, p);
      RowNoRepeats(names, score, p);
      forall x, y | 0 <= x < |before| && 0 <= y < |row| ensures before[x] != row[y] {
        GeneratedFirstNames(names, score, p, before[x]);
      }
      AppendNoRepeats(before, row);
    }
  }

  /** The triples of document `p` all start with its name and differ in the
      second. */
  lemma RowNoRepeats(names: seq<string>, score: (nat, nat) -> real, p: nat)
    requires Distinct(names) && p < |names|
    ensures NoRepeats(RowTriples(names, score, p))
    ensures forall t :: t in RowTriples(names, score, p) ==> t.a == names[p]
  {
    var row := RowTriples(names, score, p);
    IndexOfOwn(names, p);
    forall x, y | 0 <= x < y < |row| ensures row[x] != row[y] {
      assert row[x].b == names[Skip(x, p)] && row[y].b == names[Skip(y, p)];
    }
  }

  /** The triples of the first `rows` documents start with one of their
      names. */
  lemma {:induction false} GeneratedFirstNames(names: seq<string>, score: (nat, nat) -> real, rows: nat, t: Triple)
    requires rows <= |names| && t in Generated(names, score, rows)
    ensures exists i :: 0 <= i < rows && names[i] == t.a
    decreases rows
  {
    var p := rows - 1;
    if t in Generated(names, score, p) {
      GeneratedFirstNames(names, score, p, t);
    } else {
      assert t in RowTriples(names, score, p);
      assert names[p] == t.a;
    }
  }

  lemma AppendNoRepeats(a: seq<Triple>, b: seq<Triple>)
    requires NoRepeats(a) && NoRepeats(b)
    requires forall x, y :: 0 <= x < |a| && 0 <= y < |b| ==> a[x] != b[y]
    ensures NoRepeats(a + b)
  {
    forall x, y | 0 <= x < y < |a + b| ensures (a + b)[x] != (a + b)[y] {
      if y < |a| {
        assert (a + b)[x] == a[x] && (a + b)[y] == a[y];
      } else if x < |a| {
        assert (a + b)[x] == a[x] && (a + b)[y] == b[y - |a|];
      } else {
        assert (a + b)[x] == b[x - |a|] && (a + b)[y] == b[y - |a|];
      }
    }
  }

  /** A sequence without repeats has as many elements as its set. */
  lemma {:induction false} DistinctElements(s: seq<Triple>)
    requires NoRepeats(s)
    ensures |Elements(s)| == |s|
    decreases |s|
  {
    if s != [] {
      var n := |s| - 1;
      DistinctElements(s[..n]);
      assert Elements(s) == Elements(s[..n]) + {s[n]} by {
        assert s == s[..n] + [s[n]];
      }
      assert s[n] !in Elements(s[..n]);
    }
  }

  /** A symmetric score gives each unordered pair its score in both
      orientations. */
  lemma SymmetricScores(names: seq<string>, score: (nat, nat) -> real, p: nat, q: nat)
    requires Distinct(names) && p < |names| && q < |names| && p != q
    requires score(p, q) == score(q, p)
    ensures Triple(names[p], names[q], score(p, q)) in Elements(Generated(names, score, |names|))
    ensures Triple(names[q], names[p], score(p, q)) in Elements(Generated(names, score, |names|))
  {
    AllOrderedPairs(names, score);
  }
}
