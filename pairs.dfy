/** Index pairs, the order in which nested `for i ...: for j ...` loops
    visit them, and a fact about sequence concatenation the other modules share. */
module Pairs {

  /** Position `i` of the first list and position `j` of the second (or of
      the same list). */
  type Pair = (nat, nat)

  /** Lexicographic order on pairs: the order of the nested loops. */
  predicate LexLess(p: Pair, q: Pair) {
    p.0 < q.0 || (p.0 == q.0 && p.1 < q.1)
  }

  /** Visited in loop order, each at most once. */
  predicate StrictlyIncreasing(ps: seq<Pair>) {
    forall a, b :: 0 <= a < b < |ps| ==> LexLess(ps[a], ps[b])
  }

  /** Concatenation is associative; a hint for the solver where sequence
      equality is needed. */
  lemma AppendAssoc<T>(a: seq<T>, b: seq<T>, c: seq<T>)
    ensures a + (b + c) == (a + b) + c
  {
  }

  lemma AppendIncreasing(a: seq<Pair>, b: seq<Pair>)
    requires StrictlyIncreasing(a) && StrictlyIncreasing(b)
    requires forall x, y :: 0 <= x < |a| && 0 <= y < |b| ==> LexLess(a[x], b[y])
    ensures StrictlyIncreasing(a + b)
  {
    forall x, y | 0 <= x < y < |a + b| ensures LexLess((a + b)[x], (a + b)[y]) {
      if y < |a| {
        assert (a + b)[x] == a[x] && (a + b)[y] == a[y];
      } else if x < |a| {
        assert (a + b)[x] == a[x] && (a + b)[y] == b[y - |a|];
      } else {
        assert (a + b)[x] == b[x - |a|] && (a + b)[y] == b[y - |a|];
      }
    }
  }
}
