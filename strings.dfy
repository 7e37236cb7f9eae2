/** String primitives the detector relies on: Python's `str.strip()`,
    the `in` operator on strings, and `str.replace`. */
module Strings {

  /** The characters Python's `str.strip()` removes when called without
      arguments (the code points for which `str.isspace()` holds). */
  predicate IsSpace(c: char) {
    || ('\t' <= c <= '\r')
    || ('\U{001C}' <= c <= '\U{001F}')
    || c == ' '
    || c == '\U{0085}'
    || c == '\U{00A0}'
    || c == '\U{1680}'
    || ('\U{2000}' <= c <= '\U{200A}')
    || c == '\U{2028}'
    || c == '\U{2029}'
    || c == '\U{202F}'
    || c == '\U{205F}'
    || c == '\U{3000}'
  }

  /** Drops leading whitespace: the result is the suffix of `s` after the
      longest all-whitespace prefix (see `TrimStartSpec`). */
  function TrimStart(s: string): (r: string)
    ensures |r| <= |s|
    decreases |s|
  {
    if s != [] && IsSpace(s[0]) then TrimStart(s[1..]) else s
  }

  /** Drops trailing whitespace: the result is the prefix of `s` before the
      longest all-whitespace suffix (see `TrimEndSpec`). */
  function TrimEnd(s: string): (r: string)
    ensures |r| <= |s|
    decreases |s|
  {
    if s != [] && IsSpace(s[|s| - 1]) then TrimEnd(s[..|s| - 1]) else s
  }

  /** Python's `s.strip()`. */
  function Trim(s: string): string {
    TrimEnd(TrimStart(s))
  }

  /** `TrimStart` keeps a suffix, removes only whitespace, and stops at the
      first character that is not whitespace. */
  lemma {:induction false} TrimStartSpec(s: string)
    ensures TrimStart(s) == s[|s| - |TrimStart(s)|..]
    ensures forall k :: 0 <= k < |s| - |TrimStart(s)| ==> IsSpace(s[k])
    ensures TrimStart(s) != [] ==> !IsSpace(TrimStart(s)[0])
    decreases |s|
  {
    if s != [] && IsSpace(s[0]) {
      var t := s[1..];
      TrimStartSpec(t);
      var n := |s| - |TrimStart(s)|;
      assert TrimStart(s) == t[n - 1..];
      assert t[n - 1..] == s[n..];
      forall k | 1 <= k < n ensures IsSpace(s[k]) {
        assert s[k] == t[k - 1];
      }
    }
  }

  /** `TrimEnd` keeps a prefix, removes only whitespace, and stops at the
      last character that is not whitespace. */
  lemma {:induction false} TrimEndSpec(s: string)
    ensures TrimEnd(s) == s[..|TrimEnd(s)|]
    ensures forall k :: |TrimEnd(s)| <= k < |s| ==> IsSpace(s[k])
    ensures TrimEnd(s) != [] ==> !IsSpace(TrimEnd(s)[|TrimEnd(s)| - 1])
    decreases |s|
  {
    if s != [] && IsSpace(s[|s| - 1]) {
      var t := s[..|s| - 1];
      TrimEndSpec(t);
      var n := |TrimEnd(s)|;
      assert TrimEnd(s) == t[..n];
      assert t[..n] == s[..n];
      forall k | n <= k < |s| - 1 ensures IsSpace(s[k]) {
        assert s[k] == t[k];
      }
    }
  }

  /** `Trim(s)` is the slice `s[i..j]` that is left after removing a
      whitespace prefix and a whitespace suffix, and that neither starts nor
      ends with whitespace; by `TrimmedAtUnique` no other slice qualifies. */
  lemma TrimCharacterization(s: string)
    ensures exists i, j :: TrimmedAt(s, i, j) && Trim(s) == s[i..j]
  {
    var i := |s| - |TrimStart(s)|;
    var j := i + |Trim(s)|;
    TrimSlice(s, i, j);
    TrimSuffixSpaces(s, i, j);
    TrimEnds(s, i, j);
    assert TrimmedAt(s, i, j) && Trim(s) == s[i..j];
  }

  lemma TrimSlice(s: string, i: int, j: int)
    requires i == |s| - |TrimStart(s)| && j == i + |Trim(s)|
    ensures 0 <= i <= j <= |s| && Trim(s) == s[i..j]
    ensures forall k :: 0 <= k < i ==> IsSpace(s[k])
  {
    var t := TrimStart(s);
    TrimStartSpec(s);
    TrimEndSpec(t);
    assert t == s[i..];
    assert Trim(s) == t[..j - i];
    SliceOfSuffix(s, i, j - i);
  }

  /** Taking `n` characters of the suffix from `i` is the slice `s[i..i + n]`. */
  lemma SliceOfSuffix(s: string, i: nat, n: nat)
    requires i + n <= |s|
    ensures s[i..][..n] == s[i..i + n]
  {
  }

  lemma TrimSuffixSpaces(s: string, i: int, j: int)
    requires i == |s| - |TrimStart(s)| && j == i + |Trim(s)|
    ensures forall k :: j <= k < |s| ==> IsSpace(s[k])
  {
    var t := TrimStart(s);
    TrimStartSpec(s);
    TrimEndSpec(t);
    forall k | j <= k < |s| ensures IsSpace(s[k]) {
      assert s[k] == t[k - i];
    }
  }

  lemma TrimEnds(s: string, i: int, j: int)
    requires i == |s| - |TrimStart(s)| && j == i + |Trim(s)|
    ensures i < j ==> !IsSpace(s[i]) && !IsSpace(s[j - 1])
  {
    TrimSlice(s, i, j);
    var r := Trim(s);
    var t := TrimStart(s);
    TrimStartSpec(s);
    TrimEndSpec(t);
    if i < j {
      assert r[0] == t[0];
      assert s[i] == r[0];
      assert s[j - 1] == r[|r| - 1];
    }
  }

  /** `s[i..j]` is what remains of `s` after dropping a whitespace prefix and a
      whitespace suffix, and it neither starts nor ends with whitespace. */
  predicate TrimmedAt(s: string, i: int, j: int) {
    && 0 <= i <= j <= |s|
    && (forall k :: 0 <= k < i ==> IsSpace(s[k]))
    && (forall k :: j <= k < |s| ==> IsSpace(s[k]))
    && (i < j ==> !IsSpace(s[i]) && !IsSpace(s[j - 1]))
  }

  /** Every character of `s` is whitespace. */
  predicate AllSpace(s: string) {
    forall k :: 0 <= k < |s| ==> IsSpace(s[k])
  }

  /** A trimmed slice is empty exactly when `s` is all whitespace. */
  lemma TrimmedAtEmpty(s: string, i: int, j: int)
    requires TrimmedAt(s, i, j)
    ensures i == j <==> AllSpace(s)
  {
    if i == j {
      forall k | 0 <= k < |s| ensures IsSpace(s[k]) {
        if k < i {} else {}
      }
    }
  }

  /** At most one slice of `s` satisfies `TrimmedAt`: the conditions of
      `TrimCharacterization` determine `Trim(s)`. */
  lemma TrimmedAtUnique(s: string, i: int, j: int, i2: int, j2: int)
    requires TrimmedAt(s, i, j) && TrimmedAt(s, i2, j2)
    ensures s[i..j] == s[i2..j2]
  {
    TrimmedAtEmpty(s, i, j);
    TrimmedAtEmpty(s, i2, j2);
    if !AllSpace(s) {
      assert i <= i2 && i2 <= i;
      assert j <= j2 && j2 <= j;
    }
  }

  /** Trimming twice is trimming once. */
  lemma TrimIdempotent(s: string)
    ensures Trim(Trim(s)) == Trim(s)
  {
    var t := TrimStart(s);
    var r := Trim(s);
    TrimStartSpec(s);
    TrimEndSpec(t);
    assert TrimStart(r) == r by {
      if r != [] { assert r[0] == t[0]; }
    }
    TrimEndSpec(r);
  }

  /** `needle` occurs in `hay` at some offset: Python's `needle in hay`. */
  ghost predicate Occurs(needle: string, hay: string) {
    exists i :: OccursAt(needle, hay, i)
  }

  /** `needle` occurs in `hay` starting at offset `i`. */
  predicate OccursAt(needle: string, hay: string, i: int) {
    0 <= i <= |hay| - |needle| && hay[i..i + |needle|] == needle
  }

  lemma OccursTransitive(p: string, q: string, s: string)
    requires Occurs(p, q) && Occurs(q, s)
    ensures Occurs(p, s)
  {
    var i :| OccursAt(p, q, i);
    var j :| OccursAt(q, s, j);
    forall k | 0 <= k < |p| ensures s[j + i + k] == p[k] {
      assert p[k] == q[i + k] == s[j + i + k];
    }
    assert s[j + i..j + i + |p|] == p;
    assert OccursAt(p, s, j + i);
  }

  lemma OccursInSelf(s: string)
    ensures Occurs(s, s)
  {
    assert OccursAt(s, s, 0);
  }

  /** A trimmed string occurs in the string it was trimmed from. */
  lemma TrimOccurs(s: string)
    ensures Occurs(Trim(s), s)
  {
    TrimCharacterization(s);
    var i, j :| TrimmedAt(s, i, j) && Trim(s) == s[i..j];
    assert OccursAt(Trim(s), s, i);
  }

  /** Whether `hay` starts with `needle`. */
  predicate StartsWith(hay: string, needle: string) {
    |needle| <= |hay| && hay[..|needle|] == needle
  }

  /** Python's `needle in hay`, scanning left to right. */
  function Contains(hay: string, needle: string): bool
    decreases |hay|
  {
    if |hay| < |needle| then false
    else StartsWith(hay, needle) || Contains(hay[1..], needle)
  }

  /** `Contains` decides `Occurs`, in both directions. */
  lemma {:induction false} ContainsIffOccurs(hay: string, needle: string)
    ensures Contains(hay, needle) <==> Occurs(needle, hay)
    decreases |hay|
  {
    if |hay| < |needle| {
    } else if StartsWith(hay, needle) {
      assert OccursAt(needle, hay, 0);
    } else {
      ContainsIffOccurs(hay[1..], needle);
      if Occurs(needle, hay) {
        var i :| OccursAt(needle, hay, i);
        assert i != 0;
        OccursShift(needle, hay, i);
      }
      if Occurs(needle, hay[1..]) {
        var i :| OccursAt(needle, hay[1..], i);
        OccursUnshift(needle, hay, i);
      }
    }
  }

  /** An occurrence past the first character is one in the rest. */
  lemma OccursShift(needle: string, hay: string, i: int)
    requires 1 <= i && OccursAt(needle, hay, i)
    ensures OccursAt(needle, hay[1..], i - 1)
  {
    assert hay[1..][i - 1..i - 1 + |needle|] == hay[i..i + |needle|];
  }

  /** An occurrence in the rest is one in the whole, one further on. */
  lemma OccursUnshift(needle: string, hay: string, i: int)
    requires hay != [] && OccursAt(needle, hay[1..], i)
    ensures OccursAt(needle, hay, i + 1)
  {
    assert hay[i + 1..i + 1 + |needle|] == hay[1..][i..i + |needle|];
  }

  /** Python's `s.replace(needle, repl)` for a non-empty `needle`: every
      occurrence, leftmost first and without overlaps, is replaced. */
  function ReplaceAll(s: string, needle: string, repl: string): string
    requires needle != []
    decreases |s|
  {
    if |s| < |needle| then s
    else if StartsWith(s, needle) then repl + ReplaceAll(s[|needle|..], needle, repl)
    else [s[0]] + ReplaceAll(s[1..], needle, repl)
  }

  /** `ReplaceAll` scans left to right: the first occurrence of `needle` is
      replaced, and the scan resumes right after it. With `ReplaceAbsent`
      this determines `ReplaceAll` on every input. */
  lemma {:induction false} ReplaceAllFirst(u: string, v: string, needle: string, repl: string)
    requires needle != []
    requires forall i :: 0 <= i < |u| ==> !OccursAt(needle, u + needle + v, i)
    ensures ReplaceAll(u + needle + v, needle, repl) == u + repl + ReplaceAll(v, needle, repl)
    decreases |u|
  {
    if u == [] {
      ReplaceAllAtStart(needle, v, repl);
      assert u + needle + v == needle + v;
    } else {
      var w := u + needle + v;
      var w' := u[1..] + needle + v;
      assert w[1..] == w';
      ReplaceAllNoStart(w, needle, repl);
      NoEarlierShift(u, v, needle);
      ReplaceAllFirst(u[1..], v, needle, repl);
      assert [u[0]] + (u[1..] + repl + ReplaceAll(v, needle, repl)) == u + repl + ReplaceAll(v, needle, repl);
    }
  }

  lemma ReplaceAllAtStart(needle: string, v: string, repl: string)
    requires needle != []
    ensures ReplaceAll(needle + v, needle, repl) == repl + ReplaceAll(v, needle, repl)
  {
    var w := needle + v;
    assert w[..|needle|] == needle;
    assert w[|needle|..] == v;
  }

  lemma ReplaceAllNoStart(w: string, needle: string, repl: string)
    requires needle != [] && |w| >= |needle| && !OccursAt(needle, w, 0)
    ensures ReplaceAll(w, needle, repl) == [w[0]] + ReplaceAll(w[1..], needle, repl)
  {
    assert w[0..|needle|] == w[..|needle|];
  }

  lemma NoEarlierShift(u: string, v: string, needle: string)
    requires u != []
    requires forall i :: 0 <= i < |u| ==> !OccursAt(needle, u + needle + v, i)
    ensures forall i :: 0 <= i < |u| - 1 ==> !OccursAt(needle, u[1..] + needle + v, i)
  {
    var w := u + needle + v;
    assert w[1..] == u[1..] + needle + v;
    forall i | 0 <= i < |u| - 1 ensures !OccursAt(needle, w[1..], i) {
      if OccursAt(needle, w[1..], i) {
        OccursUnshift(needle, w, i);
      }
    }
  }

  /** Python's `s.replace("", repl)`: `repl` before every character and at the end. */
  function InsertEverywhere(s: string, repl: string): string
    decreases |s|
  {
    if s == [] then repl else repl + [s[0]] + InsertEverywhere(s[1..], repl)
  }

  /** Python's `s.replace(needle, repl)`. */
  function Replace(s: string, needle: string, repl: string): string {
    if needle == [] then InsertEverywhere(s, repl) else ReplaceAll(s, needle, repl)
  }

  /** The number of occurrences that `ReplaceAll` replaces. */
  function Count(s: string, needle: string): nat
    requires needle != []
    decreases |s|
  {
    if |s| < |needle| then 0
    else if StartsWith(s, needle) then 1 + Count(s[|needle|..], needle)
    else Count(s[1..], needle)
  }

  /** Some occurrence is replaced exactly when `needle` occurs at all. */
  lemma {:induction false} CountPositiveIffContains(s: string, needle: string)
    requires needle != []
    ensures Count(s, needle) > 0 <==> Contains(s, needle)
    decreases |s|
  {
    if |s| < |needle| {
    } else if StartsWith(s, needle) {
    } else {
      CountPositiveIffContains(s[1..], needle);
    }
  }

  /** A string in which `needle` does not occur comes back unchanged. */
  lemma {:induction false} ReplaceAbsent(s: string, needle: string, repl: string)
    requires needle != [] && !Contains(s, needle)
    ensures ReplaceAll(s, needle, repl) == s
    decreases |s|
  {
    if |s| >= |needle| {
      ReplaceAbsent(s[1..], needle, repl);
      assert [s[0]] + s[1..] == s;
    }
  }

  /** Each replaced occurrence changes the length by `|repl| - |needle|`. */
  lemma {:induction false} ReplaceAllLength(s: string, needle: string, repl: string)
    requires needle != []
    ensures |ReplaceAll(s, needle, repl)| == |s| + Count(s, needle) * (|repl| - |needle|)
    decreases |s|
  {
    var d := |repl| - |needle|;
    if |s| < |needle| {
    } else if StartsWith(s, needle) {
      var rest := s[|needle|..];
      var c := Count(rest, needle);
      ReplaceAllLength(rest, needle, repl);
      assert |ReplaceAll(s, needle, repl)| == |repl| + |ReplaceAll(rest, needle, repl)|;
      assert Count(s, needle) == 1 + c;
      assert |rest| == |s| - |needle|;
      MulStep(c, d);
    } else {
      var rest := s[1..];
      ReplaceAllLength(rest, needle, repl);
      assert |ReplaceAll(s, needle, repl)| == 1 + |ReplaceAll(rest, needle, repl)|;
      assert Count(s, needle) == Count(rest, needle);
    }
  }

  lemma MulStep(c: int, d: int)
    ensures (1 + c) * d == d + c * d
  {
  }

  /** Replacing the empty string makes the string `(|s| + 1) * |repl|`
      characters longer. */
  lemma {:induction false} InsertEverywhereLength(s: string, repl: string)
    ensures |InsertEverywhere(s, repl)| == |s| + (|s| + 1) * |repl|
    decreases |s|
  {
    if s != [] {
      InsertEverywhereLength(s[1..], repl);
    }
  }

  /** Where `needle` occurs, `ReplaceAll` puts at least one `repl`. */
  lemma {:induction false} ReplaceInserts(s: string, needle: string, repl: string)
    requires needle != [] && Contains(s, needle)
    ensures Occurs(repl, ReplaceAll(s, needle, repl))
    decreases |s|
  {
    var r := ReplaceAll(s, needle, repl);
    if StartsWith(s, needle) {
      assert OccursAt(repl, r, 0);
    } else {
      var rest := ReplaceAll(s[1..], needle, repl);
      ReplaceInserts(s[1..], needle, repl);
      var i :| OccursAt(repl, rest, i);
      assert r == [s[0]] + rest;
      assert r[i + 1..i + 1 + |repl|] == rest[i..i + |repl|];
      assert OccursAt(repl, r, i + 1);
    }
  }

  /** Where slot `k` of `InsertEverywhere(s, repl)` starts: each earlier slot
      holds `repl` followed by one character of `s`. */
  function SlotStart(k: nat, repl: string): nat {
    k * (|repl| + 1)
  }

  /** Replacing the empty string puts `repl` at each of the `|s| + 1` slots
      and keeps the characters of `s`, in order, between them. */
  lemma InsertEverywhereContents(s: string, repl: string)
    ensures forall k :: 0 <= k <= |s| ==> OccursAt(repl, InsertEverywhere(s, repl), SlotStart(k, repl))
    ensures forall k :: 0 <= k < |s| ==>
      && SlotStart(k, repl) + |repl| < |InsertEverywhere(s, repl)|
      && InsertEverywhere(s, repl)[SlotStart(k, repl) + |repl|] == s[k]
  {
    InsertEverywhereSlots(s, repl);
    InsertEverywhereBetween(s, repl);
  }

  lemma {:induction false} InsertEverywhereSlots(s: string, repl: string)
    ensures forall k :: 0 <= k <= |s| ==> OccursAt(repl, InsertEverywhere(s, repl), SlotStart(k, repl))
    decreases |s|
  {
    var r := InsertEverywhere(s, repl);
    assert SlotStart(0, repl) == 0;
    assert OccursAt(repl, r, 0) by {
      assert r[..|repl|] == repl;
    }
    if s != [] {
      var t := InsertEverywhere(s[1..], repl);
      InsertEverywhereSlots(s[1..], repl);
      assert r[|repl| + 1..] == t;
      forall k | 1 <= k <= |s| ensures OccursAt(repl, r, SlotStart(k, repl)) {
        SlotStep(k, repl);
        OccursAfter(repl, r, |repl| + 1, SlotStart(k - 1, repl));
      }
    }
  }

  lemma {:induction false} InsertEverywhereBetween(s: string, repl: string)
    ensures forall k :: 0 <= k < |s| ==>
      && SlotStart(k, repl) + |repl| < |InsertEverywhere(s, repl)|
      && InsertEverywhere(s, repl)[SlotStart(k, repl) + |repl|] == s[k]
    decreases |s|
  {
    if s != [] {
      var r := InsertEverywhere(s, repl);
      var t := InsertEverywhere(s[1..], repl);
      InsertEverywhereBetween(s[1..], repl);
      assert SlotStart(0, repl) == 0;
      assert r[|repl|] == s[0];
      forall k | 1 <= k < |s|
        ensures SlotStart(k, repl) + |repl| < |r| && r[SlotStart(k, repl) + |repl|] == s[k]
      {
        SlotStep(k, repl);
        assert s[1..][k - 1] == s[k];
        assert r[SlotStart(k, repl) + |repl|] == t[SlotStart(k - 1, repl) + |repl|];
      }
    }
  }

  /** Slot `k` starts one slot after slot `k - 1`. */
  lemma SlotStep(k: nat, repl: string)
    requires k >= 1
    ensures SlotStart(k, repl) == (|repl| + 1) + SlotStart(k - 1, repl)
  {
  }

  /** An occurrence in a suffix is an occurrence in the whole string. */
  lemma OccursAfter(needle: string, hay: string, w: nat, i: int)
    requires w <= |hay| && OccursAt(needle, hay[w..], i)
    ensures OccursAt(needle, hay, w + i)
  {
    assert hay[w + i..w + i + |needle|] == hay[w..][i..i + |needle|];
  }
}
