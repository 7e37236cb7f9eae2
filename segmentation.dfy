/** Sentence segmentation of `get_common_sentences`: the text is split on
    every maximal run of `.`, `!` and `?` (the regular expression `[.!?]+`),
    each piece is trimmed, and trimmed pieces longer than the length floor are
    kept, in the order they appear. */
module Segmentation {
  import opened Strings
  import Pairs

  /** Only trimmed pieces strictly longer than this are sentences. */
  const MinLength: nat := 20

  /** The characters of the class `[.!?]`. */
  predicate IsTerminal(c: char) {
    c == '.' || c == '!' || c == '?'
  }

  predicate NoTerminal(s: string) {
    forall k :: 0 <= k < |s| ==> !IsTerminal(s[k])
  }

  predicate AllTerminal(s: string) {
    forall k :: 0 <= k < |s| ==> IsTerminal(s[k])
  }

  /** The length of the maximal run of terminal characters that starts `s`. */
  function RunLength(s: string): (n: nat)
    ensures n <= |s|
    ensures s != [] && IsTerminal(s[0]) ==> n > 0
    decreases |s|
  {
    if s != [] && IsTerminal(s[0]) then 1 + RunLength(s[1..]) else 0
  }

  /** `RunLength(s)` characters of `s` are terminal, and the next one (if
      any) is not: the run is maximal. */
  lemma {:induction false} RunLengthSpec(s: string)
    ensures AllTerminal(s[..RunLength(s)])
    ensures RunLength(s) < |s| ==> !IsTerminal(s[RunLength(s)])
    decreases |s|
  {
    if s != [] && IsTerminal(s[0]) {
      var t := s[1..];
      RunLengthSpec(t);
      var n := RunLength(s);
      if n < |s| { assert s[n] == t[n - 1]; }
      forall k | 0 <= k < n ensures IsTerminal(s[..n][k]) {
        if k > 0 { assert s[..n][k] == t[..n - 1][k - 1]; }
      }
    }
  }

  /** `re.split(r'[.!?]+', s)`: the pieces between maximal runs of terminal
      characters, including the (possibly empty) piece before the first run
      and the one after the last. */
  function Split(s: string): (r: seq<string>)
    ensures |r| >= 1
    decreases |s|
  {
    if s == [] then [""]
    else if IsTerminal(s[0]) then [""] + Split(s[RunLength(s)..])
    else
      var rest := Split(s[1..]);
      [[s[0]] + rest[0]] + rest[1..]
  }

  /** The first piece is a prefix of the text. */
  lemma {:induction false} SplitHeadPrefix(s: string)
    ensures |Split(s)[0]| <= |s| && Split(s)[0] == s[..|Split(s)[0]|]
    decreases |s|
  {
    if s != [] && !IsTerminal(s[0]) {
      var t := s[1..];
      SplitHeadPrefix(t);
      var h := Split(t)[0];
      assert Split(s)[0] == [s[0]] + h;
      assert s[..|h| + 1] == [s[0]] + t[..|h|];
    }
  }

  /** The runs of terminal characters that `Split` removes, in order. */
  function Separators(s: string): seq<string>
    decreases |s|
  {
    if s == [] then []
    else if IsTerminal(s[0]) then [s[..RunLength(s)]] + Separators(s[RunLength(s)..])
    else Separators(s[1..])
  }

  /** Puts the pieces back together with the separators between them. */
  function Join(pieces: seq<string>, seps: seq<string>): string
    requires |pieces| == |seps| + 1
    decreases |seps|
  {
    if seps == [] then pieces[0] else pieces[0] + seps[0] + Join(pieces[1..], seps[1..])
  }

  /** Splitting loses nothing: there is one separator between each two
      consecutive pieces, every separator is a non-empty run of terminal
      characters, and joining the pieces with the separators gives back the
      text, so the pieces appear in the order of the text. */
  lemma SplitRoundTrip(s: string)
    ensures |Separators(s)| == |Split(s)| - 1
    ensures forall k :: 0 <= k < |Separators(s)| ==> Separators(s)[k] != [] && AllTerminal(Separators(s)[k])
    ensures Join(Split(s), Separators(s)) == s
  {
    SeparatorsAreRuns(s);
    JoinSplit(s);
  }

  lemma {:induction false} SeparatorsAreRuns(s: string)
    ensures forall k :: 0 <= k < |Separators(s)| ==> Separators(s)[k] != [] && AllTerminal(Separators(s)[k])
    decreases |s|
  {
    if s == [] {
    } else if IsTerminal(s[0]) {
      var n := RunLength(s);
      RunLengthSpec(s);
      SeparatorsAreRuns(s[n..]);
      var rest := Separators(s[n..]);
      assert Separators(s) == [s[..n]] + rest;
      assert s[..n] != [] && AllTerminal(s[..n]);
      forall k | 1 <= k < |Separators(s)| ensures Separators(s)[k] == rest[k - 1] {}
    } else {
      SeparatorsAreRuns(s[1..]);
      assert Separators(s) == Separators(s[1..]);
    }
  }

  lemma {:induction false} JoinSplit(s: string)
    ensures |Separators(s)| == |Split(s)| - 1
    ensures Join(Split(s), Separators(s)) == s
    decreases |s|, 1
  {
    if s == [] {
      assert Split(s) == [""] && Separators(s) == [];
    } else if IsTerminal(s[0]) {
      JoinSplitRunHead(s);
    } else {
      JoinSplitWordHead(s);
    }
  }

  lemma {:induction false} JoinSplitRunHead(s: string)
    requires s != [] && IsTerminal(s[0])
    ensures |Separators(s)| == |Split(s)| - 1
    ensures Join(Split(s), Separators(s)) == s
    decreases |s|, 0
  {
    var n := RunLength(s);
    var t := s[n..];
    JoinSplit(t);
    var pieces, seps := Split(t), Separators(t);
    assert Split(s) == [""] + pieces;
    assert Separators(s) == [s[..n]] + seps;
    assert |Separators(s)| == |seps| + 1 && |Split(s)| == |pieces| + 1;
    JoinAfterRun(s[..n], pieces, seps);
    assert Join(Split(s), Separators(s)) == s[..n] + t;
    TakeDrop(s, n);
  }

  lemma TakeDrop(s: string, n: nat)
    requires n <= |s|
    ensures s[..n] + s[n..] == s
  {
  }

  lemma JoinAfterRun(r: string, pieces: seq<string>, seps: seq<string>)
    requires |pieces| == |seps| + 1
    ensures Join([""] + pieces, [r] + seps) == r + Join(pieces, seps)
  {
    var p, q := [""] + pieces, [r] + seps;
    assert p[0] == "" && q[0] == r;
    assert p[1..] == pieces && q[1..] == seps;
    var j := Join(pieces, seps);
    assert Join(p, q) == p[0] + q[0] + j;
    assert p[0] + q[0] == r;
  }

  lemma {:induction false} JoinSplitWordHead(s: string)
    requires s != [] && !IsTerminal(s[0])
    ensures |Separators(s)| == |Split(s)| - 1
    ensures Join(Split(s), Separators(s)) == s
    decreases |s|, 0
  {
    var t := s[1..];
    JoinSplit(t);
    var pieces, seps := Split(t), Separators(t);
    assert Split(s) == [[s[0]] + pieces[0]] + pieces[1..];
    assert Separators(s) == seps;
    JoinExtendsFirst([s[0]], pieces, seps);
    assert [s[0]] + t == s;
  }

  lemma {:induction false} JoinExtendsFirst(c: string, pieces: seq<string>, seps: seq<string>)
    requires |pieces| == |seps| + 1
    ensures Join([c + pieces[0]] + pieces[1..], seps) == c + Join(pieces, seps)
  {
    if seps != [] {
      assert ([c + pieces[0]] + pieces[1..])[1..] == pieces[1..];
    }
  }

  /** No piece contains a terminal character. */
  lemma {:induction false} SplitPiecesNoTerminal(s: string)
    ensures forall k :: 0 <= k < |Split(s)| ==> NoTerminal(Split(s)[k])
    decreases |s|
  {
    if s == [] {
    } else if IsTerminal(s[0]) {
      var rest := Split(s[RunLength(s)..]);
      SplitPiecesNoTerminal(s[RunLength(s)..]);
      assert Split(s) == [""] + rest;
      forall k | 1 <= k < |Split(s)| ensures Split(s)[k] == rest[k - 1] {}
    } else {
      var rest := Split(s[1..]);
      SplitPiecesNoTerminal(s[1..]);
      assert Split(s) == [[s[0]] + rest[0]] + rest[1..];
      forall k | 1 <= k < |Split(s)| ensures Split(s)[k] == rest[k] {}
      var first := [s[0]] + rest[0];
      forall k | 0 <= k < |first| ensures !IsTerminal(first[k]) {
        if k > 0 { assert first[k] == rest[0][k - 1]; }
      }
    }
  }

  /** A text without terminal characters is a single piece. */
  lemma {:induction false} SplitNoTerminal(s: string)
    requires NoTerminal(s)
    ensures Split(s) == [s]
    decreases |s|
  {
    if s != [] {
      SplitNoTerminal(s[1..]);
      assert [s[0]] + s[1..] == s;
    }
  }

  /** The trimmed pieces longer than `MinLength`, in order. */
  function Qualifying(pieces: seq<string>): seq<string>
    decreases |pieces|
  {
    if pieces == [] then [] else Keep(pieces[0]) + Qualifying(pieces[1..])
  }

  /** The sentence a single piece contributes: its trimmed form, if long enough. */
  function Keep(piece: string): seq<string> {
    var t := Trim(piece);
    if |t| > MinLength then [t] else []
  }

  /** The sentence list `s1` (or `s2`) of `get_common_sentences`. */
  function Sentences(text: string): seq<string> {
    Qualifying(Split(text))
  }

  lemma {:induction false} QualifyingAppend(p: seq<string>, q: seq<string>)
    ensures Qualifying(p + q) == Qualifying(p) + Qualifying(q)
    decreases |p|
  {
    if p != [] {
      assert (p + q)[0] == p[0];
      assert (p + q)[1..] == p[1..] + q;
      QualifyingAppend(p[1..], q);
      assert Qualifying(p + q) == Keep(p[0]) + Qualifying(p[1..] + q);
    } else {
      assert p + q == q;
    }
  }

  /** Every sentence is trimmed, longer than the floor, free of terminal
      characters and a piece of the text it came from. */
  lemma SentencesWellFormed(text: string)
    ensures forall k :: 0 <= k < |Sentences(text)| ==> SentenceOf(Sentences(text)[k], text)
    ensures forall x :: x in Sentences(text) ==> SentenceOf(x, text)
  {
    var pieces := Split(text);
    SplitPiecesNoTerminal(text);
    forall p | p in pieces ensures NoTerminal(p) && Occurs(p, text) {
      var k :| 0 <= k < |pieces| && pieces[k] == p;
      PieceOccurs(text, k);
    }
    QualifyingWellFormed(pieces, text);
    forall k | 0 <= k < |Sentences(text)| ensures SentenceOf(Sentences(text)[k], text) {
      assert Sentences(text)[k] in Sentences(text);
    }
  }

  /** Conversely, every piece whose trimmed form is longer than `MinLength`
      contributes that trimmed form. */
  lemma SentencesComplete(text: string)
    ensures forall k :: 0 <= k < |Split(text)| && |Trim(Split(text)[k])| > MinLength ==>
      Trim(Split(text)[k]) in Sentences(text)
  {
    QualifyingComplete(Split(text));
  }

  lemma {:induction false} QualifyingComplete(pieces: seq<string>)
    ensures forall k :: 0 <= k < |pieces| && |Trim(pieces[k])| > MinLength ==> Trim(pieces[k]) in Qualifying(pieces)
    decreases |pieces|
  {
    if pieces != [] {
      QualifyingComplete(pieces[1..]);
      forall k | 0 <= k < |pieces| && |Trim(pieces[k])| > MinLength ensures Trim(pieces[k]) in Qualifying(pieces) {
        if k > 0 {
          assert pieces[k] == pieces[1..][k - 1];
        }
      }
    }
  }

  /** What the source promises of each element of `s1` and `s2`. */
  ghost predicate SentenceOf(sentence: string, text: string) {
    && |sentence| > MinLength
    && Trim(sentence) == sentence
    && NoTerminal(sentence)
    && Occurs(sentence, text)
  }

  lemma QualifyingWellFormed(pieces: seq<string>, text: string)
    requires forall p :: p in pieces ==> NoTerminal(p) && Occurs(p, text)
    ensures forall x :: x in Qualifying(pieces) ==> SentenceOf(x, text)
  {
    forall x | x in Qualifying(pieces) ensures SentenceOf(x, text) {
      QualifyingFrom(pieces, x);
      var k :| 0 <= k < |pieces| && x == Trim(pieces[k]) && |x| > MinLength;
      assert pieces[k] in pieces;
      KeepWellFormed(pieces[k], text);
    }
  }

  /** Each element of `Qualifying(pieces)` is the trimmed form of a piece. */
  lemma {:induction false} QualifyingFrom(pieces: seq<string>, x: string)
    requires x in Qualifying(pieces)
    ensures exists k :: 0 <= k < |pieces| && x == Trim(pieces[k]) && |x| > MinLength
    decreases |pieces|
  {
    var kept, rest := Keep(pieces[0]), Qualifying(pieces[1..]);
    assert Qualifying(pieces) == kept + rest;
    if x in kept {
      assert x == Trim(pieces[0]);
    } else {
      assert x in rest;
      QualifyingFrom(pieces[1..], x);
      var k :| 0 <= k < |pieces[1..]| && x == Trim(pieces[1..][k]) && |x| > MinLength;
      assert pieces[1..][k] == pieces[k + 1];
    }
  }

  /** What a single piece contributes is a sentence of the text. */
  lemma KeepWellFormed(p: string, text: string)
    requires NoTerminal(p) && Occurs(p, text) && |Trim(p)| > MinLength
    ensures Keep(p) == [Trim(p)] && SentenceOf(Trim(p), text)
  {
    var t := Trim(p);
    TrimIdempotent(p);
    TrimOccurs(p);
    OccursTransitive(t, p, text);
    NoTerminalInside(t, p);
    assert |t| > MinLength && Trim(t) == t && NoTerminal(t) && Occurs(t, text);
  }

  /** A string that occurs in a string without terminal characters has none. */
  lemma NoTerminalInside(t: string, p: string)
    requires Occurs(t, p) && NoTerminal(p)
    ensures NoTerminal(t)
  {
    var i :| OccursAt(t, p, i);
    forall k | 0 <= k < |t| ensures !IsTerminal(t[k]) {
      assert t[k] == p[i + k];
    }
  }

  /** Each piece of the split occurs in the text. */
  lemma {:induction false} PieceOccurs(s: string, k: nat)
    requires k < |Split(s)|
    ensures Occurs(Split(s)[k], s)
    decreases |s|
  {
    if s == [] {
      OccursInSelf(s);
    } else if IsTerminal(s[0]) {
      var n := RunLength(s);
      if k == 0 {
        assert OccursAt("", s, 0);
      } else {
        PieceOccurs(s[n..], k - 1);
        SuffixOccurs(s, n);
        OccursTransitive(Split(s)[k], s[n..], s);
      }
    } else {
      var r := Split(s);
      if k == 0 {
        SplitHeadPrefix(s);
        assert OccursAt(r[0], s, 0);
      } else {
        PieceOccurs(s[1..], k);
        SuffixOccurs(s, 1);
        OccursTransitive(r[k], s[1..], s);
      }
    }
  }

  lemma SuffixOccurs(s: string, n: nat)
    requires n <= |s|
    ensures Occurs(s[n..], s)
  {
    assert OccursAt(s[n..], s, n);
  }

  /** The two properties in `RunLength`'s contract determine it. */
  lemma {:induction false} RunLengthUnique(s: string, n: nat)
    requires n <= |s| && AllTerminal(s[..n])
    requires n < |s| ==> !IsTerminal(s[n])
    ensures RunLength(s) == n
    decreases n
  {
    if n > 0 {
      assert s[..n][0] == s[0];
      assert s[1..][..n - 1] == s[..n][1..];
      RunLengthUnique(s[1..], n - 1);
    }
  }

  /** A run that stops inside `x` is not lengthened by what follows `x`. */
  lemma RunLengthPrefix(x: string, t: string)
    requires RunLength(x) < |x|
    ensures RunLength(x + t) == RunLength(x)
  {
    var n := RunLength(x);
    RunLengthSpec(x);
    assert (x + t)[..n] == x[..n];
    assert (x + t)[n] == x[n];
    RunLengthUnique(x + t, n);
  }

  /** A text made only of terminal characters joins the run of what follows. */
  lemma RunLengthAllTerminal(x: string, t: string)
    requires AllTerminal(x)
    ensures RunLength(x + t) == |x| + RunLength(t)
  {
    var n := RunLength(t);
    RunLengthSpec(t);
    var e := |x| + n;
    forall k | 0 <= k < e ensures IsTerminal((x + t)[..e][k]) {
      if k < |x| { assert (x + t)[k] == x[k]; } else { assert (x + t)[k] == t[k - |x|] == t[..n][k - |x|]; }
    }
    if e < |x + t| { assert (x + t)[e] == t[n]; }
    RunLengthUnique(x + t, e);
  }

  predicate EndsWithTerminal(x: string) {
    x != [] && IsTerminal(x[|x| - 1])
  }

  /** A text that ends with a terminal character splits into at least two
      pieces, the last one empty. */
  lemma {:induction false} SplitEndsEmpty(x: string)
    requires EndsWithTerminal(x)
    ensures |Split(x)| >= 2 && Split(x)[|Split(x)| - 1] == ""
    decreases |x|
  {
    if IsTerminal(x[0]) {
      var n := RunLength(x);
      var y := x[n..];
      var r := Split(y);
      assert Split(x) == [""] + r;
      if n < |x| {
        LastOfDrop(x, n);
        SplitEndsEmpty(y);
      } else {
        assert y == [];
        assert r == [""];
      }
      LastOfCons("", r);
    } else {
      var y := x[1..];
      var r := Split(y);
      LastOfDrop(x, 1);
      SplitEndsEmpty(y);
      assert Split(x) == [[x[0]] + r[0]] + r[1..];
      LastOfCons([x[0]] + r[0], r[1..]);
    }
  }

  lemma LastOfDrop(x: string, n: nat)
    requires n < |x|
    ensures x[n..] != [] && x[n..][|x[n..]| - 1] == x[|x| - 1]
  {
  }

  lemma LastOfCons(h: string, r: seq<string>)
    requires r != []
    ensures ([h] + r)[|r|] == r[|r| - 1]
  {
  }

  /** The pieces of `x` whose end is still open to what follows: all of
      them, except the empty last piece when `x` ends inside a run. */
  function OpenPieces(x: string): seq<string> {
    var s := Split(x);
    if EndsWithTerminal(x) then s[..|s| - 1] else s
  }

  /** Splitting `x + t`, where `t` starts with a terminal character, gives the
      pieces of `x` followed by the pieces after `t`'s leading run: the run that
      separates them may start inside `x`, but it never merges two pieces. */
  lemma {:induction false} SplitAppendAtRun(x: string, t: string)
    requires t != [] && IsTerminal(t[0])
    ensures Split(x + t) == OpenPieces(x) + Split(t[RunLength(t)..])
    decreases |x|, 1
  {
    if x == [] {
      assert x + t == t;
    } else if !IsTerminal(x[0]) {
      SplitAppendWordHead(x, t);
    } else if RunLength(x) == |x| {
      SplitAppendAllRun(x, t);
    } else {
      SplitAppendRunHead(x, t);
    }
  }

  /** The case of `SplitAppendAtRun` where `x` starts with a character that is
      not terminal: it joins the first piece. */
  lemma {:induction false} SplitAppendWordHead(x: string, t: string)
    requires t != [] && IsTerminal(t[0])
    requires x != [] && !IsTerminal(x[0])
    ensures Split(x + t) == OpenPieces(x) + Split(t[RunLength(t)..])
    decreases |x|, 0
  {
    var u := Split(t[RunLength(t)..]);
    var x', xt := x[1..], x + t;
    assert xt[0] == x[0];
    assert xt[1..] == x' + t;
    SplitAppendAtRun(x', t);
    var o := OpenPieces(x');
    OpenPiecesWordHead(x);
    var r := Split(x' + t);
    assert r == o + u;
    assert r[0] == o[0];
    TailOfAppend(o, u);
    assert Split(xt) == [[xt[0]] + Split(xt[1..])[0]] + Split(xt[1..])[1..];
    var head := [[x[0]] + o[0]];
    assert Split(xt) == head + (o[1..] + u);
    assert OpenPieces(x) == head + o[1..];
    Pairs.AppendAssoc(head, o[1..], u);
  }

  lemma TailOfAppend(o: seq<string>, u: seq<string>)
    requires o != []
    ensures (o + u)[1..] == o[1..] + u
  {
    forall k | 0 <= k < |o| - 1 + |u| ensures (o + u)[1..][k] == (o[1..] + u)[k] {
      if k < |o| - 1 {
        assert (o + u)[k + 1] == o[k + 1];
      } else {
        assert (o + u)[k + 1] == u[k + 1 - |o|];
      }
    }
  }

  lemma OpenPiecesWordHead(x: string)
    requires x != [] && !IsTerminal(x[0])
    ensures |OpenPieces(x[1..])| >= 1
    ensures OpenPieces(x) == [[x[0]] + OpenPieces(x[1..])[0]] + OpenPieces(x[1..])[1..]
  {
    var x' := x[1..];
    var s' := Split(x');
    assert Split(x) == [[x[0]] + s'[0]] + s'[1..];
    if x' != [] {
      assert x'[|x'| - 1] == x[|x| - 1];
    }
    if EndsWithTerminal(x') {
      SplitEndsEmpty(x');
      assert EndsWithTerminal(x);
      assert OpenPieces(x') == s'[..|s'| - 1];
      assert OpenPieces(x) == Split(x)[..|Split(x)| - 1];
    } else {
      assert !EndsWithTerminal(x);
    }
  }

  /** The case of `SplitAppendAtRun` where `x` is a run of terminal
      characters: it merges with `t`'s leading run. */
  lemma SplitAppendAllRun(x: string, t: string)
    requires t != [] && IsTerminal(t[0])
    requires x != [] && IsTerminal(x[0]) && RunLength(x) == |x|
    ensures Split(x + t) == OpenPieces(x) + Split(t[RunLength(t)..])
  {
    var n := RunLength(t);
    var xt := x + t;
    AllRunIsTerminal(x);
    RunLengthAllTerminal(x, t);
    DropAfter(x, t, n);
    assert xt[0] == x[0];
    SplitRunHead(xt);
    assert xt[RunLength(xt)..] == t[n..];
    OpenPiecesAllRun(x);
    assert Split(xt) == [""] + Split(t[n..]);
  }

  /** A text that starts with a run splits into an empty piece followed by
      the pieces after the run. */
  lemma SplitRunHead(s: string)
    requires s != [] && IsTerminal(s[0])
    ensures Split(s) == [""] + Split(s[RunLength(s)..])
  {
  }

  lemma AllRunIsTerminal(x: string)
    requires RunLength(x) == |x|
    ensures AllTerminal(x)
  {
    RunLengthSpec(x);
    assert x[..|x|] == x;
  }

  lemma DropAfter(x: string, t: string, n: nat)
    requires n <= |t|
    ensures (x + t)[|x| + n..] == t[n..]
  {
  }

  /** A text that is one run splits into two empty pieces, and only the
      first is open. */
  lemma OpenPiecesAllRun(x: string)
    requires x != [] && IsTerminal(x[0]) && RunLength(x) == |x|
    ensures OpenPieces(x) == [""]
  {
    AllRunIsTerminal(x);
    SplitRunHead(x);
    assert x[RunLength(x)..] == [];
    assert Split(x) == ["", ""];
    assert EndsWithTerminal(x);
  }

  /** The case of `SplitAppendAtRun` where `x` starts with a run that stops
      inside `x`: the run yields an empty first piece. */
  lemma {:induction false} SplitAppendRunHead(x: string, t: string)
    requires t != [] && IsTerminal(t[0])
    requires x != [] && IsTerminal(x[0]) && RunLength(x) < |x|
    ensures Split(x + t) == OpenPieces(x) + Split(t[RunLength(t)..])
    decreases |x|, 0
  {
    var m := RunLength(x);
    var u := Split(t[RunLength(t)..]);
    RunLengthPrefix(x, t);
    DropAppend(x, t, m);
    assert (x + t)[0] == x[0];
    SplitRunHead(x + t);
    SplitAppendAtRun(x[m..], t);
    OpenPiecesRunHead(x);
    Pairs.AppendAssoc([""], OpenPieces(x[m..]), u);
  }

  lemma DropAppend(x: string, t: string, m: nat)
    requires m <= |x|
    ensures (x + t)[m..] == x[m..] + t
  {
  }

  lemma OpenPiecesRunHead(x: string)
    requires x != [] && IsTerminal(x[0]) && RunLength(x) < |x|
    ensures OpenPieces(x) == [""] + OpenPieces(x[RunLength(x)..])
  {
    var y := x[RunLength(x)..];
    LastOfDrop(x, RunLength(x));
    assert EndsWithTerminal(x) == EndsWithTerminal(y);
    ConsOpen(Split(x), Split(y), EndsWithTerminal(x));
  }

  /** Dropping the last piece (when `closed`) commutes with putting an empty
      piece in front. */
  lemma ConsOpen(sx: seq<string>, sy: seq<string>, closed: bool)
    requires sy != [] && sx == [""] + sy
    ensures (if closed then sx[..|sx| - 1] else sx) == [""] + (if closed then sy[..|sy| - 1] else sy)
  {
    if closed {
      assert sx[..|sx| - 1] == [""] + sy[..|sy| - 1];
    }
  }

  /** Sentences keep source order: the sentences of `x + t`, where `t` starts
      with a terminal character, are those of `x` followed by those of `t`. */
  lemma SentencesAppend(x: string, t: string)
    requires t != [] && IsTerminal(t[0])
    ensures Sentences(x + t) == Sentences(x) + Sentences(t)
  {
    var o := OpenPieces(x);
    var u := Split(t[RunLength(t)..]);
    SplitAppendAtRun(x, t);
    QualifyingAppend(o, u);
    SentencesOfOpenPieces(x);
    SentencesAfterRun(t);
  }

  /** The empty last piece of a text ending in a run contributes no sentence. */
  lemma SentencesOfOpenPieces(x: string)
    ensures Sentences(x) == Qualifying(OpenPieces(x))
  {
    if EndsWithTerminal(x) {
      var s := Split(x);
      var o := s[..|s| - 1];
      SplitEndsEmpty(x);
      assert OpenPieces(x) == o;
      assert s == o + [s[|s| - 1]];
      assert s == o + [""];
      QualifyingAppend(o, [""]);
      EmptyPieceNoSentence();
      assert Qualifying(s) == Qualifying(o) + Qualifying([""]);
    }
  }

  lemma EmptyPieceNoSentence()
    ensures Keep("") == [] && Qualifying([""]) == []
  {
    assert Trim("") == "";
    assert [""][1..] == [];
  }

  /** The empty piece before a leading run contributes no sentence. */
  lemma SentencesAfterRun(t: string)
    requires t != [] && IsTerminal(t[0])
    ensures Sentences(t) == Qualifying(Split(t[RunLength(t)..]))
  {
    var u := Split(t[RunLength(t)..]);
    assert Split(t) == [""] + u;
    assert Keep("") == [];
    assert ([""] + u)[1..] == u;
  }
}
