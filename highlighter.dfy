/** `highlight_text`: marks the matched sentences of one text by wrapping them
    in a highlight `<span>`. */
module Highlighter {
  import opened Strings
  import opened Ranking

  const OpenTag: string := "<span class=\"highlight\">"
  const CloseTag: string := "</span>"

  /** The characters a wrapped occurrence gains. */
  const TagLength: nat := 31

  /** `f'<span class="highlight">{sent}</span>'`. */
  function Wrap(sent: string): string {
    OpenTag + sent + CloseTag
  }

  /** `pair[idx]` with `idx` 0 or 1. */
  function Component(m: SentenceMatch, idx: nat): string
    requires idx < 2
  {
    if idx == 0 then m.first else m.second
  }

  /** The sentences the loop looks at, in order: component 0 of each match
      when `isFirst`, component 1 otherwise. */
  function Picked(matches: seq<SentenceMatch>, isFirst: bool): (r: seq<string>)
    ensures |r| == |matches|
    decreases |matches|
  {
    if matches == [] then []
    else Picked(matches[..|matches| - 1], isFirst) + [Component(matches[|matches| - 1], if isFirst then 0 else 1)]
  }

  /** One iteration: if `sent` occurs in `t`, every occurrence is wrapped. */
  function Step(t: string, sent: string): string {
    if Contains(t, sent) then Replace(t, sent, Wrap(sent)) else t
  }

  /** The loop over `sents`, starting from `text`. */
  function HighlightAll(text: string, sents: seq<string>): string
    decreases |sents|
  {
    if sents == [] then text
    else Step(HighlightAll(text, sents[..|sents| - 1]), sents[|sents| - 1])
  }

  /** `highlight_text(text, sentences, is_first)`. */
  method Highlight(text: string, matches: seq<SentenceMatch>, isFirst: bool) returns (result: string)
    ensures result == HighlightAll(text, Picked(matches, isFirst))
  {
    result := text;
    var idx := if isFirst then 0 else 1;
    for n := 0 to |matches|
      invariant result == HighlightAll(text, Picked(matches[..n], isFirst))
    {
      var sent := Component(matches[n], idx);
      PickedSnoc(matches, n, isFirst);
      HighlightSnoc(text, Picked(matches[..n], isFirst), sent);
      if Contains(result, sent) {
        result := Replace(result, sent, Wrap(sent));
      }
    }
    assert matches[..|matches|] == matches;
  }

  lemma PickedSnoc(matches: seq<SentenceMatch>, n: nat, isFirst: bool)
    requires n < |matches|
    ensures Picked(matches[..n + 1], isFirst) ==
      Picked(matches[..n], isFirst) + [Component(matches[n], if isFirst then 0 else 1)]
  {
    assert matches[..n + 1][..n] == matches[..n];
  }

  lemma HighlightSnoc(text: string, sents: seq<string>, sent: string)
    ensures HighlightAll(text, sents + [sent]) == Step(HighlightAll(text, sents), sent)
  {
    assert (sents + [sent])[..|sents|] == sents;
  }

  // -------------------------------------------------------------- a step

  /** A step changes the string exactly when the sentence occurs in it. */
  lemma StepChangesIffOccurs(t: string, sent: string)
    ensures Step(t, sent) != t <==> Occurs(sent, t)
  {
    ContainsIffOccurs(t, sent);
    if Contains(t, sent) {
      StepLength(t, sent);
      if sent != [] {
        CountPositiveIffContains(t, sent);
      }
    }
  }

  /** Each wrapped occurrence adds the two tags; with the empty sentence,
      Python's `replace` inserts the wrapped (empty) sentence at every
      position. */
  lemma StepLength(t: string, sent: string)
    ensures sent != [] ==> |Step(t, sent)| == |t| + Count(t, sent) * TagLength
    ensures sent == [] ==> |Step(t, sent)| == |t| + (|t| + 1) * TagLength
  {
    if sent != [] {
      ReplaceAllLength(t, sent, Wrap(sent));
      if !Contains(t, sent) {
        CountPositiveIffContains(t, sent);
      }
    } else {
      InsertEverywhereLength(t, Wrap(sent));
    }
  }

  /** A sentence that occurs is, after the step, present in wrapped form. */
  lemma StepWraps(t: string, sent: string)
    requires Occurs(sent, t)
    ensures Occurs(Wrap(sent), Step(t, sent))
  {
    ContainsIffOccurs(t, sent);
    if sent != [] {
      ReplaceInserts(t, sent, Wrap(sent));
    } else {
      assert OccursAt(Wrap(sent), InsertEverywhere(t, Wrap(sent)), 0);
    }
  }

  // ------------------------------------------------------------ the loop

  /** Sentences none of which occurs in the text leave it unchanged; in
      particular an empty match list returns the text as it is. */
  lemma {:induction false} HighlightAbsent(text: string, sents: seq<string>)
    requires forall k :: 0 <= k < |sents| ==> !Occurs(sents[k], text)
    ensures HighlightAll(text, sents) == text
    decreases |sents|
  {
    if sents != [] {
      var init := sents[..|sents| - 1];
      HighlightAbsent(text, init);
      ContainsIffOccurs(text, sents[|sents| - 1]);
    }
  }

  /** Highlighting only adds characters. */
  lemma {:induction false} HighlightGrows(text: string, sents: seq<string>)
    ensures |HighlightAll(text, sents)| >= |text|
    decreases |sents|
  {
    if sents != [] {
      var before := HighlightAll(text, sents[..|sents| - 1]);
      HighlightGrows(text, sents[..|sents| - 1]);
      StepLength(before, sents[|sents| - 1]);
    }
  }

  /** Every step found nothing: each sentence is absent from the string it
      is applied to. */
  ghost predicate NoStepApplies(text: string, sents: seq<string>) {
    forall k :: 0 <= k < |sents| ==> !Occurs(sents[k], HighlightAll(text, sents[..k]))
  }

  /** The result is the text unchanged exactly when no step found its
      sentence. */
  lemma {:induction false} HighlightUnchangedIff(text: string, sents: seq<string>)
    ensures HighlightAll(text, sents) == text <==> NoStepApplies(text, sents)
    decreases |sents|
  {
    if sents != [] {
      var n := |sents| - 1;
      var init := sents[..n];
      var before := HighlightAll(text, init);
      HighlightUnchangedIff(text, init);
      NoStepAppliesSnoc(text, sents);
      if before == text {
        StepChangesIffOccurs(before, sents[n]);
      } else {
        HighlightChangedIsLonger(text, init);
        StepGrows(before, sents[n]);
      }
    }
  }

  /** No step of `sents` applies exactly when none of its first `n` steps
      applies and the last sentence is absent from what they produce. */
  lemma NoStepAppliesSnoc(text: string, sents: seq<string>)
    requires sents != []
    ensures var n := |sents| - 1;
      NoStepApplies(text, sents) <==>
        NoStepApplies(text, sents[..n]) && !Occurs(sents[n], HighlightAll(text, sents[..n]))
  {
    PrefixesAgree(sents, |sents| - 1);
  }

  lemma PrefixesAgree(sents: seq<string>, n: nat)
    requires n < |sents|
    ensures forall k :: 0 <= k < n ==> sents[..n][..k] == sents[..k] && sents[..n][k] == sents[k]
    ensures sents[..n] == sents[..n][..n]
  {
  }

  /** A step never shortens the string. */
  lemma StepGrows(t: string, sent: string)
    ensures |Step(t, sent)| >= |t|
  {
    StepLength(t, sent);
  }

  /** A text that some step changed is strictly longer. */
  lemma {:induction false} HighlightChangedIsLonger(text: string, sents: seq<string>)
    ensures HighlightAll(text, sents) != text ==> |HighlightAll(text, sents)| > |text|
    decreases |sents|
  {
    if sents != [] {
      var n := |sents| - 1;
      var sent := sents[n];
      var before := HighlightAll(text, sents[..n]);
      HighlightChangedIsLonger(text, sents[..n]);
      StepLength(before, sent);
      if before == text && sent != [] && Contains(before, sent) {
        CountPositiveIffContains(before, sent);
      }
    }
  }

  /** With `isFirst` only the first components matter, and otherwise only
      the second ones. */
  lemma {:induction false} PickedUsesOneSide(a: seq<SentenceMatch>, b: seq<SentenceMatch>, isFirst: bool)
    requires |a| == |b|
    requires isFirst ==> forall k :: 0 <= k < |a| ==> a[k].first == b[k].first
    requires !isFirst ==> forall k :: 0 <= k < |a| ==> a[k].second == b[k].second
    ensures Picked(a, isFirst) == Picked(b, isFirst)
    decreases |a|
  {
    if a != [] {
      var n := |a| - 1;
      PickedUsesOneSide(a[..n], b[..n], isFirst);
    }
  }

  /** `Picked` lists the chosen component of each match, in order. */
  lemma {:induction false} PickedElements(matches: seq<SentenceMatch>, isFirst: bool)
    ensures forall k :: 0 <= k < |matches| ==>
      Picked(matches, isFirst)[k] == if isFirst then matches[k].first else matches[k].second
    decreases |matches|
  {
    if matches != [] {
      var n := |matches| - 1;
      PickedElements(matches[..n], isFirst);
    }
  }
}
