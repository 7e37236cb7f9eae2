# Plagiarism detector: verified model of the matching core

This project models the text-matching logic of a small plagiarism detector
written in Python.

The web front end (`plagr_app.py`) does three things:
- It compares every unordered pair of uploaded documents, scores them and labels the risk.
- It finds the sentence pairs that two texts have in common.
- It highlights those sentences in each text.

The command-line script (`plagr.py`) compares every document with every other
one and collects ordered `(a, b, score)` triples in a set.

The numbers come from scikit-learn: TF-IDF vectors and cosine similarity. The
model takes them as given functions:

- `sim(i, j)` is the similarity of sentence `i` of the first text and sentence
  `j` of the second.
- `score(i, j)` is the similarity of documents `i` and `j`.
- `fits(sentences)` says whether fitting the TF-IDF vectorizer on the
  sentence list succeeds. When it does not, the source catches the exception.

Everything built around these functions is modelled as the source does it,
except for the differences listed under "## Left out" (the rounding at and near
halfway values, and `list.index` comparing names). This covers:
- splitting a text on runs of `.`, `!` and `?`;
- Python's `str.strip()` with its full whitespace set;
- the length floor of 20;
- the threshold test on the raw similarity, and the rounding to 3 decimals stored afterwards;
- the stable descending sort and the cap at 50;
- `str.replace`, the highlight markup, the risk label and the two pair loops.

Modules, one per concern of the source:

| file | module | models |
|---|---|---|
| strings.dfy | `Strings` | `str.strip()`, `in` on strings, `str.replace` |
| segmentation.dfy | `Segmentation` | the two sentence-list comprehensions of `get_common_sentences` |
| rounding.dfy | `Rounding` | `round(sim, 3)` |
| ranking.dfy | `Ranking` | `sorted(matches, key=..., reverse=True)[:50]` |
| pairs.dfy | `Pairs` | index pairs and nested-loop order |
| sentence_matcher.dfy | `SentenceMatcher` | `get_common_sentences` |
| highlighter.dfy | `Highlighter` | `highlight_text` |
| pair_report.dfy | `PairReport` | the analysis loop with the risk label |
| ordered_pairs.dfy | `OrderedPairs` | `check_plagiarism` and `plagiarism_results` |

The risk thresholds and labels are those of `plagr_app.py` line 229: HIGH
above 0.5, MODERATE above 0.2 and up to 0.5, and LOW otherwise.

The loops of the source are methods with loop invariants. Each is proved equal
to a specification function:

| method | specification function |
|---|---|
| `SentenceMatcher.CommonSentences` | `CommonSentencesOf` |
| `SentenceMatcher.ScorePairs` | `Candidates` |
| `Highlighter.Highlight` | `HighlightAll(text, Picked(...))` |
| `PairReport.CompareAll` | `Rows` and `RecordOf` |

The lemmas are stated about those specification functions.
`plagiarism_results` is updated in place, so `check_plagiarism` is a method of
the class `OrderedPairs.Detector`.

## Model

| member | source | states |
|---|---|---|
| Strings.IsSpace | plagr_app.py:152-153 | defined by its body: the characters for which `str.isspace()` holds, the set `strip()` removes; used by TrimStartSpec and TrimEndSpec |
| Strings.TrimStart | plagr_app.py:152-153 | drops leading whitespace; the result is no longer than its input; characterized by TrimStartSpec |
| Strings.TrimEnd | plagr_app.py:152-153 | drops trailing whitespace; the result is no longer than its input; characterized by TrimEndSpec |
| Strings.Trim | plagr_app.py:152-153 | `s.strip()`: defined by its body; characterized by TrimCharacterization and TrimmedAtUnique |
| Strings.TrimStartSpec | plagr_app.py:152-153 | stripping the front keeps a suffix; everything removed is whitespace; the result does not start with whitespace |
| Strings.TrimEndSpec | plagr_app.py:152-153 | stripping the end keeps a prefix; everything removed is whitespace; the result does not end with whitespace |
| Strings.TrimCharacterization | plagr_app.py:152-153 | `strip()` returns the slice left after dropping a whitespace prefix and suffix, and that slice neither starts nor ends with whitespace |
| Strings.TrimmedAtUnique | plagr_app.py:152-153 | at most one slice meets the conditions of TrimCharacterization, so they determine `strip()` |
| Strings.TrimIdempotent | plagr_app.py:152-153 | stripping twice is stripping once |
| Strings.TrimOccurs | plagr_app.py:152-153 | a stripped string is a substring of its original |
| Strings.Contains | plagr_app.py:175 | `sent in result`: defined by its body, a left-to-right scan; characterized by ContainsIffOccurs |
| Strings.ReplaceAll | plagr_app.py:176 | `str.replace` with a non-empty needle, replacing leftmost occurrences without overlap: defined by its body; characterized by ReplaceAllFirst and ReplaceAbsent, which together determine it, and by ReplaceAllLength and ReplaceInserts |
| Strings.InsertEverywhere | plagr_app.py:176 | `str.replace` with the empty needle: defined by its body; characterized by InsertEverywhereLength and InsertEverywhereContents |
| Strings.Replace | plagr_app.py:176 | `str.replace`: defined by its body, choosing InsertEverywhere for the empty needle and ReplaceAll otherwise |
| Strings.Count | plagr_app.py:176 | the number of occurrences `replace` replaces: defined by its body; characterized by CountPositiveIffContains and ReplaceAllLength |
| Strings.ContainsIffOccurs | plagr_app.py:175 | `sent in result` holds exactly when `sent` occurs at some offset of `result` |
| Strings.CountPositiveIffContains | plagr_app.py:175-176 | `replace` replaces at least one occurrence exactly when the needle is present |
| Strings.ReplaceAllFirst | plagr_app.py:176 | `replace` scans left to right: when `needle` first occurs right after `u`, the result is `u`, then `repl`, then the replacement of the rest after that occurrence |
| Strings.ReplaceAbsent | plagr_app.py:175-176 | replacing an absent needle leaves the string unchanged |
| Strings.ReplaceAllLength | plagr_app.py:176 | each replaced occurrence changes the length by the length difference of replacement and needle |
| Strings.InsertEverywhereLength | plagr_app.py:176 | `replace("", r)` on a string of length `n` is `(n + 1) * |r|` characters longer |
| Strings.InsertEverywhereContents | plagr_app.py:176 | `replace("", r)` holds `r` at each of the `n + 1` slots, with the characters of the string, in order, between them |
| Strings.ReplaceInserts | plagr_app.py:176 | when the needle is present, the replacement appears in the result |
| Segmentation.RunLength | plagr_app.py:152-153 | the length of the leading run of `.`, `!`, `?` that `re.split` consumes: at most the text's length, positive when the text starts with one; characterized by RunLengthSpec |
| Segmentation.RunLengthSpec | plagr_app.py:152-153 | `RunLength` measures the maximal leading run of `.`, `!`, `?`: all of it is terminal and the next character is not |
| Segmentation.Split | plagr_app.py:152-153 | `re.split('[.!?]+')` gives at least one piece |
| Segmentation.SplitHeadPrefix | plagr_app.py:152-153 | the first piece of the split is a prefix of the text |
| Segmentation.SplitRunHead | plagr_app.py:152-153 | a text that starts with a run splits into an empty piece followed by the pieces after the run |
| Segmentation.SplitPiecesNoTerminal | plagr_app.py:152-153 | no piece of the split contains `.`, `!` or `?` |
| Segmentation.SplitRoundTrip | plagr_app.py:152-153 | the pieces joined with the removed non-empty terminal runs give back the text |
| Segmentation.SplitNoTerminal | plagr_app.py:152-153 | a text without terminal characters is one piece |
| Segmentation.Keep | plagr_app.py:152-153 | what one piece contributes: `[s.strip()]` when that is longer than 20, nothing otherwise; defined by its body; characterized by SentencesWellFormed and SentencesComplete |
| Segmentation.Qualifying | plagr_app.py:152-153 | the comprehension over the pieces of the split, in order: defined by its body; characterized by QualifyingAppend, SentencesWellFormed and SentencesComplete |
| Segmentation.Sentences | plagr_app.py:152-153 | the list `s1` (or `s2`) of a text: defined by its body; characterized by SentencesWellFormed, SentencesComplete and SentencesAppend |
| Segmentation.QualifyingAppend | plagr_app.py:152-153 | the comprehension's filter maps concatenation to concatenation |
| Segmentation.SentencesWellFormed | plagr_app.py:152-153 | every sentence is stripped, longer than 20, free of `.`, `!`, `?` and a substring of its text |
| Segmentation.SentencesComplete | plagr_app.py:152-153 | every piece whose stripped form is longer than 20 contributes that form |
| Segmentation.SplitAppendAtRun | plagr_app.py:152-153 | splitting `x + t`, with `t` starting at a terminal run, splits `x` and the rest of `t` separately |
| Segmentation.SentencesAppend | plagr_app.py:152-153 | sentences keep source order: the sentences of `x + t` are those of `x` followed by those of `t` when `t` starts with a terminal character |
| Rounding.Round3 | plagr_app.py:165 | `round(sim, 3)` lies within 0.0005 of `sim` |
| Rounding.Round3Monotone | plagr_app.py:165 | rounding preserves order |
| Rounding.Round3Idempotent | plagr_app.py:165 | a rounded value is a fixed point of rounding |
| Rounding.Round3UnitInterval | plagr_app.py:165 | a similarity in [0, 1] stays in [0, 1] |
| Rounding.Round3KeepsGridThreshold | plagr_app.py:164-165 | a raw value at or above a threshold that is a multiple of 0.001 keeps the rounded value at or above it |
| Rounding.Round3CanDropBelowFineThreshold | plagr_app.py:164-165 | without a threshold on the 0.001 grid the guarantee fails: 0.6504 is off the grid, a raw 0.6504 passes `sim >= 0.6504`, and it is stored as 0.65 |
| Ranking.Insert | plagr_app.py:166 | one insertion step of the stable sort: defined by its body; characterized by InsertSorted, InsertMultiset and InsertWithKey |
| Ranking.SortDesc | plagr_app.py:166 | `sorted(matches, key=lambda x: x[2], reverse=True)`: defined by its body; characterized by SortDescCorrect and StableSortUnique |
| Ranking.Cap | plagr_app.py:166 | `[:50]`: defined by its body; characterized by RankedCorrect |
| Ranking.Ranked | plagr_app.py:166 | the sort followed by the cap: defined by its body; characterized by RankedCorrect |
| Ranking.InsertSorted | plagr_app.py:166 | inserting into a non-increasing list keeps it non-increasing |
| Ranking.InsertMultiset | plagr_app.py:166 | insertion adds exactly the inserted entry |
| Ranking.InsertWithKey | plagr_app.py:166 | an inserted entry goes after the entries with its key |
| Ranking.SortDescCorrect | plagr_app.py:166 | `sorted(..., reverse=True)` by stored similarity is non-increasing and a permutation; entries with equal keys keep their input order |
| Ranking.StableSortUnique | plagr_app.py:166 | any non-increasing list with the same entries per key is the same list, so the stable sort is determined |
| Ranking.RankedCorrect | plagr_app.py:166 | the returned list has exactly `min(n, 50)` entries, is non-increasing and is drawn from the kept pairs; when at most 50 pairs are kept it holds all of them; each left-out entry ranks no higher than each returned one; equal keys come in discovery order |
| SentenceMatcher.RowPairs | plagr_app.py:162-164 | the pairs the inner loop keeps in row `i` have first index `i` and columns below the bound |
| SentenceMatcher.GridPairs | plagr_app.py:161-164 | the pairs the nested loops keep lie inside the grid |
| SentenceMatcher.MatchAt | plagr_app.py:165 | the triple `(sent1, sent2, round(sim, 3))` of a kept pair: defined by its body; characterized by CandidatesInDiscoveryOrder |
| SentenceMatcher.Candidates | plagr_app.py:160-165 | the list `matches` once both loops are done: defined by its body; built by ScorePairs; characterized by CandidatesSoundComplete and CandidatesInDiscoveryOrder |
| SentenceMatcher.MatchesOf | plagr_app.py:154-168 | the result for two sentence lists: `[]` when either is empty or fitting fails, otherwise the ranked candidates; defined by its body; characterized by MatchesSound, MatchesComplete and MatchesRanking |
| SentenceMatcher.CommonSentencesOf | plagr_app.py:151-168 | what `get_common_sentences` returns: defined by its body; computed by CommonSentences; characterized by CommonSentencesAreSentences and ShortTextNoMatches |
| SentenceMatcher.CommonSentences | plagr_app.py:151-168 | `get_common_sentences` returns `CommonSentencesOf`: `[]` when either sentence list is empty or fitting fails, otherwise the ranked kept triples |
| SentenceMatcher.ScorePairs | plagr_app.py:160-165 | the nested loops build `Candidates`, one triple per kept pair in `(i, j)` order |
| SentenceMatcher.GridPairsMembers | plagr_app.py:161-164 | a pair is kept exactly when both indices are in range and its raw similarity is at least the threshold |
| SentenceMatcher.RowPairsMembers | plagr_app.py:162-164 | a pair is kept in row `i` exactly when its raw similarity reaches the threshold |
| SentenceMatcher.GridPairsIncreasing | plagr_app.py:161-162 | pairs are kept in strictly increasing lexicographic order |
| SentenceMatcher.RowPairsIncreasing | plagr_app.py:162 | within a row, columns are increasing |
| SentenceMatcher.CandidatesSoundComplete | plagr_app.py:161-165 | every kept triple comes from a pair whose raw similarity reached the threshold, and every such pair contributes its triple |
| SentenceMatcher.CandidatesInDiscoveryOrder | plagr_app.py:161-165 | the kept triples are the kept pairs, in their strictly increasing order, mapped to `(s1[i], s2[j], round(sim, 3))` |
| SentenceMatcher.MatchesSound | plagr_app.py:154-168 | at most 50 results, non-increasing, and each from a pair of the two sentence lists whose raw similarity reached the threshold |
| SentenceMatcher.MatchesComplete | plagr_app.py:161-166 | when at most 50 pairs reach the threshold, every one of them is returned |
| SentenceMatcher.MatchesRanking | plagr_app.py:166 | the result has exactly `min(n, 50)` entries for `n` kept triples; equal stored similarities keep discovery order, and left-out triples rank no higher than returned ones |
| SentenceMatcher.MatchesAboveThreshold | plagr_app.py:164-165 | with a threshold on the 0.001 grid, every stored similarity is at least the threshold |
| SentenceMatcher.DefaultThresholdOnGrid | plagr_app.py:151 | the default threshold 0.65 is on the 0.001 grid |
| SentenceMatcher.MatchesInUnitInterval | plagr_app.py:163-165 | similarities in [0, 1] give stored similarities in [0, 1] |
| SentenceMatcher.MatchesFromLists | plagr_app.py:161-165 | each triple's first component is from the first list and its second from the second |
| SentenceMatcher.CommonSentencesAreSentences | plagr_app.py:152-165 | both sides of each returned triple are stripped sentences longer than 20 chars found in their texts |
| SentenceMatcher.ShortTextNoMatches | plagr_app.py:152-154 | a text of at most 20 characters has no sentence, so the result is `[]` |
| SentenceMatcher.NoSentenceInShortText | plagr_app.py:152-153 | a text of at most 20 characters yields no sentence |
| Highlighter.Wrap | plagr_app.py:176 | `f'<span class="highlight">{sent}</span>'`: defined by its body; characterized by StepLength and StepWraps |
| Highlighter.Component | plagr_app.py:172-174 | `pair[idx]`: defined by its body; characterized by PickedElements |
| Highlighter.Step | plagr_app.py:175-176 | one iteration of the loop: defined by its body; characterized by StepChangesIffOccurs, StepLength, StepWraps and StepGrows |
| Highlighter.HighlightAll | plagr_app.py:173-176 | the loop over the picked sentences: defined by its body; computed by Highlight; characterized by HighlightAbsent, HighlightGrows, HighlightUnchangedIff and HighlightChangedIsLonger |
| Highlighter.Picked | plagr_app.py:172-174 | one picked sentence per match |
| Highlighter.Highlight | plagr_app.py:170-177 | `highlight_text` is `HighlightAll` over the picked components |
| Highlighter.StepChangesIffOccurs | plagr_app.py:175-176 | one iteration changes the text exactly when the sentence occurs in it |
| Highlighter.StepLength | plagr_app.py:176 | each wrapped occurrence adds the 31 characters of the two tags |
| Highlighter.StepWraps | plagr_app.py:175-176 | an occurring sentence is present in wrapped form afterwards |
| Highlighter.HighlightAbsent | plagr_app.py:173-176 | sentences absent from the text leave it unchanged; an empty match list returns the text |
| Highlighter.HighlightGrows | plagr_app.py:173-176 | highlighting never shortens the text |
| Highlighter.StepGrows | plagr_app.py:175-176 | one iteration never shortens the text |
| Highlighter.HighlightUnchangedIff | plagr_app.py:173-176 | the text comes back unchanged exactly when no step found its sentence |
| Highlighter.HighlightChangedIsLonger | plagr_app.py:173-176 | a changed text is strictly longer |
| Highlighter.PickedUsesOneSide | plagr_app.py:172-174 | with `is_first` only first components matter, otherwise only second ones |
| Highlighter.PickedElements | plagr_app.py:172-174 | the picked list is component 0 of each match when `is_first`, component 1 otherwise, in order |
| PairReport.RiskLabel | plagr_app.py:229 | HIGH iff score > 0.5, MODERATE iff 0.2 < score ≤ 0.5, LOW iff score ≤ 0.2 |
| PairReport.RiskMonotone | plagr_app.py:229 | a higher score never gets a less severe label |
| PairReport.Row | plagr_app.py:227 | `range(i + 1, n)` has `n - i - 1` elements |
| PairReport.Rows | plagr_app.py:226-227 | the pairs visited by the first `r` outer iterations: defined by its body; characterized by RowsMembers, RowsIncreasing, RowsCount and AllPairs |
| PairReport.RecordOf | plagr_app.py:228-230 | the record appended for `(i, j)`: defined by its body; characterized by CompareAll |
| PairReport.CompareAll | plagr_app.py:224-230 | `n (n - 1) / 2` records, record `k` built from the `k`-th pair `i < j` with its names, texts, score and label |
| PairReport.RowMembers | plagr_app.py:227 | the inner loop visits `(i, j)` exactly for `i < j < n` |
| PairReport.RowsMembers | plagr_app.py:226-227 | the loops visit exactly the pairs `i < j < n` |
| PairReport.RowsIncreasing | plagr_app.py:226-227 | pairs are visited in strictly increasing lexicographic order |
| PairReport.RowIncreasing | plagr_app.py:227 | within a row, `j` increases |
| PairReport.RowsCount | plagr_app.py:226-227 | after `r` rows, `r (2n - r - 1) / 2` pairs |
| PairReport.AllPairs | plagr_app.py:226-230 | exactly the pairs `i < j < n`, `n (n - 1) / 2` of them, in lexicographic order |
| OrderedPairs.IndexOf | plagr.py:23 | `list.index` returns the first position holding the element |
| OrderedPairs.Skip | plagr.py:22-26 | the original position of element `c` of `new_vectors` after `del new_vectors[k]`: defined by its body; characterized by RowTriplesMembers |
| OrderedPairs.RowTriples | plagr.py:22-28 | the triples the inner loop adds for document `p`, one for each of the other `n - 1` documents; characterized by RowTriplesMembers |
| OrderedPairs.Generated | plagr.py:21-28 | the triples both loops add, in order: defined by its body; characterized by GeneratedLength, GeneratedMembers and GeneratedNoRepeats |
| OrderedPairs.Detector.constructor | plagr.py:16-17 | the detector starts with the documents and an empty result set |
| OrderedPairs.Detector.CheckPlagiarism | plagr.py:19-28 | `s_vectors` is unchanged, and the results gain exactly the generated triples |
| OrderedPairs.IndexOfOwn | plagr.py:22-23 | with distinct names, `index` returns the document's own position |
| OrderedPairs.GeneratedLength | plagr.py:21-28 | `n (n - 1)` triples are generated |
| OrderedPairs.RowTriplesMembers | plagr.py:22-28 | document `p`'s triples pair it with every other position `q` and with nothing else |
| OrderedPairs.GeneratedMembers | plagr.py:21-28 | a triple is generated exactly when it is the triple of two distinct positions |
| OrderedPairs.AllOrderedPairs | plagr.py:21-28 | every ordered pair of distinct positions gives its triple, in both orientations; no document is paired with itself |
| OrderedPairs.ResultCount | plagr.py:17-28 | with distinct names the result set ends with exactly `n (n - 1)` triples |
| OrderedPairs.GeneratedNoRepeats | plagr.py:21-28 | no triple is generated twice |
| OrderedPairs.DistinctElements | plagr.py:28 | a list without repeats has a set of the same size |
| OrderedPairs.SymmetricScores | plagr.py:21-28 | a symmetric score gives each unordered pair its score in both orientations |

## Left out

- The Streamlit user interface, session state, CSS, file upload and UTF-8 decoding are left out, as are the CSV export and the report rendering. They are presentation and I/O.
- Directory listing, file reading and the `print` loop of `plagr.py` are left out. They are I/O.
- TF-IDF vectorization and cosine similarity are foreign floating-point numerics. They are the oracles `sim`, `score` and `fits`, and no property of cosine similarity is used except where a lemma states it as a precondition (the unit interval, symmetry).
- SentenceMatcher.CommonSentences: every exception inside the `try` is modelled as `fits` failing on the joined sentence list. An exception raised by the scoring for one particular pair is not distinguished from a failure of the fit.
- Rounding.Round3: the similarity is a numpy `float64`, whose `round(x, 3)` scales by 1000 in floating point, rounds half to even and divides back. The model rounds halves up on exact reals. The two can differ at values halfway between two multiples of 0.001 and at values near such a halfway point, where the floating-point scaling moves them across it.
- Reals stand in for floats everywhere, so overflow, NaN and binary representation error are not modelled.
- PairReport.CompareAll: the document vectorization that precedes the loop is not inside a `try` in the source. Its failure would abort the analysis. The model takes the scores as given.
- OrderedPairs.IndexOf: `list.index` compares `(name, vector)` tuples. The model compares names. With distinct file names, as a directory listing provides, the two agree. With a repeated name, the source would compare numpy arrays and raise, while the model deletes the first entry with that name.
- The module-level call `check_plagiarism()` and the construction of `s_vectors` from the file list amount to constructing an `OrderedPairs.Detector` and calling `CheckPlagiarism`. They are not modelled as separate steps.
