/**
 * The TCP accuracy metric: pull the answer out of `\boxed{...}` in each
 * prediction, normalise predictions and references according to their
 * subset label, and score exact string equality per item or on average.
 */
module TcpAccuracy {
  import opened Wrappers
  import opened PyStr

  // ---------------------------------------------------------------------
  // Boxed-answer extraction
  // ---------------------------------------------------------------------

  /** The literal text the pattern `\\boxed\{([^}]*)\}` starts with. */
  const BOXED_OPEN: string := "\\boxed{"
  const CLOSE: char := '}'

  /**
   * The pattern matches the text `p[i..j + 1]`: `\boxed{` at `i`, a run of
   * characters other than `}` (newlines included), and the `}` at `j`. The
   * captured group is `p[i + |BOXED_OPEN|..j]`.
   */
  ghost predicate MatchAt(p: string, i: int, j: int) {
    OccursAt(p, BOXED_OPEN, i) && i + |BOXED_OPEN| <= j < |p| && p[j] == CLOSE
    && forall k :: i + |BOXED_OPEN| <= k < j ==> p[k] != CLOSE
  }

  /** The match `re.search` reports: the one that starts furthest left. */
  ghost predicate LeftmostMatch(p: string, i: int, j: int) {
    MatchAt(p, i, j) && forall i', j' :: MatchAt(p, i', j') ==> i <= i'
  }

  /** Some `\boxed{` in `p` has a `}` somewhere after it. */
  ghost predicate HasBoxedAnswer(p: string) {
    exists i, j :: OccursAt(p, BOXED_OPEN, i) && i + |BOXED_OPEN| <= j < |p| && p[j] == CLOSE
  }

  /**
   * `extract_boxed_answer`: the stripped text between the first `\boxed{`
   * and the next `}`, or `None` when there is no such pair.
   */
  function ExtractBoxedAnswer(p: string): Option<string> {
    match Find(p, BOXED_OPEN, 0)
    case None => None
    case Some(i) =>
      match Find(p, [CLOSE], i + |BOXED_OPEN|)
      case None => None
      case Some(j) => Some(Strip(p[i + |BOXED_OPEN|..j]))
  }

  /** The shape of `ExtractBoxedAnswer`'s answer in terms of the leftmost match. */
  lemma ExtractFindsLeftmost(p: string)
    ensures ExtractBoxedAnswer(p).None? <==> !HasBoxedAnswer(p)
    ensures ExtractBoxedAnswer(p).Some? ==>
      exists i, j :: LeftmostMatch(p, i, j)
                     && ExtractBoxedAnswer(p).value == Strip(p[i + |BOXED_OPEN|..j])
  {
    var n := |BOXED_OPEN|;
    match Find(p, BOXED_OPEN, 0)
    case None =>
    case Some(i) =>
      match Find(p, [CLOSE], i + n)
      case None =>
        if HasBoxedAnswer(p) {
          var i', j :| OccursAt(p, BOXED_OPEN, i') && i' + n <= j < |p| && p[j] == CLOSE;
          OccursAtChar(p, CLOSE, j);
          assert false;
        }
      case Some(j) =>
        OccursAtChar(p, CLOSE, j);
        forall k | i + n <= k < j ensures p[k] != CLOSE {
          OccursAtChar(p, CLOSE, k);
        }
        assert MatchAt(p, i, j);
        assert LeftmostMatch(p, i, j);
  }

  /** The greedy run `[^}]*` stops at the first `}`, so a match is fixed by where it starts. */
  lemma MatchEndUnique(p: string, i: int, j: int, j': int)
    requires MatchAt(p, i, j) && MatchAt(p, i, j')
    ensures j == j'
  {
  }

  /** Whatever leftmost match the pattern has, extraction returns its stripped group. */
  lemma ExtractIsLeftmostMatch(p: string, i: int, j: int)
    requires LeftmostMatch(p, i, j)
    ensures ExtractBoxedAnswer(p) == Some(Strip(p[i + |BOXED_OPEN|..j]))
  {
    var n := |BOXED_OPEN|;
    var first := Find(p, BOXED_OPEN, 0);
    assert first.Some?;
    var i0 := first.value;
    assert i0 <= i;
    OccursAtChar(p, CLOSE, j);
    var close := Find(p, [CLOSE], i0 + n);
    assert close.Some?;
    var j0 := close.value;
    OccursAtChar(p, CLOSE, j0);
    forall k | i0 + n <= k < j0 ensures p[k] != CLOSE {
      OccursAtChar(p, CLOSE, k);
    }
    assert MatchAt(p, i0, j0);
    assert i == i0;
    MatchEndUnique(p, i, j, j0);
  }

  /** An extracted answer holds no `}` and has no surrounding whitespace. */
  lemma ExtractedAnswerShape(p: string)
    ensures ExtractBoxedAnswer(p).Some? ==>
      CLOSE !in ExtractBoxedAnswer(p).value && IsStripped(ExtractBoxedAnswer(p).value)
  {
    var n := |BOXED_OPEN|;
    var first := Find(p, BOXED_OPEN, 0);
    if first.Some? {
      var i := first.value;
      var close := Find(p, [CLOSE], i + n);
      if close.Some? {
        var j := close.value;
        var g := p[i + n..j];
        forall m | 0 <= m < |g| ensures g[m] != CLOSE {
          OccursAtChar(p, CLOSE, i + n + m);
        }
        StripKeepsChars(g, CLOSE);
      }
    }
  }

  // ---------------------------------------------------------------------
  // Subset-conditional normalisation
  // ---------------------------------------------------------------------

  /** The only label under which text is normalised. */
  const TCP_SHORT: string := "tcp_short"

  /** `t.replace("GMT", "").strip()`. */
  function NormalizeShort(t: string): (r: string)
    ensures IsStripped(r) && |r| <= |t|
  {
    Strip(RemoveGMT(t))
  }

  /** A reference under its subset label. */
  function NormalizeReference(r: string, kind: string): string {
    if kind == TCP_SHORT then NormalizeShort(r) else r
  }

  /** An extracted prediction under its subset label; `None` and `""` are falsy and left alone. */
  function NormalizePrediction(p: Option<string>, kind: string): Option<string> {
    if p.Some? && p.value != "" && kind == TCP_SHORT then Some(NormalizeShort(p.value)) else p
  }

  /**
   * Under "tcp_short" a text becomes `"".join(t.split("GMT"))`, stripped;
   * under any other label it is returned as it is.
   */
  lemma NormalizeReferenceSpec(r: string, kind: string)
    ensures kind != TCP_SHORT ==> NormalizeReference(r, kind) == r
    ensures kind == TCP_SHORT ==> NormalizeReference(r, kind) == Strip(Concat(SplitGMT(r)))
  {
    SplitGMTIsSplit(r);
    RemoveGMTOfSplit(r, SplitGMT(r));
  }

  /**
   * The truthiness test on predictions decides nothing: a present prediction
   * is normalised exactly as a reference would be.
   */
  lemma NormalizePredictionAsReference(p: Option<string>, kind: string)
    ensures NormalizePrediction(p, kind) ==
      match p case None => None case Some(t) => Some(NormalizeReference(t, kind))
    ensures NormalizePrediction(p, kind).None? <==> p.None?
  {
    if p == Some("") && kind == TCP_SHORT {
      assert RemoveGMT("") == "";
      StripIdempotent("");
    }
  }

  /** Normalising twice is not normalising once: "GGMTMT" gives "GMT", which gives "". */
  lemma NormalizeShortNotIdempotent(t: string)
    requires t == "GGMTMT"
    ensures NormalizeShort(t) == "GMT"
    ensures NormalizeShort(NormalizeShort(t)) == ""
  {
    RemoveGMTNotIdempotent(t);
    var once := RemoveGMT(t);
    assert IsStripped(once);
    StripIdempotent(once);
    assert NormalizeShort(t) == once;
    var twice := RemoveGMT(once);
    assert IsStripped(twice);
    StripIdempotent(twice);
    assert NormalizeShort(once) == twice;
  }

  // ---------------------------------------------------------------------
  // Scoring
  // ---------------------------------------------------------------------

  /** The `subset` argument: one label for every item, or a label per item. */
  datatype Subset = Label(kind: string) | Labels(labels: seq<string>)

  /** The value under the "accuracy" key. */
  datatype Accuracy = Average(mean: real) | PerItem(scores: seq<int>)

  /** `ValueError("predictions cannot be empty")`, and `ZeroDivisionError` from the mean. */
  datatype ComputeError = EmptyPredictions | ZeroDivision

  function Min(a: int, b: int): int {
    if a <= b then a else b
  }

  /** One label per position: a single label is repeated `n` times, a list is used as given. */
  function SubsetLabels(subset: Subset, n: nat): (ls: seq<string>)
    ensures subset.Label? ==> |ls| == n && forall i :: 0 <= i < n ==> ls[i] == subset.kind
    ensures subset.Labels? ==> ls == subset.labels
  {
    match subset
    case Label(l) => seq(n, _ => l)
    case Labels(ls) => ls
  }

  /** `[extract_boxed_answer(p) for p in predictions]`. */
  function ExtractAll(predictions: seq<string>): seq<Option<string>> {
    seq(|predictions|, i requires 0 <= i < |predictions| => ExtractBoxedAnswer(predictions[i]))
  }

  /** The prediction comprehension over `zip(extracted, subset)`. */
  function NormalizePredictions(extracted: seq<Option<string>>, labels: seq<string>): seq<Option<string>> {
    seq(Min(|extracted|, |labels|),
        i requires 0 <= i < Min(|extracted|, |labels|) => NormalizePrediction(extracted[i], labels[i]))
  }

  /** The reference comprehension over `zip(references, subset)`. */
  function NormalizeReferences(references: seq<string>, labels: seq<string>): seq<string> {
    seq(Min(|references|, |labels|),
        i requires 0 <= i < Min(|references|, |labels|) => NormalizeReference(references[i], labels[i]))
  }

  /** `[int(i == j) for i, j in zip(preds, refs)]`; a `None` prediction equals no string. */
  function ScorePairs(preds: seq<Option<string>>, refs: seq<string>): seq<int> {
    seq(Min(|preds|, |refs|),
        i requires 0 <= i < Min(|preds|, |refs|) => if preds[i] == Some(refs[i]) then 1 else 0)
  }

  /** The per-item pipeline of `_compute`, with `zip` truncating at each step. */
  function Scores(predictions: seq<string>, references: seq<string>, labels: seq<string>): seq<int> {
    ScorePairs(NormalizePredictions(ExtractAll(predictions), labels),
               NormalizeReferences(references, labels))
  }

  /** The score of one item, judged on its own. */
  function ItemScore(prediction: string, reference: string, kind: string): int {
    if NormalizePrediction(ExtractBoxedAnswer(prediction), kind)
       == Some(NormalizeReference(reference, kind)) then 1 else 0
  }

  /**
   * The list pipeline scores item by item: as many scores as the shortest of
   * the three lists, each 0 or 1, and each the item's own score.
   */
  lemma ScoresPerItem(predictions: seq<string>, references: seq<string>, labels: seq<string>)
    ensures |Scores(predictions, references, labels)|
            == Min(|predictions|, Min(|references|, |labels|))
    ensures forall i :: 0 <= i < |Scores(predictions, references, labels)| ==>
              Scores(predictions, references, labels)[i]
              == ItemScore(predictions[i], references[i], labels[i])
  {
  }

  /** An item scores 1 exactly when its normalised answer is its normalised reference. */
  lemma ItemScoreMeaning(prediction: string, reference: string, kind: string)
    ensures ItemScore(prediction, reference, kind) in {0, 1}
    ensures ExtractBoxedAnswer(prediction).None? ==> ItemScore(prediction, reference, kind) == 0
    ensures kind != TCP_SHORT ==>
      (ItemScore(prediction, reference, kind) == 1 <==> ExtractBoxedAnswer(prediction) == Some(reference))
    ensures kind == TCP_SHORT ==>
      (ItemScore(prediction, reference, kind) == 1 <==>
         ExtractBoxedAnswer(prediction).Some?
         && NormalizeShort(ExtractBoxedAnswer(prediction).value) == NormalizeShort(reference))
  {
    NormalizePredictionAsReference(ExtractBoxedAnswer(prediction), kind);
  }

  /** `sum(scores)`. */
  function Sum(s: seq<int>): int {
    if s == [] then 0 else s[0] + Sum(s[1..])
  }

  predicate IsBinary(s: seq<int>) {
    forall i :: 0 <= i < |s| ==> s[i] == 0 || s[i] == 1
  }

  /** The sum of a 0/1 list is its number of 1s, so it lies between 0 and its length. */
  lemma {:induction false} SumCountsOnes(s: seq<int>)
    requires IsBinary(s)
    ensures Sum(s) == multiset(s)[1]
    ensures 0 <= Sum(s) <= |s|
    ensures Sum(s) == |s| <==> forall i :: 0 <= i < |s| ==> s[i] == 1
  {
    if s != [] {
      assert s == [s[0]] + s[1..];
      assert multiset(s) == multiset([s[0]]) + multiset(s[1..]);
      SumCountsOnes(s[1..]);
      if Sum(s) == |s| {
        assert s[0] == 1;
        forall i | 0 <= i < |s| ensures s[i] == 1 {
          if i > 0 { assert s[i] == s[1..][i - 1]; }
        }
      }
      if forall i :: 0 <= i < |s| ==> s[i] == 1 {
        assert forall i :: 0 <= i < |s[1..]| ==> s[1..][i] == s[i + 1];
      }
    }
  }

  /**
   * `_compute`: the value stored under "accuracy", or the exception raised.
   * As in the source, `returnAverage` defaults to `true`.
   */
  function Compute(predictions: seq<string>, references: seq<string>, subset: Subset,
                   returnAverage: bool := true): Result<Accuracy, ComputeError>
  {
    if predictions == [] then Err(EmptyPredictions)
    else
      var scores := Scores(predictions, references, SubsetLabels(subset, |predictions|));
      if !returnAverage then Ok(PerItem(scores))
      else if |scores| == 0 then Err(ZeroDivision)
      else Ok(Average(Sum(scores) as real / |scores| as real))
  }

  /** An empty list of predictions is refused, whatever the other arguments are. */
  lemma ComputeRejectsEmpty(predictions: seq<string>, references: seq<string>, subset: Subset,
                            returnAverage: bool)
    ensures Compute(predictions, references, subset, returnAverage) == Err(EmptyPredictions)
            <==> predictions == []
  {
  }

  /** Per-item output: one 0/1 score per aligned position, each the item's own score. */
  lemma ComputePerItem(predictions: seq<string>, references: seq<string>, subset: Subset)
    requires predictions != []
    ensures var labels := SubsetLabels(subset, |predictions|);
            var r := Compute(predictions, references, subset, false);
            && r.Ok? && r.value.PerItem?
            && |r.value.scores| == Min(|predictions|, Min(|references|, |labels|))
            && IsBinary(r.value.scores)
            && forall i :: 0 <= i < |r.value.scores| ==>
                 r.value.scores[i] == ItemScore(predictions[i], references[i], labels[i])
  {
    var labels := SubsetLabels(subset, |predictions|);
    var scores := Scores(predictions, references, labels);
    ScoresPerItem(predictions, references, labels);
    forall i | 0 <= i < |scores| ensures scores[i] == 0 || scores[i] == 1 {
      ItemScoreMeaning(predictions[i], references[i], labels[i]);
    }
  }

  /** `k / n` for `0 <= k <= n`, `n > 0`, lies in [0, 1] and is 1 only for `k == n`. */
  lemma RatioInUnitInterval(k: int, n: int)
    requires 0 <= k <= n && 0 < n
    ensures 0.0 <= k as real / n as real <= 1.0
    ensures k as real / n as real == 1.0 <==> k == n
  {
    var q := k as real / n as real;
    assert q * (n as real) == k as real;
  }

  /**
   * Averaged output: the share of items that score 1, which lies in [0, 1]
   * and is 1 exactly when every item matches; no positions to average (no
   * references, or an empty list of labels) is a division by zero.
   */
  lemma ComputeAverage(predictions: seq<string>, references: seq<string>, subset: Subset)
    requires predictions != []
    ensures var labels := SubsetLabels(subset, |predictions|);
            var scores := Scores(predictions, references, labels);
            var r := Compute(predictions, references, subset, true);
            && (r == Err(ZeroDivision) <==> references == [] || labels == [])
            && (r.Ok? ==>
                  && r == Ok(Average(multiset(scores)[1] as real / |scores| as real))
                  && 0.0 <= r.value.mean <= 1.0
                  && (r.value.mean == 1.0 <==> forall i :: 0 <= i < |scores| ==> scores[i] == 1))
  {
    var labels := SubsetLabels(subset, |predictions|);
    var scores := Scores(predictions, references, labels);
    ComputePerItem(predictions, references, subset);
    SumCountsOnes(scores);
    if scores != [] {
      RatioInUnitInterval(Sum(scores), |scores|);
    }
  }

  /** A prediction `prefix\boxed{body}` with no backslash before the box yields `body`, stripped. */
  lemma ExtractSingleBox(prefix: string, body: string)
    requires '\\' !in prefix && CLOSE !in body
    ensures ExtractBoxedAnswer(prefix + BOXED_OPEN + body + [CLOSE]) == Some(Strip(body))
  {
    var p := prefix + BOXED_OPEN + body + [CLOSE];
    var i, n := |prefix|, |BOXED_OPEN|;
    var j := |p| - 1;
    assert p[i..i + n] == BOXED_OPEN;
    assert p[i + n..j] == body;
    forall k | i + n <= k < j ensures p[k] != CLOSE {
      assert p[k] == body[k - i - n];
    }
    assert MatchAt(p, i, j);
    forall i' | 0 <= i' < i ensures !OccursAt(p, BOXED_OPEN, i') {
      assert p[i'..i' + n][0] == prefix[i'] && prefix[i'] in prefix;
    }
    ExtractIsLeftmostMatch(p, i, j);
  }

  /** Under any label but "tcp_short", a boxed answer that needs no stripping matches itself. */
  lemma PlainBoxMatches(prefix: string, body: string, kind: string)
    requires '\\' !in prefix && CLOSE !in body && IsStripped(body) && kind != TCP_SHORT
    ensures ItemScore(prefix + BOXED_OPEN + body + [CLOSE], body, kind) == 1
  {
    ExtractSingleBox(prefix, body);
    StripIdempotent(body);
  }

  /** Under "tcp_short", a boxed answer matches the same text followed by " GMT". */
  lemma BoxMatchesGMTSuffix(prefix: string, body: string)
    requires '\\' !in prefix && CLOSE !in body && IsStripped(body) && 'G' !in body
    ensures ItemScore(prefix + BOXED_OPEN + body + [CLOSE], body + [' '] + GMT, TCP_SHORT) == 1
  {
    ExtractSingleBox(prefix, body);
    StripIdempotent(body);
    StripRemoveGMTOfDate(body);
  }

  /** First documented item: under "tcp_long" the boxed date is compared as it is. */
  lemma DocumentationLongItem(prediction: string, reference: string)
    requires prediction == "...\\boxed{2012-11-05}" && reference == "2012-11-05"
    ensures ItemScore(prediction, reference, "tcp_long") == 1
  {
    var dots := "...";
    DocumentationLongPrediction(prediction, dots, reference);
    DocumentationDate(reference);
    PlainBoxMatches(dots, reference, "tcp_long");
  }

  /** Second documented item: under "tcp_short" the reference loses its " GMT". */
  lemma DocumentationShortItem(prediction: string, reference: string)
    requires prediction == "...\\boxed{2020-05-28 16:00}" && reference == "2020-05-28 16:00 GMT"
    ensures ItemScore(prediction, reference, TCP_SHORT) == 1
  {
    var dots, body := "...", reference[..16];
    assert reference == body + [' '] + GMT;
    DocumentationShortPrediction(prediction, dots, body);
    DocumentationDate(body);
    BoxMatchesGMTSuffix(dots, body);
  }

  // The literal lemmas below take their literals as parameters fixed by
  // `requires x == "..."`, so that the solver does not unfold recursive string
  // functions on literal arguments.

  /** The first documented prediction is `...\boxed{` + its date + `}`. */
  lemma DocumentationLongPrediction(prediction: string, dots: string, date: string)
    requires prediction == "...\\boxed{2012-11-05}" && dots == "..." && date == "2012-11-05"
    ensures prediction == dots + BOXED_OPEN + date + [CLOSE] && '\\' !in dots
  {
  }

  /** The second documented prediction is `...\boxed{` + its date and time + `}`. */
  lemma DocumentationShortPrediction(prediction: string, dots: string, date: string)
    requires prediction == "...\\boxed{2020-05-28 16:00}" && dots == "..." && date == "2020-05-28 16:00"
    ensures prediction == dots + BOXED_OPEN + date + [CLOSE] && '\\' !in dots
  {
  }

  /** The documented dates hold no `}`, no letter G and no surrounding whitespace. */
  lemma DocumentationDate(date: string)
    requires date == "2012-11-05" || date == "2020-05-28 16:00"
    ensures IsStripped(date) && CLOSE !in date && 'G' !in date
  {
  }

  /** When every aligned item matches, the averaged accuracy is exactly 1.0. */
  lemma AllMatchingGivesOne(predictions: seq<string>, references: seq<string>, subset: Subset)
    requires predictions != []
    requires |references| == |predictions| == |SubsetLabels(subset, |predictions|)|
    requires forall i :: 0 <= i < |predictions| ==>
               ItemScore(predictions[i], references[i], SubsetLabels(subset, |predictions|)[i]) == 1
    ensures Compute(predictions, references, subset, true) == Ok(Average(1.0))
  {
    var labels := SubsetLabels(subset, |predictions|);
    ScoresPerItem(predictions, references, labels);
    ComputeAverage(predictions, references, subset);
  }

  /** Two items that both match, each under its own label, average to 1.0. */
  lemma TwoMatchingItems(p0: string, p1: string, r0: string, r1: string, l0: string, l1: string)
    requires ItemScore(p0, r0, l0) == 1 && ItemScore(p1, r1, l1) == 1
    ensures Compute([p0, p1], [r0, r1], Labels([l0, l1]), true) == Ok(Average(1.0))
  {
    AllMatchingGivesOne([p0, p1], [r0, r1], Labels([l0, l1]));
  }

  /** The example of the metric's documentation: both items match, so the accuracy is 1.0. */
  lemma DocumentationExample(p0: string, p1: string, r0: string, r1: string)
    requires p0 == "...\\boxed{2012-11-05}" && p1 == "...\\boxed{2020-05-28 16:00}"
    requires r0 == "2012-11-05" && r1 == "2020-05-28 16:00 GMT"
    ensures Compute([p0, p1], [r0, r1], Labels(["tcp_long", "tcp_short"])) == Ok(Average(1.0))
  {
    DocumentationLongItem(p0, r0);
    DocumentationShortItem(p1, r1);
    TwoMatchingItems(p0, p1, r0, r1, "tcp_long", TCP_SHORT);
  }
}
