# TCP accuracy scorer, modelled in Dafny

This project models the answer scorer of the TCP (Temporal Constraint-Based
Planning) accuracy metric, `tcp_accuracy.py`. The scorer:

1. Extracts the answer from each prediction. It searches for the fixed
   pattern `\\boxed\{([^}]*)\}`, strips the captured text, and returns
   `None` when the pattern does not occur.
2. Normalises each prediction and reference by its subset label. Under
   `"tcp_short"`, every `"GMT"` is removed in one left-to-right pass and the
   text is then stripped. Any other label leaves the text unchanged. On the
   prediction side, only truthy values are normalised.
3. Pairs the three lists with `zip`, silently truncating to the shortest.
   Each pair scores 1 on exact equality and 0 otherwise. The result is the
   score list, or its mean.

The code is pure, so the model is pure too: datatypes, functions and lemmas,
in three modules.

- `wrappers.dfy`, module `Wrappers`: `Option` stands in for Python's
  `None`, and `Result` for a raised exception.
- `py_str.dfy`, module `PyStr`: the Python string operations the scorer
  relies on, plus a search helper (`Find`) and a reference semantics for
  `replace` (`SplitGMT`, `JoinGMT`, `Concat`). The scorer does not call
  `str.split`.
  - `str.strip()` is `Strip`, built from `StripStart` and `StripEnd`.
  - `Find` is a substring search with the semantics of `str.find`. The
    scorer does not call `str.find`; the model uses `Find` to realise the
    fixed-pattern `re.search` at tcp_accuracy.py:84.
  - `str.replace("GMT", "")` is `RemoveGMT`.
  - `str.split("GMT")` is `SplitGMT`. It is a reference semantics for the
    replacement.
- `tcp_accuracy.dfy`, module `TcpAccuracy`:
  - extraction: `ExtractBoxedAnswer`, stated against a direct description of
    the regular expression's leftmost match (`MatchAt`, `LeftmostMatch`);
  - normalisation: `NormalizeShort`, `NormalizeReference`,
    `NormalizePrediction`;
  - scoring: `Compute`, with the intermediate lists `ExtractAll`,
    `NormalizePredictions`, `NormalizeReferences`, `ScorePairs` and `Sum`.

`Compute` returns one of:

- `Ok(Average(m))`: the mean accuracy `m`;
- `Ok(PerItem(scores))`: the score list;
- `Err(EmptyPredictions)`: the `ValueError` raised for an empty prediction
  list;
- `Err(ZeroDivision)`: the `ZeroDivisionError` raised when Python divides by
  the length of an empty score list.

Behaviour of the code worth noting:

- The "tcp_short" normalisation at tcp_accuracy.py:103 and :107 is not
  idempotent. One pass turns `"GGMTMT"` into `"GMT"`, and a second pass
  turns that into `""`. `NormalizeShortNotIdempotent` proves this.
- Lists of different lengths are not rejected. The `zip` calls at
  tcp_accuracy.py:104, :108 and :110 truncate to the shortest list, and the
  model keeps that truncation.
- The only explicit check is for an empty prediction list, which raises
  `ValueError` (tcp_accuracy.py:97-98). Averaging an empty score list raises
  `ZeroDivisionError` at tcp_accuracy.py:112.
- `return_average` defaults to `True` (tcp_accuracy.py:94), and so does
  `Compute`'s `returnAverage`.

## Model

| member | source | states |
|---|---|---|
| `PyStr.Find` | tcp_accuracy.py:84 | returns the first index at or after `from` where the pattern occurs, and no occurrence lies before it; `None` means it occurs nowhere at or after `from` |
| `PyStr.StripStart` | tcp_accuracy.py:86 | everything before the returned index is whitespace, and the character at it is not |
| `PyStr.StripEnd` | tcp_accuracy.py:86 | everything from the returned index on is whitespace, and the character before it is not |
| `PyStr.Strip` | tcp_accuracy.py:86 | the stripped text neither starts nor ends with whitespace and is no longer than the input |
| `PyStr.StripSlice` | tcp_accuracy.py:86 | the stripped text is a slice of the input, with only whitespace cut away on either side |
| `PyStr.StripUnique` | tcp_accuracy.py:86 | any cut of the input into whitespace, a stripped middle and whitespace has that middle equal to `Strip`'s result |
| `PyStr.StripIdempotent` | tcp_accuracy.py:86 | stripped text is a fixed point of `Strip`, and stripping twice equals stripping once |
| `PyStr.StripKeepsChars` | tcp_accuracy.py:86 | every character of the stripped text occurs in the input |
| `PyStr.RemoveGMT` | tcp_accuracy.py:103 | removing "GMT" never makes text longer |
| `PyStr.RemoveGMTNoOccurrence` | tcp_accuracy.py:103 | text with no "GMT" is unchanged |
| `PyStr.RemoveGMTCopiesPrefix` | tcp_accuracy.py:103 | a prefix where no "GMT" starts is copied through unchanged, and the scan goes on after it |
| `PyStr.GMTAtIsOccursAt` | tcp_accuracy.py:103 | the character-wise test for "GMT" at an index agrees with a substring occurrence there |
| `PyStr.RemoveGMTWithoutG` | tcp_accuracy.py:103 | text without the letter G is unchanged |
| `PyStr.RemoveGMTSuffix` | tcp_accuracy.py:103 | a trailing "GMT" after text without G is removed, and nothing else changes |
| `PyStr.RemoveGMTOfSplit` | tcp_accuracy.py:107 | `s.replace("GMT", "")` equals `"".join(ps)` for every leftmost split `ps` of `s` on "GMT" |
| `PyStr.SplitGMTIsSplit` | tcp_accuracy.py:107 | every string has such a split, namely `s.split("GMT")` |
| `PyStr.RemoveGMTNotIdempotent` | tcp_accuracy.py:103 | one pass turns "GGMTMT" into "GMT", and a second pass turns that into "" |
| `PyStr.StripRemoveGMTOfDate` | tcp_accuracy.py:107 | stripped text without the letter G normalises to itself, and so does that text followed by " GMT" |
| `TcpAccuracy.ExtractFindsLeftmost` | tcp_accuracy.py:83-87 | the result is `None` exactly when no `\boxed{` has a later `}`; otherwise it is the stripped group of the leftmost match |
| `TcpAccuracy.ExtractIsLeftmostMatch` | tcp_accuracy.py:64 | for the leftmost match of `\\boxed\{([^}]*)\}`, from `i` to the `}` at `j`, the result is `Strip(p[i+7..j])` |
| `TcpAccuracy.ExtractedAnswerShape` | tcp_accuracy.py:86 | an extracted answer contains no `}` and has no leading or trailing whitespace |
| `TcpAccuracy.ExtractSingleBox` | tcp_accuracy.py:84-86 | a prediction `prefix\boxed{body}`, with no backslash in `prefix` and no `}` in `body`, yields `Strip(body)` |
| `TcpAccuracy.NormalizeShort` | tcp_accuracy.py:103 | "tcp_short" normalisation gives stripped text no longer than its input |
| `TcpAccuracy.NormalizeReferenceSpec` | tcp_accuracy.py:106-109 | under "tcp_short" a reference becomes the stripped concatenation of its split on "GMT"; under any other label it is unchanged |
| `TcpAccuracy.NormalizePredictionAsReference` | tcp_accuracy.py:102-105 | `None` stays `None`; any present prediction, `""` included, is normalised the way a reference is, so the truthiness test changes no result |
| `TcpAccuracy.NormalizeShortNotIdempotent` | tcp_accuracy.py:103 | normalising "GGMTMT" gives "GMT", and normalising again gives "" |
| `TcpAccuracy.SubsetLabels` | tcp_accuracy.py:99-100 | a single label is repeated once per prediction; a list of labels is used as given |
| `TcpAccuracy.ScoresPerItem` | tcp_accuracy.py:101-110 | the score list is as long as the shortest of predictions, references and labels, and entry `i` is item `i`'s own score |
| `TcpAccuracy.ItemScoreMeaning` | tcp_accuracy.py:110 | a score is 0 or 1; it is 0 when no answer was extracted; under other labels it is 1 iff the extracted answer equals the reference; under "tcp_short" it is 1 iff both normalise to the same text |
| `TcpAccuracy.SumCountsOnes` | tcp_accuracy.py:112 | the sum of a 0/1 list is its number of 1s, lies between 0 and the length, and equals the length iff every entry is 1 |
| `TcpAccuracy.ComputeRejectsEmpty` | tcp_accuracy.py:97-98 | the result is the empty-predictions error exactly when `predictions` is empty, whatever the flag is |
| `TcpAccuracy.ComputePerItem` | tcp_accuracy.py:110-113 | without averaging, the result is the per-item 0/1 list over the truncated positions |
| `TcpAccuracy.ComputeAverage` | tcp_accuracy.py:111-112 | with averaging, the mean is (number of 1s) / (number of scores), lies in [0, 1] and is 1 iff every item matches; it is a division by zero iff there are no references or no labels |
| `TcpAccuracy.AllMatchingGivesOne` | tcp_accuracy.py:111-112 | aligned lists whose items all match average to 1.0 |
| `TcpAccuracy.MatchEndUnique` | tcp_accuracy.py:64 | a match starting at a given `\boxed{` can end only at one `}`, the first after it |
| `TcpAccuracy.TwoMatchingItems` | tcp_accuracy.py:110-112 | two items that each score 1, under labels given as a list, average to 1.0 |
| `TcpAccuracy.PlainBoxMatches` | tcp_accuracy.py:110 | under a label other than "tcp_short", the prediction `prefix\boxed{body}`, where `prefix` has no backslash and `body` is stripped with no `}`, scores 1 against the reference `body` |
| `TcpAccuracy.BoxMatchesGMTSuffix` | tcp_accuracy.py:102-110 | under "tcp_short", the prediction `prefix\boxed{body}`, where `prefix` has no backslash and `body` is stripped with no `}` and no letter G, matches the reference `body + " GMT"` |
| `TcpAccuracy.DocumentationLongItem` | tcp_accuracy.py:52-53 | the documented "tcp_long" item scores 1 |
| `TcpAccuracy.DocumentationShortItem` | tcp_accuracy.py:52-53 | the documented "tcp_short" item scores 1, because the reference loses its " GMT" |
| `TcpAccuracy.DocumentationExample` | tcp_accuracy.py:52-56 | the documented call, with labels `["tcp_long", "tcp_short"]` and the averaging flag left at its default, has accuracy 1.0 |

## Left out

- The framework integration is not modelled: the `evaluate.Metric` subclass, `_info`, `MetricInfo`, `Features`, the docstring decorator, `_CITATION`, `_DESCRIPTION` and the URLs. These are metadata and calls into foreign libraries.
- The `{"accuracy": ...}` dictionary is not modelled; the `Accuracy` datatype stands for the value under that key.
- Python's general regular-expression engine is not modelled. Only the one fixed pattern is, as a direct substring search. `re.DOTALL` has no effect on this pattern: it has no `.`, and `[^}]` matches newlines anyway.
- `IsWhitespace` lists the characters Python 3's `str.isspace()` accepts. The Unicode database is not modelled, so this list follows current Python versions.
- Compute: the mean is an exact `real`, `count / length`. Floating-point rounding of `sum(...) / len(...)` is not modelled.
- Exception messages, such as "predictions cannot be empty", are not modelled; each error is a constructor of `ComputeError`.
- Non-string elements are not modelled. Python accepts them in a subset list, where the comparison with "tcp_short" is false (tcp_accuracy.py:103, :107). A non-string prediction makes `re.search` raise `TypeError` (tcp_accuracy.py:84), and a non-string reference under "tcp_short" fails at `.replace` (tcp_accuracy.py:107). The model's types rule all of them out.
