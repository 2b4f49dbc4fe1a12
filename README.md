# Animal matcher: similarity core in Dafny

This project models the matching core of an animal-identification backend.
The catalog holds animals. Each animal may carry an image feature vector and
a dict of attributes such as `legs` or `diet`. A query is answered in one of two ways:

- **Image matching** (`find_best_image_match`): the query's feature vector is
  compared with every catalog vector by cosine similarity.
- **Attribute matching** (`find_best_attribute_match`): the query's
  attributes are compared with every animal's attributes. Numbers score by
  relative closeness to the candidate's value. Everything else scores by
  case-insensitive, whitespace-trimmed equality. The animal's score is the
  mean over the keys both sides share.

Both matchers run the same best-of-N scan. It starts from a sentinel score
of -1.0 and takes a candidate only on a strictly greater score, so the
earliest candidate wins ties. It returns `(None, None)` when no candidate
displaced the sentinel. The attribute payload sent by a client goes
through `parse_attributes` first. That function accepts a dict, `None`, a
blank string or the text of a JSON object, and raises `ValueError` with one
of two messages otherwise.

Modules:

- `Values` (values.dfy): the catalog record, attribute values, and dicts as
  insertion-ordered association lists with `Lookup`.
- `Text` (text.dfy): Python's `strip` and `lower` as used on attribute text.
- `Selection` (selection.dfy): the shared scan `Scan` and its reference
  specification `Describes`. The scan ends on the earliest maximal score
  above -1.0. Any result meeting `Describes` is the scan's result.
- `Similarity` (similarity.dfy): cosine similarity, the per-key and mean
  attribute scores, and the two matchers. The matchers are methods with the
  source's loops, proved equal to the specification functions `ImageMatch`
  and `AttributeMatch`.
- `Utils` (utils.dfy): `parse_attributes`.

The reals stand in for floats. Dafny has no real square root, so
the Euclidean norm is a parameter `norm`. Lemmas that need it to be the
Euclidean norm require `IsNormOf(norm, v)`: `norm(v) >= 0` and
`norm(v) * norm(v) == v . v`. Python's `float()` on strings and `json.loads` are
parameters too (`parse`, `decode`).

Behaviour of the code as written:

- `{"legs": 4}` against a candidate with `{"legs": 2}` scores 0.0.
  The denominator is `max(|a|, 1)` with `a` the candidate's value, so
  `1 - 2/2` is 0 (`Similarity.LegsExample`, `Similarity.NumericScoreAsymmetric`).
- An empty image query never yields `(None, None)` while some candidate has a
  vector. The guard at backend/similarity.py:29-30 cannot fire, because
  `_to_vec` returns `None` only for `None`. Every usable candidate then scores
  0.0, and the first one is returned with 0.0 (`Similarity.EmptyQueryMatchesFirstUsable`).
- A vector has similarity 1.0 with itself only when it is not the zero
  vector. The zero vector scores 0.0 against everything (`Similarity.ZeroVectorScoresZero`).
- The docstring of `attribute_similarity` (backend/similarity.py:57) says the
  final score is the average over all keys in the query. The code divides by
  the number of keys the candidate shares (backend/similarity.py:84), so a
  key the candidate lacks is skipped, not counted as 0 (`Similarity.AbsentKeySkipped`).
  The model follows the code.

## Model

| member | source | states |
|---|---|---|
| Values.Lookup | backend/similarity.py:66-68 | the key is absent exactly when no entry has it; a found value is stored under that key |
| Text.TrimLeft | backend/similarity.py:77 | the result is a suffix of the input; everything dropped is white space; the result does not start with white space |
| Text.TrimRight | backend/similarity.py:77 | the result is a prefix of the input; everything dropped is white space; the result does not end with white space |
| Text.Strip | backend/utils.py:29 | `str.strip()`: no longer than its input, and neither starts nor ends with white space |
| Text.LowerChar | backend/similarity.py:77 | `lower()` on one character: an upper-case ASCII letter becomes the lower-case letter at the same alphabet position, any other character is kept, no upper-case ASCII letter is left, and white space stays white space |
| Text.Lower | backend/similarity.py:77 | `str.lower()`: same length, each character lowered in place |
| Text.LowerAgrees | backend/similarity.py:77 | two strings whose characters lower alike, position by position, lower to the same string |
| Text.LowerKeepsEnds | backend/similarity.py:77 | lowering leaves white space at either end exactly where it was |
| Text.LowerNoUpper | backend/similarity.py:77 | lowering leaves no upper-case ASCII letter |
| Text.Normalise | backend/similarity.py:77 | `s.strip().lower()`, applied to `Display(v)`: no longer than its input, no padding, no upper-case ASCII letter |
| Text.StripEmptyIffAllSpace | backend/utils.py:29-31 | stripping leaves nothing exactly when every character is white space |
| Text.TrimLeftPadding | backend/utils.py:29 | lstrip removes leading white space and stops at the first other character |
| Text.TrimRightPadding | backend/utils.py:29 | rstrip removes trailing white space and stops at the last other character |
| Text.StripPadding | backend/utils.py:29 | strip removes any white-space padding around unpadded text and keeps that text |
| Text.NormaliseIgnoresPaddingAndCase | backend/similarity.py:77 | a white-space-padded copy of a text that differs from it only in ASCII case normalises as the text does |
| Selection.Scan | backend/similarity.py:32-43 | the scan's best index, when there is one, is in range and holds the best score, which is above -1.0; with no best the score is still the sentinel -1.0 |
| Selection.ScanStep | backend/similarity.py:40-42 | one loop iteration: the best moves to the new candidate exactly when its score is strictly greater than the best so far, and otherwise nothing changes |
| Selection.SelectBest | backend/similarity.py:44-46 | the animal and the score are absent together; a returned score is above -1.0 and belongs to the returned candidate |
| Selection.ScanFindsFirstBest | backend/similarity.py:32-46 | no best exactly when no scored candidate beats -1.0; otherwise the best is the earliest maximal scored candidate, above -1.0, with its own score |
| Selection.SelectBestDescribes | backend/similarity.py:32-46 | the returned pair is `(None, None)` exactly when nothing beats -1.0, and otherwise the earliest maximal candidate with its score |
| Selection.FirstBestUnique | backend/similarity.py:40-42 | under the strict comparison at most one candidate is the earliest maximal one |
| Selection.DescribesUnique | backend/similarity.py:32-46 | any pair meeting the matcher's promise is the scan's result, so the promise fixes the tie-break |
| Selection.SentinelNeverDisplaced | backend/similarity.py:33-42 | a candidate scoring exactly -1.0 is never chosen |
| Similarity.ToVec | backend/similarity.py:6-12 | the conversion gives `None` exactly for `None` and otherwise keeps the values |
| Similarity.CosineSimilarity | backend/similarity.py:15-21 | 0.0 when a vector is empty or the norm product is zero; otherwise the result times the norm product is the dot product |
| Similarity.DotZeroLeft | backend/similarity.py:21 | `np.dot` with the zero vector is 0 |
| Similarity.DotSymmetric | backend/similarity.py:21 | the dot product is symmetric |
| Similarity.DotSelfNonNegative | backend/similarity.py:18 | v . v is never negative |
| Similarity.DotSelfZeroIff | backend/similarity.py:18-19 | v . v is zero exactly for the zero vector |
| Similarity.NormZeroIff | backend/similarity.py:18-19 | under the Euclidean norm, a norm is zero exactly when v . v is |
| Similarity.DenominatorZeroIff | backend/similarity.py:18-20 | under the Euclidean norm, the zero-denominator guard fires exactly when one vector is all zeros |
| Similarity.CosineSymmetric | backend/similarity.py:15-21 | the similarity of a and b equals that of b and a |
| Similarity.CosineSelf | backend/similarity.py:15-21 | a vector with a non-zero entry has similarity 1.0 with itself |
| Similarity.ZeroVectorScoresZero | backend/similarity.py:15-20 | the zero vector scores 0.0 against every vector it can be compared with |
| Similarity.CauchySchwarz | backend/similarity.py:18-21 | (a . b)^2 <= (a . a)(b . b) |
| Similarity.CosineBounds | backend/similarity.py:15-21 | under the Euclidean norm every cosine score lies in [-1, 1] |
| Similarity.ImageScore | backend/similarity.py:36-39 | a candidate is skipped exactly when it has no feature vector; otherwise its score is the cosine similarity with the query |
| Similarity.ImageScores | backend/similarity.py:35-39 | one slot per candidate, in catalog order: slot i is candidate i's `ImageScore` (None when it has no vector) |
| Similarity.FindBestImageMatch | backend/similarity.py:24-46 | the loop returns exactly `ImageMatch`: the earliest candidate with a vector and the maximal score above -1.0, or `(None, None)` when there is none |
| Similarity.UnusableNeverMatched | backend/similarity.py:36-38 | a candidate without a feature vector is never the match |
| Similarity.NoVectorsNoImageMatch | backend/similarity.py:44-46 | with no candidate that has a vector, an empty catalog included, the result is `(None, None)` |
| Similarity.ImageMatchScoreRange | backend/similarity.py:32-46 | a returned score lies in (-1, 1]; there is no match exactly when every usable candidate scores -1.0 |
| Similarity.EmptyQueryMatchesFirstUsable | backend/similarity.py:28-46 | an empty query returns the first candidate with a vector, with score 0.0 |
| Similarity.OrthogonalExample | backend/similarity.py:24-46 | query [1, 0] against [1, 0] and [0, 1] returns the first, with 1.0 |
| Similarity.OppositeVectorNoMatch | backend/similarity.py:33-45 | a lone candidate pointing the opposite way gives `(None, None)` |
| Similarity.ToFloat | backend/similarity.py:72-73 | `float(v)` succeeds exactly for a number or a string the float parser accepts, gives a number's own value, and gives the parser's value for a string |
| Similarity.Display | backend/similarity.py:77 | `str(v)`: a string is itself, any other value its printed text |
| Similarity.NumericScore | backend/similarity.py:72-75 | the score lies in [0, 1], is 1.0 exactly for equal values, and is 0.0 exactly when the gap reaches max(abs(a), 1) |
| Similarity.KeyScore | backend/similarity.py:71-77 | bounds in [0, 1]; numeric closeness when both values parse as floats; otherwise 1.0 exactly when the stripped, lower-cased texts agree, else 0.0 |
| Similarity.Compared | backend/similarity.py:65-80 | at most one comparison per query key |
| Similarity.Total | backend/similarity.py:65-79 | the total lies between 0 and the number of compared keys |
| Similarity.Mean | backend/similarity.py:84 | the mean of a total in [0, count] is in [0, 1], and is 1.0 exactly when the total equals the count |
| Similarity.AttributeScore | backend/similarity.py:59-84 | the score lies in [0, 1]; it is 0.0 for an empty query and when no key is shared |
| Similarity.AttributeSimilarity | backend/similarity.py:49-84 | the loop's result is `AttributeScore`: the mean over the shared keys, or 0.0 |
| Similarity.CandidateAttrs | backend/similarity.py:95 | `animal.get("attributes") or {}`: empty exactly when the attributes are missing or empty, and otherwise the stored dict |
| Similarity.AttributeScores | backend/similarity.py:94-95 | one slot per candidate, in catalog order: slot i is the `AttributeScore` of the query against candidate i's attributes (`{}` when it has none) |
| Similarity.FindBestAttributeMatch | backend/similarity.py:87-102 | the loop returns exactly `AttributeMatch`, the earliest maximal candidate and its score |
| Similarity.AttributeMatchNoneIffEmpty | backend/similarity.py:91-102 | `(None, None)` exactly for an empty catalog; a returned score lies in [0, 1] |
| Similarity.EmptyAttributeQueryMatchesFirst | backend/similarity.py:87-102 | an empty query returns the first candidate with score 0.0 |
| Similarity.ComparedAppend | backend/similarity.py:65-80 | the comparison count of a concatenated query is the sum of the parts' counts |
| Similarity.TotalAppend | backend/similarity.py:65-79 | the total of a concatenated query is the sum of the parts' totals |
| Similarity.AbsentKeyAddsNothing | backend/similarity.py:66-67 | a query key the candidate lacks changes neither count nor total |
| Similarity.AbsentKeySkipped | backend/similarity.py:66-67 | inserting a key the candidate lacks anywhere in the query leaves the score unchanged |
| Similarity.ComparedZeroIff | backend/similarity.py:65-80 | nothing is compared exactly when no query key is in the candidate |
| Similarity.TotalFullIff | backend/similarity.py:65-80 | the total equals the count exactly when every shared key scores 1.0 |
| Similarity.AttributeScoreOneIff | backend/similarity.py:59-84 | the score is 1.0 exactly when some key is shared and every shared key scores 1.0 |
| Similarity.NoSharedKeyScoresZero | backend/similarity.py:82-84 | with no shared key the score is 0.0 |
| Similarity.KeyScoreSelf | backend/similarity.py:71-77 | every value scores 1.0 against itself |
| Similarity.LookupEntry | backend/similarity.py:68 | with distinct keys, looking up an entry's key gives that entry's value |
| Similarity.SelfTotal | backend/similarity.py:65-80 | every key of a dict compared with itself is counted and scores 1.0 |
| Similarity.AttributeScoreSelf | backend/similarity.py:49-84 | a non-empty attribute dict scores 1.0 against itself |
| Similarity.SingleKeyScore | backend/similarity.py:59-84 | with one shared key the overall score is that key's score |
| Similarity.TextMatchIgnoresPaddingAndCase | backend/similarity.py:76-77 | a text value that does not parse as a float scores 1.0 against a padded, differently cased copy of itself, as "Herbivore" does against " herbivore " |
| Similarity.NumericScoreAsymmetric | backend/similarity.py:75 | query 2 against candidate 4 gives 0.5; query 4 against candidate 2 gives 0.0 |
| Similarity.LegsExample | backend/similarity.py:49-84 | `{"legs": 4}` scores 1.0 against 4, 0.0 against 2; `{"legs": 2}` scores 0.5 against 4 |
| Utils.ParseAttributes | backend/utils.py:18-38 | a dict comes back unchanged; `None` gives `{}`; anything else that is not a string raises the fixed message; any other error is a decode failure of the stripped text, reported under the JSON prefix |
| Utils.BlankStringYieldsEmpty | backend/utils.py:28-31 | an empty or white-space-only string gives `{}` |
| Utils.ObjectStringYieldsFields | backend/utils.py:32-35 | a string decoding to a JSON object gives that object |
| Utils.InvalidJsonReported | backend/utils.py:36-37 | text that is not JSON raises `Invalid attributes JSON: ` followed by the decoder's message |
| Utils.NonObjectJsonRejected | backend/utils.py:33-38 | valid JSON that is not an object raises `Attributes must be a JSON object or dict.` |
| Utils.ParseSucceedsIff | backend/utils.py:24-38 | success exactly for a dict, `None`, a blank string, or text decoding to an object; an error carries exactly one of the two messages |
| Utils.PaddedObjectString | backend/utils.py:28-35 | a JSON object text with white-space padding around it decodes to that object, as `"\n{"legs": 4}\n"` does |

## Left out

- Float arithmetic: scores are exact reals. float32 conversion, rounding, NaN and infinities are not modelled.
- `_to_vec`'s `np.asarray(..., dtype="float32")` and `reshape(-1)`: vectors are flat sequences already.
- The Euclidean norm is a parameter. The operations accept any function, and only lemmas that need the Euclidean norm (zero norms, bounds, self-similarity and the worked examples) require `IsNormOf`.
- Similarity.CosineSimilarity: requires `Comparable`, equal lengths once the guards pass. With unequal lengths `np.dot` raises, and that exception is not modelled.
- Similarity.FindBestImageMatch: requires every candidate vector to be comparable with the query, for the same reason.
- Similarity.AttributeScore: its contract states bounds and the zero cases. The mean itself is the body (`Mean` of `Total` and `Compared`). The method `AttributeSimilarity` is proved equal to it, and `AttributeScoreOneIff` says when it reaches 1.0.
- Python's `float()` on strings is the parameter `parse`, and `json.loads` is the parameter `decode`. Neither grammar is modelled.
- Similarity.ToFloat: `float()` of an int too large for a double raises `OverflowError`, which the `except (ValueError, TypeError)` does not catch, so `attribute_similarity` raises. `Num` assumes `float()` succeeds on every number, and this exception is not modelled.
- `str.lower()` is modelled for ASCII letters only. Other Unicode case mappings are left out.
- `str()` of an int, float, bool, list or dict is carried as text alongside the value (`Num`, `Other`). It is not computed.
- Python dicts are association lists. Duplicate keys are excluded only where a lemma needs it (`DistinctKeys`).
- Utils.ParseAttributes: returning the very same dict object is modelled as returning an equal value. Object identity and aliasing are not modelled.
- `save_image_file` in backend/utils.py: filesystem I/O and random file names.
- The Flask routes and their 0.5 confidence threshold, the SQLite store, the ResNet feature extractor, the Gemini client and the browser front end are not part of this model.
