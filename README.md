# Symptom checker scoring, in Dafny

This project models the scoring core of the EasyGP symptom checker component
(`components/symptom-checker.tsx`). The user describes how they feel in free
text. The component then does five things:

- it matches the text against a fixed table of six conditions (Flu, Cold,
  Strep Throat, Bronchitis, Sinusitis, Allergies, each with symptoms,
  medications, wellness words and unwellness words);
- it scores every condition as the mean of two numbers: the cosine similarity
  between the text's symptom vector and the condition's own symptom vector, and
  the mean of the condition's wellness vector;
- it ranks the conditions by score, and the first one is the top condition;
- it ticks the symptom checkboxes it detects in the text;
- it turns the top condition and its score into one of three advice texts.

The modules follow the component's pieces:

- `Text` holds the JavaScript string operations the component relies on:
  `toLowerCase`, `includes` and `split(/\s+/)`.
- `Seqs` holds duplicate-free sequences, subsequences and first-seen
  deduplication (`Array.from(new Set(...))`).
- `Catalog` holds the condition table and the symptom universe `allSymptoms`.
- `Vectors` holds the symptom and wellness vectors, means and cosine
  similarity.
- `Scoring` holds the per-condition score, the stable descending ranking and
  the in-place sort of the score array.
- `Selection` holds the detection of symptoms in free text and the checkbox
  toggle.
- `Advice` holds the score bands and the advice texts (`getRecommendations`).
- `Checker` holds the component's state as a class. Its methods are the
  toggle handler, the two effects that run when the text changes, and the
  "Get Recommendations" handler.

Floating-point numbers are modelled as exact reals. `Math.sqrt` is a
parameter `sqrt: real -> real`. The lemmas that need its meaning require
`IsSqrt(sqrt)`, i.e. that it returns the non-negative square root.

`Array.prototype.sort` is specified as stable since ECMAScript 2019. It is
modelled by a stable insertion sort, `SortDesc`. The method that sorts the
array in place is proved to produce exactly `SortDesc` of the array's old
contents.

Two behaviours of the detection effect follow from the code as written, and
both are proved. First, the test runs in the opposite direction from the
vectoriser: a word of the text must occur inside the symptom. Second,
splitting an empty text, or a text that starts or ends with whitespace, yields
an empty word. The empty word occurs in every symptom, so such a text selects
every symptom. The effects first run on the empty initial text. For this
table every keyword is non-empty, so that first run scores every condition 0,
puts "Flu" (the table's first entry) on top and ticks every symptom.

## Model

| member | source | states |
|---|---|---|
| Catalog.FlatSymptoms | components/symptom-checker.tsx:55 | Defines the `flatMap` of the symptom lists, condition by condition. It has no contract of its own; `FlatSymptomsListed` states its membership. |
| Catalog.AllSymptoms | components/symptom-checker.tsx:55 | Defines `allSymptoms` as the first-seen deduplication of the flattened lists. It has no contract of its own; `AllSymptomsSpec` states its properties. |
| Catalog.ConditionsShape | components/symptom-checker.tsx:10-53 | The table has six conditions, and none of them lists an empty symptom, wellness word or unwellness word. |
| Catalog.AllSymptomsSpec | components/symptom-checker.tsx:55 | `allSymptoms` has no duplicates. It holds exactly the symptoms that some condition lists, ordered by where each first appears in the flattened table. |
| Catalog.FlatSymptomsListed | components/symptom-checker.tsx:55 | A symptom is in the `flatMap` of the symptom lists iff some condition lists it. |
| Seqs.Dedup | components/symptom-checker.tsx:55 | `Array.from(new Set(s))` has no duplicates and holds exactly the elements of `s`. |
| Seqs.DedupFirstSeenOrder | components/symptom-checker.tsx:55 | Deduplication keeps elements in the order of their first occurrence. |
| Text.IsSpace | components/symptom-checker.tsx:128 | Defines the characters `\s` matches: tab through carriage return, space, no-break space and the other Unicode space separators, line and paragraph separators, and the byte-order mark. |
| Text.Lower | components/symptom-checker.tsx:60 | Lowercasing keeps the length and lowers each character in place. |
| Text.LowerChar | components/symptom-checker.tsx:60 | A lowered character is never an upper-case ASCII letter; `A`..`Z` move up by 32, and every other character is unchanged. |
| Text.Contains | components/symptom-checker.tsx:60 | Defines `includes` as "the needle is a prefix of some suffix". It has no contract of its own; `ContainsIffOccurs` ties it to positional occurrence. |
| Text.ContainsIffOccurs | components/symptom-checker.tsx:60 | `includes` holds exactly when the needle occurs at some position of the haystack. |
| Text.Split | components/symptom-checker.tsx:128 | `split(/\s+/)` always yields at least one piece. |
| Text.SplitSolid | components/symptom-checker.tsx:128 | No piece of the split contains whitespace. |
| Text.Gaps | components/symptom-checker.tsx:128 | Defines the whitespace runs the split drops between consecutive pieces. It has no contract of its own; `GapsBlank` and `SplitJoin` state its properties. |
| Text.GapsBlank | components/symptom-checker.tsx:128 | Every dropped run is non-empty and consists of whitespace only. |
| Text.SplitJoin | components/symptom-checker.tsx:128 | There is one dropped run fewer than pieces, and joining the pieces with the dropped runs gives the text back. With `SplitSolid`, `GapsBlank` and `SplitInnerNonEmpty`, this makes the pieces exactly the maximal whitespace-free runs of the text, in order. |
| Text.SplitInnerNonEmpty | components/symptom-checker.tsx:128 | Only the first and the last piece of the split can be empty; every inner piece holds some text. |
| Text.SplitWithoutSpaces | components/symptom-checker.tsx:128 | Text without whitespace splits into itself alone. |
| Text.SplitHasEmptyWord | components/symptom-checker.tsx:128 | The split contains the empty word iff the text is empty or starts or ends with whitespace. |
| Vectors.SymptomVector | components/symptom-checker.tsx:59-61 | One entry per universe symptom. Every entry is 0 or 1, and entry i is 1 iff the lowered input includes the lowered symptom i. |
| Vectors.ConditionVector | components/symptom-checker.tsx:110-112 | One entry per universe symptom. Entry i is 1 iff the condition lists symptom i, and 0 otherwise. |
| Vectors.WellnessVector | components/symptom-checker.tsx:63-70 | The length is the number of wellness words plus unwellness words. Entries lie in -1..1, wellness entries are never -1 and unwellness entries are never +1. An entry is non-zero iff the lowered input includes that word. |
| Vectors.Cosine | components/symptom-checker.tsx:72-76 | Defines `cosineSimilarity`: the dot product over the product of the magnitudes, or 0 when either magnitude is 0. It has no contract of its own; `CosineZeroGuard`, `CosineBinaryWithin` and `CosineSelf` state its properties. |
| Vectors.Mean | components/symptom-checker.tsx:115 | Defines the wellness mean: the sum over the length, or 0 for the empty vector. It has no contract of its own; `MeanWithin` and `MeanAllZero` state its properties. |
| Vectors.SumSqZero | components/symptom-checker.tsx:74-75 | A squared magnitude is never negative, and it is 0 iff the vector is all zeros. |
| Vectors.CosineZeroGuard | components/symptom-checker.tsx:72-76 | Cosine similarity is 0 whenever either vector is all zeros. |
| Vectors.CosineBinaryWithin | components/symptom-checker.tsx:72-76 | The cosine similarity of two 0/1 vectors lies in 0..1. |
| Vectors.CosineSelf | components/symptom-checker.tsx:72-76 | A non-zero vector has similarity exactly 1 with itself. |
| Vectors.BinaryDotBounds | components/symptom-checker.tsx:73-75 | For 0/1 vectors, the dot product lies between 0 and either squared magnitude. |
| Vectors.SqrtZero | components/symptom-checker.tsx:74-76 | A true square root is 0 only at 0, so the `magnitudeA && magnitudeB` guard fails only for a zero vector. |
| Vectors.MeanWithin | components/symptom-checker.tsx:115 | The mean of a vector with entries in -1..1 lies in -1..1. |
| Vectors.MeanAllZero | components/symptom-checker.tsx:115 | The mean of an all-zero vector is 0, including the empty vector that the length guard handles. |
| Scoring.ScoreOf | components/symptom-checker.tsx:110-116 | Defines one condition's score: the mean of its symptom similarity and its wellness mean. It has no contract of its own; `ScoreWithin` and `NoMatchScoresZero` state its properties. |
| Scoring.Scores | components/symptom-checker.tsx:109-118 | One entry per condition, in table order, holding the condition's name, its score `(similarity + wellness mean) / 2` and its medications. |
| Scoring.ScoresNames | components/symptom-checker.tsx:109-118 | The score entries name the table's conditions in table order. |
| Scoring.ScoreWithin | components/symptom-checker.tsx:108-117 | With a true square root, every condition score lies in -1/2..1. |
| Scoring.NoMatchScoresZero | components/symptom-checker.tsx:108-116 | Input that includes no symptom and none of the condition's words scores exactly 0. |
| Scoring.NoMatchRanksInCatalogOrder | components/symptom-checker.tsx:108-124 | If the input matches nothing, every score is 0 and the ranking is the table order. |
| Scoring.EmptyInputRanksInCatalogOrder | components/symptom-checker.tsx:107-124 | If no keyword is empty, the empty text scores every condition 0. The ranking is the table order, with the table's first condition on top. |
| Scoring.SortDesc | components/symptom-checker.tsx:119 | Defines the stable descending sort as insertion of each entry, left to right. It has no contract of its own; `SortDescSorted`, `SortDescPermutes`, `SortDescStable` and `SortDescSpec` state its properties. |
| Scoring.Rank | components/symptom-checker.tsx:108-119 | Defines the ranking as the sorted scores of the table. It has no contract of its own; `RankSpec` states its properties. |
| Scoring.SortDescSorted | components/symptom-checker.tsx:119 | The descending sort yields scores that never increase. |
| Scoring.SortDescPermutes | components/symptom-checker.tsx:119 | The sort is a permutation of the entries and of their names, and it keeps the length. |
| Scoring.SortDescStable | components/symptom-checker.tsx:119 | The sort is stable: for every score, the entries with that score keep their input order. |
| Scoring.SortDescSpec | components/symptom-checker.tsx:119 | The sort is sorted, a permutation and stable, all together. |
| Scoring.SortDescOfSorted | components/symptom-checker.tsx:119 | Sorting an already sorted sequence changes nothing. |
| Scoring.RankSpec | components/symptom-checker.tsx:108-124 | The ranking has one entry per condition and the same names as the table. It is a sorted, stable permutation of the scores, and its first entry has the highest score. |
| Scoring.SortByScore | components/symptom-checker.tsx:119 | Sorting the array in place leaves exactly the stable descending sort of its old contents. |
| Scoring.InsertNext | components/symptom-checker.tsx:119 | One insertion step places the next entry into the sorted prefix and leaves the rest of the array unchanged. |
| Scoring.RankConditions | components/symptom-checker.tsx:108-119 | Building the score array and sorting it yields the ranking. |
| Selection.MatchesSome | components/symptom-checker.tsx:130 | Defines `words.some(...)`: some word occurs in the lowered symptom. |
| Selection.Select | components/symptom-checker.tsx:129-131 | The filter result is a subsequence of the symptoms. A symptom is kept iff some word occurs in its lowered form, and a duplicate-free list stays duplicate-free. |
| Selection.Detect | components/symptom-checker.tsx:127-133 | Detection returns a subsequence of the universe. A symptom is detected iff some word of the lowered, split input occurs in the lowered symptom. |
| Selection.SelectAllOnEmptyWord | components/symptom-checker.tsx:129-131 | If the words include the empty word, every symptom is selected. |
| Selection.DetectAllOnBlankEdge | components/symptom-checker.tsx:128-131 | Empty input, or input that starts or ends with whitespace, detects the whole universe. |
| Selection.DetectedByNonEmptyWord | components/symptom-checker.tsx:128-131 | For input without whitespace at either end, every detected symptom contains some non-empty word of the input. |
| Selection.RemoveAll | components/symptom-checker.tsx:103 | The filter removes every occurrence of the element. It keeps the other elements, as a subsequence of the list, and their membership. It keeps a list duplicate-free and is the identity when the element is absent. |
| Selection.RemoveAllCounts | components/symptom-checker.tsx:103 | The filter keeps every copy of every other element: the result's multiset is the list's with the element's count set to 0. With the subsequence clause of `RemoveAll`, this fixes the result. |
| Selection.Toggle | components/symptom-checker.tsx:101-105 | A present symptom is removed everywhere. The result is a subsequence of the list that keeps every copy of every other symptom. An absent symptom is appended at the end. |
| Selection.RemoveAllLast | components/symptom-checker.tsx:103 | Removing an element that occurs only at the end drops exactly that last element. |
| Selection.ToggleTwice | components/symptom-checker.tsx:101-105 | Toggling an absent symptom twice restores the original list. |
| Selection.ToggleKeepsNoDups | components/symptom-checker.tsx:101-105 | Toggling keeps a duplicate-free selection duplicate-free. |
| Advice.BandOf | components/symptom-checker.tsx:80-86 | High iff the score is above 0.7. Moderate iff it is above 0.4 and at most 0.7. Low iff it is at most 0.4. |
| Advice.BandBoundaries | components/symptom-checker.tsx:80-86 | The thresholds are strict: 0.7 is moderate and 0.4 is low. |
| Advice.BandMonotone | components/symptom-checker.tsx:80-86 | A higher score never falls into a lower band. |
| Advice.Message | components/symptom-checker.tsx:80-86 | Defines the three templates, each with the condition's name filled in; the low template names it twice. It has no contract of its own; `MessagesDiffer` states that the bands' texts differ. |
| Advice.Recommendation | components/symptom-checker.tsx:79-87 | The advice is exactly the template of the score's band with the condition filled in. It starts with "Your wellness score for ", names the top condition and contains " is " followed by the band's word. |
| Advice.MessagesDiffer | components/symptom-checker.tsx:79-87 | The three bands give three different texts, whatever the condition's name. |
| Checker.SymptomChecker.constructor | components/symptom-checker.tsx:90-99 | Every piece of state starts at its `useState` default, and the class invariant holds. |
| Checker.SymptomChecker.ToggleSymptom | components/symptom-checker.tsx:101-105 | The selection becomes its toggle, and the invariant (a duplicate-free selection within the universe) is kept. |
| Checker.SymptomChecker.RunScoring | components/symptom-checker.tsx:107-125 | The scores become the ranking for the current text. A non-empty ranking also sets the top condition and its score from its first entry. An empty ranking leaves them unchanged. |
| Checker.SymptomChecker.RunDetection | components/symptom-checker.tsx:127-133 | The selection becomes the symptoms detected in the current text. |
| Checker.SymptomChecker.SetFreeTextInput | components/symptom-checker.tsx:107-133 | A new text re-ranks the conditions and re-detects the symptoms. If the text is empty or starts or ends with whitespace, every symptom ends up selected. |
| Checker.SymptomChecker.GetRecommendations | components/symptom-checker.tsx:135-141 | With a top condition set, the advice is stored and shown. Without one, nothing changes. |

## Left out

- Rendering is not modelled. This covers the JSX, the SVG score gauge (its `Math.PI` arithmetic), the percentage formatting with `toFixed` and `Math.round`, the medication and "other conditions" lists, and the `selectedCondition` display. It is presentation only.
- The tonsil and gland selects and the two information dialogs are not modelled. They hold static text and state that nothing reads.
- `allWellnessWords` and `allUnwellnessWords` are not modelled. They are computed but never used.
- React scheduling is not modelled. The two effects are methods that `SetFreeTextInput` runs in order, and they write disjoint state, so their order does not matter. The effects' first run on mount is `SetFreeTextInput` with the empty text.
- Floating point is not modelled. Scores are exact reals, so rounding, NaN and infinities do not arise.
- `Math.sqrt` is a parameter and is not defined in the model. Its properties are assumed only through `IsSqrt` in the lemmas that need them.
- Text.Lower: lowers ASCII letters only, not the full Unicode case mapping of `toLowerCase`.
- Text.Split: covers the whitespace characters of `\s` but not the rest of the regular-expression engine.
- Checker.SymptomChecker.ToggleSymptom: requires the symptom to be in the universe. The component only calls it from the checkboxes it renders for `allSymptoms`, and the invariant needs it.
- Catalog: the table is a sequence of `Condition` values in key order. Looking up a condition by name (`conditionsData[condition]`) becomes passing the `Condition` itself.
- The `color` field is carried in the table but never used by the logic.
- components/ui/checkbox.tsx, components/ui/card.tsx and pages/index.tsx are not part of this model. They are thin wrappers and a page mount with no logic.
