# WCAG checker core in Dafny

This project models the deterministic post-processing of an accessibility
checker for web pages. The checker reports infractions against four success
criteria of the Web Content Accessibility Guidelines 2.1:

- **1.4.3, contrast (minimum)** (`Wcag143`). Text boxes found on a
  screenshot are scored for contrast. The low ones are snapped into rows and
  merged into lines. The lines are then reported once per DOM element,
  keeping the lowest contrast.
- **1.4.11, non-text contrast** (`Wcag1411`, `ControlQuery`). Every form
  control is measured on the retina screenshot, together with a 20-pixel
  margin around it. A control below 3:1 is reported.
- **3.1.1, language of page** (`Wcag311`). The text outside elements that
  declare their own language is collected breadth first. The page is
  reported at `/html` when the language identifier confidently finds a
  language other than the declared one.
- **3.1.2, language of parts** (`Wcag312`). A recursive walk inherits
  `lang` downwards. It checks hidden attributes, lifts a report to the
  parent when all children agree on a wrong language, and folds short child
  texts into the parent's text. Everything goes into one append-only
  infraction log.

The shared helpers are `Utils14` (colour counting, contrast ratio, sampling,
the sibling-index xpath) and `Utils31` (the language truncation, the
URL/email/word regular expressions, word counting and the `> 0.8` prediction
gate). `Py` models the Python built-ins the code relies on: slicing with
negative indices, `int()` truncation, `strip`/`split`/`join`, `replace`
and `str(int)`. `Dom` is the page as an arena tree. Each element has a tag,
optional text, attributes, ordered children and a parent index.

Where the code mutates state, the model does too:

- `BoundingBox` is a class whose fields the scoring, snapping and merging
  passes update in place.
- The 3.1.2 log is a class with an `Append` method.
- `_get_root_text` and the 1.4.x filters are loops.

Each method is proved equal to a specification function of the state it
starts from, and the properties are lemmas about those functions. The
1.4.3 pipeline, for instance, is proved to return `Detected` of the
detected boxes' values, and `DetectedReported` states what every reported
infraction satisfies.

The outside world becomes parameters:

- the text detector's boxes;
- the relative luminance (gamma curve);
- the mean border colour;
- `elementFromPoint`;
- the langid classifier, typed to answer one of the four configured
  languages with a probability;
- lxml's `getpath`;
- the iteration order of the `HIDDEN_ATTRIBUTES` set.

Notes on the source:

- `wcag_1_4_3.py:15` imports `get_contrast_ratio` and `get_xpath_of_element`
  from `.utils`, which defines neither. They are modelled as the
  `utils_1_4.py` definitions.
- `wcag_1_4_11.py` uses a `ContrastInfraction` record that `models.py` does
  not define. It is modelled as a record with criterion, xpath, contrast and
  threshold.
- The control query lists `//datalists`, as the code does, although the
  element is `datalist`.
- `_get_root_text` is documented as depth first, but its `deque.popleft`
  makes it breadth first. The model follows the code; see
  `Wcag311.BreadthFirstOrder`.

## Model

Every function that computes something the code computes has a row, as do
the lemmas and methods about it. Predicates and functions without a row are
proof devices only: loop invariants (`Keeping`, `Snapping`, `Merging`,
`Spans`, `TiesInOrder`), orderings and stability (`KeyBefore`, `SortedBy`,
`Before`, `StableFor`), size measures (`Dom.Size`, `Dom.ForestSize`) and
well-formedness of the page (`Dom.WellFormed`, `Utils14.Rooted`,
`Wcag143.ValidPage`).

| member | source | states |
|---|---|---|
| Py.MinReal | src/accessibility_check_backend/wcag/wcag_1_4_3.py:226 | `min(a, b)` is at most both arguments and is one of them; the first wins a tie |
| Py.Trunc | src/accessibility_check_backend/wcag/wcag_1_4_3.py:250-251 | `int()` on a float truncates toward zero: the floor for non-negative values, the ceiling for negative ones |
| Py.Abs | src/accessibility_check_backend/wcag/wcag_1_4_3.py:222-224 | `abs` on integers; its use in the merge test is stated by `Wcag143.MergeWord` |
| Py.SliceIndex | src/accessibility_check_backend/wcag/utils_1_4.py:135-137 | one slice bound: counted from the end when negative, then clamped to `0..len`; in-range bounds are kept |
| Py.SliceBounds | src/accessibility_check_backend/wcag/wcag_1_4_11.py:118 | the normalised slice `s[start:stop]` lies within the sequence, equals the bounds when they are in range, and its length is that of the normalised bounds, zero when the normalised start is not before the normalised stop |
| Py.Strip | src/accessibility_check_backend/wcag/wcag_3_1_1.py:77 | `str.strip()` never lengthens, leaves no whitespace at either end, and keeps a text already without it |
| Py.Split | src/accessibility_check_backend/wcag/utils_3_1.py:115 | `str.split()` yields non-empty pieces without whitespace; `Py.SplitJoin` gives the pieces back from a single-space join |
| Py.SplitJoin | src/accessibility_check_backend/wcag/utils_3_1.py:115 | splitting a single-space join of non-empty, space-free pieces gives the pieces back |
| Py.Join | src/accessibility_check_backend/wcag/utils_3_1.py:98 | `sep.join(parts)`: the parts with `sep` between consecutive ones; its shape is stated by `Utils31.JoinCanonical` and `XPathUnion.AlternativesOfJoin` |
| Py.Replace | src/accessibility_check_backend/wcag/wcag_3_1_2.py:67 | `str.replace` of one character: same length, each occurrence of `from` becomes `to` and every other character is kept |
| Py.NatToString | src/accessibility_check_backend/wcag/utils_1_4.py:234 | `str(count)` of a natural number is a non-empty string of decimal digits |
| Utils14.Crop | src/accessibility_check_backend/wcag/utils_1_4.py:135-137 | a numpy crop `img[y1:y2, x1:x2]` with Python's slice clamping and negative wrap: size and pixel-by-pixel contents |
| Utils14.Pixels | src/accessibility_check_backend/wcag/utils_1_4.py:98 | flattening keeps every pixel row by row; its length is the total pixel count |
| Utils14.PixelCount | src/accessibility_check_backend/wcag/utils_1_4.py:98 | a rectangular image flattens to height × width pixels, and to none exactly when one side is zero |
| Utils14.FirstIndex | src/accessibility_check_backend/wcag/utils_1_4.py:104 | the first occurrence of a colour, which fixes `Counter`'s insertion order |
| Utils14.Best | src/accessibility_check_backend/wcag/utils_1_4.py:105 | the colour of maximal count outside an excluded one, ties to the first encountered; none only when every pixel is excluded |
| Utils14.Count | src/accessibility_check_backend/wcag/utils_1_4.py:104 | `Counter`'s count of a colour: its multiplicity among the pixels, which `Utils14.Best` and `Utils14.TopTwo` maximise |
| Utils14.TopTwo | src/accessibility_check_backend/wcag/utils_1_4.py:104-105 | `most_common(2)`: at most two distinct colours of the region, empty iff the region is; the first has maximal count and the second maximal count among the rest, ties to the first seen |
| Utils14.SingleColour | src/accessibility_check_backend/wcag/utils_1_4.py:104-110 | a region of one colour yields exactly that colour |
| Utils14.MostCommonColors | src/accessibility_check_backend/wcag/utils_1_4.py:98-110 | always two entries: the top colours in order, padded with None |
| Utils14.Linearize | src/accessibility_check_backend/wcag/utils_1_4.py:36-53 | linearisation is non-negative, maps 0 to 0 and 255 to 1 |
| Utils14.ContrastRatioBySum | src/accessibility_check_backend/wcag/utils_1_4.py:33-34 | the ratio as written (light and dark chosen by channel sum) is positive, and exactly 1 for equal channel sums |
| Utils14.ChannelSum | src/accessibility_check_backend/wcag/utils_1_4.py:33-34 | `np.sum(color)`, the sum of the three channels that picks light and dark as written |
| Utils14.WcagLuminance | src/accessibility_check_backend/wcag/utils_1_4.py:55-70 | `relative_luminance` with the weights 0.2126, 0.7152, 0.0722 on the linearised channels; its values are used by `Utils14.WhiteOnBlack` and `Utils14.MagentaGreenDiffer` |
| Utils14.ContrastRatioBySumSymmetric | src/accessibility_check_backend/wcag/utils_1_4.py:33-34 | the ratio as written does not depend on argument order |
| Utils14.ContrastRatioBySumBelowOne | src/accessibility_check_backend/wcag/utils_1_4.py:33-72 | as written, magenta against green gives a ratio below 1 (see Findings) |
| Utils14.ContrastRatio | src/accessibility_check_backend/wcag/utils_1_4.py:72 | the ratio with light and dark chosen by luminance is at least 1, and exactly 1 iff the luminances are equal |
| Utils14.Ratio | src/accessibility_check_backend/wcag/utils_1_4.py:72 | `(light + 0.05) / (dark + 0.05)` is at least 1, with equality iff light equals dark |
| Utils14.ContrastRatioSymmetric | src/accessibility_check_backend/wcag/utils_1_4.py:72 | the corrected ratio is symmetric |
| Utils14.ContrastRatioAgreesBySum | src/accessibility_check_backend/wcag/utils_1_4.py:33-34 | where channel sums order colours as luminance does, the as-written and corrected ratios coincide |
| Utils14.WhiteOnBlack | src/accessibility_check_backend/wcag/utils_1_4.py:49-72 | white on black gives 21:1 under the WCAG luminance weights |
| Utils14.Max3 | src/accessibility_check_backend/wcag/utils_1_4.py:165 | `max` of three is one of them and bounds all three |
| Utils14.BySum | src/accessibility_check_backend/wcag/utils_1_4.py:153-162 | the pair rule the sampler uses is `calculate_contrast_ratio`, the channel-sum ratio |
| Utils14.ByLuminance | src/accessibility_check_backend/wcag/utils_1_4.py:57-72 | the corrected pair rule is the WCAG ratio, which never scores a pair below 1 |
| Utils14.SampledAtLeastOne | src/accessibility_check_backend/wcag/utils_1_4.py:113-165 | under a rule that never scores below 1, a sampled contrast is -1 or at least 1 |
| Utils14.SampledBelowOne | src/accessibility_check_backend/wcag/utils_1_4.py:33-34 | as written, a green word between magenta strips is sampled below 1, while the corrected rule gives above 1 (see Findings) |
| Utils14.MagentaGreenDiffer | src/accessibility_check_backend/wcag/utils_1_4.py:57-72 | magenta and green have different WCAG luminances |
| Utils14.SampledContrast | src/accessibility_check_backend/wcag/utils_1_4.py:113-165 | for any rule scoring a pair of colours positively, the sampled contrast is the sentinel -1 iff the word box holds no pixel, and otherwise positive |
| Utils14.SampledSingleColour | src/accessibility_check_backend/wcag/utils_1_4.py:140-165 | a one-colour box yields the pair rule applied to the border and that colour |
| Utils14.SampledAtLeastInner | src/accessibility_check_backend/wcag/utils_1_4.py:143-165 | with two colours the result is at least the pair rule applied to those two |
| Utils14.CropInside | src/accessibility_check_backend/wcag/utils_1_4.py:135 | a crop inside the image has exactly the requested size |
| Utils14.SampledInside | src/accessibility_check_backend/wcag/utils_1_4.py:135-165 | a non-empty box inside the image never yields the sentinel, under any positive pair rule |
| Utils14.TagCount | src/accessibility_check_backend/wcag/utils_1_4.py:231-234 | the same-tag count over a prefix of the siblings is bounded by the prefix length |
| Utils14.TagCountMonotone | src/accessibility_check_backend/wcag/utils_1_4.py:231-234 | the count only grows along the siblings |
| Utils14.SiblingRank | src/accessibility_check_backend/wcag/utils_1_4.py:231-237 | the `[k]` index is at least 1 |
| Utils14.SiblingRanksDistinct | src/accessibility_check_backend/wcag/utils_1_4.py:230-237 | two different siblings with one tag get different indices |
| Utils14.XPathShape | src/accessibility_check_backend/wcag/utils_1_4.py:205-240 | the xpath is either "" or starts with `/html[1]` and ends with the accumulated suffix |
| Utils14.XPath | src/accessibility_check_backend/wcag/utils_1_4.py:205-240 | `get_xpath_of_element`: `/html[1]` at the root, otherwise `/tag[k]` with the sibling rank prepended and the parent's xpath taken; its shape is `Utils14.XPathShape` and the loop is tied to it by `Utils14.XPathOf` |
| Utils14.XPathOfRoot | src/accessibility_check_backend/wcag/utils_1_4.py:221-222 | the `html` element's xpath is `/html[1]` |
| Utils14.XPathOf | src/accessibility_check_backend/wcag/utils_1_4.py:221-240 | the counting loop over the parent's children computes the recursive xpath |
| Wcag143.BoundingBox.constructor | src/accessibility_check_backend/wcag/wcag_1_4_3.py:21-30 | a new box has its corners and an unset (-1) contrast and threshold |
| Wcag143.Values | src/accessibility_check_backend/wcag/wcag_1_4_3.py:21-30 | the field values of a list of boxes, one per box |
| Wcag143.NewSize | src/accessibility_check_backend/wcag/wcag_1_4_3.py:119 | each new dimension is a multiple of 32, strictly larger than the old one and at most 32 larger; a multiple of 32 still grows by 32 |
| Wcag143.Enlarged | src/accessibility_check_backend/wcag/wcag_1_4_3.py:56-59 | the resized retina screenshot is a rectangular image |
| Wcag143.Threshold | src/accessibility_check_backend/wcag/wcag_1_4_3.py:68 | the threshold is 4.5 iff the box is lower than 20 pixels, and 3.0 otherwise |
| Wcag143.Score | src/accessibility_check_backend/wcag/wcag_1_4_3.py:64-66 | a box's score, under the channel-sum rule, is the sentinel -1 iff its doubled box holds no pixel, and otherwise positive |
| Wcag143.Scorer | src/accessibility_check_backend/wcag/wcag_1_4_3.py:64-66 | the scoring function samples the doubled box on the resized image |
| Wcag143.Scored | src/accessibility_check_backend/wcag/wcag_1_4_3.py:68-71 | scoring writes contrast and threshold and leaves the corners alone |
| Wcag143.Kept | src/accessibility_check_backend/wcag/wcag_1_4_3.py:63-72 | the kept boxes are no more than the detected ones, and all are reportable |
| Wcag143.KeptExactly | src/accessibility_check_backend/wcag/wcag_1_4_3.py:68-72 | a scored box is kept iff `1.2 <= contrast < threshold`, and the kept boxes are exactly those scored boxes |
| Wcag143.IsLow | src/accessibility_check_backend/wcag/wcag_1_4_3.py:69 | `contrast < min_contrast and contrast >= 1.2`; `Wcag143.KeptExactly` states that the kept boxes are exactly these |
| Wcag143.Reportable | src/accessibility_check_backend/wcag/wcag_1_4_3.py:68-72 | a low box whose threshold is 4.5 or 3.0, the only two the criterion sets |
| Wcag143.Scores | src/accessibility_check_backend/wcag/wcag_1_4_3.py:64-66 | the score of each detected box, in order |
| Wcag143.KeptContrasts | src/accessibility_check_backend/wcag/wcag_1_4_3.py:64-72 | every kept contrast is the score of some detected box |
| Wcag143.KeepLowContrast | src/accessibility_check_backend/wcag/wcag_1_4_3.py:61-72 | the loop keeps, in order, exactly the boxes `Kept` describes, writes their contrast and threshold, and leaves rejected boxes unchanged |
| Wcag143.KeepTurn | src/accessibility_check_backend/wcag/wcag_1_4_3.py:63-72 | after one more iteration the kept list, in order, holds exactly the boxes `Kept` selects among the first `i + 1` (score at least 1.2 and below the threshold); rejected and unvisited boxes keep their values |
| Wcag143.InsertBy | src/accessibility_check_backend/wcag/wcag_1_4_3.py:74 | insertion adds exactly one element |
| Wcag143.InsertBySorted | src/accessibility_check_backend/wcag/wcag_1_4_3.py:74 | insertion into a sorted list keeps it sorted |
| Wcag143.InsertByAbove | src/accessibility_check_backend/wcag/wcag_1_4_3.py:74 | a key that precedes the inserted box and every box of the list precedes every box of the result |
| Wcag143.SortBy | src/accessibility_check_backend/wcag/wcag_1_4_3.py:74 | sorting is a permutation |
| Wcag143.SortBySorted | src/accessibility_check_backend/wcag/wcag_1_4_3.py:74 | the sorted list is ordered by key |
| Wcag143.RowKeys | src/accessibility_check_backend/wcag/wcag_1_4_3.py:74 | the key of a box is `[y1, x1]` |
| Wcag143.RowKeySeq | src/accessibility_check_backend/wcag/wcag_1_4_3.py:74 | the `[y1, x1]` keys of a list of boxes, in order |
| Wcag143.SortRowsSorts | src/accessibility_check_backend/wcag/wcag_1_4_3.py:74 | `sorted(..., key=[y1, x1])` is a permutation ordered by `(y1, x1)` |
| Wcag143.SortRows | src/accessibility_check_backend/wcag/wcag_1_4_3.py:74 | `sorted(low_boxes, key=lambda b: [b.y1, b.x1])`; `Wcag143.SortRowsSorts` and `Wcag143.SortByStable` state that it is an ordered, stable permutation |
| Wcag143.SortByRow | src/accessibility_check_backend/wcag/wcag_1_4_3.py:74 | the sort call returns `SortRows`, a permutation sorted by `(y1, x1)` |
| Wcag143.InsertByAt | src/accessibility_check_backend/wcag/wcag_1_4_3.py:74 | insertion puts the element after every element whose key is strictly smaller, keeping the rest in order |
| Wcag143.SortByStable | src/accessibility_check_backend/wcag/wcag_1_4_3.py:74 | `sorted` is stable: two elements with equal keys keep their relative order |
| Wcag143.InsertedPair | src/accessibility_check_backend/wcag/wcag_1_4_3.py:74 | one insertion keeps every pair with equal keys in input order |
| Wcag143.InTail | src/accessibility_check_backend/wcag/wcag_1_4_3.py:74 | a rearranged tail of a list without duplicates holds no copy of the head |
| Wcag143.StableUnique | src/accessibility_check_backend/wcag/wcag_1_4_3.py:74 | two stable sorts of the same distinct elements by the same key are the same list |
| Wcag143.OrderedTail | src/accessibility_check_backend/wcag/wcag_1_4_3.py:74 | the tail of a sorted, stable list is sorted and stable |
| Wcag143.SameHead | src/accessibility_check_backend/wcag/wcag_1_4_3.py:74 | two stable sorts of the same elements start with the same element |
| Wcag143.SortByKeepsOrder | src/accessibility_check_backend/wcag/wcag_1_4_3.py:74 | sorting keeps `a` before `b` when `a`'s key does not come after `b`'s |
| Wcag143.KeepsOrderIn | src/accessibility_check_backend/wcag/wcag_1_4_3.py:74 | in a sorted, stable list, `a` comes before `b` when it did in the input and its key is not larger |
| Wcag143.TiesInOrderSelf | src/accessibility_check_backend/wcag/wcag_1_4_3.py:74 | a list without duplicates has every pair in its own order |
| Wcag143.TiesAfterSort | src/accessibility_check_backend/wcag/wcag_1_4_3.py:76-80 | a re-sort under keys that order each tied pair keeps that pair in order |
| Wcag143.TiesStable | src/accessibility_check_backend/wcag/wcag_1_4_3.py:76-80 | with the final keys, pairs kept in order make the list a stable arrangement |
| Wcag143.MapSeq | src/accessibility_check_backend/wcag/wcag_1_4_3.py:74 | a map keeps the length and applies the function at each index |
| Wcag143.InsertByMap | src/accessibility_check_backend/wcag/wcag_1_4_3.py:74 | inserting commutes with a map that keeps the keys |
| Wcag143.SortByMap | src/accessibility_check_backend/wcag/wcag_1_4_3.py:74 | sorting commutes with a map that keeps the keys |
| Wcag143.ValueOf | src/accessibility_check_backend/wcag/wcag_1_4_3.py:74 | the snapshot of each box's value |
| Wcag143.ValuesMapped | src/accessibility_check_backend/wcag/wcag_1_4_3.py:74 | the values of the boxes are the snapshot mapped over them |
| Wcag143.ValuesSortRows | src/accessibility_check_backend/wcag/wcag_1_4_3.py:74 | sorting the boxes by `[y1, x1]` sorts their values by the same key |
| Wcag143.SnapY | src/accessibility_check_backend/wcag/wcag_1_4_3.py:75-79 | snapping keeps the number of rows |
| Wcag143.SnapYExtend | src/accessibility_check_backend/wcag/wcag_1_4_3.py:76-79 | one more box snaps against the last snapped top |
| Wcag143.SnapYKeepsOrJoins | src/accessibility_check_backend/wcag/wcag_1_4_3.py:77-79 | each top is unchanged or set to the previous snapped top when they differ by at most 3 |
| Wcag143.SnapYFromEarlier | src/accessibility_check_backend/wcag/wcag_1_4_3.py:76-79 | every snapped top is the original top of that box or of an earlier one |
| Wcag143.SnappedFrom | src/accessibility_check_backend/wcag/wcag_1_4_3.py:76-79 | when each top is kept or copies its predecessor, the top at `k` is the original top of some box at or before `k` |
| Wcag143.SnapYIdempotent | src/accessibility_check_backend/wcag/wcag_1_4_3.py:75-79 | snapping twice changes nothing more |
| Wcag143.SnapYAscending | src/accessibility_check_backend/wcag/wcag_1_4_3.py:74-79 | on ascending tops, snapping only lowers a top and keeps the order |
| Wcag143.SnapYPrefix | src/accessibility_check_backend/wcag/wcag_1_4_3.py:76-79 | the snapped tops of a prefix of the boxes are a prefix of the snapped tops |
| Wcag143.TopsOf | src/accessibility_check_backend/wcag/wcag_1_4_3.py:77 | the tops of the boxes, in order |
| Wcag143.Resnap | src/accessibility_check_backend/wcag/wcag_1_4_3.py:75-79 | snapping keeps the number of boxes |
| Wcag143.SnapBox | src/accessibility_check_backend/wcag/wcag_1_4_3.py:77-79 | one step sets `y1` to the previous top within 3 pixels, except for the first box, and changes no other field |
| Wcag143.SnapPass | src/accessibility_check_backend/wcag/wcag_1_4_3.py:76-80 | the loop visits the first sorted order, snaps `y1` as `Resnap` says and changes only `y1`; the list it ends with is the stable sort of the snapped boxes, and its values are `Resnap` of the old values sorted by `(y1, x1)` |
| Wcag143.SnapTurn | src/accessibility_check_backend/wcag/wcag_1_4_3.py:76-79 | one iteration snaps box `i` to the previous snapped top when within the tolerance, and the snapping invariant then covers `i + 1` boxes |
| Wcag143.SnappedAll | src/accessibility_check_backend/wcag/wcag_1_4_3.py:75-80 | once the loop has visited every box, the boxes hold exactly the tops `Resnap` computes |
| Wcag143.SnapRows | src/accessibility_check_backend/wcag/wcag_1_4_3.py:74-80 | the result is a permutation of the kept boxes sorted by `(y1, x1)`, with only `y1` changed, and its values are `SnapSorted` of the old values |
| Wcag143.SnapSorted | src/accessibility_check_backend/wcag/wcag_1_4_3.py:74-80 | sort, snap, sort again: a rearrangement of the snapped boxes, ordered by `(y1, x1)` |
| Wcag143.FinalKeys | src/accessibility_check_backend/wcag/wcag_1_4_3.py:74-80 | the `(y1, x1)` keys of the boxes after snapping, one per box |
| Wcag143.BoxKeys | src/accessibility_check_backend/wcag/wcag_1_4_3.py:74 | the `(y1, x1)` keys of box values, in order |
| Wcag143.TurnKeys | src/accessibility_check_backend/wcag/wcag_1_4_3.py:76-80 | during the pass, two boxes that end up with equal keys already have keys in their first-sort order |
| Wcag143.TiesAfterTurn | src/accessibility_check_backend/wcag/wcag_1_4_3.py:76-80 | each re-sort in the pass keeps boxes with equal final keys in their first-sort order |
| Wcag143.TiesSorted | src/accessibility_check_backend/wcag/wcag_1_4_3.py:76-80 | at the end of the pass the list is exactly the stable sort of the boxes by their final keys |
| Wcag143.PassTurn | src/accessibility_check_backend/wcag/wcag_1_4_3.py:76-80 | one iteration snaps box `i` and re-sorts, keeping the list a sorted permutation whose tied boxes are in first-sort order |
| Wcag143.DistinctPermutation | src/accessibility_check_backend/wcag/wcag_1_4_3.py:74 | a permutation of distinct boxes has distinct boxes |
| Wcag143.Joined | src/accessibility_check_backend/wcag/wcag_1_4_3.py:226-227 | a merge takes the lower contrast and the new `x2`, and keeps `x1`, `y1`, `y2` and the threshold |
| Wcag143.Joins | src/accessibility_check_backend/wcag/wcag_1_4_3.py:221-225 | the merge test: the x gap below the previous line's height and both y differences below half of it; `Wcag143.MergeWord` states that the loop joins exactly then |
| Wcag143.Merge | src/accessibility_check_backend/wcag/wcag_1_4_3.py:215-230 | merging yields no more lines than boxes, none iff there were no boxes, and each line headed by an input box in input order |
| Wcag143.MinContrastIsLowest | src/accessibility_check_backend/wcag/wcag_1_4_3.py:226 | the contrast of a merged group is the lowest among its boxes, and is one of them |
| Wcag143.MinContrast | src/accessibility_check_backend/wcag/wcag_1_4_3.py:226 | the running `min` of the contrasts of a group of boxes; `Wcag143.MinContrastIsLowest` states that it is the lowest and one of them |
| Wcag143.MinContrastPrefix | src/accessibility_check_backend/wcag/wcag_1_4_3.py:226 | the lowest contrast of a group does not depend on later boxes |
| Wcag143.SpanPrefix | src/accessibility_check_backend/wcag/wcag_1_4_3.py:220-227 | the merged value of a group does not depend on later boxes |
| Wcag143.SpanExtend | src/accessibility_check_backend/wcag/wcag_1_4_3.py:220-227 | a group grows by joining its next box |
| Wcag143.MergeSpans | src/accessibility_check_backend/wcag/wcag_1_4_3.py:215-230 | every output line is its head box joined with every box up to the next head |
| Wcag143.SpansAfterJoin | src/accessibility_check_backend/wcag/wcag_1_4_3.py:225-227 | a box that joins the last line extends that line's group |
| Wcag143.SpanAfterJoinAt | src/accessibility_check_backend/wcag/wcag_1_4_3.py:225-227 | after a join, every earlier line keeps its span and the last line becomes the span up to the new box |
| Wcag143.HeadsAppend | src/accessibility_check_backend/wcag/wcag_1_4_3.py:229 | a box that opens a new line becomes the next head |
| Wcag143.SpansAfterNewLine | src/accessibility_check_backend/wcag/wcag_1_4_3.py:228-229 | a box that does not join opens a new group of its own |
| Wcag143.MergeKeepsReportable | src/accessibility_check_backend/wcag/wcag_1_4_3.py:215-230 | merging reportable boxes gives reportable lines |
| Wcag143.MergeContrasts | src/accessibility_check_backend/wcag/wcag_1_4_3.py:226 | every merged contrast is one of the input contrasts |
| Wcag143.JoinInto | src/accessibility_check_backend/wcag/wcag_1_4_3.py:226-227 | the in-place merge sets the head to `Joined` |
| Wcag143.MergeWord | src/accessibility_check_backend/wcag/wcag_1_4_3.py:217-229 | a box joins the last line iff the x gap is below the line height and both y differences below half of it; otherwise it is appended |
| Wcag143.JoinLast | src/accessibility_check_backend/wcag/wcag_1_4_3.py:220-227 | only the last line changes when a box joins it |
| Wcag143.MergeStepFrom | src/accessibility_check_backend/wcag/wcag_1_4_3.py:216-229 | one more box extends `Merge` by one join or one new line |
| Wcag143.NotYetMerged | src/accessibility_check_backend/wcag/wcag_1_4_3.py:216 | a box not yet visited is not yet among the lines |
| Wcag143.MergeNext | src/accessibility_check_backend/wcag/wcag_1_4_3.py:216-229 | one loop step keeps the merge invariant |
| Wcag143.MergingAfterJoin | src/accessibility_check_backend/wcag/wcag_1_4_3.py:225-227 | a box that joins the last line leaves the word list unchanged and the merge invariant covering one more box |
| Wcag143.MergingAfterNewLine | src/accessibility_check_backend/wcag/wcag_1_4_3.py:228-229 | a box that does not join starts a new line headed by itself, and the merge invariant covers one more box |
| Wcag143.ConcatenateWordsHorizontally | src/accessibility_check_backend/wcag/wcag_1_4_3.py:202-230 | the output boxes are the input boxes at `Merge`'s head positions, with the merged values, and no other box changes |
| Wcag143.HalfTrunc | src/accessibility_check_backend/wcag/wcag_1_4_3.py:250-251 | `int(a + (b - a) / 2)` is the floor midpoint for non-negative sums |
| Wcag143.Centroid | src/accessibility_check_backend/wcag/wcag_1_4_3.py:248-252 | the probe point `int(x1 + (x2 - x1) / 2)`, `int(y1 + (y2 - y1) / 2)`; `Wcag143.CentroidIsMidpoint` states that it is the integer midpoint inside the box |
| Wcag143.Locate | src/accessibility_check_backend/wcag/wcag_1_4_3.py:85-89 | the xpath of the element under the probe point, or nothing when `get_dom_element` finds none |
| Wcag143.CentroidIsMidpoint | src/accessibility_check_backend/wcag/wcag_1_4_3.py:248-252 | the hit-test point is the integer midpoint of the box, and lies inside it |
| Wcag143.Located | src/accessibility_check_backend/wcag/wcag_1_4_3.py:84-89 | each line is paired with the xpath of the element at its centre, or with nothing |
| Wcag143.ValuesOf | src/accessibility_check_backend/wcag/wcag_1_4_3.py:103 | `list(dict.values())` lists one entry per key, in key order |
| Wcag143.Report | src/accessibility_check_backend/wcag/wcag_1_4_3.py:83-101 | the dictionary's keys and entries agree |
| Wcag143.ReportOK | src/accessibility_check_backend/wcag/wcag_1_4_3.py:83-101 | the dictionary has no repeated key |
| Wcag143.ReportKeys | src/accessibility_check_backend/wcag/wcag_1_4_3.py:84-101 | an xpath is a key iff some located line resolved to it |
| Wcag143.ReportKeepsLowest | src/accessibility_check_backend/wcag/wcag_1_4_3.py:90-101 | an xpath's entry comes from the last of its lines with the lowest contrast (a tie goes to the later line) |
| Wcag143.LowestLastKept | src/accessibility_check_backend/wcag/wcag_1_4_3.py:92-93 | a line with a higher contrast leaves the entry alone |
| Wcag143.LowestLastReplaced | src/accessibility_check_backend/wcag/wcag_1_4_3.py:95-101 | a line with a lower or equal contrast replaces the entry |
| Wcag143.LowestLastFirst | src/accessibility_check_backend/wcag/wcag_1_4_3.py:95-101 | the first line of an xpath creates its entry |
| Wcag143.ReportOrder | src/accessibility_check_backend/wcag/wcag_1_4_3.py:83-103 | keys are in the order in which each xpath was first seen |
| Wcag143.FirstSeenSame | src/accessibility_check_backend/wcag/wcag_1_4_3.py:90-101 | updating an existing key keeps the key order |
| Wcag143.FirstSeenNew | src/accessibility_check_backend/wcag/wcag_1_4_3.py:101 | a new xpath goes to the end of the key order |
| Wcag143.ReportStep | src/accessibility_check_backend/wcag/wcag_1_4_3.py:84-101 | one more line updates the dictionary by one `Record` |
| Wcag143.Put | src/accessibility_check_backend/wcag/wcag_1_4_3.py:101 | `infractions_dict[xpath] = infraction`: a new key goes to the end of the key order, an existing key keeps its place; the order is stated by `Wcag143.ReportOrder` |
| Wcag143.InfractionOf | src/accessibility_check_backend/wcag/wcag_1_4_3.py:95-100 | the `WCAG_1_4_3` infraction for an xpath with the box's contrast and threshold |
| Wcag143.Record | src/accessibility_check_backend/wcag/wcag_1_4_3.py:84-101 | one turn of the reporting loop: skip a box with no element, skip it when its xpath holds a strictly lower contrast, otherwise put its infraction; stated by `Wcag143.LowestLastKept`, `Wcag143.LowestLastReplaced` and `Wcag143.LowestLastFirst` |
| Wcag143.ReportByXPath | src/accessibility_check_backend/wcag/wcag_1_4_3.py:83-103 | the dedup loop returns the dictionary's values, computed as `Report` says |
| Wcag143.ReportedList | src/accessibility_check_backend/wcag/wcag_1_4_3.py:95-103 | each reported infraction is a `WCAG_1_4_3` one for its key, with a reportable contrast from the input |
| Wcag143.SnapCandidates | src/accessibility_check_backend/wcag/wcag_1_4_3.py:74-80 | the snapped list's values are `SnapSorted` of the kept values, and the boxes stay reportable with their contrasts |
| Wcag143.MergeCandidates | src/accessibility_check_backend/wcag/wcag_1_4_3.py:81 | the merged words' values are `Merge` of the snapped values, and the lines stay reportable with contrasts from the input |
| Wcag143.DetectWcag143 | src/accessibility_check_backend/wcag/wcag_1_4_3.py:37-103 | the infractions are `Detected` of the detected boxes' values under the channel-sum score; every infraction is reportable (`1.2 <= contrast < threshold`), its contrast is the score of some detected box, and no xpath is reported twice |
| Wcag143.Detected | src/accessibility_check_backend/wcag/wcag_1_4_3.py:60-103 | the criterion on box values: keep the low boxes, snap, merge, report per xpath |
| Wcag143.DetectedReported | src/accessibility_check_backend/wcag/wcag_1_4_3.py:60-103 | every infraction of `Detected` is reportable, carries the score of a detected box, and has its own xpath |
| Wcag143.SnapSortedCandidates | src/accessibility_check_backend/wcag/wcag_1_4_3.py:74-80 | sorting and snapping keep candidates candidates |
| Wcag143.CandidatesPermuted | src/accessibility_check_backend/wcag/wcag_1_4_3.py:74 | a rearrangement of candidates holds only candidates |
| Wcag1411.Area | src/accessibility_check_backend/wcag/wcag_1_4_11.py:104-110 | the rectangle is location and size doubled, with `x2 = x1 + w` and `y2 = y1 + h` |
| Wcag1411.ControlContrastAsWritten | src/accessibility_check_backend/wcag/wcag_1_4_11.py:104-125 | as written, zero width or height gives None, and a measurement is the sentinel -1 or positive |
| Wcag1411.WidenedAsWritten | src/accessibility_check_backend/wcag/wcag_1_4_11.py:116-125 | the crop `img[y1 - 20 : y2 + 20, x1 - 20 : x2 + 20]` and the sampled box `(20, w + 20, 20, h + 20)` inside it, without clamping |
| Wcag1411.SampleAt | src/accessibility_check_backend/wcag/wcag_1_4_11.py:118-125 | `get_contrast_ratio` on a crop of the screenshot for a box in the crop's coordinates |
| Wcag1411.CropTo | src/accessibility_check_backend/wcag/wcag_1_4_11.py:118 | the crop is a rectangular image |
| Wcag1411.Clipped | src/accessibility_check_backend/wcag/wcag_1_4_11.py:118 | the widened rectangle clipped to the image lies inside it |
| Wcag1411.FramedMeasures | src/accessibility_check_backend/wcag/wcag_1_4_11.py:125 | sampling a non-empty clipped area gives a positive value, never the sentinel, and at least 1 under the WCAG ratio |
| Wcag1411.ControlContrast | src/accessibility_check_backend/wcag/wcag_1_4_11.py:104-125 | corrected: a result exists iff the control's doubled rectangle meets the image; zero width or height gives None |
| Wcag1411.Frame | src/accessibility_check_backend/wcag/wcag_1_4_11.py:116-118 | the corrected crop: widened by up to 20 pixels on each side without leaving the screenshot; `Wcag1411.Clipped` and `Wcag1411.FramesAgree` state its bounds and its agreement with the crop as written |
| Wcag1411.Framed | src/accessibility_check_backend/wcag/wcag_1_4_11.py:118-125 | the measurement on the corrected crop; `Wcag1411.FramedMeasures` states that it is positive |
| Wcag1411.ControlContrastMeasured | src/accessibility_check_backend/wcag/wcag_1_4_11.py:121-125 | a corrected measurement is positive, and at least 1 under the WCAG ratio |
| Wcag1411.ControlContrastAgrees | src/accessibility_check_backend/wcag/wcag_1_4_11.py:117-125 | with the 20-pixel margin inside the image, the corrected and as-written measurements agree |
| Wcag1411.FramesAgree | src/accessibility_check_backend/wcag/wcag_1_4_11.py:117-118 | away from the edges, clipping changes neither the crop nor the inner rectangle |
| Wcag1411.ControlNearTopUnmeasured | src/accessibility_check_backend/wcag/wcag_1_4_11.py:117-122 | as written, a control 5 CSS pixels from the top is not measured, although it is on the page (see Findings) |
| Wcag1411.ControlBelowPageSentinel | src/accessibility_check_backend/wcag/wcag_1_4_11.py:118-125 | as written, a control whose area starts at the bottom edge is measured as -1, while the clamped measurement gives None (see Findings) |
| Wcag1411.Measured | src/accessibility_check_backend/wcag/wcag_1_4_11.py:33 | the corrected per-control measurement |
| Wcag1411.MeasuredAsWritten | src/accessibility_check_backend/wcag/wcag_1_4_11.py:33 | the per-control measurement as written |
| Wcag1411.Flagged | src/accessibility_check_backend/wcag/wcag_1_4_11.py:31-43 | for any measurement, at most one infraction per control, each `WCAG_1_4_11` with threshold 3.0 and a contrast below 3 |
| Wcag1411.Emitted | src/accessibility_check_backend/wcag/wcag_1_4_11.py:34-42 | one control's contribution: a `WCAG_1_4_11` infraction at its xpath with threshold 3.0 when the measurement exists and is below 3.0, otherwise none; stated by `Wcag1411.FlaggedOne` |
| Wcag1411.FlaggedAtLeast | src/accessibility_check_backend/wcag/wcag_1_4_11.py:31-43 | every reported contrast is a measured one, so a lower bound on the measurement bounds the reports |
| Wcag1411.FlaggedAppend | src/accessibility_check_backend/wcag/wcag_1_4_11.py:31-43 | the infractions of two lists of controls are those of each, in control order |
| Wcag1411.FlaggedOne | src/accessibility_check_backend/wcag/wcag_1_4_11.py:34-41 | a control is reported iff its ratio exists and is strictly below 3.0, at its xpath |
| Wcag1411.FlaggedStep | src/accessibility_check_backend/wcag/wcag_1_4_11.py:32-42 | one more control appends its own infraction, if any |
| Wcag1411.FilterControls | src/accessibility_check_backend/wcag/wcag_1_4_11.py:31-43 | the loop returns exactly `Flagged` |
| Wcag1411.DetectWcag1411 | src/accessibility_check_backend/wcag/wcag_1_4_11.py:15-43 | the infractions are those `Flagged` gives under the as-written measurement with the channel-sum ratio |
| Wcag1411.DetectWcag1411Corrected | src/accessibility_check_backend/wcag/wcag_1_4_11.py:15-43 | corrected: the infractions are those `Flagged` gives under the clamped measurement with the WCAG ratio, and each contrast is in `[1, 3)` |
| Wcag1411.FlaggedAgree | src/accessibility_check_backend/wcag/wcag_1_4_11.py:31-43 | two measurements that agree on every control report the same infractions |
| Wcag1411.DetectorsAgree | src/accessibility_check_backend/wcag/wcag_1_4_11.py:104-125 | when every control is at least 10 CSS pixels inside the screenshot, the clamped and as-written measurements report the same |
| Wcag1411.ControlBelowPageReported | src/accessibility_check_backend/wcag/wcag_1_4_11.py:31-43 | as written, the control below the page is reported with contrast -1 at its xpath; the clamped measurement reports nothing (see Findings) |
| XPathUnion.StripAll | src/accessibility_check_backend/wcag/wcag_1_4_11.py:85 | stripping keeps the number of alternatives |
| XPathUnion.AlternativesOfJoin | src/accessibility_check_backend/wcag/wcag_1_4_11.py:85 | joining paths with `" \| "` and splitting the union at `\|` gives the paths back |
| XPathUnion.AlternativesOfOne | src/accessibility_check_backend/wcag/wcag_1_4_11.py:85 | a union of one path gives that path back |
| XPathUnion.AlternativesStep | src/accessibility_check_backend/wcag/wcag_1_4_11.py:85 | splitting a longer union gives its first path, then the rest |
| XPathUnion.AlternativesCons | src/accessibility_check_backend/wcag/wcag_1_4_11.py:85 | a union whose split starts with one piece has that piece, stripped, as its first path |
| XPathUnion.SplitStep | src/accessibility_check_backend/wcag/wcag_1_4_11.py:85 | the union splits after its first path |
| ControlQuery.QueryPaths | src/accessibility_check_backend/wcag/wcag_1_4_11.py:60-82 | 23 paths: `//input[@type='t']` for the 19 input types in order, then `//button`, `//option`, `//textarea`, `//datalists` |
| ControlQuery.QueryAlternatives | src/accessibility_check_backend/wcag/wcag_1_4_11.py:60-85 | the query string is the union of exactly those 23 paths, in that order |
| ControlQuery.InputPath | src/accessibility_check_backend/wcag/wcag_1_4_11.py:81 | `//input[@type='t']` for an input type `t` |
| ControlQuery.Query | src/accessibility_check_backend/wcag/wcag_1_4_11.py:85 | `" | ".join(input_xpaths + other_xpaths)`; `ControlQuery.QueryAlternatives` states that it selects exactly the 23 paths, in order |
| ControlQuery.InputPathAlternative | src/accessibility_check_backend/wcag/wcag_1_4_11.py:81 | each input path is one alternative, with no `\|` and no surrounding space |
| Utils31.HtmlLanguage | src/accessibility_check_backend/wcag/utils_3_1.py:36-38 | None iff the declared language has fewer than 2 characters; otherwise exactly its first two characters |
| Utils31.Run | src/accessibility_check_backend/wcag/utils_3_1.py:12-14 | the longest prefix of characters of one regex class |
| Utils31.MatchAt | src/accessibility_check_backend/wcag/utils_3_1.py:12-13 | a match at a position is non-empty and stays in the text |
| Utils31.UrlAt | src/accessibility_check_backend/wcag/utils_3_1.py:12 | a URL match is the scheme or `www` and at least one more character, up to 2076 |
| Utils31.EmailAt | src/accessibility_check_backend/wcag/utils_3_1.py:13 | an email match has a local part of 1 to 64 characters, `@` and a domain, with the regex's backtracking; it is at least 4 characters |
| Utils31.Remove | src/accessibility_check_backend/wcag/utils_3_1.py:96-97 | `re.sub(pattern, "", text)` never lengthens the text |
| Utils31.RemoveNothing | src/accessibility_check_backend/wcag/utils_3_1.py:96-97 | a text without a match is left unchanged |
| Utils31.Words | src/accessibility_check_backend/wcag/utils_3_1.py:14 | `findall` yields only non-empty word runs without digits |
| Utils31.Tokens | src/accessibility_check_backend/wcag/utils_3_1.py:96-98 | the words `clean_text` keeps: the word-regex matches after URLs and then e-mail addresses are removed |
| Utils31.CountWordsTokens | src/accessibility_check_backend/wcag/utils_3_1.py:115 | `clean_text(text).split()` gives back exactly the word tokens, so `count_words` is their number |
| Utils31.CleanTextShape | src/accessibility_check_backend/wcag/utils_3_1.py:96-98 | the cleaned text has no leading, trailing or doubled space, and every token is a digit-free word |
| Utils31.CleanText | src/accessibility_check_backend/wcag/utils_3_1.py:96-99 | `clean_text`: the kept words joined by single spaces; its shape is `Utils31.CleanTextShape` |
| Utils31.CountWords | src/accessibility_check_backend/wcag/utils_3_1.py:115 | `count_words`: the number of kept words, which `Utils31.CountWordsTokens` proves equal to `len(clean_text(text).split())` |
| Utils31.TokenNoSpace | src/accessibility_check_backend/wcag/utils_3_1.py:14 | a word token holds no whitespace |
| Utils31.JoinCanonical | src/accessibility_check_backend/wcag/utils_3_1.py:98 | word tokens joined with single spaces have no leading, trailing or doubled space |
| Utils31.WordsOfJoin | src/accessibility_check_backend/wcag/utils_3_1.py:98 | running the word regex over the joined tokens gives the tokens back |
| Utils31.WordsOfToken | src/accessibility_check_backend/wcag/utils_3_1.py:14 | a token followed by a non-word character is found as one word |
| Utils31.RunOfToken | src/accessibility_check_backend/wcag/utils_3_1.py:14 | the word run at a token stops exactly at its end |
| Utils31.PredictLanguage | src/accessibility_check_backend/wcag/utils_3_1.py:140-145 | a language is returned iff the probability on the cleaned text is strictly above 0.8, and it is the classifier's answer |
| Utils31.PredictionOfClean | src/accessibility_check_backend/wcag/utils_3_1.py:141 | texts with the same cleaned form get the same prediction |
| Utils31.PredictionTruthy | src/accessibility_check_backend/wcag/utils_3_1.py:123 | any returned language is one of `nl`, `fr`, `de`, `en`, so a prediction is truthy iff there is one |
| Utils31.Truthy | src/accessibility_check_backend/wcag/wcag_3_1_2.py:152 | Python's truth test on an optional language: present and non-empty |
| Wcag311.Fragment | src/accessibility_check_backend/wcag/wcag_3_1_1.py:77-78 | at most one fragment per element: its stripped text, when not empty |
| Wcag311.RootParts | src/accessibility_check_backend/wcag/wcag_3_1_1.py:70-78 | the fragments the queue loop collects, breadth first, skipping every element with a truthy `lang` and its subtree; `Wcag311.RootPartsShown` states both directions |
| Wcag311.RootText | src/accessibility_check_backend/wcag/wcag_3_1_1.py:79 | the fragments joined by single spaces; `Wcag311.GetRootText` ties the loop to it |
| Wcag311.QueueShrinks | src/accessibility_check_backend/wcag/wcag_3_1_1.py:73-76 | popping the head and queueing its children shrinks the work left |
| Wcag311.GetRootText | src/accessibility_check_backend/wcag/wcag_3_1_1.py:70-79 | the deque loop returns the FIFO walk's fragments joined by single spaces |
| Wcag311.RootPartsFromText | src/accessibility_check_backend/wcag/wcag_3_1_1.py:70-79 | every fragment collected from a queue of reached elements is non-empty, stripped, and the text of an element shown from the body: neither it nor any element on its way down sets a truthy `lang` |
| Wcag311.ChildrenReached | src/accessibility_check_backend/wcag/wcag_3_1_1.py:73-76 | the children of a shown element are queued, so they are reached |
| Wcag311.FragmentKept | src/accessibility_check_backend/wcag/wcag_3_1_1.py:77-78 | a shown element's fragment, if any, is kept |
| Wcag311.KeptAppend | src/accessibility_check_backend/wcag/wcag_3_1_1.py:78 | appending two lists of kept fragments keeps them all kept |
| Wcag311.RootPartsReach | src/accessibility_check_backend/wcag/wcag_3_1_1.py:70-79 | an element without a truthy `lang`, reached from a queued element through elements without one, has its fragment collected |
| Wcag311.RootPartsShown | src/accessibility_check_backend/wcag/wcag_3_1_1.py:70-79 | the root text of the body holds exactly the fragments of the elements shown from it: every fragment is kept, and every shown element with text contributes |
| Wcag311.StripIdempotent | src/accessibility_check_backend/wcag/wcag_3_1_1.py:77 | stripping twice changes nothing more |
| Wcag311.BreadthFirstOrder | src/accessibility_check_backend/wcag/wcag_3_1_1.py:70-79 | the walk is breadth first: on a nested page, a grandchild's text comes after the second child's |
| Wcag311.LetterFirst | src/accessibility_check_backend/wcag/wcag_3_1_1.py:73-78 | an element with a one-letter text and no `lang` contributes that letter and queues its children at the back |
| Wcag311.PrunedBody | src/accessibility_check_backend/wcag/wcag_3_1_1.py:74-75 | a body with a truthy `lang` yields an empty root text |
| Wcag311.NoWords | src/accessibility_check_backend/wcag/wcag_3_1_1.py:31-32 | the empty text has no words |
| Wcag311.Judge | src/accessibility_check_backend/wcag/wcag_3_1_1.py:31-48 | at most one infraction; there is one iff the text has at least 5 words and a confident prediction differs from the page language; it is `WCAG_3_1_1` at `/html` with the given and predicted languages |
| Wcag311.DetectWcag311 | src/accessibility_check_backend/wcag/wcag_3_1_1.py:14-48 | the result is `Judge` on the root text; a body that sets `lang` is never reported |
| Wcag312.Detected | src/accessibility_check_backend/wcag/wcag_3_1_2.py:117-121 | a detected language needs at least 5 words and is the prediction for the text |
| Wcag312.DefinedLanguage | src/accessibility_check_backend/wcag/wcag_3_1_2.py:64 | `element.get("lang", parent_language)`: the element's own `lang` when present, even if empty, else the inherited one |
| Wcag312.OwnText | src/accessibility_check_backend/wcag/wcag_3_1_2.py:67 | `(element.text or "").replace("\n", " ").strip()`: missing text is empty, newlines become spaces, the ends are stripped |
| Wcag312.Report | src/accessibility_check_backend/wcag/wcag_3_1_2.py:154-159 | the `WCAG_3_1_2` infraction with its xpath, the defined language and the predicted one |
| Wcag312.Offences | src/accessibility_check_backend/wcag/wcag_3_1_2.py:145-152 | one flag per hidden attribute, in iteration order |
| Wcag312.FirstFrom | src/accessibility_check_backend/wcag/wcag_3_1_2.py:145-159 | the first raised flag from a position on, or the end |
| Wcag312.HiddenFirst | src/accessibility_check_backend/wcag/wcag_3_1_2.py:145-160 | the hidden check reports the first attribute that is present, has at least 3 words and is confidently in another language; otherwise nothing |
| Wcag312.HiddenWrong | src/accessibility_check_backend/wcag/wcag_3_1_2.py:146-152 | an attribute that is present, has at least 3 words once stripped, and whose prediction is truthy and differs from the defined language |
| Wcag312.HiddenReport | src/accessibility_check_backend/wcag/wcag_3_1_2.py:154-159 | the report for such an attribute, at the element's path |
| Wcag312.HiddenFrom | src/accessibility_check_backend/wcag/wcag_3_1_2.py:145-160 | the verdict of `_check_hidden_attributes` over the names from one position on: the first wrong one reported, else `None`; stated by `Wcag312.HiddenFirst` |
| Wcag312.Hidden | src/accessibility_check_backend/wcag/wcag_3_1_2.py:145-160 | the same from the first hidden attribute; `Wcag312.CheckHiddenAttributes` ties the loop to it and `Wcag312.HiddenGenuine` states what a report holds |
| Wcag312.CheckHiddenAttributes | src/accessibility_check_backend/wcag/wcag_3_1_2.py:145-160 | the loop with its early return computes that report |
| Wcag312.HiddenGenuine | src/accessibility_check_backend/wcag/wcag_3_1_2.py:151-159 | a hidden report is `WCAG_3_1_2`, names one of the four languages, and differs from the defined language |
| Wcag312.HiddenAgainst | src/accessibility_check_backend/wcag/wcag_3_1_2.py:154-158 | a hidden report is made against the element's defined language |
| Wcag312.HiddenReportedFirst | src/accessibility_check_backend/wcag/wcag_3_1_2.py:70-78 | an element's hidden report precedes everything its subtree adds; a leaf without one adds nothing |
| Wcag312.Replies | src/accessibility_check_backend/wcag/wcag_3_1_2.py:78 | the children's results, one per child |
| Wcag312.Node | src/accessibility_check_backend/wcag/wcag_3_1_2.py:117-121 | a node's detected language needs at least 5 words of its text and is the prediction for that text |
| Wcag312.Kids | src/accessibility_check_backend/wcag/wcag_3_1_2.py:78 | one visit per child |
| Wcag312.UniformSame | src/accessibility_check_backend/wcag/wcag_3_1_2.py:81 | the set of pairs has one element iff every child has the first child's pair |
| Wcag312.Pairs | src/accessibility_check_backend/wcag/wcag_3_1_2.py:81 | the set `{(defined, detected) for ...}` of the children's pairs |
| Wcag312.Uniform | src/accessibility_check_backend/wcag/wcag_3_1_2.py:81 | `len(...) == 1`; `Wcag312.UniformSame` states that it holds iff every child has the first child's pair |
| Wcag312.Wrong | src/accessibility_check_backend/wcag/wcag_3_1_2.py:84 | a detected language that is truthy and differs from the defined one |
| Wcag312.VerdictCases | src/accessibility_check_backend/wcag/wcag_3_1_2.py:81-108 | if all children share a pair, one report at the parent when it is wrong and none otherwise; else the per-child reports |
| Wcag312.Verdict | src/accessibility_check_backend/wcag/wcag_3_1_2.py:81-108 | what the children's results add: one report at the parent when all share a wrong pair, nothing when they share a right one, else the per-child reports; stated by `Wcag312.VerdictCases` |
| Wcag312.ChildReport | src/accessibility_check_backend/wcag/wcag_3_1_2.py:100-107 | the report for one wrong child, at the child's own path |
| Wcag312.PerChild | src/accessibility_check_backend/wcag/wcag_3_1_2.py:95-108 | one report per wrong child, in child order; stated by `Wcag312.PerChildWrong` |
| Wcag312.OnlyChildReportedAtParent | src/accessibility_check_backend/wcag/wcag_3_1_2.py:81-94 | a single wrong child is reported at its parent's path, not its own |
| Wcag312.PerChildWrong | src/accessibility_check_backend/wcag/wcag_3_1_2.py:95-108 | at most one report per child, every report is for a wrong child, and every wrong child is reported |
| Wcag312.FoldedAppend | src/accessibility_check_backend/wcag/wcag_3_1_2.py:112-115 | folding distributes over concatenation of the children |
| Wcag312.Folded | src/accessibility_check_backend/wcag/wcag_3_1_2.py:112-115 | the child texts added to the parent's: each one with fewer than 5 words, preceded by a space, in child order |
| Wcag312.FoldedBy | src/accessibility_check_backend/wcag/wcag_3_1_2.py:112-115 | the same fold with the word counter as a parameter; stated by `Wcag312.FoldedChild` and `Wcag312.FoldedSnoc` |
| Wcag312.FoldedChild | src/accessibility_check_backend/wcag/wcag_3_1_2.py:112-115 | a child with at least 5 words adds nothing; a shorter one adds a space and its text, in child order |
| Wcag312.FoldedSnoc | src/accessibility_check_backend/wcag/wcag_3_1_2.py:112-115 | folding one more child appends a space and its text exactly when it has fewer than 5 words |
| Wcag312.PerChildGenuine | src/accessibility_check_backend/wcag/wcag_3_1_2.py:95-108 | per-child reports name one of the four languages and differ from the defined language |
| Wcag312.VerdictGenuine | src/accessibility_check_backend/wcag/wcag_3_1_2.py:81-108 | the same holds for the parent report |
| Wcag312.NodeGenuine | src/accessibility_check_backend/wcag/wcag_3_1_2.py:38-123 | every infraction a subtree adds is a genuine `WCAG_3_1_2` mismatch, and its detected language is one of the four |
| Wcag312.KidsGenuine | src/accessibility_check_backend/wcag/wcag_3_1_2.py:78 | the same for a list of children |
| Wcag312.NodeInherits | src/accessibility_check_backend/wcag/wcag_3_1_2.py:64 | on a page with no `lang` attribute, every node's defined language is the inherited one, and every report is against it |
| Wcag312.KidsInherit | src/accessibility_check_backend/wcag/wcag_3_1_2.py:78 | the same for a list of children |
| Wcag312.AgainstConcat | src/accessibility_check_backend/wcag/wcag_3_1_2.py:72-108 | reports against one language stay so when logs are concatenated |
| Wcag312.VerdictAgainst | src/accessibility_check_backend/wcag/wcag_3_1_2.py:81-108 | children that define one language are reported against it |
| Wcag312.PerChildAgainst | src/accessibility_check_backend/wcag/wcag_3_1_2.py:95-108 | the same for the per-child reports |
| Wcag312.AllDefineSnoc | src/accessibility_check_backend/wcag/wcag_3_1_2.py:78 | one more child with the same defined language keeps the property |
| Wcag312.InfractionLog.constructor | src/accessibility_check_backend/wcag/wcag_3_1_2.py:33 | the log starts empty |
| Wcag312.InfractionLog.Append | src/accessibility_check_backend/wcag/wcag_3_1_2.py:72 | appending adds exactly one entry at the end |
| Wcag312.Dfs | src/accessibility_check_backend/wcag/wcag_3_1_2.py:38-123 | the recursive walk returns `Node`'s reply and only appends to the log, exactly `Node`'s infractions |
| Wcag312.KidsStep | src/accessibility_check_backend/wcag/wcag_3_1_2.py:78 | one more child adds its reply and its infractions at the end |
| Wcag312.VisitChildren | src/accessibility_check_backend/wcag/wcag_3_1_2.py:78 | the list comprehension visits the children in order and appends what they add |
| Wcag312.ReportChildren | src/accessibility_check_backend/wcag/wcag_3_1_2.py:81-108 | the aggregation appends exactly the verdict |
| Wcag312.FoldShortTexts | src/accessibility_check_backend/wcag/wcag_3_1_2.py:112-115 | the `+=` loop yields the own text followed by the folded short child texts |
| Wcag312.DetectWcag312 | src/accessibility_check_backend/wcag/wcag_3_1_2.py:16-35 | the result is the walk's log from the body, and the body's own reply is dropped; every infraction is genuine; on a page without `lang` attributes all are against the page language |

## Left out

- Text detection with the EAST network is not modelled: model loading, the forward pass, box decoding and non-maximum suppression. Boxes are an input of `DetectWcag143`.
- Image resizing (`cv2.resize`) is a parameter of `Enlarged`.
- Screenshots and browser calls are left out: `take_screenshot`, `render_url`, `execute_script`, `find_elements_by_xpath` and `elementFromPoint`. The hit test is a parameter of the page, and the controls the query finds are an input.
- Relative luminance is a parameter: the gamma branch with `** 2.4` and floating point in general. Only the facts the code relies on are kept: it is non-negative, and the WCAG weights for `WhiteOnBlack`.
- The mean border colour (`mean(axis=0)`, including NaN on an empty strip) is a parameter of `SampledContrast`.
- `parse_page` and the lxml `Cleaner` are not part of this model. The body tree is an input.
- The langid model and its `lru_cache` singleton are a `Classifier` parameter. It answers one of the four configured languages with a probability.
- Utils31.IsWordChar: `\w` and `\d` are exact on Latin-1 only. Above U+00FF no character is a word character, so `cœur` counts as the two words `c` and `ur` and Cyrillic or Greek text counts as no words at all, where Python finds one word and many. The Unicode tables are not available here.
- Utils31.Words: matches `\b[^\d\W]+\b` as maximal digit-free word runs, which holds under the same character approximation.
- Utils31.CountWords is defined as the number of word tokens. `CountWordsTokens` proves that this equals `len(clean_text(text).split())`.
- Wcag312.Env: the iteration order of the `HIDDEN_ATTRIBUTES` set is a parameter, since Python's hash order is not fixed. `DetectWcag312` only requires it to list the four names once each.
- lxml's `getpath` is a parameter `pathOf`.
- The orchestrator (`wcag.py`), the HTTP layer (`api.py`, `models.py`), the `tasks` scripts and the 1.4.5 and 1.1.1 checks are not part of this model.
- Utils14.XPathOf: the parent and children come from the arena tree rather than WebDriver queries. The unreachable `""` case of a missing child is modelled in `XPath`.

## Findings

| source | as written | input that shows it | evidently intended | confidence | as-written member | corrected member |
|---|---|---|---|---|---|---|
| src/accessibility_check_backend/wcag/utils_1_4.py:33-34 | the lighter colour is the one with the larger channel sum | magenta (255,0,255) against green (0,255,0): the sum picks magenta as light, though green has the higher luminance, so the ratio is below 1; a green word between magenta strips is then sampled below 1 by `get_contrast_ratio` (`Utils14.SampledBelowOne`) | light and dark chosen by relative luminance, so the ratio is at least 1 and 1 only for equal luminance | not executed | Utils14.ContrastRatioBySumBelowOne | Utils14.ContrastRatio |
| src/accessibility_check_backend/wcag/wcag_1_4_11.py:117-118 | the crop `img[y1 - d : y2 + d, ...]` starts at a negative index when the control is within 20 retina pixels of the top, and Python wraps it | a 5×5 control at CSS (20, 5) on a 60×60 image: the start -10 wraps to the bottom and the crop is empty | clamp the crop to the image and measure the part on the page | not executed | Wcag1411.ControlNearTopUnmeasured | Wcag1411.ControlContrast |
| src/accessibility_check_backend/wcag/wcag_1_4_11.py:118-125 | a crop that holds only the margin gives `get_contrast_ratio` an empty word box, and its -1 sentinel is returned as the contrast, which is below 3.0 and reported | a 5×5 control at CSS (20, 50) on a 100×100 image: the area starts at row 100 and the measurement is -1 | no measurement (None) when the control's own area is off the image | not executed | Wcag1411.ControlBelowPageReported | Wcag1411.DetectWcag1411Corrected |
