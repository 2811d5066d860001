# Auto-sizing text: a Dafny model

This project models the font-size search of `TextAutoSize.kt`, a Jetpack Compose
component that shrinks a text until it fits its box. It has three strategies. Each
one starts from the same size and then decides, measurement by measurement, how to
go on.

- **Start size** (all three). The explicit `fontSize` is used when it is specified,
  and `style.fontSize` otherwise. A `require` rejects a start size whose unit type
  (sp, em or unspecified) differs from that of `minFontSize`. The model returns
  `Err(IncompatibleUnits)` there, before any measurement or change of state.
- **Option 1, reactive shrink.** A size is remembered per text. Every
  `onTextLayout` callback that reports a visual overflow while the size is still
  above the minimum lowers it by 0.2 of its unit. The class
  `ReactiveShrink.RememberedSize` holds that state. `Settle` runs the callback over
  successive compositions, and lemmas bound where it ends.
- **Option 2, lerp stepping** (`calculateAdjustedTextStyle`). While the text
  overflows and `step <= 1`, the loop raises `step` by a tenth and sets the size to
  `lerp(start, min, step)`, then measures again. `LerpStep.LerpSearch` keeps
  `step`, `textStyle` and `readyToDraw`. Its method is proved equal to the pure
  function `LerpStep.Search`, and the lemmas about `Search` state what the loop
  promises.
- **Option 3, binary search** (`calculateAdjustedTextStyleBinarySearch`). The loop
  bisects `[bottomSize, topSize]` with `midPointSize`. A fitting measurement is
  recorded as `lastValidSize`. The result is `lastValidSize` once the bounds meet.
  `BinarySearch.BisectionSearch` keeps the five remembered fields. Its method is
  proved equal to `BinarySearch.Search`, with `Bisect` as one loop iteration.
- **Placeholders.** String annotations whose item names an inline content become
  placeholder ranges (`AnnotatedText.PlaceholderRanges`).

The text measurer is a parameter `overflows: TextUnit -> bool`: a deterministic
answer to "does the text overflow at this font size?". Within one search only the
font size of the remembered style changes, so the size is its only varying input.
Every search method also returns `measured`, the sequence of sizes it asks the
measurer about, in order.

Two properties of the source are kept on purpose:

- The first measurement of options 2 and 3 uses the remembered style as it is, not
  the start size. `measured` starts with `old(textStyle).fontSize`, and
  `LerpStep.SearchResult` shows that a style that already fits is returned
  unchanged.
- The search state of options 2 and 3 is remembered without a key. It therefore
  outlives the `(text, constraints)` key of the search block. It lives in the
  class, and once `readyToDraw` holds, a re-run measures once and returns the
  previous style (`SearchWhenReady`).

Sizes are exact reals. `TextUnit` is `Sp(real) | Em(real) | Unspecified`.
`TextUnit` comparison and `lerp` follow Compose: they fail on an unspecified
operand and on mixed sp/em operands. The model returns `Err(UnspecifiedArithmetic)`
or `Err(MixedArithmetic)` where Compose throws. The Compose library itself is not
part of this model; its `TextUnit` arithmetic is restated in `Typography`.

Two readings are fixed by using exact reals:

- **Option 2.** `step` is counted in tenths (`k`), and the guard is `k <= 10`,
  checked before the increment. So up to eleven adjustments are made. The last
  one is at fraction 1.1, below the minimum whenever the minimum is below the start
  (`EleventhCandidateBelowMinimum`). With the source's `Float` accumulation of
  `0.1f`, `step` exceeds 1 after ten increments, so the Kotlin loop makes at most
  ten adjustments.
- **Option 3.** With exact midpoints an open interval halves on every iteration
  and never closes. The loop therefore carries a `fuel` bound and ends with
  `Err(OutOfFuel)` when the bound runs out. The model proves this never-closing
  behaviour (`SearchNeverCloses`) and the invariants that hold at every iteration.
  With `Float` sizes the Kotlin loop ends only when a rounded midpoint lands on
  the opposite bound. For adjacent `Float` bounds the midpoint at
  TextAutoSize.kt:462 rounds to one of the two. When it rounds onto the bound it
  replaces (onto `topSize` after an overflow at `topSize`, or onto `bottomSize`
  after a fit at `bottomSize`), the iteration repeats the same state and the same
  measurement, and the Kotlin loop never ends.

## Model

| member | source | states |
|---|---|---|
| Typography.StartSize | app/src/main/java/soto/francisco/autosize/ui/components/text/TextAutoSize.kt:119-122 | The start size is the explicit `fontSize` when specified and `style.fontSize` otherwise; the result is `Ok` exactly when that size has `minFontSize`'s unit type, and the error is `IncompatibleUnits` |
| Typography.Compare | app/src/main/java/soto/francisco/autosize/ui/components/text/TextAutoSize.kt:145 | `TextUnit` comparison succeeds exactly for two specified units of one type, and its sign agrees with `<`, `==` and `>` on the values; otherwise it reports Compose's arithmetic error |
| Typography.Lerp | app/src/main/java/soto/francisco/autosize/ui/components/text/TextAutoSize.kt:305 | `lerp` succeeds exactly for two specified units of one type, keeps the start's unit, and otherwise reports Compose's arithmetic error |
| Typography.LerpValue | app/src/main/java/soto/francisco/autosize/ui/components/text/TextAutoSize.kt:305 | `lerp` moves `fraction` of the way from start to stop, giving the start at 0 and the stop at 1 |
| AnnotatedText.PlaceholderRanges | app/src/main/java/soto/francisco/autosize/ui/components/text/TextAutoSize.kt:282-291 | The extracted ranges are as many as the annotations whose item is a key of `inlineContent`, and each comes from such an annotation, with its content's placeholder and the annotation's start and end |
| AnnotatedText.PlaceholderRangeAt | app/src/main/java/soto/francisco/autosize/ui/components/text/TextAutoSize.kt:469-478 | Every kept annotation appears, in order: the one at index `i` lands at the position given by the number of kept annotations before it |
| AnnotatedText.DroppedAnnotationIgnored | app/src/main/java/soto/francisco/autosize/ui/components/text/TextAutoSize.kt:284-290 | An annotation whose item is not a key of `inlineContent` contributes nothing: removing it leaves the ranges unchanged |
| AnnotatedText.RangeOf | app/src/main/java/soto/francisco/autosize/ui/components/text/TextAutoSize.kt:286-288 | The range a kept annotation becomes: its inline content's placeholder over the annotation's own start and end |
| ReactiveShrink.LayoutStep | app/src/main/java/soto/francisco/autosize/ui/components/text/TextAutoSize.kt:144-147 | One callback changes the size exactly when the layout overflowed and the size is above the minimum, and then lowers it by exactly 0.2 in the same unit; it fails only when it must compare incomparable units |
| ReactiveShrink.Settle | app/src/main/java/soto/francisco/autosize/ui/components/text/TextAutoSize.kt:144-147 | The size left by successive layout callbacks, each measured at the size the previous one left; a pass fails only when the size is not comparable with the minimum, with Compose's arithmetic error |
| ReactiveShrink.SettleBounds | app/src/main/java/soto/francisco/autosize/ui/components/text/TextAutoSize.kt:144-147 | Any number of layout passes keeps the unit, never raises the size, and never takes a size above `min - 0.2` to `min - 0.2` or below |
| ReactiveShrink.SettleStaysAtRest | app/src/main/java/soto/francisco/autosize/ui/components/text/TextAutoSize.kt:144-147 | A size that one pass leaves alone stays put for any number of passes |
| ReactiveShrink.SettleComesToRest | app/src/main/java/soto/francisco/autosize/ui/components/text/TextAutoSize.kt:144-147 | After `(start - min) / 0.2` passes, rounded up, the size is at rest whatever the measurer says |
| ReactiveShrink.SettleNearFit | app/src/main/java/soto/francisco/autosize/ui/components/text/TextAutoSize.kt:144-147 | With a monotone measurer, the size never falls 0.2 or more below a size that fits |
| ReactiveShrink.SettleFits | app/src/main/java/soto/francisco/autosize/ui/components/text/TextAutoSize.kt:144-147 | With a monotone measurer and a fitting size in `[min, start]`, enough passes end on a size that does not overflow, within 0.2 below that fitting size and not above the start |
| ReactiveShrink.SettleStepsDownToFit | app/src/main/java/soto/francisco/autosize/ui/components/text/TextAutoSize.kt:144-147 | Against a sharp fit boundary `n` decrements below the start, `n` passes reach the boundary exactly and further passes stay there |
| ReactiveShrink.ScenarioTwentyTwoToEighteen | app/src/main/java/soto/francisco/autosize/ui/components/text/TextAutoSize.kt:144-147 | From 22 sp with a 10 sp minimum and text that fits from 18 sp down, twenty or more passes end at exactly 18 sp |
| ReactiveShrink.RememberedSize.constructor | app/src/main/java/soto/francisco/autosize/ui/components/text/TextAutoSize.kt:123-125 | Before the first composition nothing is remembered for any text |
| ReactiveShrink.RememberedSize.Compose | app/src/main/java/soto/francisco/autosize/ui/components/text/TextAutoSize.kt:119-125 | A unit mismatch is rejected with nothing changed; otherwise the size is kept for the same text and restarts from the start size for a new text, and that size is rendered |
| ReactiveShrink.RememberedSize.OnTextLayout | app/src/main/java/soto/francisco/autosize/ui/components/text/TextAutoSize.kt:144-147 | The callback updates the remembered size as `LayoutStep` says and leaves it alone when the comparison fails |
| LerpStep.Candidates | app/src/main/java/soto/francisco/autosize/ui/components/text/TextAutoSize.kt:303-305 | The candidates for steps `lo + 1` to `hi`, in order: position `i` holds `lerp(start, min, (lo + 1 + i) / 10)` |
| LerpStep.Candidate | app/src/main/java/soto/francisco/autosize/ui/components/text/TextAutoSize.kt:304-305 | The size set after raising `step` to `k` tenths, `lerp(start, min, k / 10)`: step 0 is the start, step 10 the minimum, and every step keeps the start's unit |
| LerpStep.CandidateStep | app/src/main/java/soto/francisco/autosize/ui/components/text/TextAutoSize.kt:304-305 | Consecutive candidates lie exactly `(start - min) / 10` apart |
| LerpStep.CandidatesDescend | app/src/main/java/soto/francisco/autosize/ui/components/text/TextAutoSize.kt:303-305 | When the minimum is not above the start, a later step never gives a larger size |
| LerpStep.CandidateRange | app/src/main/java/soto/francisco/autosize/ui/components/text/TextAutoSize.kt:303-305 | Every reachable candidate lies in `[min - (start - min) / 10, start]`, and the first ten lie in `[min, start]` |
| LerpStep.EleventhCandidateBelowMinimum | app/src/main/java/soto/francisco/autosize/ui/components/text/TextAutoSize.kt:303-305 | The adjustment past the guard, at fraction 1.1, lies below the minimum whenever the minimum is below the start |
| LerpStep.Search | app/src/main/java/soto/francisco/autosize/ui/components/text/TextAutoSize.kt:302-322 | The loop from a state whose style was just measured, with the measurements so far: it never lowers `step`; what it returns and measures is stated by `SearchResult`, `SearchStopsAtFirstFit` and `SearchMeasures` |
| LerpStep.SearchWhenReady | app/src/main/java/soto/francisco/autosize/ui/components/text/TextAutoSize.kt:276-280 | A finished search is not resumed: a re-run measures once and returns the remembered style unchanged |
| LerpStep.SearchUnspecified | app/src/main/java/soto/francisco/autosize/ui/components/text/TextAutoSize.kt:302-309 | With unspecified start and minimum, the search either ends at once with the style unchanged or fails on its first `lerp` |
| LerpStep.SearchResult | app/src/main/java/soto/francisco/autosize/ui/components/text/TextAutoSize.kt:302-323 | The search ends ready to draw and returns the remembered style with only its font size replaced; with no adjustment it returns that style as it is, and otherwise the entry style overflowed and the font size is the last step's candidate, at a step of at most 11 |
| LerpStep.SearchStopsAtFirstFit | app/src/main/java/soto/francisco/autosize/ui/components/text/TextAutoSize.kt:302-310 | The search stops at the first candidate that fits: every earlier candidate overflowed, and the last one fits unless the step went past 1 |
| LerpStep.SearchMeasures | app/src/main/java/soto/francisco/autosize/ui/components/text/TextAutoSize.kt:293-321 | The sizes measured are exactly the candidates tried, in order, followed by one more measurement of the final size |
| LerpStep.SearchFindsFit | app/src/main/java/soto/francisco/autosize/ui/components/text/TextAutoSize.kt:302-310 | With a monotone measurer and a fitting size in `[min, start]`, a search from step 0 never passes step 10 and ends on a size that does not overflow; when it adjusted, that size is the last candidate and lies at most `(start - min) / 10` below the fitting size |
| LerpStep.ScenarioFiftyFourToEight | app/src/main/java/soto/francisco/autosize/ui/components/text/TextAutoSize.kt:302-323 | From 54 sp to 8 sp with text that fits only at 12 sp or less, the search ends at step 10 with the style at 8 sp |
| LerpStep.LerpSearch.constructor | app/src/main/java/soto/francisco/autosize/ui/components/text/TextAutoSize.kt:276-280 | The remembered initial state: `step` 0, the given style, not ready to draw |
| LerpStep.LerpSearch.CalculateAdjustedTextStyle | app/src/main/java/soto/francisco/autosize/ui/components/text/TextAutoSize.kt:271-325 | A unit mismatch is rejected with nothing measured or changed; otherwise the new state, the result and the measured sizes are exactly those of `Search` from the old state, starting with a measurement of the remembered style |
| BinarySearch.MidPoint | app/src/main/java/soto/francisco/autosize/ui/components/text/TextAutoSize.kt:461-465 | The midpoint is in sp when the bottom bound is sp and in em otherwise, is equidistant from both bounds, and lies strictly between them when the bottom is below the top |
| BinarySearch.Initial | app/src/main/java/soto/francisco/autosize/ui/components/text/TextAutoSize.kt:451-459 | The `remember` initialisers: not ready, with the given style, and bounds within `[min, start]` when the units agree |
| BinarySearch.Bisect | app/src/main/java/soto/francisco/autosize/ui/components/text/TextAutoSize.kt:491-506 | One iteration fails exactly on incomparable bounds. It finishes exactly when the bounds have met, with the style set to `lastValidSize` and nothing else changed. Otherwise it halves the interval inside the old one: an overflow lowers the top, a fit records the measured size as `lastValidSize` and raises the bottom, and the style takes the moved bound |
| BinarySearch.Search | app/src/main/java/soto/francisco/autosize/ui/components/text/TextAutoSize.kt:490-518 | The loop from a state whose style was just measured, cut off after `fuel` iterations: it keeps the style's other attributes and succeeds only when it ends ready to draw, returning the style it ends with |
| BinarySearch.SearchStaysWithin | app/src/main/java/soto/francisco/autosize/ui/components/text/TextAutoSize.kt:451-459 | The bounds keep their unit and never leave `[min, start]` as remembered, the bottom staying at or below the top unless neither bound has moved |
| BinarySearch.SearchNarrows | app/src/main/java/soto/francisco/autosize/ui/components/text/TextAutoSize.kt:496-506 | A run keeps the style's other attributes, and its bottom bound only rises and its top bound only falls |
| BinarySearch.SearchExtendsMeasured | app/src/main/java/soto/francisco/autosize/ui/components/text/TextAutoSize.kt:490-517 | A run keeps the measurements made before it and adds at most one per iteration |
| BinarySearch.SearchLastValid | app/src/main/java/soto/francisco/autosize/ui/components/text/TextAutoSize.kt:501-502 | `lastValidSize` is the one the run started with or a size it measured that did not overflow |
| BinarySearch.SearchOutcome | app/src/main/java/soto/francisco/autosize/ui/components/text/TextAutoSize.kt:490-519 | A run succeeds exactly when it ends ready to draw, and then returns `lastValidSize` with the bounds met; any error other than running out of fuel is the comparison error of bounds that were never comparable, raised before any change |
| BinarySearch.SearchKeepsFit | app/src/main/java/soto/francisco/autosize/ui/components/text/TextAutoSize.kt:490-518 | With a monotone measurer and a non-overflowing size in `[min, start]`, the last valid size never overflows after any number of iterations, and a finished run returns a size that does not overflow |
| BinarySearch.SearchWhenReady | app/src/main/java/soto/francisco/autosize/ui/components/text/TextAutoSize.kt:466-467 | A finished search is not resumed: a re-run measures once and returns the remembered style unchanged |
| BinarySearch.SearchClosedAtOnce | app/src/main/java/soto/francisco/autosize/ui/components/text/TextAutoSize.kt:491-495 | Bounds that have already met end the search at the first comparison with `lastValidSize`, measured once more |
| BinarySearch.SearchNeverCloses | app/src/main/java/soto/francisco/autosize/ui/components/text/TextAutoSize.kt:490-506 | An open interval never closes: after `fuel` iterations it is still open and `fuel` times halved, one size was measured per iteration, and the run is cut off |
| BinarySearch.ScenarioSixtyFourNeverCloses | app/src/main/java/soto/francisco/autosize/ui/components/text/TextAutoSize.kt:445-521 | A search from 64 sp down to 8 sp never finishes, whatever the measurer answers |
| BinarySearch.ScenarioMinimumAboveStart | app/src/main/java/soto/francisco/autosize/ui/components/text/TextAutoSize.kt:451-459 | A 12 sp minimum against a 10 sp start closes the interval at once, and the result is 12 sp, larger than the start |
| BinarySearch.BisectionSearch.constructor | app/src/main/java/soto/francisco/autosize/ui/components/text/TextAutoSize.kt:451-467 | The remembered initial state: the bounds span `[min, start]`, `lastValidSize` is the minimum, the style is the one given, and the bounds are within their interval |
| BinarySearch.BisectionSearch.CalculateAdjustedTextStyleBinarySearch | app/src/main/java/soto/francisco/autosize/ui/components/text/TextAutoSize.kt:445-521 | A unit mismatch is rejected with nothing measured or changed; otherwise the new state, the result and the measured sizes are exactly those of `Search` from the old state, and the bounds stay within their interval |

## Left out

- Compose wiring is not modelled: the `Text` and `BoxWithConstraints` calls, modifiers, the `LineHeightStyle` merge, the `String` overloads and the previews. It is UI composition with no search logic. The strategies pass `fontSize = fontSize` to `Text` (TextAutoSize.kt:245, :419). Under Compose's rules, an explicit size then overrides the adjusted style when rendering. This is rendering behaviour, outside the search.
- The text measurer (`rememberTextMeasurer`, `measure`, `hasVisualOverflow`) is foreign glyph layout. It is the parameter `overflows`, a deterministic function of the font size. Constraints, wrapping, maximum lines and placeholders reach the measurer only, so they do not appear in the search.
- `Float` arithmetic is not modelled. Sizes, the 0.2 decrement, the tenth steps and the midpoint are exact reals. As a result, option 2 may make an eleventh adjustment that `Float` would not make, and option 3's loop ends on an open interval only by running out of `fuel`. Neither the `Float` runs in which option 3 closes on a rounded midpoint nor those in which it repeats one state forever are modelled.
- BinarySearch.BisectionSearch.CalculateAdjustedTextStyleBinarySearch: bounded by `fuel`, and reports `Err(OutOfFuel)` where the Kotlin loop either closes on a rounded midpoint or, when the midpoint rounds onto the bound it replaces, never ends.
- BinarySearch.MidPoint: requires both bounds specified. With `Unspecified` bounds Compose's `value` is NaN, and the loop has already failed on the comparison before the midpoint is taken.
- Recomposition, `remember` and `mutableStateOf` are not modelled beyond the fields they keep. The result that `remember(text, constraints)` caches per key is not modelled either: each method call is one run of the block.
- The placeholder list is remembered under `inlineContent` only, so it can go stale when the text changes. The model computes it from the annotations as given. Since placeholders reach only the measurer, this changes nothing in the search.
- The range query `getStringAnnotations(0, text.count())` is taken to return all of the text's annotations. The annotations are given as a sequence.
- Option 1 forwards each layout result to the caller's `onTextLayout`. That is a foreign callback and is left out.
- The Compose library's `TextUnit`, `lerp` and `compareTo` are not part of this model. `Typography` restates their behaviour, including the errors they raise.
- `MainActivity.kt`, `Theme.kt` and `TextTokens.kt` are not part of this model. They are app bootstrap and constants.
