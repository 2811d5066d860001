/** Option 2: `calculateAdjustedTextStyle`. Starting from the remembered text
    style, measure; while the text overflows and `step <= 1`, raise `step` by a
    tenth and set the font size to `lerp(start, min, step)`; measure again.

    `step` is counted here in tenths. The guard is read with exact arithmetic:
    it is checked before the increment, so the loop may make an eleventh
    adjustment, to the fraction 1.1, which lies below the minimum when the
    minimum is below the start size. */
module LerpStep {
  import opened Typography

  /** The guard `step <= 1f`, in tenths. */
  const LastStep: nat := 10

  /** The font size the loop sets after raising `step` to `k` tenths: step 0
      is the start, step 10 the minimum, and every step keeps the start's unit. */
  function Candidate(start: TextUnit, minFontSize: TextUnit, k: nat): (r: TextUnit)
    requires Comparable(start, minFontSize)
    ensures r.Type() == start.Type()
    ensures k == 0 ==> r == start
    ensures k == LastStep ==> r == minFontSize
  {
    Lerp(start, minFontSize, k as real / 10.0).value
  }

  /** The candidates for the steps `lo + 1` to `hi`, in the order the loop tries them. */
  function Candidates(start: TextUnit, minFontSize: TextUnit, lo: nat, hi: nat): (r: seq<TextUnit>)
    requires Comparable(start, minFontSize) && lo <= hi
    ensures |r| == hi - lo
    ensures forall i :: 0 <= i < hi - lo ==> r[i] == Candidate(start, minFontSize, lo + 1 + i)
    decreases hi - lo
  {
    if lo == hi then [] else [Candidate(start, minFontSize, lo + 1)] + Candidates(start, minFontSize, lo + 1, hi)
  }

  /** When the minimum is not above the start, later candidates are never larger. */
  lemma CandidatesDescend(start: TextUnit, minFontSize: TextUnit, j: nat, k: nat)
    requires Comparable(start, minFontSize) && minFontSize.value <= start.value && j <= k
    ensures Candidate(start, minFontSize, k).value <= Candidate(start, minFontSize, j).value
  {
  }

  /** Every candidate the loop can reach lies in `[min - (start - min) / 10, start]`;
      the first ten lie in `[min, start]`. */
  lemma CandidateRange(start: TextUnit, minFontSize: TextUnit, k: nat)
    requires Comparable(start, minFontSize) && minFontSize.value <= start.value && k <= LastStep + 1
    ensures Candidate(start, minFontSize, k).value <= start.value
    ensures Candidate(start, minFontSize, k).value >= minFontSize.value - (start.value - minFontSize.value) / 10.0
    ensures k <= LastStep ==> Candidate(start, minFontSize, k).value >= minFontSize.value
  {
    CandidatesDescend(start, minFontSize, 0, k);
    CandidatesDescend(start, minFontSize, k, LastStep + 1);
    if k <= LastStep {
      CandidatesDescend(start, minFontSize, k, LastStep);
    }
  }

  /** The eleventh adjustment overshoots: its size is below the minimum
      whenever the minimum is below the start size. */
  lemma EleventhCandidateBelowMinimum(start: TextUnit, minFontSize: TextUnit)
    requires Comparable(start, minFontSize) && minFontSize.value < start.value
    ensures Candidate(start, minFontSize, LastStep + 1).value < minFontSize.value
  {
  }

  /** The fields `calculateAdjustedTextStyle` remembers: `step` (in tenths),
      `textStyle` and `readyToDraw`. */
  datatype LerpState = LerpState(step: nat, textStyle: TextStyle, readyToDraw: bool)

  /** The `while (!readyToDraw)` loop entered in state `s`, whose style the
      deterministic measurer `overflows` has just measured; `measured` holds
      the sizes measured so far and the run appends each new measurement.
      Each adjustment raises `step` first and then interpolates, so a failing
      `lerp` leaves the raised step behind. */
  function Search(s: LerpState, start: TextUnit, minFontSize: TextUnit, overflows: TextUnit -> bool,
                  measured: seq<TextUnit>): (r: Run<LerpState>)
    ensures s.step <= r.state.step
    decreases if s.readyToDraw then 0 else 1, LastStep + 1 - s.step
  {
    if s.readyToDraw then Run(s, measured, Ok(s.textStyle))
    else if overflows(s.textStyle.fontSize) && s.step <= LastStep then
      match Lerp(start, minFontSize, (s.step + 1) as real / 10.0)
      case Err(e) => Run(s.(step := s.step + 1), measured, Err(e))
      case Ok(size) =>
        Search(LerpState(s.step + 1, s.textStyle.(fontSize := size), false), start, minFontSize, overflows, measured + [size])
    else
      Run(s.(readyToDraw := true), measured + [s.textStyle.fontSize], Ok(s.textStyle))
  }

  /** A finished search is not resumed: a re-run of the block measures the
      remembered style once and returns it as it is. */
  lemma SearchWhenReady(s: LerpState, start: TextUnit, minFontSize: TextUnit, overflows: TextUnit -> bool)
    requires s.readyToDraw
    ensures Search(s, start, minFontSize, overflows, [s.textStyle.fontSize])
            == Run(s, [s.textStyle.fontSize], Ok(s.textStyle))
  {
  }

  /** With both sizes unspecified the search changes no size: it either
      finishes at once or fails on its first `lerp`. */
  lemma SearchUnspecified(s: LerpState, start: TextUnit, minFontSize: TextUnit, overflows: TextUnit -> bool,
                          measured: seq<TextUnit>)
    requires s.step <= LastStep + 1 && !s.readyToDraw
    requires !start.IsSpecified() && !minFontSize.IsSpecified()
    ensures var run := Search(s, start, minFontSize, overflows, measured);
            && run.state.textStyle == s.textStyle
            && if overflows(s.textStyle.fontSize) && s.step <= LastStep
               then run == Run(s.(step := s.step + 1), measured, Err(UnspecifiedArithmetic))
               else run == Run(s.(readyToDraw := true), measured + [s.textStyle.fontSize], Ok(s.textStyle))
  {
  }

  /** The search ends ready to draw and returns the remembered style with only
      `fontSize` replaced: by nothing when it made no adjustment (then the
      style it entered with did not overflow, or `step` was already past 1),
      and otherwise by the candidate of the last step, after the entry style
      overflowed. */
  lemma {:induction false} SearchResult(s: LerpState, start: TextUnit, minFontSize: TextUnit, overflows: TextUnit -> bool,
                                        measured: seq<TextUnit>)
    requires s.step <= LastStep + 1 && !s.readyToDraw
    requires Comparable(start, minFontSize)
    ensures var run := Search(s, start, minFontSize, overflows, measured);
            && run.state.readyToDraw
            && run.outcome == Ok(run.state.textStyle)
            && run.state.textStyle.(fontSize := s.textStyle.fontSize) == s.textStyle
            && s.step <= run.state.step <= LastStep + 1
            && (run.state.step == s.step ==>
                  run.state.textStyle == s.textStyle && (!overflows(s.textStyle.fontSize) || s.step > LastStep))
            && (run.state.step > s.step ==>
                  overflows(s.textStyle.fontSize) && run.state.textStyle.fontSize == Candidate(start, minFontSize, run.state.step))
    decreases LastStep + 1 - s.step
  {
    if overflows(s.textStyle.fontSize) && s.step <= LastStep {
      var size := Candidate(start, minFontSize, s.step + 1);
      SearchResult(LerpState(s.step + 1, s.textStyle.(fontSize := size), false), start, minFontSize, overflows, measured + [size]);
    }
  }

  /** The search stops at the first candidate that fits: every candidate before
      the last one overflowed, and the last one fits unless the step went past 1. */
  lemma {:induction false} SearchStopsAtFirstFit(s: LerpState, start: TextUnit, minFontSize: TextUnit, overflows: TextUnit -> bool,
                                                 measured: seq<TextUnit>)
    requires s.step <= LastStep + 1 && !s.readyToDraw
    requires Comparable(start, minFontSize)
    ensures var run := Search(s, start, minFontSize, overflows, measured);
            && (forall j :: s.step < j < run.state.step ==> overflows(Candidate(start, minFontSize, j)))
            && (!overflows(run.state.textStyle.fontSize) || run.state.step > LastStep)
    decreases LastStep + 1 - s.step
  {
    SearchResult(s, start, minFontSize, overflows, measured);
    if overflows(s.textStyle.fontSize) && s.step <= LastStep {
      var size := Candidate(start, minFontSize, s.step + 1);
      var next := LerpState(s.step + 1, s.textStyle.(fontSize := size), false);
      SearchStopsAtFirstFit(next, start, minFontSize, overflows, measured + [size]);
      SearchResult(next, start, minFontSize, overflows, measured + [size]);
    }
  }

  /** The sizes the loop measures are exactly the candidates it tries, in
      order, followed by one more measurement of the size it settles on. */
  lemma {:induction false} SearchMeasures(s: LerpState, start: TextUnit, minFontSize: TextUnit, overflows: TextUnit -> bool,
                                          measured: seq<TextUnit>)
    requires s.step <= LastStep + 1 && !s.readyToDraw
    requires Comparable(start, minFontSize)
    ensures var run := Search(s, start, minFontSize, overflows, measured);
            s.step <= run.state.step
            && run.measured == measured + Candidates(start, minFontSize, s.step, run.state.step) + [run.state.textStyle.fontSize]
    decreases LastStep + 1 - s.step
  {
    if overflows(s.textStyle.fontSize) && s.step <= LastStep {
      var size := Candidate(start, minFontSize, s.step + 1);
      var next := LerpState(s.step + 1, s.textStyle.(fontSize := size), false);
      SearchMeasures(next, start, minFontSize, overflows, measured + [size]);
      var run := Search(next, start, minFontSize, overflows, measured + [size]);
      var rest := Candidates(start, minFontSize, next.step, run.state.step);
      assert measured + [size] + rest == measured + ([size] + rest);
    }
  }

  /** Consecutive candidates lie a tenth of `start - min` apart. */
  lemma CandidateStep(start: TextUnit, minFontSize: TextUnit, k: nat)
    requires Comparable(start, minFontSize)
    ensures Candidate(start, minFontSize, k + 1).value
            == Candidate(start, minFontSize, k).value - (start.value - minFontSize.value) / 10.0
  {
    LerpValue(start, minFontSize, k as real / 10.0);
    LerpValue(start, minFontSize, (k + 1) as real / 10.0);
    var gap := minFontSize.value - start.value;
    assert ((k + 1) as real / 10.0) * gap == (k as real / 10.0) * gap + gap / 10.0;
  }

  /** No overflow when a fit exists: with a monotone measurer and a size `fit`
      in `[min, start]` that does not overflow, a search from step 0 never goes
      past the minimum and ends on a size that does not overflow. When it
      adjusted at all, that size lies less than one step, `(start - min) / 10`,
      below `fit`. */
  lemma {:induction false} SearchFindsFit(style: TextStyle, start: TextUnit, minFontSize: TextUnit, overflows: TextUnit -> bool,
                                          measured: seq<TextUnit>, fit: TextUnit)
    requires Comparable(start, minFontSize) && Comparable(fit, minFontSize)
    requires Monotone(overflows) && !overflows(fit)
    requires minFontSize.value <= fit.value <= start.value
    ensures var run := Search(LerpState(0, style, false), start, minFontSize, overflows, measured);
            && run.state.step <= LastStep
            && !overflows(run.state.textStyle.fontSize)
            && (run.state.step > 0 ==>
                  && run.state.textStyle.fontSize == Candidate(start, minFontSize, run.state.step)
                  && run.state.textStyle.fontSize.value >= fit.value - (start.value - minFontSize.value) / 10.0)
  {
    var s := LerpState(0, style, false);
    SearchResult(s, start, minFontSize, overflows, measured);
    SearchStopsAtFirstFit(s, start, minFontSize, overflows, measured);
    var k := Search(s, start, minFontSize, overflows, measured).state.step;
    assert !overflows(minFontSize);
    assert !overflows(Candidate(start, minFontSize, LastStep));
    if k > 0 {
      CandidateStep(start, minFontSize, k - 1);
      var previous := Candidate(start, minFontSize, k - 1);
      assert previous.value >= fit.value by {
        if k - 1 > 0 {
          assert overflows(previous);
          assert Comparable(previous, fit);
        }
      }
    }
  }

  /** A worked case: from 54 sp down to 8 sp, text that fits only at
      12 sp or less. The ninth candidate (12.6 sp) still overflows, so the
      search ends on the tenth, the minimum itself. */
  lemma ScenarioFiftyFourToEight(style: TextStyle)
    requires style.fontSize == Sp(54.0)
    ensures var run := Search(LerpState(0, style, false), Sp(54.0), Sp(8.0), (u: TextUnit) => u.IsSpecified() && u.value > 12.0, [Sp(54.0)]);
            run.outcome == Ok(style.(fontSize := Sp(8.0))) && run.state.step == LastStep
  {
    var overflows := (u: TextUnit) => u.IsSpecified() && u.value > 12.0;
    var s := LerpState(0, style, false);
    SearchResult(s, Sp(54.0), Sp(8.0), overflows, [Sp(54.0)]);
    SearchStopsAtFirstFit(s, Sp(54.0), Sp(8.0), overflows, [Sp(54.0)]);
    var k := Search(s, Sp(54.0), Sp(8.0), overflows, [Sp(54.0)]).state.step;
    assert Candidate(Sp(54.0), Sp(8.0), 9).value == 12.6;
    assert !overflows(Candidate(Sp(54.0), Sp(8.0), LastStep));
    var below := if k <= 9 then k else 9;
    CandidatesDescend(Sp(54.0), Sp(8.0), below, 9);
  }

  /** The state `calculateAdjustedTextStyle` keeps with key-less `remember`
      calls, so that it outlives the `(text, constraints)` key of the search. */
  class LerpSearch {
    var step: nat              // `step`, in tenths
    var textStyle: TextStyle
    var readyToDraw: bool

    ghost predicate Valid()
      reads this
    {
      step <= LastStep + 1
    }

    function State(): LerpState
      reads this
    {
      LerpState(step, textStyle, readyToDraw)
    }

    /** The `remember` initialisers of the first composition. */
    constructor (style: TextStyle)
      ensures Valid() && State() == LerpState(0, style, false)
    {
      step := 0;
      textStyle := style;
      readyToDraw := false;
    }

    /** One run of the `remember(text, constraints)` block, preceded by the
        start-size prologue. `overflows` is the text measurer for this text
        and these constraints; `measured` lists the font sizes it is asked
        about, in order, beginning with the remembered style's own size. */
    method CalculateAdjustedTextStyle(fontSize: TextUnit, style: TextStyle, minFontSize: TextUnit, overflows: TextUnit -> bool)
      returns (r: Result<TextStyle>, measured: seq<TextUnit>)
      requires Valid()
      modifies this
      ensures Valid()
      ensures StartSize(fontSize, style.fontSize, minFontSize).Err? ==>
                r == Err(IncompatibleUnits) && measured == [] && unchanged(this)
      ensures StartSize(fontSize, style.fontSize, minFontSize).Ok? ==>
                Search(old(State()), StartSize(fontSize, style.fontSize, minFontSize).value, minFontSize, overflows,
                       [old(textStyle).fontSize])
                == Run(State(), measured, r)
    {
      var start := StartSize(fontSize, style.fontSize, minFontSize);
      if start.Err? {
        return Err(IncompatibleUnits), [];
      }
      var greaterTextSize := start.value;
      var hasOverflow := overflows(textStyle.fontSize);
      measured := [textStyle.fontSize];
      ghost var total := Search(State(), greaterTextSize, minFontSize, overflows, measured);
      while !readyToDraw
        invariant Valid()
        invariant hasOverflow == overflows(textStyle.fontSize)
        invariant Search(State(), greaterTextSize, minFontSize, overflows, measured) == total
        decreases if readyToDraw then 0 else 1, LastStep + 1 - step
      {
        ghost var current := State();
        if hasOverflow && step <= LastStep {
          step := step + 1;
          var newSize := Lerp(greaterTextSize, minFontSize, step as real / 10.0);
          if newSize.Err? {
            return Err(newSize.error), measured;
          }
          textStyle := textStyle.(fontSize := newSize.value);
          assert Search(current, greaterTextSize, minFontSize, overflows, measured)
              == Search(State(), greaterTextSize, minFontSize, overflows, measured + [textStyle.fontSize]);
        } else {
          readyToDraw := true;
        }
        hasOverflow := overflows(textStyle.fontSize);
        measured := measured + [textStyle.fontSize];
      }
      r := Ok(textStyle);
    }
  }
}
