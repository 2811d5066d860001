/** Option 3: `calculateAdjustedTextStyleBinarySearch`. Bounds `bottomSize`
    (from the minimum) and `topSize` (from the start size) are bisected:
    an overflowing measurement moves the top bound down to the midpoint, a
    fitting one records the measured size as `lastValidSize` and moves the
    bottom bound up to the midpoint. The search ends when `bottomSize >= topSize`
    and yields `lastValidSize`.

    Sizes are exact reals here, so the interval halves exactly on each
    iteration and, once open, never closes. With `Float` sizes the loop ends
    only when a rounded midpoint lands on the opposite bound; a midpoint that
    rounds onto the bound it replaces repeats the same state, and the loop
    does not end. The loop therefore carries a fuel bound, and the contract
    states what holds after every iteration rather than termination. */
module BinarySearch {
  import opened Typography

  /** `midPointSize()`: the mean of the two bounds, in sp when the bottom bound
      is sp and in em otherwise. */
  function MidPoint(bottomSize: TextUnit, topSize: TextUnit): (r: TextUnit)
    requires bottomSize.IsSpecified() && topSize.IsSpecified()
    ensures bottomSize.Sp? ==> r.Sp?
    ensures !bottomSize.Sp? ==> r.Em?
    ensures r.value - bottomSize.value == topSize.value - r.value
    ensures bottomSize.value < topSize.value ==> bottomSize.value < r.value < topSize.value
  {
    if bottomSize.Sp? then Sp((bottomSize.value + topSize.value) / 2.0)
    else Em((bottomSize.value + topSize.value) / 2.0)
  }

  /** The fields `calculateAdjustedTextStyleBinarySearch` remembers. */
  datatype BisectionState = BisectionState(lastValidSize: TextUnit, topSize: TextUnit, bottomSize: TextUnit,
                                           textStyle: TextStyle, readyToDraw: bool)

  /** The `remember` initialisers: the bounds span `[minFontSize, greaterTextSize]`
      and the minimum counts as the last valid size until a measurement fits. */
  function Initial(greaterTextSize: TextUnit, minFontSize: TextUnit, style: TextStyle): (r: BisectionState)
    ensures greaterTextSize.Type() == minFontSize.Type() ==> Within(r, minFontSize, greaterTextSize)
    ensures !r.readyToDraw && r.textStyle == style
  {
    BisectionState(minFontSize, greaterTextSize, minFontSize, style, false)
  }

  /** The bounds keep the unit of `floorSize` and stay within
      `[floorSize, ceilingSize]`, the bottom not above the top unless neither
      has moved. */
  ghost predicate Within(s: BisectionState, floorSize: TextUnit, ceilingSize: TextUnit) {
    && ceilingSize.Type() == floorSize.Type()
    && s.bottomSize.Type() == floorSize.Type()
    && s.topSize.Type() == floorSize.Type()
    && (floorSize.IsSpecified() ==>
          && floorSize.value <= s.bottomSize.value
          && s.topSize.value <= ceilingSize.value
          && (s.bottomSize.value <= s.topSize.value || (s.bottomSize == floorSize && s.topSize == ceilingSize)))
  }

  /** One pass of the loop body, given the last measurement: when the bounds
      have met, finish with `lastValidSize`; otherwise halve the interval,
      moving the top bound down after an overflow or, recording the measured
      size as the last valid one, the bottom bound up after a fit; the style
      takes the bound that moved. Comparing the bounds fails when they are not
      comparable. */
  function Bisect(s: BisectionState, hasOverflow: bool): (r: Result<BisectionState>)
    requires !s.readyToDraw
    ensures r.Err? <==> !Comparable(s.bottomSize, s.topSize)
    ensures r.Err? ==> r.error == ArithmeticError(s.bottomSize, s.topSize)
    ensures r.Ok? ==> r.value.textStyle.(fontSize := s.textStyle.fontSize) == s.textStyle
    ensures r.Ok? ==> (r.value.readyToDraw <==> s.bottomSize.value >= s.topSize.value)
    ensures r.Ok? && r.value.readyToDraw ==>
              && r.value.(readyToDraw := false, textStyle := s.textStyle) == s
              && r.value.textStyle.fontSize == s.lastValidSize
    ensures r.Ok? && !r.value.readyToDraw ==>
              && Comparable(r.value.bottomSize, r.value.topSize)
              && s.bottomSize.value <= r.value.bottomSize.value < r.value.topSize.value <= s.topSize.value
              && r.value.topSize.value - r.value.bottomSize.value == (s.topSize.value - s.bottomSize.value) / 2.0
              && (hasOverflow ==> r.value.bottomSize == s.bottomSize && r.value.lastValidSize == s.lastValidSize
                                  && r.value.textStyle.fontSize == r.value.topSize)
              && (!hasOverflow ==> r.value.topSize == s.topSize && r.value.lastValidSize == s.textStyle.fontSize
                                   && r.value.textStyle.fontSize == r.value.bottomSize)
  {
    match Compare(s.bottomSize, s.topSize)
    case Err(e) => Err(e)
    case Ok(c) =>
      if c >= 0 then
        Ok(s.(readyToDraw := true, textStyle := s.textStyle.(fontSize := s.lastValidSize)))
      else if hasOverflow then
        var top := MidPoint(s.bottomSize, s.topSize);
        Ok(s.(topSize := top, textStyle := s.textStyle.(fontSize := top)))
      else
        var bottom := MidPoint(s.bottomSize, s.topSize);
        Ok(s.(lastValidSize := s.textStyle.fontSize, bottomSize := bottom, textStyle := s.textStyle.(fontSize := bottom)))
  }

  /** The `while (!readyToDraw)` loop entered in state `s`, whose style the
      deterministic measurer `overflows` has just measured, cut off after
      `fuel` iterations; `measured` holds the sizes measured so far, and every
      iteration appends its re-measurement of the style it leaves. */
  function Search(s: BisectionState, overflows: TextUnit -> bool, fuel: nat, measured: seq<TextUnit>): (r: Run<BisectionState>)
    ensures r.state.textStyle.(fontSize := s.textStyle.fontSize) == s.textStyle
    ensures r.outcome.Ok? ==> r.state.readyToDraw && r.outcome.value == r.state.textStyle
    decreases fuel
  {
    if s.readyToDraw then Run(s, measured, Ok(s.textStyle))
    else if fuel == 0 then Run(s, measured, Err(OutOfFuel))
    else match Bisect(s, overflows(s.textStyle.fontSize))
      case Err(e) => Run(s, measured, Err(e))
      case Ok(next) => Search(next, overflows, fuel - 1, measured + [next.textStyle.fontSize])
  }

  /** The bounds never leave the interval they were remembered with. */
  lemma {:induction false} SearchStaysWithin(s: BisectionState, overflows: TextUnit -> bool, fuel: nat, measured: seq<TextUnit>,
                                             floorSize: TextUnit, ceilingSize: TextUnit)
    requires Within(s, floorSize, ceilingSize)
    ensures Within(Search(s, overflows, fuel, measured).state, floorSize, ceilingSize)
    decreases fuel
  {
    if !s.readyToDraw && fuel > 0 {
      var b := Bisect(s, overflows(s.textStyle.fontSize));
      if b.Ok? {
        SearchStaysWithin(b.value, overflows, fuel - 1, measured + [b.value.textStyle.fontSize], floorSize, ceilingSize);
      }
    }
  }

  /** Every run keeps the style's other attributes and only narrows the bounds. */
  lemma {:induction false} SearchNarrows(s: BisectionState, overflows: TextUnit -> bool, fuel: nat, measured: seq<TextUnit>)
    requires !s.readyToDraw && Comparable(s.bottomSize, s.topSize)
    ensures var run := Search(s, overflows, fuel, measured);
            && run.state.textStyle.(fontSize := s.textStyle.fontSize) == s.textStyle
            && Comparable(run.state.bottomSize, run.state.topSize)
            && s.bottomSize.value <= run.state.bottomSize.value
            && run.state.topSize.value <= s.topSize.value
    decreases fuel
  {
    if fuel > 0 {
      var next := Bisect(s, overflows(s.textStyle.fontSize)).value;
      if !next.readyToDraw {
        SearchNarrows(next, overflows, fuel - 1, measured + [next.textStyle.fontSize]);
      }
    }
  }

  /** A run keeps the measurements made before it and adds at most one per
      iteration. */
  lemma {:induction false} SearchExtendsMeasured(s: BisectionState, overflows: TextUnit -> bool, fuel: nat, measured: seq<TextUnit>)
    ensures var run := Search(s, overflows, fuel, measured);
            && |measured| <= |run.measured| <= |measured| + fuel
            && run.measured[..|measured|] == measured
    decreases fuel
  {
    if !s.readyToDraw && fuel > 0 && Bisect(s, overflows(s.textStyle.fontSize)).Ok? {
      var next := Bisect(s, overflows(s.textStyle.fontSize)).value;
      var more := measured + [next.textStyle.fontSize];
      SearchExtendsMeasured(next, overflows, fuel - 1, more);
      assert more[..|measured|] == measured;
    } else {
      assert measured[..|measured|] == measured;
    }
  }

  /** `lastValidSize` is the one the run started with or a measured size
      that fitted. */
  lemma {:induction false} SearchLastValid(s: BisectionState, overflows: TextUnit -> bool, fuel: nat, measured: seq<TextUnit>)
    requires s.textStyle.fontSize in measured
    ensures var run := Search(s, overflows, fuel, measured);
            run.state.lastValidSize == s.lastValidSize
            || (run.state.lastValidSize in run.measured && !overflows(run.state.lastValidSize))
    decreases fuel
  {
    if !s.readyToDraw && fuel > 0 && Bisect(s, overflows(s.textStyle.fontSize)).Ok? {
      var next := Bisect(s, overflows(s.textStyle.fontSize)).value;
      var more := measured + [next.textStyle.fontSize];
      SearchLastValid(next, overflows, fuel - 1, more);
      SearchExtendsMeasured(next, overflows, fuel - 1, more);
      var run := Search(next, overflows, fuel - 1, more);
      var i :| 0 <= i < |measured| && measured[i] == s.textStyle.fontSize;
      assert run.measured[..|measured|] == measured;
      assert run.measured[i] == measured[i];
    }
  }

  /** How a run ends: either ready to draw with `lastValidSize` once the
      bounds have met, or with Compose's arithmetic error on bounds that are
      not comparable, or cut off with the interval still open. */
  lemma {:induction false} SearchOutcome(s: BisectionState, overflows: TextUnit -> bool, fuel: nat, measured: seq<TextUnit>)
    requires !s.readyToDraw
    ensures var run := Search(s, overflows, fuel, measured);
            && (run.outcome.Ok? <==> run.state.readyToDraw)
            && (run.outcome.Ok? ==>
                  && run.outcome.value == run.state.textStyle
                  && run.state.textStyle.fontSize == run.state.lastValidSize
                  && Comparable(run.state.bottomSize, run.state.topSize)
                  && run.state.bottomSize.value >= run.state.topSize.value)
            && (run.outcome.Err? && run.outcome.error != OutOfFuel ==>
                  && !Comparable(s.bottomSize, s.topSize)
                  && run.outcome.error == ArithmeticError(s.bottomSize, s.topSize)
                  && run == Run(s, measured, run.outcome))
    decreases fuel
  {
    if fuel > 0 {
      var b := Bisect(s, overflows(s.textStyle.fontSize));
      if b.Ok? && !b.value.readyToDraw {
        SearchOutcome(b.value, overflows, fuel - 1, measured + [b.value.textStyle.fontSize]);
      }
    }
  }

  /** No overflow when a fit exists: with a monotone measurer and a size `fit`
      in `[min, start]` that does not overflow, the minimum fits too, so the
      last valid size never overflows, after any number of iterations, and a
      run that finishes returns a size that fits. */
  lemma SearchKeepsFit(start: TextUnit, minFontSize: TextUnit, style: TextStyle, overflows: TextUnit -> bool,
                       fuel: nat, fit: TextUnit)
    requires Comparable(start, minFontSize) && Comparable(fit, minFontSize)
    requires Monotone(overflows) && !overflows(fit)
    requires minFontSize.value <= fit.value <= start.value
    ensures var run := Search(Initial(start, minFontSize, style), overflows, fuel, [style.fontSize]);
            && !overflows(run.state.lastValidSize)
            && (run.outcome.Ok? ==> !overflows(run.outcome.value.fontSize))
  {
    var s := Initial(start, minFontSize, style);
    SearchLastValid(s, overflows, fuel, [style.fontSize]);
    SearchOutcome(s, overflows, fuel, [style.fontSize]);
    assert !overflows(minFontSize);
  }

  /** A finished search is not resumed: a re-run of the block measures the
      remembered style once and returns it as it is. */
  lemma SearchWhenReady(s: BisectionState, overflows: TextUnit -> bool, fuel: nat)
    requires s.readyToDraw
    ensures Search(s, overflows, fuel, [s.textStyle.fontSize]) == Run(s, [s.textStyle.fontSize], Ok(s.textStyle))
  {
  }

  /** Bounds that have already met (a minimum at or above the start size)
      end the search at the first comparison, with `lastValidSize`. */
  lemma SearchClosedAtOnce(s: BisectionState, overflows: TextUnit -> bool, fuel: nat, measured: seq<TextUnit>)
    requires !s.readyToDraw && fuel > 0
    requires Comparable(s.bottomSize, s.topSize) && s.bottomSize.value >= s.topSize.value
    ensures var done := s.(readyToDraw := true, textStyle := s.textStyle.(fontSize := s.lastValidSize));
            Search(s, overflows, fuel, measured) == Run(done, measured + [s.lastValidSize], Ok(done.textStyle))
  {
  }

  /** The width of the interval between the bounds. */
  function Width(s: BisectionState): real
    requires Comparable(s.bottomSize, s.topSize)
  {
    s.topSize.value - s.bottomSize.value
  }

  /** `width` halved `n` times. */
  function Halved(width: real, n: nat): real
    decreases n
  {
    if n == 0 then width else Halved(width / 2.0, n - 1)
  }

  /** With exact sizes an open interval never closes: every iteration halves
      it, so after `fuel` iterations it is `fuel` times halved and the run
      is cut off, having measured one size per iteration. */
  lemma {:induction false} SearchNeverCloses(s: BisectionState, overflows: TextUnit -> bool, fuel: nat, measured: seq<TextUnit>)
    requires !s.readyToDraw && Comparable(s.bottomSize, s.topSize) && s.bottomSize.value < s.topSize.value
    ensures var run := Search(s, overflows, fuel, measured);
            && run.outcome == Err(OutOfFuel)
            && |run.measured| == |measured| + fuel
            && !run.state.readyToDraw
            && Comparable(run.state.bottomSize, run.state.topSize)
            && run.state.bottomSize.value < run.state.topSize.value
            && Width(run.state) == Halved(Width(s), fuel)
    decreases fuel
  {
    if fuel > 0 {
      var next := Bisect(s, overflows(s.textStyle.fontSize)).value;
      SearchNeverCloses(next, overflows, fuel - 1, measured + [next.textStyle.fontSize]);
    }
  }

  /** A search from 64 sp down to 8 sp never closes its interval, whatever
      the measurer answers and however much fuel it gets. */
  lemma ScenarioSixtyFourNeverCloses(overflows: TextUnit -> bool, fuel: nat, style: TextStyle)
    ensures Search(Initial(Sp(64.0), Sp(8.0), style), overflows, fuel, [style.fontSize]).outcome == Err(OutOfFuel)
  {
    SearchNeverCloses(Initial(Sp(64.0), Sp(8.0), style), overflows, fuel, [style.fontSize]);
  }

  /** A minimum above the start size (12 sp against 10 sp) closes the interval
      at once, and the result is the minimum itself, larger than the start. */
  lemma ScenarioMinimumAboveStart(overflows: TextUnit -> bool, fuel: nat, style: TextStyle)
    requires fuel > 0
    ensures Search(Initial(Sp(10.0), Sp(12.0), style), overflows, fuel, [style.fontSize]).outcome == Ok(style.(fontSize := Sp(12.0)))
  {
    SearchClosedAtOnce(Initial(Sp(10.0), Sp(12.0), style), overflows, fuel, [style.fontSize]);
  }

  /** The state `calculateAdjustedTextStyleBinarySearch` keeps with key-less
      `remember` calls, so that it outlives the `(text, constraints)` key of
      the search. */
  class BisectionSearch {
    var lastValidSize: TextUnit
    var topSize: TextUnit
    var bottomSize: TextUnit
    var textStyle: TextStyle
    var readyToDraw: bool
    ghost const floorSize: TextUnit     // the minimum the bounds were remembered with
    ghost const ceilingSize: TextUnit   // the start size the bounds were remembered with

    function State(): BisectionState
      reads this
    {
      BisectionState(lastValidSize, topSize, bottomSize, textStyle, readyToDraw)
    }

    ghost predicate Valid()
      reads this
    {
      Within(State(), floorSize, ceilingSize)
    }

    /** The `remember` initialisers of the first composition, which run only
        once the start size has passed the unit check. */
    constructor (greaterTextSize: TextUnit, minFontSize: TextUnit, style: TextStyle)
      requires greaterTextSize.Type() == minFontSize.Type()
      ensures Valid() && State() == Initial(greaterTextSize, minFontSize, style)
    {
      lastValidSize := minFontSize;
      topSize := greaterTextSize;
      bottomSize := minFontSize;
      textStyle := style;
      readyToDraw := false;
      floorSize := minFontSize;
      ceilingSize := greaterTextSize;
    }

    /** One run of the `remember(text, constraints)` block, preceded by the
        start-size prologue, with at most `fuel` iterations of its loop.
        `overflows` is the text measurer for this text and these constraints;
        `measured` lists the font sizes it is asked about, in order, beginning
        with the remembered style's own size. */
    method CalculateAdjustedTextStyleBinarySearch(fontSize: TextUnit, style: TextStyle, minFontSize: TextUnit,
                                                  overflows: TextUnit -> bool, fuel: nat)
      returns (r: Result<TextStyle>, measured: seq<TextUnit>)
      requires Valid()
      modifies this
      ensures Valid()
      ensures StartSize(fontSize, style.fontSize, minFontSize).Err? ==>
                r == Err(IncompatibleUnits) && measured == [] && unchanged(this)
      ensures StartSize(fontSize, style.fontSize, minFontSize).Ok? ==>
                Search(old(State()), overflows, fuel, [old(textStyle).fontSize]) == Run(State(), measured, r)
    {
      var start := StartSize(fontSize, style.fontSize, minFontSize);
      if start.Err? {
        return Err(IncompatibleUnits), [];
      }
      var hasOverflow := overflows(textStyle.fontSize);
      measured := [textStyle.fontSize];
      var remaining: nat := fuel;
      ghost var total := Search(State(), overflows, fuel, measured);
      SearchStaysWithin(State(), overflows, fuel, measured, floorSize, ceilingSize);
      while !readyToDraw && remaining > 0
        invariant hasOverflow == overflows(textStyle.fontSize)
        invariant Search(State(), overflows, remaining, measured) == total
        decreases remaining
      {
        var ordered := Compare(bottomSize, topSize);
        if ordered.Err? {
          return Err(ordered.error), measured;
        }
        if ordered.value >= 0 {
          readyToDraw := true;
          textStyle := textStyle.(fontSize := lastValidSize);
        } else if hasOverflow {
          topSize := MidPoint(bottomSize, topSize);
          textStyle := textStyle.(fontSize := topSize);
        } else {
          lastValidSize := textStyle.fontSize;
          bottomSize := MidPoint(bottomSize, topSize);
          textStyle := textStyle.(fontSize := bottomSize);
        }
        remaining := remaining - 1;
        hasOverflow := overflows(textStyle.fontSize);
        measured := measured + [textStyle.fontSize];
      }
      if !readyToDraw {
        return Err(OutOfFuel), measured;
      }
      r := Ok(textStyle);
    }
  }
}
