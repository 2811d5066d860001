/** Option 1: the reactive shrink. A size remembered per text is rendered;
    every layout callback that reports a visual overflow while the size is
    still above `minFontSize` lowers it by 0.2 of its own unit, which causes
    another composition at the smaller size. */
module ReactiveShrink {
  import opened Typography
  import opened AnnotatedText

  /** The fixed decrement, in the remembered size's own unit (sp or em). */
  const Decrement: real := 0.2

  /** What one `onTextLayout` callback does to the remembered size: the
      comparison with `minFontSize` is made only when the layout overflowed,
      and only then can it fail. */
  function LayoutStep(size: TextUnit, minFontSize: TextUnit, hasVisualOverflow: bool): (r: Result<TextUnit>)
    ensures r.Err? <==> hasVisualOverflow && !Comparable(size, minFontSize)
    ensures r.Err? ==> r.error == ArithmeticError(size, minFontSize)
    ensures r.Ok? ==> r.value.Type() == size.Type()
    ensures r.Ok? ==> (r.value != size <==> hasVisualOverflow && size.value > minFontSize.value)
    ensures r.Ok? && r.value != size ==> r.value.value == size.value - Decrement
  {
    if !hasVisualOverflow then Ok(size)
    else match Compare(size, minFontSize)
      case Err(e) => Err(e)
      case Ok(c) =>
        if c > 0 then Ok(if size.Em? then Em(size.value - Decrement) else Sp(size.value - Decrement))
        else Ok(size)
  }

  /** `passes` compositions in a row, each laid out at the size the previous
      callback left and measured by the deterministic `overflows`: the size
      that `passes` successive `OnTextLayout` calls leave behind, each told
      whether the size then rendered overflows. Only sizes that are not
      comparable with the minimum can make a pass fail. */
  function Settle(size: TextUnit, minFontSize: TextUnit, overflows: TextUnit -> bool, passes: nat): (r: Result<TextUnit>)
    ensures r.Err? ==> !Comparable(size, minFontSize) && r.error == ArithmeticError(size, minFontSize)
    decreases passes
  {
    if passes == 0 then Ok(size)
    else match LayoutStep(size, minFontSize, overflows(size))
      case Err(e) => Err(e)
      case Ok(next) => Settle(next, minFontSize, overflows, passes - 1)
  }

  /** A size that a further layout pass leaves where it is. */
  predicate AtRest(size: TextUnit, minFontSize: TextUnit, overflows: TextUnit -> bool) {
    LayoutStep(size, minFontSize, overflows(size)) == Ok(size)
  }

  /** Any run of passes from a size comparable with the minimum succeeds, keeps
      the unit, never grows the size, and never takes it to `min - 0.2` or below
      when it started above that. */
  lemma {:induction false} SettleBounds(size: TextUnit, minFontSize: TextUnit, overflows: TextUnit -> bool, passes: nat)
    requires Comparable(size, minFontSize)
    ensures Settle(size, minFontSize, overflows, passes).Ok?
    ensures Settle(size, minFontSize, overflows, passes).value.Type() == size.Type()
    ensures Settle(size, minFontSize, overflows, passes).value.value <= size.value
    ensures size.value > minFontSize.value - Decrement ==>
              Settle(size, minFontSize, overflows, passes).value.value > minFontSize.value - Decrement
    decreases passes
  {
    if passes > 0 {
      var next := LayoutStep(size, minFontSize, overflows(size)).value;
      SettleBounds(next, minFontSize, overflows, passes - 1);
    }
  }

  /** Once at rest, the size stays there. */
  lemma {:induction false} SettleStaysAtRest(size: TextUnit, minFontSize: TextUnit, overflows: TextUnit -> bool, passes: nat)
    requires AtRest(size, minFontSize, overflows)
    ensures Settle(size, minFontSize, overflows, passes) == Ok(size)
    decreases passes
  {
    if passes > 0 {
      SettleStaysAtRest(size, minFontSize, overflows, passes - 1);
    }
  }

  /** The worst case: after `(start - min) / 0.2` passes (rounded up) the size
      is at rest, whatever the measurer says. */
  lemma {:induction false} SettleComesToRest(size: TextUnit, minFontSize: TextUnit, overflows: TextUnit -> bool, passes: nat)
    requires Comparable(size, minFontSize)
    requires size.value - minFontSize.value <= passes as real * Decrement
    ensures Settle(size, minFontSize, overflows, passes).Ok?
    ensures AtRest(Settle(size, minFontSize, overflows, passes).value, minFontSize, overflows)
    decreases passes
  {
    var next := LayoutStep(size, minFontSize, overflows(size)).value;
    if next == size {
      SettleStaysAtRest(size, minFontSize, overflows, passes);
    } else {
      assert passes > 0;
      SettleComesToRest(next, minFontSize, overflows, passes - 1);
    }
  }

  /** With a monotone measurer, every shrink happens above a size that fits,
      so the size never falls 0.2 or more below it. */
  lemma {:induction false} SettleNearFit(size: TextUnit, minFontSize: TextUnit, overflows: TextUnit -> bool, passes: nat, fit: TextUnit)
    requires Comparable(size, minFontSize) && Comparable(fit, minFontSize)
    requires Monotone(overflows) && !overflows(fit)
    requires fit.value - Decrement < size.value
    ensures Settle(size, minFontSize, overflows, passes).Ok?
    ensures Settle(size, minFontSize, overflows, passes).value.Type() == size.Type()
    ensures Settle(size, minFontSize, overflows, passes).value.value > fit.value - Decrement
    decreases passes
  {
    SettleBounds(size, minFontSize, overflows, passes);
    if passes > 0 {
      var next := LayoutStep(size, minFontSize, overflows(size)).value;
      if next != size {
        assert overflows(size);
        assert size.value > fit.value;
      }
      SettleNearFit(next, minFontSize, overflows, passes - 1, fit);
    }
  }

  /** No overflow when a fit exists: with a monotone measurer and a size `fit`
      in `[min, start]` that does not overflow, enough passes end at a size that
      does not overflow and lies less than 0.2 below `fit`. */
  lemma SettleFits(size: TextUnit, minFontSize: TextUnit, overflows: TextUnit -> bool, passes: nat, fit: TextUnit)
    requires Comparable(size, minFontSize) && Comparable(fit, minFontSize)
    requires Monotone(overflows) && !overflows(fit)
    requires minFontSize.value <= fit.value <= size.value
    requires size.value - minFontSize.value <= passes as real * Decrement
    ensures Settle(size, minFontSize, overflows, passes).Ok?
    ensures Settle(size, minFontSize, overflows, passes).value.Type() == size.Type()
    ensures !overflows(Settle(size, minFontSize, overflows, passes).value)
    ensures fit.value - Decrement < Settle(size, minFontSize, overflows, passes).value.value <= size.value
  {
    SettleBounds(size, minFontSize, overflows, passes);
    SettleComesToRest(size, minFontSize, overflows, passes);
    SettleNearFit(size, minFontSize, overflows, passes, fit);
  }

  /** With a measurer whose boundary is exactly `fit`, a start `n` decrements
      above it comes down to `fit` in `n` passes and stays there. */
  lemma {:induction false} SettleStepsDownToFit(size: TextUnit, minFontSize: TextUnit, overflows: TextUnit -> bool, fit: real, n: nat, extra: nat)
    requires Comparable(size, minFontSize)
    requires minFontSize.value <= fit
    requires size.value == fit + n as real * Decrement
    requires forall s :: Comparable(s, size) ==> (overflows(s) <==> s.value > fit)
    ensures Settle(size, minFontSize, overflows, n + extra) == Ok(WithValue(size, fit))
    decreases n
  {
    if n == 0 {
      assert size == WithValue(size, fit);
      SettleStaysAtRest(size, minFontSize, overflows, extra);
    } else {
      var next := LayoutStep(size, minFontSize, overflows(size)).value;
      assert next.value == fit + (n - 1) as real * Decrement;
      assert forall s :: Comparable(s, next) <==> Comparable(s, size);
      SettleStepsDownToFit(next, minFontSize, overflows, fit, n - 1, extra);
      assert WithValue(next, fit) == WithValue(size, fit);
    }
  }

  /** A start of 22 sp, a minimum of 10 sp and text that fits from 18 sp down:
      twenty passes of 0.2 sp bring the size to 18 sp, where it stays. */
  lemma ScenarioTwentyTwoToEighteen(passes: nat)
    requires passes >= 20
    ensures Settle(Sp(22.0), Sp(10.0), (s: TextUnit) => s.IsSpecified() && s.value > 18.0, passes) == Ok(Sp(18.0))
  {
    SettleStepsDownToFit(Sp(22.0), Sp(10.0), (s: TextUnit) => s.IsSpecified() && s.value > 18.0, 18.0, 20, passes - 20);
  }

  /** The state `TextAutoSize_option_1` keeps with `remember(text)`: the size
      to render, remembered for one text. */
  class RememberedSize {
    var rememberedFor: Option<AnnotatedString>
    var rememberedFontSize: TextUnit

    constructor ()
      ensures rememberedFor == None
    {
      rememberedFor := None;
      rememberedFontSize := Unspecified;
    }

    /** One composition: the start-size prologue, then `remember(text)`, which
        keeps the size for the same text and starts again from the start size
        for a new one. Returns the size passed to `Text`. */
    method Compose(text: AnnotatedString, fontSize: TextUnit, style: TextStyle, minFontSize: TextUnit)
      returns (r: Result<TextUnit>)
      modifies this
      ensures StartSize(fontSize, style.fontSize, minFontSize).Err? ==>
                r == Err(IncompatibleUnits) && unchanged(this)
      ensures StartSize(fontSize, style.fontSize, minFontSize).Ok? ==>
                && rememberedFor == Some(text)
                && r == Ok(rememberedFontSize)
                && rememberedFontSize == (if old(rememberedFor) == Some(text) then old(rememberedFontSize)
                                          else StartSize(fontSize, style.fontSize, minFontSize).value)
    {
      var actual := StartSize(fontSize, style.fontSize, minFontSize);
      if actual.Err? {
        return Err(IncompatibleUnits);
      }
      if rememberedFor != Some(text) {
        rememberedFor := Some(text);
        rememberedFontSize := actual.value;
      }
      r := Ok(rememberedFontSize);
    }

    /** The `onTextLayout` callback: shrink by 0.2 of the unit when the layout
        overflowed and the size is still above `minFontSize`. Returns the new
        size, or the comparison's error with the size left as it was.
        Successive calls, each told whether the size then rendered overflows,
        follow `Settle` one pass at a time. */
    method OnTextLayout(hasVisualOverflow: bool, minFontSize: TextUnit) returns (r: Result<TextUnit>)
      requires rememberedFor.Some?
      modifies this`rememberedFontSize
      ensures r == LayoutStep(old(rememberedFontSize), minFontSize, hasVisualOverflow)
      ensures rememberedFontSize == (if r.Ok? then r.value else old(rememberedFontSize))
    {
      if hasVisualOverflow {
        var c := Compare(rememberedFontSize, minFontSize);
        if c.Err? {
          return Err(c.error);
        }
        if c.value > 0 {
          rememberedFontSize := if rememberedFontSize.Em? then Em(rememberedFontSize.value - Decrement)
                                else Sp(rememberedFontSize.value - Decrement);
        }
      }
      r := Ok(rememberedFontSize);
    }
  }
}
