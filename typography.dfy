/** What the three auto-size strategies share: font sizes and text styles
    (Compose's `TextUnit`, a magnitude in sp or em or no size at all, and the
    arithmetic Compose allows on it), the effective start size that every
    strategy computes before it searches, the text measurer's answers, and
    the outcome of a search run together with its errors. */
module Typography {

  datatype Option<T> = None | Some(value: T)

  datatype UnitType = SpType | EmType | UnspecifiedType

  /** `TextUnit`: scaled pixels, font-relative ems, or `TextUnit.Unspecified`. */
  datatype TextUnit = Sp(value: real) | Em(value: real) | Unspecified
  {
    function Type(): UnitType {
      match this
      case Sp(_) => SpType
      case Em(_) => EmType
      case Unspecified => UnspecifiedType
    }

    predicate IsSpecified() {
      !Unspecified?
    }
  }

  /** The part of `TextStyle` the search touches (`fontSize`) and a few of the
      attributes it carries along unchanged. */
  datatype TextStyle = TextStyle(fontSize: TextUnit, fontWeight: int, letterSpacing: TextUnit, lineHeight: TextUnit)

  datatype Error =
    | IncompatibleUnits       // the `require` on the start size and `minFontSize`
    | UnspecifiedArithmetic   // Compose refuses to compare or interpolate `TextUnit.Unspecified`
    | MixedArithmetic         // ... and to mix sp with em
    | OutOfFuel               // the model's bound on a loop that exact sizes never end

  datatype Result<T> = Ok(value: T) | Err(error: Error)

  /** What a search block leaves behind: the state it ends in, every font
      size the text measurer was asked about, in order, and the style the
      block returns (or the error it raises). */
  datatype Run<S> = Run(state: S, measured: seq<TextUnit>, outcome: Result<TextStyle>)

  /** Smaller text overflows no more than larger text of the same unit. The
      strategies do not check this of the measurer; lemmas that need it say so. */
  ghost predicate Monotone(overflows: TextUnit -> bool) {
    forall a, b :: Comparable(a, b) && a.value <= b.value && overflows(a) ==> overflows(b)
  }

  /** Compose performs arithmetic on two `TextUnit`s only when both are
      specified and of the same type. */
  predicate Comparable(a: TextUnit, b: TextUnit) {
    a.IsSpecified() && b.IsSpecified() && a.Type() == b.Type()
  }

  /** The error Compose raises for two units that are not comparable. */
  function ArithmeticError(a: TextUnit, b: TextUnit): Error {
    if a.IsSpecified() && b.IsSpecified() then MixedArithmetic else UnspecifiedArithmetic
  }

  /** A unit of the same type as `u` holding `v`. */
  function WithValue(u: TextUnit, v: real): TextUnit {
    match u
    case Sp(_) => Sp(v)
    case Em(_) => Em(v)
    case Unspecified => Unspecified
  }

  /** `TextUnit.compareTo`: the sign of `a - b`, behind Compose's arithmetic check.
      `a > b` is `Compare(a, b) > 0`, `a >= b` is `Compare(a, b) >= 0`. */
  function Compare(a: TextUnit, b: TextUnit): (r: Result<int>)
    ensures r.Ok? <==> Comparable(a, b)
    ensures r.Err? ==> r.error == ArithmeticError(a, b)
    ensures r.Ok? ==> (r.value > 0 <==> a.value > b.value)
    ensures r.Ok? ==> (r.value == 0 <==> a.value == b.value)
    ensures r.Ok? ==> (r.value < 0 <==> a.value < b.value)
  {
    if !Comparable(a, b) then Err(ArithmeticError(a, b))
    else if a.value < b.value then Ok(-1)
    else if a.value == b.value then Ok(0)
    else Ok(1)
  }

  /** `lerp(start, stop, fraction)` on `TextUnit`: `(1 - fraction) * start + fraction * stop`,
      in the unit of `start`. */
  function Lerp(start: TextUnit, stop: TextUnit, fraction: real): (r: Result<TextUnit>)
    ensures r.Ok? <==> Comparable(start, stop)
    ensures r.Err? ==> r.error == ArithmeticError(start, stop)
    ensures r.Ok? ==> r.value.Type() == start.Type()
  {
    if !Comparable(start, stop) then Err(ArithmeticError(start, stop))
    else Ok(WithValue(start, (1.0 - fraction) * start.value + fraction * stop.value))
  }

  /** `lerp` moves `fraction` of the way from `start` to `stop`: fraction 0 is
      `start`, fraction 1 is `stop`, and fractions above 1 overshoot `stop`. */
  lemma LerpValue(start: TextUnit, stop: TextUnit, fraction: real)
    requires Comparable(start, stop)
    ensures Lerp(start, stop, fraction).value.value - start.value == fraction * (stop.value - start.value)
    ensures fraction == 0.0 ==> Lerp(start, stop, fraction).value == start
    ensures fraction == 1.0 ==> Lerp(start, stop, fraction).value == stop
  {
  }

  /** The prologue of all three strategies: the start size is the explicit
      `fontSize` when it is specified and `style.fontSize` otherwise, and it
      must have the same unit type as `minFontSize`. */
  function StartSize(fontSize: TextUnit, styleFontSize: TextUnit, minFontSize: TextUnit): (r: Result<TextUnit>)
    ensures r.Err? ==> r.error == IncompatibleUnits
    ensures r.Ok? ==> r.value.Type() == minFontSize.Type()
    ensures fontSize.IsSpecified() ==> (r.Ok? <==> fontSize.Type() == minFontSize.Type())
    ensures fontSize.IsSpecified() && r.Ok? ==> r.value == fontSize
    ensures !fontSize.IsSpecified() ==> (r.Ok? <==> styleFontSize.Type() == minFontSize.Type())
    ensures !fontSize.IsSpecified() && r.Ok? ==> r.value == styleFontSize
  {
    var actual := if fontSize.IsSpecified() then fontSize else styleFontSize;
    if actual.Type() == minFontSize.Type() then Ok(actual) else Err(IncompatibleUnits)
  }
}
