/** The JavaScript number arithmetic behind the progress bars: division of two
    integer counters, scaling by 100 and `Math.min`, with the special values
    `Infinity`, `-Infinity` and `NaN` kept apart.  Finite values are exact
    reals; binary floating-point rounding is not modelled. */
module JsNumber {

  datatype Num = Finite(value: real) | PosInf | NegInf | NaN

  /** `a / b` for two integers: a finite quotient unless `b` is zero, where
      `x / 0` is `Infinity` or `-Infinity` by the sign of `x` and `0 / 0` is `NaN`. */
  function Divide(a: int, b: int): Num {
    if b != 0 then Finite(a as real / b as real)
    else if a > 0 then PosInf
    else if a < 0 then NegInf
    else NaN
  }

  /** `x * k` for a positive finite constant `k`. */
  function Scale(x: Num, k: real): Num
    requires k > 0.0
  {
    match x
    case Finite(v) => Finite(v * k)
    case _ => x
  }

  /** `Math.min(x, y)`: `NaN` if either argument is `NaN`, the smaller one otherwise. */
  function Min(x: Num, y: Num): Num {
    if x.NaN? || y.NaN? then NaN
    else if x.NegInf? || y.PosInf? then x
    else if y.NegInf? || x.PosInf? then y
    else if x.value <= y.value then x
    else y
  }

  /** `Math.min((total / required) * 100, 100)`, the width of a progress bar. */
  function CappedPercent(total: int, required: int): (w: Num)
    ensures w != PosInf
    ensures w.Finite? ==> w.value <= 100.0
    ensures required > 0 && total >= required ==> w == Finite(100.0)
    ensures required > 0 && total <= required ==>
              w == Finite(total as real / required as real * 100.0)
    ensures required == 0 ==>
              (total > 0 ==> w == Finite(100.0)) && (total == 0 ==> w == NaN) && (total < 0 ==> w == NegInf)
  {
    Min(Scale(Divide(total, required), 100.0), Finite(100.0))
  }

  /** The bar is never negative for non-negative counters and a positive threshold. */
  lemma CappedPercentInRange(total: int, required: int)
    requires total >= 0 && required > 0
    ensures CappedPercent(total, required).Finite?
    ensures 0.0 <= CappedPercent(total, required).value <= 100.0
  {
    if total <= required {
      assert total as real / required as real >= 0.0;
    }
  }
}
