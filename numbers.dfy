/** Coordinate values as the OCR collaborator hands them over, and
    Python's int() conversion on them. */
module Numbers {

  /** A Python number held in a coordinate slot: an int, or a float
      (modelled as an exact real; rounding and NaN are not modelled). */
  datatype Num = Int(i: int) | Float(f: real)

  /** int(x) for a float x: truncation toward zero. The two ensures
      clauses pin the result down uniquely (see TruncIsUnique). */
  function Trunc(x: real): (n: int)
    ensures 0.0 <= x ==> 0 <= n && n as real <= x < n as real + 1.0
    ensures x < 0.0 ==> n <= 0 && n as real - 1.0 < x <= n as real
  {
    if x >= 0.0 then x.Floor else -((-x).Floor)
  }

  /** Any integer with the truncation property is Trunc(x). */
  lemma TruncIsUnique(x: real, n: int)
    requires 0.0 <= x ==> n as real <= x < n as real + 1.0
    requires x < 0.0 ==> n as real - 1.0 < x <= n as real
    ensures n == Trunc(x)
  {
  }

  /** Truncation differs from Dafny's floor on negative non-integers. */
  lemma TruncIsNotFloor()
    ensures Trunc(-2.5) == -2 && (-2.5).Floor == -3
  {
  }

  /** Python's int(v): an int is returned as it is, a float is truncated. */
  function ToInt(v: Num): (r: Num)
    ensures r.Int?
    ensures v.Int? ==> r == v
  {
    match v
    case Int(_) => v
    case Float(f) => Int(Trunc(f))
  }

  /** int(int(v)) == int(v): converting a value twice changes nothing. */
  lemma ToIntIdempotent(v: Num)
    ensures ToInt(ToInt(v)) == ToInt(v)
  {
  }
}
