/** The fragment of JavaScript's number semantics that `offsetMetadata`
    touches: the remainder operator `%`, addition of an array index, and
    reading an array at a computed index. Only integral numbers and NaN are
    modelled; fractions, infinities and precision limits are not. */
module JsNumber {
  import opened Wrappers
  import opened Arithmetic

  /** A JavaScript number restricted to the integers and NaN. */
  datatype Number = Int(value: int) | NaN

  /** `a % n` for a non-negative divisor `n` (an array length). JavaScript's
      `%` truncates: the result takes the sign of the dividend, unlike
      Dafny's Euclidean `%`. A zero divisor gives NaN. The ensures clauses
      characterise the result completely (see RemainderUnique). */
  function Remainder(a: int, n: nat): (r: Number)
    ensures r.NaN? <==> n == 0
    ensures r.Int? ==> Abs(r.value) < n
    ensures r.Int? && a > 0 ==> r.value >= 0
    ensures r.Int? && a < 0 ==> r.value <= 0
    ensures r.Int? ==> (a - r.value) % n == 0
  {
    if n == 0 then NaN
    else if a >= 0 then
      DropRemainder(a, n);
      Int(a % n)
    else
      NegRemainder(a, n);
      Int(-((-a) % n))
  }

  /** The ensures clauses of Remainder single out its result: any `r` with
      the same bound, sign and congruence is that result. */
  lemma RemainderUnique(a: int, n: nat, r: int)
    requires n > 0 && Abs(r) < n
    requires a > 0 ==> r >= 0
    requires a < 0 ==> r <= 0
    requires (a - r) % n == 0
    ensures Remainder(a, n) == Int(r)
  {
    var r0 := Remainder(a, n).value;
    SameResidue(n, a - r, a - r0);
  }

  /** The usual repair `((a % n) + n) % n`, written with JavaScript's `%`
      throughout, yields Dafny's Euclidean `a % n`: the non-negative
      modulus. */
  lemma NormalisedRemainder(a: int, n: nat)
    requires n > 0
    ensures Remainder(Remainder(a, n).value + n, n) == Int(a % n)
  {
    var t := Remainder(a, n).value;
    var q := (a - t) / n;
    ModUnique(a - t, n, q, 0);
    var u := Remainder(t + n, n).value;
    var p := (t + n - u) / n;
    ModUnique(t + n - u, n, p, 0);
    // a == n * (q - 1 + p) + u with 0 <= u < n
    assert a == n * q + n * p - n + u;
    assert n * q + n * p - n == n * (q + p - 1);
    ModUnique(a, n, q + p - 1, u);
  }

  /** `index + offset` for an array index and a number. */
  function Plus(index: int, x: Number): Number
  {
    match x
    case Int(v) => Int(index + v)
    case NaN => NaN
  }

  /** `a[x]`: an array read at a computed number. JavaScript gives
      `undefined` for NaN and for any index outside `[0, |a|)`. */
  function Read<T>(a: seq<T>, x: Number): Option<T>
  {
    if x.Int? && 0 <= x.value < |a| then Some(a[x.value]) else None
  }
}
