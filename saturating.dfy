/**
 * The saturating `valueAdd`, `valueSub` and `valueMul` of the engine, in the
 * overload for unsigned and the overload for signed `T`. Each one returns the
 * true result of the operation saturated to the range of `T`.
 */
module Saturating {
  import opened IntTypes

  /** For `n >= 0` and `d > 0`, truncating and Euclidean division agree, and `a` exceeds the quotient exactly when `a * d` exceeds `n`. */
  lemma ExceedsQuotient(a: int, n: int, d: int)
    requires n >= 0 && d > 0
    ensures a > n / d <==> a * d > n
  {
    var q, rem := n / d, n % d;
    assert n == q * d + rem && 0 <= rem < d;
    if a > q {
      assert a * d >= (q + 1) * d by { MulMonotone(q + 1, a, d); }
    } else {
      assert a * d <= q * d by { MulMonotone(a, q, d); }
    }
  }

  lemma MulMonotone(x: int, y: int, d: int)
    requires x <= y && d > 0
    ensures x * d <= y * d
  {
    assert y * d - x * d == (y - x) * d;
  }

  /** C++ integer division, which truncates toward zero. */
  function Quot(x: int, y: int): (r: int)
    requires y != 0
    ensures x >= 0 && y > 0 ==> r == x / y
    ensures x <= 0 && y > 0 ==> r == -((-x) / y)
    ensures x >= 0 && y < 0 ==> r == -(x / (-y))
  {
    var q := (if x < 0 then -x else x) / (if y < 0 then -y else y);
    if (x < 0) == (y < 0) then q else -q
  }

  // ---------------------------------------------------------------- unsigned T

  /** Unsigned `valueAdd`: the machine sum `a + b` wraps modulo 2^N and is then smaller than `a`. */
  function UnsignedAdd(k: Kind, a: int, b: int): (r: int)
    requires !k.Signed() && InRange(k, a) && InRange(k, b)
    ensures r == Clamp(k, a + b)
  {
    var sum := ToT(k, a + b);
    assert sum == if a + b < k.Modulus() then a + b else a + b - k.Modulus();
    if sum < a then k.Max() else sum
  }

  /** Unsigned `valueSub`. */
  function UnsignedSub(k: Kind, a: int, b: int): (r: int)
    requires !k.Signed() && InRange(k, a) && InRange(k, b)
    ensures r == Clamp(k, a - b)
  {
    if a < b then 0 else a - b
  }

  /** Unsigned `valueMul`. */
  function UnsignedMul(k: Kind, a: int, b: int): (r: int)
    requires !k.Signed() && InRange(k, a) && InRange(k, b)
    ensures r == Clamp(k, a * b)
    ensures a == 0 || b == 0 ==> r == 0
  {
    if a == 0 || b == 0 then 0
    else
      ExceedsQuotient(a, k.Max(), b);
      if a > Quot(k.Max(), b) then k.Max() else a * b
  }

  // ------------------------------------------------------------------ signed T

  /** Signed `valueAdd`; neither guard `max - b` nor `min - b` overflows `T`. */
  function SignedAdd(k: Kind, a: int, b: int): (r: int)
    requires k.Signed() && InRange(k, a) && InRange(k, b)
    ensures r == Clamp(k, a + b)
  {
    if b > 0 then
      assert InRange(k, k.Max() - b);
      if a > k.Max() - b then k.Max() else a + b
    else
      assert InRange(k, k.Min() - b);
      if a < k.Min() - b then k.Min() else a + b
  }

  /** Signed `valueSub`; neither guard `min + b` nor `max + b` overflows `T`. */
  function SignedSub(k: Kind, a: int, b: int): (r: int)
    requires k.Signed() && InRange(k, a) && InRange(k, b)
    ensures r == Clamp(k, a - b)
  {
    if b > 0 then
      assert InRange(k, k.Min() + b);
      if a < k.Min() + b then k.Min() else a - b
    else
      assert InRange(k, k.Max() + b);
      if a > k.Max() + b then k.Max() else a - b
  }

  /**
   * Signed `valueMul`. The four overflow guards divide a type bound by an
   * operand with C++ truncating division; none of those divisions is
   * `min / -1`, so none overflows.
   */
  function SignedMul(k: Kind, a: int, b: int): (r: int)
    requires k.Signed() && InRange(k, a) && InRange(k, b)
    ensures r == Clamp(k, a * b)
    ensures a == 0 || b == 0 ==> r == 0
  {
    if a == 0 || b == 0 then 0
    else if a > 0 then
      if b > 0 then
        SignedMulBothPositive(k, a, b);
        if a > Quot(k.Max(), b) then k.Max() else a * b
      else
        SignedMulMixed(k, a, b);
        if b < Quot(k.Min(), a) then k.Min() else a * b
    else
      if b > 0 then
        SignedMulMixed(k, b, a);
        if a < Quot(k.Min(), b) then k.Min() else a * b
      else
        SignedMulBothNegative(k, a, b);
        if a < Quot(k.Max(), b) then k.Max() else a * b
  }

  lemma SignedMulBothPositive(k: Kind, a: int, b: int)
    requires k.Signed() && InRange(k, a) && InRange(k, b) && a > 0 && b > 0
    ensures a > Quot(k.Max(), b) <==> a * b > k.Max()
    ensures a * b > k.Min()
  {
    ExceedsQuotient(a, k.Max(), b);
    assert a * b > 0 by { MulMonotone(1, a, b); }
  }

  /** `p > 0 > n`: the guard `n < min / p` holds exactly when `p * n` underflows. */
  lemma SignedMulMixed(k: Kind, p: int, n: int)
    requires k.Signed() && InRange(k, p) && InRange(k, n) && p > 0 && n < 0
    ensures n < Quot(k.Min(), p) <==> p * n < k.Min()
    ensures p * n == n * p && p * n < 0 < k.Max()
  {
    ExceedsQuotient(-n, -k.Min(), p);
    assert (-n) * p == -(p * n);
    assert p * n < 0 by { MulMonotone(1, -n, p); }
  }

  lemma SignedMulBothNegative(k: Kind, a: int, b: int)
    requires k.Signed() && InRange(k, a) && InRange(k, b) && a < 0 && b < 0
    ensures a < Quot(k.Max(), b) <==> a * b > k.Max()
    ensures a * b > 0 > k.Min()
  {
    ExceedsQuotient(-a, k.Max(), -b);
    assert (-a) * (-b) == a * b;
    assert a * b > 0 by { MulMonotone(1, -a, -b); }
  }

  // -------------------------------------------------------- overload selection

  /** `valueAdd(a, b)` for either signedness of `T`. */
  function ValueAdd(k: Kind, a: int, b: int): (r: int)
    requires InRange(k, a) && InRange(k, b)
    ensures r == Clamp(k, a + b)
  {
    if k.Signed() then SignedAdd(k, a, b) else UnsignedAdd(k, a, b)
  }

  /** `valueSub(a, b)` for either signedness of `T`. */
  function ValueSub(k: Kind, a: int, b: int): (r: int)
    requires InRange(k, a) && InRange(k, b)
    ensures r == Clamp(k, a - b)
  {
    if k.Signed() then SignedSub(k, a, b) else UnsignedSub(k, a, b)
  }

  /** `valueMul(a, b)` for either signedness of `T`. */
  function ValueMul(k: Kind, a: int, b: int): (r: int)
    requires InRange(k, a) && InRange(k, b)
    ensures r == Clamp(k, a * b)
    ensures a == 0 || b == 0 ==> r == 0
  {
    if k.Signed() then SignedMul(k, a, b) else UnsignedMul(k, a, b)
  }
}
