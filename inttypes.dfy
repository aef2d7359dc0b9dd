/** Option, for the engine's `std::optional` members and for partial parses. */
module Wrappers {
  datatype Option<+T> = None | Some(value: T)
}

/** The fixed-width integer types the engine is instantiated for. */
module IntTypes {

  /** `qint32`, `quint32`, `qint64` and `quint64`. */
  datatype Kind = Int32 | UInt32 | Int64 | UInt64 {

    predicate Signed() {
      Int32? || Int64?
    }

    /** 2^N for an N-bit type. */
    function Modulus(): int {
      if Int32? || UInt32? then 0x1_0000_0000 else 0x1_0000_0000_0000_0000
    }

    /** `std::numeric_limits<T>::min()` */
    function Min(): int {
      match this
      case Int32 => -0x8000_0000
      case UInt32 => 0
      case Int64 => -0x8000_0000_0000_0000
      case UInt64 => 0
    }

    /** `std::numeric_limits<T>::max()` */
    function Max(): int {
      match this
      case Int32 => 0x7fff_ffff
      case UInt32 => 0xffff_ffff
      case Int64 => 0x7fff_ffff_ffff_ffff
      case UInt64 => 0xffff_ffff_ffff_ffff
    }
  }

  /** The bounds of C++ `int`, the type of `steps`, of wheel deltas and of `QString::toInt`. */
  const IntMin: int := -0x8000_0000
  const IntMax: int := 0x7fff_ffff

  predicate IsInt(x: int) {
    IntMin <= x <= IntMax
  }

  predicate InRange(k: Kind, x: int) {
    k.Min() <= x <= k.Max()
  }

  /** The mathematical value `x` saturated to the range of `k`. */
  function Clamp(k: Kind, x: int): (r: int)
    ensures InRange(k, r)
  {
    if x < k.Min() then k.Min() else if x > k.Max() then k.Max() else x
  }

  /** `qBound(lo, x, hi)`, that is `qMax(lo, qMin(hi, x))`. */
  function QBound(lo: int, x: int, hi: int): (r: int)
    ensures lo <= hi ==> lo <= r <= hi
    ensures lo <= x <= hi ==> r == x
  {
    if lo > (if hi < x then hi else x) then lo else if hi < x then hi else x
  }

  /**
   * The C++ integral conversion of `x` to the type `k`: the unique value of `k`
   * congruent to `x` modulo 2^N.
   */
  function ToT(k: Kind, x: int): (r: int)
    ensures InRange(k, r)
    ensures InRange(k, x) ==> r == x
    ensures !k.Signed() ==> r == x % k.Modulus()
    ensures k.Signed() ==> r == (x - k.Min()) % k.Modulus() + k.Min()
  {
    if InRange(k, x) then x
    else
      match k
      case Int32 => (x + 0x8000_0000) % 0x1_0000_0000 - 0x8000_0000
      case UInt32 => x % 0x1_0000_0000
      case Int64 => (x + 0x8000_0000_0000_0000) % 0x1_0000_0000_0000_0000 - 0x8000_0000_0000_0000
      case UInt64 => x % 0x1_0000_0000_0000_0000
  }
}
