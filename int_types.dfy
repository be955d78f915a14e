/**
 The builtin integer types the overflow routines are instantiated with, each
 described only by its representable range [min, max], as
 std::numeric_limits<T> supplies it.
 */
module IntTypes {

  /** The representable range of an integer type T: numeric_limits<T>::min() and max(). */
  datatype IntRange = IntRange(min: int, max: int) {

    /** Every integer type the routines accept holds zero and at least one positive value. */
    predicate Valid() {
      min <= 0 < max
    }

    /** x is a value of type T. */
    predicate Contains(x: int) {
      min <= x <= max
    }
  }

  /** Fixed-width integer kinds; `char`, `short`, `int`, `long`, `long long` and their
      unsigned forms are each one of these on a given platform. */
  datatype IntKind = Int8 | Int16 | Int32 | Int64 | UInt8 | UInt16 | UInt32 | UInt64 {

    predicate IsSigned() {
      this in {Int8, Int16, Int32, Int64}
    }
  }

  /** Two's-complement range of a signed kind, [0, 2^n - 1] for an unsigned one. */
  function RangeOf(k: IntKind): (r: IntRange)
    ensures r.Valid()
    ensures k.IsSigned() ==> r.min == -(r.max + 1)
    ensures !k.IsSigned() ==> r.min == 0
    ensures 127 <= r.max
  {
    match k
    case Int8 => IntRange(-0x80, 0x7F)
    case Int16 => IntRange(-0x8000, 0x7FFF)
    case Int32 => IntRange(-0x8000_0000, 0x7FFF_FFFF)
    case Int64 => IntRange(-0x8000_0000_0000_0000, 0x7FFF_FFFF_FFFF_FFFF)
    case UInt8 => IntRange(0, 0xFF)
    case UInt16 => IntRange(0, 0xFFFF)
    case UInt32 => IntRange(0, 0xFFFF_FFFF)
    case UInt64 => IntRange(0, 0xFFFF_FFFF_FFFF_FFFF)
  }

  /** `a + b` evaluated in T. Defined only when the exact sum is a value of T: signed
      overflow is undefined, and a wrapped unsigned sum is what the routines exist to avoid. */
  function Plus(t: IntRange, a: int, b: int): (s: int)
    requires t.Contains(a) && t.Contains(b) && t.Contains(a + b)
    ensures t.Contains(s)
  {
    a + b
  }

  /** `a - b` evaluated in T, under the same condition as Plus. */
  function Minus(t: IntRange, a: int, b: int): (d: int)
    requires t.Contains(a) && t.Contains(b) && t.Contains(a - b)
    ensures t.Contains(d)
  {
    a - b
  }
}
