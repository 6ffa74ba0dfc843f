/** The `Quantity` value object of an order line item: a validated Java `long`
    that refuses negatives and compares by value. */
module Quantities {
  import opened Wrappers

  const LONG_MIN: int := -0x8000_0000_0000_0000
  const LONG_MAX: int := 0x7FFF_FFFF_FFFF_FFFF
  const INT_MIN: int := -0x8000_0000
  const INT_MAX: int := 0x7FFF_FFFF

  /** Java's `long`. */
  type Long = x: int | LONG_MIN <= x <= LONG_MAX
  /** Java's `int`. */
  type Int = x: int | INT_MIN <= x <= INT_MAX

  /** Smallest quantity accepted; the check against it is strict. */
  const MIN_QUANTITY: int := 0

  datatype QuantityError = NegativeQuantity

  /** An immutable quantity. Its only field is fixed when the value is built and there is
      no way to change it afterwards; `value` is the source's `getValue()`. */
  datatype Quantity = Quantity(value: Long) {
    /** The class invariant every quantity built through `From` satisfies. */
    predicate Valid() { MIN_QUANTITY <= value }
  }

  /** The quantities callers can obtain: the Java constructor is private, so every
      quantity comes from `From` and satisfies the invariant. */
  type ValidQuantity = q: Quantity | q.Valid() witness Quantity(0)

  /** The static factory: validates, then builds. Negative input is refused; zero and
      every positive `long` are accepted, and the value reads back unchanged. */
  function From(quantity: Long): (r: Result<ValidQuantity, QuantityError>)
    ensures r.Failure? <==> quantity < 0
    ensures r.Failure? ==> r.error == NegativeQuantity
    ensures r.Success? ==> r.value.Valid() && r.value.value == quantity
  {
    if quantity < MIN_QUANTITY then Failure(NegativeQuantity) else Success(Quantity(quantity))
  }

  /** Value equality: two quantities are `equals` exactly when they are the same value. */
  function Equals(a: Quantity, b: Quantity): (r: bool)
    ensures r <==> a == b
  {
    a.value == b.value
  }

  /** `Objects.hash(quantity)`: 31 plus `Long.hashCode`, i.e. `(int)(v ^ (v >>> 32))`,
      all in 32-bit wrap-around arithmetic. It depends on the value only, so equal
      quantities hash alike; a small non-negative quantity hashes to itself plus 31. */
  function HashCode(q: Quantity): (h: Int)
    ensures 0 <= q.value <= INT_MAX - 31 ==> h == q.value + 31
  {
    var unsigned: nat := if q.value < 0 then q.value + 0x1_0000_0000_0000_0000 else q.value;
    var high := unsigned / 0x1_0000_0000;
    var low := unsigned % 0x1_0000_0000;
    Signed((Xor(low, high) + 31) % 0x1_0000_0000)
  }

  /** Bitwise exclusive or of two naturals. */
  function Xor(a: nat, b: nat): nat
    decreases a + b
  {
    if a == 0 then b
    else if b == 0 then a
    else 2 * Xor(a / 2, b / 2) + (if a % 2 == b % 2 then 0 else 1)
  }

  /** The `(int)` cast of an unsigned 32-bit word: two's complement. */
  function Signed(w: nat): Int
    requires w < 0x1_0000_0000
  {
    if w > INT_MAX then w - 0x1_0000_0000 else w
  }

  /** Equal quantities have equal hash codes: the `equals`/`hashCode` contract. */
  lemma EqualsHashCode(a: Quantity, b: Quantity)
    requires Equals(a, b)
    ensures HashCode(a) == HashCode(b)
  {
  }
}
