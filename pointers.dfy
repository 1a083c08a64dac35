/**
 * Optional-value helpers (pointer.go).
 *
 * A Go pointer `*T` is modelled as `Option<T>`: `nil` is `None` and a
 * pointer to a value `v` is `Some(v)`. Go's zero value of `T` (`var zero T`)
 * has no counterpart in a generic Dafny type, so every helper that consults
 * it receives it as the parameter `zero`.
 */
module Pointers {

  /** A nil-able reference to a value of type T. */
  datatype Option<T> = None | Some(value: T)

  /** PointerOf: the address of a copy of `value`, never nil. */
  function PointerOf<T>(value: T): (p: Option<T>)
    ensures p != None
    ensures p.value == value
  {
    Some(value)
  }

  /** SafeValue: the referenced value, or the zero value for nil. */
  function SafeValue<T>(p: Option<T>, zero: T): (v: T)
    ensures p == None ==> v == zero
    ensures p != None ==> v == p.value
  {
    match p
    case None => zero
    case Some(x) => x
  }

  /** ValueOf: the referenced value, or `fallback` for nil. */
  function ValueOf<T>(p: Option<T>, fallback: T): (v: T)
    ensures p == None ==> v == fallback
    ensures p != None ==> v == p.value
  {
    match p
    case None => fallback
    case Some(x) => x
  }

  /** IsEmpty: nil, or a reference to the zero value, i.e. SafeValue reads zero. */
  predicate IsEmpty<T(==)>(p: Option<T>, zero: T)
    ensures IsEmpty(p, zero) <==> SafeValue(p, zero) == zero
  {
    p == None || p.value == zero
  }

  /** Alter: the referenced value unless it is nil or zero, then `fallback`. */
  function Alter<T(==)>(p: Option<T>, fallback: T, zero: T): (v: T)
    ensures IsEmpty(p, zero) ==> v == fallback
    ensures !IsEmpty(p, zero) ==> v == p.value
  {
    if p == None || p.value == zero then fallback else p.value
  }

  /** NullableOf: nil when the reference is nil or zero, else the same reference. */
  function NullableOf<T(==)>(p: Option<T>, zero: T): (q: Option<T>)
    ensures q == None <==> IsEmpty(p, zero)
    ensures q != None ==> q == p
  {
    if p == None || p.value == zero then None else p
  }

  /** IsSame: compares the referenced values, not the references. */
  predicate IsSame<T(==)>(a: Option<T>, b: Option<T>)
    ensures IsSame(a, b) <==> a == b
  {
    if a == None && b == None then true
    else if a == None || b == None then false
    else a.value == b.value
  }

  /** Reading back a freshly taken pointer yields the original value. */
  lemma SafeValueOfPointer<T>(x: T, zero: T)
    ensures SafeValue(PointerOf(x), zero) == x
    ensures ValueOf(PointerOf(x), zero) == x
  {
  }

  /** IsEmpty classifies exactly: nil and zero are empty, any other value is not. */
  lemma IsEmptyCases<T>(p: Option<T>, zero: T)
    ensures IsEmpty(None, zero)
    ensures IsEmpty(Some(zero), zero)
    ensures p != None && p.value != zero ==> !IsEmpty(p, zero)
  {
  }

  /** Alter is ValueOf applied after NullableOf has turned a zero into nil. */
  lemma AlterIsValueOfNullable<T>(p: Option<T>, fallback: T, zero: T)
    ensures Alter(p, fallback, zero) == ValueOf(NullableOf(p, zero), fallback)
  {
  }

  /** NullableOf is idempotent, and what it returns is never empty. */
  lemma NullableOfIdempotent<T>(p: Option<T>, zero: T)
    ensures NullableOf(NullableOf(p, zero), zero) == NullableOf(p, zero)
    ensures NullableOf(p, zero) != None ==> !IsEmpty(NullableOf(p, zero), zero)
  {
  }

  /**
   * Value comparison: two references are the same exactly when both are nil
   * or both refer to equal values, i.e. IsSame is equality of the optional
   * values; it is therefore reflexive, symmetric and transitive.
   */
  lemma IsSameIsValueEquality<T>(a: Option<T>, b: Option<T>, c: Option<T>)
    ensures IsSame(a, b) <==> a == b
    ensures IsSame(a, a)
    ensures IsSame(a, b) == IsSame(b, a)
    ensures IsSame(a, b) && IsSame(b, c) ==> IsSame(a, c)
    ensures a == None && b != None ==> !IsSame(a, b)
  {
  }
}
