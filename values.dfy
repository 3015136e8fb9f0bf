/**
 * value.c: the tagged value of the language and the growable array of
 * values a chunk keeps its constants in.
 */
module Values {
  import opened Memory

  /** An IEEE 754 binary64 number, by its bit pattern. */
  type Double = bv64

  const ExponentMask: Double := 0x7FF0_0000_0000_0000
  const FractionMask: Double := 0x000F_FFFF_FFFF_FFFF
  const SignMask: Double := 0x8000_0000_0000_0000

  predicate IsNaN(x: Double) {
    x & ExponentMask == ExponentMask && x & FractionMask != 0
  }

  /** +0.0 or -0.0. */
  predicate IsZero(x: Double) {
    x & !SignMask == 0
  }

  /** C's `==` on two doubles: NaN equals nothing, and the two zeros are equal. */
  predicate DoubleEq(a: Double, b: Double) {
    !IsNaN(a) && !IsNaN(b) && (a == b || (IsZero(a) && IsZero(b)))
  }

  /** The tag of a value (`ValueType`). */
  datatype ValueType = ValBool | ValNil | ValNumber | ValObj

  /**
   * A value: nil, a boolean, a double, or a reference to a heap object.
   * Objects are compared by identity, as the C pointers are.
   */
  datatype Value = Nil | Bool(boolean: bool) | Number(number: Double) | Obj(obj: object)
  {
    function Type(): ValueType {
      match this
      case Nil => ValNil
      case Bool(_) => ValBool
      case Number(_) => ValNumber
      case Obj(_) => ValObj
    }
  }

  /**
   * `valuesEqual`: values of different types are never equal; numbers
   * compare as doubles; every other pair compares structurally (objects by
   * identity).
   */
  function ValuesEqual(a: Value, b: Value): (eq: bool)
    ensures eq ==> a.Type() == b.Type()
    ensures a.Number? && b.Number? ==> (eq <==> DoubleEq(a.number, b.number))
    ensures !a.Number? ==> (eq <==> a == b)
  {
    if a.Type() != b.Type() then false
    else
      match a.Type()
      case ValBool => a.boolean == b.boolean
      case ValNil => true
      case ValNumber => DoubleEq(a.number, b.number)
      case ValObj => a.obj == b.obj
  }

  lemma ValuesEqualSymmetric(a: Value, b: Value)
    ensures ValuesEqual(a, b) == ValuesEqual(b, a)
  {
  }

  /** Every value equals itself except a NaN. */
  lemma ValuesEqualReflexive(a: Value)
    ensures ValuesEqual(a, a) <==> !(a.Number? && IsNaN(a.number))
  {
  }

  /** The two zeros are equal but distinct values. */
  lemma ZerosEqual()
    ensures ValuesEqual(Number(0), Number(SignMask)) && Number(0) != Number(SignMask)
  {
  }

  /** `ValueArray`: `values[..count]` holds the contents; `capacity` slots are allocated. */
  class ValueArray {
    var capacity: nat
    var count: nat
    var values: array<Value>

    ghost predicate Valid()
      reads this
    {
      values.Length == capacity && count <= capacity
    }

    function Contents(): seq<Value>
      reads this, values
      requires Valid()
    {
      values[..count]
    }

    /** A value array as `initValueArray` leaves it. */
    constructor ()
      ensures Valid() && capacity == 0 && count == 0 && Contents() == []
    {
      capacity := 0;
      count := 0;
      values := new Value[0];
    }

    /** `initValueArray`: no buffer, no contents. */
    method Init()
      modifies this
      ensures Valid() && capacity == 0 && count == 0 && Contents() == []
    {
      values := new Value[0];
      capacity := 0;
      count := 0;
    }

    /**
     * `writeValueArray`: append `value`, first growing the buffer to
     * `GrowCapacity` when it is full. Earlier values are kept.
     */
    method Write(value: Value)
      requires Valid()
      modifies this, values
      ensures Valid() && Contents() == old(Contents()) + [value]
      ensures count == old(count) + 1
      ensures old(capacity) < old(count) + 1 ==> capacity == GrowCapacity(old(capacity)) && fresh(values)
      ensures old(capacity) >= old(count) + 1 ==> capacity == old(capacity) && values == old(values)
    {
      if capacity < count + 1 {
        var oldCapacity := capacity;
        capacity := GrowCapacity(oldCapacity);
        values := GrowArray(values, capacity, Nil);
      }
      values[count] := value;
      count := count + 1;
    }

    /** `freeValueArray`: release the buffer and return to the initial state. */
    method Free()
      modifies this
      ensures Valid() && capacity == 0 && count == 0 && Contents() == []
    {
      Init();
    }
  }
}
