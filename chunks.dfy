/**
 * chunk.c: a chunk of bytecode, a growable byte buffer with a pool of
 * constants.
 */
module Chunks {
  import opened Memory
  import opened Values
  import opened Wrappers

  newtype Byte = b: int | 0 <= b < 256

  /**
   * The instructions the compiler emits. chunk.h lists only the first two;
   * the others are the ones compiler.c writes, numbered after them.
   */
  datatype OpCode =
    | OpConstant | OpReturn
    | OpNil | OpTrue | OpFalse
    | OpEqual | OpGreater | OpLess
    | OpAdd | OpSubtract | OpMultiply | OpDivide
    | OpNot | OpNegate

  /** The byte an opcode is written as. */
  function Encode(op: OpCode): Byte {
    match op
    case OpConstant => 0
    case OpReturn => 1
    case OpNil => 2
    case OpTrue => 3
    case OpFalse => 4
    case OpEqual => 5
    case OpGreater => 6
    case OpLess => 7
    case OpAdd => 8
    case OpSubtract => 9
    case OpMultiply => 10
    case OpDivide => 11
    case OpNot => 12
    case OpNegate => 13
  }

  /** The opcode a byte stands for, if any: the inverse of `Encode`. */
  function Decode(b: Byte): (op: Option<OpCode>)
    ensures op.Some? ==> Encode(op.value) == b
  {
    match b
    case 0 => Some(OpConstant)
    case 1 => Some(OpReturn)
    case 2 => Some(OpNil)
    case 3 => Some(OpTrue)
    case 4 => Some(OpFalse)
    case 5 => Some(OpEqual)
    case 6 => Some(OpGreater)
    case 7 => Some(OpLess)
    case 8 => Some(OpAdd)
    case 9 => Some(OpSubtract)
    case 10 => Some(OpMultiply)
    case 11 => Some(OpDivide)
    case 12 => Some(OpNot)
    case 13 => Some(OpNegate)
    case _ => None
  }

  lemma DecodeEncode(op: OpCode)
    ensures Decode(Encode(op)) == Some(op)
  {
  }

  /** `Chunk`: `code[..count]` is the bytecode written so far; `constants` is its pool. */
  class Chunk {
    var count: nat
    var capacity: nat
    var code: array<Byte>
    const constants: ValueArray

    ghost predicate Valid()
      reads this, constants
    {
      code.Length == capacity && count <= capacity && constants.Valid()
    }

    function Code(): seq<Byte>
      reads this, code
      requires code.Length == capacity && count <= capacity
    {
      code[..count]
    }

    function Constants(): seq<Value>
      reads constants, constants.values
      requires constants.Valid()
    {
      constants.Contents()
    }

    /** A chunk as `initChunk` leaves it. */
    constructor ()
      ensures Valid() && fresh(constants)
      ensures capacity == 0 && Code() == [] && Constants() == []
    {
      count := 0;
      capacity := 0;
      code := new Byte[0];
      constants := new ValueArray();
    }

    /** `initChunk`: no code, no buffer, an empty constant pool. */
    method Init()
      modifies this, constants
      ensures Valid() && capacity == 0 && Code() == [] && Constants() == []
    {
      count := 0;
      capacity := 0;
      code := new Byte[0];
      constants.Init();
    }

    /**
     * `writeChunk`: append one byte, first growing the buffer to
     * `GrowCapacity` when it is full. Earlier bytes and the pool are kept.
     */
    method Write(byte: Byte)
      requires Valid()
      modifies this, code
      ensures Valid() && Code() == old(Code()) + [byte] && Constants() == old(Constants())
      ensures old(capacity) < old(count) + 1 ==> capacity == GrowCapacity(old(capacity)) && fresh(code)
      ensures old(capacity) >= old(count) + 1 ==> capacity == old(capacity) && code == old(code)
    {
      if capacity < count + 1 {
        var oldCapacity := capacity;
        capacity := GrowCapacity(oldCapacity);
        code := GrowArray(code, capacity, 0);
      }
      code[count] := byte;
      count := count + 1;
    }

    /**
     * `freeChunk`: release the code buffer, reinitialise the chunk (which
     * also empties the pool), then free the pool. The chunk ends empty.
     */
    method Free()
      modifies this, constants
      ensures Valid() && capacity == 0 && Code() == [] && Constants() == []
    {
      Init();
      constants.Free();
    }

    /** `addConstant`: append to the pool and return the new constant's index. */
    method AddConstant(value: Value) returns (index: nat)
      requires Valid()
      modifies constants, constants.values
      ensures Valid() && Code() == old(Code())
      ensures Constants() == old(Constants()) + [value]
      ensures index == |old(Constants())| && Constants()[index] == value
      ensures constants.values == old(constants.values) || fresh(constants.values)
    {
      constants.Write(value);
      index := constants.count - 1;
    }
  }
}
