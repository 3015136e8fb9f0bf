/**
 * The heap objects of object.h. Every object carries the header fields
 * `type` and `isMarked`; the `next` link of the header is kept by the
 * `Objects.Vm` list instead (see object.c). Objects are referenced, and
 * compared, by identity.
 */
module ObjectTypes {
  import opened Values
  import opened Chunks

  /** `ObjType`: object.h lists strings, natives and functions; object.c also allocates closures. */
  datatype ObjType = ObjStringType | ObjNativeType | ObjFunctionType | ObjClosureType

  /** `ObjString`: the bytes of the string (without the C terminator) and their hash. */
  class ObjString {
    const chars: seq<bv8>
    const hash: bv32
    var isMarked: bool

    function Type(): ObjType {
      ObjStringType
    }

    function Length(): nat {
      |chars|
    }

    constructor (chars: seq<bv8>, hash: bv32)
      ensures this.chars == chars && this.hash == hash && !isMarked
    {
      this.chars := chars;
      this.hash := hash;
      isMarked := false;
    }
  }

  /** `ObjFunction`: arity, the compiled body and the name (`null` for the top-level script). */
  class ObjFunction {
    var arity: int
    var upvalueCount: int
    var name: ObjString?
    const chunk: Chunk
    var isMarked: bool

    function Type(): ObjType {
      ObjFunctionType
    }

    /** The fields as `newFunction` sets them: no parameters, no name, an empty chunk. */
    constructor ()
      ensures arity == 0 && upvalueCount == 0 && name == null && !isMarked
      ensures fresh(chunk) && chunk.Valid() && chunk.Code() == [] && chunk.Constants() == []
    {
      arity := 0;
      upvalueCount := 0;
      name := null;
      chunk := new Chunk();
      isMarked := false;
    }
  }

  /** `NativeFn`: a function of the host, from the argument values to the result. */
  type NativeFn = seq<Value> -> Value

  /** `ObjNative`: a host function wrapped as an object. */
  class ObjNative {
    const native: NativeFn
    var isMarked: bool

    function Type(): ObjType {
      ObjNativeType
    }

    constructor (native: NativeFn)
      ensures this.native == native && !isMarked
    {
      this.native := native;
      isMarked := false;
    }
  }
}
