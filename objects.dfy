/**
 * object.c: allocating heap objects and interning strings.
 *
 * Every object the VM allocates is put at the head of its object list, and
 * every string is interned: `vm.strings` holds exactly one `ObjString` for
 * each distinct byte sequence, keyed by the string itself, so that strings
 * can be compared by reference. The hash stored in a string is 32-bit
 * FNV-1a of its bytes.
 */
module Objects {
  import opened Values
  import opened ObjectTypes
  import opened Tables

  // ---------------------------------------------------------------------------
  // FNV-1a, 32 bits

  const FnvOffsetBasis: bv32 := 2166136261
  const FnvPrime: bv32 := 16777619

  /** One step of FNV-1a: fold in a byte, then multiply (modulo 2^32). */
  function Mix(hash: bv32, b: bv8): bv32 {
    (hash ^ (b as bv32)) * FnvPrime
  }

  /** FNV-1a of a byte sequence, defined on its last byte. */
  function Fnv1a(s: seq<bv8>): bv32 {
    if |s| == 0 then FnvOffsetBasis else Mix(Fnv1a(s[..|s| - 1]), s[|s| - 1])
  }

  /** The same hash as a left-to-right fold from the state `hash`. */
  function FnvFold(hash: bv32, s: seq<bv8>): bv32
    decreases |s|
  {
    if |s| == 0 then hash else FnvFold(Mix(hash, s[0]), s[1..])
  }

  /** Appending a byte mixes it into the hash of the prefix. */
  lemma FnvSnoc(s: seq<bv8>, b: bv8)
    ensures Fnv1a(s + [b]) == Mix(Fnv1a(s), b)
  {
    assert (s + [b])[..|s|] == s;
  }

  /** Folding the rest of a string over the hash of its prefix gives the hash of the whole. */
  lemma {:induction false} FnvFoldFrom(p: seq<bv8>, s: seq<bv8>)
    ensures FnvFold(Fnv1a(p), s) == Fnv1a(p + s)
    decreases |s|
  {
    if |s| == 0 {
      assert p + s == p;
    } else {
      FnvSnoc(p, s[0]);
      FnvFoldFrom(p + [s[0]], s[1..]);
      assert p + [s[0]] + s[1..] == p + s;
    }
  }

  /** The left fold from the offset basis, as the C loop runs it, is FNV-1a. */
  lemma FnvFoldIsFnv1a(s: seq<bv8>)
    ensures FnvFold(FnvOffsetBasis, s) == Fnv1a(s)
  {
    FnvFoldFrom([], s);
    assert [] + s == s;
  }

  /** The empty string hashes to the offset basis; "a" hashes to the published test vector. */
  lemma FnvVectors()
    ensures Fnv1a([]) == 0x811c9dc5
    ensures Fnv1a([0x61]) == 0xe40c292c
  {
    assert [0x61 as bv8][..0] == [];
  }

  /** `hashString`: FNV-1a over the bytes, one byte per iteration. */
  method HashString(key: seq<bv8>) returns (hash: bv32)
    ensures hash == Fnv1a(key)
  {
    hash := FnvOffsetBasis;
    var i := 0;
    while i < |key|
      invariant i <= |key| && hash == Fnv1a(key[..i])
    {
      hash := Mix(hash, key[i]);
      FnvSnoc(key[..i], key[i]);
      assert key[..i + 1] == key[..i] + [key[i]];
      i := i + 1;
    }
    assert key[..i] == key;
  }

  // ---------------------------------------------------------------------------
  // The VM's object list and string table

  /**
   * The strings table of an interning VM: each key carries the hash of its
   * bytes, and no two keys have the same bytes.
   */
  ghost predicate Interned(strings: map<ObjString, Value>) {
    (forall k :: k in strings ==> k.hash == Fnv1a(k.chars)) &&
    (forall a, b :: a in strings && b in strings && a.chars == b.chars ==> a == b)
  }

  /** Whether some interned string has these bytes. */
  ghost predicate HasChars(strings: map<ObjString, Value>, chars: seq<bv8>) {
    exists k :: k in strings && k.chars == chars
  }

  /**
   * The parts of the global `vm` that object.c uses: `objects`, the list of
   * every allocated object with the newest first, and `strings`, the
   * interning table.
   */
  class Vm {
    var objects: seq<object>
    const strings: Table

    ghost predicate Valid()
      reads this, strings, strings.entries
    {
      strings.Valid() && Interned(strings.Map()) &&
      forall k :: k in strings.Map() ==> k in objects
    }

    /** A VM with no objects and an empty string table. */
    constructor ()
      ensures Valid() && objects == [] && strings.Map() == map[] && fresh(strings)
    {
      objects := [];
      strings := new Table();
    }

    /** `allocateObject`: link a newly allocated object in at the head of the list. */
    method AllocateObject(obj: object)
      requires Valid()
      modifies this
      ensures Valid() && objects == [obj] + old(objects) && strings.Map() == old(strings.Map())
    {
      objects := [obj] + objects;
    }

    /**
     * `allocateString`: a new string object with the given bytes and hash,
     * entered in the string table with a nil value. Callers allocate only
     * after a lookup found no string with these bytes.
     */
    method AllocateString(chars: seq<bv8>, hash: bv32) returns (s: ObjString)
      requires Valid() && hash == Fnv1a(chars) && !HasChars(strings.Map(), chars)
      modifies this, strings, strings.entries
      ensures Valid() && fresh(s) && s.chars == chars && s.hash == hash && !s.isMarked
      ensures objects == [s] + old(objects)
      ensures strings.Map() == old(strings.Map())[s := Nil]
    {
      s := new ObjString(chars, hash);
      AllocateObject(s);
      var isNew := strings.Set(s, Nil);
    }

    /**
     * `copyString`: the interned string with these bytes. It is the one
     * already in the table when there is one; otherwise a new string is
     * allocated and interned. Either way it is afterwards the only string in
     * the table with these bytes.
     */
    method CopyString(chars: seq<bv8>) returns (s: ObjString)
      requires Valid()
      modifies this, strings, strings.entries
      ensures Valid() && s.chars == chars && s.hash == Fnv1a(chars) && s in strings.Map()
      ensures forall k :: k in strings.Map() && k.chars == chars ==> k == s
      ensures HasChars(old(strings.Map()), chars) ==>
        s in old(strings.Map()) && objects == old(objects) && strings.Map() == old(strings.Map())
      ensures !HasChars(old(strings.Map()), chars) ==>
        fresh(s) && objects == [s] + old(objects) && strings.Map() == old(strings.Map())[s := Nil]
    {
      var hash := HashString(chars);
      var interned := strings.FindString(chars, hash);
      if interned != null {
        return interned;
      }
      s := AllocateString(chars, hash);
    }

    /**
     * `takeString`: like `copyString`, for bytes the caller has already
     * allocated: the first `length` bytes of `buffer`, which ends in the C
     * terminator. The new string takes those bytes over.
     */
    method TakeString(buffer: seq<bv8>, length: nat) returns (s: ObjString)
      requires Valid() && length < |buffer|
      modifies this, strings, strings.entries
      ensures Valid() && s.chars == buffer[..length] && s.hash == Fnv1a(buffer[..length]) && s in strings.Map()
      ensures forall k :: k in strings.Map() && k.chars == buffer[..length] ==> k == s
      ensures HasChars(old(strings.Map()), buffer[..length]) ==>
        s in old(strings.Map()) && objects == old(objects) && strings.Map() == old(strings.Map())
      ensures !HasChars(old(strings.Map()), buffer[..length]) ==>
        fresh(s) && objects == [s] + old(objects) && strings.Map() == old(strings.Map())[s := Nil]
    {
      var chars := buffer[..length];
      var hash := HashString(chars);
      var interned := strings.FindString(chars, hash);
      if interned != null {
        return interned;
      }
      s := AllocateString(chars, hash);
    }

    /** `newFunction`: a fresh function with no parameters, no name and an empty chunk. */
    method NewFunction() returns (f: ObjFunction)
      requires Valid()
      modifies this
      ensures Valid() && strings.Map() == old(strings.Map())
      ensures fresh(f) && fresh(f.chunk) && objects == [f] + old(objects)
      ensures f.arity == 0 && f.upvalueCount == 0 && f.name == null && !f.isMarked
      ensures f.chunk.Valid() && f.chunk.Code() == [] && f.chunk.Constants() == []
    {
      f := new ObjFunction();
      AllocateObject(f);
    }

    /** `newNative`: a fresh object wrapping a host function. */
    method NewNative(native: NativeFn) returns (n: ObjNative)
      requires Valid()
      modifies this
      ensures Valid() && strings.Map() == old(strings.Map())
      ensures fresh(n) && n.native == native && !n.isMarked && objects == [n] + old(objects)
    {
      n := new ObjNative(native);
      AllocateObject(n);
    }
  }
}
