/**
 * table.c: an open-addressing hash table from interned strings to values,
 * with linear probing, tombstones and growth at a load factor of 3/4.
 *
 * The properties are proved about the slot sequence (`seq<Entry>`); the
 * `Table` class at the end keeps its slots in an array and its methods are
 * proved against those functions.
 */
module Tables {
  import opened Wrappers
  import opened Memory
  import opened Values
  import opened ObjectTypes

  /**
   * `Entry`: a slot. A slot without a key is empty when its value is nil
   * and a tombstone (a deleted entry) otherwise.
   */
  datatype Entry = Entry(key: ObjString?, value: Value)

  predicate IsEmpty(e: Entry) {
    e.key == null && e.value.Nil?
  }

  predicate IsTombstone(e: Entry) {
    e.key == null && !e.value.Nil?
  }

  /** What `tableDelete` leaves in a slot. */
  const Tombstone := Entry(null, Bool(true))

  // ---------------------------------------------------------------------------
  // Probe sequences

  /** The slot a probe for `hash` starts at: `hash % capacity`. */
  function Start(hash: bv32, capacity: nat): (s: nat)
    requires 0 < capacity
    ensures s < capacity
  {
    var h: int := hash as int;
    h % capacity
  }

  /** `(index + 1) % capacity`: the slot after `index`, wrapping around. */
  function Next(index: nat, capacity: nat): (n: nat)
    requires index < capacity
    ensures n == if index + 1 == capacity then 0 else index + 1
  {
    (index + 1) % capacity
  }

  /** The slot a probe from `s` visits after `t` steps. */
  function Step(s: nat, t: nat, capacity: nat): (i: nat)
    requires s < capacity && t < capacity
    ensures i < capacity
  {
    if s + t < capacity then s + t else s + t - capacity
  }

  /** The number of steps a probe from `s` takes to reach slot `i`. */
  function Dist(s: nat, i: nat, capacity: nat): (t: nat)
    requires s < capacity && i < capacity
    ensures t < capacity && Step(s, t, capacity) == i
  {
    if s <= i then i - s else i + capacity - s
  }

  /** A probe visits each slot once in its first `capacity` steps. */
  lemma DistStep(s: nat, t: nat, capacity: nat)
    requires s < capacity && t < capacity
    ensures Dist(s, Step(s, t, capacity), capacity) == t
  {
  }

  // ---------------------------------------------------------------------------
  // The table invariant

  /** No key is in two slots. */
  ghost predicate UniqueKeys(slots: seq<Entry>) {
    forall i, j :: 0 <= i < |slots| && 0 <= j < |slots| && slots[i].key != null && slots[i].key == slots[j].key ==> i == j
  }

  /** The first `d` slots of the probe from `s` are all in use (live or tombstones). */
  ghost predicate PathUsed(slots: seq<Entry>, s: nat, d: nat)
    requires s < |slots| && d <= |slots|
  {
    forall t :: 0 <= t < d ==> !IsEmpty(slots[Step(s, t, |slots|)])
  }

  /** The first `d` slots of the probe path from `s` all hold a key: none is empty or a tombstone. */
  ghost predicate PathKeyed(slots: seq<Entry>, s: nat, d: nat)
    requires s < |slots| && d <= |slots|
  {
    forall t :: 0 <= t < d ==> slots[Step(s, t, |slots|)].key != null
  }

  /** Every key can be reached by probing from its start without meeting an empty slot. */
  ghost predicate Reachable(slots: seq<Entry>) {
    forall i :: 0 <= i < |slots| && slots[i].key != null ==>
      PathUsed(slots, Start(slots[i].key.hash, |slots|), Dist(Start(slots[i].key.hash, |slots|), i, |slots|))
  }

  ghost predicate HasEmpty(slots: seq<Entry>) {
    exists i :: 0 <= i < |slots| && IsEmpty(slots[i])
  }

  /** The slots in use: live entries and tombstones. */
  function CountUsed(slots: seq<Entry>): (n: nat)
    ensures n <= |slots|
  {
    if |slots| == 0 then 0
    else CountUsed(slots[..|slots| - 1]) + (if IsEmpty(slots[|slots| - 1]) then 0 else 1)
  }

  /** The live entries. */
  function CountLive(slots: seq<Entry>): (n: nat)
    ensures n <= CountUsed(slots)
  {
    if |slots| == 0 then 0
    else CountLive(slots[..|slots| - 1]) + (if slots[|slots| - 1].key == null then 0 else 1)
  }

  /** The map the slots stand for: each live key to its value. */
  ghost function Contents(slots: seq<Entry>): map<ObjString, Value>
    requires UniqueKeys(slots)
  {
    map i | 0 <= i < |slots| && slots[i].key != null :: slots[i].key as ObjString := slots[i].value
  }

  /**
   * What `Table` keeps: `count` is the number of slots in use (tombstones
   * included), at most 3/4 of the capacity; keys are unique and reachable.
   */
  ghost predicate Inv(slots: seq<Entry>, count: nat) {
    count == CountUsed(slots) && 4 * count <= 3 * |slots| && UniqueKeys(slots) && Reachable(slots)
  }

  /** Probing every slot without meeting an empty one means there is none. */
  lemma FullPath(slots: seq<Entry>, s: nat)
    requires s < |slots| && PathUsed(slots, s, |slots|)
    ensures !HasEmpty(slots)
  {
    forall j | 0 <= j < |slots|
      ensures !IsEmpty(slots[j])
    {
      assert Step(s, Dist(s, j, |slots|), |slots|) == j;
    }
  }

  // ---------------------------------------------------------------------------
  // findEntry

  /**
   * The probe loop of `findEntry` at slot `index`, `t` steps in, having
   * passed the first tombstone `tombstone` (if any). After every slot has
   * been probed it stops; on a table with an empty slot that never happens
   * (`ProbeEntryStops`).
   */
  function ProbeEntry(slots: seq<Entry>, key: ObjString, index: nat, t: nat, tombstone: Option<nat>): (r: nat)
    requires index < |slots| && t <= |slots|
    requires tombstone.Some? ==> tombstone.value < |slots|
    ensures r < |slots|
    decreases |slots| - t
  {
    var stop := if tombstone.Some? then tombstone.value else index;
    if t == |slots| then stop
    else
      var entry := slots[index];
      if entry.key == null then
        if entry.value.Nil? then stop
        else ProbeEntry(slots, key, Next(index, |slots|), t + 1, if tombstone.None? then Some(index) else tombstone)
      else if entry.key == key then index
      else ProbeEntry(slots, key, Next(index, |slots|), t + 1, tombstone)
  }

  /** `findEntry`: the probe for `key` from its start slot. */
  function FindSlot(slots: seq<Entry>, key: ObjString): (r: nat)
    requires 0 < |slots|
    ensures r < |slots|
  {
    ProbeEntry(slots, key, Start(key.hash, |slots|), 0, None)
  }

  /**
   * The probe from step `t` stops at the slot holding `key` or at a slot
   * without a key; every slot before the latter is in use and holds a key,
   * so that slot is the first tombstone on the path or, when there is none,
   * the empty slot that ends it; and it stops at any slot holding `key`
   * whose path is in use.
   */
  lemma {:induction false} ProbeEntryStops(slots: seq<Entry>, key: ObjString, s: nat, t: nat, tombstone: Option<nat>)
    requires s < |slots| && t < |slots| && UniqueKeys(slots) && HasEmpty(slots)
    requires PathUsed(slots, s, t)
    requires forall u :: 0 <= u < t ==> slots[Step(s, u, |slots|)].key != key
    requires tombstone.None? ==> PathKeyed(slots, s, t)
    requires tombstone.Some? ==>
      tombstone.value < |slots| && Dist(s, tombstone.value, |slots|) < t && slots[tombstone.value].key == null &&
      PathKeyed(slots, s, Dist(s, tombstone.value, |slots|))
    ensures var r := ProbeEntry(slots, key, Step(s, t, |slots|), t, tombstone);
      (slots[r].key == key || slots[r].key == null) &&
      (slots[r].key == null ==> PathUsed(slots, s, Dist(s, r, |slots|))) &&
      (slots[r].key == null ==> PathKeyed(slots, s, Dist(s, r, |slots|))) &&
      (forall p :: 0 <= p < |slots| && slots[p].key == key && PathUsed(slots, s, Dist(s, p, |slots|)) ==> r == p)
    decreases |slots| - t
  {
    var n := |slots|;
    var i := Step(s, t, n);
    DistStep(s, t, n);
    var entry := slots[i];
    if IsEmpty(entry) {
      forall p | 0 <= p < n && slots[p].key == key
        ensures !PathUsed(slots, s, Dist(s, p, n))
      {
        if Dist(s, p, n) > t {
          assert IsEmpty(slots[Step(s, t, n)]);
        }
      }
    } else if entry.key == null || entry.key != key {
      assert PathUsed(slots, s, t + 1);
      if t + 1 == n {
        FullPath(slots, s);
        assert false;
      }
      var next := if entry.key == null && tombstone.None? then Some(i) else tombstone;
      assert Next(i, n) == Step(s, t + 1, n);
      ProbeEntryStops(slots, key, s, t + 1, next);
    }
  }

  /**
   * `findEntry` on a table with an empty slot: the slot holding `key` when
   * `key` is present; otherwise the first slot without a key on its probe
   * path: the first tombstone passed, or the empty slot that ended the
   * probe when it passed none.
   */
  lemma FindSlotSpec(slots: seq<Entry>, key: ObjString)
    requires 0 < |slots| && UniqueKeys(slots) && Reachable(slots) && HasEmpty(slots)
    ensures var r := FindSlot(slots, key);
      (key in Contents(slots) ==> slots[r].key == key) &&
      (key !in Contents(slots) ==>
        slots[r].key == null && PathUsed(slots, Start(key.hash, |slots|), Dist(Start(key.hash, |slots|), r, |slots|)) &&
        PathKeyed(slots, Start(key.hash, |slots|), Dist(Start(key.hash, |slots|), r, |slots|)) &&
        (IsTombstone(slots[r]) || IsEmpty(slots[r])))
  {
    var n := |slots|;
    var s := Start(key.hash, n);
    var r := FindSlot(slots, key);
    assert Step(s, 0, n) == s;
    ProbeEntryStops(slots, key, s, 0, None);
    if slots[r].key != null {
      assert slots[r].key in Contents(slots);
    }
    if key in Contents(slots) {
      var p :| 0 <= p < n && slots[p].key == key;
      assert PathUsed(slots, s, Dist(s, p, n));
    }
  }

  // ---------------------------------------------------------------------------
  // tableFindString

  /** A live slot whose key has the given bytes and hash. */
  predicate Matches(e: Entry, chars: seq<bv8>, hash: bv32) {
    e.key != null && e.key.Length() == |chars| && e.key.hash == hash && e.key.chars == chars
  }

  /** The probe loop of `tableFindString` at slot `index`, `t` steps in. */
  function ProbeString(slots: seq<Entry>, chars: seq<bv8>, hash: bv32, index: nat, t: nat): (r: ObjString?)
    requires index < |slots| && t <= |slots|
    decreases |slots| - t
  {
    if t == |slots| then null
    else
      var entry := slots[index];
      if entry.key == null then
        if entry.value.Nil? then null
        else ProbeString(slots, chars, hash, Next(index, |slots|), t + 1)
      else if Matches(entry, chars, hash) then entry.key
      else ProbeString(slots, chars, hash, Next(index, |slots|), t + 1)
  }

  /** `tableFindString` on a table with slots: the probe from the slot of `hash`. */
  function FindStringSlot(slots: seq<Entry>, chars: seq<bv8>, hash: bv32): ObjString?
    requires 0 < |slots|
  {
    ProbeString(slots, chars, hash, Start(hash, |slots|), 0)
  }

  lemma {:induction false} ProbeStringStops(slots: seq<Entry>, chars: seq<bv8>, hash: bv32, s: nat, t: nat)
    requires s < |slots| && t < |slots| && HasEmpty(slots)
    requires PathUsed(slots, s, t)
    requires forall u :: 0 <= u < t ==> !Matches(slots[Step(s, u, |slots|)], chars, hash)
    ensures var r := ProbeString(slots, chars, hash, Step(s, t, |slots|), t);
      (r != null ==> exists i :: 0 <= i < |slots| && slots[i].key == r && Matches(slots[i], chars, hash)) &&
      (r == null ==> forall p :: 0 <= p < |slots| && Matches(slots[p], chars, hash) ==> !PathUsed(slots, s, Dist(s, p, |slots|)))
    decreases |slots| - t
  {
    var n := |slots|;
    var i := Step(s, t, n);
    DistStep(s, t, n);
    var entry := slots[i];
    if IsEmpty(entry) {
      forall p | 0 <= p < n && Matches(slots[p], chars, hash)
        ensures !PathUsed(slots, s, Dist(s, p, n))
      {
        if Dist(s, p, n) > t {
          assert IsEmpty(slots[Step(s, t, n)]);
        }
      }
    } else if !Matches(entry, chars, hash) {
      assert PathUsed(slots, s, t + 1);
      if t + 1 == n {
        FullPath(slots, s);
        assert false;
      }
      assert Next(i, n) == Step(s, t + 1, n);
      ProbeStringStops(slots, chars, hash, s, t + 1);
    }
  }

  /**
   * `tableFindString` on a table with an empty slot: it returns a key with
   * the given bytes and hash when the table holds one, and `null` otherwise.
   */
  lemma FindStringSpec(slots: seq<Entry>, chars: seq<bv8>, hash: bv32)
    requires 0 < |slots| && UniqueKeys(slots) && Reachable(slots) && HasEmpty(slots)
    ensures var r := FindStringSlot(slots, chars, hash);
      (r != null ==> r in Contents(slots) && r.chars == chars && r.hash == hash) &&
      (r == null ==> forall k :: k in Contents(slots) ==> !(k.chars == chars && k.hash == hash))
  {
    var n := |slots|;
    var s := Start(hash, n);
    var r := FindStringSlot(slots, chars, hash);
    assert Step(s, 0, n) == s;
    ProbeStringStops(slots, chars, hash, s, 0);
    if r == null {
      forall k | k in Contents(slots)
        ensures !(k.chars == chars && k.hash == hash)
      {
        var p :| 0 <= p < n && slots[p].key == k;
        var sk := Start(k.hash, n);
        assert PathUsed(slots, sk, Dist(sk, p, n));
      }
    } else {
      var i :| 0 <= i < n && slots[i].key == r && Matches(slots[i], chars, hash);
      assert slots[i].key in Contents(slots);
    }
  }

  // ---------------------------------------------------------------------------
  // Counting slots

  lemma {:induction false} CountUpdate(slots: seq<Entry>, r: nat, e: Entry)
    requires r < |slots|
    ensures CountUsed(slots[r := e]) ==
      CountUsed(slots) - (if IsEmpty(slots[r]) then 0 else 1) + (if IsEmpty(e) then 0 else 1)
    decreases |slots|
  {
    var n := |slots|;
    var updated := slots[r := e];
    if r == n - 1 {
      assert updated[..n - 1] == slots[..n - 1];
    } else {
      assert updated[..n - 1] == slots[..n - 1][r := e];
      CountUpdate(slots[..n - 1], r, e);
    }
  }

  /** Fewer slots in use than slots: one of them is empty. */
  lemma {:induction false} CountedEmpty(slots: seq<Entry>)
    requires CountUsed(slots) < |slots|
    ensures HasEmpty(slots)
    decreases |slots|
  {
    var n := |slots|;
    if IsEmpty(slots[n - 1]) {
      assert IsEmpty(slots[n - 1]);
    } else {
      CountedEmpty(slots[..n - 1]);
      var i :| 0 <= i < n - 1 && IsEmpty(slots[..n - 1][i]);
      assert IsEmpty(slots[i]);
    }
  }

  /** No slot in use: every slot is empty. */
  lemma {:induction false} CountZero(slots: seq<Entry>)
    requires CountUsed(slots) == 0
    ensures forall i :: 0 <= i < |slots| ==> IsEmpty(slots[i])
    decreases |slots|
  {
    var n := |slots|;
    if n > 0 {
      CountZero(slots[..n - 1]);
      forall i | 0 <= i < n
        ensures IsEmpty(slots[i])
      {
        if i < n - 1 {
          assert IsEmpty(slots[..n - 1][i]);
        }
      }
    }
  }

  /** Only empty slots: nothing in use, nothing live. */
  lemma {:induction false} AllEmpty(slots: seq<Entry>)
    requires forall i :: 0 <= i < |slots| ==> IsEmpty(slots[i])
    ensures CountUsed(slots) == 0 && CountLive(slots) == 0
    decreases |slots|
  {
    var n := |slots|;
    if n > 0 {
      assert forall i :: 0 <= i < n - 1 ==> slots[..n - 1][i] == slots[i];
      AllEmpty(slots[..n - 1]);
    }
  }

  /** A table of empty slots keeps the invariant and holds nothing. */
  lemma EmptyTable(slots: seq<Entry>)
    requires forall i :: 0 <= i < |slots| ==> IsEmpty(slots[i])
    ensures Inv(slots, 0) && Contents(slots) == map[]
  {
    AllEmpty(slots);
  }

  /** With its load kept at 3/4, a table with slots has an empty one. */
  lemma Room(slots: seq<Entry>, count: nat)
    requires Inv(slots, count) && 0 < |slots|
    ensures HasEmpty(slots)
  {
    CountedEmpty(slots);
  }

  /** Each live slot is in the contents, with its value. */
  lemma InContents(slots: seq<Entry>)
    requires UniqueKeys(slots)
    ensures forall j :: 0 <= j < |slots| && slots[j].key != null ==>
      slots[j].key in Contents(slots) && Contents(slots)[slots[j].key] == slots[j].value
  {
    forall j | 0 <= j < |slots| && slots[j].key != null
      ensures slots[j].key in Contents(slots) && Contents(slots)[slots[j].key] == slots[j].value
    {
    }
  }

  /** A table with no slot in use holds nothing. */
  lemma ZeroCount(slots: seq<Entry>)
    requires Inv(slots, 0)
    ensures Contents(slots) == map[]
  {
    CountZero(slots);
  }

  /** Turning empty slots into used ones keeps every probe path in use. */
  lemma PathMono(a: seq<Entry>, b: seq<Entry>, s: nat, d: nat)
    requires |a| == |b| && s < |a| && d <= |a|
    requires forall j :: 0 <= j < |a| && !IsEmpty(a[j]) ==> !IsEmpty(b[j])
    requires PathUsed(a, s, d)
    ensures PathUsed(b, s, d)
  {
    forall t | 0 <= t < d
      ensures !IsEmpty(b[Step(s, t, |a|)])
    {
      assert !IsEmpty(a[Step(s, t, |a|)]);
    }
  }

  // ---------------------------------------------------------------------------
  // Writing a slot

  /** Writing `key` into its own slot, or into a free slot when it is absent, keeps keys unique. */
  lemma WriteUnique(slots: seq<Entry>, r: nat, key: ObjString, value: Value)
    requires UniqueKeys(slots) && r < |slots|
    requires slots[r].key == key || (slots[r].key == null && key !in Contents(slots))
    ensures UniqueKeys(slots[r := Entry(key, value)])
  {
    InContents(slots);
  }

  /** ... and the map gains `key := value`. */
  lemma WriteContents(slots: seq<Entry>, r: nat, key: ObjString, value: Value)
    requires UniqueKeys(slots) && r < |slots|
    requires slots[r].key == key || (slots[r].key == null && key !in Contents(slots))
    ensures UniqueKeys(slots[r := Entry(key, value)])
    ensures Contents(slots[r := Entry(key, value)]) == Contents(slots)[key := value]
  {
    WriteUnique(slots, r, key, value);
    var a := Contents(slots[r := Entry(key, value)]);
    var b := Contents(slots)[key := value];
    forall k | k in b
      ensures k in a
    {
      WriteKeptKey(slots, r, key, value, k);
    }
    forall k | k in a
      ensures k in b && a[k] == b[k]
    {
      WriteNewKey(slots, r, key, value, k);
    }
  }

  lemma WriteKeptKey(slots: seq<Entry>, r: nat, key: ObjString, value: Value, k: ObjString)
    requires UniqueKeys(slots) && r < |slots|
    requires slots[r].key == key || (slots[r].key == null && key !in Contents(slots))
    requires UniqueKeys(slots[r := Entry(key, value)])
    requires k == key || k in Contents(slots)
    ensures k in Contents(slots[r := Entry(key, value)])
  {
    var updated := slots[r := Entry(key, value)];
    if k == key {
      assert updated[r].key == k;
    } else {
      var i :| 0 <= i < |slots| && slots[i].key == k;
      assert updated[i].key == k;
    }
  }

  lemma WriteNewKey(slots: seq<Entry>, r: nat, key: ObjString, value: Value, k: ObjString)
    requires UniqueKeys(slots) && r < |slots|
    requires slots[r].key == key || (slots[r].key == null && key !in Contents(slots))
    requires UniqueKeys(slots[r := Entry(key, value)])
    requires k in Contents(slots[r := Entry(key, value)])
    ensures k in Contents(slots)[key := value]
    ensures Contents(slots[r := Entry(key, value)])[k] == Contents(slots)[key := value][k]
  {
    var updated := slots[r := Entry(key, value)];
    var i :| 0 <= i < |updated| && updated[i].key == k;
    if i != r {
      assert slots[i].key == k;
      assert slots[i].key in Contents(slots);
    }
  }

  /** Writing a key at the end of its in-use probe path keeps every key reachable. */
  lemma WriteReachable(slots: seq<Entry>, r: nat, key: ObjString, value: Value)
    requires Reachable(slots) && r < |slots|
    requires PathUsed(slots, Start(key.hash, |slots|), Dist(Start(key.hash, |slots|), r, |slots|))
    ensures Reachable(slots[r := Entry(key, value)])
  {
    var n := |slots|;
    var updated := slots[r := Entry(key, value)];
    forall i | 0 <= i < n && updated[i].key != null
      ensures PathUsed(updated, Start(updated[i].key.hash, n), Dist(Start(updated[i].key.hash, n), i, n))
    {
      var si := Start(updated[i].key.hash, n);
      if i == r {
        PathMono(slots, updated, si, Dist(si, i, n));
      } else {
        assert slots[i].key == updated[i].key;
        PathMono(slots, updated, si, Dist(si, i, n));
      }
    }
  }

  /**
   * `tableSet` once the table has room: the slot `findEntry` picks gets the
   * pair; it was free exactly when the key was absent; `count` goes up only
   * when that slot was empty (not a tombstone); the invariant is kept and the
   * map gains `key := value`.
   */
  lemma SetSlot(slots: seq<Entry>, count: nat, key: ObjString, value: Value)
    requires Inv(slots, count) && 4 * (count + 1) <= 3 * |slots|
    ensures 0 < |slots| && HasEmpty(slots)
    ensures var r := FindSlot(slots, key);
      var count' := count + (if IsEmpty(slots[r]) then 1 else 0);
      Inv(slots[r := Entry(key, value)], count') &&
      (slots[r].key == null <==> key !in Contents(slots)) &&
      Contents(slots[r := Entry(key, value)]) == Contents(slots)[key := value]
  {
    Room(slots, count);
    var r := FindSlot(slots, key);
    FindSlotSpec(slots, key);
    InContents(slots);
    CountUpdate(slots, r, Entry(key, value));
    WriteContents(slots, r, key, value);
    if slots[r].key == key {
      assert PathUsed(slots, Start(key.hash, |slots|), Dist(Start(key.hash, |slots|), r, |slots|));
    }
    WriteReachable(slots, r, key, value);
  }

  /** A tombstone over a present key keeps keys unique and reachable and drops the key from the map. */
  lemma DeleteReachable(slots: seq<Entry>, r: nat)
    requires Reachable(slots) && r < |slots| && slots[r].key != null
    ensures Reachable(slots[r := Tombstone])
  {
    var n := |slots|;
    var updated := slots[r := Tombstone];
    forall i | 0 <= i < n && updated[i].key != null
      ensures PathUsed(updated, Start(updated[i].key.hash, n), Dist(Start(updated[i].key.hash, n), i, n))
    {
      var si := Start(updated[i].key.hash, n);
      assert slots[i].key == updated[i].key;
      PathMono(slots, updated, si, Dist(si, i, n));
    }
  }

  lemma DeleteContents(slots: seq<Entry>, r: nat)
    requires UniqueKeys(slots) && r < |slots| && slots[r].key != null
    ensures UniqueKeys(slots[r := Tombstone])
    ensures Contents(slots[r := Tombstone]) == Contents(slots) - {slots[r].key}
  {
    var n := |slots|;
    var updated := slots[r := Tombstone];
    var a := Contents(updated);
    var b := Contents(slots) - {slots[r].key};
    forall k | k in a
      ensures k in b && a[k] == b[k]
    {
      var i :| 0 <= i < n && updated[i].key == k;
      assert slots[i].key == k;
    }
    forall k | k in b
      ensures k in a
    {
      var i :| 0 <= i < n && slots[i].key == k;
      assert updated[i].key == k;
    }
  }

  /**
   * `tableDelete` of a present key: its slot becomes a tombstone, `count`
   * is unchanged, the invariant is kept and the key leaves the map.
   */
  lemma DeleteSlot(slots: seq<Entry>, count: nat, key: ObjString)
    requires Inv(slots, count) && 0 < |slots| && key in Contents(slots)
    ensures HasEmpty(slots)
    ensures var r := FindSlot(slots, key);
      slots[r].key == key && Inv(slots[r := Tombstone], count) &&
      Contents(slots[r := Tombstone]) == Contents(slots) - {key}
  {
    Room(slots, count);
    var r := FindSlot(slots, key);
    FindSlotSpec(slots, key);
    CountUpdate(slots, r, Tombstone);
    DeleteReachable(slots, r);
    DeleteContents(slots, r);
  }

  // ---------------------------------------------------------------------------
  // Prefixes of a slot sequence, as a loop over the slots sees them

  /** The map of the first `i + 1` slots adds slot `i` (if live) to that of the first `i`. */
  lemma ContentsSnoc(slots: seq<Entry>, i: nat)
    requires UniqueKeys(slots) && i < |slots|
    ensures UniqueKeys(slots[..i]) && UniqueKeys(slots[..i + 1])
    ensures slots[i].key != null ==> slots[i].key !in Contents(slots[..i])
    ensures Contents(slots[..i + 1]) ==
      if slots[i].key == null then Contents(slots[..i]) else Contents(slots[..i])[slots[i].key := slots[i].value]
  {
    var p := slots[..i];
    var q := slots[..i + 1];
    assert q == p + [slots[i]];
    assert UniqueKeys(p);
    if slots[i].key != null {
      forall j | 0 <= j < i
        ensures p[j].key != slots[i].key
      {
        assert p[j] == slots[j];
      }
      assert q == p + [Entry(slots[i].key, slots[i].value)];
      WriteAtEnd(p, slots[i].key, slots[i].value);
    } else {
      KeylessAtEnd(p, slots[i]);
    }
  }

  /** Appending a slot without a key leaves the map as it was. */
  lemma KeylessAtEnd(p: seq<Entry>, e: Entry)
    requires UniqueKeys(p) && e.key == null
    ensures UniqueKeys(p + [e]) && Contents(p + [e]) == Contents(p)
  {
    var q := p + [e];
    var a := Contents(q);
    var b := Contents(p);
    forall k | k in a
      ensures k in b && a[k] == b[k]
    {
      var j :| 0 <= j < |q| && q[j].key == k;
      assert p[j].key == k;
    }
    forall k | k in b
      ensures k in a
    {
      var j :| 0 <= j < |p| && p[j].key == k;
      assert q[j].key == k;
    }
  }

  /** Appending a live slot for an absent key adds the key to the map. */
  lemma WriteAtEnd(p: seq<Entry>, key: ObjString, value: Value)
    requires UniqueKeys(p) && key !in Contents(p)
    ensures UniqueKeys(p + [Entry(key, value)])
    ensures Contents(p + [Entry(key, value)]) == Contents(p)[key := value]
  {
    var q := p + [Entry(key, value)];
    InContents(p);
    var a := Contents(q);
    var b := Contents(p)[key := value];
    forall k | k in a
      ensures k in b && a[k] == b[k]
    {
      var j :| 0 <= j < |q| && q[j].key == k;
      if j < |p| {
        assert p[j].key == k;
      }
    }
    forall k | k in b
      ensures k in a
    {
      if k == key {
        assert q[|p|].key == k;
      } else {
        var j :| 0 <= j < |p| && p[j].key == k;
        assert q[j].key == k;
      }
    }
  }

  /** Live slots among the first `i + 1` are those among the first `i`, plus slot `i`. */
  lemma CountLiveSnoc(slots: seq<Entry>, i: nat)
    requires i < |slots|
    ensures CountLive(slots[..i + 1]) == CountLive(slots[..i]) + (if slots[i].key == null then 0 else 1)
  {
    assert slots[..i + 1][..i] == slots[..i];
  }

  /** A prefix has no more live slots than the whole. */
  lemma {:induction false} CountLivePrefix(slots: seq<Entry>, i: nat)
    requires i <= |slots|
    ensures CountLive(slots[..i]) <= CountLive(slots)
    decreases |slots| - i
  {
    if i < |slots| {
      CountLiveSnoc(slots, i);
      CountLivePrefix(slots, i + 1);
    } else {
      assert slots[..i] == slots;
    }
  }

  /** Without tombstones, the slots in use are the live ones. */
  ghost predicate NoTombstones(slots: seq<Entry>) {
    forall j :: 0 <= j < |slots| ==> !IsTombstone(slots[j])
  }

  /** Growing a table whose load is at most 3/4 leaves room for one more entry. */
  lemma GrowthRoom(count: nat, capacity: nat)
    requires 4 * count <= 3 * capacity
    ensures 4 * (count + 1) <= 3 * GrowCapacity(capacity)
  {
  }

  /**
   * One step of `adjustCapacity`: the live slot `i` of the old table goes
   * into the slot `findEntry` picks in the new one, which is empty.
   */
  lemma Rehash(slots: seq<Entry>, i: nat, target: seq<Entry>, count: nat)
    requires UniqueKeys(slots) && i < |slots| && slots[i].key != null
    requires 4 * CountLive(slots) <= 3 * |target|
    requires Inv(target, count) && NoTombstones(target) && count == CountLive(slots[..i])
    requires UniqueKeys(slots[..i]) && Contents(target) == Contents(slots[..i])
    ensures 0 < |target| && HasEmpty(target)
    ensures var r := FindSlot(target, slots[i].key);
      var updated := target[r := Entry(slots[i].key, slots[i].value)];
      Inv(updated, count + 1) && NoTombstones(updated) && count + 1 == CountLive(slots[..i + 1]) &&
      UniqueKeys(slots[..i + 1]) && Contents(updated) == Contents(slots[..i + 1])
  {
    ContentsSnoc(slots, i);
    CountLiveSnoc(slots, i);
    CountLivePrefix(slots, i + 1);
    SetSlot(target, count, slots[i].key, slots[i].value);
  }

  // ---------------------------------------------------------------------------
  // The table

  /**
   * `findEntry`: probe from `hash % capacity`, remembering the first
   * tombstone, until the key or an empty slot is found. The table must have
   * an empty slot, which `Table.Valid` guarantees whenever it has slots.
   */
  method FindEntry(entries: array<Entry>, capacity: nat, key: ObjString) returns (index: nat)
    requires entries.Length == capacity && 0 < capacity && HasEmpty(entries[..])
    ensures index == FindSlot(entries[..], key)
  {
    index := Start(key.hash, capacity);
    var tombstone: Option<nat> := None;
    ghost var s := index;
    ghost var t := 0;
    assert Step(s, 0, capacity) == s;
    while true
      invariant t < capacity && index == Step(s, t, capacity)
      invariant tombstone.Some? ==> tombstone.value < capacity
      invariant ProbeEntry(entries[..], key, index, t, tombstone) == FindSlot(entries[..], key)
      invariant PathUsed(entries[..], s, t)
      decreases capacity - t
    {
      var entry := entries[index];
      if entry.key == null {
        if entry.value.Nil? {
          return if tombstone.Some? then tombstone.value else index;
        } else if tombstone.None? {
          tombstone := Some(index);
        }
      } else if entry.key == key {
        return index;
      }
      index := (index + 1) % capacity;
      t := t + 1;
      if t == capacity {
        FullPath(entries[..], s);
        assert false;
      }
    }
  }

  /** The probe loop of `tableFindString`, on a table with an empty slot. */
  method ProbeStrings(entries: array<Entry>, capacity: nat, chars: seq<bv8>, hash: bv32) returns (r: ObjString?)
    requires entries.Length == capacity && 0 < capacity && HasEmpty(entries[..])
    ensures r == FindStringSlot(entries[..], chars, hash)
  {
    var index := Start(hash, capacity);
    ghost var s := index;
    ghost var t := 0;
    assert Step(s, 0, capacity) == s;
    while true
      invariant t < capacity && index == Step(s, t, capacity)
      invariant ProbeString(entries[..], chars, hash, index, t) == FindStringSlot(entries[..], chars, hash)
      invariant PathUsed(entries[..], s, t)
      decreases capacity - t
    {
      var entry := entries[index];
      if entry.key == null {
        if entry.value.Nil? {
          return null;
        }
      } else if entry.key.Length() == |chars| && entry.key.hash == hash && entry.key.chars == chars {
        return entry.key;
      }
      index := (index + 1) % capacity;
      t := t + 1;
      if t == capacity {
        FullPath(entries[..], s);
        assert false;
      }
    }
  }

  /** `Table`: `entries` holds `capacity` slots, `count` of them in use. */
  class Table {
    var count: nat
    var capacity: nat
    var entries: array<Entry>

    ghost predicate Valid()
      reads this, entries
    {
      entries.Length == capacity && Inv(entries[..], count)
    }

    /** The map from keys to values the table stands for. */
    ghost function Map(): map<ObjString, Value>
      reads this, entries
      requires Valid()
    {
      Contents(entries[..])
    }

    /** A table as `initTable` leaves it. */
    constructor ()
      ensures Valid() && count == 0 && capacity == 0 && Map() == map[]
    {
      count := 0;
      capacity := 0;
      entries := new Entry[0];
      new;
      EmptyTable(entries[..]);
    }

    /** `initTable`: no slots, nothing in use. */
    method Init()
      modifies this
      ensures Valid() && count == 0 && capacity == 0 && Map() == map[]
    {
      count := 0;
      capacity := 0;
      entries := new Entry[0];
      EmptyTable(entries[..]);
    }

    /** `freeTable`: release the slots and return to the initial state. */
    method Free()
      modifies this
      ensures Valid() && count == 0 && capacity == 0 && Map() == map[]
    {
      Init();
    }

    /**
     * `adjustCapacity`: move the live entries into `newCapacity` fresh empty
     * slots. Tombstones are dropped, so `count` becomes the number of live
     * entries; the map is unchanged.
     */
    method AdjustCapacity(newCapacity: nat)
      requires Valid() && 4 * CountLive(entries[..]) <= 3 * newCapacity
      modifies this
      ensures Valid() && fresh(entries) && capacity == newCapacity
      ensures count == CountLive(old(entries[..])) && NoTombstones(entries[..])
      ensures Map() == old(Map())
    {
      var newEntries := new Entry[newCapacity];
      var j := 0;
      while j < newCapacity
        modifies newEntries
        invariant j <= newCapacity
        invariant forall k :: 0 <= k < j ==> IsEmpty(newEntries[k])
      {
        newEntries[j] := Entry(null, Nil);
        j := j + 1;
      }
      EmptyTable(newEntries[..]);
      var live := 0;
      ghost var slots := entries[..];
      var i := 0;
      while i < capacity
        modifies newEntries
        invariant i <= capacity && newEntries != entries
        invariant Inv(newEntries[..], live) && NoTombstones(newEntries[..])
        invariant live == CountLive(slots[..i])
        invariant UniqueKeys(slots[..i]) && Contents(newEntries[..]) == Contents(slots[..i])
      {
        var entry := entries[i];
        ContentsSnoc(slots, i);
        CountLiveSnoc(slots, i);
        if entry.key != null {
          ghost var target := newEntries[..];
          Rehash(slots, i, target, live);
          var dest := FindEntry(newEntries, newCapacity, entry.key);
          newEntries[dest] := Entry(entry.key, entry.value);
          assert newEntries[..] == target[dest := Entry(slots[i].key, slots[i].value)];
          live := live + 1;
        }
        i := i + 1;
      }
      assert slots[..i] == slots;
      count := live;
      entries := newEntries;
      capacity := newCapacity;
    }

    /**
     * `tableSet`: grow first when one more slot in use would pass the load
     * factor of 3/4, then write the pair into the slot `findEntry` picks.
     * The result says whether the key was new; `count` goes up only when an
     * empty slot (not a tombstone) is taken.
     */
    method Set(key: ObjString, value: Value) returns (isNewKey: bool)
      requires Valid()
      modifies this, entries
      ensures Valid()
      ensures isNewKey <==> key !in old(Map())
      ensures Map() == old(Map())[key := value]
      ensures 4 * (old(count) + 1) > 3 * old(capacity) ==>
        fresh(entries) && capacity == GrowCapacity(old(capacity)) &&
        count == CountLive(old(entries[..])) + (if isNewKey then 1 else 0)
      ensures 4 * (old(count) + 1) <= 3 * old(capacity) ==>
        entries == old(entries) && capacity == old(capacity) &&
        count == old(count) + (if IsEmpty(old(entries[..])[FindSlot(old(entries[..]), key)]) then 1 else 0)
    {
      if 4 * (count + 1) > 3 * capacity {
        GrowthRoom(count, capacity);
        var newCapacity := GrowCapacity(capacity);
        AdjustCapacity(newCapacity);
      }
      isNewKey := Insert(key, value);
    }

    /**
     * The second half of `tableSet`, once the table has room: the slot
     * `findEntry` picks gets the pair. The key is new exactly when that slot
     * held no key, and `count` goes up only when it was empty.
     */
    method Insert(key: ObjString, value: Value) returns (isNewKey: bool)
      requires Valid() && 4 * (count + 1) <= 3 * capacity
      modifies this, entries
      ensures Valid() && entries == old(entries) && capacity == old(capacity)
      ensures isNewKey <==> key !in old(Map())
      ensures isNewKey <==> old(entries[..])[FindSlot(old(entries[..]), key)].key == null
      ensures Map() == old(Map())[key := value]
      ensures count == old(count) + (if IsEmpty(old(entries[..])[FindSlot(old(entries[..]), key)]) then 1 else 0)
    {
      SetSlot(entries[..], count, key, value);
      var index := FindEntry(entries, capacity, key);
      var entry := entries[index];
      isNewKey := entry.key == null;
      if isNewKey && entry.value.Nil? {
        count := count + 1;
      }
      entries[index] := Entry(key, value);
    }

    /**
     * `tableGet`: whether `key` is present and, if so, its value. When it is
     * absent the caller's variable keeps what it held (`prior`).
     */
    method Get(key: ObjString, prior: Value) returns (found: bool, value: Value)
      requires Valid()
      ensures found <==> key in Map()
      ensures value == if found then Map()[key] else prior
    {
      if count == 0 {
        ZeroCount(entries[..]);
        return false, prior;
      }
      Room(entries[..], count);
      FindSlotSpec(entries[..], key);
      InContents(entries[..]);
      var index := FindEntry(entries, capacity, key);
      var entry := entries[index];
      if entry.key == null {
        return false, prior;
      }
      return true, entry.value;
    }

    /**
     * `tableDelete`: a present key's slot becomes a tombstone, so later
     * probes go on past it; `count` still includes it.
     */
    method Delete(key: ObjString) returns (deleted: bool)
      requires Valid()
      modifies entries
      ensures Valid() && count == old(count)
      ensures deleted <==> key in old(Map())
      ensures Map() == old(Map()) - {key}
      ensures !deleted ==> entries[..] == old(entries[..])
      ensures deleted ==> var r := FindSlot(old(entries[..]), key);
        old(entries[..])[r].key == key && entries[..] == old(entries[..])[r := Tombstone]
    {
      if count == 0 {
        ZeroCount(entries[..]);
        return false;
      }
      Room(entries[..], count);
      FindSlotSpec(entries[..], key);
      var index := FindEntry(entries, capacity, key);
      if entries[index].key == null {
        assert Map() - {key} == Map();
        return false;
      }
      DeleteSlot(entries[..], count, key);
      entries[index] := Tombstone;
      return true;
    }

    /**
     * `tableFindString`: the interned string with these bytes and this hash,
     * compared by content rather than by reference; `null` when there is none.
     */
    method FindString(chars: seq<bv8>, hash: bv32) returns (r: ObjString?)
      requires Valid()
      ensures r != null ==> r in Map() && r.chars == chars && r.hash == hash
      ensures r == null ==> forall k :: k in Map() ==> !(k.chars == chars && k.hash == hash)
    {
      if count == 0 {
        ZeroCount(entries[..]);
        return null;
      }
      Room(entries[..], count);
      FindStringSpec(entries[..], chars, hash);
      r := ProbeStrings(entries, capacity, chars, hash);
    }

    /**
     * `tableRemoveWhite`: delete every key whose string is not marked, as
     * the collector does before sweeping; marked keys keep their values.
     */
    method RemoveWhite()
      requires Valid()
      modifies entries
      ensures Valid() && count == old(count)
      ensures forall k :: k in Map() <==> k in old(Map()) && k.isMarked
      ensures forall k :: k in Map() ==> Map()[k] == old(Map())[k]
    {
      ghost var slots := entries[..];
      ghost var marked := set j | 0 <= j < |slots| && slots[j].key != null && slots[j].key.isMarked :: slots[j].key;
      assert forall j :: 0 <= j < |slots| && slots[j].key != null ==> (slots[j].key in marked <==> slots[j].key.isMarked);
      var i := 0;
      while i < capacity
        invariant i <= capacity && Valid()
        invariant entries[..] == Whiten(slots, marked, i)
        invariant forall j :: 0 <= j < |slots| && slots[j].key != null ==> (slots[j].key in marked <==> slots[j].key.isMarked)
      {
        assert entries[i] == slots[i];
        RemoveIfWhite(i, marked);
        WhitenStep(slots, marked, i);
        i := i + 1;
      }
      WhitenContents(slots, marked);
    }

    /** One step of `tableRemoveWhite`: delete the key in slot `i` if it is not marked. */
    method RemoveIfWhite(i: nat, ghost marked: set<ObjString>)
      requires Valid() && i < capacity
      requires entries[i].key != null ==> (entries[i].key in marked <==> entries[i].key.isMarked)
      modifies entries
      ensures Valid()
      ensures entries[..] == old(entries[..])[i := if old(entries[i].key) != null && old(entries[i].key) !in marked then Tombstone else old(entries[i])]
    {
      var entry := entries[i];
      if entry.key != null && !entry.key.isMarked {
        ghost var slots := entries[..];
        InContents(slots);
        var deleted := Delete(entry.key);
        assert FindSlot(slots, entry.key) == i;
      }
    }
  }

  /** The slots after the first `i` steps of `tableRemoveWhite`: unmarked keys before `i` are tombstones. */
  ghost function Whiten(slots: seq<Entry>, marked: set<ObjString>, i: nat): (r: seq<Entry>)
    ensures |r| == |slots|
  {
    seq(|slots|, j requires 0 <= j < |slots| =>
      if j < i && slots[j].key != null && slots[j].key !in marked then Tombstone else slots[j])
  }

  lemma WhitenStep(slots: seq<Entry>, marked: set<ObjString>, i: nat)
    requires i < |slots|
    ensures Whiten(slots, marked, i + 1) ==
      Whiten(slots, marked, i)[i := if slots[i].key != null && slots[i].key !in marked then Tombstone else slots[i]]
  {
  }

  /** Whitening every slot keeps exactly the entries whose keys are marked. */
  lemma WhitenContents(slots: seq<Entry>, marked: set<ObjString>)
    requires UniqueKeys(slots)
    requires forall j :: 0 <= j < |slots| && slots[j].key != null ==> (slots[j].key in marked <==> slots[j].key.isMarked)
    ensures UniqueKeys(Whiten(slots, marked, |slots|))
    ensures var kept := Contents(Whiten(slots, marked, |slots|));
      forall k :: k in kept <==> k in Contents(slots) && k.isMarked
    ensures var kept := Contents(Whiten(slots, marked, |slots|));
      forall k :: k in kept ==> kept[k] == Contents(slots)[k]
  {
    var w := Whiten(slots, marked, |slots|);
    assert UniqueKeys(w);
    forall k | k in Contents(w)
      ensures k in Contents(slots) && k.isMarked && Contents(w)[k] == Contents(slots)[k]
    {
      var j :| 0 <= j < |w| && w[j].key == k;
      assert slots[j].key == k;
    }
    forall k | k in Contents(slots) && k.isMarked
      ensures k in Contents(w)
    {
      var j :| 0 <= j < |slots| && slots[j].key == k;
      assert w[j].key == k;
    }
  }

  /** Updating a union updates its right-hand side, which wins on shared keys. */
  lemma UnionUpdate<K, V>(a: map<K, V>, b: map<K, V>, k: K, v: V)
    ensures (a + b)[k := v] == a + b[k := v]
  {
  }

  /**
   * `tableAddAll`: copy every live entry of `from` into `to` with `tableSet`,
   * so `to` ends up with the union of the two maps, `from`'s values winning.
   */
  method AddAll(from: Table, to: Table)
    requires from.Valid() && to.Valid() && from != to && from.entries != to.entries
    modifies to, to.entries
    ensures to.Valid() && from.Map() == old(from.Map())
    ensures to.Map() == old(to.Map()) + from.Map()
  {
    var entries, capacity := from.entries, from.capacity;
    ghost var slots := entries[..];
    ghost var start := to.Map();
    var i := 0;
    while i < capacity
      invariant i <= capacity == |slots| && entries[..] == slots && entries != to.entries
      invariant to.entries == old(to.entries) || fresh(to.entries)
      invariant to.Valid() && UniqueKeys(slots[..i])
      invariant to.Map() == start + Contents(slots[..i])
      decreases |slots| - i
    {
      var entry := entries[i];
      ContentsSnoc(slots, i);
      if entry.key != null {
        var isNew := to.Set(entry.key, entry.value);
        UnionUpdate(start, Contents(slots[..i]), entry.key, entry.value);
      }
      i := i + 1;
    }
    assert slots[..i] == slots;
  }
}
