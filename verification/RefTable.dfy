/**
 The table through which Go code running in WebAssembly refers to JavaScript values: the 8-byte word a
 value is stored as, and the reference-counted slots behind the words that are handles.
 */
module RefTable {
  import opened Prelude

  // ---- Words and values --------------------------------------------------------------------------

  /** The 8 bytes of a stored value, as the two 32-bit halves the glue reads and writes. */
  datatype Word = Word(hi: u32, lo: u32)

  const NAN_HEAD: u32 := 0x7FF8_0000

  /** The word read as a binary64 number is a NaN: all exponent bits set and a nonzero significand. */
  predicate IsNaN(w: Word) {
    w.hi / 0x10_0000 % 0x800 == 0x7FF && (w.hi % 0x10_0000 != 0 || w.lo != 0)
  }

  /** The word read as a binary64 number is +0 or -0. */
  predicate IsZero(w: Word) {
    w.hi % 0x8000_0000 == 0 && w.lo == 0
  }

  /** A number other than NaN is its bit pattern. JavaScript has only one NaN. */
  type Double = w: Word | !IsNaN(w) witness Word(0, 0)

  const POSITIVE_ZERO: Double := Word(0, 0)
  const NEGATIVE_ZERO: Double := Word(0x8000_0000, 0)

  /** JavaScript values. Equality is `===`, except that the two zeros differ. */
  datatype JsValue =
    | Undefined
    | Null
    | Boolean(b: bool)
    | NotANumber
    | Number(bits: Double)
    | BigInt(i: int)
    | Text(s: string)
    | Symbol(identity: nat)
    | Function(identity: nat)
    | Object(identity: nat)

  const GLOBAL_THIS := Object(0)
  const GO := Object(1)

  /** Values that are stored as a handle into the table rather than by content. */
  predicate IsHandleValue(v: JsValue) {
    match v
    case Undefined => false
    case NotANumber => false
    case Number(w) => IsZero(w)
    case _ => true
  }

  /** The key a JavaScript Map uses for a value: the two zeros are one key. */
  function MapKey(v: JsValue): JsValue {
    if v.Number? && IsZero(v.bits) then Number(POSITIVE_ZERO) else v
  }

  function TypeFlag(v: JsValue): u32 {
    match v
    case Object(_) => 1
    case Text(_) => 2
    case Symbol(_) => 3
    case Function(_) => 4
    case _ => 0
  }

  /** The handle word of slot `id`; the type flag occupies bits that are clear in NAN_HEAD. */
  function HandleWord(id: nat, v: JsValue): Word {
    Word(NAN_HEAD + TypeFlag(v), id % TWO_32)
  }

  /** The flag as the bits that the glue combines with the NaN head. */
  function FlagBits(v: JsValue): (r: bv32)
    ensures r <= 4
  {
    match v
    case Object(_) => 1
    case Text(_) => 2
    case Symbol(_) => 3
    case Function(_) => 4
    case _ => 0
  }

  lemma OrOfFlagIsSum(flag: bv32)
    requires flag <= 4
    ensures 0x7FF8_0000 as bv32 | flag == 0x7FF8_0000 as bv32 + flag
  {
  }

  lemma FlagBitsAreFlag(v: JsValue)
    ensures FlagBits(v) as int == TypeFlag(v)
    ensures (0x7FF8_0000 as bv32 + FlagBits(v)) as int == NAN_HEAD + TypeFlag(v)
  {
    match v
    case Object(_) =>
    case Text(_) =>
    case Symbol(_) =>
    case Function(_) =>
    case _ =>
  }

  /** The high half of a handle word, as the glue combines it from the NaN head and the flag. */
  function HandleHead(v: JsValue): (r: u32)
    ensures forall id: nat :: r == HandleWord(id, v).hi
  {
    OrOfFlagIsSum(FlagBits(v));
    FlagBitsAreFlag(v);
    (0x7FF8_0000 as bv32 | FlagBits(v)) as int
  }

  // ---- The table ---------------------------------------------------------------------------------

  datatype Count = Infinite | Finite(n: int)

  datatype Table = Table(
    values: seq<JsValue>,
    counts: seq<Count>,
    ids: map<JsValue, nat>,
    pool: seq<nat>)

  const RESERVED: nat := 7

  /** What the first slots hold, for ever. */
  function ReservedValue(id: nat): JsValue
    requires id < RESERVED
  {
    if id == 0 then NotANumber
    else if id == 1 then Number(POSITIVE_ZERO)
    else if id == 2 then Null
    else if id == 3 then Boolean(true)
    else if id == 4 then Boolean(false)
    else if id == 5 then GLOBAL_THIS
    else GO
  }

  const RESERVED_KEYS: set<JsValue> :=
    {Number(POSITIVE_ZERO), Null, Boolean(true), Boolean(false), GLOBAL_THIS, GO}

  const INITIAL_TABLE := Table(
    [NotANumber, Number(POSITIVE_ZERO), Null, Boolean(true), Boolean(false), GLOBAL_THIS, GO],
    [Infinite, Infinite, Infinite, Infinite, Infinite, Infinite, Infinite],
    map[Number(POSITIVE_ZERO) := 1, Null := 2, Boolean(true) := 3, Boolean(false) := 4,
        GLOBAL_THIS := 5, GO := 6],
    [])

  /** A slot with references to it. */
  predicate InUse(c: Count) {
    c.Infinite? || 0 < c.n
  }

  /** Slots that `ids` names: the reserved ones, and those in use above them. */
  predicate Live(t: Table, id: int) {
    1 <= id < |t.values| == |t.counts| && InUse(t.counts[id])
  }

  ghost predicate ReservedSlots(t: Table) {
    && RESERVED <= |t.values| == |t.counts|
    && (forall i :: 0 <= i < RESERVED ==> t.values[i] == ReservedValue(i))
    && (forall i :: 0 <= i < RESERVED ==> t.counts[i] == Infinite)
  }

  /** The pool lists each freed slot once: exactly the slots above the reserved ones that are not in use,
      and these hold null. */
  ghost predicate PoolSlots(t: Table)
    requires |t.values| == |t.counts|
  {
    && (forall i, j :: 0 <= i < j < |t.pool| ==> t.pool[i] != t.pool[j])
    && (forall id :: id in t.pool ==> RESERVED <= id < |t.values| && t.values[id] == Null)
    && (forall id :: RESERVED <= id < |t.values| ==>
          t.counts[id].Finite? && (id in t.pool <==> !InUse(t.counts[id])))
  }

  /** `values` and `ids` are mutually inverse on the live slots. */
  ghost predicate Inverse(t: Table) {
    && |t.values| == |t.counts|
    && (forall id {:trigger Live(t, id)} :: Live(t, id) ==>
          t.values[id] in t.ids && t.ids[t.values[id]] == id)
    && (forall k :: k in t.ids ==>
          && 1 <= t.ids[k] < |t.values| && InUse(t.counts[t.ids[k]])
          && t.values[t.ids[k]] == k && IsHandleValue(k) && MapKey(k) == k)
  }

  ghost predicate Valid(t: Table) {
    && ReservedSlots(t)
    && PoolSlots(t)
    && Inverse(t)
    && |t.ids| + |t.pool| + 1 == |t.values|
  }

  function SetAt<T>(s: seq<T>, i: nat, x: T): seq<T>
    requires i <= |s|
  {
    if i == |s| then s + [x] else s[i := x]
  }

  function Adjust(c: Count, delta: int): Count {
    match c
    case Infinite => Infinite
    case Finite(n) => Finite(n + delta)
  }

  /** The slot a value gets when the table does not know it: the last freed one, or a new one. */
  function NextSlot(t: Table): (id: nat)
    requires ReservedSlots(t) && PoolSlots(t)
    ensures RESERVED <= id <= |t.values| && !Live(t, id)
  {
    if t.pool == [] then |t.values|
    else
      assert t.pool[|t.pool| - 1] in t.pool;
      t.pool[|t.pool| - 1]
  }

  function Allocate(t: Table, v: JsValue): Table
    requires Valid(t)
  {
    var id := NextSlot(t);
    var pool := if t.pool == [] then [] else t.pool[..|t.pool| - 1];
    Table(SetAt(t.values, id, v), SetAt(t.counts, id, Finite(0)), t.ids[MapKey(v) := id], pool)
  }

  /** The table after Go is handed one more reference to `v`, and the slot it names. */
  function Acquire(t: Table, v: JsValue): (Table, nat)
    requires Valid(t)
  {
    var known := MapKey(v) in t.ids;
    var id := if known then t.ids[MapKey(v)] else NextSlot(t);
    var t1 := if known then t else Allocate(t, v);
    (t1.(counts := t1.counts[id := Adjust(t1.counts[id], 1)]), id)
  }

  function Store(t: Table, v: JsValue): (Table, Word)
    requires Valid(t)
  {
    match v
    case NotANumber => (t, Word(NAN_HEAD, 0))
    case Number(w) =>
      if !IsZero(w) then (t, w) else var (t1, id) := Acquire(t, v); (t1, HandleWord(id, v))
    case Undefined => (t, Word(0, 0))
    case _ => var (t1, id) := Acquire(t, v); (t1, HandleWord(id, v))
  }

  function Load(t: Table, w: Word): JsValue {
    if IsZero(w) then Undefined
    else if !IsNaN(w) then Number(w)
    else if w.lo < |t.values| then t.values[w.lo]
    else Undefined
  }

  /** One reference to slot `id` is given back; the last one frees the slot. */
  function Finalize(t: Table, id: nat): Table
    requires id < |t.values| == |t.counts|
  {
    var c := Adjust(t.counts[id], -1);
    var t1 := t.(counts := t.counts[id := c]);
    if c == Finite(0) then
      Table(t1.values[id := Null], t1.counts, t1.ids - {t1.values[id]}, t1.pool + [id])
    else
      t1
  }

  // ---- The table invariant -----------------------------------------------------------------------

  lemma InitialTableSlots()
    ensures ReservedSlots(INITIAL_TABLE) && PoolSlots(INITIAL_TABLE)
    ensures INITIAL_TABLE.ids.Keys == RESERVED_KEYS && |RESERVED_KEYS| == 6
  {
    assert INITIAL_TABLE.ids.Keys == RESERVED_KEYS;
  }

  /** What the handles of the first seven slots load at the start, as the Go runtime expects it. */
  lemma PredeclaredValues()
    ensures INITIAL_TABLE.values
         == [NotANumber, Number(Word(0, 0)), Null, Boolean(true), Boolean(false), GLOBAL_THIS, GO]
    ensures forall id :: 0 <= id < 7 ==> ReservedValue(id) == INITIAL_TABLE.values[id]
    ensures INITIAL_TABLE.counts == seq(7, _ => Infinite)
  {
  }

  lemma InitialIds(id: nat)
    requires 1 <= id < RESERVED
    ensures var v := ReservedValue(id);
            v in INITIAL_TABLE.ids && INITIAL_TABLE.ids[v] == id && IsHandleValue(v) && MapKey(v) == v
  {
  }

  lemma ReservedKeyHasSlot(k: JsValue)
    requires k in RESERVED_KEYS
    ensures exists id :: 1 <= id < RESERVED && ReservedValue(id) == k
  {
    assert k == ReservedValue(1) || k == ReservedValue(2) || k == ReservedValue(3)
        || k == ReservedValue(4) || k == ReservedValue(5) || k == ReservedValue(6);
  }

  lemma InitialTableInverse()
    ensures Inverse(INITIAL_TABLE)
  {
    var t := INITIAL_TABLE;
    InitialTableSlots();
    forall id | Live(t, id)
      ensures t.values[id] in t.ids && t.ids[t.values[id]] == id
    {
      InitialIds(id);
    }
    forall k | k in t.ids
      ensures 1 <= t.ids[k] < |t.values| && InUse(t.counts[t.ids[k]])
      ensures t.values[t.ids[k]] == k && IsHandleValue(k) && MapKey(k) == k
    {
      ReservedKeyHasSlot(k);
      var id :| 1 <= id < RESERVED && ReservedValue(id) == k;
      InitialIds(id);
    }
  }

  lemma InitialTableValid()
    ensures Valid(INITIAL_TABLE)
  {
    InitialTableSlots();
    InitialTableInverse();
    assert |INITIAL_TABLE.ids| == |INITIAL_TABLE.ids.Keys|;
  }

  /** What one more reference to `v` changes: the slot it names, and no other. */
  ghost predicate Gained(t: Table, t1: Table, id: nat, v: JsValue) {
    && |t.values| == |t.counts| && |t1.values| == |t1.counts|
    && (|t1.values| == |t.values| || |t1.values| == |t.values| + 1 == id + 1)
    && 1 <= id < |t1.values| && t1.values[id] == MapKey(v)
    && (forall k :: 0 <= k < |t.values| && k != id ==>
          t1.values[k] == t.values[k] && t1.counts[k] == t.counts[k])
    && t1.counts[id] == (if Live(t, id) then Adjust(t.counts[id], 1) else Finite(1))
    && (Live(t, id) ==> t.values[id] == MapKey(v))
    && t1.ids.Keys == t.ids.Keys + {MapKey(v)}
  }

  /** What giving one reference back changes: the count of its slot, and with the last reference what
      the slot holds. */
  ghost predicate Returned(t: Table, t1: Table, id: nat) {
    && |t.values| == |t.counts| == |t1.values| == |t1.counts|
    && Live(t, id) && t1.counts[id] == Adjust(t.counts[id], -1)
    && (forall k :: 0 <= k < |t.values| && k != id ==>
          t1.values[k] == t.values[k] && t1.counts[k] == t.counts[k])
    && t1.values[id] == (if t.counts[id] == Finite(1) then Null else t.values[id])
    && t1.ids.Keys == t.ids.Keys - (if t.counts[id] == Finite(1) then {t.values[id]} else {})
  }

  lemma UnknownIsNotReserved(t: Table, v: JsValue)
    requires Valid(t) && IsHandleValue(v) && MapKey(v) !in t.ids
    ensures MapKey(v) == v
  {
    assert Live(t, 1);
  }

  /** The inverse depends on the counts only through which slots are in use. */
  lemma InverseOfSameSlots(t: Table, t1: Table)
    requires Inverse(t) && t1.values == t.values && t1.ids == t.ids && |t1.counts| == |t.counts|
    requires forall k :: 0 <= k < |t.counts| ==> (InUse(t1.counts[k]) <==> InUse(t.counts[k]))
    ensures Inverse(t1)
  {
    assert forall k :: Live(t1, k) ==> Live(t, k);
  }

  lemma AcquireKnown(t: Table, v: JsValue)
    requires Valid(t) && IsHandleValue(v) && MapKey(v) in t.ids
    ensures Valid(Acquire(t, v).0) && Gained(t, Acquire(t, v).0, Acquire(t, v).1, v)
  {
    var t1 := Acquire(t, v).0;
    assert t1.values == t.values && t1.ids == t.ids;
    InverseOfSameSlots(t, t1);
  }

  lemma AcquireUnknownGained(t: Table, v: JsValue)
    requires Valid(t) && IsHandleValue(v) && MapKey(v) !in t.ids
    ensures Gained(t, Acquire(t, v).0, Acquire(t, v).1, v)
  {
    UnknownIsNotReserved(t, v);
  }

  lemma AcquireUnknownPool(t: Table, v: JsValue)
    requires Valid(t) && IsHandleValue(v) && MapKey(v) !in t.ids
    ensures PoolSlots(Acquire(t, v).0)
    ensures var t1 := Acquire(t, v).0; |t1.ids| + |t1.pool| + 1 == |t1.values|
  {
    var (t1, id) := Acquire(t, v);
    assert |t1.ids| == |t.ids| + 1;
    if t.pool != [] {
      assert t.pool == t1.pool + [id];
      assert id in t.pool;
      assert forall k :: k in t.pool <==> k in t1.pool || k == id;
    }
  }

  /** A slot given to a new key leaves the rest of the inverse as it was. */
  lemma GainedKeepsInverse(t: Table, t1: Table, id: nat, v: JsValue)
    requires Inverse(t) && Gained(t, t1, id, v) && !Live(t, id)
    requires IsHandleValue(v) && MapKey(v) == v && v !in t.ids && t1.ids == t.ids[v := id]
    ensures Inverse(t1)
  {
    forall k | Live(t1, k)
      ensures t1.values[k] in t1.ids && t1.ids[t1.values[k]] == k
    {
      assert k != id ==> Live(t, k);
    }
    forall k | k in t1.ids
      ensures 1 <= t1.ids[k] < |t1.values| && InUse(t1.counts[t1.ids[k]])
      ensures t1.values[t1.ids[k]] == k && IsHandleValue(k) && MapKey(k) == k
    {
      if k != v { assert k in t.ids && Live(t, t.ids[k]); }
    }
  }

  lemma AcquireUnknownInverse(t: Table, v: JsValue)
    requires Valid(t) && IsHandleValue(v) && MapKey(v) !in t.ids
    ensures Inverse(Acquire(t, v).0)
  {
    UnknownIsNotReserved(t, v);
    AcquireUnknownGained(t, v);
    hide Inverse, Gained;
    GainedKeepsInverse(t, Acquire(t, v).0, Acquire(t, v).1, v);
  }

  lemma AcquireKeepsValid(t: Table, v: JsValue)
    requires Valid(t) && IsHandleValue(v)
    ensures Valid(Acquire(t, v).0) && Gained(t, Acquire(t, v).0, Acquire(t, v).1, v)
  {
    hide PoolSlots, Inverse, Gained;
    if MapKey(v) in t.ids {
      AcquireKnown(t, v);
    } else {
      AcquireUnknownGained(t, v);
      AcquireUnknownPool(t, v);
      AcquireUnknownInverse(t, v);
    }
  }

  lemma FinalizeNotLast(t: Table, id: nat)
    requires Valid(t) && Live(t, id) && t.counts[id] != Finite(1)
    ensures Valid(Finalize(t, id)) && Returned(t, Finalize(t, id), id)
  {
    hide Inverse;
    InverseOfSameSlots(t, Finalize(t, id));
  }

  lemma FinalizeLastSlots(t: Table, id: nat)
    requires Valid(t) && Live(t, id) && t.counts[id] == Finite(1)
    ensures var t1 := Finalize(t, id);
            ReservedSlots(t1) && PoolSlots(t1) && Returned(t, t1, id)
  {
    var t1 := Finalize(t, id);
    assert forall k :: k in t1.pool <==> k in t.pool || k == id;
  }

  lemma FinalizeLastInverse(t: Table, id: nat)
    requires Valid(t) && Live(t, id) && t.counts[id] == Finite(1)
    ensures var t1 := Finalize(t, id);
            Inverse(t1) && |t1.ids| == |t.ids| - 1
  {
    var t1 := Finalize(t, id);
    assert t1.ids.Keys == t.ids.Keys - {t.values[id]};
    assert forall k :: Live(t1, k) ==> Live(t, k);
  }

  lemma FinalizeKeepsValid(t: Table, id: nat)
    requires Valid(t) && Live(t, id)
    ensures Valid(Finalize(t, id)) && Returned(t, Finalize(t, id), id)
  {
    if t.counts[id] == Finite(1) {
      hide PoolSlots, Inverse, ReservedSlots;
      FinalizeLastSlots(t, id);
      FinalizeLastInverse(t, id);
    } else {
      FinalizeNotLast(t, id);
    }
  }

  /** Finalizing a slot that is not in use, a freed one or the one that holds NaN, only lowers its count: the
      slot stays as it is, and is counted afresh when it is used again. */
  lemma FinalizeUnused(t: Table, id: nat)
    requires Valid(t) && id < |t.values| && !Live(t, id)
    ensures var t1 := Finalize(t, id);
            && Valid(t1)
            && t1 == t.(counts := t.counts[id := Adjust(t.counts[id], -1)])
            && (forall k :: Live(t1, k) <==> Live(t, k))
  {
    hide Inverse;
    InverseOfSameSlots(t, Finalize(t, id));
  }

  lemma FinalizeAnyKeepsValid(t: Table, id: nat)
    requires Valid(t) && id < |t.values|
    ensures Valid(Finalize(t, id))
  {
    if Live(t, id) {
      FinalizeKeepsValid(t, id);
    } else {
      FinalizeUnused(t, id);
    }
  }
}
