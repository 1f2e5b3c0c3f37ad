/**
 Whole runs of the reference table: any sequence of stores, and of finalizations of references that Go
 still holds. The references held are tracked beside the table and the two are tied together.
 */
module RefRuns {
  import opened Prelude
  import opened RefTable

  // ---- Encoding ----------------------------------------------------------------------------------

  /** A handle word is a NaN, so it is never mistaken for a number or for undefined; it names its slot as
      long as slots are numbered below 2^32, and its low bits tell the kinds that Go distinguishes. */
  lemma HandleWordIsNaN(id: nat, v: JsValue)
    ensures IsNaN(HandleWord(id, v)) && !IsZero(HandleWord(id, v))
    ensures id < TWO_32 ==> HandleWord(id, v).lo == id
    ensures var flag := HandleWord(id, v).hi % 8;
            && (v.Object? <==> flag == 1) && (v.Text? <==> flag == 2)
            && (v.Symbol? <==> flag == 3) && (v.Function? <==> flag == 4)
  {
  }

  lemma StoreHandleThenLoad(t: Table, v: JsValue)
    requires Valid(t) && |t.values| < TWO_32 && IsHandleValue(v)
    ensures var (t1, w) := Store(t, v); Load(t1, w) == MapKey(v)
  {
    AcquireKeepsValid(t, v);
    hide Valid, Acquire;
    HandleWordIsNaN(Acquire(t, v).1, v);
  }

  lemma StoreOtherThenLoad(t: Table, v: JsValue)
    requires Valid(t) && !IsHandleValue(v)
    ensures var (t1, w) := Store(t, v); Load(t1, w) == v == MapKey(v)
  {
    assert t.values[0] == ReservedValue(0);
  }

  /** Reading back a stored value gives it back, for every kind of value, except that a negative zero
      comes back as a positive one. */
  lemma StoreThenLoad(t: Table, v: JsValue)
    requires Valid(t) && |t.values| < TWO_32
    ensures var (t1, w) := Store(t, v); Load(t1, w) == MapKey(v)
    ensures var (t1, w) := Store(t, v); Load(t1, w) == v <==> v != Number(NEGATIVE_ZERO)
  {
    hide Valid, Store, Load;
    if IsHandleValue(v) {
      StoreHandleThenLoad(t, v);
    } else {
      StoreOtherThenLoad(t, v);
    }
  }

  lemma ReservedKeyKeepsSlot(t: Table, k: JsValue)
    requires Valid(t) && k in RESERVED_KEYS
    ensures k in t.ids && t.ids[k] < RESERVED && ReservedValue(t.ids[k]) == k
  {
    ReservedKeyHasSlot(k);
    var id :| 1 <= id < RESERVED && ReservedValue(id) == k;
    assert Live(t, id) && t.values[id] == k;
  }

  /** The word that stands for each kind of value: the two words that are not handles, a number that is not zero as
      it is, and for all others the NaN head with the type flag, and the slot, which is fixed for the reserved
      values. */
  lemma StoredWord(t: Table, v: JsValue)
    requires Valid(t)
    ensures var w := Store(t, v).1;
            match v
            case Undefined => w == Word(0, 0)
            case NotANumber => w == Word(0x7FF8_0000, 0)
            case Number(n) =>
              if n == Word(0, 0) || n == Word(0x8000_0000, 0) then w == Word(0x7FF8_0000, 1) else w == n
            case Null => w == Word(0x7FF8_0000, 2)
            case Boolean(b) => w == Word(0x7FF8_0000, if b then 3 else 4)
            case BigInt(_) => w.hi == 0x7FF8_0000
            case Object(_) => w.hi == 0x7FF8_0001 && (v == GLOBAL_THIS ==> w.lo == 5) && (v == GO ==> w.lo == 6)
            case Text(_) => w.hi == 0x7FF8_0002
            case Symbol(_) => w.hi == 0x7FF8_0003
            case Function(_) => w.hi == 0x7FF8_0004
  {
    if MapKey(v) in RESERVED_KEYS {
      ReservedKeyKeepsSlot(t, MapKey(v));
    }
    hide Valid;
  }

  /** The size of a word as a binary64 number, without its sign, in the order of the numbers. */
  function Magnitude(w: Word): nat {
    w.hi % 0x8000_0000 * 0x1_0000_0000 + w.lo
  }

  /** What each word loads: zero is undefined, up to infinity it is the number itself, and above that the low half is
      a slot number. */
  lemma LoadOfWord(t: Table, w: Word)
    ensures var size, r := Magnitude(w), Load(t, w);
            if size == 0 then r == Undefined
            else if size <= 0x7FF0_0000_0000_0000 then r.Number? && r.bits == w
            else r == if w.lo < |t.values| then t.values[w.lo] else Undefined
  {
  }

  /** A slot that has just been freed is the first to be used again. */
  lemma FreedSlotIsNext(t: Table, id: nat, v: JsValue)
    requires Valid(t) && Live(t, id) && t.counts[id] == Finite(1)
    requires IsHandleValue(v) && MapKey(v) !in Finalize(t, id).ids
    ensures Valid(Finalize(t, id)) && Acquire(Finalize(t, id), v).1 == id
  {
    FinalizeKeepsValid(t, id);
    var pool := Finalize(t, id).pool;
    assert pool == t.pool + [id];
    hide Finalize, Inverse, ReservedSlots, PoolSlots, MapKey, Live, IsHandleValue;
    assert pool != [] && pool[|pool| - 1] == id;
  }

  // ---- References held beside the table ------------------------------------------------------------

  /** One reference handed to Go: the slot it names and the value it was stored from. */
  datatype Ref = Ref(id: nat, v: JsValue)

  /** `peak` is the largest number of distinct values, other than the reserved ones, that Go has held
      references to at one time. */
  datatype Session = Session(table: Table, held: multiset<Ref>, peak: nat)

  datatype Op = StoreOp(v: JsValue) | FinalizeOp(id: nat)

  ghost function Distinct(held: multiset<Ref>): set<JsValue> {
    set r | r in held && r.v !in RESERVED_KEYS :: r.v
  }

  const NEW_SESSION := Session(INITIAL_TABLE, multiset{}, 0)

  ghost predicate CountsExact(t: Table, held: multiset<Ref>) {
    && (forall r :: r in held ==> Live(t, r.id) && t.values[r.id] == r.v)
    && |t.values| == |t.counts|
    && (forall id :: RESERVED <= id < |t.values| ==>
          t.counts[id] == Finite(held[Ref(id, t.values[id])]))
  }

  ghost predicate Inv(s: Session) {
    && Valid(s.table)
    && CountsExact(s.table, s.held)
    && Distinct(s.held) == s.table.ids.Keys - RESERVED_KEYS
    && |s.table.values| == RESERVED + s.peak
  }

  ghost function WithHeld(s: Session, t: Table, held: multiset<Ref>): Session {
    Session(t, held, Max(s.peak, |Distinct(held)|))
  }

  // ---- Each step keeps the invariant ---------------------------------------------------------------

  lemma ReservedValueIsKey(id: nat)
    requires 1 <= id < RESERVED
    ensures ReservedValue(id) in RESERVED_KEYS
  {
  }

  lemma ReservedKeysKnown(t: Table)
    requires Valid(t)
    ensures RESERVED_KEYS <= t.ids.Keys && |RESERVED_KEYS| == 6
    ensures forall id :: Live(t, id) && id < RESERVED ==> t.values[id] in RESERVED_KEYS
  {
    InitialTableSlots();
    forall id | 1 <= id < RESERVED
      ensures ReservedValue(id) in t.ids && t.values[id] == ReservedValue(id)
      ensures ReservedValue(id) in RESERVED_KEYS
    {
      assert Live(t, id);
      ReservedValueIsKey(id);
    }
    forall k | k in RESERVED_KEYS
      ensures k in t.ids
    {
      ReservedKeyHasSlot(k);
    }
  }

  /** As many values are held as there are slots above the reserved ones that are not pooled. */
  lemma DistinctCount(t: Table, held: multiset<Ref>)
    requires Valid(t) && Distinct(held) == t.ids.Keys - RESERVED_KEYS
    ensures |Distinct(held)| == |t.values| - RESERVED - |t.pool|
  {
    ReservedKeysKnown(t);
    assert |t.ids.Keys - RESERVED_KEYS| == |t.ids.Keys| - 6;
  }

  lemma GainedKeepsCounts(t: Table, t1: Table, id: nat, v: JsValue, held: multiset<Ref>)
    requires ReservedSlots(t) && CountsExact(t, held) && Gained(t, t1, id, v)
    ensures CountsExact(t1, held + multiset{Ref(id, MapKey(v))})
  {
    if !Live(t, id) {
      assert Ref(id, MapKey(v)) !in held;
    }
    assert forall r :: r in held + multiset{Ref(id, MapKey(v))} ==> r in held || r == Ref(id, MapKey(v));
  }

  lemma GainedKeepsDistinct(t: Table, t1: Table, id: nat, v: JsValue, held: multiset<Ref>)
    requires Distinct(held) == t.ids.Keys - RESERVED_KEYS && Gained(t, t1, id, v)
    ensures Distinct(held + multiset{Ref(id, MapKey(v))}) == t1.ids.Keys - RESERVED_KEYS
  {
    var ref := Ref(id, MapKey(v));
    var held1 := held + multiset{ref};
    assert ref in held1;
    assert forall r :: r in held1 <==> r in held || r == ref;
    assert Distinct(held1) == Distinct(held) + ({ref.v} - RESERVED_KEYS);
  }

  lemma StoreKeepsInv(s: Session, v: JsValue)
    requires Inv(s) && IsHandleValue(v)
    ensures var (t1, id) := Acquire(s.table, v);
            Inv(WithHeld(s, t1, s.held + multiset{Ref(id, MapKey(v))}))
  {
    AcquireKeepsValid(s.table, v);
    var (t1, id) := Acquire(s.table, v);
    GainedKeepsCounts(s.table, t1, id, v, s.held);
    GainedKeepsDistinct(s.table, t1, id, v, s.held);
    DistinctCount(s.table, s.held);
    DistinctCount(t1, s.held + multiset{Ref(id, MapKey(v))});
  }

  lemma ReturnedKeepsCounts(t: Table, t1: Table, ref: Ref, held: multiset<Ref>)
    requires CountsExact(t, held) && Returned(t, t1, ref.id) && ref in held
    requires t.counts[ref.id] == Finite(1) ==> RESERVED <= ref.id
    ensures CountsExact(t1, held - multiset{ref})
  {
    var held1 := held - multiset{ref};
    forall r | r in held1
      ensures Live(t1, r.id) && t1.values[r.id] == r.v
    {
      assert r in held;
    }
  }

  lemma ReturnedKeepsDistinct(t: Table, t1: Table, ref: Ref, held: multiset<Ref>)
    requires CountsExact(t, held) && Returned(t, t1, ref.id) && ref in held
    requires forall r :: r in held && r.v == ref.v ==> r == ref
    requires ref.id < RESERVED ==> ref.v in RESERVED_KEYS && t.counts[ref.id] == Infinite
    requires Distinct(held) == t.ids.Keys - RESERVED_KEYS
    ensures Distinct(held - multiset{ref}) == t1.ids.Keys - RESERVED_KEYS
  {
    var held1 := held - multiset{ref};
    assert forall r :: r in held1 ==> r in held;
    assert forall r :: r in held && r != ref ==> r in held1;
    if t.counts[ref.id] == Finite(1) {
      assert ref !in held1;
      assert Distinct(held1) == Distinct(held) - {ref.v};
    } else {
      assert RESERVED <= ref.id ==> ref in held1;
      assert Distinct(held1) == Distinct(held);
    }
  }

  /** References name the same slot exactly when they were stored from the same value. */
  lemma NoAliasing(t: Table, held: multiset<Ref>, q: Ref, r: Ref)
    requires Inverse(t) && CountsExact(t, held) && q in held && r in held
    ensures q.id == r.id <==> q.v == r.v
  {
    assert t.ids[q.v] == q.id && t.ids[r.v] == r.id;
  }

  lemma FinalizeKeepsTies(s: Session, id: nat)
    requires Inv(s) && id < |s.table.values| && Ref(id, s.table.values[id]) in s.held
    requires Valid(Finalize(s.table, id)) && Returned(s.table, Finalize(s.table, id), id)
    ensures var t1, held1 := Finalize(s.table, id), s.held - multiset{Ref(id, s.table.values[id])};
            CountsExact(t1, held1) && Distinct(held1) == t1.ids.Keys - RESERVED_KEYS
  {
    var t, ref := s.table, Ref(id, s.table.values[id]);
    var t1 := Finalize(t, id);
    ReservedKeysKnown(t);
    forall r | r in s.held && r.v == ref.v
      ensures r == ref
    {
      NoAliasing(t, s.held, r, ref);
    }
    hide Inverse, PoolSlots, Returned, Finalize;
    ReturnedKeepsCounts(t, t1, ref, s.held);
    ReturnedKeepsDistinct(t, t1, ref, s.held);
  }

  lemma FinalizeKeepsInv(s: Session, id: nat)
    requires Inv(s) && id < |s.table.values| && Ref(id, s.table.values[id]) in s.held
    ensures Inv(WithHeld(s, Finalize(s.table, id), s.held - multiset{Ref(id, s.table.values[id])}))
  {
    FinalizeKeepsValid(s.table, id);
    FinalizeKeepsTies(s, id);
    DistinctCount(s.table, s.held);
    DistinctCount(Finalize(s.table, id), s.held - multiset{Ref(id, s.table.values[id])});
  }

  // ---- Steps and runs ------------------------------------------------------------------------------

  /** One step of a run; a finalization is possible only of a reference that Go holds. */
  ghost function Next(s: Session, op: Op): (r: Option<Session>)
    requires Inv(s)
    ensures r.Some? ==> Inv(r.value)
  {
    match op
    case StoreOp(v) =>
      if !IsHandleValue(v) then Some(s)
      else
        StoreKeepsInv(s, v);
        var (t1, id) := Acquire(s.table, v);
        Some(WithHeld(s, t1, s.held + multiset{Ref(id, MapKey(v))}))
    case FinalizeOp(id) =>
      if id < |s.table.values| && Ref(id, s.table.values[id]) in s.held then
        FinalizeKeepsInv(s, id);
        Some(WithHeld(s, Finalize(s.table, id), s.held - multiset{Ref(id, s.table.values[id])}))
      else None
  }

  ghost function Run(s: Session, ops: seq<Op>): (r: Option<Session>)
    requires Inv(s)
    ensures r.Some? ==> Inv(r.value)
    decreases |ops|
  {
    if ops == [] then Some(s)
    else
      var next := Next(s, ops[0]);
      if next.None? then None else Run(next.value, ops[1..])
  }

  lemma NewSessionInv()
    ensures Inv(NEW_SESSION)
  {
    InitialTableValid();
    InitialTableSlots();
    assert Distinct(multiset{}) == {};
  }

  /** The state after a run from the start of the program. */
  ghost function FromStart(ops: seq<Op>): (r: Option<Session>)
    ensures r.Some? ==> Inv(r.value)
  {
    NewSessionInv();
    Run(NEW_SESSION, ops)
  }

  // ---- What every run guarantees -------------------------------------------------------------------

  function FinalizeCount(ops: seq<Op>, id: nat): nat {
    if ops == [] then 0 else (if ops[0] == FinalizeOp(id) then 1 else 0) + FinalizeCount(ops[1..], id)
  }

  lemma ReferenceRemains(s: Session, op: Op, r: Ref)
    requires Inv(s) && Next(s, op).Some?
    ensures Next(s, op).value.held[r] + (if op == FinalizeOp(r.id) then 1 else 0) >= s.held[r]
  {
    hide Valid, CountsExact;
  }

  /** Only a finalization of its own slot takes a reference away. */
  lemma {:induction false} ReferencesRemain(s: Session, ops: seq<Op>, r: Ref)
    requires Inv(s) && Run(s, ops).Some?
    ensures Run(s, ops).value.held[r] + FinalizeCount(ops, r.id) >= s.held[r]
    decreases |ops|
  {
    hide Inv, Next;
    if ops != [] {
      ReferenceRemains(s, ops[0], r);
      ReferencesRemain(Next(s, ops[0]).value, ops[1..], r);
    }
  }

  /** A handle word loads a value, other than a reserved one, exactly while Go holds a reference to it: a
      word that is not held any more loads something else. */
  lemma LoadsIffHeld(s: Session, id: nat, v: JsValue)
    requires Inv(s) && id < TWO_32
    requires IsHandleValue(v) && MapKey(v) == v && v !in RESERVED_KEYS
    ensures Load(s.table, HandleWord(id, v)) == v <==> Ref(id, v) in s.held
  {
    HandleWordIsNaN(id, v);
    if id < RESERVED { assert id == 0 || ReservedValue(id) in RESERVED_KEYS; }
  }

  lemma ZeroIsReserved(v: JsValue)
    requires MapKey(v) !in RESERVED_KEYS
    ensures MapKey(v) == v
  {
  }

  /** Whatever is stored and finalized after a store, the word it wrote loads back its value exactly while Go
      holds a reference to that slot and value; for a reserved value it always does. */
  lemma StoredWordLoads(s: Session, v: JsValue, ops: seq<Op>)
    requires Inv(s) && IsHandleValue(v) && Acquire(s.table, v).1 < TWO_32
    requires Run(Next(s, StoreOp(v)).value, ops).Some?
    ensures var s2 := Run(Next(s, StoreOp(v)).value, ops).value;
            (Load(s2.table, Store(s.table, v).1) == MapKey(v)
             <==> MapKey(v) in RESERVED_KEYS || Ref(Acquire(s.table, v).1, MapKey(v)) in s2.held)
  {
    var s2 := Run(Next(s, StoreOp(v)).value, ops).value;
    var id := Acquire(s.table, v).1;
    HandleWordIsNaN(id, v);
    if MapKey(v) in RESERVED_KEYS {
      ReservedKeyKeepsSlot(s.table, MapKey(v));
      assert s2.table.values[id] == ReservedValue(id);
    } else {
      ZeroIsReserved(v);
      hide Inv, Next, Run, Load, Acquire;
      LoadsIffHeld(s2, id, v);
    }
  }

  /** Every reference that Go holds loads the value it was stored from. */
  ghost predicate HeldReferencesLoad(s: Session) {
    forall r :: r in s.held && r.id < TWO_32 ==> Load(s.table, HandleWord(r.id, r.v)) == r.v
  }

  /** The slots above the reserved ones are split exactly into those that some reference names and the
      pooled ones. */
  ghost predicate SlotsSplit(s: Session) {
    forall id :: RESERVED <= id < |s.table.values| ==>
      (id in s.table.pool <==> forall r :: r in s.held ==> r.id != id)
  }

  /** A slot's count is the number of references held to it, for ever infinite for the reserved slots, which
      keep their values. */
  ghost predicate CountsAreReferences(s: Session)
    requires |s.table.counts| == |s.table.values|
  {
    forall id :: 0 <= id < |s.table.values| ==>
      if id < RESERVED then s.table.values[id] == ReservedValue(id) && s.table.counts[id] == Infinite
      else s.table.counts[id] == Finite(s.held[Ref(id, s.table.values[id])])
  }

  /** References name the same slot exactly when they were stored from the same value. */
  ghost predicate OneSlotPerValue(s: Session) {
    forall q, r :: q in s.held && r in s.held ==> (q.id == r.id <==> q.v == r.v)
  }

  /** The table is as long as the reserved slots plus the most values held at one time, and those not held
      now make up the pool. */
  ghost predicate NoSlotWasted(s: Session) {
    && |s.table.values| == RESERVED + s.peak
    && |s.table.pool| == s.peak - |Distinct(s.held)|
  }

  lemma InvMeansLoads(s: Session)
    requires Inv(s)
    ensures HeldReferencesLoad(s)
  {
    forall r | r in s.held && r.id < TWO_32
      ensures Load(s.table, HandleWord(r.id, r.v)) == r.v
    {
      HandleWordIsNaN(r.id, r.v);
    }
  }

  lemma InvMeansSplit(s: Session)
    requires Inv(s)
    ensures SlotsSplit(s)
  {
    forall id | RESERVED <= id < |s.table.values|
      ensures id in s.table.pool <==> forall r :: r in s.held ==> r.id != id
    {
      if id !in s.table.pool { assert Ref(id, s.table.values[id]) in s.held; }
    }
  }

  lemma InvMeansOneSlot(s: Session)
    requires Inv(s)
    ensures OneSlotPerValue(s)
  {
    forall q, r | q in s.held && r in s.held
      ensures q.id == r.id <==> q.v == r.v
    {
      NoAliasing(s.table, s.held, q, r);
    }
  }

  lemma InvMeansCounts(s: Session)
    requires Inv(s)
    ensures |s.table.counts| == |s.table.values| && CountsAreReferences(s)
  {
    hide Inverse, PoolSlots, Distinct;
  }

  lemma InvMeansNoneWasted(s: Session)
    requires Inv(s)
    ensures NoSlotWasted(s)
  {
    DistinctCount(s.table, s.held);
    hide Valid, CountsExact;
  }

  lemma InvGuarantees(s: Session)
    requires Inv(s)
    ensures |s.table.counts| == |s.table.values|
    ensures HeldReferencesLoad(s) && SlotsSplit(s) && CountsAreReferences(s)
    ensures OneSlotPerValue(s) && NoSlotWasted(s)
  {
    hide Inv, HeldReferencesLoad, SlotsSplit, CountsAreReferences, OneSlotPerValue, NoSlotWasted;
    InvMeansLoads(s);
    InvMeansSplit(s);
    InvMeansOneSlot(s);
    InvMeansCounts(s);
    InvMeansNoneWasted(s);
  }

  /** All of this holds in every state of every run. */
  lemma EveryRun(ops: seq<Op>)
    ensures FromStart(ops).Some? ==>
              var s := FromStart(ops).value;
              && |s.table.counts| == |s.table.values|
              && HeldReferencesLoad(s) && SlotsSplit(s) && CountsAreReferences(s)
              && OneSlotPerValue(s) && NoSlotWasted(s)
  {
    hide FromStart, Inv, HeldReferencesLoad, SlotsSplit, CountsAreReferences, OneSlotPerValue, NoSlotWasted;
    if FromStart(ops).Some? {
      InvGuarantees(FromStart(ops).value);
    }
  }

  /** A store step is the store of the table, and takes no reference away. */
  lemma StoreStep(s: Session, v: JsValue)
    requires Inv(s)
    ensures Next(s, StoreOp(v)).Some? && Next(s, StoreOp(v)).value.table == Store(s.table, v).0
    ensures forall r :: r in s.held ==> r in Next(s, StoreOp(v)).value.held
  {
    hide Acquire, Valid, CountsExact;
  }

  /** A value that is still referenced is stored again without touching any slot but its count. */
  lemma StoringAgain(s: Session, r: Ref)
    requires Inv(s) && r in s.held
    ensures var (t1, id) := Acquire(s.table, r.v);
            id == r.id && t1.values == s.table.values && t1.ids == s.table.ids && t1.pool == s.table.pool
  {
    assert Live(s.table, r.id);
  }
}
