/**
 The object that holds the reference table and the view of WebAssembly memory, with the operations the
 Go runtime imports: storing and loading values and 64-bit integers, and finalizing a reference.
 */
module GoBridge {
  import opened Prelude
  import opened LinearMemory
  import opened RefRuns
  import opened RefTable

  function WordAt(m: Bytes, addr: nat): Word
    requires addr + 8 <= |m|
  {
    Word(U32At(m, addr + 4), U32At(m, addr))
  }

  /** Memory with a word written at `addr`: it reads back, and every other byte is as before. */
  function PutWord(m: Bytes, addr: nat, w: Word): (r: Bytes)
    requires addr + 8 <= |m|
    ensures |r| == |m|
    ensures WordAt(r, addr) == w
    ensures forall i :: 0 <= i < addr || addr + 8 <= i < |m| ==> r[i] == m[i]
  {
    PutU32(PutU32(m, addr + 4, w.hi), addr, w.lo)
  }

  /** The order of the two halves does not matter. */
  lemma PutWordLowFirst(m: Bytes, addr: nat, w: Word)
    requires addr + 8 <= |m|
    ensures PutWord(m, addr, w) == PutU32(PutU32(m, addr, w.lo), addr + 4, w.hi)
  {
    var a, b := PutWord(m, addr, w), PutU32(PutU32(m, addr, w.lo), addr + 4, w.hi);
    forall i | 0 <= i < |m|
      ensures a[i] == b[i]
    {
      if addr <= i < addr + 4 {
        assert LittleEndian(w.lo)[i - addr] == a[i] == b[i];
      } else if addr + 4 <= i < addr + 8 {
        assert LittleEndian(w.hi)[i - addr - 4] == a[i] == b[i];
      }
    }
  }

  /** A word that was not written over is still there. */
  lemma OtherWordsKept(m: Bytes, addr: nat, w: Word, other: nat)
    requires addr + 8 <= |m| && other + 8 <= |m|
    requires other + 8 <= addr || addr + 8 <= other
    ensures WordAt(PutWord(m, addr, w), other) == WordAt(m, other)
  {
  }

  /** A held word in memory still loads its value after any value has been stored elsewhere. */
  lemma HeldWordSurvivesStore(s: Session, v: JsValue, m: Bytes, addr: nat, r: Ref, other: nat)
    requires Inv(s) && r in s.held && r.id < TWO_32
    requires addr + 8 <= |m| && other + 8 <= |m| && (other + 8 <= addr || addr + 8 <= other)
    requires WordAt(m, other) == HandleWord(r.id, r.v)
    ensures var (t1, w) := Store(s.table, v);
            Load(t1, WordAt(PutWord(m, addr, w), other)) == r.v
  {
    hide Valid, CountsExact, Next, Store, Load, WordAt, HandleWord;
    StoreStep(s, v);
    OtherWordsKept(m, addr, Store(s.table, v).1, other);
    InvMeansLoads(Next(s, StoreOp(v)).value);
  }

  lemma ModuloHalves(v: int)
    ensures v % 0x1_0000_0000_0000_0000 == v % TWO_32 + 0x1_0000_0000 * (v / TWO_32 % TWO_32)
  {
    var q := v / TWO_32;
    assert v == 0x1_0000_0000_0000_0000 * (q / TWO_32) + 0x1_0000_0000 * (q % TWO_32) + v % TWO_32;
  }

  /** What setInt64 writes of an integer: the number modulo 2^64, the lowest byte first. */
  lemma Int64Bytes(m: Bytes, addr: nat, v: int)
    requires addr + 8 <= |m|
    ensures var r := PutWord(m, addr, Word(HighWord(Real(v as real)), LowWord(Real(v as real))));
            v % 0x1_0000_0000_0000_0000
              == r[addr] as int + 0x100 * r[addr + 1] as int
                 + 0x1_0000 * r[addr + 2] as int + 0x100_0000 * r[addr + 3] as int
                 + 0x1_0000_0000 * r[addr + 4] as int + 0x100_0000_0000 * r[addr + 5] as int
                 + 0x1_0000_0000_0000 * r[addr + 6] as int + 0x100_0000_0000_0000 * r[addr + 7] as int
  {
    var w := Word(HighWord(Real(v as real)), LowWord(Real(v as real)));
    FloorOfScaledInteger(v);
    TruncOfInteger(v);
    TruncOfInteger(v / TWO_32);
    assert w == Word(v / TWO_32 % TWO_32, v % TWO_32);
    hide HighWord, LowWord;
    PutU32Bytes(m, addr + 4, w.hi);
    PutU32Bytes(PutU32(m, addr + 4, w.hi), addr, w.lo);
    hide PutU32;
    ModuloHalves(v);
  }

  class Go {
    const mem: array<u8>
    var values: seq<JsValue>
    var goRefCounts: seq<Count>
    var ids: map<JsValue, nat>
    var idPool: seq<nat>

    function Table(): Table
      reads this
    {
      RefTable.Table(values, goRefCounts, ids, idPool)
    }

    ghost predicate Valid()
      reads this
    {
      RefTable.Valid(Table())
    }

    constructor (memory: array<u8>)
      ensures Valid() && mem == memory && Table() == INITIAL_TABLE
    {
      mem := memory;
      values := [NotANumber, Number(POSITIVE_ZERO), Null, Boolean(true), Boolean(false), GLOBAL_THIS, GO];
      goRefCounts := INITIAL_TABLE.counts;
      ids := INITIAL_TABLE.ids;
      idPool := [];
      new;
      InitialTableValid();
    }

    /** Writes both halves of a word, or fails before writing when it does not fit. */
    method SetWord(addr: nat, w: Word) returns (ok: bool)
      modifies mem
      ensures ok == (addr + 8 <= mem.Length)
      ensures mem[..] == if ok then PutWord(old(mem[..]), addr, w) else old(mem[..])
    {
      ok := addr + 8 <= mem.Length;
      if ok {
        SetUint32(mem, addr + 4, w.hi);
        SetUint32(mem, addr, w.lo);
      }
    }

    /** Finds or allocates the slot for `v` and counts one more reference to it. */
    method AcquireSlot(v: JsValue) returns (id: nat)
      requires Valid() && IsHandleValue(v)
      modifies this
      ensures Valid()
      ensures (Table(), id) == Acquire(old(Table()), v)
    {
      hide Inverse, IsHandleValue;
      ghost var t := Table();
      AcquireKeepsValid(t, v);
      var key := MapKey(v);
      if key in ids {
        id := ids[key];
      } else {
        if idPool != [] {
          id := idPool[|idPool| - 1];
          assert id == NextSlot(t);
          idPool := idPool[..|idPool| - 1];
        } else {
          id := |values|;
        }
        values := SetAt(values, id, v);
        goRefCounts := SetAt(goRefCounts, id, Finite(0));
        ids := ids[key := id];
      }
      goRefCounts := goRefCounts[id := Adjust(goRefCounts[id], 1)];
    }

    /** Stores `v` at `addr`. A word that does not fit in memory is not written at all, but the reference
        has been counted by then. */
    method StoreValue(addr: nat, v: JsValue) returns (ok: bool)
      requires Valid()
      modifies this, mem
      ensures Valid()
      ensures ok == (addr + 8 <= mem.Length)
      ensures Table() == Store(old(Table()), v).0
      ensures mem[..] == if ok then PutWord(old(mem[..]), addr, Store(old(Table()), v).1)
                         else old(mem[..])
    {
      hide RefTable.Valid, Acquire, HandleHead;
      if v.NotANumber? {
        ok := SetWord(addr, Word(NAN_HEAD, 0));
        return;
      }
      if v.Number? && !IsZero(v.bits) {
        ok := SetWord(addr, v.bits);
        return;
      }
      if v.Undefined? {
        ok := SetWord(addr, Word(0, 0));
        return;
      }
      var id := AcquireSlot(v);
      assert HandleHead(v) == HandleWord(id, v).hi;
      ok := SetWord(addr, Word(HandleHead(v), id % TWO_32));
    }

    /** Loads the value of the word at `addr`; None when the word is not in memory. */
    method LoadValue(addr: nat) returns (v: Option<JsValue>)
      ensures v == if addr + 8 <= mem.Length then Some(Load(Table(), WordAt(mem[..], addr))) else None
    {
      if mem.Length < addr + 8 {
        return None;
      }
      var lo := GetUint32(mem, addr);
      var hi := GetUint32(mem, addr + 4);
      if IsZero(Word(hi, lo)) {
        return Some(Undefined);
      }
      if !IsNaN(Word(hi, lo)) {
        return Some(Number(Word(hi, lo)));
      }
      v := Some(if lo < |values| then values[lo] else Undefined);
    }

    /** Gives back one reference, whose slot number is read from memory. Go does so only for references it
        holds, but any slot of the table will do: one that is not in use stays as it is. */
    method FinalizeRef(addr: nat)
      requires Valid()
      requires addr + 4 <= mem.Length && U32At(mem[..], addr) < |Table().values|
      modifies this
      ensures Valid()
      ensures Table() == Finalize(old(Table()), U32At(mem[..], addr))
    {
      hide Inverse, PoolSlots;
      var id := GetUint32(mem, addr);
      FinalizeAnyKeepsValid(Table(), id);
      goRefCounts := goRefCounts[id := Adjust(goRefCounts[id], -1)];
      if goRefCounts[id] == Finite(0) {
        var v := values[id];
        values := values[id := Null];
        ids := ids - {v};
        idPool := idPool + [id];
      }
    }

    /** Writes the low half first, so a number that fits only half leaves that half behind. */
    method SetInt64(addr: nat, v: JsNumber) returns (ok: bool)
      modifies mem
      ensures ok == (addr + 8 <= mem.Length)
      ensures mem[..] ==
        if ok then PutWord(old(mem[..]), addr, Word(HighWord(v), LowWord(v)))
        else if addr + 4 <= mem.Length then PutU32(old(mem[..]), addr, LowWord(v))
        else old(mem[..])
    {
      if mem.Length < addr + 4 {
        return false;
      }
      SetUint32(mem, addr, LowWord(v));
      if mem.Length < addr + 8 {
        return false;
      }
      PutWordLowFirst(old(mem[..]), addr, Word(HighWord(v), LowWord(v)));
      SetUint32(mem, addr + 4, HighWord(v));
      return true;
    }

    /** The sum of the halves is a JavaScript number, so it is rounded. */
    method GetInt64(addr: nat) returns (v: Option<int>)
      ensures v == if addr + 8 <= mem.Length
                   then Some(RoundToDouble(JoinHalves(WordAt(mem[..], addr).lo, WordAt(mem[..], addr).hi)))
                   else None
    {
      hide RoundToDouble;
      if mem.Length < addr + 8 {
        return None;
      }
      var low := GetUint32(mem, addr);
      var high := GetUint32(mem, addr + 4);
      v := Some(RoundToDouble(low + ToInt32(high) * TWO_32));
    }
  }
}
