/**
 Passing the command line and the environment to a Go program: the strings and the table of pointers to
 them that are laid out in linear memory before the program starts, and how the program reads them back.
 Strings are their UTF-8 encodings.
 */
module ArgLayout {
  import opened Prelude
  import opened LinearMemory

  const BASE: nat := 4096
  const WASM_MIN_DATA_ADDR: nat := 4096 + 8192

  // ---- Where everything goes -----------------------------------------------------------------------

  function Align8(n: nat): (r: nat)
    ensures r % 8 == 0 && n <= r < n + 8
  {
    if n % 8 != 0 then n + (8 - n % 8) else n
  }

  /** The offset after the strings, each with its terminator and padding, have been placed from `off`. */
  function End(strs: seq<Bytes>, off: nat): nat {
    if strs == [] then off
    else Align8(End(strs[..|strs| - 1], off) + |strs[|strs| - 1]| + 1)
  }

  function Pointer(strs: seq<Bytes>, off: nat, i: nat): nat
    requires i <= |strs|
  {
    End(strs[..i], off)
  }

  const EQUALS: u8 := 61

  function EnvEntry(kv: (Bytes, Bytes)): Bytes {
    kv.0 + [EQUALS] + kv.1
  }

  function EnvEntries(env: seq<(Bytes, Bytes)>): seq<Bytes> {
    seq(|env|, i requires 0 <= i < |env| => EnvEntry(env[i]))
  }

  function Pointers(strs: seq<Bytes>, off: nat, from: nat, to: nat): (r: seq<nat>)
    requires from <= to <= |strs|
    ensures |r| == to - from
    ensures forall i :: 0 <= i < to - from ==> r[i] == Pointer(strs, off, from + i)
  {
    if from == to then [] else Pointers(strs, off, from, to - 1) + [Pointer(strs, off, to - 1)]
  }

  /** The pointer table: one pointer per argument, a zero, one per environment entry, a zero. */
  function PointerTable(argv: seq<Bytes>, env: seq<Bytes>): seq<nat> {
    var strs := argv + env;
    Pointers(strs, BASE, 0, |argv|) + [0] + Pointers(strs, BASE, |argv|, |strs|) + [0]
  }

  function TableStart(argv: seq<Bytes>, env: seq<Bytes>): nat {
    End(argv + env, BASE)
  }

  function FinalOffset(argv: seq<Bytes>, env: seq<Bytes>): nat {
    TableStart(argv, env) + 8 * (|argv| + |env| + 2)
  }

  function PaddedSizes(strs: seq<Bytes>): nat {
    if strs == [] then 0
    else PaddedSizes(strs[..|strs| - 1]) + Align8(|strs[|strs| - 1]| + 1)
  }

  lemma Align8Shift(off: nat, n: nat)
    requires off % 8 == 0
    ensures Align8(off + n) == off + Align8(n)
  {
  }

  /** Placing strings moves the offset by the sum of their padded sizes. */
  lemma {:induction false} EndIsSum(strs: seq<Bytes>, off: nat)
    requires off % 8 == 0
    ensures End(strs, off) == off + PaddedSizes(strs)
    ensures End(strs, off) % 8 == 0
  {
    hide Align8;
    if strs != [] {
      var init, n := strs[..|strs| - 1], |strs[|strs| - 1]| + 1;
      EndIsSum(init, off);
      Align8Shift(End(init, off), n);
    }
  }

  /** Pointers are 8-aligned, and each string with its terminator ends before the next one begins. */
  lemma {:induction false} RegionsApart(strs: seq<Bytes>, off: nat, i: nat, j: nat)
    requires off % 8 == 0 && i < j <= |strs|
    ensures Pointer(strs, off, i) % 8 == 0
    ensures off <= Pointer(strs, off, i)
    ensures Pointer(strs, off, i) + |strs[i]| + 1 <= Pointer(strs, off, j)
    decreases j
  {
    hide Align8;
    EndIsSum(strs[..i], off);
    assert strs[..j][..j - 1] == strs[..j - 1];
    if i + 1 < j {
      RegionsApart(strs, off, i, j - 1);
    }
  }

  // ---- What memory holds afterwards ----------------------------------------------------------------

  /** Memory with zero-terminated strings written one after the other. */
  ghost function WithStrings(m: Bytes, strs: seq<Bytes>, off: nat): (r: Bytes)
    requires End(strs, off) <= |m|
    ensures |r| == |m|
  {
    if strs == [] then m
    else
      var init, last := strs[..|strs| - 1], strs[|strs| - 1];
      Put(WithStrings(m, init, off), End(init, off), last + [0])
  }

  /** Memory with 64-bit pointers written one after the other. */
  ghost function WithTable(m: Bytes, ptrs: seq<nat>, at: nat): (r: Bytes)
    requires at + 8 * |ptrs| <= |m|
    ensures |r| == |m|
  {
    if ptrs == [] then m
    else
      var n := |ptrs| - 1;
      PutU32(PutU32(WithTable(m, ptrs[..n], at), at + 8 * n, ptrs[n] % TWO_32), at + 8 * n + 4, 0)
  }

  ghost function Image(m: Bytes, argv: seq<Bytes>, env: seq<Bytes>): (r: Bytes)
    requires FinalOffset(argv, env) <= |m|
    ensures |r| == |m|
  {
    WithTable(WithStrings(m, argv + env, BASE), PointerTable(argv, env), TableStart(argv, env))
  }

  ghost predicate StringAt(m: Bytes, p: nat, s: Bytes) {
    p + |s| + 1 <= |m| && (forall k :: 0 <= k < |s| ==> s[k] == m[p + k]) && m[p + |s|] == 0
  }

  lemma PutString(m: Bytes, at: nat, s: Bytes)
    requires at + |s| + 1 <= |m|
    ensures StringAt(Put(m, at, s + [0]), at, s)
  {
    var r := Put(m, at, s + [0]);
    assert forall k :: 0 <= k <= |s| ==> (s + [0])[k] == r[at..at + |s| + 1][k] == r[at + k];
  }

  lemma {:induction false} StringsPlaced(m: Bytes, strs: seq<Bytes>, off: nat, i: nat)
    requires End(strs, off) <= |m| && off % 8 == 0 && i < |strs|
    ensures StringAt(WithStrings(m, strs, off), Pointer(strs, off, i), strs[i])
    decreases |strs|
  {
    var n := |strs| - 1;
    var init := strs[..n];
    if i == n {
      PutString(WithStrings(m, init, off), End(init, off), strs[n]);
    } else {
      hide Align8, Put;
      StringsPlaced(m, init, off, i);
      assert init[..i] == strs[..i];
      RegionsApart(strs, off, i, n);
    }
  }

  lemma {:induction false} StringsFrame(m: Bytes, strs: seq<Bytes>, off: nat, k: nat)
    requires End(strs, off) <= |m| && k < |m| && (k < off || End(strs, off) <= k) && off % 8 == 0
    ensures WithStrings(m, strs, off)[k] == m[k]
    decreases |strs|
  {
    if strs != [] {
      hide Align8;
      EndIsSum(strs[..|strs| - 1], off);
      StringsFrame(m, strs[..|strs| - 1], off, k);
    }
  }

  lemma {:induction false} TableFrame(m: Bytes, ptrs: seq<nat>, at: nat, k: nat)
    requires at + 8 * |ptrs| <= |m| && k < |m| && (k < at || at + 8 * |ptrs| <= k)
    ensures WithTable(m, ptrs, at)[k] == m[k]
    decreases |ptrs|
  {
    if ptrs != [] {
      TableFrame(m, ptrs[..|ptrs| - 1], at, k);
    }
  }

  /** A 64-bit pointer as Go reads it. */
  function PointerAt(m: Bytes, at: nat): nat
    requires at + 8 <= |m|
  {
    U32At(m, at) + TWO_32 * U32At(m, at + 4)
  }

  lemma {:induction false} TableEntry(m: Bytes, ptrs: seq<nat>, at: nat, i: nat)
    requires at + 8 * |ptrs| <= |m| && i < |ptrs|
    ensures PointerAt(WithTable(m, ptrs, at), at + 8 * i) == ptrs[i] % TWO_32
    decreases |ptrs|
  {
    if i < |ptrs| - 1 {
      TableEntry(m, ptrs[..|ptrs| - 1], at, i);
    }
  }

  // ---- Reading it back -----------------------------------------------------------------------------

  /** The bytes from `p` up to the first zero byte. */
  function ReadCString(m: Bytes, p: nat): Option<Bytes>
    decreases |m| - p
  {
    if |m| <= p then None
    else if m[p] == 0 then Some([])
    else match ReadCString(m, p + 1)
      case None => None
      case Some(s) => Some([m[p]] + s)
  }

  /** Follows a zero-terminated vector of string pointers, and says where it ends. */
  function ReadVector(m: Bytes, at: nat): Option<(seq<Bytes>, nat)>
    decreases |m| - at
  {
    if |m| < at + 8 then None
    else
      var p := PointerAt(m, at);
      if p == 0 then Some(([], at + 8))
      else match (ReadCString(m, p), ReadVector(m, at + 8))
        case (Some(s), Some(rest)) => Some(([s] + rest.0, rest.1))
        case _ => None
  }

  /** What a C-style reader sees of a string: everything before its first zero byte. */
  function UpToNul(s: Bytes): Bytes {
    if s == [] || s[0] == 0 then [] else [s[0]] + UpToNul(s[1..])
  }

  function AllUpToNul(strs: seq<Bytes>): seq<Bytes> {
    if strs == [] then [] else [UpToNul(strs[0])] + AllUpToNul(strs[1..])
  }

  ghost predicate NulFree(strs: seq<Bytes>) {
    forall s :: s in strs ==> 0 !in s
  }

  lemma {:induction false} UpToNulWhole(s: Bytes)
    ensures UpToNul(s) == s <==> 0 !in s
  {
    if s != [] && s[0] != 0 {
      UpToNulWhole(s[1..]);
      assert s == [s[0]] + s[1..];
    }
  }

  lemma {:induction false} AllUpToNulWhole(strs: seq<Bytes>)
    ensures AllUpToNul(strs) == strs <==> NulFree(strs)
  {
    if strs != [] {
      UpToNulWhole(strs[0]);
      AllUpToNulWhole(strs[1..]);
      assert strs == [strs[0]] + strs[1..];
      assert AllUpToNul(strs)[0] == UpToNul(strs[0]) && AllUpToNul(strs)[1..] == AllUpToNul(strs[1..]);
    }
  }

  lemma {:induction false} ReadsString(m: Bytes, p: nat, s: Bytes)
    requires StringAt(m, p, s)
    ensures ReadCString(m, p) == Some(UpToNul(s))
    decreases |s|
  {
    if s != [] {
      assert m[p] == m[p..p + |s|][0] == s[0];
      if s[0] != 0 {
        assert m[p + 1..p + |s|] == m[p..p + |s|][1..] == s[1..];
        ReadsString(m, p + 1, s[1..]);
      }
    }
  }

  /** A run of nonzero pointers to strings, followed by a zero, reads as those strings. */
  lemma {:induction false} ReadsVector(m: Bytes, at: nat, ptrs: seq<nat>, strs: seq<Bytes>)
    requires |ptrs| == |strs| && at + 8 * (|ptrs| + 1) <= |m|
    requires forall i :: 0 <= i < |ptrs| ==>
               0 < ptrs[i] && StringAt(m, ptrs[i], strs[i]) && PointerAt(m, at + 8 * i) == ptrs[i]
    requires PointerAt(m, at + 8 * |ptrs|) == 0
    ensures ReadVector(m, at) == Some((AllUpToNul(strs), at + 8 * (|ptrs| + 1)))
    decreases |ptrs|
  {
    hide PointerAt, StringAt, ReadCString;
    if ptrs != [] {
      assert PointerAt(m, at + 8 * 0) == ptrs[0];
      ReadsString(m, ptrs[0], strs[0]);
      forall i | 0 <= i < |ptrs| - 1
        ensures 0 < ptrs[1..][i] && StringAt(m, ptrs[1..][i], strs[1..][i])
        ensures PointerAt(m, at + 8 + 8 * i) == ptrs[1..][i]
      {
        assert at + 8 + 8 * i == at + 8 * (i + 1);
      }
      assert at + 8 + 8 * |ptrs[1..]| == at + 8 * |ptrs|;
      ReadsVector(m, at + 8, ptrs[1..], strs[1..]);
    }
  }

  // ---- The whole image -----------------------------------------------------------------------------

  lemma ImageString(m: Bytes, argv: seq<Bytes>, env: seq<Bytes>, i: nat)
    requires FinalOffset(argv, env) <= |m| && i < |argv + env|
    ensures BASE <= Pointer(argv + env, BASE, i) < TableStart(argv, env)
    ensures StringAt(Image(m, argv, env), Pointer(argv + env, BASE, i), (argv + env)[i])
  {
    hide Align8, WithStrings, WithTable;
    var strs := argv + env;
    var p := Pointer(strs, BASE, i);
    var m0 := WithStrings(m, strs, BASE);
    StringsPlaced(m, strs, BASE, i);
    RegionsApart(strs, BASE, i, |strs|);
    assert strs[..|strs|] == strs;
    forall k | p <= k <= p + |strs[i]|
      ensures Image(m, argv, env)[k] == m0[k]
    {
      TableFrame(m0, PointerTable(argv, env), TableStart(argv, env), k);
    }
  }

  /** Where the pointers to the arguments, the first zero, the pointers to the environment, and the second
      zero stand in the table. */
  lemma PointerTableParts(argv: seq<Bytes>, env: seq<Bytes>)
    ensures var t, strs := PointerTable(argv, env), argv + env;
            && |t| == |argv| + |env| + 2
            && t[..|argv|] == Pointers(strs, BASE, 0, |argv|)
            && t[|argv|] == 0
            && t[|argv| + 1..|argv| + 1 + |env|] == Pointers(strs, BASE, |argv|, |strs|)
            && t[|argv| + 1 + |env|] == 0
  {
    hide End;
  }

  lemma ImagePointer(m: Bytes, argv: seq<Bytes>, env: seq<Bytes>, j: nat)
    requires FinalOffset(argv, env) <= |m| && j < |PointerTable(argv, env)|
    requires PointerTable(argv, env)[j] < TWO_32
    ensures PointerAt(Image(m, argv, env), TableStart(argv, env) + 8 * j) == PointerTable(argv, env)[j]
  {
    hide End, WithStrings, WithTable, PointerAt, PointerTable;
    PointerTableParts(argv, env);
    TableEntry(WithStrings(m, argv + env, BASE), PointerTable(argv, env), TableStart(argv, env), j);
  }

  /** The argument vector reads as the arguments. */
  lemma ReadsArgv(m: Bytes, argv: seq<Bytes>, env: seq<Bytes>)
    requires FinalOffset(argv, env) <= |m| && FinalOffset(argv, env) <= TWO_32
    ensures ReadVector(Image(m, argv, env), TableStart(argv, env))
         == Some((AllUpToNul(argv), TableStart(argv, env) + 8 * (|argv| + 1)))
  {
    hide End, Image, PointerAt, StringAt, AllUpToNul, ReadVector, PointerTable;
    var strs, r, at := argv + env, Image(m, argv, env), TableStart(argv, env);
    PointerTableParts(argv, env);
    var ptrs := PointerTable(argv, env)[..|argv|];
    forall i | 0 <= i < |argv|
      ensures 0 < ptrs[i] && StringAt(r, ptrs[i], argv[i]) && PointerAt(r, at + 8 * i) == ptrs[i]
    {
      ImageString(m, argv, env, i);
      ImagePointer(m, argv, env, i);
    }
    ImagePointer(m, argv, env, |argv|);
    ReadsVector(r, at, ptrs, argv);
  }

  /** The environment vector, which follows, reads as the environment. */
  lemma ReadsEnv(m: Bytes, argv: seq<Bytes>, env: seq<Bytes>)
    requires FinalOffset(argv, env) <= |m| && FinalOffset(argv, env) <= TWO_32
    ensures ReadVector(Image(m, argv, env), TableStart(argv, env) + 8 * (|argv| + 1))
         == Some((AllUpToNul(env), FinalOffset(argv, env)))
  {
    hide End, Image, PointerAt, StringAt, AllUpToNul, ReadVector, PointerTable;
    var strs, r, at := argv + env, Image(m, argv, env), TableStart(argv, env);
    var mid := at + 8 * (|argv| + 1);
    PointerTableParts(argv, env);
    var ptrs := PointerTable(argv, env)[|argv| + 1..|argv| + 1 + |env|];
    forall i | 0 <= i < |env|
      ensures 0 < ptrs[i] && StringAt(r, ptrs[i], env[i]) && PointerAt(r, mid + 8 * i) == ptrs[i]
    {
      ImageString(m, argv, env, |argv| + i);
      assert ptrs[i] == PointerTable(argv, env)[|argv| + 1 + i];
      ImagePointer(m, argv, env, |argv| + 1 + i);
      assert at + 8 * (|argv| + 1 + i) == mid + 8 * i;
    }
    ImagePointer(m, argv, env, |argv| + 1 + |env|);
    assert at + 8 * (|argv| + 1 + |env|) == mid + 8 * |env|;
    ReadsVector(r, mid, ptrs, env);
  }

  /** Whatever was in memory before, a Go program that walks the two vectors sees every argument and then
      every environment entry, in order, each up to its first zero byte. */
  lemma ImageReadsBack(m: Bytes, argv: seq<Bytes>, env: seq<Bytes>)
    requires FinalOffset(argv, env) <= |m| && FinalOffset(argv, env) <= TWO_32
    ensures var at, mid := TableStart(argv, env), TableStart(argv, env) + 8 * (|argv| + 1);
            && ReadVector(Image(m, argv, env), at) == Some((AllUpToNul(argv), mid))
            && ReadVector(Image(m, argv, env), mid) == Some((AllUpToNul(env), FinalOffset(argv, env)))
  {
    ReadsArgv(m, argv, env);
    ReadsEnv(m, argv, env);
  }

  /** Walking the two vectors that begin at `at` gives these arguments and this environment. */
  predicate ReadsBack(m: Bytes, at: nat, argv: seq<Bytes>, env: seq<Bytes>) {
    var mid := at + 8 * (|argv| + 1);
    ReadVector(m, at) == Some((argv, mid)) && ReadVector(m, mid) == Some((env, mid + 8 * (|env| + 1)))
  }

  /** The program sees exactly the command line and environment it was given, if and only if none of the
      strings contains a zero byte. */
  lemma ImageRoundTripIff(m: Bytes, argv: seq<Bytes>, env: seq<Bytes>)
    requires FinalOffset(argv, env) <= |m| && FinalOffset(argv, env) <= TWO_32
    ensures ReadsBack(Image(m, argv, env), TableStart(argv, env), argv, env) <==> NulFree(argv + env)
  {
    hide Align8, End, Image, ReadVector, AllUpToNul;
    ImageReadsBack(m, argv, env);
    AllUpToNulWhole(argv);
    AllUpToNulWhole(env);
    assert NulFree(argv + env) <==> NulFree(argv) && NulFree(env);
  }

  lemma {:induction false} PaddedSizesConcat(a: seq<Bytes>, b: seq<Bytes>)
    ensures PaddedSizes(a + b) == PaddedSizes(a) + PaddedSizes(b)
    decreases |b|
  {
    hide Align8;
    if b == [] {
      assert a + b == a;
    } else {
      var init := b[..|b| - 1];
      assert (a + b)[..|a + b| - 1] == a + init;
      PaddedSizesConcat(a, init);
    }
  }

  /** A program that is allowed to start sees exactly the command line and environment it was given, if and
      only if none of the strings contains a zero byte. */
  lemma StartedRoundTripIff(m: Bytes, argv: seq<Bytes>, env: seq<Bytes>)
    requires FinalOffset(argv, env) <= |m| && FinalOffset(argv, env) < WASM_MIN_DATA_ADDR
    ensures ReadsBack(Image(m, argv, env), TableStart(argv, env), argv, env) <==> NulFree(argv + env)
  {
    hide Align8, End, Image, ReadVector;
    ImageRoundTripIff(m, argv, env);
  }

  /** The exact end of the layout, counted from the lengths of the strings alone. */
  lemma FinalOffsetFormula(argv: seq<Bytes>, env: seq<Bytes>)
    ensures FinalOffset(argv, env)
         == 4096 + PaddedSizes(argv) + PaddedSizes(env) + 8 * (|argv| + |env| + 2)
  {
    hide Align8, End, PaddedSizes;
    EndIsSum(argv + env, BASE);
    PaddedSizesConcat(argv, env);
  }

  /** Nothing outside [4096, final offset) is written. */
  lemma ImageFrame(m: Bytes, argv: seq<Bytes>, env: seq<Bytes>, k: nat)
    requires FinalOffset(argv, env) <= |m| && k < |m|
    requires k < 4096 || FinalOffset(argv, env) <= k
    ensures Image(m, argv, env)[k] == m[k]
  {
    hide Align8, WithStrings, WithTable;
    EndIsSum(argv + env, BASE);
    StringsFrame(m, argv + env, BASE, k);
    TableFrame(WithStrings(m, argv + env, BASE), PointerTable(argv, env), TableStart(argv, env), k);
  }

  // ---- Environment entries -------------------------------------------------------------------------

  /** Name and value of an environment entry, divided at the first equals sign. */
  function SplitEntry(e: Bytes): (Bytes, Bytes) {
    if e == [] then ([], [])
    else if e[0] == EQUALS then ([], e[1..])
    else var rest := SplitEntry(e[1..]); ([e[0]] + rest.0, rest.1)
  }

  lemma {:induction false} SplitEntryOf(kv: (Bytes, Bytes))
    ensures SplitEntry(EnvEntry(kv)) == kv <==> EQUALS !in kv.0
    decreases |kv.0|
  {
    var (key, value) := kv;
    var e := EnvEntry(kv);
    if key == [] {
      assert e[1..] == value;
    } else {
      assert e[1..] == EnvEntry((key[1..], value));
      SplitEntryOf((key[1..], value));
      assert key == [key[0]] + key[1..];
      if key[0] != EQUALS {
        assert SplitEntry(e).0[1..] == SplitEntry(e[1..]).0;
      }
    }
  }

  // ---- The loops that write it ---------------------------------------------------------------------

  datatype Outcome =
    | Started(argc: nat, argv: nat)
    | RangeError        // a write past the end of memory
    | LimitExceeded     // the data area of the program would be overwritten

  /** Writes one zero-terminated string at `offset`, if it fits, and moves the offset past it. */
  method StrPtr(mem: array<u8>, offset: nat, str: Bytes) returns (ok: bool, next: nat)
    modifies mem
    ensures ok == (offset + |str| + 1 <= mem.Length)
    ensures mem[..] == if ok then Put(old(mem[..]), offset, str + [0]) else old(mem[..])
    ensures next == Align8(offset + |str| + 1)
  {
    var bytes := str + [0];
    ok := offset + |bytes| <= mem.Length;
    if ok {
      forall k | 0 <= k < |bytes| {
        mem[offset + k] := bytes[k];
      }
      assert mem[..] == Put(old(mem[..]), offset, bytes);
    }
    next := offset + |bytes|;
    if next % 8 != 0 {
      next := next + (8 - next % 8);
    }
  }

  lemma EndGrows(strs: seq<Bytes>, i: nat)
    requires i <= |strs|
    ensures BASE <= End(strs[..i], BASE) <= End(strs, BASE)
    ensures i < |strs| ==> End(strs[..i], BASE) + |strs[i]| + 1 <= End(strs, BASE)
  {
    hide Align8;
    EndIsSum(strs, BASE);
    assert strs[..|strs|] == strs;
    if i < |strs| {
      RegionsApart(strs, BASE, i, |strs|);
    }
  }

  lemma PlaceNext(m: Bytes, strs: seq<Bytes>, n: nat)
    requires n < |strs|
    ensures End(strs[..n + 1], BASE) == Align8(End(strs[..n], BASE) + |strs[n]| + 1)
    ensures End(strs[..n + 1], BASE) <= |m| ==>
              (WithStrings(m, strs[..n + 1], BASE)
               == Put(WithStrings(m, strs[..n], BASE), End(strs[..n], BASE), strs[n] + [0]))
  {
    assert strs[..n + 1][..n] == strs[..n];
  }

  ghost predicate SameBelowBase(a: Bytes, b: Bytes) {
    |a| == |b| && forall k :: 0 <= k < BASE && k < |a| ==> a[k] == b[k]
  }

  /** Writes more strings after the ones in `done`, and collects where each begins. */
  method WriteStrings(mem: array<u8>, ghost m: Bytes, ghost done: seq<Bytes>, offset: nat, strs: seq<Bytes>)
    returns (ok: bool, next: nat, ptrs: seq<nat>)
    requires |m| == mem.Length && offset == End(done, BASE)
    requires offset <= mem.Length ==> mem[..] == WithStrings(m, done, BASE)
    requires SameBelowBase(m, mem[..])
    modifies mem
    ensures SameBelowBase(m, mem[..])
    ensures !ok ==> mem.Length < End(done + strs, BASE)
    ensures ok ==> next == End(done + strs, BASE)
    ensures ok ==> ptrs == Pointers(done + strs, BASE, |done|, |done| + |strs|)
    ensures ok && next <= mem.Length ==> mem[..] == WithStrings(m, done + strs, BASE)
  {
    hide Align8, Put, End, WithStrings, Pointers;
    ghost var all := done + strs;
    next, ptrs := offset, [];
    assert done + strs[..0] == done == all[..|done|];
    for i := 0 to |strs|
      invariant next == End(all[..|done| + i], BASE)
      invariant ptrs == Pointers(all, BASE, |done|, |done| + i)
      invariant next <= mem.Length ==> mem[..] == WithStrings(m, all[..|done| + i], BASE)
      invariant SameBelowBase(m, mem[..])
    {
      EndGrows(all, |done| + i);
      PlaceNext(m, all, |done| + i);
      var fits, after := StrPtr(mem, next, strs[i]);
      if !fits {
        return false, next, ptrs;
      }
      ptrs := ptrs + [next];
      next := after;
    }
    assert all[..|done| + |strs|] == all;
    ok := true;
  }

  /** Writes the pointer table at `at`, stopping at the first write that does not fit. */
  method WriteTable(mem: array<u8>, at: nat, ptrs: seq<nat>) returns (ok: bool, next: nat)
    requires BASE <= at
    modifies mem
    ensures ok == (ptrs == [] || at + 8 * |ptrs| <= mem.Length)
    ensures SameBelowBase(old(mem[..]), mem[..])
    ensures ok && at <= mem.Length ==>
              next == at + 8 * |ptrs| && mem[..] == WithTable(old(mem[..]), ptrs, at)
  {
    hide PutU32;
    next := at;
    for i := 0 to |ptrs|
      invariant next == at + 8 * i && (i == 0 || next <= mem.Length)
      invariant next <= mem.Length ==> mem[..] == WithTable(old(mem[..]), ptrs[..i], at)
      invariant SameBelowBase(old(mem[..]), mem[..])
    {
      assert ptrs[..i + 1][..i] == ptrs[..i];
      if mem.Length < next + 4 {
        return false, next;
      }
      SetUint32(mem, next, ptrs[i] % TWO_32);
      if mem.Length < next + 8 {
        return false, next;
      }
      SetUint32(mem, next + 4, 0);
      next := next + 8;
    }
    assert ptrs[..|ptrs|] == ptrs;
    ok := true;
  }

  lemma PointersPrefix(argv: seq<Bytes>, env: seq<Bytes>)
    ensures Pointers(argv, BASE, 0, |argv|) == Pointers(argv + env, BASE, 0, |argv|)
  {
    var a, b := Pointers(argv, BASE, 0, |argv|), Pointers(argv + env, BASE, 0, |argv|);
    forall i | 0 <= i < |argv|
      ensures a[i] == b[i]
    {
      assert argv[..i] == (argv + env)[..i];
    }
  }

  /** The strings of the command line and the environment, with the table that is to point at them. */
  method WriteArguments(mem: array<u8>, ghost m: Bytes, argv: seq<Bytes>, env: seq<(Bytes, Bytes)>)
    returns (ok: bool, offset: nat, argvPtrs: seq<nat>)
    requires m == mem[..]
    modifies mem
    ensures SameBelowBase(m, mem[..])
    ensures !ok ==> mem.Length < TableStart(argv, EnvEntries(env))
    ensures ok ==> BASE <= offset == TableStart(argv, EnvEntries(env))
    ensures ok ==> argvPtrs == PointerTable(argv, EnvEntries(env))
    ensures ok && offset <= mem.Length ==> mem[..] == WithStrings(m, argv + EnvEntries(env), BASE)
  {
    hide Align8, Put;
    ghost var all := argv + EnvEntries(env);
    offset := BASE;
    var ptrs;
    ok, offset, argvPtrs := WriteStrings(mem, m, [], offset, argv);
    assert [] + argv == argv == all[..|argv|];
    EndGrows(all, |argv|);
    EndGrows(all, 0);
    if !ok {
      return;
    }
    PointersPrefix(argv, EnvEntries(env));
    argvPtrs := argvPtrs + [0];
    ok, offset, ptrs := WriteStrings(mem, m, argv, offset, EnvEntries(env));
    if !ok {
      return;
    }
    argvPtrs := argvPtrs + ptrs + [0];
  }

  /** The 64-bit pointer at `at` is that of this string: 8-aligned, at or above 4096, and the string is there with a
      zero byte behind it. */
  ghost predicate PointsTo(m: Bytes, at: nat, s: Bytes) {
    && at + 8 <= |m|
    && var p := U32At(m, at);
       && U32At(m, at + 4) == 0 && 4096 <= p && p % 8 == 0
       && p + |s| < |m| && m[p..p + |s|] == s && m[p + |s|] == 0
  }

  lemma ImagePointsTo(m: Bytes, argv: seq<Bytes>, env: seq<Bytes>, i: nat, j: nat)
    requires FinalOffset(argv, env) <= |m| && FinalOffset(argv, env) <= TWO_32
    requires i < |argv + env| && j == if i < |argv| then i else i + 1
    ensures PointsTo(Image(m, argv, env), TableStart(argv, env) + 8 * j, (argv + env)[i])
  {
    hide Align8, End, Image, PointerTable;
    var strs, r := argv + env, Image(m, argv, env);
    PointerTableParts(argv, env);
    assert PointerTable(argv, env)[j] == Pointer(strs, BASE, i);
    ImageString(m, argv, env, i);
    RegionsApart(strs, BASE, i, |strs|);
    ImagePointer(m, argv, env, j);
  }

  /** The layout in full: the table holds a pointer for each argument, a zero, a pointer for each entry NAME=VALUE, and
      a zero. */
  ghost predicate LaidOut(m: Bytes, at: nat, argv: seq<Bytes>, env: seq<(Bytes, Bytes)>) {
    && (forall i :: 0 <= i < |argv| ==> PointsTo(m, at + 8 * i, argv[i]))
    && (forall i :: 0 <= i < |env| ==> PointsTo(m, at + 8 * (|argv| + 1 + i), env[i].0 + [61] + env[i].1))
    && at + 8 * (|argv| + |env| + 2) <= |m|
    && U32At(m, at + 8 * |argv|) == U32At(m, at + 8 * |argv| + 4) == 0
    && U32At(m, at + 8 * (|argv| + 1 + |env|)) == U32At(m, at + 8 * (|argv| + 1 + |env|) + 4) == 0
  }

  lemma ImageLaidOut(m: Bytes, argv: seq<Bytes>, env: seq<(Bytes, Bytes)>)
    requires FinalOffset(argv, EnvEntries(env)) <= |m| && FinalOffset(argv, EnvEntries(env)) <= TWO_32
    ensures LaidOut(Image(m, argv, EnvEntries(env)), TableStart(argv, EnvEntries(env)), argv, env)
  {
    hide Align8, End, Image, PointerTable, PointsTo;
    var entries := EnvEntries(env);
    var r, at := Image(m, argv, entries), TableStart(argv, entries);
    forall i | 0 <= i < |argv|
      ensures PointsTo(r, at + 8 * i, argv[i])
    {
      ImagePointsTo(m, argv, entries, i, i);
    }
    forall i | 0 <= i < |env|
      ensures PointsTo(r, at + 8 * (|argv| + 1 + i), env[i].0 + [61] + env[i].1)
    {
      ImagePointsTo(m, argv, entries, |argv| + i, |argv| + i + 1);
    }
    PointerTableParts(argv, entries);
    ImagePointer(m, argv, entries, |argv|);
    ImagePointer(m, argv, entries, |argv| + 1 + |env|);
  }

  /** Lays out the command line and the environment and decides whether the program may start. It starts
      exactly when everything ends below the program's data and within memory; then memory is the image
      above, from which the program reads back what was passed exactly when no string contains a zero byte;
      and otherwise nothing below 4096 has changed either. */
  method PassArguments(mem: array<u8>, argv: seq<Bytes>, env: seq<(Bytes, Bytes)>) returns (r: Outcome)
    modifies mem
    ensures r.RangeError? <==> mem.Length < FinalOffset(argv, EnvEntries(env))
    ensures r.LimitExceeded? <==> 12288 <= FinalOffset(argv, EnvEntries(env)) <= mem.Length
    ensures r.Started? ==> r.argc == |argv| && r.argv == TableStart(argv, EnvEntries(env))
    ensures r.Started? ==> LaidOut(mem[..], r.argv, argv, env)
    ensures r.Started? ==> (ReadsBack(mem[..], r.argv, argv, EnvEntries(env)) <==> NulFree(argv + EnvEntries(env)))
    ensures !r.RangeError? ==> mem[..] == Image(old(mem[..]), argv, EnvEntries(env))
    ensures SameBelowBase(old(mem[..]), mem[..])
  {
    hide Align8, End, WithStrings, WithTable, ReadsBack, NulFree, LaidOut;
    ghost var m, entries := mem[..], EnvEntries(env);
    var ok, offset, argvPtrs := WriteArguments(mem, m, argv, env);
    if !ok {
      return RangeError;
    }
    var table := offset;
    ok, offset := WriteTable(mem, table, argvPtrs);
    if !ok {
      return RangeError;
    }
    if WASM_MIN_DATA_ADDR <= offset {
      return LimitExceeded;
    }
    StartedRoundTripIff(m, argv, entries);
    ImageLaidOut(m, argv, env);
    return Started(|argv|, table);
  }
}
