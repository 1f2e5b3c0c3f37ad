/**
 The little-endian accesses that the JavaScript glue makes to WebAssembly memory through a DataView,
 and the split of a 64-bit integer into two 32-bit halves.
 */
module LinearMemory {
  import opened Prelude

  // ---- 32-bit accesses -------------------------------------------------------------------------

  function U32At(m: Bytes, addr: nat): u32
    requires addr + 4 <= |m|
  {
    m[addr] as int + 0x100 * m[addr + 1] as int + 0x1_0000 * m[addr + 2] as int + 0x100_0000 * m[addr + 3] as int
  }

  function LittleEndian(v: u32): (b: Bytes)
    ensures |b| == 4
    ensures v == b[0] as int + 0x100 * b[1] as int + 0x1_0000 * b[2] as int + 0x100_0000 * b[3] as int
    ensures U32At(b, 0) == v
  {
    var v1 := v / 0x100;
    var v2 := v1 / 0x100;
    [v % 0x100, v1 % 0x100, v2 % 0x100, v2 / 0x100]
  }

  /** Memory `m` with the bytes `b` written over it from `addr` on. */
  function Put(m: Bytes, addr: nat, b: Bytes): (r: Bytes)
    requires addr + |b| <= |m|
    ensures |r| == |m|
    ensures r[addr..addr + |b|] == b
    ensures forall i :: 0 <= i < addr || addr + |b| <= i < |m| ==> r[i] == m[i]
  {
    m[..addr] + b + m[addr + |b|..]
  }

  function PutU32(m: Bytes, addr: nat, v: u32): (r: Bytes)
    requires addr + 4 <= |m|
    ensures |r| == |m|
    ensures U32At(r, addr) == v
    ensures forall i :: 0 <= i < addr || addr + 4 <= i < |m| ==> r[i] == m[i]
  {
    var r := Put(m, addr, LittleEndian(v));
    assert r[addr..addr + 4] == LittleEndian(v);
    assert r[addr..addr + 4][0] == r[addr] && r[addr..addr + 4][1] == r[addr + 1]
        && r[addr..addr + 4][2] == r[addr + 2] && r[addr..addr + 4][3] == r[addr + 3];
    r
  }

  /** The lowest byte comes first. */
  lemma PutU32Bytes(m: Bytes, addr: nat, v: u32)
    requires addr + 4 <= |m|
    ensures var r := PutU32(m, addr, v);
            v == r[addr] as int + 0x100 * r[addr + 1] as int
                 + 0x1_0000 * r[addr + 2] as int + 0x100_0000 * r[addr + 3] as int
  {
  }

  method SetUint32(mem: array<u8>, addr: nat, v: u32)
    requires addr + 4 <= mem.Length
    modifies mem
    ensures mem[..] == PutU32(old(mem[..]), addr, v)
  {
    var b := LittleEndian(v);
    mem[addr], mem[addr + 1], mem[addr + 2], mem[addr + 3] := b[0], b[1], b[2], b[3];
  }

  method GetUint32(mem: array<u8>, addr: nat) returns (v: u32)
    requires addr + 4 <= mem.Length
    ensures v == U32At(mem[..], addr)
  {
    v := U32At(mem[addr..addr + 4], 0);
  }

  // ---- 64-bit integers ---------------------------------------------------------------------------

  /** Truncation toward zero, the first step of every JavaScript integer conversion. */
  function Trunc(v: real): int {
    if v >= 0.0 then v.Floor else -((-v).Floor)
  }

  /** JavaScript's ToUint32 on a finite number. */
  function ToUint32(v: real): u32 {
    Trunc(v) % TWO_32
  }

  function ToInt32(v: u32): int {
    if v < 0x8000_0000 then v else v - TWO_32
  }

  function LowHalf(v: real): u32 {
    ToUint32(v)
  }

  function RealPower(n: nat): (r: real)
    ensures r >= 1.0 && (n > 0 ==> r >= 2.0)
  {
    if n == 0 then 1.0 else 2.0 * RealPower(n - 1)
  }

  const SMALLEST_EXPONENT: nat := 1043

  /** 2^-1043, the largest number that is rounded to zero when it is divided by 2^32. */
  const SMALLEST: real := 1.0 / RealPower(SMALLEST_EXPONENT)

  /** Math.floor(v / 2^32). Dividing is exact in binary64, but for results that are too small: from -2^-1043 up
      to zero the quotient is rounded to negative zero, which rounds down to itself. */
  function FloorOfScaled(v: real): int {
    if -SMALLEST <= v < 0.0 then 0 else (v / 4294967296.0).Floor
  }

  function HighHalf(v: real): u32 {
    ToUint32(FloorOfScaled(v) as real)
  }

  /** A JavaScript number: NaN and the infinities all convert to zero. */
  datatype JsNumber = Real(r: real) | NotFinite

  function LowWord(v: JsNumber): u32 {
    match v
    case Real(r) => LowHalf(r)
    case NotFinite => 0
  }

  /** Dividing and rounding down leaves a number that is not finite as it is. */
  function HighWord(v: JsNumber): u32 {
    match v
    case Real(r) => HighHalf(r)
    case NotFinite => 0
  }

  function JoinHalves(low: u32, high: u32): int {
    low + ToInt32(high) * TWO_32
  }

  lemma {:induction false} RealPowerSum(a: nat, b: nat)
    ensures RealPower(a + b) == RealPower(a) * RealPower(b)
  {
    if a != 0 {
      RealPowerSum(a - 1, b);
    }
  }

  lemma RealPowerOf32()
    ensures RealPower(32) == 4294967296.0
  {
    assert RealPower(4) == 16.0;
    RealPowerSum(4, 4);
    RealPowerSum(8, 8);
    RealPowerSum(16, 16);
  }

  lemma QuotientInverse(s: real, x: real, p: real)
    requires s * x == 1.0 && x * 4294967296.0 == 2.0 * p
    ensures 2.0 * (s / 4294967296.0) * p == 1.0
  {
    var t := s / 4294967296.0;
    assert t * (x * 4294967296.0) == t * 4294967296.0 * x;
    assert t * (2.0 * p) == 2.0 * t * p;
  }

  lemma SmallestInverse()
    ensures SMALLEST * RealPower(SMALLEST_EXPONENT) == 1.0
  {
    hide RealPower;
  }

  lemma NextRealPower(n: nat)
    ensures RealPower(n + 1) == 2.0 * RealPower(n)
  {
  }

  /** Divided by 2^32 it is half of the smallest positive number, 2^-1074. */
  lemma SmallestIs(n: nat)
    requires n == 1074
    ensures 2.0 * (SMALLEST / 4294967296.0) * RealPower(n) == 1.0
  {
    hide RealPower, SMALLEST;
    NextRealPower(n);
    RealPowerOf32();
    RealPowerSum(SMALLEST_EXPONENT, 32);
    SmallestInverse();
    QuotientInverse(SMALLEST, RealPower(SMALLEST_EXPONENT), RealPower(n));
  }

  /** Both words of a number that is not finite are zero. */
  lemma NotFiniteJoins()
    ensures JoinHalves(LowWord(NotFinite), HighWord(NotFinite)) == 0
  {
  }

  predicate IsInteger(v: real) {
    v.Floor as real == v
  }

  /** The floor of v / 2^32 is already the floor of its integer part over 2^32. */
  lemma FloorOfQuotient(v: real)
    ensures (v / 4294967296.0).Floor == v.Floor / TWO_32
  {
  }

  lemma TruncAgainstFloor(v: real)
    ensures Trunc(v) == if v < 0.0 && !IsInteger(v) then v.Floor + 1 else v.Floor
  {
    if v < 0.0 {
      assert (-v).Floor == -v.Floor || (-v).Floor == -v.Floor - 1;
      if IsInteger(v) { assert -v == (-v.Floor) as real; }
    }
  }

  lemma TruncOfInteger(v: int)
    ensures Trunc(v as real) == v
  {
  }

  /** The high half is the floor of v / 2^32, but for the tiny negative numbers. */
  lemma HighHalfIs(v: real)
    requires -9223372036854775808.0 <= v < 9223372036854775808.0
    ensures ToInt32(HighHalf(v)) == if -SMALLEST <= v < 0.0 then 0 else v.Floor / TWO_32
  {
    hide SMALLEST;
    FloorOfQuotient(v);
    TruncOfInteger(0);
    TruncOfInteger(v.Floor / TWO_32);
  }

  /** Two halves that come from neighbouring integers. */
  lemma JoinNeighbours(n: int)
    ensures (n + 1) % TWO_32 + n / TWO_32 * TWO_32 == if (n + 1) % TWO_32 == 0 then n + 1 - TWO_32 else n + 1
    ensures n % TWO_32 + n / TWO_32 * TWO_32 == n
  {
    if (n + 1) % TWO_32 != 0 {
      assert (n + 1) / TWO_32 == n / TWO_32;
    }
  }

  /** What setInt64 followed by getInt64 returns for every finite number in the signed 64-bit range: the
      truncation, except just below a multiple of 2^32 on the negative side, where the two halves are
      rounded in different directions and the result is 2^32 too small. */
  lemma Int64RoundTrip(v: real)
    requires -9223372036854775808.0 <= v < 9223372036854775808.0
    ensures JoinHalves(LowHalf(v), HighHalf(v))
         == if v < -SMALLEST && !IsInteger(v) && Trunc(v) % TWO_32 == 0 then Trunc(v) - TWO_32 else Trunc(v)
  {
    assert 0.0 < SMALLEST < 1.0;
    TruncAgainstFloor(v);
    HighHalfIs(v);
    JoinNeighbours(v.Floor);
    hide SMALLEST, Trunc, HighHalf, ToInt32, TWO_32;
  }

  /** getInt64 after setInt64 is the floor exactly on the nonnegative numbers and the integers. */
  lemma Int64IsFloorIff(v: real)
    requires -9223372036854775808.0 <= v < 9223372036854775808.0
    ensures JoinHalves(LowHalf(v), HighHalf(v)) == v.Floor <==> v >= 0.0 || IsInteger(v)
  {
    Int64RoundTrip(v);
    TruncAgainstFloor(v);
  }

  lemma FloorOfScaledInteger(v: int)
    ensures FloorOfScaled(v as real) == v / TWO_32
  {
    FloorOfQuotient(v as real);
    assert (v as real).Floor == v;
  }

  /** Every integer comes back reduced to the signed 64-bit range, so it comes back unchanged exactly
      when it is in that range. */
  lemma Int64OfInteger(v: int)
    ensures JoinHalves(LowHalf(v as real), HighHalf(v as real))
         == (v + 0x8000_0000_0000_0000) % 0x1_0000_0000_0000_0000 - 0x8000_0000_0000_0000
    ensures JoinHalves(LowHalf(v as real), HighHalf(v as real)) == v
       <==> -0x8000_0000_0000_0000 <= v < 0x8000_0000_0000_0000
  {
    hide FloorOfScaled;
    FloorOfScaledInteger(v);
    TruncOfInteger(v);
    var q, r := v / TWO_32, v % TWO_32;
    TruncOfInteger(q);
    assert v == q * TWO_32 + r;
    var p, h := q / TWO_32, q % TWO_32;
    assert q == p * TWO_32 + h;
    assert v == p * 0x1_0000_0000_0000_0000 + h * TWO_32 + r;
    if h < 0x8000_0000 {
      assert v + 0x8000_0000_0000_0000
          == p * 0x1_0000_0000_0000_0000 + (h * TWO_32 + r + 0x8000_0000_0000_0000);
    } else {
      assert v + 0x8000_0000_0000_0000
          == (p + 1) * 0x1_0000_0000_0000_0000 + (h * TWO_32 + r - 0x8000_0000_0000_0000);
    }
  }

  // ---- Sums are rounded to binary64 ----------------------------------------------------------------

  const TWO_53: int := 0x20_0000_0000_0000

  /** The distance between neighbouring binary64 numbers at an integer of this size. */
  function Spacing(m: nat): (u: nat)
    ensures 1 <= u
    ensures m < TWO_53 ==> u == 1
  {
    if m < TWO_53 then 1 else 2 * Spacing(m / 2)
  }

  /** The nearest binary64 number, and of two equally near the one with an even significand. */
  function RoundToDouble(n: int): int
    decreases n < 0
  {
    if n < 0 then -RoundToDouble(-n)
    else
      var u := Spacing(n);
      var q, r := n / u, n % u;
      if 2 * r < u || (2 * r == u && q % 2 == 0) then q * u else (q + 1) * u
  }

  function Power(n: nat): (r: nat)
    ensures r >= 1
  {
    if n == 0 then 1 else 2 * Power(n - 1)
  }

  /** A number in units of the spacing has at most 53 bits, and no fewer unless the spacing is one. */
  lemma {:induction false} SpacingIs(m: nat) returns (k: nat)
    ensures Spacing(m) == Power(k) && m < 0x20_0000_0000_0000 * Power(k)
    ensures k > 0 ==> 0x10_0000_0000_0000 * Power(k) <= m
  {
    if m < TWO_53 {
      k := 0;
    } else {
      var half := SpacingIs(m / 2);
      k := half + 1;
    }
  }

  lemma TimesMonotone(a: nat, b: nat, u: nat)
    requires a <= b
    ensures a * u <= b * u
  {
  }

  lemma QuotientBelow(n: nat, u: nat, q: nat)
    requires 1 <= u && n < 0x20_0000_0000_0000 * u && q == n / u
    ensures q < 0x20_0000_0000_0000 && q * u + n % u == n && (q + 1) * u == q * u + u
  {
    assert q * u <= n < 0x20_0000_0000_0000 * u;
    if 0x20_0000_0000_0000 <= q {
      TimesMonotone(0x20_0000_0000_0000, q, u);
      assert false;
    }
  }

  /** Rounding is symmetric. */
  lemma RoundsNegative(n: nat)
    ensures RoundToDouble(0 - n) == 0 - RoundToDouble(n)
  {
  }

  /** The result of rounding has a significand of at most 53 bits, is no further away than half the spacing of
      such numbers, and has an even significand when it is just as far. */
  lemma RoundsToNearest(n: nat) returns (k: nat, q: nat)
    ensures RoundToDouble(n) == q * Power(k) && q <= 0x20_0000_0000_0000
    ensures k > 0 ==> 0x10_0000_0000_0000 * Power(k) <= n
    ensures var error := 2 * RoundToDouble(n) - 2 * n;
            && (if error < 0 then -error else error) <= Power(k)
            && (error == Power(k) || -error == Power(k) ==> q % 2 == 0)
  {
    k := SpacingIs(n);
    var u := Spacing(n);
    q := n / u;
    var down := 2 * (n % u) < u || (2 * (n % u) == u && q % 2 == 0);
    assert RoundToDouble(n) == if down then q * u else (q + 1) * u;
    hide Spacing, Power, RoundToDouble;
    QuotientBelow(n, u, q);
    q := if down then q else q + 1;
  }

  /** No integer up to 2^53 is changed by rounding. */
  lemma SafeIntegersExact(n: int)
    requires -0x20_0000_0000_0000 <= n <= 0x20_0000_0000_0000
    ensures RoundToDouble(n) == n
  {
    assert Spacing(TWO_53) == 2;
    assert n < 0 ==> RoundToDouble(-n) == -n;
  }

  /** On the safe integers and on every number that can have a fraction, all of which are below 2^52, what
      getInt64 returns after setInt64 is the truncation, unless there is a fraction just below a nonpositive
      multiple of 2^32. */
  lemma SafeRoundTrip(v: real)
    requires -TWO_53 as real <= v <= TWO_53 as real
    requires IsInteger(v) || -(TWO_53 / 2) as real <= v <= (TWO_53 / 2) as real
    ensures RoundToDouble(JoinHalves(LowHalf(v), HighHalf(v))) == Trunc(v)
       <==> !(v < -SMALLEST && !IsInteger(v) && Trunc(v) % TWO_32 == 0)
  {
    Int64RoundTrip(v);
    TruncAgainstFloor(v);
    hide FloorOfScaled, RoundToDouble, SMALLEST, LowHalf, HighHalf, Trunc;
    SafeIntegersExact(JoinHalves(LowHalf(v), HighHalf(v)));
  }
}
