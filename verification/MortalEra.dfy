/** runtime: the mortal era a worker's callback transaction is signed with. */
module MortalEra {
  import opened Common

  const BLOCK_HASH_COUNT: u32 := 2400

  function Max(a: nat, b: nat): nat {
    if a < b then b else a
  }

  function Min(a: nat, b: nat): nat {
    if a < b then a else b
  }

  predicate IsPowerOfTwo(p: nat) {
    p == 1 || (p > 1 && p % 2 == 0 && IsPowerOfTwo(p / 2))
  }

  /** The first of p, 2p, 4p, ... that is at least n. */
  function DoubleUpTo(n: nat, p: nat): nat
    requires p > 0
    decreases n - p
  {
    if n <= p then p else DoubleUpTo(n, 2 * p)
  }

  function NextPowerOfTwo(n: nat): nat {
    DoubleUpTo(n, 1)
  }

  /** `u32::checked_next_power_of_two`. */
  function CheckedNextPowerOfTwo(n: u32): Option<nat> {
    var p := NextPowerOfTwo(n);
    if p < 0x1_0000_0000 then Some(p) else None
  }

  /** The biggest period below the number of retained hashes: halve the next power of two, or 2 on overflow. */
  function Period(hashCount: u32): nat {
    match CheckedNextPowerOfTwo(hashCount)
    case Some(c) => c / 2
    case None => 2
  }

  datatype Era = Mortal(period: nat, phase: nat) {
    /** The block whose hash a transaction checked at block `at` is bound to. */
    function Birth(at: nat): nat
      requires period > 0
    {
      (Max(at, phase) - phase) / period * period + phase
    }

    function Death(at: nat): nat
      requires period > 0
    {
      Birth(at) + period
    }
  }

  function QuantizeFactor(period: nat): (q: nat)
    ensures q > 0
  {
    Max(period / 0x1000, 1)
  }

  /** `x / q * q`: the multiple of q just below x. */
  function Quantize(x: nat, q: nat): (r: nat)
    requires q > 0
    ensures r <= x < r + q && r == x - x % q
  {
    var k := x / q;
    assert x == k * q + x % q;
    k * q
  }

  /** `Era::mortal`: the period is rounded up to a power of two between 4 and 65536, the phase quantized. */
  function NewEra(period: nat, current: nat): Era {
    var p := Min(Max(NextPowerOfTwo(period), 4), 0x1_0000);
    var q := QuantizeFactor(p);
    Mortal(p, Quantize(current % p, q))
  }

  /** `System::block_number()` is one ahead of the block the worker runs for. */
  function CurrentBlock(blockNumber: nat): nat {
    if blockNumber == 0 then 0 else blockNumber - 1
  }

  function CreateTransactionEra(hashCount: u32, blockNumber: nat): Era {
    NewEra(Period(hashCount), CurrentBlock(blockNumber))
  }

  // ---------- properties ----------

  lemma {:induction false} DoubledIsLeast(n: nat, p: nat)
    requires IsPowerOfTwo(p) && (p == 1 || p < 2 * n)
    ensures var r := DoubleUpTo(n, p);
            IsPowerOfTwo(r) && n <= r && (r == 1 || r < 2 * n) && (r != p ==> r % 2 == 0 && r / 2 < n)
    decreases n - p
  {
    if p >= n {
    } else {
      assert IsPowerOfTwo(2 * p);
      DoubledIsLeast(n, 2 * p);
    }
  }

  lemma {:induction false} FixedByRounding(n: nat, p: nat)
    requires IsPowerOfTwo(n) && IsPowerOfTwo(p) && p <= n
    ensures DoubleUpTo(n, p) == n
    decreases n - p
  {
    if p == n {
    } else {
      HalvesFit(n, p);
      FixedByRounding(n, 2 * p);
    }
  }

  lemma {:induction false} HalvesFit(n: nat, p: nat)
    requires IsPowerOfTwo(n) && IsPowerOfTwo(p) && p < n
    ensures 2 * p <= n && IsPowerOfTwo(2 * p)
  {
    if p == 1 {
    } else {
      HalvesFit(n / 2, p / 2);
    }
  }

  /** The period is a power of two below the number of retained hashes and at least half of it. */
  lemma PeriodBounds(hashCount: u32)
    requires 2 <= hashCount <= 0x8000_0000
    ensures var p := Period(hashCount); IsPowerOfTwo(p) && p < hashCount <= 2 * p
  {
    DoubledIsLeast(hashCount, 1);
    assert IsPowerOfTwo(0x8000_0000) by { TwoToThe31(); }
    var r := NextPowerOfTwo(hashCount);
    if r > 0x8000_0000 {
      HalvesFit(r, 0x8000_0000);
    }
    assert IsPowerOfTwo(r / 2);
  }

  /** Beyond 2^31 retained hashes the next power of two overflows and the period is 2; below 2 it is 0. */
  lemma PeriodAtTheEdges(hashCount: u32)
    ensures hashCount > 0x8000_0000 ==> Period(hashCount) == 2
    ensures hashCount < 2 ==> Period(hashCount) == 0
  {
    if hashCount > 0x8000_0000 {
      DoubledIsLeast(hashCount, 1);
      TwoToThe31();
      HalvesFit(NextPowerOfTwo(hashCount), 0x8000_0000);
    }
  }

  /** `Era::mortal` keeps a power of two between 4 and 65536 as the period, and takes the nearest of these outside. */
  lemma EraPeriod(period: nat, current: nat)
    requires IsPowerOfTwo(period)
    ensures NewEra(period, current).period == if period < 4 then 4 else if period > 0x1_0000 then 0x1_0000 else period
  {
    FixedByRounding(period, 1);
  }

  lemma Twice(p: nat)
    requires IsPowerOfTwo(p)
    ensures IsPowerOfTwo(2 * p)
  {
  }

  lemma SixteenTimes(p: nat)
    requires IsPowerOfTwo(p)
    ensures IsPowerOfTwo(16 * p)
  {
    var two := 2 * p;
    var four := 2 * two;
    var eight := 2 * four;
    Twice(p);
    Twice(two);
    Twice(four);
    Twice(eight);
    assert 16 * p == 2 * eight;
  }

  lemma TwoToThe31()
    ensures IsPowerOfTwo(0x8000_0000)
  {
    assert IsPowerOfTwo(1) && IsPowerOfTwo(2) && IsPowerOfTwo(4) && IsPowerOfTwo(8);
    SixteenTimes(0x8);
    SixteenTimes(0x80);
    SixteenTimes(0x800);
    SixteenTimes(0x8000);
    SixteenTimes(0x8_0000);
    SixteenTimes(0x80_0000);
    SixteenTimes(0x800_0000);
  }

  lemma Multiples(a: nat, b: nat, p: nat)
    ensures a < b ==> (a + 1) * p <= b * p
  {
  }

  /** With d = k * p + r and 0 <= r < p, division by p gives k. */
  lemma DivisionIs(d: nat, p: nat, k: nat, r: nat)
    requires p > 0 && r < p && d == k * p + r
    ensures d / p == k
  {
    var e := d / p;
    assert d == e * p + d % p;
    Multiples(e, k, p);
    Multiples(k, e, p);
  }

  /** The birth of any block less than one period after `base + phase`, for a multiple `base` of the period. */
  lemma BirthIs(era: Era, at: nat, k: nat, base: nat)
    requires era.period > 0 && base == k * era.period
    requires base + era.phase <= at < base + era.phase + era.period
    ensures era.Birth(at) == base + era.phase
  {
    DivisionIs(at - era.phase, era.period, k, at - era.phase - base);
  }

  lemma PhaseBounds(period: nat, current: nat)
    ensures var era := NewEra(period, current);
            && 4 <= era.period <= 0x1_0000
            && era.phase <= current % era.period < era.phase + QuantizeFactor(era.period)
            && era.phase == current % era.period - current % era.period % QuantizeFactor(era.period)
            && (era.period <= 0x1000 ==> QuantizeFactor(era.period) == 1)
            && QuantizeFactor(era.period) <= era.period
  {
  }

  lemma Divide(n: nat, p: nat) returns (k: nat, base: nat)
    requires p > 0
    ensures base == k * p && n == base + n % p
  {
    k := n / p;
    base := k * p;
  }

  lemma BirthAtSigning(period: nat, current: nat)
    ensures var era := NewEra(period, current); era.Birth(current) == current - current % era.period + era.phase
  {
    PhaseBounds(period, current);
    var era := NewEra(period, current);
    var k, base := Divide(current, era.period);
    BirthIs(era, current, k, base);
  }

  lemma BirthLater(period: nat, current: nat, at: nat)
    requires var era := NewEra(period, current);
             var birth := current - current % era.period + era.phase; birth <= at < birth + era.period
    ensures var era := NewEra(period, current); era.Birth(at) == current - current % era.period + era.phase
  {
    PhaseBounds(period, current);
    var era := NewEra(period, current);
    var k, base := Divide(current, era.period);
    BirthIs(era, at, k, base);
  }

  /** Across its whole life the era names one birth block: the current block or, in a period of more than 4096 blocks,
      the start of its 4096th part of the period. */
  lemma BirthIsStable(period: nat, current: nat, at: nat)
    ensures var era := NewEra(period, current);
            && era.period >= 4
            && era.Birth(current)
               == current - current % era.period % (if era.period < 4096 then 1 else era.period / 4096)
            && era.Birth(current) <= current < era.Birth(current) + era.period
            && (era.period <= 4096 ==> era.Birth(current) == current)
            && (era.Birth(current) <= at < era.Death(current) ==> era.Birth(at) == era.Birth(current))
  {
    PhaseBounds(period, current);
    BirthAtSigning(period, current);
    var era := NewEra(period, current);
    var birth := era.Birth(current);
    if birth <= at < birth + era.period {
      BirthLater(period, current, at);
    }
  }

  /** `block` is one of the last `hashCount` blocks as seen from block `at`. */
  ghost predicate AmongLast(hashCount: nat, at: nat, block: nat) {
    at - hashCount <= block
  }

  /** From the block signed at to the end of the era, the birth block is among the last ones of every block: the
      runtime's block number is one ahead of block `n`. */
  ghost predicate AlwaysAmongLast(hashCount: u32, n: nat) {
    var era := CreateTransactionEra(hashCount, n + 1);
    era.period > 0 && forall at: nat :: n <= at < era.Death(n) ==> AmongLast(hashCount, at, era.Birth(at))
  }

  lemma EraPeriodFits(hashCount: u32, current: nat)
    requires hashCount >= 3
    ensures NewEra(Period(hashCount), current).period <= hashCount + 1
  {
    TwoToThe31();
    if hashCount <= 0x8000_0000 {
      PeriodBounds(hashCount);
      assert IsPowerOfTwo(1);
      FixedByRounding(Period(hashCount), 1);
    } else {
      DoubledIsLeast(hashCount, 1);
      var r := NextPowerOfTwo(hashCount);
      HalvesFit(r, 0x8000_0000);
      assert Period(hashCount) == 2;
      assert NextPowerOfTwo(2) == 2;
    }
  }

  lemma AmongLastThroughout(hashCount: u32, n: nat)
    requires hashCount >= 3
    ensures AlwaysAmongLast(hashCount, n)
  {
    var era := CreateTransactionEra(hashCount, n + 1);
    BirthIsStable(Period(hashCount), n, n);
    forall at: nat | n <= at < era.Death(n)
      ensures AmongLast(hashCount, at, era.Birth(at))
    {
      EraPeriodFits(hashCount, n);
      BirthIsStable(Period(hashCount), n, at);
    }
  }

  /** With fewer, the fourth block of the era is too late, wherever the era starts. */
  lemma FourthBlockIsTooLate(hashCount: u32, n: nat)
    requires hashCount < 3
    ensures !AlwaysAmongLast(hashCount, n)
  {
    var era := CreateTransactionEra(hashCount, n + 1);
    assert DoubleUpTo(2, 1) == 2;
    assert era.period == 4;
    BirthIsStable(Period(hashCount), n, n + 3);
    assert n <= n + 3 < era.Death(n) && !AmongLast(hashCount, n + 3, era.Birth(n + 3));
  }

  /** Wherever the era starts, its birth block is always among the last k exactly when k is three or more. */
  lemma AmongLastExactly(hashCount: u32, n: nat)
    ensures AlwaysAmongLast(hashCount, n) <==> hashCount >= 3
  {
    if hashCount >= 3 {
      AmongLastThroughout(hashCount, n);
    } else {
      FourthBlockIsTooLate(hashCount, n);
    }
  }

  /** A worker running for block n sees block number n + 1, and signs for block n; before any block it signs for
      block 0. */
  lemma SignsForItsBlock(hashCount: u32, n: nat)
    ensures CreateTransactionEra(hashCount, n + 1) == NewEra(Period(hashCount), n)
    ensures CreateTransactionEra(hashCount, 0) == NewEra(Period(hashCount), 0)
  {
  }

  /** The shipped constant gives a period of 2048, and a worker running for block n signs an era born at n, which
      each of the 2048 blocks from n on resolves to n. */
  lemma ShippedEra(n: nat, at: nat)
    ensures Period(2400) == 2048 && BLOCK_HASH_COUNT == 2400
    ensures var era := CreateTransactionEra(BLOCK_HASH_COUNT, n + 1);
            era.period == 2048 && (n <= at < n + 2048 ==> era.Birth(at) == n)
    ensures CreateTransactionEra(BLOCK_HASH_COUNT, 0) == CreateTransactionEra(BLOCK_HASH_COUNT, 1)
  {
    assert DoubleUpTo(2400, 64) == 4096;
    assert DoubleUpTo(2400, 8) == 4096;
    assert DoubleUpTo(2400, 1) == 4096;
    assert DoubleUpTo(2048, 64) == 2048;
    assert DoubleUpTo(2048, 8) == 2048;
    assert DoubleUpTo(2048, 1) == 2048;
    BirthIsStable(2048, n, at);
  }
}
