// The unbiased range sampler of shuffle.c (secure_random). Bits come from a
// finite stream with a consumption index; running out of bits is an error.
module Sampler {
  import opened Common
  import opened BitMath

  const MaxRandBits: nat := 28
  const Cap: nat := 0x1000_0000        // 1 << MAX_RAND_BITS: rmax is not doubled from here on
  const MaxRange: nat := 0x1_0000_0000 // 2^32: every uint32 max is at most this, and so is the grown rmax

  /** A sampled value and the index of the first bit not consumed. */
  datatype Draw = Draw(value: nat, next: nat)

  /** r lies in the accepted region [0, rmax - rmax % max), which holds a whole number of copies of [0, max). */
  function Accepted(max: nat, rmax: nat, r: nat): (ok: bool)
    requires max > 0
    ensures ok <==> r < max * (rmax / max)
  {
    r < rmax - rmax % max
  }

  /** The value an accepted r maps to: r divided by the width of one cell. */
  function Output(max: nat, rmax: nat, r: nat): (v: nat)
    requires 0 < max <= rmax
    ensures v * (rmax / max) <= r < v * (rmax / max) + rmax / max
  {
    r / (rmax / max)
  }

  /** The accepted region is max cells of rmax / max values each, at least one value wide. */
  lemma AcceptedRegion(max: nat, rmax: nat)
    requires 0 < max <= rmax
    ensures rmax / max >= 1
    ensures rmax - rmax % max == max * (rmax / max)
  {
    DivUnique(rmax, max, rmax / max, rmax % max);
  }

  /** Every accepted r maps into [0, max). */
  lemma OutputInRange(max: nat, rmax: nat, r: nat)
    requires 0 < max <= rmax && Accepted(max, rmax, r)
    ensures Output(max, rmax, r) < max
  {
    var q := rmax / max;
    AcceptedRegion(max, rmax);
    if r / q >= max {
      MulMonotone(max, r / q, q);
    }
  }

  /** For max <= 2^32 the growth phase stops after at most 32 bits, at rmax <= 2^32. */
  lemma {:induction false} GrowthFits(max: nat)
    requires max <= MaxRange
    ensures CeilLog2(max) <= 32 && Pow2(CeilLog2(max)) <= MaxRange
  {
    var k := CeilLog2(max);
    TopPowers();
    if k > 32 {
      Pow2Monotone(32, k - 1);
    }
    Pow2Monotone(k, 32);
  }

  /** The powers of two at the top of the uint32 range. */
  lemma TopPowers()
    ensures Pow2(31) == MaxRange / 2 && Pow2(32) == MaxRange
  {
    assert Pow2(10) == 0x400;
    assert Pow2(20) == 0x10_0000;
  }

  /** The cap 1 << MAX_RAND_BITS is 2^28, a power of two below 2^32. */
  lemma CapIsPow2()
    ensures Cap == Pow2(MaxRandBits) && IsPow2(Cap) && Cap < MaxRange
  {
    assert Pow2(10) == 0x400;
    assert Pow2(20) == 0x10_0000;
    Pow2IsPow2(MaxRandBits);
  }

  /** rmax after n steps of the growth loop as the source computes it, in a uint32: each
      `rmax <<= 1` doubles modulo 2^32. */
  function WrappedRmax(n: nat): (rmax: nat)
    ensures rmax < MaxRange
  {
    if n == 0 then 1 else (2 * WrappedRmax(n - 1)) % MaxRange
  }

  /** The uint32 rmax runs through 1, 2, 4, ..., 2^31 and then wraps to 0, where it stays. */
  lemma {:induction false} WrappedRmaxValues(n: nat)
    ensures WrappedRmax(n) == if n < 32 then Pow2(n) else 0
  {
    if n > 0 {
      WrappedRmaxValues(n - 1);
      TopPowers();
      var doubled := 2 * WrappedRmax(n - 1);
      if n < 32 {
        Pow2Monotone(n, 31);
        DivUnique(doubled, MaxRange, 0, Pow2(n));
      } else if n == 32 {
        DivUnique(doubled, MaxRange, 1, 0);
      } else {
        DivUnique(doubled, MaxRange, 0, 0);
      }
    }
  }

  /** As written, the growth loop never ends for max > 2^31: the test rmax < max holds for
      every value the uint32 rmax takes. */
  lemma GrowthNeverEndsAsWritten(max: nat, n: nat)
    requires MaxRange / 2 < max < MaxRange
    ensures WrappedRmax(n) < max
  {
    WrappedRmaxValues(n);
    TopPowers();
    if n < 32 {
      Pow2Monotone(n, 31);
    }
  }

  /** One growth step: the bit at pos goes in at position pos - start, which is clear. */
  lemma GrowStep(bits: seq<bool>, start: nat, pos: nat)
    requires start <= pos < |bits|
    ensures var r := LsbValue(bits[start..pos]);
            LsbValue(bits[start..pos + 1]) == if bits[pos] then BitOr(r, Pow2(pos - start)) else r
    ensures Pow2(pos + 1 - start) == 2 * Pow2(pos - start)
  {
    assert bits[start..pos + 1][..pos - start] == bits[start..pos];
    Pow2IsPow2(pos - start);
    OrIntoClearTopBit(LsbValue(bits[start..pos]), Pow2(pos - start));
  }

  /** The growth loop stops at the least width whose power of two reaches max. */
  lemma GrowthEnds(max: nat, n: nat)
    requires 0 < max <= Pow2(n) && n <= CeilLog2(max)
    ensures n == CeilLog2(max) && IsPow2(Pow2(n))
  {
    Pow2IsPow2(n);
  }

  /** The rejection phase from r and rmax, reading bits from index pos. */
  function Reject(max: nat, bits: seq<bool>, pos: nat, r: nat, rmax: nat): (res: Result<Draw>)
    requires 0 < max <= rmax && pos <= |bits|
    ensures res.Success? ==> res.value.value < max && pos <= res.value.next <= |bits|
    ensures res.Failure? ==> res.error == OutOfBits
    decreases |bits| - pos
  {
    if Accepted(max, rmax, r) then
      OutputInRange(max, rmax, r);
      Success(Draw(Output(max, rmax, r), pos))
    else if pos == |bits| then Failure(OutOfBits)
    else
      var r' := if bits[pos] then r + rmax else r;
      if rmax < Cap then Reject(max, bits, pos + 1, r', 2 * rmax)
      else Reject(max, bits, pos + 1, r' / 2, rmax)
  }

  /** An accepted r ends the rejection phase with its output and consumes nothing more. */
  lemma RejectAccepts(max: nat, bits: seq<bool>, pos: nat, r: nat, rmax: nat)
    requires 0 < max <= rmax <= MaxRange && IsPow2(rmax) && r < rmax && pos <= |bits|
    requires r < rmax - rmax % max
    ensures rmax / max >= 1
    ensures Reject(max, bits, pos, r, rmax) == Success(Draw(r / (rmax / max), pos))
  {
    AcceptedRegion(max, rmax);
  }

  /** With max == rmax every r is accepted and is its own output. */
  lemma RejectFullRange(bits: seq<bool>, pos: nat, r: nat, rmax: nat)
    requires 0 < rmax <= MaxRange && IsPow2(rmax) && r < rmax && pos <= |bits|
    ensures Reject(rmax, bits, pos, r, rmax) == Success(Draw(r, pos))
  {
    DivUnique(rmax, rmax, 1, 0);
    DivUnique(r, 1, r, 0);
    RejectAccepts(rmax, bits, pos, r, rmax);
  }

  /** A rejected r with no bits left fails. */
  lemma RejectStarves(max: nat, bits: seq<bool>, r: nat, rmax: nat)
    requires 0 < max <= rmax <= MaxRange && IsPow2(rmax) && r < rmax
    requires rmax - rmax % max <= r
    ensures Reject(max, bits, |bits|, r, rmax) == Failure(OutOfBits)
  {
  }

  /** One rejection step, as the loop takes it: the bit at pos is ORed in at position rmax;
      below the cap rmax doubles, at the cap r drops its lowest bit instead. */
  lemma RejectStep(max: nat, bits: seq<bool>, pos: nat, r: nat, rmax: nat, r': nat, rmax': nat)
    requires 0 < max <= rmax <= MaxRange && IsPow2(rmax) && r < rmax && pos < |bits|
    requires rmax - rmax % max <= r
    requires var grown := if bits[pos] then BitOr(r, rmax) else r;
             if rmax < Cap then r' == grown && rmax' == 2 * rmax else r' == grown / 2 && rmax' == rmax
    ensures max <= rmax' <= MaxRange && IsPow2(rmax') && r' < rmax'
    ensures rmax' <= Cap || rmax' == rmax
    ensures Reject(max, bits, pos, r, rmax) == Reject(max, bits, pos + 1, r', rmax')
  {
    OrIntoClearTopBit(r, rmax);
    if rmax < Cap {
      CapIsPow2();
      Pow2Gap(rmax, Cap);
      assert (2 * rmax) / 2 == rmax;
    }
  }

  /** What secure_random(max) returns when reading bits from index start, for every uint32 max.
      rmax is unbounded here; the source's uint32 rmax wraps for max > 2^31 (WrappedRmax). */
  function Sample(max: nat, bits: seq<bool>, start: nat): (res: Result<Draw>)
    requires max <= MaxRange && start <= |bits|
    ensures res.Success? ==> 0 < max && res.value.value < max
    ensures res.Success? ==> start + CeilLog2(max) <= res.value.next <= |bits|
    ensures res.Failure? ==> (res.error == InvalidRange <==> max == 0)
    ensures res.Failure? ==> res.error == InvalidRange || res.error == OutOfBits
  {
    if max == 0 then Failure(InvalidRange)
    else
      var k := CeilLog2(max);
      if start + k > |bits| then Failure(OutOfBits)
      else
        Pow2IsPow2(k);
        GrowthFits(max);
        Reject(max, bits, start + k, LsbValue(bits[start..start + k]), Pow2(k))
  }

  /** After growth, rmax is the power of two 2^CeilLog2(max): at least max, at most 2^32. */
  lemma GrownRange(max: nat, rmax: nat)
    requires 0 < max <= MaxRange && rmax == Pow2(CeilLog2(max))
    ensures IsPow2(rmax) && max <= rmax <= MaxRange
  {
    Pow2IsPow2(CeilLog2(max));
    GrowthFits(max);
  }

  /** Once the growth phase has its bits, sampling is the rejection phase from the grown r and rmax. */
  lemma SampleAfterGrowth(max: nat, bits: seq<bool>, start: nat, pos: nat, r: nat, rmax: nat)
    requires 0 < max <= MaxRange && pos == start + CeilLog2(max) <= |bits|
    requires r == LsbValue(bits[start..pos]) && rmax == Pow2(CeilLog2(max))
    ensures Sample(max, bits, start) == Reject(max, bits, pos, r, rmax)
  {
    var k := CeilLog2(max);
    assert Sample(max, bits, start) == Reject(max, bits, start + k, LsbValue(bits[start..start + k]), rmax);
  }

  /** The growth loop of secure_random: from r = 0 and rmax = 1, put each bit in at position rmax
      and double rmax until rmax >= max. It consumes exactly CeilLog2(max) bits, and r is their value. */
  method GrowthPhase(max: nat, bits: seq<bool>, start: nat) returns (ok: bool, r: nat, rmax: nat, pos: nat)
    requires 0 < max <= MaxRange && start <= |bits|
    ensures ok <==> start + CeilLog2(max) <= |bits|
    ensures ok ==> pos == start + CeilLog2(max) && rmax == Pow2(CeilLog2(max)) && r == LsbValue(bits[start..pos])
  {
    ghost var k := CeilLog2(max);
    r, rmax, pos := 0, 1, start;
    while rmax < max
      invariant start <= pos <= start + k && pos <= |bits|
      invariant rmax == Pow2(pos - start) && r == LsbValue(bits[start..pos])
      decreases k - (pos - start)
    {
      if pos == |bits| {
        return false, r, rmax, pos;
      }
      GrowStep(bits, start, pos);
      if bits[pos] {
        r := BitOr(r, rmax);
      }
      rmax := rmax * 2;
      pos := pos + 1;
    }
    GrowthEnds(max, pos - start);
    ok := true;
  }

  /** The rejection loop of secure_random and its final division: while r lies in the biased top
      region [rmax - defect, rmax), put the next bit in at position rmax; double rmax while it is
      below the cap, otherwise drop r's lowest bit. */
  method RejectionPhase(max: nat, bits: seq<bool>, start: nat, r0: nat, rmax0: nat) returns (res: Result<Draw>)
    requires 0 < max <= rmax0 <= MaxRange && IsPow2(rmax0) && r0 < rmax0 && start <= |bits|
    ensures res == Reject(max, bits, start, r0, rmax0)
  {
    var r: nat, rmax: nat, pos: nat := r0, rmax0, start;
    var defect := rmax % max;
    while rmax - defect <= r
      invariant pos <= |bits|
      invariant max <= rmax <= MaxRange && IsPow2(rmax) && r < rmax
      invariant rmax <= Cap || rmax == rmax0
      invariant defect == rmax % max
      invariant Reject(max, bits, pos, r, rmax) == Reject(max, bits, start, r0, rmax0)
      decreases |bits| - pos
    {
      if pos == |bits| {
        RejectStarves(max, bits, r, rmax);
        return Failure(OutOfBits);
      }
      ghost var r1, rmax1 := r, rmax;
      if bits[pos] {
        r := BitOr(r, rmax);
      }
      if rmax < Cap {
        rmax := rmax * 2;
        defect := rmax % max;
      } else {
        r := r / 2;
      }
      RejectStep(max, bits, pos, r1, rmax1, r, rmax);
      pos := pos + 1;
    }
    RejectAccepts(max, bits, pos, r, rmax);
    res := Success(Draw(r / (rmax / max), pos));
  }

  /** secure_random: reject max == 0, grow r until rmax >= max, then add bits until r is accepted. */
  method SecureRandom(max: nat, bits: seq<bool>, start: nat) returns (res: Result<Draw>)
    requires max <= MaxRange && start <= |bits|
    ensures res == Sample(max, bits, start)
    ensures res.Success? ==> res.value.value < max
  {
    if max == 0 {
      return Failure(InvalidRange);
    }
    var ok, r, rmax, pos := GrowthPhase(max, bits, start);
    if !ok {
      return Failure(OutOfBits);
    }
    GrownRange(max, rmax);
    SampleAfterGrowth(max, bits, start, pos, r, rmax);
    res := RejectionPhase(max, bits, pos, r, rmax);
  }
}

// Properties of the sampler, stated over the specification functions.
module SamplerFacts {
  import opened Common
  import opened BitMath
  import opened Sampler

  /** The n consecutive values from lo. */
  function Span(lo: nat, n: nat): (s: set<nat>)
    ensures forall r: nat :: r in s <==> lo <= r < lo + n
    ensures |s| == n
  {
    if n == 0 then {} else Span(lo, n - 1) + {lo + n - 1}
  }

  /** An accepted r maps to v exactly when it lies in the v-th cell of rmax / max values. */
  lemma {:induction false} PreimageCell(max: nat, rmax: nat, v: nat, r: nat)
    requires 0 < max <= rmax && v < max
    ensures var q := rmax / max;
            (r < rmax && Accepted(max, rmax, r) && Output(max, rmax, r) == v) <==> (v * q <= r < v * q + q)
  {
    var q := rmax / max;
    AcceptedRegion(max, rmax);
    if v * q <= r < v * q + q {
      MulMonotone(v + 1, max, q);
      assert (v + 1) * q == v * q + q;
      DivUnique(r, q, v, r - v * q);
    }
  }

  /** The accepted values of r below rmax that map to v form one cell of rmax / max consecutive
      values, so every output in [0, max) has exactly rmax / max preimages. */
  lemma EqualPreimages(max: nat, rmax: nat, v: nat)
    requires 0 < max <= rmax && v < max
    ensures var q := rmax / max;
            (set r: nat | r < rmax && Accepted(max, rmax, r) && Output(max, rmax, r) == v)
            == Span(v * q, q)
    ensures |set r: nat | r < rmax && Accepted(max, rmax, r) && Output(max, rmax, r) == v| == rmax / max
  {
    var q := rmax / max;
    var pre := set r: nat | r < rmax && Accepted(max, rmax, r) && Output(max, rmax, r) == v;
    var cell := Span(v * q, q);
    forall r: nat
      ensures r in pre <==> r in cell
    {
      PreimageCell(max, rmax, v, r);
    }
    assert pre == cell;
  }

  /** secure_random(1) consumes no bits and returns 0. */
  lemma SampleOfOne(bits: seq<bool>, start: nat)
    requires start <= |bits|
    ensures Sample(1, bits, start) == Success(Draw(0, start))
  {
    assert bits[start..start] == [];
  }

  /** A power-of-two range needs no rejection: m bits, read least significant first, are the value. */
  lemma PowerOfTwoRange(m: nat, bits: seq<bool>, start: nat)
    requires Pow2(m) <= MaxRange && start + m <= |bits|
    ensures Sample(Pow2(m), bits, start) == Success(Draw(LsbValue(bits[start..start + m]), start + m))
  {
    var p := Pow2(m);
    CeilLog2OfPow2(m);
    Pow2IsPow2(m);
    GrownWhole(p, m, bits, start, start + m, LsbValue(bits[start..start + m]));
  }

  /** PowerOfTwoRange with the power, its exponent and the end of the window as separate names:
      the bridge to SampleAfterGrowth and RejectFullRange then needs no unfolding of Pow2 or
      CeilLog2, which keeps the proof small. */
  lemma GrownWhole(p: nat, m: nat, bits: seq<bool>, start: nat, pos: nat, v: nat)
    requires 0 < p <= MaxRange && IsPow2(p) && m == CeilLog2(p) && p == Pow2(m)
    requires pos == start + m <= |bits| && v == LsbValue(bits[start..pos])
    ensures Sample(p, bits, start) == Success(Draw(v, pos))
  {
    SampleAfterGrowth(p, bits, start, pos, v, p);
    RejectFullRange(bits, pos, v, p);
  }

  /** The worked example of a range of 5: bits 1,0,1 give r = 5 with rmax = 8 and defect 3, so 5 is
      rejected and a fourth bit is needed; 0 gives r = 5, rmax = 16 and the value 5 / 3 = 1, while
      1 gives r = 13 and the value 13 / 3 = 4. */
  lemma RangeOfFive()
    // growth: three bits 1,0,1 give r = 5 with rmax = 8; defect 3 rejects it
    ensures CeilLog2(5) == 3 && Pow2(3) == 8 && LsbValue([true, false, true]) == 5
    ensures 8 % 5 == 3 && !Accepted(5, 8, 5)
    // with no fourth bit the stream runs out
    ensures Sample(5, [true, false, true], 0) == Reject(5, [true, false, true], 3, 5, 8) == Failure(OutOfBits)
    // a fourth bit 0 keeps r = 5 at rmax = 16 (defect 1), accepted with value 5 / 3 = 1
    ensures Sample(5, [true, false, true, false], 0) == Reject(5, [true, false, true, false], 3, 5, 8)
    ensures Reject(5, [true, false, true, false], 3, 5, 8) == Reject(5, [true, false, true, false], 4, 5, 16)
    ensures Reject(5, [true, false, true, false], 4, 5, 16) == Success(Draw(1, 4))
    // a fourth bit 1 gives r = 13 at rmax = 16, accepted with value 13 / 3 = 4
    ensures Sample(5, [true, false, true, true], 0) == Reject(5, [true, false, true, true], 3, 5, 8)
    ensures Reject(5, [true, false, true, true], 3, 5, 8) == Reject(5, [true, false, true, true], 4, 13, 16)
    ensures Reject(5, [true, false, true, true], 4, 13, 16) == Success(Draw(4, 4))
  {
    var short, low, high := [true, false, true], [true, false, true, false], [true, false, true, true];
    assert CeilLog2(5) == 3 && Pow2(3) == 8;
    assert LsbValue(short) == 5;
    assert short[0..3] == low[0..3] == high[0..3] == short;
    assert 8 % 5 == 3 && !Accepted(5, 8, 5);
    assert Sample(5, short, 0) == Reject(5, short, 3, 5, 8) == Failure(OutOfBits);
    assert 16 % 5 == 1 && 16 / 5 == 3;
    assert Sample(5, low, 0) == Reject(5, low, 3, 5, 8) == Reject(5, low, 4, 5, 16);
    assert Reject(5, low, 4, 5, 16) == Success(Draw(1, 4));
    assert Sample(5, high, 0) == Reject(5, high, 3, 5, 8) == Reject(5, high, 4, 13, 16);
    assert Reject(5, high, 4, 13, 16) == Success(Draw(4, 4));
  }

  /** The rejection phase reads only the bits it consumes: a stream that agrees up to the
      returned index gives the same result. */
  lemma {:induction false} RejectReadsOnlyConsumed(max: nat, bits: seq<bool>, bits': seq<bool>, pos: nat, r: nat, rmax: nat)
    requires 0 < max <= rmax && pos <= |bits| && pos <= |bits'|
    requires Reject(max, bits, pos, r, rmax).Success?
    requires var next := Reject(max, bits, pos, r, rmax).value.next;
             next <= |bits'| && bits[pos..next] == bits'[pos..next]
    ensures Reject(max, bits', pos, r, rmax) == Reject(max, bits, pos, r, rmax)
    decreases |bits| - pos
  {
    if !Accepted(max, rmax, r) {
      var next := Reject(max, bits, pos, r, rmax).value.next;
      assert bits[pos] == bits[pos..next][0] == bits'[pos];
      var r' := if bits[pos] then r + rmax else r;
      assert bits[pos + 1..next] == bits[pos..next][1..];
      assert bits'[pos + 1..next] == bits'[pos..next][1..];
      if rmax < Cap {
        RejectReadsOnlyConsumed(max, bits, bits', pos + 1, r', 2 * rmax);
      } else {
        RejectReadsOnlyConsumed(max, bits, bits', pos + 1, r' / 2, rmax);
      }
    }
  }

  /** Two streams that agree on [lo, hi) agree on both parts of it. */
  lemma SplitAgreement(bits: seq<bool>, bits': seq<bool>, lo: nat, mid: nat, hi: nat)
    requires lo <= mid <= hi <= |bits| && hi <= |bits'| && bits[lo..hi] == bits'[lo..hi]
    ensures bits[lo..mid] == bits'[lo..mid] && bits[mid..hi] == bits'[mid..hi]
  {
    assert bits[lo..mid] == bits[lo..hi][..mid - lo];
    assert bits'[lo..mid] == bits'[lo..hi][..mid - lo];
    assert bits[mid..hi] == bits[lo..hi][mid - lo..];
    assert bits'[mid..hi] == bits'[lo..hi][mid - lo..];
  }

  /** A sample depends only on the bits from start up to the index it returns. */
  lemma SampleReadsOnlyConsumed(max: nat, bits: seq<bool>, bits': seq<bool>, start: nat)
    requires max <= MaxRange && start <= |bits| && start <= |bits'|
    requires Sample(max, bits, start).Success?
    requires var next := Sample(max, bits, start).value.next;
             next <= |bits'| && bits[start..next] == bits'[start..next]
    ensures Sample(max, bits', start) == Sample(max, bits, start)
  {
    var next := Sample(max, bits, start).value.next;
    var k := CeilLog2(max);
    var pos := start + k;
    SplitAgreement(bits, bits', start, pos, next);
    var v, p := LsbValue(bits[start..pos]), Pow2(k);
    GrownRange(max, p);
    SampleAfterGrowth(max, bits, start, pos, v, p);
    SampleAfterGrowth(max, bits', start, pos, v, p);
    RejectReadsOnlyConsumed(max, bits, bits', pos, v, p);
  }
}
