/**
  Averaging samples before they are sent on: `ASR` and the `writeBuffer` methods of OversamplingMapBuffer and
  OversamplingMapBufferSingleSample in acq400_stream.cpp. Sums are kept in 32-bit integers.
 */
module Oversample {
  import opened Arith
  import opened Bits
  import opened MapBuffers
  import ChannelFiles

  const HALF32 := 0x8000_0000

  /** A 32-bit integer, after wrapping round. */
  function Int32(x: int): (y: int) {
    (x + HALF32) % 0x1_0000_0000 - HALF32
  }

  lemma Fits32(x: int)
    requires -HALF32 <= x < HALF32
    ensures Int32(x) == x
  {
  }

  /** Wrapping at every step is wrapping once. */
  lemma Int32Add(a: int, b: int)
    ensures Int32(Int32(a) + b) == Int32(a + b)
  {
  }

  lemma Int32Sized(x: int)
    ensures Sized(Int32(x), HALF32)
  {
  }

  /** `x` is of size `m`. */
  predicate Sized(x: int, m: int) {
    -m <= x < m
  }

  // ----- Shifts

  /** `ASR`: the least shift that makes room for `os` terms. */
  method Asr(os: nat) returns (asr: nat)
    requires os <= 0x4000_0000
    ensures os <= Pow2(asr) && (asr == 0 || Pow2(asr - 1) < os)
  {
    asr := 0;
    var one := 1;
    while one < os
      invariant one == Pow2(asr) && (asr == 0 || Pow2(asr - 1) < os)
      decreases os - one
    {
      one, asr := 2 * one, asr + 1;
    }
  }

  lemma ShiftedIs(x: int, k: nat)
    ensures Shifted(x, k) * Pow2(k) <= x < Shifted(x, k) * Pow2(k) + Pow2(k)
  {
    AndSplit(x, k);
  }

  lemma ShiftedUnique(x: int, k: nat, q: int)
    requires q * Pow2(k) <= x < q * Pow2(k) + Pow2(k)
    ensures Shifted(x, k) == q
  {
    ShiftedIs(x, k);
    DivModUnique(x, q, x - q * Pow2(k), Pow2(k));
    DivModUnique(x, Shifted(x, k), x - Shifted(x, k) * Pow2(k), Pow2(k));
  }

  lemma {:induction false} ShiftBound(x: int, b: nat, k: nat)
    requires Sized(x, Pow2(b)) && k <= b
    ensures Sized(Shifted(x, k), Pow2(b - k))
    decreases k
  {
    if k > 0 {
      ShiftBound(x / 2, b - 1, k - 1);
    }
  }

  /** A sum of `n` terms of size `m`, shifted, is of size `big` if that is as much room before the shift. */
  lemma ShiftedSumBound(sum: int, n: nat, m: nat, big: nat, asr: nat)
    requires 0 < m && 0 < big && n * m <= big * Pow2(asr) && -(n * m) <= sum <= n * (m - 1)
    ensures Sized(Shifted(sum, asr), big)
  {
    ShiftedIs(sum, asr);
    QuotientSized(sum, Pow2(asr), Shifted(sum, asr), n, m, big);
  }

  lemma QuotientSized(sum: int, p: nat, q: int, n: nat, m: nat, big: nat)
    requires 0 < p && 0 < big && q * p <= sum < q * p + p && n * m <= big * p && -(n * m) <= sum <= n * (m - 1)
    ensures Sized(q, big)
  {
    if q + big < 0 {
      MulLe(q + 1, 0 - big, p);
      MulDistrib(q, 1, p);
    } else if q >= big {
      MulLe(big, q, p);
      assert n * (m - 1) == n * m - n;
      MulLe(1, big, p);
    }
  }

  // ----- Sums

  /** Of channel `ic`, `n` samples `stride` apart from sample `s0`, each shifted by `asr1`. */
  function WindowSum(src: seq<Word>, nchan: nat, asr1: nat, ic: nat, s0: nat, stride: nat, n: nat): (sum: int)
    decreases n
  {
    if n == 0 then 0
    else WindowSum(src, nchan, asr1, ic, s0, stride, n - 1) + Shifted(At(src, (s0 + (n - 1) * stride) * nchan + ic), asr1)
  }

  /** Every term is of size `m`. */
  ghost predicate TermsWithin(src: seq<Word>, asr1: nat, m: nat) {
    0 < m && forall i :: 0 <= i < |src| ==> Sized(Shifted(src[i], asr1), m)
  }

  lemma TermWithin(src: seq<Word>, asr1: nat, m: nat, i: int)
    requires TermsWithin(src, asr1, m)
    ensures Sized(Shifted(At(src, i), asr1), m)
  {
    if !(0 <= i < |src|) {
      MulLe(0, 0, Pow2(asr1));
      ShiftedUnique(0, asr1, 0);
    }
  }

  lemma {:induction false} WindowSumBound(src: seq<Word>, nchan: nat, asr1: nat, ic: nat, s0: nat, stride: nat, n: nat, m: nat)
    requires TermsWithin(src, asr1, m)
    ensures -(n * m) <= WindowSum(src, nchan, asr1, ic, s0, stride, n) <= n * (m - 1)
    decreases n
  {
    if n > 0 {
      WindowSumBound(src, nchan, asr1, ic, s0, stride, n - 1, m);
      TermWithin(src, asr1, m, (s0 + (n - 1) * stride) * nchan + ic);
      MulDistrib(n, 1, m);
      MulDistrib(n, 1, m - 1);
    }
  }

  /** Partial sums of up to `over` terms do not overflow. */
  lemma NoOverflow(src: seq<Word>, nchan: nat, asr1: nat, ic: nat, s0: nat, stride: nat, n: nat, over: nat, m: nat)
    requires TermsWithin(src, asr1, m) && n <= over && over * m <= HALF32
    ensures var sum := WindowSum(src, nchan, asr1, ic, s0, stride, n); Int32(sum) == sum
  {
    var sum := WindowSum(src, nchan, asr1, ic, s0, stride, n);
    WindowSumBound(src, nchan, asr1, ic, s0, stride, n, m);
    MulLe(n, over, m);
    MulLe(0, n, m);
    assert n * (m - 1) == n * m - n;
    if n == 0 {
      assert sum == 0;
    }
    Fits32(sum);
  }

  /** No partial sum of up to `over` terms wraps. */
  ghost predicate NeverWraps(src: seq<Word>, nchan: nat, asr1: nat, ic: nat, s0: nat, stride: nat, over: nat) {
    forall n: nat :: n <= over ==>
      Int32(WindowSum(src, nchan, asr1, ic, s0, stride, n)) == WindowSum(src, nchan, asr1, ic, s0, stride, n)
  }

  ghost predicate SumsAre(sums: seq<int>, src: seq<Word>, nchan: nat, asr1: nat, s0: nat, stride: nat, n: nat) {
    |sums| == nchan && forall ic: nat :: ic < nchan ==> sums[ic] == Int32(WindowSum(src, nchan, asr1, ic, s0, stride, n))
  }

  /** One more sample onto the sums. */
  method AddSample(src: seq<Word>, nchan: nat, asr1: nat, isam: nat, sums: array<int>, ghost s0: nat, ghost stride: nat, ghost n: nat)
    requires SumsAre(sums[..], src, nchan, asr1, s0, stride, n) && isam == s0 + n * stride && isam * nchan + nchan <= |src|
    modifies sums
    ensures SumsAre(sums[..], src, nchan, asr1, s0, stride, n + 1)
  {
    for ic := 0 to nchan
      invariant forall i: nat :: i < nchan ==>
        sums[i] == Int32(WindowSum(src, nchan, asr1, i, s0, stride, if i < ic then n + 1 else n))
    {
      Int32Add(WindowSum(src, nchan, asr1, ic, s0, stride, n), Shifted(src[isam * nchan + ic], asr1));
      sums[ic] := Int32(sums[ic] + Shifted(src[isam * nchan + ic], asr1));
    }
  }

  // ----- Many samples out

  /** Output sample `o`: the shifted sum of its `over` samples, channel by channel. */
  ghost function OutRow(src: seq<Word>, nchan: nat, asr1: nat, asr: nat, over: nat, o: nat): (row: seq<int>) {
    seq(nchan, ic requires 0 <= ic => Shifted(WindowSum(src, nchan, asr1, ic, o * over, 1, over), asr))
  }

  /** And as the 32-bit sums give it, wrapped or not. */
  ghost function WrappedRow(src: seq<Word>, nchan: nat, asr1: nat, asr: nat, over: nat, o: nat): (row: seq<int>) {
    seq(nchan, ic requires 0 <= ic => Shifted(Int32(WindowSum(src, nchan, asr1, ic, o * over, 1, over)), asr))
  }

  lemma RowUnwrapped(src: seq<Word>, nchan: nat, asr1: nat, asr: nat, over: nat, o: nat, m: nat)
    requires TermsWithin(src, asr1, m) && over * m <= HALF32
    ensures WrappedRow(src, nchan, asr1, asr, over, o) == OutRow(src, nchan, asr1, asr, over, o)
  {
    forall ic | 0 <= ic < nchan
      ensures WrappedRow(src, nchan, asr1, asr, over, o)[ic] == OutRow(src, nchan, asr1, asr, over, o)[ic]
    {
      NoOverflow(src, nchan, asr1, ic, o * over, 1, over, over, m);
    }
  }

  // What the rows are, channel by channel

  ghost function Sum(xs: seq<int>): (sum: int) {
    if xs == [] then 0 else Sum(xs[..|xs| - 1]) + xs[|xs| - 1]
  }

  ghost function EachShifted(xs: seq<int>, k: nat): (ys: seq<int>) {
    seq(|xs|, i requires 0 <= i < |xs| => Shifted(xs[i], k))
  }

  /** Every `stride`th of a sequence, from its first. */
  ghost function Every(xs: seq<int>, stride: nat, n: nat): (ys: seq<int>)
    requires forall i: nat :: i < n ==> i * stride < |xs|
  {
    seq(n, i requires 0 <= i < n => xs[i * stride])
  }

  /** The words of channel `ic`. */
  ghost function Channel(src: seq<Word>, nchan: nat, nsam: nat, ic: nat): (col: seq<int>) {
    ChannelFiles.Column(src, nchan, nsam, ic)
  }

  lemma {:induction false} WindowIsSlice(src: seq<Word>, nchan: nat, nsam: nat, asr1: nat, ic: nat, s0: nat, n: nat)
    requires s0 + n <= nsam
    ensures WindowSum(src, nchan, asr1, ic, s0, 1, n) == Sum(EachShifted(Channel(src, nchan, nsam, ic)[s0..s0 + n], asr1))
    decreases n
  {
    if n > 0 {
      WindowIsSlice(src, nchan, nsam, asr1, ic, s0, n - 1);
      var col := Channel(src, nchan, nsam, ic);
      var xs := EachShifted(col[s0..s0 + n], asr1);
      assert xs[..n - 1] == EachShifted(col[s0..s0 + (n - 1)], asr1);
      assert xs[n - 1] == Shifted(At(src, (s0 + (n - 1)) * nchan + ic), asr1);
      assert s0 + (n - 1) * 1 == s0 + (n - 1);
    }
  }

  /** Output sample `o` of a channel is the shifted sum of its own `over` samples of that channel, each shifted first. */
  lemma RowIsAverage(src: seq<Word>, nchan: nat, nsam: nat, asr1: nat, asr: nat, over: nat, o: nat, ic: nat)
    requires ic < nchan && o * over + over <= nsam
    ensures var sum := Sum(EachShifted(Channel(src, nchan, nsam, ic)[o * over..o * over + over], asr1));
      && OutRow(src, nchan, asr1, asr, over, o)[ic] == Shifted(sum, asr)
      && WrappedRow(src, nchan, asr1, asr, over, o)[ic] == Shifted(Int32(sum), asr)
  {
    WindowIsSlice(src, nchan, nsam, asr1, ic, o * over, over);
  }

  method EmitRow(sums: array<int>, asr: nat) returns (row: seq<int>)
    modifies sums
    ensures |row| == sums.Length && forall ic :: 0 <= ic < sums.Length ==> row[ic] == Shifted(old(sums[ic]), asr)
    ensures forall ic :: 0 <= ic < sums.Length ==> sums[ic] == 0
  {
    row := [];
    for ic := 0 to sums.Length
      invariant |row| == ic && forall i :: 0 <= i < ic ==> row[i] == Shifted(old(sums[i]), asr) && sums[i] == 0
      invariant forall i :: ic <= i < sums.Length ==> sums[i] == old(sums[i])
    {
      row := row + [Shifted(sums[ic], asr)];
      sums[ic] := 0;
    }
  }

  /** Samples `isam` on, `nsum` of them summed into row `osam`. */
  lemma Position(isam: nat, osam: nat, nsum: nat, over: nat, nsam: nat, nchan: nat)
    requires isam == osam * over + nsum && isam < nsam
    ensures isam == osam * over + nsum * 1 && isam * nchan + nchan <= nsam * nchan
    ensures (osam + 1) * over == osam * over + over
  {
    MulLe(isam + 1, nsam, nchan);
    MulDistrib(isam, 1, nchan);
    MulDistrib(osam, 1, over);
  }

  /** `OversamplingMapBuffer::writeBuffer`: rows of output, one after another. */
  method WriteBuffer(src: seq<Word>, nchan: nat, nsam: nat, over: nat, asr: nat, asr1: nat) returns (out: seq<seq<int>>)
    requires 0 < over && nsam * nchan <= |src|
    ensures |out| == nsam / over
    ensures forall o: nat :: o < |out| ==> out[o] == WrappedRow(src, nchan, asr1, asr, over, o)
    ensures forall m: nat, o: nat :: TermsWithin(src, asr1, m) && over * m <= HALF32 && o < |out| ==>
      out[o] == OutRow(src, nchan, asr1, asr, over, o)
    ensures forall o: nat, ic: nat :: o < |out| && ic < nchan ==> Averaged(src, nchan, nsam, asr1, asr, over, out, o, ic)
  {
    var sums := new int[nchan](_ => 0);
    var nsum, osam := 0, 0;
    out := [];
    assert osam * over == 0;
    for isam := 0 to nsam
      invariant isam == osam * over + nsum && nsum < over && osam == |out|
      invariant SumsAre(sums[..], src, nchan, asr1, osam * over, 1, nsum)
      invariant forall o: nat :: o < |out| ==> out[o] == WrappedRow(src, nchan, asr1, asr, over, o)
    {
      Position(isam, osam, nsum, over, nsam, nchan);
      AddSample(src, nchan, asr1, isam, sums, osam * over, 1, nsum);
      nsum := nsum + 1;
      if nsum >= over {
        var row := EmitRow(sums, asr);
        assert row == WrappedRow(src, nchan, asr1, asr, over, osam);
        out := out + [row];
        nsum, osam := 0, osam + 1;
      }
    }
    DivModUnique(nsam, osam, nsum, over);
    RowsAre(src, nchan, nsam, over, asr, asr1, out);
  }

  /** Word `ic` of row `o`: of the samples of its channel that are its own. */
  ghost predicate Averaged(src: seq<Word>, nchan: nat, nsam: nat, asr1: nat, asr: nat, over: nat, out: seq<seq<int>>, o: nat, ic: nat)
    requires o < |out|
  {
    && |out[o]| == nchan && ic < nchan && o * over + over <= nsam
    && out[o][ic] == Shifted(Int32(Sum(EachShifted(Channel(src, nchan, nsam, ic)[o * over..o * over + over], asr1))), asr)
  }

  lemma RowsAre(src: seq<Word>, nchan: nat, nsam: nat, over: nat, asr: nat, asr1: nat, out: seq<seq<int>>)
    requires 0 < over && |out| == nsam / over
    requires forall o: nat :: o < |out| ==> out[o] == WrappedRow(src, nchan, asr1, asr, over, o)
    ensures forall m: nat, o: nat :: TermsWithin(src, asr1, m) && over * m <= HALF32 && o < |out| ==>
      out[o] == OutRow(src, nchan, asr1, asr, over, o)
    ensures forall o: nat, ic: nat :: o < |out| && ic < nchan ==> Averaged(src, nchan, nsam, asr1, asr, over, out, o, ic)
  {
    forall m: nat, o: nat | TermsWithin(src, asr1, m) && over * m <= HALF32 && o < |out|
      ensures out[o] == OutRow(src, nchan, asr1, asr, over, o)
    {
      RowUnwrapped(src, nchan, asr1, asr, over, o, m);
    }
    forall o: nat, ic: nat | o < |out| && ic < nchan
      ensures Averaged(src, nchan, nsam, asr1, asr, over, out, o, ic)
    {
      RowInside(nsam, over, o);
      RowIsAverage(src, nchan, nsam, asr1, asr, over, o, ic);
    }
  }

  lemma RowInside(nsam: nat, over: nat, o: nat)
    requires 0 < over && o < nsam / over
    ensures o * over + over <= nsam
  {
    MulLe(o + 1, nsam / over, over);
    MulDistrib(o, 1, over);
    assert nsam == nsam / over * over + nsam % over;
  }

  /** With the shift `ASR` gives, every output is of the size of the shifted inputs, and so fits the output type. */
  lemma OutputWithin(src: seq<Word>, nchan: nat, asr1: nat, asr: nat, over: nat, o: nat, ic: nat, m: nat)
    requires TermsWithin(src, asr1, m) && over <= Pow2(asr) && ic < nchan
    ensures Sized(OutRow(src, nchan, asr1, asr, over, o)[ic], m)
  {
    WindowSumBound(src, nchan, asr1, ic, o * over, 1, over, m);
    MulLe(over, Pow2(asr), m);
    ShiftedSumBound(WindowSum(src, nchan, asr1, ic, o * over, 1, over), over, m, m, asr);
  }

  /** 16-bit data, unshifted, can be summed 65536 at a time; 32-bit data, shifted by 8, 256 at a time. */
  lemma SafeFactors(src: seq<Word>, bits: nat, asr1: nat, over: nat)
    requires (bits == 15 && asr1 == 0 && over <= 65536) || (bits == 31 && asr1 == 8 && over <= 256)
    requires AllSized(src, bits)
    ensures TermsWithin(src, asr1, Pow2(bits - asr1)) && over * Pow2(bits - asr1) <= HALF32
  {
    SizedTerms(src, bits, asr1);
    Pow2Values();
  }

  /** Data of so many bits and a sign. */
  ghost predicate AllSized(src: seq<Word>, bits: nat) {
    forall i :: 0 <= i < |src| ==> Sized(src[i], Pow2(bits))
  }

  lemma SizedTerms(src: seq<Word>, bits: nat, asr1: nat)
    requires AllSized(src, bits) && asr1 <= bits
    ensures TermsWithin(src, asr1, Pow2(bits - asr1))
  {
    forall i | 0 <= i < |src|
      ensures Sized(Shifted(src[i], asr1), Pow2(bits - asr1))
    {
      ShiftBound(src[i], bits, asr1);
    }
  }

  /** `writeBuffer` with the shifts the buffer is made with: `ASR` of the factor, and 8 first for 32-bit data. */
  method WriteAveraged(src: seq<Word>, nchan: nat, nsam: nat, over: nat, bits: nat) returns (out: seq<seq<int>>, asr: nat)
    requires (bits == 15 && 0 < over <= 65536) || (bits == 31 && 0 < over <= 256)
    requires nsam * nchan <= |src| && AllSized(src, bits)
    ensures over <= Pow2(asr) && (asr == 0 || Pow2(asr - 1) < over)
    ensures |out| == nsam / over
    ensures forall o: nat :: o < |out| ==> out[o] == OutRow(src, nchan, PreShift(bits), asr, over, o)
    ensures forall o: nat, ic: nat :: o < |out| && ic < |out[o]| ==> Sized(out[o][ic], Pow2(bits - PreShift(bits)))
  {
    var asr1 := PreShift(bits);
    asr := Asr(over);
    SafeFactors(src, bits, asr1, over);
    out := WriteBuffer(src, nchan, nsam, over, asr, asr1);
    forall o: nat, ic: nat | o < |out| && ic < |out[o]|
      ensures Sized(out[o][ic], Pow2(bits - asr1))
    {
      OutputWithin(src, nchan, asr1, asr, over, o, ic, Pow2(bits - asr1));
    }
  }

  /** The shift before summing: `asr1`, for data of so many bits and a sign. */
  function PreShift(bits: nat): (asr1: nat) {
    if bits == 31 then 8 else 0
  }

  // ----- A steady input

  ghost function Steady(x: Word, n: nat): (src: seq<Word>) {
    seq(n, _ => x)
  }

  /** The samples summed are all in the buffer. */
  ghost predicate InBuffer(nsam: nat, s0: nat, stride: nat, n: nat) {
    n == 0 || s0 + (n - 1) * stride < nsam
  }

  lemma {:induction false} SteadySum(x: Word, nchan: nat, nsam: nat, asr1: nat, ic: nat, s0: nat, stride: nat, n: nat)
    requires ic < nchan && InBuffer(nsam, s0, stride, n)
    ensures WindowSum(Steady(x, nsam * nchan), nchan, asr1, ic, s0, stride, n) == n * Shifted(x, asr1)
    decreases n
  {
    if n > 0 {
      var s := s0 + (n - 1) * stride;
      InBufferLess(nsam, s0, stride, n);
      SteadySum(x, nchan, nsam, asr1, ic, s0, stride, n - 1);
      SampleInside(s, nsam, nchan, ic);
      assert At(Steady(x, nsam * nchan), s * nchan + ic) == x;
      MulDistrib(n, 1, Shifted(x, asr1));
    }
  }

  lemma InBufferLess(nsam: nat, s0: nat, stride: nat, n: nat)
    requires 0 < n && InBuffer(nsam, s0, stride, n)
    ensures InBuffer(nsam, s0, stride, n - 1)
  {
    MulLe(n - 2, n - 1, stride);
  }

  lemma SampleInside(s: nat, nsam: nat, nchan: nat, ic: nat)
    requires s < nsam && ic < nchan
    ensures 0 <= s * nchan + ic < nsam * nchan
  {
    MulLe(s + 1, nsam, nchan);
    MulDistrib(s, 1, nchan);
  }

  /** Output sample `o` of channel `ic`, from a buffer that holds `x` throughout. */
  ghost function SteadyOut(x: Word, nchan: nat, nsam: nat, asr1: nat, asr: nat, over: nat, o: nat, ic: nat): (y: int)
    requires ic < nchan
  {
    OutRow(Steady(x, nsam * nchan), nchan, asr1, asr, over, o)[ic]
  }

  lemma SteadyOutIs(x: Word, nchan: nat, nsam: nat, asr1: nat, asr: nat, over: nat, o: nat, ic: nat)
    requires ic < nchan && o * over + over <= nsam
    ensures SteadyOut(x, nchan, nsam, asr1, asr, over, o, ic) == Shifted(over * Shifted(x, asr1), asr)
  {
    SteadySum(x, nchan, nsam, asr1, ic, o * over, 1, over);
  }

  lemma ShiftedSmall(x: nat, k: nat)
    requires x < Pow2(k)
    ensures Shifted(x, k) == 0
  {
    ShiftedUnique(x, k, 0);
  }

  lemma ShiftedPow(k: nat)
    ensures Shifted(Pow2(k), k) == 1
  {
    ShiftedUnique(Pow2(k), k, 1);
  }

  lemma ShiftedMultiple(x: int, k: nat)
    ensures Shifted(Pow2(k) * x, k) == x
  {
    ShiftedUnique(Pow2(k) * x, k, x);
  }

  /** A steady level comes out shifted once, whatever it is, exactly when the factor is a power of two. */
  lemma SteadyShiftedIff(nchan: nat, nsam: nat, bits: nat, asr1: nat, asr: nat, over: nat, o: nat, ic: nat)
    requires ic < nchan && 0 < over <= Pow2(asr) && o * over + over <= nsam && asr1 < bits
    ensures (forall x :: Sized(x, Pow2(bits)) ==> SteadyOut(x, nchan, nsam, asr1, asr, over, o, ic) == Shifted(x, asr1))
      <==> over == Pow2(asr)
  {
    if over == Pow2(asr) {
      forall x | Sized(x, Pow2(bits))
        ensures SteadyOut(x, nchan, nsam, asr1, asr, over, o, ic) == Shifted(x, asr1)
      {
        SteadyOutIs(x, nchan, nsam, asr1, asr, over, o, ic);
        ShiftedMultiple(Shifted(x, asr1), asr);
      }
    } else {
      var x := Pow2(asr1);
      Pow2Mono(asr1 + 1, bits);
      SteadyOutIs(x, nchan, nsam, asr1, asr, over, o, ic);
      ShiftedPow(asr1);
      ShiftedSmall(over, asr);
      assert Sized(x, Pow2(bits)) && SteadyOut(x, nchan, nsam, asr1, asr, over, o, ic) == 0;
    }
  }

  /**
    A steady level comes out as it went in, whatever it is, exactly when nothing is shifted away before summing
    and the factor is a power of two: never for 32-bit data.
   */
  lemma SteadyIff(nchan: nat, nsam: nat, bits: nat, asr1: nat, asr: nat, over: nat, o: nat, ic: nat)
    requires ic < nchan && 0 < over <= Pow2(asr) && o * over + over <= nsam && 0 < bits
    ensures (forall x :: Sized(x, Pow2(bits)) ==> SteadyOut(x, nchan, nsam, asr1, asr, over, o, ic) == x)
      <==> asr1 == 0 && over == Pow2(asr)
  {
    if asr1 == 0 {
      assert forall x :: Shifted(x, asr1) == x;
      SteadyShiftedIff(nchan, nsam, bits, asr1, asr, over, o, ic);
    } else {
      Pow2Mono(1, asr1);
      Pow2Mono(1, bits);
      SteadyOutIs(1, nchan, nsam, asr1, asr, over, o, ic);
      ShiftedSmall(1, asr1);
      ShiftedSmall(0, asr);
      assert Sized(1, Pow2(bits)) && SteadyOut(1, nchan, nsam, asr1, asr, over, o, ic) == 0;
    }
  }

  // ----- Exactly when sums wrap

  /** The lowest data there are: every term is `-m`. */
  lemma LowestSum(nchan: nat, nsam: nat, asr1: nat, ic: nat, s0: nat, stride: nat, n: nat, m: nat)
    requires ic < nchan && InBuffer(nsam, s0, stride, n) && 0 < m
    ensures var src := Steady(Pow2(asr1) * (0 - m), nsam * nchan);
      |src| == nsam * nchan && TermsWithin(src, asr1, m) && WindowSum(src, nchan, asr1, ic, s0, stride, n) == -(n * m)
  {
    ShiftedMultiple(0 - m, asr1);
    SteadySum(Pow2(asr1) * (0 - m), nchan, nsam, asr1, ic, s0, stride, n);
    assert n * (0 - m) == -(n * m);
  }

  /** No partial sum of up to `over` terms of size `m` wraps, whatever they are, exactly when `over * m` is within 2^31. */
  lemma NoWrapIff(nchan: nat, nsam: nat, asr1: nat, ic: nat, s0: nat, stride: nat, over: nat, m: nat)
    requires ic < nchan && InBuffer(nsam, s0, stride, over) && 0 < m
    ensures (forall src :: |src| == nsam * nchan && TermsWithin(src, asr1, m) ==> NeverWraps(src, nchan, asr1, ic, s0, stride, over))
      <==> over * m <= HALF32
  {
    if over * m <= HALF32 {
      forall src, n: nat | |src| == nsam * nchan && TermsWithin(src, asr1, m) && n <= over
        ensures Int32(WindowSum(src, nchan, asr1, ic, s0, stride, n)) == WindowSum(src, nchan, asr1, ic, s0, stride, n)
      {
        NoOverflow(src, nchan, asr1, ic, s0, stride, n, over, m);
      }
    } else {
      LowestSum(nchan, nsam, asr1, ic, s0, stride, over, m);
      var src := Steady(Pow2(asr1) * (0 - m), nsam * nchan);
      Int32Sized(WindowSum(src, nchan, asr1, ic, s0, stride, over));
      assert !NeverWraps(src, nchan, asr1, ic, s0, stride, over);
    }
  }

  /** The least number of so many bits and a sign. */
  function Lowest(bits: nat): (x: int) {
    0 - Pow2(bits)
  }

  lemma LowestSized(n: nat, bits: nat, asr1: nat)
    requires asr1 <= bits
    ensures Pow2(asr1) * (0 - Pow2(bits - asr1)) == Lowest(bits) && AllSized(Steady(Lowest(bits), n), bits)
  {
    Pow2Sum(asr1, bits - asr1);
  }

  /** For 16- and 32-bit data, exactly the factors up to 65536 and 256. */
  lemma SafeFactorsIff(nchan: nat, nsam: nat, bits: nat, ic: nat, over: nat)
    requires (bits == 15 || bits == 31) && ic < nchan && over <= nsam
    ensures (forall src :: |src| == nsam * nchan && AllSized(src, bits) ==> NeverWraps(src, nchan, PreShift(bits), ic, 0, 1, over))
      <==> over <= if bits == 15 then 65536 else 256
  {
    var asr1 := PreShift(bits);
    var m := Pow2(bits - asr1);
    Pow2Values();
    if over <= if bits == 15 then 65536 else 256 {
      forall src | |src| == nsam * nchan && AllSized(src, bits)
        ensures NeverWraps(src, nchan, asr1, ic, 0, 1, over)
      {
        SizedTerms(src, bits, asr1);
        NoWrapIff(nchan, nsam, asr1, ic, 0, 1, over, m);
      }
    } else {
      LowestWraps(nchan, nsam, bits, asr1, ic, over);
    }
  }

  lemma LowestWraps(nchan: nat, nsam: nat, bits: nat, asr1: nat, ic: nat, over: nat)
    requires asr1 <= bits && ic < nchan && over <= nsam && HALF32 < over * Pow2(bits - asr1)
    ensures var src := Steady(Lowest(bits), nsam * nchan);
      |src| == nsam * nchan && AllSized(src, bits) && !NeverWraps(src, nchan, asr1, ic, 0, 1, over)
  {
    LowestSum(nchan, nsam, asr1, ic, 0, 1, over, Pow2(bits - asr1));
    LowestSized(nsam * nchan, bits, asr1);
    var src := Steady(Lowest(bits), nsam * nchan);
    Int32Sized(WindowSum(src, nchan, asr1, ic, 0, 1, over));
  }

  // ----- One sample out

  /** Samples taken when stepping by `stride`. */
  function Taken(nsam: nat, stride: nat): (n: nat)
    requires 0 < stride
  {
    (nsam + stride - 1) / stride
  }

  /** Stepping by `nsam / over` takes more than `over` samples unless the factor divides the count. */
  lemma TakenAtMostIff(nsam: nat, over: nat)
    requires 0 < over <= nsam
    ensures 0 < nsam / over && (Taken(nsam, nsam / over) <= over <==> nsam % over == 0)
  {
    var stride, r := nsam / over, nsam % over;
    assert nsam == stride * over + r;
    DivBound(nsam, 0, over);
    DivBound(nsam + stride - 1, over, stride);
    MulDistrib(over, 1, stride);
  }

  lemma TakenIs(nsam: nat, stride: nat, n: nat)
    requires 0 < stride
    ensures n < Taken(nsam, stride) <==> n * stride < nsam
    ensures (n + 1) * stride == n * stride + stride
  {
    DivBound(nsam + stride - 1, n, stride);
    MulDistrib(n, 1, stride);
  }

  /** What the single sample is made of. */
  ghost function SingleSum(src: seq<Word>, nchan: nat, nsam: nat, over: nat, asr1: nat, ic: nat): (sum: int)
    requires 0 < over && 0 < nsam / over
  {
    WindowSum(src, nchan, asr1, ic, 0, nsam / over, Taken(nsam, nsam / over))
  }

  /** The samples stepped on are in the buffer, and the next would not be. */
  lemma SteppedInside(nsam: nat, stride: nat, i: nat)
    requires 0 < stride
    ensures i < Taken(nsam, stride) <==> i * stride < nsam
  {
    TakenIs(nsam, stride, i);
  }

  lemma {:induction false} WindowIsEvery(src: seq<Word>, nchan: nat, nsam: nat, asr1: nat, ic: nat, stride: nat, n: nat)
    requires forall i: nat :: i < n ==> i * stride < nsam
    ensures WindowSum(src, nchan, asr1, ic, 0, stride, n) ==
            Sum(EachShifted(Every(Channel(src, nchan, nsam, ic), stride, n), asr1))
    decreases n
  {
    if n > 0 {
      WindowIsEvery(src, nchan, nsam, asr1, ic, stride, n - 1);
      var col := Channel(src, nchan, nsam, ic);
      var xs := EachShifted(Every(col, stride, n), asr1);
      assert xs[..n - 1] == EachShifted(Every(col, stride, n - 1), asr1);
      assert xs[n - 1] == Shifted(At(src, (n - 1) * stride * nchan + ic), asr1);
      assert 0 + (n - 1) * stride == (n - 1) * stride;
    }
  }

  /** The sum of a single sample is of every `nsam / over`th sample of the channel, from its first to its end. */
  lemma SingleIsEvery(src: seq<Word>, nchan: nat, nsam: nat, over: nat, asr1: nat, ic: nat)
    requires 0 < over && 0 < nsam / over
    ensures var stride := nsam / over; var n := Taken(nsam, stride);
      && (forall i: nat :: i < n <==> i * stride < nsam)
      && SingleSum(src, nchan, nsam, over, asr1, ic) ==
         Sum(EachShifted(Every(Channel(src, nchan, nsam, ic), stride, n), asr1))
  {
    var stride := nsam / over;
    forall i: nat
      ensures i < Taken(nsam, stride) <==> i * stride < nsam
    {
      SteppedInside(nsam, stride, i);
    }
    WindowIsEvery(src, nchan, nsam, asr1, ic, stride, Taken(nsam, stride));
  }

  /** `OversamplingMapBufferSingleSample::writeBuffer`, for data with no run to reject. */
  method WriteSingle(src: seq<Word>, nchan: nat, nsam: nat, over: nat, asr: nat, asr1: nat) returns (out: seq<int>)
    requires 0 < over <= nsam && nsam * nchan <= |src| && 0 < nsam / over
    ensures |out| == nchan
    ensures forall ic: nat :: ic < nchan ==> out[ic] == Shifted(Int32(SingleSum(src, nchan, nsam, over, asr1, ic)), asr)
  {
    var sums := new int[nchan](_ => 0);
    var stride, isam := nsam / over, 0;
    ghost var n, terms := 0, Taken(nsam, stride);
    while isam < nsam
      invariant isam == n * stride && n <= terms && SumsAre(sums[..], src, nchan, asr1, 0, stride, n)
      decreases nsam - isam
    {
      TakenIs(nsam, stride, n);
      MulLe(isam + 1, nsam, nchan);
      MulDistrib(isam, 1, nchan);
      AddSample(src, nchan, asr1, isam, sums, 0, stride, n);
      isam, n := isam + stride, n + 1;
    }
    TakenIs(nsam, stride, n);
    if asr > 0 {
      out := EmitRow(sums, asr);
    } else {
      out := sums[..];
    }
  }

  /** The shift after summing, no more than 8 for 32-bit data, and the shift before, which has the rest. */
  function AfterShift(bits: nat, asrIn: nat): (asr: nat) {
    if bits == 31 && asrIn > 8 then 8 else asrIn
  }

  function BeforeShift(bits: nat, asrIn: nat): (asr1: nat) {
    if bits == 31 then 8 + asrIn - AfterShift(bits, asrIn) else 0
  }

  /** The size of a single sample: as for many. */
  function SingleBits(bits: nat): (b: nat) {
    if bits == 31 then 23 else bits
  }

  /** The split keeps as many bits as it makes room for. */
  lemma SplitRoom(bits: nat, asrIn: nat)
    requires (bits == 15 || bits == 31) && asrIn <= 31
    ensures BeforeShift(bits, asrIn) <= bits
    ensures Pow2(asrIn) * Pow2(bits - BeforeShift(bits, asrIn)) == Pow2(SingleBits(bits)) * Pow2(AfterShift(bits, asrIn))
    ensures bits == 31 ==> Pow2(asrIn) * Pow2(bits - BeforeShift(bits, asrIn)) <= HALF32
  {
    Pow2Sum(asrIn, bits - BeforeShift(bits, asrIn));
    Pow2Sum(SingleBits(bits), AfterShift(bits, asrIn));
    if bits == 31 {
      Pow2Mono(23 + AfterShift(bits, asrIn), 31);
      Pow2Values();
    }
  }

  /** For 32-bit data the shifts make 8 more than was asked for, and none is made before summing that could wait. */
  lemma SplitLeast(asrIn: nat)
    requires asrIn <= 31
    ensures var asr1, asr := BeforeShift(31, asrIn), AfterShift(31, asrIn);
      && asr1 + asr == 8 + asrIn && 8 <= asr1
      && (asr1 == 8 || Pow2(asrIn) * Pow2(31 - (asr1 - 1)) > HALF32)
    ensures BeforeShift(15, asrIn) == 0 && AfterShift(15, asrIn) == asrIn
  {
    var asr1 := BeforeShift(31, asrIn);
    if asr1 > 8 {
      Pow2Sum(asrIn, 31 - (asr1 - 1));
      assert asrIn + 31 - (asr1 - 1) == 32;
      assert Pow2(32) == 2 * Pow2(31);
      Pow2Values();
    }
  }

  /** The sum did not wrap, and what is written is in range. */
  ghost predicate SingleRight(src: seq<Word>, nchan: nat, nsam: nat, over: nat, bits: nat, asrIn: nat, ic: nat)
    requires 0 < over && 0 < nsam / over
  {
    var sum := SingleSum(src, nchan, nsam, over, BeforeShift(bits, asrIn), ic);
    Int32(sum) == sum && Sized(Shifted(sum, AfterShift(bits, asrIn)), Pow2(SingleBits(bits)))
  }

  /** No more terms than the shift makes room for, nor than 16-bit data can be summed. */
  predicate HasRoom(bits: nat, terms: nat, asrIn: nat) {
    terms <= Pow2(asrIn) && (bits == 15 ==> terms <= 65536)
  }

  lemma SafeSingle(src: seq<Word>, nchan: nat, nsam: nat, over: nat, bits: nat, asrIn: nat, ic: nat)
    requires (bits == 15 || bits == 31) && asrIn <= 31 && 0 < over && 0 < nsam / over && AllSized(src, bits)
    requires HasRoom(bits, Taken(nsam, nsam / over), asrIn)
    ensures SingleRight(src, nchan, nsam, over, bits, asrIn, ic)
  {
    var terms, asr1 := Taken(nsam, nsam / over), BeforeShift(bits, asrIn);
    SplitRoom(bits, asrIn);
    var m := Pow2(bits - asr1);
    MulLe(terms, Pow2(asrIn), m);
    if bits == 15 {
      MulLe(terms, 65536, m);
      Pow2Values();
    }
    SizedTerms(src, bits, asr1);
    NoOverflow(src, nchan, asr1, ic, 0, nsam / over, terms, terms, m);
    WindowSumBound(src, nchan, asr1, ic, 0, nsam / over, terms, m);
    ShiftedSumBound(SingleSum(src, nchan, nsam, over, asr1, ic), terms, m, Pow2(SingleBits(bits)), AfterShift(bits, asrIn));
  }

  lemma TakenInBuffer(nsam: nat, stride: nat)
    requires 0 < stride
    ensures InBuffer(nsam, 0, stride, Taken(nsam, stride))
  {
    if Taken(nsam, stride) > 0 {
      TakenIs(nsam, stride, Taken(nsam, stride) - 1);
    }
  }

  lemma LowestSingle(nchan: nat, nsam: nat, over: nat, bits: nat, asr1: nat, ic: nat)
    requires asr1 <= bits && ic < nchan && 0 < over && 0 < nsam / over
    ensures var src := Steady(Lowest(bits), nsam * nchan);
      && |src| == nsam * nchan && AllSized(src, bits)
      && SingleSum(src, nchan, nsam, over, asr1, ic) == -(Taken(nsam, nsam / over) * Pow2(bits - asr1))
  {
    LowestSized(nsam * nchan, bits, asr1);
    TakenInBuffer(nsam, nsam / over);
    LowestSum(nchan, nsam, asr1, ic, 0, nsam / over, Taken(nsam, nsam / over), Pow2(bits - asr1));
  }

  /** With the lowest data it is wrong, where there is not the room. */
  lemma LowestSingleWrong(nchan: nat, nsam: nat, over: nat, bits: nat, asrIn: nat, ic: nat) returns (src: seq<Word>)
    requires (bits == 15 || bits == 31) && asrIn <= 31 && ic < nchan && 0 < over && 0 < nsam / over
    requires !HasRoom(bits, Taken(nsam, nsam / over), asrIn)
    ensures |src| == nsam * nchan && AllSized(src, bits) && !SingleRight(src, nchan, nsam, over, bits, asrIn, ic)
  {
    var terms, asr1 := Taken(nsam, nsam / over), BeforeShift(bits, asrIn);
    SplitRoom(bits, asrIn);
    LowestSingle(nchan, nsam, over, bits, asr1, ic);
    NoRoom(bits, terms, asrIn);
    src := Steady(Lowest(bits), nsam * nchan);
    assert SingleSum(src, nchan, nsam, over, asr1, ic) == -(terms * Pow2(bits - asr1));
  }

  lemma NoRoom(bits: nat, terms: nat, asrIn: nat)
    requires (bits == 15 || bits == 31) && asrIn <= 31 && !HasRoom(bits, terms, asrIn)
    ensures BeforeShift(bits, asrIn) <= bits
    ensures var sum := -(terms * Pow2(bits - BeforeShift(bits, asrIn)));
      Int32(sum) != sum || !Sized(Shifted(sum, AfterShift(bits, asrIn)), Pow2(SingleBits(bits)))
  {
    SplitRoom(bits, asrIn);
    var m := Pow2(bits - BeforeShift(bits, asrIn));
    var sum := -(terms * m);
    if terms > Pow2(asrIn) {
      MulLe(Pow2(asrIn) + 1, terms, m);
      MulDistrib(Pow2(asrIn), 1, m);
      TooLow(sum, AfterShift(bits, asrIn), Pow2(SingleBits(bits)));
    } else {
      Pow2Values();
      Int32Sized(sum);
      MulLe(65537, terms, m);
    }
  }

  lemma TooLow(sum: int, asr: nat, big: nat)
    requires sum < -(big * Pow2(asr))
    ensures !Sized(Shifted(sum, asr), big)
  {
    ShiftedIs(sum, asr);
    var q := Shifted(sum, asr);
    if 0 <= q + big {
      MulLe(0 - big, q, Pow2(asr));
    }
  }

  /** A single sample is right for all data exactly when there is room for the samples that stepping takes. */
  lemma SingleRightIff(nchan: nat, nsam: nat, over: nat, bits: nat, asrIn: nat, ic: nat)
    requires (bits == 15 || bits == 31) && asrIn <= 31 && ic < nchan && 0 < over && 0 < nsam / over
    ensures (forall src :: |src| == nsam * nchan && AllSized(src, bits) ==> SingleRight(src, nchan, nsam, over, bits, asrIn, ic))
      <==> HasRoom(bits, Taken(nsam, nsam / over), asrIn)
  {
    if HasRoom(bits, Taken(nsam, nsam / over), asrIn) {
      forall src | |src| == nsam * nchan && AllSized(src, bits)
        ensures SingleRight(src, nchan, nsam, over, bits, asrIn, ic)
      {
        SafeSingle(src, nchan, nsam, over, bits, asrIn, ic);
      }
    } else {
      var src := LowestSingleWrong(nchan, nsam, over, bits, asrIn, ic);
    }
  }

  lemma LeastShift(over: nat, asrIn: nat)
    requires over <= 0x4000_0000 && (asrIn == 0 || Pow2(asrIn - 1) < over)
    ensures asrIn <= 31
  {
    if asrIn > 31 {
      Pow2Mono(31, asrIn - 1);
      Pow2Values();
    }
  }

  /**
    `writeBuffer` with the shifts the buffer is made with. Where there is room for the samples taken, as there is when
    the factor divides their number and is no more than 65536 for 16-bit data, no sum wraps and outputs are in range.
   */
  method WriteSingleAveraged(src: seq<Word>, nchan: nat, nsam: nat, over: nat, bits: nat) returns (out: seq<int>, asrIn: nat)
    requires (bits == 15 || bits == 31) && 0 < over <= nsam && over <= 0x4000_0000
    requires nsam * nchan <= |src| && AllSized(src, bits)
    ensures over <= Pow2(asrIn) && (asrIn == 0 || Pow2(asrIn - 1) < over)
    ensures 0 < nsam / over && |out| == nchan
    ensures forall ic: nat :: ic < nchan ==>
      out[ic] == Shifted(Int32(SingleSum(src, nchan, nsam, over, BeforeShift(bits, asrIn), ic)), AfterShift(bits, asrIn))
    ensures nsam % over == 0 && (bits == 15 ==> over <= 65536) ==> HasRoom(bits, Taken(nsam, nsam / over), asrIn)
    ensures HasRoom(bits, Taken(nsam, nsam / over), asrIn) ==> forall ic: nat :: ic < nchan ==>
      && out[ic] == Shifted(SingleSum(src, nchan, nsam, over, BeforeShift(bits, asrIn), ic), AfterShift(bits, asrIn))
      && Sized(out[ic], Pow2(SingleBits(bits)))
  {
    asrIn := Asr(over);
    LeastShift(over, asrIn);
    TakenAtMostIff(nsam, over);
    out := WriteSingle(src, nchan, nsam, over, AfterShift(bits, asrIn), BeforeShift(bits, asrIn));
    if HasRoom(bits, Taken(nsam, nsam / over), asrIn) {
      forall ic: nat | ic < nchan
        ensures out[ic] == Shifted(SingleSum(src, nchan, nsam, over, BeforeShift(bits, asrIn), ic), AfterShift(bits, asrIn))
        ensures Sized(out[ic], Pow2(SingleBits(bits)))
      {
        SafeSingle(src, nchan, nsam, over, bits, asrIn, ic);
      }
    }
  }

  lemma {:induction false} Pow2Sum(a: nat, b: nat)
    ensures Pow2(a) * Pow2(b) == Pow2(a + b)
    decreases a
  {
    if a > 0 {
      Pow2Sum(a - 1, b);
      assert Pow2(a) * Pow2(b) == 2 * (Pow2(a - 1) * Pow2(b));
    }
  }

  lemma {:induction false} Pow2Mono(a: nat, b: nat)
    requires a <= b
    ensures Pow2(a) <= Pow2(b)
    decreases b
  {
    if a < b {
      Pow2Mono(a, b - 1);
    }
  }

  lemma Pow2Values()
    ensures Pow2(15) == 0x8000 && Pow2(23) == 0x80_0000 && Pow2(31) == HALF32
  {
    assert Pow2(4) == 16;
    assert Pow2(7) == 8 * Pow2(4);
    Pow2Sum(4, 4);
    Pow2Sum(8, 7);
    Pow2Sum(8, 15);
    Pow2Sum(8, 23);
  }
}
