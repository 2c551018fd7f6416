/**
  Feeding a waveform to an output FIFO: `xo400_fill_fifo` and `xo400_write_fifo_dma` of acq400_drv.c and
  `xo400_write_fifo` of acq400_core.c. The waveform is held in host buffers of equal length, numbered from 0,
  and is addressed in bytes; the FIFO is emptied by the hardware meanwhile.
 */
module Awg {
  import opened Arith

  type Byte = int

  const FIFO_MARGIN := 8      // samples never filled, at the top of the FIFO
  const MAX_ITER := 1000

  /** Sizes in bytes, but for `maxFifo`, in samples. */
  datatype Params = Params(
    ss: nat,            // one sample, AOSS
    len: nat,           // one host buffer
    block: nat,         // AO420_MAX_FILL_BLOCK
    minDma: nat, threshold: nat, haveDma: bool, maxFifo: nat)
  {
    ghost predicate Valid() {
      0 < ss && 0 < len && 0 < block && 0 < minDma && FIFO_MARGIN < maxFifo
    }

    /** The most headroom there can be, in samples. */
    function Depth(): (n: int) {
      maxFifo - FIFO_MARGIN
    }

    /** The most that a pass can want from one buffer. */
    function Reach(): (n: int) {
      Min(len, Depth() * ss)
    }

    /**
      The feeder stays in step: buffers hold whole samples; rounding to the DMA size is never reached, or keeps
      whole samples; the block is never reached, or leaves whole samples by DMA, or by words less than one word more;
      and samples written by words are whole words.
     */
    ghost predicate Regular()
      requires Valid()
    {
      && len % ss == 0
      && (RoundUp(minDma, ss) > Min(block, Reach()) || minDma % ss == 0 || ss % minDma == 0)
      && (block >= Reach() || if block >= minDma then Rounded(minDma, block) % ss == 0 else ss <= block && block % ss < 4)
      && (ss % 4 == 0 || minDma <= ss)
    }
  }

  /** The least multiple of `ss` that is not below `x`. */
  function RoundUp(x: nat, ss: nat): (y: nat)
    requires 0 < ss
  {
    ((x + ss - 1) / ss) * ss
  }

  /** A multiple of the DMA size if as large. */
  function Rounded(minDma: nat, b: nat): (n: nat)
    requires 0 < minDma
  {
    if b >= minDma then (b / minDma) * minDma else b
  }

  function Max(a: int, b: int): (m: int) {
    if a < b then b else a
  }

  function Headroom(p: Params, fifo: nat): (n: nat)
    requires FIFO_MARGIN < p.maxFifo
  {
    if fifo > p.maxFifo - FIFO_MARGIN then 0 else p.maxFifo - FIFO_MARGIN - fifo
  }

  // ----- How much one transfer carries

  /** What is asked for at `from`, no further than the end of the buffer. */
  function Clipped(p: Params, from: nat, bytes: nat): (b: nat)
    requires 0 < p.len
  {
    Min(bytes, p.len - from % p.len)
  }

  /** What `xo400_write_fifo_dma` says it has written. */
  function Transfer(p: Params, from: nat, bytes: nat): (n: nat)
    requires p.Valid()
  {
    Rounded(p.minDma, Clipped(p, from, bytes))
  }

  /** What it writes: by DMA, or by words, from the word that `from` is in. */
  function Sent(p: Params, hb: seq<Byte>, from: nat, bytes: nat): (s: seq<Byte>)
    requires p.Valid() && from + bytes <= |hb|
  {
    var b := Clipped(p, from, bytes);
    var start := from - from % p.len % 4;
    if b >= p.minDma then RoundedIs(p.minDma, b); hb[from..from + Rounded(p.minDma, b)]
    else WordStart(from, p.len); hb[start..start + b / 4 * 4]
  }

  lemma WordStart(from: nat, len: nat)
    requires 0 < len
    ensures 0 <= from % len % 4 <= from % len <= from
  {
    assert from == (from / len) * len + from % len;
    MulLe(0, from / len, len);
  }

  /** How much a pass asks for; Later when the FIFO is nearly full and the rest is left for the next time. */
  datatype Ask = Ask(bytes: nat) | Later

  function Asked(p: Params, remaining: nat, headroom: nat): (a: Ask)
    requires p.Valid()
  {
    var bytes := Wanted(p, remaining, headroom);
    if p.haveDma && bytes > Max(p.minDma, p.threshold) then Ask((bytes / p.minDma) * p.minDma)
    else if headroom < remaining then Later
    else Ask(bytes)
  }

  /** What a pass wants, before DMA sizes: what remains, fits, and is in the block. */
  function Wanted(p: Params, remaining: nat, headroom: nat): (n: nat) {
    Min(Min(remaining, headroom) * p.ss, p.block)
  }

  function Samples(bytes: nat, ss: nat): (n: nat)
    requires 0 < ss
  {
    bytes / ss
  }

  lemma RoundedIs(minDma: nat, b: nat)
    requires 0 < minDma
    ensures Rounded(minDma, b) <= b && (0 < b ==> 0 < Rounded(minDma, b))
    ensures b - minDma < Rounded(minDma, b)
    ensures minDma <= b ==> minDma <= Rounded(minDma, b)
  {
    assert b == (b / minDma) * minDma + b % minDma;
    if minDma <= b {
      DivBound(b, 0, minDma);
      MulLe(1, b / minDma, minDma);
    }
  }

  /** Rounding what was rounded already, or was cut between, gives the same. */
  lemma RoundedBetween(minDma: nat, a: nat, x: nat)
    requires 0 < minDma <= a && Rounded(minDma, a) <= x <= a
    ensures Rounded(minDma, x) == Rounded(minDma, a)
  {
    var q := a / minDma;
    RoundedIs(minDma, a);
    DivModUnique(x, q, x - q * minDma, minDma);
  }

  /** DMA or not, a pass that is made carries what remains, fits, and is in the block and the buffer, rounded once. */
  lemma PassCarries(p: Params, from: nat, remaining: nat, headroom: nat)
    requires p.Valid() && Asked(p, remaining, headroom).Ask?
    ensures var v := Min(Min(remaining * p.ss, headroom * p.ss), Min(p.block, p.len - from % p.len));
      && v == Clipped(p, from, Wanted(p, remaining, headroom))
      && Transfer(p, from, Asked(p, remaining, headroom).bytes) == (if v < p.minDma then v else v / p.minDma * p.minDma)
      && (Clipped(p, from, Asked(p, remaining, headroom).bytes) >= p.minDma <==> v >= p.minDma)
  {
    RoomFor(remaining, headroom, p.ss);
    var bytes, x := Wanted(p, remaining, headroom), p.len - from % p.len;
    if p.haveDma && bytes > Max(p.minDma, p.threshold) {
      var a := Rounded(p.minDma, bytes);
      RoundedIs(p.minDma, bytes);
      if x >= a {
        RoundedBetween(p.minDma, bytes, a);
        RoundedBetween(p.minDma, bytes, Min(bytes, x));
      }
    }
  }

  /** A pass asks for something, and no more than remains and fits the FIFO. */
  lemma AskedFits(p: Params, remaining: nat, headroom: nat)
    requires p.Valid() && 0 < remaining && 0 < headroom && Asked(p, remaining, headroom).Ask?
    ensures 0 < Asked(p, remaining, headroom).bytes <= Min(remaining, headroom) * p.ss
  {
    var n := Min(remaining, headroom);
    var bytes := Min(n * p.ss, p.block);
    MulLe(1, n, p.ss);
    RoundedIs(p.minDma, bytes);
  }

  /** A transfer makes progress and stays in its buffer. */
  lemma TransferFits(p: Params, from: nat, bytes: nat)
    requires p.Valid() && 0 < bytes
    ensures var n := Transfer(p, from, bytes); 0 < n <= bytes && from % p.len + n <= p.len
  {
    RoundedIs(p.minDma, Clipped(p, from, bytes));
  }

  // ----- Exactly when passes stay in step

  /** A pass from sample `cursor` moves on, and whatever the waveform writes just the samples that it moves past. */
  ghost predicate InStepPass(p: Params, cursor: nat, remaining: nat, headroom: nat)
    requires p.Valid() && Asked(p, remaining, headroom).Ask?
  {
    var from, bytes := cursor * p.ss, Asked(p, remaining, headroom).bytes;
    var k := Samples(Transfer(p, from, bytes), p.ss);
    0 < k && forall hb: seq<Byte> :: from + bytes <= |hb| ==>
      from + k * p.ss <= |hb| && Sent(p, hb, from, bytes) == hb[from..from + k * p.ss]
  }

  /** Every pass that the feeder can come to make. */
  ghost predicate EveryPassInStep(p: Params)
    requires p.Valid()
  {
    forall cursor: nat, remaining: nat, headroom: nat ::
      0 < remaining && p.maxFifo / 128 < headroom <= p.Depth() && Asked(p, remaining, headroom).Ask? ==>
      InStepPass(p, cursor, remaining, headroom)
  }

  /** In sizes: `v` bytes from `from` on go as whole samples by DMA, or as the whole words of whole samples. */
  ghost predicate Exact(p: Params, from: nat, v: nat)
    requires p.Valid()
  {
    if v >= p.minDma then Rounded(p.minDma, v) % p.ss == 0
    else from % p.len % 4 == 0 && v / 4 * 4 == v / p.ss * p.ss && p.ss <= v
  }

  lemma SameStretch(a: nat, b: nat, c: nat, d: nat, n: nat)
    requires a <= b <= n && c < d <= n && seq(n, i => i)[a..b] == seq(n, i => i)[c..d]
    ensures a == c && b == d
  {
    var s := seq(n, i => i);
    assert |s[a..b]| == |s[c..d]| && s[a..b][0] == s[c..d][0];
  }

  lemma ExactAsked(p: Params, from: nat, remaining: nat, headroom: nat)
    requires p.Valid() && Asked(p, remaining, headroom).Ask?
    ensures Exact(p, from, Clipped(p, from, Asked(p, remaining, headroom).bytes)) <==>
            Exact(p, from, Clipped(p, from, Wanted(p, remaining, headroom)))
  {
    PassCarries(p, from, remaining, headroom);
    AskedClipped(p, from, remaining, headroom);
  }

  /** A pass is in step exactly when what it carries is. */
  lemma InStepPassIff(p: Params, cursor: nat, remaining: nat, headroom: nat)
    requires p.Valid() && 0 < remaining && 0 < headroom && Asked(p, remaining, headroom).Ask?
    ensures InStepPass(p, cursor, remaining, headroom) <==>
            Exact(p, cursor * p.ss, Clipped(p, cursor * p.ss, Wanted(p, remaining, headroom)))
  {
    var from, bytes := cursor * p.ss, Asked(p, remaining, headroom).bytes;
    AskedFits(p, remaining, headroom);
    ExactAsked(p, from, remaining, headroom);
    TransferInStepIff(p, from, bytes);
  }

  lemma TransferInStepIff(p: Params, from: nat, bytes: nat)
    requires p.Valid() && 0 < bytes
    ensures var k := Samples(Transfer(p, from, bytes), p.ss);
      (0 < k && forall hb: seq<Byte> :: from + bytes <= |hb| ==>
        from + k * p.ss <= |hb| && Sent(p, hb, from, bytes) == hb[from..from + k * p.ss])
      <==> Exact(p, from, Clipped(p, from, bytes))
  {
    var k := Samples(Transfer(p, from, bytes), p.ss);
    var hb0: seq<Byte> := seq(from + bytes, i => i);
    if Exact(p, from, Clipped(p, from, bytes)) {
      forall hb: seq<Byte> | from + bytes <= |hb|
        ensures from + k * p.ss <= |hb| && Sent(p, hb, from, bytes) == hb[from..from + k * p.ss]
      {
        ExactSent(p, hb, from, bytes);
      }
      ExactSent(p, hb0, from, bytes);
    } else if 0 < k && from + k * p.ss <= |hb0| && Sent(p, hb0, from, bytes) == hb0[from..from + k * p.ss] {
      SentExact(p, from, bytes);
    }
  }

  /** Whole samples by DMA, or by words, are written as they are. */
  lemma ExactSent(p: Params, hb: seq<Byte>, from: nat, bytes: nat)
    requires p.Valid() && 0 < bytes && from + bytes <= |hb| && Exact(p, from, Clipped(p, from, bytes))
    ensures var k := Samples(Transfer(p, from, bytes), p.ss);
      0 < k && k * p.ss <= bytes && Sent(p, hb, from, bytes) == hb[from..from + k * p.ss]
  {
    var v, n := Clipped(p, from, bytes), Transfer(p, from, bytes);
    TransferFits(p, from, bytes);
    WholeSamples(n, p.ss);
    SomeSamples(n, p.ss);
    if v < p.minDma {
      assert n == v && Sent(p, hb, from, bytes) == hb[from..from + v / 4 * 4];
    } else {
      assert Sent(p, hb, from, bytes) == hb[from..from + n];
    }
  }

  lemma WholeSamples(n: nat, ss: nat)
    requires 0 < ss
    ensures Samples(n, ss) * ss <= n && (n % ss == 0 ==> Samples(n, ss) * ss == n)
  {
    assert n == n / ss * ss + n % ss;
  }

  lemma SomeSamples(n: nat, ss: nat)
    requires 0 < ss && 0 < n && (ss <= n || n % ss == 0)
    ensures 0 < n / ss
  {
    WholeOrMore(if n % ss == 0 then n else ss, ss);
    DivBound(n, 0, ss);
  }

  /** And only they. */
  lemma SentExact(p: Params, from: nat, bytes: nat)
    requires p.Valid() && 0 < bytes
    requires var k, hb := Samples(Transfer(p, from, bytes), p.ss), seq(from + bytes, i => i);
      0 < k && from + k * p.ss <= |hb| && Sent(p, hb, from, bytes) == hb[from..from + k * p.ss]
    ensures Exact(p, from, Clipped(p, from, bytes))
  {
    var v, n := Clipped(p, from, bytes), Transfer(p, from, bytes);
    var k, start := Samples(n, p.ss), from - from % p.len % 4;
    TransferFits(p, from, bytes);
    WordStart(from, p.len);
    MulLe(1, k, p.ss);
    if v >= p.minDma {
      SameStretch(from, from + n, from, from + k * p.ss, from + bytes);
      Multiple(k, p.ss);
    } else {
      SameStretch(start, start + v / 4 * 4, from, from + k * p.ss, from + bytes);
    }
  }

  lemma Multiple(q: int, ss: nat)
    requires 0 < ss
    ensures (q * ss) % ss == 0
  {
    ExactDiv(q, q * ss, ss);
  }

  lemma ProductAligned(q: int, d: int, ss: nat)
    requires 0 < ss && d % ss == 0
    ensures (q * d) % ss == 0
  {
    assert d == (d / ss) * ss;
    assert q * d == (q * (d / ss)) * ss;
    ExactDiv(q * (d / ss), q * d, ss);
  }

  lemma SumAligned(a: int, b: int, ss: nat)
    requires 0 < ss && a % ss == 0 && b % ss == 0
    ensures (a + b) % ss == 0 && (a - b) % ss == 0
  {
    var q, r := a / ss, b / ss;
    MulDistrib(q, r, ss);
    ExactDiv(q + r, a + b, ss);
    ExactDiv(q - r, a - b, ss);
  }

  /** Where buffers hold whole samples, so does what comes before and after a sample in its buffer. */
  lemma OffsetAligned(p: Params, cursor: nat)
    requires p.Valid() && p.len % p.ss == 0
    ensures cursor * p.ss % p.len % p.ss == 0 && (p.len - cursor * p.ss % p.len) % p.ss == 0
  {
    var from := cursor * p.ss;
    var q, offset := from / p.len, from % p.len;
    assert from == q * p.len + offset;
    Multiple(cursor, p.ss);
    ProductAligned(q, p.len, p.ss);
    SumAligned(from, q * p.len, p.ss);
    SumAligned(p.len, offset, p.ss);
  }

  lemma RoundUpIs(x: nat, ss: nat, v: nat)
    requires 0 < ss && v % ss == 0 && x <= v
    ensures RoundUp(x, ss) <= v
  {
    var k := v / ss;
    assert v == k * ss;
    DivBound(x + ss - 1, k, ss);
    MulDistrib(k, 1, ss);
    MulLe((x + ss - 1) / ss, k, ss);
  }

  lemma RoundUpBounds(x: nat, ss: nat)
    requires 0 < ss
    ensures x <= RoundUp(x, ss) < x + ss && RoundUp(x, ss) % ss == 0
  {
    var y := x + ss - 1;
    assert y == (y / ss) * ss + y % ss;
    Multiple(y / ss, ss);
  }

  lemma RoundedNested(minDma: nat, ss: nat, v: nat)
    requires 0 < minDma && 0 < ss && ss % minDma == 0 && v % ss == 0
    ensures Rounded(minDma, v) == v
  {
    assert v == (v / ss) * ss;
    ProductAligned(v / ss, ss, minDma);
    assert v == (v / minDma) * minDma + v % minDma;
  }

  /** Whole samples, rounded, are whole samples. */
  lemma RoundedWhole(p: Params, v: nat)
    requires p.Valid() && p.Regular() && v % p.ss == 0 && v <= Min(p.block, p.Reach())
    ensures Rounded(p.minDma, v) % p.ss == 0
  {
    if v >= p.minDma {
      RoundUpIs(p.minDma, p.ss, v);
      if p.minDma % p.ss == 0 {
        ProductAligned(v / p.minDma, p.minDma, p.ss);
      } else {
        RoundedNested(p.minDma, p.ss, v);
      }
    }
  }

  /** Where buffers hold whole samples a pass gets whole samples, or the block. */
  lemma WholeOrBlock(p: Params, cursor: nat, remaining: nat, headroom: nat)
    requires p.Valid() && p.len % p.ss == 0 && 0 < remaining && 0 < headroom <= p.Depth()
    ensures var from := cursor * p.ss; var v := Clipped(p, from, Wanted(p, remaining, headroom));
      0 < v <= Min(p.block, p.Reach()) && from % p.len % p.ss == 0 && (v % p.ss == 0 || v == p.block < p.Reach())
  {
    var n := Min(remaining, headroom);
    OffsetAligned(p, cursor);
    Multiple(n, p.ss);
    Multiple(p.Depth(), p.ss);
    MulLe(n, p.Depth(), p.ss);
    MulLe(1, n, p.ss);
  }

  lemma RegularSuffices(p: Params, cursor: nat, remaining: nat, headroom: nat)
    requires p.Valid() && p.Regular() && 0 < remaining && 0 < headroom <= p.Depth()
    ensures Exact(p, cursor * p.ss, Clipped(p, cursor * p.ss, Wanted(p, remaining, headroom)))
  {
    var from := cursor * p.ss;
    var v, offset := Clipped(p, from, Wanted(p, remaining, headroom)), from % p.len;
    WholeOrBlock(p, cursor, remaining, headroom);
    if v % p.ss == 0 {
      RoundedWhole(p, v);
      SamplesAreWords(p, v, offset);
    } else if v < p.minDma {
      BlockAreWords(p, offset);
    }
  }

  /** Whole samples, too few for DMA, are whole words. */
  lemma SamplesAreWords(p: Params, v: nat, offset: nat)
    requires p.Valid() && p.Regular() && 0 < v && v % p.ss == 0 && offset % p.ss == 0
    ensures v >= p.minDma || (offset % 4 == 0 && v / 4 * 4 == v / p.ss * p.ss && p.ss <= v)
  {
    if v < p.minDma {
      WholeOrMore(v, p.ss);
      WordsOf(v, p.ss);
      WordsOf(offset, p.ss);
      assert v == v / p.ss * p.ss;
    }
  }

  /** And so is the block but for less than a word. */
  lemma BlockAreWords(p: Params, offset: nat)
    requires p.Valid() && p.Regular() && p.block < p.Reach() && p.block < p.minDma && offset % p.ss == 0
    ensures offset % 4 == 0 && p.block / 4 * 4 == p.block / p.ss * p.ss && p.ss <= p.block
  {
    WordsOf(offset, p.ss);
    NearlyWords(p.block, p.ss);
  }

  lemma NearlyWords(b: nat, ss: nat)
    requires 0 < ss && ss % 4 == 0 && b % ss < 4
    ensures b / 4 * 4 == b / ss * ss
  {
    var w := b / ss * ss;
    assert b == w + b % ss;
    Multiple(b / ss, ss);
    WordsOf(w, ss);
    DivModUnique(b, w / 4, b - w, 4);
  }

  /** Below the DMA size, what is asked for is what was wanted. */
  lemma AskedClipped(p: Params, from: nat, remaining: nat, headroom: nat)
    requires p.Valid() && Asked(p, remaining, headroom).Ask?
    ensures var v := Clipped(p, from, Wanted(p, remaining, headroom));
      v < p.minDma ==> Clipped(p, from, Asked(p, remaining, headroom).bytes) == v
  {
    var bytes := Wanted(p, remaining, headroom);
    RoundedIs(p.minDma, bytes);
  }

  lemma WordsOf(n: nat, ss: nat)
    requires 0 < ss && n % ss == 0 && ss % 4 == 0
    ensures n % 4 == 0
  {
    assert n == (n / ss) * ss;
    ProductAligned(n / ss, ss, 4);
  }

  /** A pass of `n` samples from the start of a buffer with room for them. */
  lemma FirstPassOf(p: Params, n: nat)
    requires p.Valid() && 0 < n <= p.Depth() && n * p.ss <= p.len && EveryPassInStep(p)
    ensures Exact(p, 0, Min(n * p.ss, p.block))
  {
    assert Asked(p, n, p.Depth()).Ask?;
    assert InStepPass(p, 0, n, p.Depth());
    InStepPassIff(p, 0, n, p.Depth());
    assert Clipped(p, 0, Wanted(p, n, p.Depth())) == Min(n * p.ss, p.block);
  }

  lemma BuffersWhole(p: Params)
    requires p.Valid() && EveryPassInStep(p)
    ensures p.len % p.ss == 0
  {
    var e := p.len % p.ss;
    if e != 0 {
      var c := p.len / p.ss;
      assert p.len == c * p.ss + e;
      assert Asked(p, 1, p.Depth()).Ask?;
      assert InStepPass(p, c, 1, p.Depth());
      PassCarries(p, c * p.ss, 1, p.Depth());
      DivModUnique(c * p.ss, 0, c * p.ss, p.len);
      var v := Clipped(p, c * p.ss, Wanted(p, 1, p.Depth()));
      RoundedIs(p.minDma, v);
      DivModUnique(Rounded(p.minDma, v), 0, Rounded(p.minDma, v), p.ss);
    }
  }

  lemma RoundingWhole(p: Params)
    requires p.Valid() && EveryPassInStep(p) && p.len % p.ss == 0
    ensures RoundUp(p.minDma, p.ss) > Min(p.block, p.Reach()) || p.minDma % p.ss == 0 || p.ss % p.minDma == 0
  {
    var v := RoundUp(p.minDma, p.ss);
    RoundUpBounds(p.minDma, p.ss);
    if v <= Min(p.block, p.Reach()) {
      var n := v / p.ss;
      assert v == n * p.ss;
      RoomFor(n, p.Depth(), p.ss);
      FirstPassOf(p, n);
      RoundedIs(p.minDma, v);
      if p.ss < p.minDma {
        RoundUpOnce(p.minDma, p.ss);
      } else {
        RoundUpIsOne(p.minDma, p.ss);
        WholeOrNothing(Rounded(p.minDma, p.ss), p.ss);
        RoundedSelf(p.minDma, p.ss);
      }
    }
  }

  lemma RoundUpOnce(minDma: nat, ss: nat)
    requires 0 < ss < minDma
    ensures Rounded(minDma, RoundUp(minDma, ss)) == minDma
  {
    RoundUpBounds(minDma, ss);
    DivModUnique(RoundUp(minDma, ss), 1, RoundUp(minDma, ss) - minDma, minDma);
  }

  lemma RoundUpIsOne(minDma: nat, ss: nat)
    requires 0 < minDma <= ss
    ensures RoundUp(minDma, ss) == ss
  {
    DivModUnique(minDma + ss - 1, 1, minDma - 1, ss);
  }

  lemma RoundedSelf(minDma: nat, b: nat)
    requires 0 < minDma <= b && Rounded(minDma, b) == b
    ensures b % minDma == 0
  {
    Multiple(b / minDma, minDma);
  }

  /** A positive number of whole samples that is at most one sample is one sample. */
  lemma WholeOrNothing(x: nat, ss: nat)
    requires 0 < x <= ss && x % ss == 0
    ensures x == ss
  {
    if x < ss {
      DivModUnique(x, 0, x, ss);
    }
  }

  lemma BlockWhole(p: Params)
    requires p.Valid() && EveryPassInStep(p) && p.len % p.ss == 0
    ensures p.block >= p.Reach() ||
            if p.block >= p.minDma then Rounded(p.minDma, p.block) % p.ss == 0 else p.ss <= p.block && p.block % p.ss < 4
  {
    Multiple(p.Depth(), p.ss);
    var n := p.Reach() / p.ss;
    assert p.Reach() == n * p.ss;
    RoomFor(n, p.Depth(), p.ss);
    if p.block < p.Reach() {
      FirstPassOf(p, n);
      assert p.block == p.block / p.ss * p.ss + p.block % p.ss;
    }
  }

  lemma WordsWhole(p: Params)
    requires p.Valid() && EveryPassInStep(p) && p.len % p.ss == 0
    ensures p.ss % 4 == 0 || p.minDma <= p.ss
  {
    BlockWhole(p);
    WholeOrMore(p.len, p.ss);
    MulLe(1, p.Depth(), p.ss);
    if p.block < p.ss {
      RoundedIs(p.minDma, p.block);
      WholeOrNothing(Rounded(p.minDma, p.block), p.ss);
    }
    FirstPassOf(p, 1);
    DivModUnique(p.ss, 1, 0, p.ss);
  }

  lemma WholeOrMore(x: nat, ss: nat)
    requires 0 < ss && 0 < x && x % ss == 0
    ensures ss <= x
  {
    if x < ss {
      DivModUnique(x, 0, x, ss);
    }
  }

  /** Every pass moves on and writes just the samples that it moves past, exactly when the sizes are `Regular`. */
  lemma EveryPassInStepIff(p: Params)
    requires p.Valid()
    ensures EveryPassInStep(p) <==> p.Regular()
  {
    if p.Regular() {
      forall cursor: nat, remaining: nat, headroom: nat |
        0 < remaining && p.maxFifo / 128 < headroom <= p.Depth() && Asked(p, remaining, headroom).Ask?
        ensures InStepPass(p, cursor, remaining, headroom)
      {
        RegularSuffices(p, cursor, remaining, headroom);
        InStepPassIff(p, cursor, remaining, headroom);
      }
    }
    if EveryPassInStep(p) {
      BuffersWhole(p);
      RoundingWhole(p);
      BlockWhole(p);
      WordsWhole(p);
    }
  }

  // ----- One pass

  datatype Play = Play(cursor: nat, emitted: seq<Byte>)

  /** A pass of `xo400_fill_fifo`, over a waveform of `length` samples. */
  function Pass(p: Params, hb: seq<Byte>, length: nat, s: Play, headroom: nat): (s': Play)
    requires p.Valid() && s.cursor <= length
  {
    var ask, from := Asked(p, length - s.cursor, headroom), s.cursor * p.ss;
    if ask.Later? || from + ask.bytes > |hb| then s
    else Play(s.cursor + Samples(Transfer(p, from, ask.bytes), p.ss), s.emitted + Sent(p, hb, from, ask.bytes))
  }

  /**
    With a 12-byte sample and the standard sizes the second pass goes back 4 bytes, into the sample that the
    first one cut: where the waveform differs from itself 4 bytes on, the FIFO is given something else.
   */
  lemma StandardBlockRepeats(p: Params, hb: seq<Byte>, length: nat, h1: nat, h2: nat) returns (s1: Play, s2: Play)
    requires p.Valid() && p.ss == 12 && p.block == 16384 && p.minDma == 32000 && p.threshold == 32000
    requires 32768 <= p.len && 4096 <= length <= h1 && length <= h2 && 49152 <= 12 * length <= |hb|
    ensures s1 == Pass(p, hb, length, Play(0, []), h1) && s1.cursor <= length && s2 == Pass(p, hb, length, s1, h2)
    ensures s2.emitted == hb[..16384] + hb[16380..32764]
    ensures hb[16380] != hb[16384] ==> !(s2.emitted <= hb)
  {
    s1, s2 := Play(1365, hb[..16384]), Play(2730, hb[..16384] + hb[16380..32764]);
    FirstPass12(p, hb, length, h1);
    SecondPass12(p, hb, length, h2);
    if hb[16380] != hb[16384] {
      NotThePrefix(hb);
    }
  }

  lemma NotThePrefix(hb: seq<Byte>)
    requires 32768 <= |hb| && hb[16380] != hb[16384]
    ensures !(hb[..16384] + hb[16380..32764] <= hb)
  {
    assert (hb[..16384] + hb[16380..32764])[16384] == hb[16380];
  }

  lemma FirstPass12(p: Params, hb: seq<Byte>, length: nat, h1: nat)
    requires p.Valid() && p.ss == 12 && p.block == 16384 && p.minDma == 32000 && p.threshold == 32000
    requires 32768 <= p.len && 4096 <= length <= h1 && 12 * length <= |hb|
    ensures Pass(p, hb, length, Play(0, []), h1) == Play(1365, hb[..16384])
  {
    DivModUnique(0, 0, 0, p.len);
    assert Asked(p, length, h1) == Ask(16384);
    assert Clipped(p, 0, 16384) == 16384;
    assert [] + hb[0..16384] == hb[..16384];
  }

  lemma SecondPass12(p: Params, hb: seq<Byte>, length: nat, h2: nat)
    requires p.Valid() && p.ss == 12 && p.block == 16384 && p.minDma == 32000 && p.threshold == 32000
    requires 32768 <= p.len && 4096 <= length <= h2 && 12 * length <= |hb|
    ensures Pass(p, hb, length, Play(1365, hb[..16384]), h2) == Play(2730, hb[..16384] + hb[16380..32764])
  {
    DivModUnique(16380, 0, 16380, p.len);
    assert Asked(p, length - 1365, h2) == Ask(16384);
    assert Clipped(p, 16380, 16384) == 16384;
  }

  // ----- The waveform, over and over

  ghost function Looped(w: seq<Byte>, n: nat): (s: seq<Byte>) {
    if n == 0 then [] else Looped(w, n - 1) + w
  }

  lemma {:induction false} LoopedLen(w: seq<Byte>, n: nat)
    ensures |Looped(w, n)| == n * |w|
  {
    if n > 0 {
      LoopedLen(w, n - 1);
      MulDistrib(n, 1, |w|);
    }
  }

  /** Byte `k` of what was emitted is byte `k`, round and round, of the waveform. */
  lemma {:induction false} LoopedAt(w: seq<Byte>, n: nat, c: nat, k: nat)
    requires c <= |w| && k < n * |w| + c
    ensures w != [] && |Looped(w, n) + w[..c]| == n * |w| + c && (Looped(w, n) + w[..c])[k] == w[k % |w|]
    decreases n
  {
    LoopedLen(w, n);
    if k >= n * |w| {
      DivModUnique(k, n, k - n * |w|, |w|);
    } else {
      MulDistrib(n, 1, |w|);
      LoopedAt(w, n - 1, |w|, k);
      assert w[..|w|] == w;
    }
  }

  // ----- The feeder

  /** A pass that asks for at most `n` samples stays inside the waveform. */
  lemma PassFits(p: Params, cursor: nat, length: nat, n: nat, bytes: nat)
    requires 0 < p.ss && cursor + n <= length && bytes <= n * p.ss
    ensures cursor * p.ss + bytes <= length * p.ss
  {
    MulDistrib(cursor, n, p.ss);
    MulLe(cursor + n, length, p.ss);
  }

  lemma SamplesOf(p: Params, n: nat, bytes: nat)
    requires 0 < p.ss && bytes <= n * p.ss
    ensures 0 <= bytes / p.ss <= n
  {
    DivBound(bytes, n, p.ss);
    MulDistrib(n, 1, p.ss);
    var k := bytes / p.ss;
    assert bytes == k * p.ss + bytes % p.ss;
    if n < k {
      MulLe(n + 1, k, p.ss);
    }
  }

  /** All that was written is the waveform, over and over, as far as the cursor. */
  ghost predicate InStep(p: Params, wave: seq<Byte>, loops: nat, s: Play) {
    s.cursor * p.ss <= |wave| && s.emitted == Looped(wave, loops) + wave[..s.cursor * p.ss]
  }

  /** Where sizes are regular, a pass stays in step and moves on. */
  lemma PassInStep(p: Params, hb: seq<Byte>, length: nat, loops: nat, s: Play, headroom: nat)
    requires p.Valid() && p.Regular() && s.cursor < length && length * p.ss <= |hb| && 0 < headroom <= p.Depth()
    requires InStep(p, hb[..length * p.ss], loops, s) && Asked(p, length - s.cursor, headroom).Ask?
    ensures var s' := Pass(p, hb, length, s, headroom);
      s.cursor < s'.cursor && |s.emitted| < |s'.emitted| && InStep(p, hb[..length * p.ss], loops, s')
  {
    var from, wave := s.cursor * p.ss, hb[..length * p.ss];
    var k := PassIs(p, hb, length, s, headroom);
    assert s.emitted + hb[from..from + k * p.ss] == Looped(wave, loops) + wave[..from + k * p.ss];
  }

  lemma PassIs(p: Params, hb: seq<Byte>, length: nat, s: Play, headroom: nat) returns (k: nat)
    requires p.Valid() && p.Regular() && s.cursor < length && length * p.ss <= |hb| && 0 < headroom <= p.Depth()
    requires Asked(p, length - s.cursor, headroom).Ask?
    ensures var from := s.cursor * p.ss;
      && 0 < k && 0 < k * p.ss && from + k * p.ss <= length * p.ss && (s.cursor + k) * p.ss == from + k * p.ss
      && Pass(p, hb, length, s, headroom) == Play(s.cursor + k, s.emitted + hb[from..from + k * p.ss])
      && hb[..length * p.ss][..from] + hb[from..from + k * p.ss] == hb[..length * p.ss][..from + k * p.ss]
  {
    var remaining := length - s.cursor;
    var from, bytes := s.cursor * p.ss, Asked(p, remaining, headroom).bytes;
    AskedFits(p, remaining, headroom);
    PassFits(p, s.cursor, length, Min(remaining, headroom), bytes);
    k := Samples(Transfer(p, from, bytes), p.ss);
    RegularSent(p, hb, s.cursor, remaining, headroom);
    MoveOn(p, hb, length, s, from, bytes, k);
  }

  lemma RegularSent(p: Params, hb: seq<Byte>, cursor: nat, remaining: nat, headroom: nat)
    requires p.Valid() && p.Regular() && 0 < remaining && 0 < headroom <= p.Depth() && Asked(p, remaining, headroom).Ask?
    requires cursor * p.ss + Asked(p, remaining, headroom).bytes <= |hb|
    ensures var from, bytes := cursor * p.ss, Asked(p, remaining, headroom).bytes;
      var k := Samples(Transfer(p, from, bytes), p.ss);
      0 < k && from + k * p.ss <= |hb| && Sent(p, hb, from, bytes) == hb[from..from + k * p.ss]
  {
    RegularSuffices(p, cursor, remaining, headroom);
    InStepPassIff(p, cursor, remaining, headroom);
  }

  lemma MoveOn(p: Params, hb: seq<Byte>, length: nat, s: Play, from: nat, bytes: nat, k: nat)
    requires p.Valid() && 0 < bytes && from == s.cursor * p.ss && from + bytes <= length * p.ss <= |hb|
    requires k == Samples(Transfer(p, from, bytes), p.ss) && 0 < k
    ensures 0 < k * p.ss && from + k * p.ss <= length * p.ss && (s.cursor + k) * p.ss == from + k * p.ss
    ensures hb[..length * p.ss][..from] + hb[from..from + k * p.ss] == hb[..length * p.ss][..from + k * p.ss]
  {
    TransferFits(p, from, bytes);
    WholeSamples(Transfer(p, from, bytes), p.ss);
    MulLe(1, k, p.ss);
    MulDistrib(s.cursor, k, p.ss);
    StretchNext(hb, length * p.ss, from, k * p.ss);
  }

  lemma StretchNext(hb: seq<Byte>, n: nat, c: nat, k: nat)
    requires c + k <= n <= |hb|
    ensures hb[..n][..c] + hb[c..c + k] == hb[..n][..c + k]
  {
  }

  function Drained(fifo: nat, n: nat): (f: nat) {
    if n > fifo then 0 else fifo - n
  }

  /** There is something to play, and more room for it than the FIFO is filled for. */
  ghost predicate Room(p: Params, length: nat, cursor: nat, fifo: nat) {
    cursor < length && p.Depth() - fifo > p.maxFifo / 128
  }

  /** And a pass must be made: the rest fits, or DMA can be had, and what fits is enough for it. */
  ghost predicate MustPass(p: Params, length: nat, cursor: nat, fifo: nat) {
    var room := p.Depth() - fifo;
    && Room(p, length, cursor, fifo)
    && (length - cursor <= room || (p.haveDma && Min(room * p.ss, p.block) > Max(p.minDma, p.threshold)))
  }

  /** A pass asks for something exactly when it must be made. */
  lemma AskedIff(p: Params, length: nat, cursor: nat, fifo: nat)
    requires p.Valid() && Room(p, length, cursor, fifo)
    ensures Headroom(p, fifo) == p.Depth() - fifo
    ensures Asked(p, length - cursor, Headroom(p, fifo)).Ask? <==> MustPass(p, length, cursor, fifo)
  {
  }

  class Feeder {
    const p: Params
    const hb: seq<Byte>           // the host buffers, end to end
    const length: nat             // AO_playloop.length, in samples
    const oneshot: bool
    const repeats0: nat
    var cursor: nat               // AO_playloop.cursor, in samples
    var repeats: nat
    var fifo: nat                 // samples in the FIFO
    var done: bool
    ghost var emitted: seq<Byte>  // all that was written to the FIFO
    ghost var loops: nat          // times the waveform has been completed and begun again

    ghost function Wave(): (w: seq<Byte>)
      requires length * p.ss <= |hb|
    {
      hb[..length * p.ss]
    }

    ghost predicate Valid()
      reads this
    {
      && p.Valid() && length * p.ss <= |hb| && cursor <= length
      && (p.Regular() ==> InStep(p, Wave(), loops, Play(cursor, emitted)))
      && (done ==> oneshot && cursor == length)
      && (oneshot && !done ==> loops + repeats == repeats0 && (0 < repeats || repeats0 == 0))
      && (oneshot && done ==> loops + 1 == Max(1, repeats0) && repeats == 0)
    }

    constructor (p: Params, hb: seq<Byte>, length: nat, oneshot: bool, repeats: nat)
      requires p.Valid() && length * p.ss <= |hb|
      ensures Valid() && cursor == 0 && !done && emitted == [] && loops == 0
      ensures this.p == p && this.hb == hb && this.length == length && this.oneshot == oneshot && repeats0 == repeats
    {
      this.p, this.hb, this.length, this.oneshot, this.repeats0 := p, hb, length, oneshot, repeats;
      cursor, this.repeats, fifo, done, emitted, loops := 0, repeats, 0, false, [], 0;
      new;
      MulLe(0, length, p.ss);
    }

    /** `xo400_write_fifo_dma`, down to `xo400_write_fifo` for what is too little for DMA. */
    method WriteFifoDma(frombyte: nat, bytes: nat) returns (rc: nat)
      requires p.Valid() && 0 < bytes && frombyte + bytes <= |hb|
      modifies this`emitted
      ensures rc == Transfer(p, frombyte, bytes) && 0 < rc <= bytes
      ensures emitted == old(emitted) + Sent(p, hb, frombyte, bytes)
    {
      TransferFits(p, frombyte, bytes);
      var ib, offset := Locate(frombyte);
      var n := if offset + bytes > p.len then p.len - offset else bytes;
      if n >= p.minDma {
        rc := DmaMemcpy(ib, offset, (n / p.minDma) * p.minDma, frombyte);
      } else {
        rc := WriteFifo(frombyte, n);
      }
    }

    /** The buffer a byte is in, and where. */
    method Locate(frombyte: nat) returns (ib: nat, offset: nat)
      requires 0 < p.len
      ensures offset == frombyte % p.len && ib * p.len + offset == frombyte
    {
      ib := frombyte / p.len;
      offset := frombyte - ib * p.len;
    }

    /** `dma_memcpy` from inside buffer `ib`; DMA is taken to succeed. */
    method DmaMemcpy(ib: nat, offset: nat, bytes: nat, ghost frombyte: nat) returns (rc: nat)
      requires offset + bytes <= p.len && frombyte == ib * p.len + offset && frombyte + bytes <= |hb|
      modifies this`emitted
      ensures rc == bytes && emitted == old(emitted) + hb[frombyte..frombyte + bytes]
    {
      var from := ib * p.len + offset;
      emitted := emitted + hb[from..from + bytes];
      rc := bytes;
    }

    /** `xo400_write_fifo`: whole words, from a word, with no check on the end of the buffer. */
    method WriteFifo(frombyte: nat, bytes: nat) returns (rc: nat)
      requires 0 < p.len && frombyte + bytes <= |hb|
      modifies this`emitted
      ensures var start := frombyte - frombyte % p.len % 4;
        rc == bytes && 0 <= start && emitted == old(emitted) + hb[start..start + bytes / 4 * 4]
    {
      WordStart(frombyte, p.len);
      var ib, offset := Locate(frombyte);
      var va := ib * p.len + 4 * (offset / 4);
      assert hb[va..va] == [];
      for ii := 0 to bytes / 4
        invariant emitted == old(emitted) + hb[va..va + 4 * ii]
      {
        emitted := emitted + hb[va + 4 * ii..va + 4 * ii + 4];
      }
      rc := bytes;
    }

    /** One pass of the loop in `xo400_fill_fifo`, with the FIFO as the headroom was read. */
    method FillPass(headroom: nat) returns (more: bool)
      requires Valid() && cursor < length && p.maxFifo / 128 < headroom && fifo + headroom <= p.maxFifo - FIFO_MARGIN
      modifies this`cursor, this`fifo, this`emitted
      ensures Valid() && fifo <= p.maxFifo - FIFO_MARGIN
      ensures Play(cursor, emitted) == Pass(p, hb, length, Play(old(cursor), old(emitted)), headroom)
      ensures more == Asked(p, length - old(cursor), headroom).Ask?
      ensures old(emitted) <= emitted && old(cursor) <= cursor && fifo - old(fifo) == cursor - old(cursor) <= headroom
      ensures p.Regular() && more ==> old(cursor) < cursor && |old(emitted)| < |emitted|
    {
      var remaining := length - cursor;
      var ask := Asked(p, remaining, headroom);
      if ask.Later? {
        return false;
      }
      AskedFits(p, remaining, headroom);
      ghost var emitted0 := emitted;
      var n := Min(remaining, headroom);
      PassFits(p, cursor, length, n, ask.bytes);
      var bytes := WriteFifoDma(cursor * p.ss, ask.bytes);
      SamplesOf(p, n, bytes);
      if p.Regular() {
        PassInStep(p, hb, length, loops, Play(cursor, emitted0), headroom);
      }
      cursor := cursor + bytes / p.ss;
      fifo := fifo + bytes / p.ss;
      more := true;
    }

    /** `n` samples leave the FIFO; then a pass, if there is room and it must be made. */
    method FillStep(n: nat) returns (room: bool, more: bool)
      requires Valid() && cursor < length
      modifies this`cursor, this`fifo, this`emitted
      ensures Valid() && fifo <= Max(old(fifo), p.maxFifo - FIFO_MARGIN) && old(emitted) <= emitted
      ensures room == Room(p, length, old(cursor), Drained(old(fifo), n))
      ensures more == MustPass(p, length, old(cursor), Drained(old(fifo), n))
      ensures if more then p.Regular() ==> |old(emitted)| < |emitted| else emitted == old(emitted)
    {
      fifo := Drained(fifo, n);
      var headroom := Headroom(p, fifo);
      if headroom <= p.maxFifo / 128 {
        return false, false;
      }
      room := true;
      AskedIff(p, length, cursor, fifo);
      more := FillPass(headroom);
    }

    /** The loop of `xo400_fill_fifo`; `drained(i)` samples leave the FIFO before pass `i`. */
    method FillLoop(drained: nat -> nat) returns (rc: nat)
      requires Valid()
      modifies this`cursor, this`fifo, this`emitted
      ensures Valid() && fifo <= Max(old(fifo), p.maxFifo - FIFO_MARGIN)
      ensures old(emitted) <= emitted && (done ==> emitted == old(emitted))
      ensures var fifo0 := Drained(old(fifo), drained(0));
        && rc == (if Room(p, length, old(cursor), fifo0) then 1 else 0)
        && (p.Regular() ==> (|old(emitted)| < |emitted| <==> MustPass(p, length, old(cursor), fifo0)))
    {
      rc := 0;
      var i := 0;
      ghost var fifo0 := Drained(fifo, drained(0));
      while cursor < length && i < MAX_ITER
        invariant Valid() && old(emitted) <= emitted && fifo <= Max(old(fifo), p.maxFifo - FIFO_MARGIN)
        invariant i == 0 ==> cursor == old(cursor) && fifo == old(fifo) && emitted == old(emitted) && rc == 0
        invariant i > 0 ==> rc == 1 && MustPass(p, length, old(cursor), fifo0) && (p.Regular() ==> |old(emitted)| < |emitted|)
        decreases MAX_ITER - i
      {
        var room, more := FillStep(drained(i));
        if !room {
          break;
        }
        rc := 1;
        if !more {
          break;
        }
        i := i + 1;
      }
    }

    /** `xo400_fill_fifo`. */
    method FillFifo(drained: nat -> nat) returns (rc: nat)
      requires Valid()
      modifies this
      ensures Valid() && fifo <= Max(old(fifo), p.maxFifo - FIFO_MARGIN)
      ensures old(emitted) <= emitted && old(loops) <= loops && (old(done) ==> done && emitted == old(emitted))
      ensures var fifo0 := Drained(old(fifo), drained(0));
        && rc == (if !done && Room(p, length, old(cursor), fifo0) then 1 else 0)
        && (p.Regular() ==> (|old(emitted)| < |emitted| <==> MustPass(p, length, old(cursor), fifo0)))
      ensures 0 < length && !done ==> cursor < length
    {
      rc := FillLoop(drained);
      if length > 0 && cursor >= length {
        rc := EndOfLoop(rc);
      }
    }

    /** The end of the waveform: finish, or begin it again. */
    method EndOfLoop(rc0: nat) returns (rc: nat)
      requires Valid() && cursor == length
      modifies this`cursor, this`repeats, this`done, this`loops
      ensures Valid() && (old(done) ==> done)
      ensures emitted == old(emitted) && fifo == old(fifo)
      ensures done <==> oneshot && old(repeats) <= 1
      ensures if done then rc == 0 && cursor == length && loops == old(loops)
              else rc == rc0 && cursor == 0 && loops == old(loops) + 1
    {
      rc := rc0;
      var last := false;
      if oneshot {
        if repeats == 0 {
          last := true;
        } else {
          repeats := repeats - 1;
          last := repeats == 0;
        }
      }
      if last {
        rc, done := 0, true;
      } else {
        assert p.Regular() ==> Wave()[..cursor * p.ss] == Wave();
        cursor, loops := 0, loops + 1;
      }
    }
  }
}
