/**
  The in-place transient demultiplexer: `Demuxer` and `DemuxerImpl` of acq400_stream.cpp.

  The words of a capture are numbered in the order they were sampled ([sample][channel]). The
  demultiplexer rewrites each buffer's worth of them as [channel][sample], in the same memory.
 */
module Demux {
  import opened Arith
  import opened MapBuffers
  import opened Options

  /** Offset in the [column][row] table of what is at offset `x` of the [row][column] table. */
  function Transposed(x: nat, rows: nat, cols: nat): (y: nat)
    requires 0 < rows && 0 < cols
  {
    (x % cols) * rows + x / cols
  }

  /** Where the demultiplexed image keeps capture word `w`. */
  function Slot(g: Geometry, w: nat): (a: nat)
    requires g.Valid()
  {
    (w / g.Len()) * g.Len() + Transposed(w % g.Len(), g.cbs, g.nchan)
  }

  /** The capture word that the demultiplexed image keeps at address `a`. */
  function Logical(g: Geometry, a: nat): (w: nat)
    requires g.Valid()
  {
    (a / g.Len()) * g.Len() + Transposed(a % g.Len(), g.nchan, g.cbs)
  }

  lemma TransposedTwice(x: nat, rows: nat, cols: nat)
    requires 0 < rows && 0 < cols && x < rows * cols
    ensures var y := Transposed(x, rows, cols); y < rows * cols && Transposed(y, cols, rows) == x
  {
    var q, r := x / cols, x % cols;
    DivBound(x, rows - 1, cols);
    MulLe(r + 1, cols, rows);
    DivModUnique(r * rows + q, r, q, rows);
  }

  lemma SlotThenLogical(g: Geometry, w: nat)
    requires g.Valid()
    ensures Logical(g, Slot(g, w)) == w && Slot(g, w) / g.Len() == w / g.Len()
  {
    var q, r := w / g.Len(), w % g.Len();
    var y := Transposed(r, g.cbs, g.nchan);
    TransposedTwice(r, g.cbs, g.nchan);
    DivModUnique(Slot(g, w), q, y, g.Len());
  }

  lemma LogicalThenSlot(g: Geometry, a: nat)
    requires g.Valid()
    ensures Slot(g, Logical(g, a)) == a && Logical(g, a) / g.Len() == a / g.Len()
  {
    TransposedTwice(a % g.Len(), g.nchan, g.cbs);
    DivModUnique(Logical(g, a), a / g.Len(), Transposed(a % g.Len(), g.nchan, g.cbs), g.Len());
  }

  /** An address one whole buffer above the first `d` capture words is not the slot of any of them. */
  lemma AboveDone(g: Geometry, a: nat, d: nat)
    requires g.Valid() && g.Len() + d <= a
    ensures d < Logical(g, a)
  {
    LogicalThenSlot(g, a);
    var q := a / g.Len();
    assert Logical(g, a) == q * g.Len() + Logical(g, a) % g.Len();
    assert a < q * g.Len() + g.Len();
  }

  /** The reference: `m` with capture words `[d0, d1)` put in their slots, read from `m` as a snapshot. */
  ghost function Demuxed(g: Geometry, m: seq<Word>, d0: nat, d1: nat, start: nat): (m': seq<Word>)
    requires g.Valid()
  {
    seq(|m|, a requires 0 <= a < |m| =>
      var w := Logical(g, a); if d0 <= w < d1 then At(m, start + w - d0) else m[a])
  }

  /** What lies a whole buffer above the words done so far is not yet overwritten. */
  lemma SourceIntact(g: Geometry, m: seq<Word>, d0: nat, d1: nat, start: nat, a: nat)
    requires g.Valid() && g.Len() + d1 <= a
    ensures At(Demuxed(g, m, d0, d1, start), a) == At(m, a)
  {
    AboveDone(g, a, d1);
  }

  /** Transposing on from where an earlier transposition stopped is one transposition of the snapshot. */
  lemma DemuxedCompose(g: Geometry, m: seq<Word>, d0: nat, d1: nat, d2: nat, start: nat)
    requires g.Valid() && d0 <= d1 <= d2 && g.Len() + d0 <= start
    ensures Demuxed(g, Demuxed(g, m, d0, d1, start), d1, d2, start + d1 - d0) == Demuxed(g, m, d0, d2, start)
  {
    var m1 := Demuxed(g, m, d0, d1, start);
    var m2, m3 := Demuxed(g, m1, d1, d2, start + d1 - d0), Demuxed(g, m, d0, d2, start);
    forall a | 0 <= a < |m|
      ensures m2[a] == m3[a]
    {
      var w := Logical(g, a);
      if d1 <= w < d2 {
        SourceIntact(g, m, d0, d1, start, start + w - d0);
      }
    }
  }

  /** One word copied into its slot. */
  lemma DemuxedStep(g: Geometry, m: seq<Word>, d: nat, n: nat, start: nat)
    requires g.Valid() && g.Len() + d <= start && start + n < |m| && |m| == g.Hi()
    ensures Slot(g, d + n) < |m|
    ensures var m1 := Demuxed(g, m, d, d + n, start);
      m1[Slot(g, d + n) := m1[start + n]] == Demuxed(g, m, d, d + n + 1, start)
  {
    var m1, m2 := Demuxed(g, m, d, d + n, start), Demuxed(g, m, d, d + n + 1, start);
    SourceIntact(g, m, d, d + n, start, start + n);
    SlotThenLogical(g, d + n);
    SlotInMemory(g, d + n);
    forall a | 0 <= a < |m|
      ensures m1[Slot(g, d + n) := m1[start + n]][a] == m2[a]
    {
      LogicalThenSlot(g, a);
    }
  }

  lemma SlotInMemory(g: Geometry, w: nat)
    requires g.Valid() && w < g.Hi()
    ensures Slot(g, w) < g.Hi()
  {
    SlotThenLogical(g, w);
    DivBound(w, g.nbuffers - 1, g.Len());
    DivBound(Slot(g, w), g.nbuffers - 1, g.Len());
  }

  /** The words of the sample at `pdst + sam` go to the slots of capture words `d`, `d + 1`, ... */
  ghost predicate SampleSlots(g: Geometry, pdst: nat, sam: nat, d: nat) {
    g.Valid() && forall w: nat :: d <= w < d + g.nchan ==> Slot(g, w) == pdst + (w - d) * g.cbs + sam
  }

  /** Sample `sam` on from the cursor goes to column `cursor + sam` of buffer `ibuf`; its words are `d` on. */
  ghost predicate SampleAt(g: Geometry, ibuf: nat, cursor: nat, pdst: nat, sam: nat, d: nat) {
    && pdst == ibuf * g.Len() + cursor && d == ibuf * g.Len() + (cursor + sam) * g.nchan
    && (cursor + sam) * g.nchan + g.nchan <= g.Len()
  }

  lemma SampleStep(g: Geometry, ibuf: nat, cursor: nat, pdst: nat, sam: nat, nsam: nat, done: nat, n: nat, nwords: nat)
    requires g.Valid() && sam < nsam && nwords == nsam * g.nchan && n == sam * g.nchan
    requires cursor * g.nchan + nwords <= g.Len()
    requires pdst == ibuf * g.Len() + cursor && done == ibuf * g.Len() + cursor * g.nchan
    ensures (sam + 1) * g.nchan == n + g.nchan <= nwords
    ensures SampleAt(g, ibuf, cursor, pdst, sam, done + n)
  {
    MulDistrib(sam, 1, g.nchan);
    MulLe(sam + 1, nsam, g.nchan);
    MulDistrib(cursor, sam, g.nchan);
  }

  lemma SampleAtSlots(g: Geometry, ibuf: nat, cursor: nat, pdst: nat, sam: nat, d: nat)
    requires g.Valid() && SampleAt(g, ibuf, cursor, pdst, sam, d)
    ensures SampleSlots(g, pdst, sam, d)
  {
    forall w: nat | d <= w < d + g.nchan
      ensures Slot(g, w) == pdst + (w - d) * g.cbs + sam
    {
      SlotOfSample(g, ibuf, cursor + sam, w - d);
    }
  }

  /** Channel `c` of sample `k` of buffer `b` is kept at row `c`, column `k` of that buffer. */
  lemma SlotOfSample(g: Geometry, b: nat, k: nat, c: nat)
    requires g.Valid() && c < g.nchan && k * g.nchan + c < g.Len()
    ensures Slot(g, b * g.Len() + k * g.nchan + c) == b * g.Len() + c * g.cbs + k
  {
    DivModUnique(b * g.Len() + k * g.nchan + c, b, k * g.nchan + c, g.Len());
    DivModUnique(k * g.nchan + c, k, c, g.nchan);
  }

  /** What is left of the destination buffer. */
  lemma RoomLeft(g: Geometry, cursor: nat, remain: nat)
    requires g.Valid() && cursor < g.cbs && remain % g.nchan == 0
    ensures var trb := (g.cbs - cursor) * g.nchan;
      && 0 < trb && trb % g.nchan == 0 && cursor * g.nchan + trb == g.Len()
      && (remain < trb ==> cursor + remain / g.nchan < g.cbs)
      && (remain >= trb ==> (remain - trb) % g.nchan == 0 && trb / g.nchan == g.cbs - cursor)
  {
    var room := g.cbs - cursor;
    var trb := room * g.nchan;
    MulLe(1, room, g.nchan);
    MulDistrib(g.cbs, cursor, g.nchan);
    ExactDiv(room, trb, g.nchan);
    if remain < trb {
      DivBound(remain, room - 1, g.nchan);
    } else {
      MulDistrib(remain / g.nchan, room, g.nchan);
      ExactDiv(remain / g.nchan - room, remain - trb, g.nchan);
    }
  }

  /** Data that fills the destination buffer lies above the next one, which therefore exists. */
  lemma NextBuffer(g: Geometry, ibuf: nat, done: nat, trb: nat, startp: nat, remain: nat)
    requires g.Valid() && 0 < trb <= remain && done + trb == ibuf * g.Len() + g.Len()
    requires g.Len() + done <= startp && startp + remain <= g.Hi()
    ensures ibuf + 1 < g.nbuffers && done + trb == (ibuf + 1) * g.Len()
  {
    MulDistrib(ibuf, 1, g.Len());
    if g.nbuffers <= ibuf + 1 {
      MulLe(g.nbuffers, ibuf + 1, g.Len());
    }
  }

  class Demuxer {
    const g: Geometry
    const mem: array<Word>
    var ibuf: nat        // destination buffer
    var cursor: nat      // samples of each channel already in that buffer
    ghost var done: nat  // capture words demultiplexed so far

    ghost predicate Valid()
      reads this
    {
      && g.Valid() && mem.Length == g.Hi() && cursor < g.cbs && ibuf < g.nbuffers
      && done == ibuf * g.Len() + cursor * g.nchan
    }

    constructor (g: Geometry, mem: array<Word>)
      requires g.Valid() && mem.Length == g.Hi()
      ensures Valid() && done == 0 && this.g == g && this.mem == mem
    {
      this.g, this.mem, ibuf, cursor, done := g, mem, 0, 0, 0;
    }

    /** The words of one sample, one to each channel of the destination buffer. */
    method DemuxSample(pdst: nat, sam: nat, psrc: nat, ghost d: nat)
      requires g.Valid() && mem.Length == g.Hi()
      requires g.Len() + d <= psrc && psrc + g.nchan <= mem.Length
      requires SampleAt(g, ibuf, cursor, pdst, sam, d)
      modifies mem
      ensures mem[..] == Demuxed(g, old(mem[..]), d, d + g.nchan, psrc)
    {
      ghost var m0 := mem[..];
      SampleAtSlots(g, ibuf, cursor, pdst, sam, d);
      assert mem[..] == Demuxed(g, m0, d, d, psrc);
      for chan := 0 to g.nchan
        invariant mem[..] == Demuxed(g, m0, d, d + chan, psrc)
      {
        DemuxedStep(g, m0, d, chan, psrc);
        mem[pdst + chan * g.cbs + sam] := mem[psrc + chan];
      }
    }

    /** The loop of `_demux` over the samples of one destination buffer. */
    method DemuxSamples(pdst: nat, nsam: nat, start: nat, ghost nwords: nat)
      requires Valid() && nwords == nsam * g.nchan && cursor * g.nchan + nwords <= g.Len()
      requires pdst == ibuf * g.Len() + cursor
      requires g.Len() + done <= start && start + nwords <= mem.Length
      modifies mem
      ensures mem[..] == Demuxed(g, old(mem[..]), done, done + nwords, start)
    {
      ghost var m0 := mem[..];
      ghost var n := 0;
      var psrc := start;
      assert mem[..] == Demuxed(g, m0, done, done, start);
      for sam := 0 to nsam
        invariant n == sam * g.nchan && psrc == start + n
        invariant mem[..] == Demuxed(g, m0, done, done + n, start)
      {
        SampleStep(g, ibuf, cursor, pdst, sam, nsam, done, n, nwords);
        DemuxSample(pdst, sam, psrc, done + n);
        DemuxedCompose(g, m0, done, done + n, done + n + g.nchan, start);
        n, psrc := n + g.nchan, psrc + g.nchan;
      }
    }

    /** `_demux`: transpose words that all fit in the current destination buffer. */
    method DemuxBlock(start: nat, nwords: nat)
      requires Valid() && nwords % g.nchan == 0 && cursor * g.nchan + nwords <= g.Len()
      requires g.Len() + done <= start && start + nwords <= mem.Length
      modifies mem, this`cursor, this`done
      ensures done == old(done) + nwords && cursor == old(cursor) + nwords / g.nchan
      ensures done == ibuf * g.Len() + cursor * g.nchan
      ensures mem[..] == Demuxed(g, old(mem[..]), old(done), done, start)
    {
      var nsam: nat := nwords / g.nchan;
      assert nsam * g.nchan == nwords;
      DemuxSamples(ibuf * g.Len() + cursor, nsam, start, nwords);
      MulDistrib(cursor, nsam, g.nchan);
      cursor, done := cursor + nsam, done + nwords;
    }

    /** One pass of the loop in `demux`: as much as the destination buffer takes. */
    method DemuxPass(startp: nat, remain: nat) returns (n: nat)
      requires Valid() && 0 < remain && remain % g.nchan == 0
      requires g.Len() + done <= startp && startp + remain <= mem.Length
      modifies mem, this`cursor, this`ibuf, this`done
      ensures Valid() && 0 < n <= remain && (remain - n) % g.nchan == 0 && done == old(done) + n
      ensures mem[..] == Demuxed(g, old(mem[..]), old(done), done, startp)
    {
      var trb := (g.cbs - cursor) * g.nchan;
      RoomLeft(g, cursor, remain);
      if remain < trb {
        DemuxBlock(startp, remain);
        n := remain;
      } else {
        NextBuffer(g, ibuf, done, trb, startp, remain);
        DemuxBlock(startp, trb);
        ibuf, cursor := ibuf + 1, 0;
        n := trb;
      }
    }

    /** `demux`: transpose `nwords` words, stepping through as many destination buffers as they fill. */
    method Demux(start: nat, nwords: nat) returns (rc: Option<nat>)
      requires Valid()
      requires g.Len() + done <= start && start + nwords <= mem.Length
      modifies mem, this`cursor, this`ibuf, this`done
      ensures Valid()
      ensures rc == if nwords % g.nchan == 0 then Some(nwords) else None
      ensures done == old(done) + if rc.Some? then nwords else 0
      ensures mem[..] == Demuxed(g, old(mem[..]), old(done), done, start)
    {
      ghost var m0 := mem[..];
      ghost var d0 := done;
      assert mem[..] == Demuxed(g, m0, d0, d0, start);
      if nwords % g.nchan != 0 {
        return None;
      }
      var startp, remain: nat, n := start, nwords, 0;
      while remain != 0
        invariant Valid() && remain % g.nchan == 0
        invariant n + remain == nwords && done == d0 + n && startp == start + n
        invariant mem[..] == Demuxed(g, m0, d0, done, start)
        decreases remain
      {
        ghost var d1 := done;
        var k := DemuxPass(startp, remain);
        startp, remain, n := startp + k, remain - k, n + k;
        DemuxedCompose(g, m0, d0, d1, done, start);
      }
      rc := Some(n);
    }
  }
}
