/**
  The live demultiplexer: `DemuxBuffer::demux` of acq400_stream.cpp. It copies words out to one array per
  channel as buffers arrive, and carries from call to call the channel the next word belongs to. The words
  here are those of a stream with no event signatures in it.
 */
module LiveDemux {
  import opened Arith
  import opened Bits
  import opened MapBuffers
  import opened ChannelFiles

  /** Words of channel `c` among the first `n` of the stream. */
  function ChannelLen(n: nat, nchan: nat, c: nat): (k: nat)
    requires c < nchan
  {
    (n + (nchan - 1 - c)) / nchan
  }

  /** Sample `s` of channel `c` comes before the end of the stream exactly when it is among that many. */
  lemma ChannelLenIs(n: nat, nchan: nat, c: nat, s: nat)
    requires c < nchan
    ensures s < ChannelLen(n, nchan, c) <==> s * nchan + c < n
  {
    DivBound(n + (nchan - 1 - c), s, nchan);
    MulDistrib(s, 1, nchan);
  }

  /** The reference: every `nchan`th word of the stream, masked. */
  ghost function Channel(stream: seq<Word>, nchan: nat, mask: nat, c: nat): (col: seq<Word>)
    requires c < nchan
  {
    seq(ChannelLen(|stream|, nchan, c), s requires 0 <= s => And(At(stream, s * nchan + c), mask))
  }

  lemma LenNext(n: nat, nchan: nat, c: nat)
    requires c < nchan
    ensures ChannelLen(n + 1, nchan, c) == if c == n % nchan then n / nchan + 1 else ChannelLen(n, nchan, c)
    ensures c == n % nchan ==> ChannelLen(n, nchan, c) == n / nchan
  {
    var q, r := n / nchan, n % nchan;
    assert n == q * nchan + r;
    MulDistrib(q, 1, nchan);
    if c >= r {
      DivModUnique(n + (nchan - 1 - c), q, r + nchan - 1 - c, nchan);
    } else {
      DivModUnique(n + (nchan - 1 - c), q + 1, r - 1 - c, nchan);
    }
    if c > r {
      DivModUnique(n + 1 + (nchan - 1 - c), q, r + nchan - c, nchan);
    } else {
      DivModUnique(n + 1 + (nchan - 1 - c), q + 1, r - c, nchan);
    }
  }

  /** One more word of the stream lengthens the channel whose turn it is and no other. */
  lemma {:induction false} ChannelNext(stream: seq<Word>, nchan: nat, mask: nat, c: nat, w: Word)
    requires c < nchan
    ensures Channel(stream + [w], nchan, mask, c) ==
            Channel(stream, nchan, mask, c) + if c == |stream| % nchan then [And(w, mask)] else []
  {
    var was, now := Channel(stream, nchan, mask, c), Channel(stream + [w], nchan, mask, c);
    LenNext(|stream|, nchan, c);
    forall s: nat | s < |now|
      ensures now[s] == if s < |was| then was[s] else And(w, mask)
    {
      ChannelNextAt(stream, nchan, mask, c, w, s);
    }
  }

  lemma {:induction false} ChannelNextAt(stream: seq<Word>, nchan: nat, mask: nat, c: nat, w: Word, s: nat)
    requires c < nchan && s < ChannelLen(|stream| + 1, nchan, c)
    ensures Channel(stream + [w], nchan, mask, c)[s] ==
            if s < ChannelLen(|stream|, nchan, c) then Channel(stream, nchan, mask, c)[s] else And(w, mask)
  {
    var i := s * nchan + c;
    ChannelAt(stream + [w], nchan, mask, c, s);
    ChannelLenIs(|stream|, nchan, c, s);
    if i < |stream| {
      ChannelAt(stream, nchan, mask, c, s);
    } else {
      assert i == |stream|;
    }
  }

  lemma {:induction false} ChannelAt(stream: seq<Word>, nchan: nat, mask: nat, c: nat, s: nat)
    requires c < nchan && s < ChannelLen(|stream|, nchan, c)
    ensures s * nchan + c < |stream| && Channel(stream, nchan, mask, c)[s] == And(stream[s * nchan + c], mask)
  {
    ChannelLenIs(|stream|, nchan, c, s);
  }

  lemma TurnNext(n: nat, nchan: nat)
    requires 0 < nchan
    ensures (n + 1) % nchan == if n % nchan + 1 < nchan then n % nchan + 1 else 0
  {
    var q, r := n / nchan, n % nchan;
    MulDistrib(q, 1, nchan);
    if r + 1 < nchan {
      DivModUnique(n + 1, q, r + 1, nchan);
    } else {
      DivModUnique(n + 1, q + 1, 0, nchan);
    }
  }

  /** Word `i` of the stream is word `i / nchan` of channel `i % nchan`, and of no other. */
  lemma EveryWordOnce(stream: seq<Word>, nchan: nat, masks: seq<nat>, i: nat, c: nat, s: nat)
    requires 0 < nchan == |masks| && i < |stream| && c < nchan
    ensures s < |Channel(stream, nchan, masks[c], c)| && s * nchan + c == i <==> c == i % nchan && s == i / nchan
    ensures c == i % nchan && s == i / nchan ==> Channel(stream, nchan, masks[c], c)[s] == And(stream[i], masks[c])
  {
    ChannelLenIs(|stream|, nchan, c, s);
    if s * nchan + c == i {
      DivModUnique(i, s, c, nchan);
    }
  }

  /** Of whole samples, the live arrays are the masked columns that a channel file of the same words would give. */
  lemma LiveIsColumn(stream: seq<Word>, nchan: nat, nsamples: nat, mask: nat, c: nat)
    requires c < nchan && |stream| == nsamples * nchan
    ensures Channel(stream, nchan, mask, c) ==
            seq(nsamples, s requires 0 <= s < nsamples => And(Column(stream, nchan, nsamples, c)[s], mask))
  {
    DivModUnique(|stream| + (nchan - 1 - c), nsamples, nchan - 1 - c, nchan);
  }

  class DemuxBuffer {
    const nchan: nat
    const mask: seq<nat>
    var data: seq<seq<Word>>          // per channel, up to its cursor
    var startchan: nat
    ghost var stream: seq<Word>       // all the words since the start

    ghost predicate Valid()
      reads this
    {
      && 0 < nchan == |mask| == |data| && startchan == |stream| % nchan
      && Split(nchan, mask, data, stream)
    }

    constructor (nchan: nat, mask: seq<nat>)
      requires 0 < nchan == |mask|
      ensures Valid() && stream == [] && this.nchan == nchan && this.mask == mask
    {
      this.nchan, this.mask, stream, startchan := nchan, mask, [], 0;
      data := seq(nchan, _ => []);
      new;
      NothingSplit(nchan, mask);
    }

    /** `start`: back to empty arrays and the first channel. */
    method Start()
      requires Valid()
      modifies this
      ensures Valid() && stream == []
    {
      data, startchan, stream := seq(nchan, _ => []), 0, [];
      NothingSplit(nchan, mask);
    }

    /** `demux`: the words of one call, ending in the middle of a sample or not. */
    method Demux(src: seq<Word>)
      requires Valid() && 0 < |src|
      modifies this
      ensures Valid() && stream == old(stream) + src
    {
      var ichan, i := startchan, 0;
      assert src[..0] == [];
      while true
        invariant i < |src| && ichan < nchan && stream == old(stream) + src[..i]
        invariant 0 < nchan == |mask| == |data| && ichan == |stream| % nchan && Split(nchan, mask, data, stream)
        decreases |src| - i
      {
        var done := false;
        ichan, i, done := DemuxSample(src, ichan, i);
        if done {
          assert src[..i] == src;
          startchan := if ichan >= nchan then 0 else ichan;
          return;
        }
        ichan := 0;
      }
    }

    /** The rest of one sample, or as much of it as there is. */
    method DemuxSample(src: seq<Word>, ichan0: nat, i0: nat) returns (ichan: nat, i: nat, done: bool)
      requires 0 < nchan == |mask| == |data| && Split(nchan, mask, data, stream)
      requires i0 < |src| && ichan0 < nchan && ichan0 == |stream| % nchan
      modifies this`data, this`stream
      ensures 0 < nchan == |data| && Split(nchan, mask, data, stream)
      ensures i0 < i <= |src| && stream == old(stream) + src[i0..i] && done == (i == |src|)
      ensures ichan <= nchan && |stream| % nchan == (if ichan == nchan then 0 else ichan) && (!done ==> ichan == nchan)
    {
      ichan, i := ichan0, i0;
      while ichan < nchan
        invariant i0 <= i < |src| && ichan <= nchan && (i == i0 ==> ichan < nchan)
        invariant 0 < nchan == |data| && Split(nchan, mask, data, stream) && stream == old(stream) + src[i0..i]
        invariant |stream| % nchan == if ichan == nchan then 0 else ichan
        decreases nchan - ichan
      {
        SplitNext(nchan, mask, data, stream, src[i]);
        TurnNext(|stream|, nchan);
        assert src[i0..i + 1] == src[i0..i] + [src[i]];
        data := data[ichan := data[ichan] + [And(src[i], mask[ichan])]];
        stream := stream + [src[i]];
        i, ichan := i + 1, ichan + 1;
        if i >= |src| {
          return ichan, i, true;
        }
      }
      done := false;
    }
  }

  /** Each array holds its channel of the stream. */
  ghost predicate Split(nchan: nat, mask: seq<nat>, data: seq<seq<Word>>, stream: seq<Word>) {
    nchan == |mask| == |data| && forall c :: 0 <= c < nchan ==> data[c] == Channel(stream, nchan, mask[c], c)
  }

  lemma NothingSplit(nchan: nat, mask: seq<nat>)
    requires 0 < nchan == |mask|
    ensures Split(nchan, mask, seq(nchan, _ => []), [])
  {
    forall c | 0 <= c < nchan
      ensures Channel([], nchan, mask[c], c) == []
    {
      DivModUnique(nchan - 1 - c, 0, nchan - 1 - c, nchan);
    }
  }

  lemma SplitNext(nchan: nat, mask: seq<nat>, data: seq<seq<Word>>, stream: seq<Word>, w: Word)
    requires 0 < nchan && Split(nchan, mask, data, stream)
    ensures var t := |stream| % nchan; Split(nchan, mask, data[t := data[t] + [And(w, mask[t])]], stream + [w])
  {
    forall c | 0 <= c < nchan
      ensures Channel(stream + [w], nchan, mask[c], c) == data[c] + if c == |stream| % nchan then [And(w, mask[c])] else []
    {
      ChannelNext(stream, nchan, mask[c], c, w);
    }
  }

  /** The words of the calls, one after another. */
  function Joined(calls: seq<seq<Word>>): (s: seq<Word>) {
    if calls == [] then [] else Joined(calls[..|calls| - 1]) + calls[|calls| - 1]
  }

  /** Demultiplexed in pieces, cut anywhere, and demultiplexed in one: the arrays are the same. */
  method DemuxCalls(nchan: nat, mask: seq<nat>, calls: seq<seq<Word>>)
    returns (pieces: seq<seq<Word>>, whole: seq<seq<Word>>)
    requires 0 < nchan == |mask| && forall k :: 0 <= k < |calls| ==> calls[k] != []
    ensures pieces == whole && Split(nchan, mask, pieces, Joined(calls))
  {
    var a := new DemuxBuffer(nchan, mask);
    var b := new DemuxBuffer(nchan, mask);
    for k := 0 to |calls|
      invariant a.Valid() && a.nchan == nchan && a.mask == mask && a.stream == Joined(calls[..k])
      invariant b.Valid() && b.nchan == nchan && b.mask == mask && b.stream == [] && a != b && fresh(a) && fresh(b)
    {
      assert calls[..k + 1][..k] == calls[..k];
      a.Demux(calls[k]);
    }
    assert calls[..|calls|] == calls;
    var all := Joined(calls);
    if all != [] {
      b.Demux(all);
      assert [] + all == all;
    }
    pieces, whole := a.data, b.data;
    SplitUnique(nchan, mask, pieces, whole, all);
  }

  lemma SplitUnique(nchan: nat, mask: seq<nat>, d1: seq<seq<Word>>, d2: seq<seq<Word>>, stream: seq<Word>)
    requires 0 < nchan && Split(nchan, mask, d1, stream) && Split(nchan, mask, d2, stream)
    ensures d1 == d2
  {
  }
}
