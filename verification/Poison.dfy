/**
  The sentinel words that show whether DMA has reached the end of a buffer: acq400_axi_chain.c, and the
  buffer read of acq400_ui.c that hides them. A word is its four bytes, low byte first.
 */
module Poison {
  import opened Options

  type Byte = bv8
  type Quad = w: seq<Byte> | |w| == 4 witness [0, 0, 0, 0]

  const POISON0: Quad := [0x00, 0x00, 0xde, 0xc0]
  const POISON1: Quad := [0x00, 0x00, 0xde, 0xc1]
  const POISON_SZ := 8

  // ----- The two words and their stash

  datatype Tail = Tail(w0: Quad, w1: Quad, stash0: Quad, stash1: Quad)

  function Poisoned(t: Tail): (t': Tail) {
    Tail(POISON0, POISON1, if t.w0 != POISON0 then t.w0 else t.stash0, if t.w1 != POISON1 then t.w1 else t.stash1)
  }

  predicate Overwritten(t: Tail) {
    t.w0 != POISON0 && t.w1 != POISON1
  }

  function Cleared(t: Tail): (t': Tail) {
    if Overwritten(t) then t else t.(w0 := t.stash0, w1 := t.stash1)
  }

  /** The words as a reader is shown them. */
  function Shown(t: Tail): (b: seq<Byte>) {
    (if t.w0 == POISON0 then t.stash0 else t.w0) + (if t.w1 == POISON1 then t.stash1 else t.w1)
  }

  function PoisonedTimes(t: Tail, n: nat): (t': Tail) {
    if n == 0 then t else Poisoned(PoisonedTimes(t, n - 1))
  }

  lemma {:induction false} PoisonIdempotent(t: Tail, n: nat)
    requires 0 < n
    ensures PoisonedTimes(t, n) == Poisoned(t)
  {
    if n > 1 {
      PoisonIdempotent(t, n - 1);
    }
  }

  /**
    Poisoning any number of times and then clearing gives the data back exactly when neither word was its own
    sentinel, or that sentinel was already in the stash.
   */
  lemma PoisonTransparentIff(t: Tail, n: nat)
    requires 0 < n
    ensures var t' := Cleared(PoisonedTimes(t, n));
      (t'.w0 == t.w0 && t'.w1 == t.w1) <==>
      (t.w0 != POISON0 || t.stash0 == POISON0) && (t.w1 != POISON1 || t.stash1 == POISON1)
  {
    PoisonIdempotent(t, n);
  }

  /** A poisoned buffer shows what was there, on the same condition. */
  lemma PoisonHiddenIff(t: Tail, n: nat)
    requires 0 < n
    ensures Shown(PoisonedTimes(t, n)) == t.w0 + t.w1 <==>
      (t.w0 != POISON0 || t.stash0 == POISON0) && (t.w1 != POISON1 || t.stash1 == POISON1)
  {
    PoisonIdempotent(t, n);
    var u := Poisoned(t);
    assert Shown(u) == u.stash0 + u.stash1;
    if Shown(u) == t.w0 + t.w1 {
      assert u.stash0 == Shown(u)[..4] == t.w0 && u.stash1 == Shown(u)[4..] == t.w1;
    }
  }

  // ----- With DMA in between

  /** The words after DMA has written one, both or neither. */
  function Overlaid(t: Tail, d0: Option<Quad>, d1: Option<Quad>): (t': Tail) {
    t.(w0 := if d0.Some? then d0.value else t.w0, w1 := if d1.Some? then d1.value else t.w1)
  }

  /** DMA has written the word, and not as its sentinel. */
  predicate Fresh(d: Option<Quad>, sentinel: Quad) {
    d.Some? && d.value != sentinel
  }

  /** What a stash holds of a word once poisoned: the word, unless it was the sentinel already. */
  function Displaced(w: Quad, stash: Quad, sentinel: Quad): (d: Quad) {
    if w == sentinel then stash else w
  }

  /**
    Poisoned any number of times, written to by DMA and then cleared: DMA's words are kept if it wrote both, neither as
    its sentinel; if not, both words go back to what poisoning displaced, one that DMA wrote included.
   */
  lemma ClearedAfterDma(t: Tail, n: nat, d0: Option<Quad>, d1: Option<Quad>)
    requires 0 < n
    ensures var t' := Cleared(Overlaid(PoisonedTimes(t, n), d0, d1));
      if Fresh(d0, POISON0) && Fresh(d1, POISON1) then t'.w0 == d0.value && t'.w1 == d1.value
      else t'.w0 == Displaced(t.w0, t.stash0, POISON0) && t'.w1 == Displaced(t.w1, t.stash1, POISON1)
  {
    PoisonIdempotent(t, n);
  }

  /** A reader is shown each word that DMA wrote, not as its sentinel, and for the others what was displaced. */
  lemma ShownAfterDma(t: Tail, n: nat, d0: Option<Quad>, d1: Option<Quad>)
    requires 0 < n
    ensures Shown(Overlaid(PoisonedTimes(t, n), d0, d1)) ==
      (if Fresh(d0, POISON0) then d0.value else Displaced(t.w0, t.stash0, POISON0))
      + (if Fresh(d1, POISON1) then d1.value else Displaced(t.w1, t.stash1, POISON1))
  {
    PoisonIdempotent(t, n);
  }

  /** So clearing shows what a reader was shown exactly when DMA wrote both words or neither, or the same as was there. */
  lemma ClearedIsShownIff(t: Tail, n: nat, d0: Option<Quad>, d1: Option<Quad>)
    requires 0 < n
    ensures var u := Overlaid(PoisonedTimes(t, n), d0, d1);
      Cleared(u).w0 + Cleared(u).w1 == Shown(u) <==>
        || (Fresh(d0, POISON0) <==> Fresh(d1, POISON1))
        || (Fresh(d0, POISON0) && d0.value == Displaced(t.w0, t.stash0, POISON0))
        || (Fresh(d1, POISON1) && d1.value == Displaced(t.w1, t.stash1, POISON1))
  {
    ClearedAfterDma(t, n, d0, d1);
    ShownAfterDma(t, n, d0, d1);
    var u := Overlaid(PoisonedTimes(t, n), d0, d1);
    var c, s := Cleared(u).w0 + Cleared(u).w1, Shown(u);
    assert c[..4] == Cleared(u).w0 && c[4..] == Cleared(u).w1;
    assert s[..4] == (if Fresh(d0, POISON0) then d0.value else Displaced(t.w0, t.stash0, POISON0));
    assert s[4..] == (if Fresh(d1, POISON1) then d1.value else Displaced(t.w1, t.stash1, POISON1));
  }

  lemma ClearedTwice(t: Tail)
    ensures Cleared(Cleared(t)) == Cleared(t)
  {
  }

  // ----- A buffer

  /** `poison_offset`: the end of the buffer, or where the debug parameter puts it. */
  function PoisonOffset(bufferlen: nat, param: nat): (po: nat) {
    if param == 0 || param > bufferlen then bufferlen else param
  }

  /** Byte offset of the first sentinel. */
  function FirstPoison(po: nat): (at: int) {
    4 * (po / 4 - 2)
  }

  /** The sentinels are the last two words that end at or below the place asked for, or the last of the buffer. */
  lemma PoisonPlace(bufferlen: nat, param: nat)
    ensures var end := if 0 < param <= bufferlen then param else bufferlen; var at := FirstPoison(PoisonOffset(bufferlen, param));
      at % 4 == 0 && at + POISON_SZ <= end < at + POISON_SZ + 4
  {
  }

  ghost function TailOf(va: seq<Byte>, at: nat, stash0: Quad, stash1: Quad): (t: Tail)
    requires at + POISON_SZ <= |va|
  {
    Tail(va[at..at + 4], va[at + 4..at + 8], stash0, stash1)
  }

  ghost function WithTail(va: seq<Byte>, at: nat, t: Tail): (va': seq<Byte>)
    requires at + POISON_SZ <= |va|
  {
    va[..at] + t.w0 + t.w1 + va[at + 8..]
  }

  lemma TwoWords(v0: seq<Byte>, v1: seq<Byte>, v2: seq<Byte>, at: nat, w0: Quad, w1: Quad)
    requires at + POISON_SZ <= |v0| && v1 == v0[..at] + w0 + v0[at + 4..] && v2 == v1[..at + 4] + w1 + v1[at + 8..]
    ensures v2 == v0[..at] + w0 + w1 + v0[at + 8..] && v2[at..at + 4] == w0 && v2[at + 4..at + 8] == w1
  {
    assert v1[..at + 4] == v0[..at] + w0;
    assert v1[at + 8..] == v0[at + 8..];
  }

  class Hbm {
    const va: array<Byte>
    var stash0: Quad
    var stash1: Quad

    constructor (va: array<Byte>)
      ensures this.va == va
    {
      this.va := va;
      stash0, stash1 := [0, 0, 0, 0], [0, 0, 0, 0];
    }

    ghost function Tail(at: nat): (t: Tail)
      requires at + POISON_SZ <= va.Length
      reads this, va
    {
      TailOf(va[..], at, stash0, stash1)
    }

    method WriteWord(at: nat, w: Quad)
      requires at + 4 <= va.Length
      modifies va
      ensures va[..] == old(va[..at]) + w + old(va[at + 4..])
    {
      va[at], va[at + 1], va[at + 2], va[at + 3] := w[0], w[1], w[2], w[3];
    }

    method WriteTail(at: nat, w0: Quad, w1: Quad)
      requires at + POISON_SZ <= va.Length
      modifies va
      ensures va[..] == old(va[..at]) + w0 + w1 + old(va[at + 8..])
      ensures va[at..at + 4] == w0 && va[at + 4..at + 8] == w1
    {
      ghost var v0 := va[..];
      WriteWord(at, w0);
      ghost var v1 := va[..];
      WriteWord(at + 4, w1);
      TwoWords(v0, v1, va[..], at, w0, w1);
    }

    method PoisonOneBuffer(at: nat)
      requires at + POISON_SZ <= va.Length
      modifies this, va
      ensures Tail(at) == Poisoned(old(Tail(at)))
      ensures va[..] == WithTail(old(va[..]), at, Tail(at))
    {
      var p0, p1 := va[at..at + 4], va[at + 4..at + 8];
      if p0 != POISON0 {
        stash0 := p0;
      }
      if p1 != POISON1 {
        stash1 := p1;
      }
      WriteTail(at, POISON0, POISON1);
    }

    method PoisonOverwritten(at: nat) returns (yes: bool)
      requires at + POISON_SZ <= va.Length
      ensures yes == Overwritten(Tail(at))
    {
      yes := va[at..at + 4] != POISON0 && va[at + 4..at + 8] != POISON1;
    }

    method ClearPoison(at: nat)
      requires at + POISON_SZ <= va.Length
      modifies va
      ensures Tail(at) == Cleared(old(Tail(at)))
      ensures va[..] == WithTail(old(va[..]), at, Tail(at))
    {
      var done := PoisonOverwritten(at);
      if !done {
        WriteTail(at, stash0, stash1);
      }
    }

    /** `acq400_hb_read`: None is the failed copy of a last chunk shorter than the two sentinels. */
    method Read(at: nat, pos: nat, count: nat) returns (out: Option<seq<Byte>>, pos': nat)
      requires at + POISON_SZ <= va.Length
      ensures (out, pos') == HbRead(va[..], Shown(Tail(at)), pos, count)
    {
      if pos >= va.Length {
        return Some([]), pos;
      }
      var headroom := va.Length - pos;
      var n := if count > headroom then headroom else count;
      if n == headroom {
        if n < POISON_SZ {
          return None, pos;
        }
        var px0, px1 := va[at..at + 4], va[at + 4..at + 8];
        if px0 == POISON0 {
          px0 := stash0;
        }
        if px1 == POISON1 {
          px1 := stash1;
        }
        out := Some(va[pos..pos + n - POISON_SZ] + (px0 + px1));
      } else {
        out := Some(va[pos..pos + n]);
      }
      pos' := pos + n;
    }

    /** A client reading from the beginning, `counts[0]`, `counts[1]`, ... bytes at a time. */
    method ReadSession(at: nat, counts: seq<nat>) returns (out: Option<seq<Byte>>)
      requires at + POISON_SZ <= va.Length
      ensures out == HbSession(va[..], Shown(Tail(at)), 0, counts)
    {
      var pos, got: seq<Byte> := 0, [];
      ghost var v, shown := va[..], Shown(Tail(at));
      SessionBegins(v, shown, counts);
      for k := 0 to |counts|
        invariant HbSession(v, shown, 0, counts) == Joined(got, HbSession(v, shown, pos, counts[k..]))
      {
        SessionGoesOn(v, shown, pos, counts, k, got);
        out, pos := Read(at, pos, counts[k]);
        if out == None {
          return;
        }
        got := got + out.value;
      }
      out := Some(got);
      assert got + [] == got;
    }
  }

  function Joined(a: seq<Byte>, b: Option<seq<Byte>>): (r: Option<seq<Byte>>) {
    if b.None? then None else Some(a + b.value)
  }

  /** One read: what it returns and where it leaves the file position. */
  function HbRead(va: seq<Byte>, shown: seq<Byte>, pos: nat, count: nat): (r: (Option<seq<Byte>>, nat)) {
    if pos >= |va| then (Some([]), pos) else
    var headroom := |va| - pos;
    var n := if count > headroom then headroom else count;
    if n == headroom then
      if n < POISON_SZ then (None, pos) else (Some(va[pos..pos + n - POISON_SZ] + shown), pos + n)
    else (Some(va[pos..pos + n]), pos + n)
  }

  /** A read that does not end inside the sentinels. */
  ghost predicate CutOutside(len: nat, pos: nat, count: nat) {
    pos + count + POISON_SZ <= len || len <= pos + count
  }

  /** The contents with the sentinels hidden, when they are at the end of the buffer. */
  ghost function Unpoisoned(va: seq<Byte>, shown: seq<Byte>): (b: seq<Byte>)
    requires POISON_SZ <= |va|
  {
    va[..|va| - POISON_SZ] + shown
  }

  ghost predicate CutsOutside(len: nat, pos: nat, counts: seq<nat>)
    decreases |counts|
  {
    counts == [] ||
    (CutOutside(len, pos, counts[0]) && CutsOutside(len, NewPos(len, pos, counts[0]), counts[1..]))
  }

  function NewPos(len: nat, pos: nat, count: nat): (pos': nat) {
    if pos >= len then pos else if pos + count > len then len else pos + count
  }

  /** Everything a session of reads returns; None if one of them failed. */
  function HbSession(va: seq<Byte>, shown: seq<Byte>, pos: nat, counts: seq<nat>): (out: Option<seq<Byte>>)
    decreases |counts|
  {
    if counts == [] then Some([]) else
    var (first, pos') := HbRead(va, shown, pos, counts[0]);
    if first.None? then None else
    var rest := HbSession(va, shown, pos', counts[1..]);
    if rest.None? then None else Some(first.value + rest.value)
  }

  function SessionEnd(len: nat, pos: nat, counts: seq<nat>): (e: nat)
    decreases |counts|
  {
    if counts == [] then pos else SessionEnd(len, NewPos(len, pos, counts[0]), counts[1..])
  }

  lemma SessionBegins(va: seq<Byte>, shown: seq<Byte>, counts: seq<nat>)
    ensures HbSession(va, shown, 0, counts) == Joined([], HbSession(va, shown, 0, counts[0..]))
  {
    assert counts[0..] == counts;
    var r := HbSession(va, shown, 0, counts);
    if r.Some? {
      assert [] + r.value == r.value;
    }
  }

  lemma SessionGoesOn(va: seq<Byte>, shown: seq<Byte>, pos: nat, counts: seq<nat>, k: nat, got: seq<Byte>)
    requires k < |counts|
    ensures var (first, pos') := HbRead(va, shown, pos, counts[k]);
      Joined(got, HbSession(va, shown, pos, counts[k..])) ==
      if first.None? then None else Joined(got + first.value, HbSession(va, shown, pos', counts[k + 1..]))
  {
    var (first, pos') := HbRead(va, shown, pos, counts[k]);
    assert counts[k..][0] == counts[k] && counts[k..][1..] == counts[k + 1..];
    var rest := HbSession(va, shown, pos', counts[k + 1..]);
    if first.Some? && rest.Some? {
      assert got + (first.value + rest.value) == got + first.value + rest.value;
    }
  }

  lemma ReadUnpoisoned(va: seq<Byte>, shown: seq<Byte>, pos: nat, count: nat)
    requires POISON_SZ <= |va| && |shown| == POISON_SZ && (pos + POISON_SZ <= |va| || pos == |va|)
    requires CutOutside(|va|, pos, count)
    ensures var pos' := NewPos(|va|, pos, count);
      && pos <= pos' <= |va| && (pos' + POISON_SZ <= |va| || pos' == |va|)
      && HbRead(va, shown, pos, count) == (Some(Unpoisoned(va, shown)[pos..pos']), pos')
  {
    var u, pos' := Unpoisoned(va, shown), NewPos(|va|, pos, count);
    if pos' == |va| && pos < |va| {
      assert va[pos..|va| - POISON_SZ] + shown == u[pos..pos'];
    } else {
      assert va[pos..pos'] == u[pos..pos'];
    }
  }

  /** However it is cut up, outside the last 8 bytes, a reading returns the contents with the sentinels hidden. */
  lemma {:induction false} SessionUnpoisoned(va: seq<Byte>, shown: seq<Byte>, pos: nat, counts: seq<nat>)
    requires POISON_SZ <= |va| && |shown| == POISON_SZ && (pos + POISON_SZ <= |va| || pos == |va|)
    requires CutsOutside(|va|, pos, counts)
    ensures pos <= SessionEnd(|va|, pos, counts) <= |va|
    ensures var end := SessionEnd(|va|, pos, counts); end + POISON_SZ <= |va| || end == |va|
    ensures HbSession(va, shown, pos, counts) == Some(Unpoisoned(va, shown)[pos..SessionEnd(|va|, pos, counts)])
    decreases |counts|
  {
    if counts != [] {
      ReadUnpoisoned(va, shown, pos, counts[0]);
      var pos', end := NewPos(|va|, pos, counts[0]), SessionEnd(|va|, pos, counts);
      SessionUnpoisoned(va, shown, pos', counts[1..]);
      var u := Unpoisoned(va, shown);
      assert u[pos..pos'] + u[pos'..end] == u[pos..end];
    } else {
      assert Unpoisoned(va, shown)[pos..pos] == [];
    }
  }

  /** The sentinels go at the end of a buffer of whole words, and are read back as its tail. */
  lemma TailWritten(va: seq<Byte>, t: Tail)
    requires POISON_SZ <= |va| && |va| % 4 == 0
    ensures var at := FirstPoison(PoisonOffset(|va|, 0));
      at == |va| - POISON_SZ && TailOf(WithTail(va, at, t), at, t.stash0, t.stash1) == t
  {
    var at := |va| - POISON_SZ;
    var v := va[..at] + t.w0 + t.w1 + va[at + 8..];
    assert v[at..at + 4] == t.w0 && v[at + 4..at + 8] == t.w1;
  }

  /**
    A buffer poisoned any number of times, then read in any chunks not cut inside the sentinels, gives the bytes
    it had, exactly if the reading stops short of its end, or neither word there was its own sentinel, or that
    sentinel was already in the stash.
   */
  lemma PoisonedSessionIff(va: seq<Byte>, stash0: Quad, stash1: Quad, n: nat, counts: seq<nat>)
    requires POISON_SZ <= |va| && |va| % 4 == 0 && 0 < n && CutsOutside(|va|, 0, counts)
    ensures FirstPoison(PoisonOffset(|va|, 0)) == |va| - POISON_SZ
    ensures var at := |va| - POISON_SZ;
      var t := TailOf(va, at, stash0, stash1);
      var u, end := PoisonedTimes(t, n), SessionEnd(|va|, 0, counts);
      var v := WithTail(va, at, u);
      && end <= |va|
      && (HbSession(v, Shown(TailOf(v, at, u.stash0, u.stash1)), 0, counts) == Some(va[..end]) <==>
          end < |va| || ((t.w0 != POISON0 || t.stash0 == POISON0) && (t.w1 != POISON1 || t.stash1 == POISON1)))
  {
    var at := |va| - POISON_SZ;
    var t := TailOf(va, at, stash0, stash1);
    var u := PoisonedTimes(t, n);
    var v := WithTail(va, at, u);
    TailWritten(va, u);
    SessionUnpoisoned(v, Shown(u), 0, counts);
    PoisonHiddenIff(t, n);
    HiddenPrefix(va, v, Shown(u), SessionEnd(|va|, 0, counts));
  }

  lemma HiddenPrefix(va: seq<Byte>, v: seq<Byte>, shown: seq<Byte>, end: nat)
    requires POISON_SZ <= |va| == |v| && |shown| == POISON_SZ && (end + POISON_SZ <= |va| || end == |va|)
    requires var at := |va| - POISON_SZ; v[..at] == va[..at]
    ensures var at := |va| - POISON_SZ;
      Unpoisoned(v, shown)[..end] == va[..end] <==> end < |va| || shown == va[at..at + 4] + va[at + 4..at + 8]
  {
    var at := |va| - POISON_SZ;
    var w := va[at..at + 4] + va[at + 4..at + 8];
    assert va == va[..at] + w && va[..|va|] == va;
    var u := Unpoisoned(v, shown);
    if end == |va| {
      assert u[..end] == va[..at] + shown;
      if u[..end] == va[..end] {
        assert shown == (va[..at] + shown)[at..] == (va[..at] + w)[at..] == w;
      }
    } else {
      assert u[..end] == v[..at][..end] == va[..at][..end] == va[..end];
    }
  }

  /** A read cut inside the sentinels either fails or returns them as they are. */
  lemma ReadCutInside(va: seq<Byte>, shown: seq<Byte>, pos: nat, count: nat)
    requires POISON_SZ <= |va| && |shown| == POISON_SZ && pos < |va|
    requires |va| < pos + POISON_SZ || !CutOutside(|va|, pos, count)
    ensures var (out, _) := HbRead(va, shown, pos, count);
      out == None || (pos + count < |va| && out == Some(va[pos..pos + count]))
  {
  }
}
