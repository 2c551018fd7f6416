/**
  What is left in memory when a capture has been post-processed: `BLT` and the `postProcess` methods of
  `StreamHeadPrePost` and `DemuxingStreamHeadPrePost` in acq400_stream.cpp.
 */
module PostProcess {
  import opened Arith
  import opened MapBuffers
  import opened Demux
  import opened Linearise
  import opened Distribution

  // ----- The data that segments denote

  /** The words of the segments, one after another, as `m` holds them. */
  ghost function Gathered(m: seq<Word>, segments: seq<Segment>): (data: seq<Word>) {
    if segments == [] then [] else
    var last := segments[|segments| - 1];
    Gathered(m, segments[..|segments| - 1]) + seq(last.len, k requires 0 <= k => At(m, last.base + k))
  }

  ghost function TotalLen(segments: seq<Segment>): (n: nat) {
    if segments == [] then 0 else TotalLen(segments[..|segments| - 1]) + segments[|segments| - 1].len
  }

  /** Every segment is made of whole samples and is read at least one buffer above where it is written. */
  ghost predicate Clear(g: Geometry, segments: seq<Segment>) {
    g.Valid() && forall j :: 0 <= j < |segments| ==>
      && segments[j].len % g.nchan == 0
      && g.Len() + TotalLen(segments[..j]) <= segments[j].base
      && segments[j].base + segments[j].len <= g.Hi()
  }

  lemma {:induction false} GatheredLen(m: seq<Word>, segments: seq<Segment>)
    ensures |Gathered(m, segments)| == TotalLen(segments)
  {
    if segments != [] {
      GatheredLen(m, segments[..|segments| - 1]);
    }
  }

  /** The demultiplexed image of `data`: each word is in its slot. */
  ghost predicate Cooked(g: Geometry, m: seq<Word>, data: seq<Word>) {
    g.Valid() && forall i: nat :: i < |data| ==> At(m, Slot(g, i)) == data[i]
  }

  /** The raw image of `data`: it starts at the bottom of memory. */
  ghost predicate Raw(m: seq<Word>, data: seq<Word>) {
    |data| <= |m| && m[..|data|] == data
  }

  /** Memory from `a` up is still what it was. */
  ghost predicate Intact(m0: seq<Word>, m: seq<Word>, a: nat) {
    |m| == |m0| && forall x: nat :: a <= x ==> At(m, x) == At(m0, x)
  }

  // ----- One segment

  lemma DemuxedSegment(g: Geometry, m0: seq<Word>, m: seq<Word>, data: seq<Word>, start: nat, n: nat)
    requires g.Valid() && |m| == g.Hi() && Cooked(g, m, data) && Intact(m0, m, g.Len() + |data|)
    requires g.Len() + |data| <= start && start + n <= g.Hi()
    ensures var m' := Demuxed(g, m, |data|, |data| + n, start);
      && Cooked(g, m', data + seq(n, k requires 0 <= k => At(m0, start + k)))
      && Intact(m0, m', g.Len() + |data| + n)
  {
    var d := |data|;
    var m' := Demuxed(g, m, d, d + n, start);
    var data' := data + seq(n, k requires 0 <= k => At(m0, start + k));
    forall i: nat | i < |data'|
      ensures At(m', Slot(g, i)) == data'[i]
    {
      SlotThenLogical(g, i);
      SlotInMemory(g, i);
      if d <= i {
        assert At(m, start + i - d) == At(m0, start + i - d);
      }
    }
    forall x: nat | g.Len() + d + n <= x
      ensures At(m', x) == At(m0, x)
    {
      SourceIntact(g, m, d, d + n, start, x);
    }
  }

  lemma CopiedSegment(m0: seq<Word>, m: seq<Word>, data: seq<Word>, from: nat, n: nat)
    requires Raw(m, data) && Intact(m0, m, |data|) && |data| <= from && from + n <= |m|
    ensures var m' := Copied(m, |data|, from, n);
      && Raw(m', data + seq(n, k requires 0 <= k => At(m0, from + k)))
      && Intact(m0, m', |data| + n)
  {
    var m' := Copied(m, |data|, from, n);
    var more := seq(n, k requires 0 <= k => At(m0, from + k));
    assert m[from..from + n] == more by {
      forall k | 0 <= k < n
        ensures m[from..from + n][k] == more[k]
      {
        assert At(m, from + k) == At(m0, from + k);
      }
    }
    forall x: nat | |data| + n <= x
      ensures At(m', x) == At(m0, x)
    {
      assert At(m, x) == At(m0, x);
    }
  }

  /** `BLT`: block transfer down to a moving cursor. */
  class Blt {
    const mem: array<Word>
    var cursor: nat

    constructor (mem: array<Word>)
      ensures this.mem == mem && cursor == 0
    {
      this.mem, cursor := mem, 0;
    }

    method Transfer(from: nat, n: nat) returns (total: nat)
      requires cursor <= from && from + n <= mem.Length
      modifies this, mem
      ensures cursor == old(cursor) + n && total == cursor
      ensures mem[..] == Copied(old(mem[..]), old(cursor), from, n)
    {
      Memcpy(mem, cursor, from, n);
      cursor := cursor + n;
      total := cursor;
    }
  }

  /** Demultiplex the segments in turn. */
  method DemuxSegments(g: Geometry, mem: array<Word>, segments: seq<Segment>)
    requires Clear(g, segments) && mem.Length == g.Hi()
    modifies mem
    ensures Cooked(g, mem[..], Gathered(old(mem[..]), segments))
  {
    ghost var m0 := mem[..];
    ghost var data: seq<Word> := [];
    var demuxer := new Demuxer(g, mem);
    for j := 0 to |segments|
      invariant demuxer.Valid() && demuxer.g == g && demuxer.mem == mem && fresh(demuxer)
      invariant data == Gathered(m0, segments[..j]) && demuxer.done == |data| == TotalLen(segments[..j])
      invariant Cooked(g, mem[..], data) && Intact(m0, mem[..], g.Len() + |data|)
    {
      var it := segments[j];
      GatheredNext(m0, segments, j);
      DemuxedSegment(g, m0, mem[..], data, it.base, it.len);
      var rc := demuxer.Demux(it.base, it.len);
      data := Gathered(m0, segments[..j + 1]);
    }
    assert segments[..|segments|] == segments;
  }

  /** Copy the segments down in turn. */
  method BltSegments(g: Geometry, mem: array<Word>, segments: seq<Segment>)
    requires Clear(g, segments) && mem.Length == g.Hi()
    modifies mem
    ensures Raw(mem[..], Gathered(old(mem[..]), segments))
  {
    ghost var m0 := mem[..];
    ghost var data: seq<Word> := [];
    var blt := new Blt(mem);
    for j := 0 to |segments|
      invariant blt.mem == mem && fresh(blt)
      invariant data == Gathered(m0, segments[..j]) && blt.cursor == |data| == TotalLen(segments[..j])
      invariant Raw(mem[..], data) && Intact(m0, mem[..], |data|)
    {
      var it := segments[j];
      GatheredNext(m0, segments, j);
      CopiedSegment(m0, mem[..], data, it.base, it.len);
      var total := blt.Transfer(it.base, it.len);
      data := Gathered(m0, segments[..j + 1]);
    }
    assert segments[..|segments|] == segments;
  }

  lemma GatheredNext(m: seq<Word>, segments: seq<Segment>, j: nat)
    requires j < |segments|
    ensures Gathered(m, segments[..j + 1]) ==
            Gathered(m, segments[..j]) + seq(segments[j].len, k requires 0 <= k => At(m, segments[j].base + k))
    ensures TotalLen(segments[..j + 1]) == TotalLen(segments[..j]) + segments[j].len
    ensures |Gathered(m, segments[..j + 1])| == TotalLen(segments[..j + 1])
  {
    assert segments[..j + 1][..j] == segments[..j];
    GatheredLen(m, segments[..j + 1]);
  }

  // ----- The whole capture

  /** `n` words read round the ring from `a`. */
  ghost function RingWords(g: Geometry, m: seq<Word>, a: int, n: nat): (data: seq<Word>) {
    seq(n, k requires 0 <= k => At(m, Ring(g, a + k)))
  }

  /** The reference: the capture read round the ring, before and after the event. */
  ghost function Captured(w: Capture, m: seq<Word>, esp: int): (data: seq<Word>) {
    if w.pre == 0 then RingWords(w.g, m, esp, w.Postw())
    else RingWords(w.g, m, esp - w.Prew(), w.Prew()) + RingWords(w.g, m, esp + w.Skip(), w.Tail())
  }

  /** Before the event, then the signature if it is shown, then after it; with nothing before, from where it starts. */
  lemma CapturedIs(w: Capture, m: seq<Word>, esp: int)
    ensures Captured(w, m, esp) == if w.pre == 0 then RingWords(w.g, m, esp, w.Postw()) else
      RingWords(w.g, m, esp - w.Prew(), w.Prew()) + (if w.showEs then RingWords(w.g, m, esp, w.es) else [])
      + RingWords(w.g, m, esp + w.es, w.Postw())
  {
    if w.pre > 0 && w.showEs {
      assert RingWords(w.g, m, esp, w.Tail()) == RingWords(w.g, m, esp, w.es) + RingWords(w.g, m, esp + w.es, w.Postw());
    }
  }

  /** `n` words from `d` words past the event on, each from where the segments take it. */
  ghost function OriginWords(w: Capture, m: seq<Word>, esp: int, d: int, n: nat): (data: seq<Word>)
    requires w.g.Valid()
  {
    seq(n, k requires 0 <= k => At(m, w.Origin(esp, d + k)))
  }

  /** What is stored for a capture. */
  ghost function Stored(w: Capture, m: seq<Word>, esp: int): (data: seq<Word>)
    requires w.g.Valid()
  {
    if w.pre == 0 then RingWords(w.g, m, esp, w.Postw())
    else OriginWords(w, m, esp, 0 - w.Prew(), w.Prew()) + OriginWords(w, m, esp, w.Skip(), w.Tail())
  }

  /** How much of it is sure to be right: all of it, unless the post segment overruns the sorted buffers. */
  ghost function GoodLen(w: Capture, esp: int): (n: nat)
    requires w.g.Valid()
  {
    if w.pre == 0 then w.Postw()
    else w.Prew() + if w.Overrun(esp) <= w.Tail() then w.Tail() - w.Overrun(esp) else 0
  }

  ghost function Straight(m: seq<Word>, a: int, n: nat): (data: seq<Word>) {
    seq(n, k requires 0 <= k => At(m, a + k))
  }

  lemma StraightIsRing(g: Geometry, m0: seq<Word>, esp0: int, m: seq<Word>, esp1: int, lo: int, hi: int, d: int, n: nat)
    requires Unwrapped(g, m0, esp0, m, esp1, lo, hi) && lo <= esp1 + d && esp1 + d + n <= hi
    ensures Straight(m, esp1 + d, n) == RingWords(g, m0, esp0 + d, n)
  {
    var s, r := Straight(m, esp1 + d, n), RingWords(g, m0, esp0 + d, n);
    forall k | 0 <= k < n
      ensures s[k] == r[k]
    {
      assert At(m, esp1 + d + k) == At(m0, Ring(g, esp1 + d + k - esp1 + esp0));
      assert esp1 + d + k - esp1 + esp0 == esp0 + d + k;
    }
  }

  lemma LayoutGathered(w: Capture, m: seq<Word>, esp: int)
    ensures Gathered(m, w.Layout(esp)) == Straight(m, esp - w.Prew(), w.Prew()) + Straight(m, esp + w.Skip(), w.Tail())
  {
    var l := w.Layout(esp);
    GatheredNext(m, l, 0);
    GatheredNext(m, l, 1);
    assert l[..0] == [];
    if w.showEs {
      GatheredNext(m, l, 2);
      assert l[..3] == l;
      assert Straight(m, esp, w.Tail()) == Straight(m, esp, w.es) + Straight(m, esp + w.es, w.Postw());
    } else {
      assert l[..2] == l;
    }
  }

  lemma LayoutClear(w: Capture, esp: int)
    requires w.Valid() && w.g.Len() + w.Prew() <= esp && esp + w.es + w.Postw() <= w.g.Hi()
    ensures Clear(w.g, w.Layout(esp))
  {
    var l := w.Layout(esp);
    ExactDiv(w.pre, w.Prew(), w.g.nchan);
    ExactDiv(w.post, w.Postw(), w.g.nchan);
    GatheredNext([], l, 0);
    GatheredNext([], l, 1);
    assert l[..0] == [];
    if w.showEs {
      GatheredNext([], l, 2);
    }
  }

  lemma SamePrefix(a: seq<Word>, s: seq<Word>, s': seq<Word>, k: nat)
    requires AgreeUpTo(s, s', k)
    ensures AgreeUpTo(a + s, a + s', |a| + k)
  {
    assert (a + s)[..|a| + k] == a + s[..k];
    assert (a + s')[..|a| + k] == a + s'[..k];
  }

  lemma StraightIsOrigin(w: Capture, m0: seq<Word>, esp0: int, m: seq<Word>, esp1: int, d: int, n: nat)
    requires w.g.Valid() && Ready(w, m0, esp0, m, esp1) && 0 <= w.Prew() + d && d + n <= w.es + w.Postw()
    ensures Straight(m, esp1 + d, n) == OriginWords(w, m0, esp0, d, n)
  {
    var s, r := Straight(m, esp1 + d, n), OriginWords(w, m0, esp0, d, n);
    forall k | 0 <= k < n
      ensures s[k] == r[k]
    {
      assert At(m, esp1 + (d + k)) == At(m0, w.Origin(esp0, d + k));
    }
  }

  /** What the segments denote after unwrapping. */
  lemma ReadyIsStored(w: Capture, m0: seq<Word>, esp0: int, m: seq<Word>, esp1: int)
    requires w.Valid() && 0 < w.pre && Ready(w, m0, esp0, m, esp1)
    ensures Gathered(m, w.Layout(esp1)) == Stored(w, m0, esp0)
  {
    LayoutGathered(w, m, esp1);
    BothSides(w, m0, esp0, m, esp1);
  }

  lemma BothSides(w: Capture, m0: seq<Word>, esp0: int, m: seq<Word>, esp1: int)
    requires w.Valid() && 0 < w.pre && Ready(w, m0, esp0, m, esp1)
    ensures Straight(m, esp1 - w.Prew(), w.Prew()) + Straight(m, esp1 + w.Skip(), w.Tail()) == Stored(w, m0, esp0)
  {
    var p: int := w.Prew();
    StraightIsOrigin(w, m0, esp0, m, esp1, 0 - p, p);
    StraightIsOrigin(w, m0, esp0, m, esp1, w.Skip(), w.Tail());
    assert Straight(m, esp1 - p, p) == Straight(m, esp1 + (0 - p), p);
  }

  // ----- How much of it is the capture

  lemma OriginIsRing(w: Capture, m: seq<Word>, esp: int, d: int, n: nat, k: nat)
    requires w.g.Valid() && k <= n && d + k <= w.es + w.Postw() - w.Overrun(esp)
    ensures OriginWords(w, m, esp, d, n)[..k] == RingWords(w.g, m, esp + d, n)[..k]
  {
    var s, s' := OriginWords(w, m, esp, d, n), RingWords(w.g, m, esp + d, n);
    forall i | 0 <= i < k
      ensures s[i] == s'[i]
    {
      assert w.Origin(esp, d + i) == Ring(w.g, esp + (d + i));
      assert esp + (d + i) == esp + d + i;
    }
  }

  /** What is stored is the capture read round the ring, up to `GoodLen`. */
  lemma StoredIsCaptured(w: Capture, m: seq<Word>, esp: int)
    requires w.g.Valid() && w.Overrun(esp) <= w.es
    ensures AgreeUpTo(Stored(w, m, esp), Captured(w, m, esp), GoodLen(w, esp))
  {
    if w.pre > 0 {
      var p: int := w.Prew();
      var k := GoodLen(w, esp) - p;
      var a, a' := OriginWords(w, m, esp, 0 - p, p), RingWords(w.g, m, esp - p, p);
      var s, s' := OriginWords(w, m, esp, w.Skip(), w.Tail()), RingWords(w.g, m, esp + w.Skip(), w.Tail());
      OriginIsRing(w, m, esp, 0 - p, p, p);
      assert esp + (0 - p) == esp - p && a[..p] == a && a'[..p] == a';
      if 0 < k {
        OriginIsRing(w, m, esp, w.Skip(), w.Tail(), k);
      }
      SamePrefix(a, s, s', k);
    }
  }

  lemma OverrunBound(w: Capture, esp: nat)
    requires w.Valid()
    ensures w.Overrun(esp) <= w.es
  {
  }

  /** A memory with one word set. */
  ghost function Marked(n: nat, a: int): (m: seq<Word>) {
    seq(n, x => if x == a then 1 else 0)
  }

  /** Word `k` of the tail: where it is taken from, and where it should be. */
  lemma TailWord(w: Capture, m: seq<Word>, esp: nat, k: nat)
    requires w.g.Valid() && 0 < w.pre && k < w.Tail()
    ensures var i, d := w.Prew() + k, w.Skip() + k;
      && |Stored(w, m, esp)| == |Captured(w, m, esp)| == w.Prew() + w.Tail()
      && Stored(w, m, esp)[i] == At(m, w.Origin(esp, d)) && Captured(w, m, esp)[i] == At(m, Ring(w.g, esp + d))
  {
    assert esp + w.Skip() + k == esp + (w.Skip() + k);
  }

  /** Every word of an overrun is taken from another address than it should be. */
  lemma OverrunAstray(w: Capture, esp: nat, d: int)
    requires Cornered(w, esp) && 0 < w.Overrun(esp) && 0 <= w.Prew() + d && w.es + w.Postw() - w.Overrun(esp) <= d < w.es + w.Postw()
    ensures 0 <= w.Origin(esp, d) < w.g.Hi() && w.Origin(esp, d) != Ring(w.g, esp + d)
  {
    var sp := w.SpanAt(esp);
    CornerEnds(w, esp);
    MulDistrib(sp.Count(), 1, w.g.Len());
    NextOnRing(w, esp, d);
    AboveIsChainEnd(sp);
    BuffersApart(w.g, sp.Above(), sp.fin + 1);
  }

  /** So there is a memory in which a word of the tail that belongs to it is stored wrong. */
  lemma TailWordWrong(w: Capture, esp: nat, k: nat) returns (m: seq<Word>)
    requires w.Valid() && w.OnSample(esp) && 0 < w.pre && w.Sortable(esp) && k < w.Tail() && w.Tail() <= k + w.Overrun(esp)
    ensures |m| == w.g.Hi() && |Stored(w, m, esp)| == |Captured(w, m, esp)| == w.Prew() + w.Tail()
    ensures Stored(w, m, esp)[w.Prew() + k] != Captured(w, m, esp)[w.Prew() + k]
  {
    var d := w.Skip() + k;
    CornerEnds(w, esp);
    OverrunBound(w, esp);
    OverrunAstray(w, esp, d);
    m := Marked(w.g.Hi(), w.Origin(esp, d));
    TailWord(w, m, esp, k);
  }

  /** A sorted capture is stored right, whatever memory held, exactly when it has no overrun or keeps no such word. */
  lemma StoredRightIff(w: Capture, esp: nat)
    requires w.Valid() && w.OnSample(esp) && 0 < w.pre && w.Sortable(esp)
    ensures (forall m :: |m| == w.g.Hi() ==> Stored(w, m, esp) == Captured(w, m, esp)) <==>
            w.Overrun(esp) == 0 || w.Tail() == 0
  {
    OverrunBound(w, esp);
    if w.Overrun(esp) == 0 || w.Tail() == 0 {
      forall m | |m| == w.g.Hi()
        ensures Stored(w, m, esp) == Captured(w, m, esp)
      {
        StoredIsCaptured(w, m, esp);
        assert Stored(w, m, esp)[..GoodLen(w, esp)] == Stored(w, m, esp);
        assert Captured(w, m, esp)[..GoodLen(w, esp)] == Captured(w, m, esp);
      }
    } else {
      var m := TailWordWrong(w, esp, w.Tail() - 1);
      assert Stored(w, m, esp) != Captured(w, m, esp);
    }
  }

  /** Buffers of four one-word samples: two reserved, four in the ring; the event is the second word of the ring. */
  function Example(post: nat): (w: Capture) {
    Capture(Geometry(1, 4, 6), 3, post, 2, false)
  }

  lemma ExampleWindow(post: nat)
    requires post == 2 || post == 10
    ensures var w := Example(post);
      && Processable(w, 9) && w.Sortable(9) && w.ModeOf(9) == Precorner
      && w.SpanAt(9).first == 5 && w.SpanAt(9).fin == (if post == 2 then 2 else 4) && w.Beyond(w.Finish(9)) == 1
  {
  }

  /** A window that fills the ring loses a word. */
  lemma FullRingLosesWord()
    ensures var w := Example(10);
      Processable(w, 9) && Succeeds(w, 9) && exists m :: |m| == w.g.Hi() && Stored(w, m, 9) != Captured(w, m, 9)
  {
    var w := Example(10);
    ExampleWindow(10);
    OverrunCases(w, 9);
    StoredRightIff(w, 9);
  }

  /** A shorter one, cut at the same offset, does not. */
  lemma ShortWindowKeepsWord()
    ensures var w := Example(2);
      Processable(w, 9) && Succeeds(w, 9) && forall m :: |m| == w.g.Hi() ==> Stored(w, m, 9) == Captured(w, m, 9)
  {
    var w := Example(2);
    ExampleWindow(2);
    OverrunCases(w, 9);
    StoredRightIff(w, 9);
  }

  ghost predicate AgreeUpTo(s: seq<Word>, s': seq<Word>, n: nat) {
    n <= |s| == |s'| && s[..n] == s'[..n]
  }

  /** What the post-processors ask: an event on the ring, or with no pre-samples a capture from `ba_lo`. */
  ghost predicate Processable(w: Capture, esp: nat) {
    && w.Valid() && w.OnSample(esp)
    && (if w.pre == 0 then esp + w.Postw() <= w.g.Hi() else w.InMapping(esp))
  }

  ghost predicate Succeeds(w: Capture, esp: nat)
    requires w.g.Valid()
  {
    w.pre == 0 || w.Sortable(esp)
  }

  /** `DemuxingStreamHeadPrePost::postProcess`. */
  method PostProcessDemux(w: Capture, mem: array<Word>, esp: nat) returns (ok: bool)
    requires Processable(w, esp) && mem.Length == w.g.Hi()
    modifies mem
    ensures ok <==> Succeeds(w, esp)
    ensures ok ==> Cooked(w.g, mem[..], Stored(w, old(mem[..]), esp))
  {
    var segments := [];
    ok, segments := SegmentsToProcess(w, mem, esp);
    if ok {
      DemuxSegments(w.g, mem, segments);
    }
  }

  /** `StreamHeadPrePost::postProcess`. */
  method PostProcessRaw(w: Capture, mem: array<Word>, esp: nat) returns (ok: bool)
    requires Processable(w, esp) && mem.Length == w.g.Hi()
    modifies mem
    ensures ok <==> Succeeds(w, esp)
    ensures ok ==> Raw(mem[..], Stored(w, old(mem[..]), esp))
  {
    var segments := [];
    ok, segments := SegmentsToProcess(w, mem, esp);
    if ok {
      BltSegments(w.g, mem, segments);
    }
  }

  /** The part the two post-processors share: unwrap, and list the segments to move. */
  method SegmentsToProcess(w: Capture, mem: array<Word>, esp: nat)
    returns (ok: bool, segments: seq<Segment>)
    requires Processable(w, esp) && mem.Length == w.g.Hi()
    modifies mem
    ensures ok <==> Succeeds(w, esp)
    ensures ok ==> Clear(w.g, segments) && Gathered(mem[..], segments) == Stored(w, old(mem[..]), esp)
  {
    ghost var m0 := mem[..];
    if w.pre == 0 {
      ok, segments := true, [Segment(esp, w.Postw())];
      NoPre(w, m0, esp);
    } else {
      var bd := new BufferDistribution(w, mem, esp);
      ok := bd.GetSegments();
      segments := bd.segments;
      if ok {
        LayoutClear(w, bd.esp);
        ReadyIsStored(w, m0, esp, mem[..], bd.esp);
      }
    }
  }

  lemma NoPre(w: Capture, m: seq<Word>, esp: nat)
    requires Processable(w, esp) && w.pre == 0
    ensures var segments := [Segment(esp, w.Postw())];
      Clear(w.g, segments) && Gathered(m, segments) == Stored(w, m, esp)
  {
    var segments := [Segment(esp, w.Postw())];
    ExactDiv(w.post, w.Postw(), w.g.nchan);
    GatheredNext(m, segments, 0);
    assert segments[..1] == segments && segments[..0] == [];
    assert Gathered(m, segments) == Straight(m, esp, w.Postw());
    StraightIsRing(w.g, m, esp, m, esp, esp, esp + w.Postw(), 0, w.Postw());
  }
}
