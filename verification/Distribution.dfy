/**
  Where a triggered capture lies in the ring and the segments it is read as:
  `BufferDistribution` of acq400_stream.cpp.
 */
module Distribution {
  import opened Arith
  import opened MapBuffers
  import opened Linearise
  import opened Options

  datatype Segment = Segment(base: int, len: nat)

  datatype Mode = Linear | Precorner | Postcorner | Error

  /** In `m`, addresses `[lo, hi)` hold what the ring of `m0` held at the same distance from the event. */
  ghost predicate Unwrapped(g: Geometry, m0: seq<Word>, esp0: int, m: seq<Word>, esp1: int, lo: int, hi: int) {
    forall x :: lo <= x < hi ==> At(m, x) == At(m0, Ring(g, x - esp1 + esp0))
  }

  // ----- The sorted image, word by word

  lemma BlockWord(g: Geometry, m: seq<Word>, b: nat, o: nat)
    requires g.Valid() && |m| == g.Hi() && b < g.nbuffers && o < g.Len()
    ensures |Blocks(g, m)| == g.nbuffers && |Blocks(g, m)[b]| == g.Len()
    ensures Blocks(g, m)[b][o] == At(m, b * g.Len() + o)
  {
    BuffersApart(g, b, b);
  }

  lemma SortedWord(g: Geometry, sp: Span, m0: seq<Word>, m: seq<Word>, perm: seq<nat>, inv: seq<nat>, q: nat, o: nat)
    requires g.Valid() && |m0| == |m| == g.Hi() && sp.Valid() && sp.Disjoint() && Sorted(g, sp, m0, m, perm, inv)
    requires 1 <= q <= sp.Count() + 1 && o < g.Len()
    ensures At(m, q * g.Len() + o) == At(m0, (if q <= sp.Count() then sp.Source(q) else sp.Above()) * g.Len() + o)
  {
    assert perm[q] == if q <= sp.Count() then sp.Source(q) else sp.Above();
    BlockWord(g, m, q, o);
    BlockWord(g, m0, perm[q], o);
  }

  /** The part of the window in position `q` comes from where the ring is `q - position of the event` buffers on. */
  lemma SourceOnRing(g: Geometry, sp: Span, q: nat, o: nat)
    requires g.Valid() && sp.Valid() && sp.Disjoint() && sp.nbuffers == g.nbuffers && sp.Labelled(sp.ibEsp)
    requires 1 <= q <= sp.Count() + 1 && o < g.Len()
    ensures sp.Source(q) * g.Len() + o ==
            Ring(g, q * g.Len() + o - sp.Label(sp.ibEsp).iseq * g.Len() + sp.ibEsp * g.Len())
  {
    var b, k := sp.Source(q), sp.Label(sp.ibEsp).iseq;
    var t := b - (q - k + sp.ibEsp);
    assert t == 0 || t == g.nbuffers - RESERVED || t == RESERVED - g.nbuffers;
    MulDistrib(b, t, g.Len());
    MulDistrib(q, k, g.Len());
    MulDistrib(q - k, sp.ibEsp, g.Len());
    MulDistrib(g.nbuffers, RESERVED, g.Len());
    MulDistrib(RESERVED, g.nbuffers, g.Len());
    BuffersApart(g, b, RESERVED);
  }

  lemma BufferOf(x: nat, n: int, len: nat) returns (q: nat, o: nat)
    requires 0 < len <= x < (n + 1) * len
    ensures x == q * len + o && 1 <= q <= n && o < len
  {
    q, o := x / len, x % len;
    DivBound(x, n, len);
    DivBound(x, 0, len);
  }

  lemma UnwrappedWord(g: Geometry, sp: Span, m0: seq<Word>, m: seq<Word>, perm: seq<nat>, inv: seq<nat>, shift: int, x: int)
    requires g.Valid() && |m0| == |m| == g.Hi() && sp.Valid() && sp.Disjoint() && Sorted(g, sp, m0, m, perm, inv)
    requires sp.Labelled(sp.ibEsp) && shift == sp.ibEsp * g.Len() - sp.Label(sp.ibEsp).iseq * g.Len()
    requires g.Len() <= x < (sp.Count() + 1) * g.Len()
    ensures At(m, x) == At(m0, Ring(g, x + shift))
  {
    var q, o := BufferOf(x, sp.Count(), g.Len());
    SortedWord(g, sp, m0, m, perm, inv, q, o);
    SourceOnRing(g, sp, q, o);
  }

  lemma SortedUnwraps(g: Geometry, sp: Span, m0: seq<Word>, m: seq<Word>, perm: seq<nat>, inv: seq<nat>, esp1: int)
    requires g.Valid() && |m0| == |m| == g.Hi() && sp.Valid() && sp.Disjoint() && Sorted(g, sp, m0, m, perm, inv)
    requires sp.Labelled(sp.ibEsp)
    requires esp1 == sp.esp + sp.Label(sp.ibEsp).iseq * g.Len() - sp.ibEsp * g.Len()
    ensures Unwrapped(g, m0, sp.esp, m, esp1, g.Len(), (sp.Count() + 1) * g.Len())
  {
    var hi := (sp.Count() + 1) * g.Len();
    forall x | g.Len() <= x < hi
      ensures At(m, x) == At(m0, Ring(g, x - esp1 + sp.esp))
    {
      UnwrappedWord(g, sp, m0, m, perm, inv, sp.esp - esp1, x);
    }
  }

  /** In `m`, the words from `top` on are those that buffer `b` of `m0` held. */
  ghost predicate Holds(g: Geometry, m0: seq<Word>, b: nat, m: seq<Word>, top: int) {
    forall x :: top <= x < top + g.Len() ==> At(m, x) == At(m0, b * g.Len() + (x - top))
  }

  lemma SortedAbove(g: Geometry, sp: Span, m0: seq<Word>, m: seq<Word>, perm: seq<nat>, inv: seq<nat>)
    requires g.Valid() && |m0| == |m| == g.Hi() && sp.Valid() && sp.Disjoint() && Sorted(g, sp, m0, m, perm, inv)
    ensures Holds(g, m0, sp.Above(), m, (sp.Count() + 1) * g.Len())
  {
    var top := (sp.Count() + 1) * g.Len();
    forall x | top <= x < top + g.Len()
      ensures At(m, x) == At(m0, sp.Above() * g.Len() + (x - top))
    {
      SortedWord(g, sp, m0, m, perm, inv, sp.Count() + 1, x - top);
    }
  }

  /** The window a corner mode sorts: where it starts and finishes on the ring, and so the buffers it labels. */
  function SpanOf(g: Geometry, start: nat, finish: nat, esp: nat): (sp: Span)
    requires g.Valid()
  {
    Span(g.nbuffers, start / g.Len(), finish / g.Len(), esp / g.Len(), esp)
  }

  /** The sorted window begins in buffer 1, at the offset it began in its own buffer, and ends likewise. */
  lemma SortedEnds(g: Geometry, start: nat, finish: nat, esp: nat, prew: nat, postw: nat)
    requires g.Valid() && SpanOf(g, start, finish, esp).Valid() && SpanOf(g, start, finish, esp).Disjoint()
    requires var ring := g.Hi() - g.Lo();
      || (start == esp - prew + ring && finish == esp + postw)
      || (start == esp - prew && finish == esp + postw - ring)
    ensures var sp := SpanOf(g, start, finish, esp);
      var esp1 := esp + sp.Label(sp.ibEsp).iseq * g.Len() - sp.ibEsp * g.Len();
      && sp.Labelled(sp.ibEsp)
      && esp1 - prew == g.Len() + start % g.Len()
      && esp1 + postw == sp.Count() * g.Len() + finish % g.Len()
  {
    var sp := SpanOf(g, start, finish, esp);
    var n, first, fin, ib := g.nbuffers, sp.first, sp.fin, sp.ibEsp;
    assert start == first * g.Len() + start % g.Len();
    assert finish == fin * g.Len() + finish % g.Len();
    if finish == esp + postw {
      DivLe(esp, finish, g.Len());
    } else {
      DivLe(start, esp, g.Len());
    }
    var k := sp.Label(ib).iseq;
    MulDistrib(k, ib, g.Len());
    MulDistrib(n, first, g.Len());
    MulDistrib(n - first, 1, g.Len());
    MulDistrib(n - first - 1, fin, g.Len());
    MulDistrib(1, first, g.Len());
    MulDistrib(n, RESERVED, g.Len());
  }

  // ----- The capture window

  function Natural(x: int): (n: nat) {
    if x < 0 then 0 else x
  }

  /** A capture of `pre` samples before the event at `esp` and `post` after its `es` signature words. */
  datatype Capture = Capture(g: Geometry, pre: nat, post: nat, es: nat, showEs: bool) {
    function Prew(): (n: nat) {
      pre * g.nchan
    }

    function Postw(): (n: nat) {
      post * g.nchan
    }

    ghost predicate Valid() {
      g.Valid() && es % g.nchan == 0 && es <= g.Len() && Prew() <= g.Hi() - g.Lo()
    }

    /** The event pointer is on a sample of the ring: `findEvent` steps by whole samples from a buffer base. */
    ghost predicate OnSample(esp: int) {
      g.Valid() && g.Lo() <= esp < g.Hi() && esp % g.nchan == 0
    }

    function Tailroom(esp: int): (n: int)
      requires 0 < g.nchan
    {
      (esp - g.Lo()) / g.nchan
    }

    function Headroom(esp: int): (n: int)
      requires 0 < g.nchan
    {
      (g.Hi() - esp) / g.nchan
    }

    function ModeOf(esp: int): (mode: Mode)
      requires 0 < g.nchan
    {
      var preFits, postFits := Tailroom(esp) >= pre, Headroom(esp) >= post;
      if preFits && postFits then Linear
      else if !preFits && !postFits then Error
      else if !preFits then Precorner
      else Postcorner
    }

    function Start(esp: int): (a: int)
      requires 0 < g.nchan
    {
      if ModeOf(esp) == Precorner then g.Hi() - (pre - Tailroom(esp)) * g.nchan else esp - Prew()
    }

    function Finish(esp: int): (a: int)
      requires 0 < g.nchan
    {
      if ModeOf(esp) == Precorner then g.Lo() + Tailroom(esp) * g.nchan + Postw()
      else g.Lo() + (post - Headroom(esp)) * g.nchan
    }

    /** A corner-mode window can be sorted exactly when its last labelled buffer is below its first. */
    ghost predicate Sortable(esp: int)
      requires g.Valid()
    {
      match ModeOf(esp)
      case Linear => true
      case Error => false
      case _ => Finish(esp) / g.Len() < Start(esp) / g.Len()
    }

    /** In a linear window the post segment must end inside the mapping. */
    ghost predicate InMapping(esp: int)
      requires g.Valid()
    {
      ModeOf(esp) == Linear ==> esp + es + Postw() <= g.Hi()
    }

    /** The labels that a corner window is sorted by. */
    function SpanAt(esp: int): (sp: Span)
      requires g.Valid()
    {
      Span(g.nbuffers, Natural(Start(esp) / g.Len()), Natural(Finish(esp) / g.Len()), Natural(esp / g.Len()), Natural(esp))
    }

    /**
      The post segment starts after the signature, but a corner window is cut without counting it: these
      many words of the segment lie beyond the last buffer that was labelled, and are not the ones that follow,
      unless the buffer that follows on the ring happens to be there.
     */
    function Overrun(esp: int): (n: nat)
      requires g.Valid()
    {
      if ModeOf(esp) == Linear || SpanAt(esp).Above() == SpanAt(esp).fin + 1 then 0 else Beyond(Finish(esp))
    }

    /** The address that the word `d` words from the event is taken from. */
    function Origin(esp: int, d: int): (a: int)
      requires g.Valid()
    {
      var good := es + Postw() - Overrun(esp);
      if d < good then Ring(g, esp + d) else SpanAt(esp).Above() * g.Len() + d - good
    }

    function Beyond(finish: int): (n: nat)
      requires g.Valid()
    {
      if finish % g.Len() + es <= g.Len() then 0 else finish % g.Len() + es - g.Len()
    }

    /** The signature words left out between the pre and post segments. */
    function Skip(): (n: nat) {
      if showEs then 0 else es
    }

    /** The words kept from the event on. */
    function Tail(): (n: nat) {
      es - Skip() + Postw()
    }

    function Layout(esp: int): (segments: seq<Segment>) {
      [Segment(esp - Prew(), Prew())]
      + (if showEs then [Segment(esp, es)] else [])
      + [Segment(esp + es, Postw())]
    }

    lemma CornerWindow(esp: nat)
      requires Valid() && OnSample(esp)
      ensures var ring := g.Hi() - g.Lo();
        && (ModeOf(esp) == Linear ==> g.Lo() <= esp - Prew() && esp + Postw() <= g.Hi())
        && (ModeOf(esp) == Precorner ==>
              Start(esp) == esp - Prew() + ring && Finish(esp) == esp + Postw() && g.Lo() <= Start(esp) < g.Hi())
        && (ModeOf(esp) == Postcorner ==>
              Start(esp) == esp - Prew() && Finish(esp) == esp + Postw() - ring && g.Lo() <= Start(esp) < g.Hi())
        && (ModeOf(esp) == Precorner || ModeOf(esp) == Postcorner ==> g.Lo() <= Finish(esp))
    {
      RoomInSamples(esp);
      RoomFor(pre, Tailroom(esp), g.nchan);
      RoomFor(post, Headroom(esp), g.nchan);
    }

    /** Room on both sides of the event, which is on a sample, is a whole number of samples. */
    lemma RoomInSamples(esp: nat)
      requires OnSample(esp)
      ensures Tailroom(esp) * g.nchan == esp - g.Lo() && Headroom(esp) * g.nchan == g.Hi() - esp
    {
      var e := esp / g.nchan;
      BufferWords(g, RESERVED);
      BufferWords(g, g.nbuffers);
      SamplesBetween(e, RESERVED * g.cbs, g.nchan, esp, g.Lo());
      SamplesBetween(g.nbuffers * g.cbs, e, g.nchan, g.Hi(), esp);
    }
  }

  lemma BufferWords(g: Geometry, b: nat)
    ensures (b * g.cbs) * g.nchan == b * g.Len()
  {
  }

  lemma SamplesBetween(a: nat, b: nat, nchan: nat, hi: int, lo: int)
    requires 0 < nchan && hi == a * nchan && lo == b * nchan
    ensures (hi - lo) / nchan == a - b && (a - b) * nchan == hi - lo
  {
    MulDistrib(a, b, nchan);
    ExactDiv(a - b, hi - lo, nchan);
  }

  /** The window as the segments will read it: above the first whole buffer, each word from its `Origin`. */
  ghost predicate Ready(w: Capture, m0: seq<Word>, esp0: int, m: seq<Word>, esp1: int)
    requires w.g.Valid()
  {
    && w.g.Len() + w.Prew() <= esp1 && esp1 + w.es + w.Postw() <= w.g.Hi()
    && forall d {:trigger w.Origin(esp0, d)} :: 0 <= w.Prew() + d < w.Prew() + w.es + w.Postw() ==> At(m, esp1 + d) == At(m0, w.Origin(esp0, d))
  }

  /** The corner window, as the labels see it. */
  ghost predicate Cornered(w: Capture, esp: nat) {
    && w.Valid() && w.OnSample(esp) && w.Sortable(esp) && w.ModeOf(esp) != Linear
    && w.SpanAt(esp).Valid() && w.SpanAt(esp).Disjoint() && w.SpanAt(esp).Labelled(w.SpanAt(esp).ibEsp)
  }

  /** Where the event goes. */
  function Sunk(g: Geometry, sp: Span): (a: int)
    requires sp.first <= sp.nbuffers
  {
    sp.esp + sp.Label(sp.ibEsp).iseq * g.Len() - sp.ibEsp * g.Len()
  }

  /** The ends of the sorted window. */
  lemma CornerEnds(w: Capture, esp: nat)
    requires w.Valid() && w.OnSample(esp) && w.Sortable(esp) && w.ModeOf(esp) != Linear
    ensures Cornered(w, esp) && w.SpanAt(esp) == SpanOf(w.g, w.Start(esp), w.Finish(esp), esp)
    ensures var sp, start, finish := w.SpanAt(esp), w.Start(esp), w.Finish(esp);
      && Sunk(w.g, sp) - w.Prew() == w.g.Len() + start % w.g.Len()
      && Sunk(w.g, sp) + w.Postw() == sp.Count() * w.g.Len() + finish % w.g.Len()
      && sp.Count() + 1 < w.g.nbuffers && sp.fin + 1 < w.g.nbuffers
  {
    w.CornerWindow(esp);
    var start, finish := w.Start(esp), w.Finish(esp);
    SpanValid(w.g, start, finish, esp);
    SortedEnds(w.g, start, finish, esp, w.Prew(), w.Postw());
  }

  /** Word `d` from the event: round the ring if it went with the window, or in the buffer left above. */
  lemma OriginIs(w: Capture, esp: nat, d: int)
    requires Cornered(w, esp) && 0 <= w.Prew() + d && d < w.es + w.Postw()
    ensures var sp := w.SpanAt(esp);
      var x, top := Sunk(w.g, sp) + d, (sp.Count() + 1) * w.g.Len();
      && w.g.Len() <= x < top + w.g.Len()
      && w.Origin(esp, d) == if x < top then Ring(w.g, esp + d) else sp.Above() * w.g.Len() + (x - top)
  {
    var sp, g := w.SpanAt(esp), w.g;
    var x, top := Sunk(g, sp) + d, (sp.Count() + 1) * g.Len();
    CornerEnds(w, esp);
    MulDistrib(sp.Count(), 1, g.Len());
    if top <= x {
      NextOnRing(w, esp, d);
    }
  }

  /** Beyond the window the ring goes on in the buffer after the last one labelled. */
  lemma NextOnRing(w: Capture, esp: nat, d: int)
    requires Cornered(w, esp) && d < w.es + w.Postw()
    ensures var sp := w.SpanAt(esp);
      var o := Sunk(w.g, sp) + d - (sp.Count() + 1) * w.g.Len();
      0 <= o ==> o < w.g.Len() && Ring(w.g, esp + d) == (sp.fin + 1) * w.g.Len() + o
  {
    var sp := w.SpanAt(esp);
    var o := Sunk(w.g, sp) + d - (sp.Count() + 1) * w.g.Len();
    CornerEnds(w, esp);
    MulDistrib(sp.Count(), 1, w.g.Len());
    if 0 <= o {
      SourceOnRing(w.g, sp, sp.Count() + 1, o);
    }
  }

  lemma SortedReady(w: Capture, esp: nat, m0: seq<Word>, m: seq<Word>, esp1: int)
    requires Cornered(w, esp) && esp1 == Sunk(w.g, w.SpanAt(esp))
    requires Unwrapped(w.g, m0, esp, m, esp1, w.g.Len(), (w.SpanAt(esp).Count() + 1) * w.g.Len())
    requires Holds(w.g, m0, w.SpanAt(esp).Above(), m, (w.SpanAt(esp).Count() + 1) * w.g.Len())
    ensures Ready(w, m0, esp, m, esp1)
  {
    forall d | 0 <= w.Prew() + d < w.Prew() + w.es + w.Postw()
      ensures At(m, esp1 + d) == At(m0, w.Origin(esp, d))
    {
      OriginIs(w, esp, d);
      assert esp1 + d - esp1 + esp == esp + d;
    }
    ReadyRoom(w, esp);
  }

  lemma ReadyRoom(w: Capture, esp: nat)
    requires Cornered(w, esp)
    ensures var esp1 := Sunk(w.g, w.SpanAt(esp));
      w.g.Len() + w.Prew() <= esp1 && esp1 + w.es + w.Postw() <= w.g.Hi()
  {
    var sp := w.SpanAt(esp);
    CornerEnds(w, esp);
    BuffersApart(w.g, sp.Count() + 1, sp.Count());
    MulDistrib(sp.Count(), 1, w.g.Len());
  }

  lemma SortedWindow(w: Capture, esp: nat, m0: seq<Word>, m: seq<Word>, perm: seq<nat>, inv: seq<nat>, sp: Span, esp1: int)
    requires Cornered(w, esp) && |m0| == |m| == w.g.Hi() && sp == w.SpanAt(esp) && esp1 == Sunk(w.g, sp)
    requires Sorted(w.g, sp, m0, m, perm, inv)
    ensures Ready(w, m0, esp, m, esp1)
  {
    SortedUnwraps(w.g, sp, m0, m, perm, inv, esp1);
    SortedAbove(w.g, sp, m0, m, perm, inv);
    SortedReady(w, esp, m0, m, esp1);
  }

  lemma LinearReady(w: Capture, esp: nat, m: seq<Word>)
    requires w.Valid() && w.OnSample(esp) && w.ModeOf(esp) == Linear && w.InMapping(esp)
    ensures Ready(w, m, esp, m, esp)
  {
    w.CornerWindow(esp);
  }

  /**
    What decides the overrun in the plain cases. When the window fills the ring, reserved buffer 1 is left above
    it, so the words beyond are no capture data at all. When it is short enough for the buffer above never to have
    been moved, that is the next one of the ring exactly if one buffer only was labelled below the corner.
   */
  lemma OverrunCases(w: Capture, esp: nat)
    requires w.Valid() && w.OnSample(esp) && w.Sortable(esp) && w.ModeOf(esp) != Linear
    ensures var sp := w.SpanAt(esp);
      && (sp.fin + 1 == sp.first ==> sp.Above() == 1 && w.Overrun(esp) == w.Beyond(w.Finish(esp)))
      && (sp.Count() + 1 < sp.first ==>
            (w.Overrun(esp) == 0 <==> w.Beyond(w.Finish(esp)) == 0 || sp.first == w.g.nbuffers - 1))
  {
    CornerEnds(w, esp);
    AboveCases(w.SpanAt(esp));
  }

  /**
    Exactly the windows that are processed: those that fit about the event, and those that go past one end of the ring
    only, if their last buffer, brought round, is below their first.
   */
  lemma SortableIff(w: Capture, esp: nat)
    requires w.Valid() && w.OnSample(esp)
    ensures var g, ring := w.g, w.g.Hi() - w.g.Lo();
      var preFits, postFits := g.Lo() + w.Prew() <= esp, esp + w.Postw() <= g.Hi();
      w.Sortable(esp) <==>
        || (preFits && postFits)
        || (preFits && !postFits && (esp + w.Postw() - ring) / g.Len() < (esp - w.Prew()) / g.Len())
        || (!preFits && postFits && (esp + w.Postw()) / g.Len() < (esp - w.Prew() + ring) / g.Len())
  {
    w.RoomInSamples(esp);
    RoomFor(w.pre, w.Tailroom(esp), w.g.nchan);
    RoomFor(w.post, w.Headroom(esp), w.g.nchan);
    w.CornerWindow(esp);
  }

  /** The sort itself, and where the event went. */
  method SortWindow(w: Capture, mem: array<Word>, esp: nat, start: nat, finish: nat) returns (r: Option<int>)
    requires w.Valid() && mem.Length == w.g.Hi() && w.OnSample(esp)
    requires (w.ModeOf(esp) == Precorner || w.ModeOf(esp) == Postcorner) && start == w.Start(esp) && finish == w.Finish(esp)
    modifies mem
    ensures r.Some? <==> finish / w.g.Len() < start / w.g.Len()
    ensures r.Some? ==> Ready(w, old(mem[..]), esp, mem[..], r.value)
  {
    var sp := SpanOf(w.g, start, finish, esp);
    CornerSpan(w, esp);
    ghost var perm, inv;
    r, perm, inv := SortBuffers(w.g, mem, sp);
    if sp.Disjoint() {
      CornerEnds(w, esp);
    }
    if r.Some? {
      SortedWindow(w, esp, old(mem[..]), mem[..], perm, inv, sp, r.value);
    }
  }

  lemma CornerSpan(w: Capture, esp: nat)
    requires w.Valid() && w.OnSample(esp) && (w.ModeOf(esp) == Precorner || w.ModeOf(esp) == Postcorner)
    ensures 0 <= w.Start(esp) && 0 <= w.Finish(esp) && SpanOf(w.g, w.Start(esp), w.Finish(esp), esp).Valid()
  {
    w.CornerWindow(esp);
    SpanValid(w.g, w.Start(esp), w.Finish(esp), esp);
  }

  class BufferDistribution {
    const w: Capture
    const mem: array<Word>
    var esp: nat
    var segments: seq<Segment>

    ghost predicate Valid()
      reads this
    {
      w.Valid() && mem.Length == w.g.Hi() && w.OnSample(esp)
    }

    constructor (w: Capture, mem: array<Word>, esp: nat)
      requires w.Valid() && mem.Length == w.g.Hi() && w.OnSample(esp)
      ensures Valid() && this.w == w && this.mem == mem && this.esp == esp && segments == []
    {
      this.w, this.mem, this.esp, segments := w, mem, esp, [];
    }

    /** `sortToLinearBuffer`; `ok` is false when one of its assertions fails. */
    method SortToLinearBuffer(start: nat, finish: nat) returns (ok: bool)
      requires Valid() && (w.ModeOf(esp) == Precorner || w.ModeOf(esp) == Postcorner)
      requires start == w.Start(esp) && finish == w.Finish(esp)
      modifies this, mem
      ensures ok <==> finish / w.g.Len() < start / w.g.Len()
      ensures ok ==> segments == w.Layout(esp) && Ready(w, old(mem[..]), old(esp), mem[..], esp)
    {
      var r := SortWindow(w, mem, esp, start, finish);
      if r == None {
        return false;
      }
      esp, segments := r.value, w.Layout(r.value);
      ok := true;
    }

    method GetSegments() returns (ok: bool)
      requires Valid() && segments == []
      modifies this, mem
      ensures ok <==> w.Sortable(old(esp))
      ensures ok ==> segments == w.Layout(esp)
      ensures ok && w.InMapping(old(esp)) ==> Ready(w, old(mem[..]), old(esp), mem[..], esp)
      ensures w.ModeOf(old(esp)) == Linear ==> esp == old(esp) && mem[..] == old(mem[..])
    {
      w.CornerWindow(esp);
      match w.ModeOf(esp) {
        case Error =>
          ok := false;
        case Linear =>
          if w.InMapping(esp) {
            LinearReady(w, esp, mem[..]);
          }
          segments := w.Layout(esp);
          ok := true;
        case _ =>
          ok := SortToLinearBuffer(w.Start(esp), w.Finish(esp));
      }
    }
  }

  lemma SpanValid(g: Geometry, start: nat, finish: nat, esp: nat)
    requires g.Valid() && g.Lo() <= start < g.Hi() && g.Lo() <= finish && g.Lo() <= esp < g.Hi()
    ensures SpanOf(g, start, finish, esp).Valid()
  {
    DivBound(start, g.nbuffers - 1, g.Len());
    DivBound(esp, g.nbuffers - 1, g.Len());
    DivBound(start, RESERVED - 1, g.Len());
    DivBound(finish, RESERVED - 1, g.Len());
    DivBound(esp, RESERVED - 1, g.Len());
  }
}
