/**
  The producer that watches for sentinels: `axi64_data_loop` of acq400_drv.c. DMA runs by itself round the
  descriptor chain; the loop takes a buffer to be full when both of its sentinel words have gone.
 */
module AxiLoop {
  import opened HostBuffers
  import opened Options
  import opened Device
  import opened Poison

  /** What is known of a buffer's sentinels since it last became empty. */
  datatype Trust =
    | Armed      // both were written
    | Checked    // it was found with at least one
    | Stale      // nothing

  /** Whether DMA has written each sentinel word since the buffer last became empty. */
  datatype Hist = Hist(wrote0: bool, wrote1: bool, trust: Trust)

  const ARMED := Hist(false, false, Armed)
  const STALE := Hist(false, false, Stale)

  datatype Params = Params(
    runBuffers: nat, quitOnExhaustion: bool, catchup: bool,
    recycle: bool,          // buffers are poisoned when the reader gives them back: not axi_oneshot
    loopback: nat,          // AXI_DEBUG_LOOPBACK_INDEX: buffers below it are not
    chain: seq<nat>)        // the buffers of the descriptor chain

  datatype Pc =
    | Poisoning
    | Checking
    | First                 // to take the first buffer
    | Polling(b: nat)
    | Found(b: nat)         // sentinels gone: to put it full
    | Taking                // to take the next buffer
    | Catching(b: nat)
    | Exhausted
    | Retrying
    | Rearming(b: nat)
    | Quit
    | Fault

  datatype Loop = Loop(s: Lists, tail: map<nat, Tail>, hist: map<nat, Hist>, pc: Pc)

  const BLANK: Quad := [0, 0, 0, 0]

  function TailAt(tail: map<nat, Tail>, b: nat): (t: Tail) {
    if b in tail then tail[b] else Tail(BLANK, BLANK, BLANK, BLANK)
  }

  function HistAt(hist: map<nat, Hist>, b: nat): (h: Hist) {
    if b in hist then hist[b] else STALE
  }

  function PoisonAll(tail: map<nat, Tail>, chain: seq<nat>): (tail': map<nat, Tail>) {
    if chain == [] then tail else
    var most, b := PoisonAll(tail, chain[..|chain| - 1]), chain[|chain| - 1];
    most[b := Poisoned(TailAt(most, b))]
  }

  function SetAll(hist: map<nat, Hist>, bs: seq<nat>, h: Hist): (hist': map<nat, Hist>) {
    hist + map b | b in bs :: h
  }

  /** A buffer that passed the check, if nothing better is known of it. */
  function Passed(h: Hist): (h': Hist) {
    if h.trust == Stale then Hist(false, false, Checked) else h
  }

  function PassAll(hist: map<nat, Hist>, bs: seq<nat>): (hist': map<nat, Hist>) {
    hist + map b | b in bs :: Passed(HistAt(hist, b))
  }

  predicate AnyOverwritten(tail: map<nat, Tail>, bs: seq<nat>) {
    exists i :: 0 <= i < |bs| && Overwritten(TailAt(tail, bs[i]))
  }

  /** One step of the loop. */
  function Advance(p: Params, l: Loop): (l': Loop) {
    match l.pc
    case Poisoning =>
      Loop(l.s, PoisonAll(l.tail, p.chain), SetAll(map[], p.chain, ARMED), Checking)
    case Checking =>
      if AnyOverwritten(l.tail, l.s.empties) then l.(pc := Quit)
      else l.(hist := PassAll(l.hist, l.s.empties), pc := First)
    case First =>
      var (s, b) := GetEmpty(l.s);
      l.(s := s, pc := if b.None? then Fault else Polling(b.value))
    case Polling(b) => l.(pc := if Overwritten(TailAt(l.tail, b)) then Found(b) else Polling(b))
    case Found(b) => l.(s := PutFull(l.s, p.runBuffers), pc := Taking)
    case Taking =>
      var (s, b) := GetEmpty(l.s);
      l.(s := s, pc := if b.None? then Exhausted else if p.catchup then Catching(b.value) else Polling(b.value))
    case Catching(b) => l.(pc := if Overwritten(TailAt(l.tail, b)) then Found(b) else Polling(b))
    case Exhausted =>
      l.(s := DrainRefills(l.s), hist := SetAll(l.hist, l.s.refills, STALE),
         pc := if p.quitOnExhaustion then Quit else Retrying)
    case Retrying =>
      var (s, b) := GetEmpty(l.s);
      l.(s := s, pc := if b.None? then Quit else Rearming(b.value))
    case Rearming(b) =>
      l.(tail := l.tail[b := Poisoned(TailAt(l.tail, b))], hist := l.hist[b := ARMED], pc := Polling(b))
    case _ => l
  }

  /** `putEmpty` with its `onPutEmpty`: the buffer is poisoned as it goes back, or not. */
  function GiveBack(p: Params, l: Loop): (l': Loop) {
    if l.s.opens == [] then l else
    var b := l.s.opens[0];
    if p.recycle && p.loopback <= b
    then l.(s := PutEmpty(l.s), tail := l.tail[b := Poisoned(TailAt(l.tail, b))], hist := l.hist[b := ARMED])
    else l.(s := PutEmpty(l.s), hist := l.hist[b := STALE])
  }

  /** DMA writes one of the sentinel words of any buffer, at any time. */
  function DmaWrite(l: Loop, b: nat, second: bool, w: Quad): (l': Loop) {
    var t, h := TailAt(l.tail, b), HistAt(l.hist, b);
    if second
    then l.(tail := l.tail[b := t.(w1 := w)], hist := l.hist[b := h.(wrote1 := true)])
    else l.(tail := l.tail[b := t.(w0 := w)], hist := l.hist[b := h.(wrote0 := true)])
  }

  datatype Event = Go | Stop | ReaderGets | ReaderGivesBack | Dma(b: nat, second: bool, w: Quad)

  function Next(p: Params, l: Loop, e: Event): (l': Loop) {
    match e
    case Go => Advance(p, l)
    case Stop => l.(pc := Quit)
    case ReaderGets => l.(s := GetFull(l.s).0)
    case ReaderGivesBack => GiveBack(p, l)
    case Dma(b, second, w) => DmaWrite(l, b, second, w)
  }

  function After(p: Params, l: Loop, es: seq<Event>): (l': Loop)
    decreases |es|
  {
    if es == [] then l else After(p, Next(p, l, es[0]), es[1..])
  }

  // ----- Soundness

  /** The buffer a step moves to REFILLS. */
  function Completed(l: Loop, e: Event): (b: Option<nat>) {
    if e.Go? && l.pc.Found? && l.s.inflight != [] then Some(l.s.inflight[0]) else None
  }

  /** A missing sentinel is one that DMA has written. */
  ghost predicate Trusted(t: Tail, h: Hist) {
    match h.trust
    case Armed => (h.wrote0 || t.w0 == POISON0) && (h.wrote1 || t.w1 == POISON1)
    case Checked => h.wrote0 || h.wrote1 || t.w0 == POISON0 || t.w1 == POISON1
    case Stale => true
  }

  /** What the disappearance of both sentinels then proves. */
  ghost predicate Written(h: Hist) {
    match h.trust
    case Armed => h.wrote0 && h.wrote1
    case Checked => h.wrote0 || h.wrote1
    case Stale => true
  }

  ghost predicate AllTrusted(l: Loop) {
    forall b: nat :: Trusted(TailAt(l.tail, b), HistAt(l.hist, b))
  }

  /** The one buffer in flight is the one the loop holds. */
  ghost predicate Holding(l: Loop) {
    match l.pc
    case Polling(b) => l.s.inflight == [b]
    case Found(b) => l.s.inflight == [b] && Written(HistAt(l.hist, b))
    case Catching(b) => l.s.inflight == [b]
    case Rearming(b) => l.s.inflight == [b]
    case Quit => true
    case Fault => true
    case _ => l.s.inflight == []
  }

  ghost predicate Inv(l: Loop) {
    Consistent(l.s) && (l.pc.Poisoning? || AllTrusted(l)) && Holding(l)
  }

  lemma OverwrittenMeansWritten(t: Tail, h: Hist)
    requires Trusted(t, h) && Overwritten(t)
    ensures Written(h)
  {
  }

  lemma PoisonedTrusted(t: Tail)
    ensures Trusted(Poisoned(t), ARMED)
  {
  }

  lemma {:induction false} PoisonAllPoisons(tail: map<nat, Tail>, chain: seq<nat>, b: nat)
    requires b in chain
    ensures var t := TailAt(PoisonAll(tail, chain), b); t.w0 == POISON0 && t.w1 == POISON1
  {
    var most := chain[..|chain| - 1];
    assert chain == most + [chain[|chain| - 1]];
    if b != chain[|chain| - 1] {
      PoisonAllPoisons(tail, most, b);
    }
  }

  lemma PoisonAllTrusted(tail: map<nat, Tail>, chain: seq<nat>, b: nat)
    ensures Trusted(TailAt(PoisonAll(tail, chain), b), HistAt(SetAll(map[], chain, ARMED), b))
  {
    if b in chain {
      PoisonAllPoisons(tail, chain, b);
    }
  }

  lemma CheckTrusted(tail: map<nat, Tail>, hist: map<nat, Hist>, bs: seq<nat>, b: nat)
    requires !AnyOverwritten(tail, bs) && Trusted(TailAt(tail, b), HistAt(hist, b))
    ensures Trusted(TailAt(tail, b), HistAt(PassAll(hist, bs), b))
  {
    if b in bs {
      var i :| 0 <= i < |bs| && bs[i] == b;
      assert !Overwritten(TailAt(tail, bs[i]));
    }
  }

  /** Of an empty buffer that passed something is known, and nothing that was known is lost. */
  lemma PassedKnown(p: Params, l: Loop, b: nat)
    requires l.pc.Checking? && !AnyOverwritten(l.tail, l.s.empties)
    ensures var h, h' := HistAt(l.hist, b), HistAt(Advance(p, l).hist, b);
      (b in l.s.empties ==> !h'.trust.Stale?) && (!h.trust.Stale? || b !in l.s.empties ==> h' == h)
  {
  }

  lemma AdvanceTrusted(p: Params, l: Loop)
    requires l.pc.Poisoning? || AllTrusted(l)
    ensures AllTrusted(Advance(p, l))
  {
    var l' := Advance(p, l);
    forall b: nat
      ensures Trusted(TailAt(l'.tail, b), HistAt(l'.hist, b))
    {
      match l.pc
      case Poisoning => PoisonAllTrusted(l.tail, p.chain, b);
      case Checking =>
        if !AnyOverwritten(l.tail, l.s.empties) {
          CheckTrusted(l.tail, l.hist, l.s.empties, b);
        }
      case Rearming(x) => PoisonedTrusted(TailAt(l.tail, x));
      case _ =>
        assert Trusted(TailAt(l.tail, b), HistAt(l.hist, b));
    }
  }

  lemma OutsideTrusted(p: Params, l: Loop, e: Event)
    requires AllTrusted(l) && !e.Go?
    ensures AllTrusted(Next(p, l, e))
  {
    var l' := Next(p, l, e);
    forall b: nat
      ensures Trusted(TailAt(l'.tail, b), HistAt(l'.hist, b))
    {
      assert Trusted(TailAt(l.tail, b), HistAt(l.hist, b));
      if e.ReaderGivesBack? && l.s.opens != [] {
        PoisonedTrusted(TailAt(l.tail, l.s.opens[0]));
      }
    }
  }

  lemma AdvanceHolding(p: Params, l: Loop)
    requires Holding(l) && (l.pc.Polling? || l.pc.Catching? ==> AllTrusted(l))
    ensures Holding(Advance(p, l))
  {
    match l.pc
    case Polling(b) =>
      if Overwritten(TailAt(l.tail, b)) {
        OverwrittenMeansWritten(TailAt(l.tail, b), HistAt(l.hist, b));
      }
    case Catching(b) =>
      if Overwritten(TailAt(l.tail, b)) {
        OverwrittenMeansWritten(TailAt(l.tail, b), HistAt(l.hist, b));
      }
    case _ =>
  }

  /** A buffer in flight is not the one the reader gives back. */
  lemma HeldNotOpen(s: Lists, b: nat)
    requires Consistent(s) && s.inflight == [b] && s.opens != []
    ensures s.opens[0] != b
  {
    assert s.bstate[s.inflight[0]] == BsFilling && s.bstate[s.opens[0]] == BsFullApp;
  }

  lemma OutsideHolding(p: Params, l: Loop, e: Event)
    requires Consistent(l.s) && Holding(l) && !e.Go?
    ensures Holding(Next(p, l, e))
  {
    if l.pc.Found? && l.s.opens != [] {
      HeldNotOpen(l.s, l.pc.b);
    }
  }

  lemma AdvanceConsistent(p: Params, l: Loop)
    requires Consistent(l.s)
    ensures Consistent(Advance(p, l).s)
  {
    match l.pc
    case First => GetEmptyConsistent(l.s);
    case Taking => GetEmptyConsistent(l.s);
    case Retrying => GetEmptyConsistent(l.s);
    case Found(_) => PutFullConsistent(l.s, p.runBuffers);
    case Exhausted => DrainConsistent(l.s);
    case _ =>
  }

  lemma OutsideConsistent(p: Params, l: Loop, e: Event)
    requires Consistent(l.s) && !e.Go?
    ensures Consistent(Next(p, l, e).s)
  {
    match e
    case ReaderGets => GetFullConsistent(l.s);
    case ReaderGivesBack => PutEmptyConsistent(l.s);
    case _ =>
  }

  lemma InvStep(p: Params, l: Loop, e: Event)
    requires Inv(l) && !(l.pc.Poisoning? && e.Stop?)
    ensures Inv(Next(p, l, e))
  {
    if e.Go? {
      AdvanceConsistent(p, l);
      AdvanceTrusted(p, l);
      AdvanceHolding(p, l);
    } else {
      OutsideConsistent(p, l, e);
      if !l.pc.Poisoning? {
        OutsideTrusted(p, l, e);
      }
      OutsideHolding(p, l, e);
    }
  }

  /** A run in which every completion proves what `Written` says. */
  ghost predicate Sound(p: Params, l: Loop, es: seq<Event>)
    decreases |es|
  {
    es != [] ==>
      && (var b := Completed(l, es[0]); b.Some? ==> l.pc == Found(b.value) && Written(HistAt(l.hist, b.value)))
      && Sound(p, Next(p, l, es[0]), es[1..])
  }

  lemma {:induction false} QuitIsSound(p: Params, l: Loop, es: seq<Event>)
    requires l.pc.Quit?
    ensures Sound(p, l, es)
    decreases |es|
  {
    if es != [] {
      QuitIsSound(p, Next(p, l, es[0]), es[1..]);
    }
  }

  /**
    In every run, whatever DMA and the reader do and however often the buffers run out, the buffer moved to
    REFILLS is the one the loop holds, and since it last became empty DMA has written both of its sentinel
    words if it was poisoned then, and at least one if it only passed the check.
   */
  lemma {:induction false} CompletionSound(p: Params, l: Loop, es: seq<Event>)
    requires Inv(l)
    ensures Sound(p, l, es)
    decreases |es|
  {
    if es != [] {
      if l.pc.Poisoning? && es[0].Stop? {
        QuitIsSound(p, Next(p, l, es[0]), es[1..]);
      } else {
        InvStep(p, l, es[0]);
        CompletionSound(p, Next(p, l, es[0]), es[1..]);
      }
    }
  }

  // ----- When the loop gives up

  /** A step that ends the loop: the check fails, or the buffers run out for good. */
  ghost predicate GivesUp(p: Params, l: Loop) {
    || (l.pc.Checking? && exists i :: 0 <= i < |l.s.empties| && Overwritten(TailAt(l.tail, l.s.empties[i])))
    || (l.pc.Exhausted? && p.quitOnExhaustion)
    || (l.pc.Retrying? && l.s.empties == [])
  }

  ghost predicate GaveUp(p: Params, l: Loop, es: seq<Event>)
    decreases |es|
  {
    es != [] && ((es[0].Go? && GivesUp(p, l)) || GaveUp(p, Next(p, l, es[0]), es[1..]))
  }

  ghost predicate NoStop(es: seq<Event>) {
    forall i :: 0 <= i < |es| ==> !es[i].Stop?
  }

  lemma {:induction false} Over(p: Params, l: Loop, es: seq<Event>)
    requires l.pc.Quit? || l.pc.Fault?
    ensures NoStop(es) || l.pc.Quit? ==> After(p, l, es).pc == l.pc
    ensures !GaveUp(p, l, es)
    decreases |es|
  {
    if es != [] {
      Over(p, Next(p, l, es[0]), es[1..]);
    }
  }

  /** Not told to stop, the loop quits exactly by such a step, and faults exactly for want of a first buffer. */
  lemma {:induction false} QuitsIff(p: Params, l: Loop, es: seq<Event>)
    requires !l.pc.Quit? && !l.pc.Fault? && NoStop(es)
    ensures After(p, l, es).pc.Quit? <==> GaveUp(p, l, es)
    ensures After(p, l, es).pc.Fault? <==> NoFirst(p, l, es)
    decreases |es|
  {
    if es != [] {
      var l' := Next(p, l, es[0]);
      assert es[0] == es[..][0];
      if l'.pc.Quit? || l'.pc.Fault? {
        Over(p, l', es[1..]);
        NoFirstOver(p, l', es[1..]);
      } else {
        QuitsIff(p, l', es[1..]);
      }
    }
  }

  ghost predicate NoFirst(p: Params, l: Loop, es: seq<Event>)
    decreases |es|
  {
    es != [] && ((es[0].Go? && l.pc.First? && l.s.empties == []) || NoFirst(p, Next(p, l, es[0]), es[1..]))
  }

  lemma {:induction false} NoFirstOver(p: Params, l: Loop, es: seq<Event>)
    requires l.pc.Quit? || l.pc.Fault?
    ensures !NoFirst(p, l, es)
    decreases |es|
  {
    if es != [] {
      NoFirstOver(p, Next(p, l, es[0]), es[1..]);
    }
  }

  // ----- The end: sentinels cleared

  function ClearAll(tail: map<nat, Tail>, chain: seq<nat>): (tail': map<nat, Tail>) {
    if chain == [] then tail else
    var most, b := ClearAll(tail, chain[..|chain| - 1]), chain[|chain| - 1];
    most[b := Cleared(TailAt(most, b))]
  }

  lemma {:induction false} ClearAllOnce(tail: map<nat, Tail>, chain: seq<nat>, b: nat)
    ensures TailAt(ClearAll(tail, chain), b) == if b in chain then Cleared(TailAt(tail, b)) else TailAt(tail, b)
  {
    if chain != [] {
      var most, x := chain[..|chain| - 1], chain[|chain| - 1];
      assert chain == most + [x];
      ClearAllOnce(tail, most, b);
      ClearedTwice(TailAt(tail, b));
    }
  }

  /** A buffer that DMA has filled is left alone; one that still has a sentinel gets its words back; others are not touched. */
  lemma ClearAllIs(tail: map<nat, Tail>, chain: seq<nat>, b: nat)
    ensures var t, t' := TailAt(tail, b), TailAt(ClearAll(tail, chain), b);
      && (b !in chain || (t.w0 != POISON0 && t.w1 != POISON1) ==> t' == t)
      && (b in chain && (t.w0 == POISON0 || t.w1 == POISON1) ==> t'.w0 == t.stash0 && t'.w1 == t.stash1)
  {
    ClearAllOnce(tail, chain, b);
  }

  /** A buffer that comes back with its sentinels gone has them again exactly if recycled ones are poisoned, and not this one exempt. */
  lemma RecycledIff(p: Params, l: Loop)
    requires l.s.opens != [] && Overwritten(TailAt(l.tail, l.s.opens[0]))
    ensures var b := l.s.opens[0]; var t := TailAt(GiveBack(p, l).tail, b);
      && (!Overwritten(t) <==> p.recycle && p.loopback <= b)
      && (!Overwritten(t) ==> t.w0 == POISON0 && t.w1 == POISON1)
      && (Overwritten(t) ==> t == TailAt(l.tail, b))
  {
  }

  // ----- When the sentinels prove that both words were written

  /** Each sentinel that is gone has been written over since the buffer last became empty. */
  ghost predicate Guarded(l: Loop, b: nat) {
    var t, h := TailAt(l.tail, b), HistAt(l.hist, b);
    (h.wrote0 || t.w0 == POISON0) && (h.wrote1 || t.w1 == POISON1)
  }

  function Rest(bs: seq<nat>): (r: seq<nat>) {
    if bs == [] then [] else bs[1..]
  }

  /** The buffers the loop may yet put full as they are: not one that is about to be poisoned. */
  function Pending(l: Loop): (bs: seq<nat>) {
    match l.pc
    case Polling(b) => [b] + l.s.empties
    case Catching(b) => [b] + l.s.empties
    case Retrying => Rest(l.s.empties)
    case Quit => []
    case Fault => []
    case _ => l.s.empties
  }

  ghost predicate Watched(l: Loop) {
    && !l.pc.Poisoning?
    && (forall b: nat :: b in Pending(l) ==> Guarded(l, b))
    && (l.pc.Checking? ==> forall b: nat :: b in l.s.empties ==> HistAt(l.hist, b).trust == Armed)
    && (l.pc.Found? ==> HistAt(l.hist, l.pc.b).wrote0 && HistAt(l.hist, l.pc.b).wrote1)
  }

  /** Recycled buffers are poisoned, and none is exempt. */
  ghost predicate Poisons(p: Params) {
    p.recycle && p.loopback == 0
  }

  /** The drained buffers that will not be poisoned before they are waited for: all but one that is taken at once. */
  function Risky(s: Lists): (bs: seq<nat>) {
    if s.empties == [] then Rest(s.refills) else s.refills
  }

  /** A drain after which the loop gives up, or whose buffers have their sentinels all the same. */
  ghost predicate SafeDrain(p: Params, l: Loop) {
    p.quitOnExhaustion ||
    forall b: nat :: b in Risky(l.s) ==> TailAt(l.tail, b).w0 == POISON0 && TailAt(l.tail, b).w1 == POISON1
  }

  ghost predicate SafeDrains(p: Params, l: Loop, es: seq<Event>)
    decreases |es|
  {
    es != [] ==> (l.pc.Exhausted? && es[0].Go? ==> SafeDrain(p, l)) && SafeDrains(p, Next(p, l, es[0]), es[1..])
  }

  lemma HeadOrTail(bs: seq<nat>, b: nat)
    ensures bs != [] ==> (b in bs <==> b == bs[0] || b in bs[1..])
  {
    if bs != [] {
      assert bs == [bs[0]] + bs[1..];
    }
  }

  /** DMA and the reader take no guard away. */
  lemma OutsideGuarded(p: Params, l: Loop, e: Event, b: nat)
    requires Poisons(p) && !e.Go? && (Guarded(l, b) || (e.ReaderGivesBack? && l.s.opens != [] && b == l.s.opens[0]))
    ensures Guarded(Next(p, l, e), b)
  {
  }

  lemma OutsidePending(p: Params, l: Loop, e: Event, b: nat)
    requires !e.Go? && !e.Stop? && b in Pending(Next(p, l, e))
    ensures b in Pending(l) || (e.ReaderGivesBack? && l.s.opens != [] && b == l.s.opens[0])
  {
    var l' := Next(p, l, e);
    if e.ReaderGivesBack? && l.s.opens != [] && l.pc.Retrying? && l.s.empties != [] {
      assert Rest(l'.s.empties) == Rest(l.s.empties) + [l.s.opens[0]];
    }
  }

  lemma OutsideWatched(p: Params, l: Loop, e: Event)
    requires Poisons(p) && Inv(l) && Watched(l) && !e.Go?
    ensures Watched(Next(p, l, e))
  {
    var l' := Next(p, l, e);
    if !e.Stop? {
      forall b: nat | b in Pending(l')
        ensures Guarded(l', b)
      {
        OutsidePending(p, l, e, b);
        OutsideGuarded(p, l, e, b);
      }
      if l.pc.Found? && l.s.opens != [] {
        HeldNotOpen(l.s, l.pc.b);
      }
    }
  }

  /** A step that leaves the sentinels alone, and takes up no buffer that is not pending. */
  lemma SameGuards(l: Loop, l': Loop)
    requires Watched(l) && l'.tail == l.tail && l'.hist == l.hist && !l'.pc.Poisoning? && !l'.pc.Checking?
    requires l'.pc.Found? ==> HistAt(l.hist, l'.pc.b).wrote0 && HistAt(l.hist, l'.pc.b).wrote1
    requires forall b: nat :: b in Pending(l') ==> b in Pending(l)
    ensures Watched(l')
  {
    forall b: nat | b in Pending(l')
      ensures Guarded(l', b)
    {
      assert Guarded(l, b);
    }
  }

  lemma CheckWatched(p: Params, l: Loop)
    requires Watched(l) && l.pc.Checking?
    ensures Watched(Advance(p, l))
  {
    var l' := Advance(p, l);
    forall b: nat | b in Pending(l')
      ensures Guarded(l', b)
    {
      assert Guarded(l, b);
    }
  }

  lemma DrainedGuarded(p: Params, l: Loop, b: nat)
    requires l.pc.Exhausted? && b in Rest(l.s.empties + l.s.refills)
    requires b in l.s.empties ==> Guarded(l, b)
    requires b in Risky(l.s) ==> TailAt(l.tail, b).w0 == POISON0 && TailAt(l.tail, b).w1 == POISON1
    ensures Guarded(Advance(p, l), b)
  {
    DrainedPending(l.s, b);
  }

  lemma DrainWatched(p: Params, l: Loop)
    requires Watched(l) && l.pc.Exhausted? && SafeDrain(p, l)
    ensures Watched(Advance(p, l))
  {
    if !p.quitOnExhaustion {
      var l' := Advance(p, l);
      assert Pending(l') == Rest(l.s.empties + l.s.refills) && Pending(l) == l.s.empties;
      forall b: nat | b in Rest(l.s.empties + l.s.refills)
        ensures Guarded(l', b)
      {
        DrainedGuarded(p, l, b);
      }
    }
  }

  lemma DrainedPending(s: Lists, b: nat)
    requires b in Rest(s.empties + s.refills)
    ensures b in Risky(s) || (b in s.empties && b !in s.refills)
  {
    if s.empties == [] {
      assert s.empties + s.refills == s.refills;
    }
  }

  lemma RearmWatched(p: Params, l: Loop)
    requires Watched(l) && l.pc.Rearming?
    ensures Watched(Advance(p, l))
  {
    var l' := Advance(p, l);
    forall b: nat | b in Pending(l')
      ensures Guarded(l', b)
    {
      assert b != l.pc.b ==> Guarded(l, b);
    }
  }

  lemma AdvanceWatched(p: Params, l: Loop)
    requires Watched(l) && (l.pc.Exhausted? ==> SafeDrain(p, l))
    ensures Watched(Advance(p, l))
  {
    var l' := Advance(p, l);
    if l.pc.Checking? {
      CheckWatched(p, l);
    } else if l.pc.Exhausted? {
      DrainWatched(p, l);
    } else if l.pc.Rearming? {
      RearmWatched(p, l);
    } else {
      AdvancePending(p, l);
      assert l.pc.Polling? || l.pc.Catching? ==> l.pc.b in Pending(l);
      SameGuards(l, l');
    }
  }

  /** The other steps take a buffer that was pending, or none. */
  lemma AdvancePending(p: Params, l: Loop)
    requires !l.pc.Exhausted? && !l.pc.Rearming?
    ensures forall b: nat :: b in Pending(Advance(p, l)) ==> b in Pending(l)
  {
    if (l.pc.First? || l.pc.Taking? || l.pc.Retrying?) && l.s.empties != [] {
      TakePending(p, l);
    }
  }

  lemma TakePending(p: Params, l: Loop)
    requires (l.pc.First? || l.pc.Taking? || l.pc.Retrying?) && l.s.empties != []
    ensures Pending(Advance(p, l)) == Pending(l)
  {
    var l' := Advance(p, l);
    assert l'.s.empties == l.s.empties[1..];
    assert l.s.empties == [l.s.empties[0]] + l.s.empties[1..];
  }

  /** `b` is a buffer of the capture: not reserved. */
  ghost predicate InRing(s: Lists, b: nat) {
    b in s.refills || b in s.inflight || b in s.empties || b in s.opens
  }

  ghost predicate ChainCovers(p: Params, s: Lists) {
    forall b: nat :: InRing(s, b) ==> b in p.chain
  }

  lemma PoisoningWatches(p: Params, l: Loop)
    requires l.pc.Poisoning? && ChainCovers(p, l.s)
    ensures Watched(Advance(p, l))
  {
    var l' := Advance(p, l);
    forall b: nat | b in Pending(l')
      ensures Guarded(l', b)
    {
      assert InRing(l.s, b);
      PoisonAllPoisons(l.tail, p.chain, b);
    }
    forall b: nat | b in l'.s.empties
      ensures HistAt(l'.hist, b).trust == Armed
    {
      assert InRing(l.s, b);
    }
  }

  lemma OutsideKeepsRing(p: Params, l: Loop, e: Event, b: nat)
    requires !e.Go?
    ensures InRing(Next(p, l, e).s, b) <==> InRing(l.s, b)
  {
    HeadOrTail(l.s.refills, b);
    HeadOrTail(l.s.opens, b);
  }

  lemma OutsideCovers(p: Params, l: Loop, e: Event)
    requires ChainCovers(p, l.s) && !e.Go?
    ensures ChainCovers(p, Next(p, l, e).s)
  {
    forall b: nat | InRing(Next(p, l, e).s, b)
      ensures b in p.chain
    {
      OutsideKeepsRing(p, l, e, b);
    }
  }

  /** Every completion of the run is of a buffer both of whose words DMA has written since it last became empty. */
  ghost predicate BothWritten(p: Params, l: Loop, es: seq<Event>)
    decreases |es|
  {
    es != [] ==>
      && (var b := Completed(l, es[0]);
          b.Some? ==> HistAt(l.hist, b.value).wrote0 && HistAt(l.hist, b.value).wrote1)
      && BothWritten(p, Next(p, l, es[0]), es[1..])
  }

  lemma {:induction false} QuitBothWritten(p: Params, l: Loop, es: seq<Event>)
    requires l.pc.Quit?
    ensures BothWritten(p, l, es)
    decreases |es|
  {
    if es != [] {
      QuitBothWritten(p, Next(p, l, es[0]), es[1..]);
    }
  }

  /** Before the prologue has poisoned the chain, or after, with the guards up. */
  ghost predicate Prepared(p: Params, l: Loop) {
    Inv(l) && if l.pc.Poisoning? then ChainCovers(p, l.s) else Watched(l)
  }

  lemma PreparedStep(p: Params, l: Loop, e: Event)
    requires Poisons(p) && Prepared(p, l) && !(l.pc.Poisoning? && e.Stop?)
    requires l.pc.Exhausted? && e.Go? ==> SafeDrain(p, l)
    ensures Prepared(p, Next(p, l, e))
  {
    InvStep(p, l, e);
    if l.pc.Poisoning? {
      if e.Go? {
        PoisoningWatches(p, l);
      } else {
        OutsideCovers(p, l, e);
      }
    } else if e.Go? {
      AdvanceWatched(p, l);
    } else {
      OutsideWatched(p, l, e);
    }
  }

  /**
    With every buffer in the chain, recycled buffers poisoned and none exempted, in every run whose drains are
    safe a buffer is moved to REFILLS only if DMA has written both of its sentinel words since it last became empty.
   */
  lemma {:induction false} FullOnlyWhenWritten(p: Params, l: Loop, es: seq<Event>)
    requires Poisons(p) && Prepared(p, l) && SafeDrains(p, l, es)
    ensures BothWritten(p, l, es)
    decreases |es|
  {
    if es != [] {
      var l' := Next(p, l, es[0]);
      if l.pc.Poisoning? && es[0].Stop? {
        QuitBothWritten(p, l', es[1..]);
      } else {
        PreparedStep(p, l, es[0]);
        FullOnlyWhenWritten(p, l', es[1..]);
      }
    }
  }

  // ----- Runs in parts

  lemma {:induction false} AfterJoin(p: Params, l: Loop, es: seq<Event>, fs: seq<Event>)
    ensures After(p, l, es + fs) == After(p, After(p, l, es), fs)
    decreases |es|
  {
    if es == [] {
      assert es + fs == fs;
    } else {
      assert (es + fs)[1..] == es[1..] + fs;
      AfterJoin(p, Next(p, l, es[0]), es[1..], fs);
    }
  }

  lemma AfterTwo(p: Params, l: Loop, e: Event, f: Event)
    ensures After(p, l, [e, f]) == Next(p, Next(p, l, e), f)
  {
    var l1 := Next(p, l, e);
    assert [e, f][1..] == [f];
    AfterOne(p, l1, f);
  }

  lemma AfterOne(p: Params, l: Loop, e: Event)
    ensures After(p, l, [e]) == Next(p, l, e)
  {
    assert [e][1..] == [];
  }

  lemma AfterThree(p: Params, l: Loop)
    ensures After(p, l, [Go, Go] + [Go]) == Next(p, Next(p, Next(p, l, Go), Go), Go)
  {
    AfterTwo(p, l, Go, Go);
    AfterJoin(p, l, [Go, Go], [Go]);
    AfterOne(p, Next(p, Next(p, l, Go), Go), Go);
  }

  /** No state of the run, the last one but for the rest, is an exhausted one. */
  ghost predicate NeverExhausted(p: Params, l: Loop, es: seq<Event>)
    decreases |es|
  {
    es != [] ==> !l.pc.Exhausted? && NeverExhausted(p, Next(p, l, es[0]), es[1..])
  }

  lemma {:induction false} NeverJoin(p: Params, l: Loop, es: seq<Event>, fs: seq<Event>)
    requires NeverExhausted(p, l, es) && NeverExhausted(p, After(p, l, es), fs)
    ensures NeverExhausted(p, l, es + fs)
    decreases |es|
  {
    if es == [] {
      assert es + fs == fs;
    } else {
      assert (es + fs)[1..] == es[1..] + fs;
      NeverJoin(p, Next(p, l, es[0]), es[1..], fs);
    }
  }

  lemma {:induction false} NeverIsSafe(p: Params, l: Loop, es: seq<Event>)
    requires NeverExhausted(p, l, es)
    ensures SafeDrains(p, l, es)
    decreases |es|
  {
    if es != [] {
      NeverIsSafe(p, Next(p, l, es[0]), es[1..]);
    }
  }

  /** A run that ends with such a completion is not `BothWritten`. */
  lemma {:induction false} LastUnwritten(p: Params, l: Loop, es: seq<Event>, b: nat)
    requires Completed(After(p, l, es), Go) == Some(b)
    requires !(HistAt(After(p, l, es).hist, b).wrote0 && HistAt(After(p, l, es).hist, b).wrote1)
    ensures !BothWritten(p, l, es + [Go])
    decreases |es|
  {
    if es == [] {
      assert es + [Go] == [Go];
    } else {
      assert (es + [Go])[1..] == es[1..] + [Go];
      LastUnwritten(p, Next(p, l, es[0]), es[1..], b);
    }
  }

  /** An unwritten completion after some run is one of a longer run. */
  lemma {:induction false} UnwrittenLater(p: Params, l: Loop, es: seq<Event>, fs: seq<Event>)
    requires !BothWritten(p, After(p, l, es), fs)
    ensures !BothWritten(p, l, es + fs)
    decreases |es|
  {
    if es == [] {
      assert es + fs == fs;
    } else {
      assert (es + fs)[1..] == es[1..] + fs;
      UnwrittenLater(p, Next(p, l, es[0]), es[1..], fs);
    }
  }

  // ----- After an exhaustion

  ghost predicate Waiting(l: Loop, x: nat) {
    (l.pc == Polling(x) || l.pc == Catching(x)) && l.s.inflight == [x]
  }

  /** What DMA does to the buffer waited for, and what the loop then does. */
  function Filling(x: nat): (es: seq<Event>) {
    [Dma(x, false, BLANK), Dma(x, true, BLANK)] + ([Go, Go] + [Go])
  }

  /** The buffer waited for is found full and put full, and the next is taken. */
  lemma PutAndTake(p: Params, l: Loop, x: nat)
    requires Waiting(l, x) && Overwritten(TailAt(l.tail, x))
    ensures var l' := After(p, l, [Go, Go] + [Go]);
      && l'.s.refills == l.s.refills + [x] && l'.s.opens == l.s.opens && l'.s.empties == Rest(l.s.empties)
      && l'.tail == l.tail && l'.hist == l.hist
      && (if l.s.empties == [] then l'.pc.Exhausted? && l'.s.inflight == [] else Waiting(l', l.s.empties[0]))
    ensures NeverExhausted(p, l, [Go, Go] + [Go])
  {
    var l1 := l.(pc := Found(x));
    assert Next(p, l, Go) == l1;
    var l2 := Next(p, l1, Go);
    assert l2.pc == Taking && l2.s.inflight == [] && l2.s.refills == l.s.refills + [x] && l2.s.empties == l.s.empties;
    AfterThree(p, l);
    AfterTwo(p, l, Go, Go);
    NeverTwo(p, l, Go, Go);
    NeverJoin(p, l, [Go, Go], [Go]);
  }

  /** First DMA fills it. */
  lemma FillNext(p: Params, l: Loop, x: nat)
    requires Waiting(l, x)
    ensures var l' := After(p, l, Filling(x));
      && l'.s.refills == l.s.refills + [x] && l'.s.opens == l.s.opens && l'.s.empties == Rest(l.s.empties)
      && (forall b: nat :: b != x ==> TailAt(l'.tail, b) == TailAt(l.tail, b) && HistAt(l'.hist, b) == HistAt(l.hist, b))
      && (if l.s.empties == [] then l'.pc.Exhausted? && l'.s.inflight == [] else Waiting(l', l.s.empties[0]))
    ensures NeverExhausted(p, l, Filling(x))
  {
    var dma := [Dma(x, false, BLANK), Dma(x, true, BLANK)];
    var l2 := After(p, l, dma);
    AfterTwo(p, l, dma[0], dma[1]);
    assert l2.s == l.s && l2.pc == l.pc && Overwritten(TailAt(l2.tail, x));
    PutAndTake(p, l2, x);
    AfterJoin(p, l, dma, [Go, Go] + [Go]);
    NeverTwo(p, l, dma[0], dma[1]);
    NeverJoin(p, l, dma, [Go, Go] + [Go]);
  }

  lemma NeverTwo(p: Params, l: Loop, e: Event, f: Event)
    requires !l.pc.Exhausted? && !Next(p, l, e).pc.Exhausted?
    ensures NeverExhausted(p, l, [e, f])
  {
    assert [e, f][1..] == [f] && [f][1..] == [];
    assert NeverExhausted(p, Next(p, l, e), [f]);
  }

  /** `y` is to be waited for after `j` others, its sentinels gone though nothing has been written to it. */
  ghost predicate Behind(l: Loop, x: nat, y: nat, j: nat) {
    && Waiting(l, x) && x != y && j < |l.s.empties| && l.s.empties[j] == y && y !in l.s.empties[..j]
    && Overwritten(TailAt(l.tail, y)) && HistAt(l.hist, y) == STALE
  }

  /** The loop gets to it, and finds it full. */
  lemma {:induction false} GetsToIt(p: Params, l: Loop, x: nat, y: nat, j: nat) returns (es: seq<Event>)
    requires Behind(l, x, y, j)
    ensures NeverExhausted(p, l, es + [Go])
    ensures var l' := After(p, l, es); Completed(l', Go) == Some(y) && HistAt(l'.hist, y) == STALE
    decreases j
  {
    var l' := After(p, l, Filling(x));
    FillNext(p, l, x);
    var more;
    if j == 0 {
      more := [Go];
      AfterOne(p, l', Go);
      NeverTwo(p, l', Go, Go);
      assert [Go] + [Go] == [Go, Go];
    } else {
      assert l'.s.empties[..j - 1] == l.s.empties[..j][1..];
      HeadOrTail(l.s.empties[..j], y);
      more := GetsToIt(p, l', l.s.empties[0], y, j - 1);
    }
    es := Filling(x) + more;
    AfterJoin(p, l, Filling(x), more);
    NeverJoin(p, l, Filling(x), more + [Go]);
    assert es + [Go] == Filling(x) + (more + [Go]);
  }

  /** Up to the next exhaustion: after the drain, no more. */
  ghost predicate OneExhaustion(p: Params, l: Loop, es: seq<Event>)
    decreases |es|
  {
    es != [] ==>
      var l' := Next(p, l, es[0]);
      if l.pc.Exhausted? && !es[0].Go? then OneExhaustion(p, l', es[1..]) else NeverExhausted(p, l', es[1..])
  }

  lemma FirstIsAnother(bs: seq<nat>, j: nat)
    requires NoDup(bs) && 1 <= j < |bs|
    ensures bs[0] != bs[j] && bs[1..][j - 1] == bs[j] && bs[j] !in bs[1..][..j - 1]
  {
  }

  lemma DrainStep(p: Params, l: Loop, y: nat)
    requires Inv(l) && l.pc.Exhausted? && !p.quitOnExhaustion && y in l.s.refills
    ensures var l' := Next(p, l, Go);
      && l'.s.empties == l.s.empties + l.s.refills && NoDup(l'.s.empties) && l'.s.inflight == []
      && l'.pc == Retrying && l'.tail == l.tail && HistAt(l'.hist, y) == STALE
  {
    DrainConsistent(l.s);
  }

  lemma RearmStep(p: Params, l: Loop, y: nat, j: nat)
    requires l.pc.Retrying? && l.s.inflight == [] && NoDup(l.s.empties) && 1 <= j < |l.s.empties| && l.s.empties[j] == y
    requires Overwritten(TailAt(l.tail, y)) && HistAt(l.hist, y) == STALE
    ensures Behind(Next(p, Next(p, l, Go), Go), l.s.empties[0], y, j - 1)
    ensures NeverExhausted(p, l, [Go, Go])
  {
    FirstIsAnother(l.s.empties, j);
    NeverTwo(p, l, Go, Go);
  }

  /** From a drain on, with the sentinels of buffer `y` gone. */
  lemma DrainReaches(p: Params, l: Loop, y: nat, j: nat) returns (es: seq<Event>)
    requires Inv(l) && l.pc.Exhausted? && !p.quitOnExhaustion && Overwritten(TailAt(l.tail, y)) && y in l.s.refills
    requires var bs := l.s.empties + l.s.refills; 1 <= j < |bs| && bs[j] == y
    ensures OneExhaustion(p, l, es) && !BothWritten(p, l, es)
  {
    var l1 := Next(p, l, Go);
    DrainStep(p, l, y);
    var more := RearmReaches(p, l1, y, j);
    es := [Go] + more;
    assert es[1..] == more;
  }

  lemma RearmReaches(p: Params, l: Loop, y: nat, j: nat) returns (es: seq<Event>)
    requires l.pc.Retrying? && l.s.inflight == [] && NoDup(l.s.empties) && 1 <= j < |l.s.empties| && l.s.empties[j] == y
    requires Overwritten(TailAt(l.tail, y)) && HistAt(l.hist, y) == STALE
    ensures NeverExhausted(p, l, es) && !BothWritten(p, l, es)
  {
    RearmStep(p, l, y, j);
    AfterTwo(p, l, Go, Go);
    var l2 := After(p, l, [Go, Go]);
    var more := GetsToIt(p, l2, l.s.empties[0], y, j - 1);
    LastUnwritten(p, l2, more, y);
    UnwrittenLater(p, l, [Go, Go], more + [Go]);
    NeverJoin(p, l, [Go, Go], more + [Go]);
    es := [Go, Go] + (more + [Go]);
  }

  /** A drained buffer that is not the first is put full though DMA has written neither of its words meanwhile. */
  lemma DrainFails(p: Params, l: Loop, j: nat) returns (es: seq<Event>)
    requires Inv(l) && l.pc.Exhausted? && !p.quitOnExhaustion
    requires 1 <= j && |l.s.empties| <= j < |l.s.empties + l.s.refills|
    ensures OneExhaustion(p, l, es) && !BothWritten(p, l, es)
  {
    var y := (l.s.empties + l.s.refills)[j];
    assert y == l.s.refills[j - |l.s.empties|];
    var e, f := Dma(y, false, BLANK), Dma(y, true, BLANK);
    var l1 := Next(p, l, e);
    var l2 := Next(p, l1, f);
    InvStep(p, l, e);
    InvStep(p, l1, f);
    var more := DrainReaches(p, l2, y, j);
    FirstOf(p, l1, f, more);
    FirstOf(p, l, e, [f] + more);
    es := [e] + ([f] + more);
  }

  /** While exhausted, other events first. */
  lemma FirstOf(p: Params, l: Loop, e: Event, es: seq<Event>)
    requires l.pc.Exhausted? && !e.Go? && OneExhaustion(p, Next(p, l, e), es) && !BothWritten(p, Next(p, l, e), es)
    ensures OneExhaustion(p, l, [e] + es) && !BothWritten(p, l, [e] + es)
  {
    assert ([e] + es)[1..] == es;
  }

  /** The buffers full when the loop finds none empty, and who else has any. */
  ghost predicate NothingLost(s: Lists) {
    s.refills == [] || (|s.refills| == 1 && s.empties == [] && s.opens == [])
  }

  lemma {:induction false} NothingLostIsWritten(p: Params, l: Loop, es: seq<Event>)
    requires Poisons(p) && Inv(l) && Watched(l) && l.pc.Exhausted? && OneExhaustion(p, l, es)
    requires p.quitOnExhaustion || NothingLost(l.s)
    ensures BothWritten(p, l, es)
    decreases |es|
  {
    if es != [] {
      var e, l' := es[0], Next(p, l, es[0]);
      PreparedStep(p, l, e);
      if e.Stop? {
        QuitBothWritten(p, l', es[1..]);
      } else if e.Go? {
        NeverIsSafe(p, l', es[1..]);
        FullOnlyWhenWritten(p, l', es[1..]);
      } else {
        NothingLostIsWritten(p, l', es[1..]);
      }
    }
  }

  /**
    At an exhaustion: in every run up to the next one buffers are put full only when both words were written,
    exactly if the loop then quits, or nothing is drained, or one buffer that is all there is.
   */
  lemma ExhaustionSoundIff(p: Params, l: Loop)
    requires Poisons(p) && Inv(l) && Watched(l) && l.pc.Exhausted?
    ensures (forall es :: OneExhaustion(p, l, es) ==> BothWritten(p, l, es)) <==> p.quitOnExhaustion || NothingLost(l.s)
  {
    if p.quitOnExhaustion || NothingLost(l.s) {
      forall es | OneExhaustion(p, l, es)
        ensures BothWritten(p, l, es)
      {
        NothingLostIsWritten(p, l, es);
      }
    } else if l.s.empties != [] || 2 <= |l.s.refills| {
      var es := DrainFails(p, l, if l.s.empties == [] then 1 else |l.s.empties|);
    } else {
      var l' := Next(p, l, ReaderGivesBack);
      InvStep(p, l, ReaderGivesBack);
      var es := DrainFails(p, l', 1);
      FirstOf(p, l, ReaderGivesBack, es);
      assert OneExhaustion(p, l, [ReaderGivesBack] + es);
    }
  }

  // ----- Whole runs

  function Size(s: Lists): (n: nat) {
    |s.refills| + |s.inflight| + |s.empties| + |s.opens|
  }

  lemma AdvanceSize(p: Params, l: Loop)
    ensures Size(Advance(p, l).s) == Size(l.s)
  {
    assert Size(GetEmpty(l.s).0) == Size(l.s) && Size(PutFull(l.s, p.runBuffers)) == Size(l.s);
    assert Size(DrainRefills(l.s)) == Size(l.s);
  }

  lemma SizeKept(p: Params, l: Loop, e: Event)
    ensures Size(Next(p, l, e).s) == Size(l.s)
  {
    if e.Go? {
      AdvanceSize(p, l);
    }
  }

  lemma {:induction false} SafeAlways(p: Params, l: Loop, es: seq<Event>)
    requires p.quitOnExhaustion || Size(l.s) <= 1
    ensures SafeDrains(p, l, es)
    decreases |es|
  {
    if es != [] {
      SizeKept(p, l, es[0]);
      SafeAlways(p, Next(p, l, es[0]), es[1..]);
    }
  }

  /** With nobody reading, DMA fills one buffer after another until none is left. */
  lemma {:induction false} FillsUp(p: Params, l: Loop, x: nat) returns (es: seq<Event>)
    requires Waiting(l, x) && Inv(l)
    ensures var l' := After(p, l, es);
      && Inv(l') && l'.pc.Exhausted? && l'.s.empties == [] && l'.s.refills == l.s.refills + [x] + l.s.empties
    decreases |l.s.empties|
  {
    var l' := After(p, l, Filling(x));
    FillNext(p, l, x);
    InvAfter(p, l, Filling(x));
    es := Filling(x);
    if l.s.empties != [] {
      var more := FillsUp(p, l', l.s.empties[0]);
      AfterJoin(p, l, Filling(x), more);
      es := Filling(x) + more;
    }
  }

  lemma {:induction false} InvAfter(p: Params, l: Loop, es: seq<Event>)
    requires Inv(l) && forall i :: 0 <= i < |es| ==> !es[i].Stop?
    ensures Inv(After(p, l, es))
    decreases |es|
  {
    if es != [] {
      InvStep(p, l, es[0]);
      InvAfter(p, Next(p, l, es[0]), es[1..]);
    }
  }

  /** Just poisoned, the buffers pass the check. */
  lemma CheckPasses(p: Params, l: Loop)
    requires l.pc.Poisoning? && ChainCovers(p, l.s)
    ensures !AnyOverwritten(Advance(p, l).tail, l.s.empties)
  {
    var tail := Advance(p, l).tail;
    if AnyOverwritten(tail, l.s.empties) {
      var i :| 0 <= i < |l.s.empties| && Overwritten(TailAt(tail, l.s.empties[i]));
      assert InRing(l.s, l.s.empties[i]);
      PoisonAllPoisons(l.tail, p.chain, l.s.empties[i]);
    }
  }

  /** The prologue, undisturbed, gets to wait for the first buffer. */
  lemma Prologue(p: Params, l: Loop)
    requires l.pc.Poisoning? && ChainCovers(p, l.s) && l.s.empties != [] && l.s.inflight == []
    ensures var l' := After(p, l, [Go, Go] + [Go]);
      Waiting(l', l.s.empties[0]) && l'.s.empties == l.s.empties[1..] && l'.s.refills == l.s.refills
  {
    CheckPasses(p, l);
    var l1 := Next(p, l, Go);
    assert l1.pc == Checking && l1.s == l.s;
    var l2 := Next(p, l1, Go);
    assert l2.pc == First && l2.s == l.s;
    AfterThree(p, l);
  }

  lemma RunFails(p: Params, l: Loop) returns (es: seq<Event>)
    requires Inv(l) && l.pc.Poisoning? && ChainCovers(p, l.s) && !p.quitOnExhaustion
    requires 2 <= |l.s.empties| && l.s.inflight == []
    ensures !BothWritten(p, l, es)
  {
    Prologue(p, l);
    var start := [Go, Go] + [Go];
    InvAfter(p, l, start);
    var l1 := After(p, l, start);
    var more := FillsUp(p, l1, l.s.empties[0]);
    var fail := DrainFails(p, After(p, l1, more), 1);
    UnwrittenLater(p, l1, more, fail);
    UnwrittenLater(p, l, start, more + fail);
    es := start + (more + fail);
  }

  /**
    From the start of a capture, with every buffer in the chain, recycled buffers poisoned and none exempted:
    whatever DMA, the reader and the loop do, a buffer is moved to REFILLS only when DMA has written both of its
    sentinel words since it last became empty, exactly if the loop quits on exhaustion or has at most one buffer.
   */
  lemma RunSoundIff(p: Params, s: Lists, tail: map<nat, Tail>)
    requires Pools(s) && Poisons(p) && ChainCovers(p, Start(s))
    ensures var l := Loop(Start(s), tail, map[], Poisoning);
      (forall es :: BothWritten(p, l, es)) <==> p.quitOnExhaustion || Size(Start(s)) <= 1
  {
    var l := Loop(Start(s), tail, map[], Poisoning);
    StartConsistent(s);
    if p.quitOnExhaustion || Size(l.s) <= 1 {
      forall es
        ensures BothWritten(p, l, es)
      {
        SafeAlways(p, l, es);
        FullOnlyWhenWritten(p, l, es);
      }
    } else {
      var es := RunFails(p, l);
    }
  }

  // ----- The loop on the device

  class AxiDataLoop {
    const dev: AcqDevice
    const p: Params
    var tail: map<nat, Tail>         // the sentinel words of each buffer, and their stash
    var pc: Pc
    ghost var hist: map<nat, Hist>

    constructor (dev: AcqDevice, p: Params, tail: map<nat, Tail>)
      ensures this.dev == dev && this.p == p && this.tail == tail && pc == Poisoning
    {
      this.dev, this.p, this.tail, hist, pc := dev, p, tail, map[], Poisoning;
    }

    ghost function View(): (l: Loop)
      reads this, dev
    {
      Loop(dev.State(), tail, hist, pc)
    }

    method PoisonOneBuffer(b: nat)
      modifies this`tail
      ensures tail == old(tail)[b := Poisoned(TailAt(old(tail), b))]
    {
      tail := tail[b := Poisoned(TailAt(tail, b))];
    }

    /** `_poison_all_buffers`. */
    method PoisonAllBuffers()
      modifies this`tail
      ensures tail == PoisonAll(old(tail), p.chain)
    {
      for ii := 0 to |p.chain|
        invariant tail == PoisonAll(old(tail), p.chain[..ii])
      {
        assert p.chain[..ii + 1][..ii] == p.chain[..ii];
        PoisonOneBuffer(p.chain[ii]);
      }
      assert p.chain[..|p.chain|] == p.chain;
    }

    /** `_clear_poison_all_buffers`, when the loop has ended. */
    method ClearPoisonAllBuffers()
      modifies this`tail
      ensures tail == ClearAll(old(tail), p.chain)
      ensures forall b: nat :: Overwritten(TailAt(old(tail), b)) ==> TailAt(tail, b) == TailAt(old(tail), b)
    {
      for ii := 0 to |p.chain|
        invariant tail == ClearAll(old(tail), p.chain[..ii])
      {
        assert p.chain[..ii + 1][..ii] == p.chain[..ii];
        tail := tail[p.chain[ii] := Cleared(TailAt(tail, p.chain[ii]))];
      }
      assert p.chain[..|p.chain|] == p.chain;
      forall b: nat | Overwritten(TailAt(old(tail), b))
        ensures TailAt(tail, b) == TailAt(old(tail), b)
      {
        ClearAllIs(old(tail), p.chain, b);
      }
    }

    /** `check_all_buffers_are_poisoned`. */
    method CheckAllBuffersArePoisoned() returns (fails: nat)
      ensures fails == 0 <==> !AnyOverwritten(tail, dev.empties)
    {
      fails := 0;
      for i := 0 to |dev.empties|
        invariant fails == 0 <==> !AnyOverwritten(tail, dev.empties[..i])
      {
        assert dev.empties[..i + 1] == dev.empties[..i] + [dev.empties[i]];
        AnyNext(tail, dev.empties[..i], dev.empties[i]);
        if Overwritten(TailAt(tail, dev.empties[i])) {
          fails := fails + 1;
        }
      }
      assert dev.empties[..|dev.empties|] == dev.empties;
    }

    /** The next step of the prologue, up to the first buffer. */
    method Begin()
      requires pc.Poisoning? || pc.Checking? || pc.First?
      modifies this, dev
      ensures View() == Advance(p, old(View()))
    {
      if pc == Poisoning {
        PoisonAllBuffers();
        hist, pc := SetAll(map[], p.chain, ARMED), Checking;
      } else if pc == Checking {
        var fails := CheckAllBuffersArePoisoned();
        if fails != 0 {
          pc := Quit;
        } else {
          hist, pc := PassAll(hist, dev.empties), First;
        }
      } else {
        var b := dev.GetEmpty();
        pc := if b == None then Fault else Polling(b.value);
      }
    }

    /** The next step of the body of the loop. */
    method Body()
      requires !pc.Poisoning? && !pc.Checking? && !pc.First?
      modifies this, dev
      ensures View() == Advance(p, old(View()))
    {
      match pc {
        case Polling(b) =>
          if Overwritten(TailAt(tail, b)) {
            pc := Found(b);
          }
        case Found(b) =>
          dev.PutFull(p.runBuffers);
          pc := Taking;
        case Taking =>
          var b := dev.GetEmpty();
          pc := if b == None then Exhausted else if p.catchup then Catching(b.value) else Polling(b.value);
        case Catching(b) =>
          pc := if Overwritten(TailAt(tail, b)) then Found(b) else Polling(b);
        case Exhausted =>
          hist := SetAll(hist, dev.refills, STALE);
          dev.MoveListToEmpty(Refills);
          pc := if p.quitOnExhaustion then Quit else Retrying;
        case Retrying =>
          var b := dev.GetEmpty();
          pc := if b == None then Quit else Rearming(b.value);
        case Rearming(b) =>
          PoisonOneBuffer(b);
          hist, pc := hist[b := ARMED], Polling(b);
        case _ =>
      }
    }

    /** `putEmpty` by the reader, with the device's `onPutEmpty`. */
    method PutEmpty()
      modifies this, dev
      ensures View() == GiveBack(p, old(View()))
    {
      if dev.opens != [] {
        var b := dev.opens[0];
        dev.PutEmpty();
        if p.recycle && p.loopback <= b {
          PoisonOneBuffer(b);
          hist := hist[b := ARMED];
        } else {
          hist := hist[b := STALE];
        }
      }
    }

    /** One event. */
    method Turn(e: Event)
      modifies this, dev
      ensures View() == Next(p, old(View()), e)
    {
      match e {
        case Go =>
          if pc.Poisoning? || pc.Checking? || pc.First? {
            Begin();
          } else {
            Body();
          }
        case Stop =>
          pc := Quit;
        case ReaderGets =>
          var rc := dev.GetFull(false);
        case ReaderGivesBack =>
          PutEmpty();
        case Dma(b, second, w) =>
          var t := TailAt(tail, b);
          tail := tail[b := if second then t.(w1 := w) else t.(w0 := w)];
          hist := hist[b := if second then HistAt(hist, b).(wrote1 := true) else HistAt(hist, b).(wrote0 := true)];
      }
    }

    /** Any run of the loop, DMA and the reader on the device is one of the model, and its completions are sound. */
    method Drive(es: seq<Event>)
      requires Inv(View())
      modifies this, dev
      ensures View() == After(p, old(View()), es) && Sound(p, old(View()), es)
      ensures Poisons(p) && Prepared(p, old(View())) && SafeDrains(p, old(View()), es) ==> BothWritten(p, old(View()), es)
    {
      for k := 0 to |es|
        invariant View() == After(p, old(View()), es[..k])
      {
        AfterSnoc(p, old(View()), es, k);
        Turn(es[k]);
      }
      assert es[..|es|] == es;
      CompletionSound(p, old(View()), es);
      if Poisons(p) && Prepared(p, old(View())) && SafeDrains(p, old(View()), es) {
        FullOnlyWhenWritten(p, old(View()), es);
      }
    }
  }

  lemma AfterSnoc(p: Params, l: Loop, es: seq<Event>, k: nat)
    requires k < |es|
    ensures After(p, l, es[..k + 1]) == Next(p, After(p, l, es[..k]), es[k])
  {
    assert es[..k + 1] == es[..k] + [es[k]];
    AfterJoin(p, l, es[..k], [es[k]]);
    AfterOne(p, After(p, l, es[..k]), es[k]);
  }

  lemma AnyNext(tail: map<nat, Tail>, bs: seq<nat>, b: nat)
    ensures AnyOverwritten(tail, bs + [b]) <==> AnyOverwritten(tail, bs) || Overwritten(TailAt(tail, b))
  {
    var cs := bs + [b];
    if AnyOverwritten(tail, bs) {
      var i :| 0 <= i < |bs| && Overwritten(TailAt(tail, bs[i]));
      assert cs[i] == bs[i];
    }
    if AnyOverwritten(tail, cs) {
      var i :| 0 <= i < |cs| && Overwritten(TailAt(tail, cs[i]));
      if i < |bs| {
        assert cs[i] == bs[i];
      }
    }
    assert cs[|bs|] == b;
  }
}
