/**
  The ping-pong producer: `ai_data_loop` of acq400_drv.c. Two DMA channels fill buffers in turn; when one
  completes, the head of INFLIGHT is put full and the channel is given another buffer. Every list operation
  is one step, and readers may take steps in between.
 */
module AiLoop {
  import opened HostBuffers
  import opened Options
  import opened Device

  type Chan = c: nat | c < 2

  function Other(c: Chan): (d: Chan) {
    1 - c
  }

  /** Where the loop has got to; `Fault` is the use of a null buffer while priming. */
  datatype Pc =
    | Prime0
    | Prime1
    | Awaiting(ic: Chan)      // for the completion of channel `ic`
    | Returned(ic: Chan)     // its buffer has been put full
    | Starved(ic: Chan)      // and EMPTIES had none to replace it
    | Stolen(ic: Chan)       // so one was taken from REFILLS and submitted
    | Quit
    | Fault

  /** `hbm[c]` is the buffer last submitted on channel `c`. */
  datatype Loop = Loop(s: Lists, hbm: (nat, nat), pc: Pc) {
    function On(c: Chan): (b: nat) {
      if c == 0 then hbm.0 else hbm.1
    }

    function Submit(c: Chan, b: nat): (l: Loop) {
      this.(hbm := if c == 0 then (b, hbm.1) else (hbm.0, b))
    }
  }

  datatype Params = Params(runBuffers: nat, quitOnExhaustion: bool)

  /** One step of the loop; in `Awaiting` it is the completion of the channel waited for. */
  function Advance(p: Params, l: Loop): (l': Loop) {
    match l.pc
    case Prime0 =>
      var (s, b) := GetEmpty(l.s);
      if b.None? then l.(s := s, pc := Fault) else l.(s := s, pc := Prime1).Submit(0, b.value)
    case Prime1 =>
      var (s, b) := GetEmpty(l.s);
      if b.None? then l.(s := s, pc := Fault) else l.(s := s, pc := Awaiting(0)).Submit(1, b.value)
    case Awaiting(ic) => l.(s := PutFull(l.s, p.runBuffers), pc := Returned(ic))
    case Returned(ic) =>
      var (s, b) := GetEmpty(l.s);
      if b.None? then l.(s := s, pc := Starved(ic)) else l.(s := s, pc := Awaiting(Other(ic))).Submit(ic, b.value)
    case Starved(ic) =>
      var (s, b) := GetEmptyFromRefills(l.s);
      if b.None? then l.(s := s, pc := Quit) else l.(s := s, pc := Stolen(ic)).Submit(ic, b.value)
    case Stolen(ic) =>
      l.(s := DrainRefills(l.s), pc := if p.quitOnExhaustion then Quit else Awaiting(Other(ic)))
    case _ => l
  }

  /** What others may do between the steps of the loop. */
  predicate Outside(op: Op) {
    op.OpGetFull? || op.OpPutEmpty? || op.OpReserve? || op.OpReplaceAll?
  }

  /** The loop advances, is told to stop (or times out, or a FIFO fails), or someone else takes a step. */
  datatype Event = Go | Stop | Elsewhere(op: Op)

  function Next(p: Params, l: Loop, e: Event): (l': Loop) {
    match e
    case Go => Advance(p, l)
    case Stop => l.(pc := Quit)
    case Elsewhere(op) => if Outside(op) then l.(s := Step(l.s, op)) else l
  }

  function After(p: Params, l: Loop, es: seq<Event>): (l': Loop)
    decreases |es|
  {
    if es == [] then l else After(p, Next(p, l, es[0]), es[1..])
  }

  // ----- Transfers

  /** A buffer on a channel. */
  datatype Transfer = Transfer(chan: Chan, b: nat)

  /** Transfers a step submits, in the order the channels' wait and set events make them run. */
  function Submitted(p: Params, l: Loop, e: Event): (ts: seq<Transfer>) {
    if !e.Go? then [] else
    var l' := Advance(p, l);
    match l.pc
    case Prime1 => if l'.pc.Awaiting? then [Transfer(0, l'.hbm.0), Transfer(1, l'.hbm.1)] else []
    case Returned(ic) => if l'.pc.Awaiting? then [Transfer(ic, l'.On(ic))] else []
    case Starved(ic) => if l'.pc.Stolen? then [Transfer(ic, l'.On(ic))] else []
    case _ => []
  }

  /** The transfer a step takes to be complete: the channel that was waited for, and the buffer put full. */
  function Completed(l: Loop, e: Event): (ts: seq<Transfer>) {
    if e.Go? && l.pc.Awaiting? && l.s.inflight != [] then [Transfer(l.pc.ic, l.s.inflight[0])] else []
  }

  function Submissions(p: Params, l: Loop, es: seq<Event>): (ts: seq<Transfer>)
    decreases |es|
  {
    if es == [] then [] else Submitted(p, l, es[0]) + Submissions(p, Next(p, l, es[0]), es[1..])
  }

  function Completions(p: Params, l: Loop, es: seq<Event>): (ts: seq<Transfer>)
    decreases |es|
  {
    if es == [] then [] else Completed(l, es[0]) + Completions(p, Next(p, l, es[0]), es[1..])
  }

  // ----- The invariant

  /** Transfers submitted and not yet taken to be complete. */
  function Outstanding(l: Loop): (ts: seq<Transfer>) {
    match l.pc
    case Awaiting(ic) => [Transfer(ic, l.On(ic)), Transfer(Other(ic), l.On(Other(ic)))]
    case Returned(ic) => [Transfer(Other(ic), l.On(Other(ic)))]
    case Starved(ic) => [Transfer(Other(ic), l.On(Other(ic)))]
    case Stolen(ic) => [Transfer(Other(ic), l.On(Other(ic))), Transfer(ic, l.On(ic))]
    case _ => []
  }

  function Buffers(ts: seq<Transfer>): (bs: seq<nat>) {
    seq(|ts|, i requires 0 <= i < |ts| => ts[i].b)
  }

  /** INFLIGHT holds the buffers of the outstanding transfers, in order. */
  ghost predicate InFlight(l: Loop) {
    match l.pc
    case Prime0 => l.s.inflight == []
    case Prime1 => l.s.inflight == [l.hbm.0]
    case Quit => true
    case Fault => true
    case _ => l.s.inflight == Buffers(Outstanding(l))
  }

  ghost predicate Inv(l: Loop) {
    Consistent(l.s) && InFlight(l)
  }

  lemma AdvanceConsistent(p: Params, l: Loop)
    requires Consistent(l.s)
    ensures Consistent(Advance(p, l).s)
  {
    match l.pc
    case Awaiting(_) => PutFullConsistent(l.s, p.runBuffers);
    case Starved(_) => StealConsistent(l.s);
    case Stolen(_) => DrainConsistent(l.s);
    case Quit =>
    case Fault =>
    case _ => GetEmptyConsistent(l.s);
  }

  lemma OutsideKeepsInFlight(l: Loop, op: Op)
    requires Outside(op)
    ensures Step(l.s, op).inflight == l.s.inflight
  {
  }

  lemma InFlightStep(p: Params, l: Loop, e: Event)
    requires InFlight(l)
    ensures InFlight(Next(p, l, e))
  {
    match e
    case Go =>
    case Stop =>
    case Elsewhere(op) => if Outside(op) { OutsideKeepsInFlight(l, op); }
  }

  lemma InvStep(p: Params, l: Loop, e: Event)
    requires Inv(l)
    ensures Inv(Next(p, l, e))
  {
    InFlightStep(p, l, e);
    match e
    case Go => AdvanceConsistent(p, l);
    case Stop =>
    case Elsewhere(op) => StepConsistent(l.s, op);
  }

  lemma {:induction false} InvHolds(p: Params, l: Loop, es: seq<Event>)
    requires Inv(l)
    ensures Inv(After(p, l, es))
    decreases |es|
  {
    if es != [] {
      InvStep(p, l, es[0]);
      InvHolds(p, Next(p, l, es[0]), es[1..]);
    }
  }

  /** A step turns submissions into outstanding transfers and the first of those into a completion. */
  lemma TransferStep(p: Params, l: Loop, e: Event)
    requires InFlight(l)
    ensures var l' := Next(p, l, e);
      l'.pc.Quit? || l'.pc.Fault? || Outstanding(l) + Submitted(p, l, e) == Completed(l, e) + Outstanding(l')
    ensures Completed(l, e) <= Outstanding(l) + Submitted(p, l, e)
  {
  }

  lemma {:induction false} Ended(p: Params, l: Loop, es: seq<Event>)
    requires l.pc.Quit? || l.pc.Fault?
    ensures Submissions(p, l, es) == [] == Completions(p, l, es)
    decreases |es|
  {
    if es != [] {
      Ended(p, Next(p, l, es[0]), es[1..]);
    }
  }

  lemma PrefixTail(out: seq<Transfer>, sub: seq<Transfer>, done: seq<Transfer>, out': seq<Transfer>,
                   c: seq<Transfer>, more: seq<Transfer>)
    requires out + sub == done + out' && c <= out' + more
    ensures done + c <= out + (sub + more)
  {
    assert out + (sub + more) == done + (out' + more) by {
      assert out + (sub + more) == (out + sub) + more;
    }
  }

  /**
    Whatever else happens, including buffers stolen from REFILLS and REFILLS drained, transfers are taken to
    be complete in the order they were submitted: each time, the buffer put full is the one that was last
    submitted on the channel that completed.
   */
  lemma {:induction false} CompletedInOrder(p: Params, l: Loop, es: seq<Event>)
    requires Inv(l)
    ensures Completions(p, l, es) <= Outstanding(l) + Submissions(p, l, es)
    decreases |es|
  {
    if es != [] {
      var l', rest := Next(p, l, es[0]), es[1..];
      var done, sub := Completed(l, es[0]), Submitted(p, l, es[0]);
      InvStep(p, l, es[0]);
      TransferStep(p, l, es[0]);
      if l'.pc.Quit? || l'.pc.Fault? {
        Ended(p, l', rest);
      } else {
        CompletedInOrder(p, l', rest);
        PrefixTail(Outstanding(l), sub, done, Outstanding(l'), Completions(p, l', rest), Submissions(p, l', rest));
      }
    }
  }

  /** The next channel to be given a buffer is the one whose turn it is: the submissions alternate. */
  function Turn(l: Loop): (c: Chan) {
    match l.pc
    case Awaiting(ic) => ic
    case Returned(ic) => ic
    case Starved(ic) => ic
    case Stolen(ic) => Other(ic)
    case _ => 0
  }

  ghost predicate Alternate(ts: seq<Transfer>, c: Chan) {
    forall i :: 0 <= i < |ts| ==> ts[i].chan == if i % 2 == 0 then c else Other(c)
  }

  lemma AlternateJoin(ts: seq<Transfer>, us: seq<Transfer>, c: Chan)
    requires Alternate(ts, c) && Alternate(us, if |ts| % 2 == 0 then c else Other(c))
    ensures Alternate(ts + us, c)
  {
    forall i | |ts| <= i < |ts + us|
      ensures (ts + us)[i].chan == if i % 2 == 0 then c else Other(c)
    {
      assert (ts + us)[i] == us[i - |ts|];
    }
  }

  lemma TurnStep(p: Params, l: Loop, e: Event)
    ensures var l', ts := Next(p, l, e), Submitted(p, l, e);
      && Alternate(ts, Turn(l))
      && (l'.pc.Quit? || l'.pc.Fault? || Turn(l') == if |ts| % 2 == 0 then Turn(l) else Other(Turn(l)))
  {
  }

  lemma {:induction false} ChannelsAlternate(p: Params, l: Loop, es: seq<Event>)
    ensures Alternate(Submissions(p, l, es), Turn(l))
    decreases |es|
  {
    if es != [] {
      var l', rest := Next(p, l, es[0]), es[1..];
      TurnStep(p, l, es[0]);
      if l'.pc.Quit? || l'.pc.Fault? {
        Ended(p, l', rest);
      } else {
        ChannelsAlternate(p, l', rest);
      }
      AlternateJoin(Submitted(p, l, es[0]), Submissions(p, l', rest), Turn(l));
    }
  }

  /** No transfer is ever running into a buffer that the reader holds, or into the buffer of the other channel. */
  lemma TransfersApart(p: Params, l: Loop, es: seq<Event>)
    requires Inv(l)
    ensures var l' := After(p, l, es); var ts := Outstanding(l');
      && (forall i, j :: 0 <= i < j < |ts| ==> ts[i].b != ts[j].b)
      && (forall i :: 0 <= i < |ts| ==> ts[i].b !in l'.s.opens && ts[i].b !in l'.s.refills && ts[i].b !in l'.s.empties)
  {
    InvHolds(p, l, es);
    var l' := After(p, l, es);
    var ts := Outstanding(l');
    forall i | 0 <= i < |ts|
      ensures ts[i].b == Buffers(ts)[i] && ts[i].b in l'.s.bstate && l'.s.bstate[ts[i].b] == BsFilling
    {
    }
  }

  // ----- Priming and starvation

  ghost predicate CanPrime(l: Loop) {
    match l.pc
    case Prime0 => 2 <= |l.s.empties|
    case Prime1 => 1 <= |l.s.empties|
    case Fault => false
    case _ => true
  }

  ghost predicate OnlyReaders(es: seq<Event>) {
    forall i :: 0 <= i < |es| && es[i].Elsewhere? ==> !es[i].op.OpReserve? && !es[i].op.OpReplaceAll?
  }

  /** With two empty buffers to start from, and none reserved meanwhile, priming never finds a null buffer. */
  lemma {:induction false} NeverFaults(p: Params, l: Loop, es: seq<Event>)
    requires CanPrime(l) && OnlyReaders(es)
    ensures !After(p, l, es).pc.Fault?
    decreases |es|
  {
    if es != [] {
      assert es[0] == es[0..][0];
      assert CanPrime(Next(p, l, es[0]));
      NeverFaults(p, Next(p, l, es[0]), es[1..]);
    }
  }

  /** A step that ends the loop: no buffer to be had, or a limit on having had to steal one. */
  ghost predicate GivesUp(p: Params, l: Loop) {
    (l.pc.Starved? && l.s.refills == []) || (l.pc.Stolen? && p.quitOnExhaustion)
  }

  ghost predicate GaveUp(p: Params, l: Loop, es: seq<Event>)
    decreases |es|
  {
    es != [] && ((es[0].Go? && GivesUp(p, l)) || GaveUp(p, Next(p, l, es[0]), es[1..]))
  }

  /** A step that uses a null buffer. */
  ghost predicate NoBuffer(p: Params, l: Loop, es: seq<Event>)
    decreases |es|
  {
    es != [] &&
    ((es[0].Go? && (l.pc.Prime0? || l.pc.Prime1?) && l.s.empties == []) || NoBuffer(p, Next(p, l, es[0]), es[1..]))
  }

  ghost predicate NoStop(es: seq<Event>) {
    forall i :: 0 <= i < |es| ==> !es[i].Stop?
  }

  lemma {:induction false} Over(p: Params, l: Loop, es: seq<Event>)
    requires l.pc.Quit? || l.pc.Fault?
    ensures NoStop(es) || l.pc.Quit? ==> After(p, l, es).pc == l.pc
    ensures !GaveUp(p, l, es) && !NoBuffer(p, l, es)
    decreases |es|
  {
    if es != [] {
      Over(p, Next(p, l, es[0]), es[1..]);
    }
  }

  /** Not told to stop, the loop quits exactly by such a step, and faults exactly for want of a buffer to prime with. */
  lemma {:induction false} QuitsIff(p: Params, l: Loop, es: seq<Event>)
    requires !l.pc.Quit? && !l.pc.Fault? && NoStop(es)
    ensures After(p, l, es).pc.Quit? <==> GaveUp(p, l, es)
    ensures After(p, l, es).pc.Fault? <==> NoBuffer(p, l, es)
    decreases |es|
  {
    if es != [] {
      var l' := Next(p, l, es[0]);
      assert es[0] == es[..][0];
      if l'.pc.Quit? || l'.pc.Fault? {
        Over(p, l', es[1..]);
      } else {
        QuitsIff(p, l', es[1..]);
      }
    }
  }

  /** Steps of the loop before it next completes a transfer. */
  function Steps(pc: Pc): (n: nat) {
    match pc
    case Prime0 => 2
    case Prime1 => 1
    case Awaiting(_) => 0
    case Returned(_) => 3
    case Starved(_) => 2
    case Stolen(_) => 1
    case Quit => 0
    case Fault => 0
  }

  function Gos(es: seq<Event>): (n: nat) {
    if es == [] then 0 else Gos(es[1..]) + if es[0].Go? then 1 else 0
  }

  /** It never stands still: while it has not ended, four steps of its own complete a transfer at least, three when priming. */
  lemma {:induction false} KeepsCompleting(p: Params, l: Loop, es: seq<Event>)
    requires Inv(l) && NoStop(es) && Steps(l.pc) < Gos(es)
    ensures var l' := After(p, l, es); l'.pc.Quit? || l'.pc.Fault? || Completions(p, l, es) != []
    decreases |es|
  {
    assert es[0] == es[..][0];
    var l' := Next(p, l, es[0]);
    InvStep(p, l, es[0]);
    if l'.pc.Quit? || l'.pc.Fault? {
      Over(p, l', es[1..]);
    } else if Completed(l, es[0]) == [] {
      KeepsCompleting(p, l', es[1..]);
    }
  }

  /** Full buffers that readers have asked for. */
  function Asked(es: seq<Event>): (n: nat) {
    if es == [] then 0 else Asked(es[1..]) + if es[0] == Elsewhere(OpGetFull) then 1 else 0
  }

  /**
    Once EMPTIES had none, the loop gives up exactly if readers ask for every full buffer before it can take one
    back; whatever they give back, or reserve, meanwhile does not help or harm.
   */
  lemma {:induction false} StarvedQuitsIff(p: Params, l: Loop, es: seq<Event>)
    requires l.pc.Starved? && forall i :: 0 <= i < |es| ==> es[i].Elsewhere?
    ensures After(p, l, es + [Go]).pc.Quit? <==> |l.s.refills| <= Asked(es)
    decreases |es|
  {
    if es == [] {
      assert es + [Go] == [Go] && [Go][1..] == [];
      assert After(p, Next(p, l, Go), []) == Next(p, l, Go);
    } else {
      assert (es + [Go])[1..] == es[1..] + [Go];
      StarvedQuitsIff(p, Next(p, l, es[0]), es[1..]);
    }
  }

  // ----- The loop on the device

  class AiDataLoop {
    const dev: AcqDevice
    const p: Params
    var hbm: (nat, nat)
    var pc: Pc

    constructor (dev: AcqDevice, p: Params)
      ensures this.dev == dev && this.p == p && pc == Prime0
    {
      this.dev, this.p, hbm, pc := dev, p, (0, 0), Prime0;
    }

    ghost function View(): (l: Loop)
      reads this, dev
    {
      Loop(dev.State(), hbm, pc)
    }

    /** `DMA_ASYNC_MEMCPY` and `dma_async_issue_pending`. */
    method Submit(c: Chan, b: nat)
      modifies this`hbm
      ensures hbm == if c == 0 then (b, old(hbm.1)) else (old(hbm.0), b)
    {
      hbm := if c == 0 then (b, hbm.1) else (hbm.0, b);
    }

    /** One of the two buffers taken before the loop is entered. */
    method PrimeOne()
      requires pc == Prime0 || pc == Prime1
      modifies this, dev
      ensures View() == Advance(p, old(View()))
    {
      var first := pc == Prime0;
      var b := dev.GetEmpty();
      if b == None {
        pc := Fault;
      } else if first {
        Submit(0, b.value);
        pc := Prime1;
      } else {
        Submit(1, b.value);
        pc := Awaiting(0);
      }
    }

    /** The next list operation of the body of the loop, and what follows it up to the next. */
    method Body()
      requires !pc.Prime0? && !pc.Prime1?
      modifies this, dev
      ensures View() == Advance(p, old(View()))
    {
      match pc {
        case Awaiting(ic) =>
          dev.PutFull(p.runBuffers);
          pc := Returned(ic);
        case Returned(ic) =>
          var b := dev.GetEmpty();
          if b == None {
            pc := Starved(ic);
          } else {
            Submit(ic, b.value);
            pc := Awaiting(Other(ic));
          }
        case Starved(ic) =>
          var b := dev.GetEmptyFromRefills();
          if b == None {
            pc := Quit;
          } else {
            Submit(ic, b.value);
            pc := Stolen(ic);
          }
        case Stolen(ic) =>
          dev.MoveListToEmpty(Refills);
          pc := if p.quitOnExhaustion then Quit else Awaiting(Other(ic));
        case _ =>
      }
    }

    /** One event. */
    method Turn(e: Event)
      modifies this, dev
      ensures View() == Next(p, old(View()), e)
    {
      match e {
        case Go =>
          if pc == Prime0 || pc == Prime1 {
            PrimeOne();
          } else {
            Body();
          }
        case Stop =>
          pc := Quit;
        case Elsewhere(op) =>
          if Outside(op) {
            var told := dev.Perform(op);
          }
      }
    }

    /** Any run of the loop and its readers on the device is one of the model, and has its properties. */
    method Drive(es: seq<Event>)
      requires Inv(View())
      modifies this, dev
      ensures View() == After(p, old(View()), es) && Inv(View())
      ensures Completions(p, old(View()), es) <= Outstanding(old(View())) + Submissions(p, old(View()), es)
    {
      for k := 0 to |es|
        invariant View() == After(p, old(View()), es[..k])
      {
        AfterSnoc(p, old(View()), es, k);
        Turn(es[k]);
      }
      assert es[..|es|] == es;
      InvHolds(p, old(View()), es);
      CompletedInOrder(p, old(View()), es);
    }
  }

  lemma {:induction false} AfterSnoc(p: Params, l: Loop, es: seq<Event>, k: nat)
    requires k < |es|
    ensures After(p, l, es[..k + 1]) == Next(p, After(p, l, es[..k]), es[k])
    decreases k
  {
    if k > 0 {
      AfterSnoc(p, Next(p, l, es[0]), es[1..], k - 1);
      assert es[..k + 1][1..] == es[1..][..k];
      assert es[..k][1..] == es[1..][..k - 1];
    } else {
      assert es[..1][1..] == [];
    }
  }
}
