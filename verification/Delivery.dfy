/**
  The producer loops and the reader together: what `axi64_data_loop` and `ai_data_loop` deliver to
  `acq400_continuous_read`.
 */
module Delivery {
  import opened HostBuffers
  import opened RingOrder
  import AxiLoop
  import AiLoop

  // ----- The loop that watches for sentinels

  /** The list operation an event performs, if any. */
  function AxiOp(p: AxiLoop.Params, l: AxiLoop.Loop, e: AxiLoop.Event): (ops: seq<Op>) {
    match e
    case Go =>
      (match l.pc
       case First => [OpGetEmpty]
       case Taking => [OpGetEmpty]
       case Retrying => [OpGetEmpty]
       case Found(_) => [OpPutFull(p.runBuffers)]
       case Exhausted => [OpDrain]
       case _ => [])
    case ReaderGets => [OpGetFull]
    case ReaderGivesBack => [OpPutEmpty]
    case _ => []
  }

  function AxiOps(p: AxiLoop.Params, l: AxiLoop.Loop, es: seq<AxiLoop.Event>): (ops: seq<Op>)
    decreases |es|
  {
    if es == [] then [] else AxiOp(p, l, es[0]) + AxiOps(p, AxiLoop.Next(p, l, es[0]), es[1..])
  }

  lemma AxiOpIsStep(p: AxiLoop.Params, l: AxiLoop.Loop, e: AxiLoop.Event)
    ensures AxiLoop.Next(p, l, e).s == Run(l.s, AxiOp(p, l, e))
  {
    var ops := AxiOp(p, l, e);
    if ops != [] {
      assert ops[1..] == [];
      assert Run(l.s, ops) == Run(Step(l.s, ops[0]), []);
    }
  }

  /** No buffer comes back in the moment between finding EMPTIES empty and draining REFILLS. */
  ghost predicate Undisturbed(p: AxiLoop.Params, l: AxiLoop.Loop, es: seq<AxiLoop.Event>)
    decreases |es|
  {
    es != [] ==>
      && (l.pc.Exhausted? && es[0].Go? ==> l.s.empties == [] || l.s.refills == [])
      && Undisturbed(p, AxiLoop.Next(p, l, es[0]), es[1..])
  }

  /** That is exact: at an exhaustion the drain leaves the reader its order just then. */
  lemma ExhaustedOrderIff(p: AxiLoop.Params, l: AxiLoop.Loop)
    requires AxiLoop.Inv(l) && l.pc.Exhausted?
    ensures AxiLoop.Next(p, l, AxiLoop.Go).s == Step(l.s, OpDrain)
    ensures StillFollows(l.s, OpDrain) <==> l.s.empties == [] || l.s.refills == []
  {
    OrderKeptIff(l.s, OpDrain);
  }

  lemma {:induction false} OrderlyOne(s: Lists, ops: seq<Op>, more: seq<Op>)
    requires |ops| <= 1 && (ops != [] ==> KeepsOrder(s, ops[0])) && OrderlyRun(Run(s, ops), more)
    ensures OrderlyRun(s, ops + more)
  {
    if ops == [] {
      assert ops + more == more;
    } else {
      assert (ops + more)[1..] == more && ops[1..] == [];
      assert Run(s, ops) == Run(Step(s, ops[0]), []);
    }
  }

  lemma {:induction false} AxiOrderly(p: AxiLoop.Params, l: AxiLoop.Loop, es: seq<AxiLoop.Event>)
    requires Consistent(l.s) && AxiLoop.Holding(l) && (l.pc.Poisoning? || AxiLoop.AllTrusted(l)) && Undisturbed(p, l, es)
    ensures OrderlyRun(l.s, AxiOps(p, l, es))
    decreases |es|
  {
    if es != [] {
      var l', op := AxiLoop.Next(p, l, es[0]), AxiOp(p, l, es[0]);
      AxiOpIsStep(p, l, es[0]);
      if l'.pc.Quit? && l.pc.Poisoning? {
        AxiQuitOrderly(p, l', es[1..]);
      } else {
        AxiLoop.InvStep(p, l, es[0]);
        AxiOrderly(p, l', es[1..]);
      }
      OrderlyOne(l.s, op, AxiOps(p, l', es[1..]));
    }
  }

  /** Once it has quit, only the reader takes steps. */
  lemma {:induction false} AxiQuitOrderly(p: AxiLoop.Params, l: AxiLoop.Loop, es: seq<AxiLoop.Event>)
    requires l.pc.Quit?
    ensures OrderlyRun(l.s, AxiOps(p, l, es))
    decreases |es|
  {
    if es != [] {
      AxiOpIsStep(p, l, es[0]);
      AxiQuitOrderly(p, AxiLoop.Next(p, l, es[0]), es[1..]);
      OrderlyOne(l.s, AxiOp(p, l, es[0]), AxiOps(p, AxiLoop.Next(p, l, es[0]), es[1..]));
    }
  }

  /**
    From the start of a capture, whatever DMA does and however the loop and the reader interleave, the reader
    is given the buffers in index order, round and round; a drain of REFILLS does not disturb this if no
    buffer comes back just before it.
   */
  lemma AxiReaderFollowsRing(p: AxiLoop.Params, s: Lists, tail: map<nat, AxiLoop.Poison.Tail>, es: seq<AxiLoop.Event>)
    requires Pools(s)
    requires Undisturbed(p, AxiLoop.Loop(Start(s), tail, map[], AxiLoop.Poisoning), es)
    ensures var l := AxiLoop.Loop(Start(s), tail, map[], AxiLoop.Poisoning);
      && Ascending(l.s.Cycle()) && multiset(l.s.Cycle()) == multiset(s.Cycle())
      && Follows(Delivered(l.s, AxiOps(p, l, es)), l.s.Cycle())
  {
    var l := AxiLoop.Loop(Start(s), tail, map[], AxiLoop.Poisoning);
    StartConsistent(s);
    AxiOrderly(p, l, es);
    ReaderFollowsRing(l.s, AxiOps(p, l, es));
  }

  // ----- The ping-pong loop

  function AiOp(p: AiLoop.Params, l: AiLoop.Loop, e: AiLoop.Event): (ops: seq<Op>) {
    match e
    case Go =>
      (match l.pc
       case Prime0 => [OpGetEmpty]
       case Prime1 => [OpGetEmpty]
       case Awaiting(_) => [OpPutFull(p.runBuffers)]
       case Returned(_) => [OpGetEmpty]
       case Starved(_) => [OpSteal]
       case Stolen(_) => [OpDrain]
       case _ => [])
    case Stop => []
    case Elsewhere(op) => if AiLoop.Outside(op) then [op] else []
  }

  function AiOps(p: AiLoop.Params, l: AiLoop.Loop, es: seq<AiLoop.Event>): (ops: seq<Op>)
    decreases |es|
  {
    if es == [] then [] else AiOp(p, l, es[0]) + AiOps(p, AiLoop.Next(p, l, es[0]), es[1..])
  }

  lemma AiOpIsStep(p: AiLoop.Params, l: AiLoop.Loop, e: AiLoop.Event)
    ensures AiLoop.Next(p, l, e).s == Run(l.s, AiOp(p, l, e))
  {
    var ops := AiOp(p, l, e);
    if ops != [] {
      assert ops[1..] == [];
      assert Run(l.s, ops) == Run(Step(l.s, ops[0]), []);
    }
  }

  /** EMPTIES never runs out, and nobody reserves buffers during the capture. */
  ghost predicate Supplied(p: AiLoop.Params, l: AiLoop.Loop, es: seq<AiLoop.Event>)
    decreases |es|
  {
    && !l.pc.Starved? && !l.pc.Stolen?
    && (es != [] ==>
      && (es[0].Elsewhere? ==> es[0].op.OpGetFull? || es[0].op.OpPutEmpty?)
      && Supplied(p, AiLoop.Next(p, l, es[0]), es[1..]))
  }

  /** While there are empty buffers to be had, the ping-pong loop too delivers in ring order. */
  lemma {:induction false} AiReaderFollowsRing(p: AiLoop.Params, l: AiLoop.Loop, es: seq<AiLoop.Event>)
    requires Supplied(p, l, es)
    ensures OrderlyRun(l.s, AiOps(p, l, es)) && Follows(Delivered(l.s, AiOps(p, l, es)), l.s.Cycle())
    decreases |es|
  {
    if es != [] {
      AiOpIsStep(p, l, es[0]);
      AiReaderFollowsRing(p, AiLoop.Next(p, l, es[0]), es[1..]);
      OrderlyOne(l.s, AiOp(p, l, es[0]), AiOps(p, AiLoop.Next(p, l, es[0]), es[1..]));
    }
    ReaderFollowsRing(l.s, AiOps(p, l, es));
  }
}
