/**
  What the reader of a capture sees: the buffers one after another round the ring. Over every interleaving
  of producer and reader steps, the sequence REFILLS, INFLIGHT, EMPTIES, OPENS only turns, by one place each
  time the reader is given a buffer.
 */
module RingOrder {
  import opened Arith
  import opened HostBuffers
  import opened Options

  /** A drain of REFILLS that does not reorder: there is nothing to drain, or nothing to drain past. */
  ghost predicate InOrder(s: Lists) {
    s.refills == [] || s.inflight + s.empties == []
  }

  /** Steps of a capture that keep the ring order; the emergency path and reservations do not. */
  ghost predicate KeepsOrder(s: Lists, op: Op) {
    match op
    case OpSteal => s.refills == [] || s.refills[1..] + s.inflight == []
    case OpDrain => InOrder(s)
    case OpReserve(_) => false
    case OpReplaceAll => false
    case _ => true
  }

  ghost predicate OrderlyRun(s: Lists, ops: seq<Op>)
    decreases |ops|
  {
    ops == [] || (KeepsOrder(s, ops[0]) && OrderlyRun(Step(s, ops[0]), ops[1..]))
  }

  /** The buffer a step gives to the reader, if it gives one. */
  function Given(s: Lists, op: Op): (bs: seq<nat>) {
    if op.OpGetFull? && s.refills != [] then [s.refills[0]] else []
  }

  /** The buffers given to the reader, in order. */
  function Delivered(s: Lists, ops: seq<Op>): (bs: seq<nat>)
    decreases |ops|
  {
    if ops == [] then [] else Given(s, ops[0]) + Delivered(Step(s, ops[0]), ops[1..])
  }

  // ----- One step

  lemma HeadToTail(a: seq<nat>, from: seq<nat>, to: seq<nat>, c: seq<nat>)
    requires from != []
    ensures a + (to + [from[0]]) + from[1..] + c == a + to + from + c
  {
    assert from == [from[0]] + from[1..];
  }

  lemma GetEmptyTurns(s: Lists)
    ensures GetEmpty(s).0.Cycle() == s.Cycle()
  {
    if s.empties != [] {
      HeadToTail(s.refills, s.empties, s.inflight, s.opens);
    }
  }

  lemma PutFullTurns(s: Lists, n: nat)
    ensures PutFull(s, n).Cycle() == s.Cycle()
  {
    if s.inflight != [] {
      HeadToTail([], s.inflight, s.refills, s.empties + s.opens);
    }
  }

  lemma PutEmptyTurns(s: Lists)
    ensures PutEmpty(s).Cycle() == s.Cycle()
  {
    if s.opens != [] {
      HeadToTail(s.refills + s.inflight, s.opens, s.empties, []);
    }
  }

  lemma GetFullTurns(s: Lists)
    requires s.refills != []
    ensures s.Cycle() == [s.refills[0]] + s.Cycle()[1..]
    ensures GetFull(s).0.Cycle() == s.Cycle()[1..] + [s.refills[0]]
  {
    assert s.refills == [s.refills[0]] + s.refills[1..];
  }

  lemma DrainTurns(s: Lists)
    requires InOrder(s)
    ensures DrainRefills(s).Cycle() == s.Cycle()
  {
    if s.refills != [] {
      assert s.inflight == [] && s.empties == [];
    }
  }

  lemma StealTurns(s: Lists)
    requires s.refills == [] || s.refills[1..] + s.inflight == []
    ensures GetEmptyFromRefills(s).0.Cycle() == s.Cycle()
  {
    if s.refills != [] {
      assert s.refills[1..] == [] && s.inflight == [] && s.refills == [s.refills[0]];
    }
  }

  lemma StepTurns(s: Lists, op: Op)
    requires KeepsOrder(s, op)
    ensures s.Cycle() == Given(s, op) + s.Cycle()[|Given(s, op)|..]
    ensures Step(s, op).Cycle() == s.Cycle()[|Given(s, op)|..] + Given(s, op)
  {
    match op
    case OpGetEmpty => GetEmptyTurns(s);
    case OpPutFull(n) => PutFullTurns(s, n);
    case OpGetFull => if s.refills != [] { GetFullTurns(s); }
    case OpPutEmpty => PutEmptyTurns(s);
    case OpDrain => DrainTurns(s);
    case OpSteal => StealTurns(s);
    case _ =>
  }

  /** The number a reader is told is that of the buffer it is given, the newest it has open. */
  lemma ToldIsGiven(s: Lists)
    ensures match GetFull(s).1
      case Some(b) => Given(s, OpGetFull) == [b] && GetFull(s).0.opens == s.opens + [b] && s.refills == [b] + GetFull(s).0.refills
      case None => s.refills == [] && GetFull(s).0 == s
  {
  }

  // ----- Whole runs

  lemma NextModulo(k: nat, n: nat)
    requires 0 < n
    ensures (k + 1) % n == if k % n == n - 1 then 0 else k % n + 1
  {
    var q, r := k / n, k % n;
    if r == n - 1 {
      MulDistrib(q, 1, n);
      DivModUnique(k + 1, q + 1, 0, n);
    } else {
      DivModUnique(k + 1, q, r + 1, n);
    }
  }

  /** `ds` goes round and round `c`, from its head. */
  ghost predicate Follows(ds: seq<nat>, c: seq<nat>) {
    (ds != [] ==> c != []) && forall k: nat :: k < |ds| ==> ds[k] == c[k % |c|]
  }

  lemma TurnedAt(c: seq<nat>, k: nat)
    requires c != []
    ensures (c[1..] + [c[0]])[k % |c|] == c[(k + 1) % |c|]
  {
    NextModulo(k, |c|);
  }

  lemma FollowsTurned(ds: seq<nat>, c: seq<nat>)
    requires c != [] && Follows(ds, c[1..] + [c[0]])
    ensures Follows([c[0]] + ds, c)
  {
    var ds' := [c[0]] + ds;
    forall k: nat | k < |ds'|
      ensures ds'[k] == c[k % |c|]
    {
      if k > 0 {
        TurnedAt(c, k - 1);
      }
    }
  }

  /** The `k`th buffer the reader is given, counting from 0, is the `k`th of the ring, counting round and round. */
  lemma {:induction false} ReaderFollowsRing(s: Lists, ops: seq<Op>)
    requires OrderlyRun(s, ops)
    ensures Follows(Delivered(s, ops), s.Cycle())
    decreases |ops|
  {
    if ops != [] {
      var s1 := Step(s, ops[0]);
      StepTurns(s, ops[0]);
      ReaderFollowsRing(s1, ops[1..]);
      FollowsStep(s.Cycle(), s1.Cycle(), Given(s, ops[0]), Delivered(s1, ops[1..]));
    }
  }

  lemma FollowsStep(c: seq<nat>, c1: seq<nat>, g: seq<nat>, ds: seq<nat>)
    requires |g| <= 1 && |g| <= |c| && c == g + c[|g|..] && c1 == c[|g|..] + g && Follows(ds, c1)
    ensures Follows(g + ds, c)
  {
    if g == [] {
      assert c1 == c && g + ds == ds;
    } else {
      assert g == [c[0]] && c1 == c[1..] + [c[0]];
      FollowsTurned(ds, c);
    }
  }

  /** Some orderly run gives the reader the buffer at the head of the cycle, if it does not have them all. */
  lemma HeadDelivered(s: Lists) returns (ops: seq<Op>)
    requires s.refills + s.inflight + s.empties != []
    ensures OrderlyRun(s, ops) && Delivered(s, ops) == [(s.refills + s.inflight + s.empties)[0]]
  {
    if s.refills != [] {
      ops := [OpGetFull];
      assert ops[1..] == [];
    } else if s.inflight != [] {
      ops := FullThenGiven(s);
    } else {
      var s1 := Step(s, OpGetEmpty);
      var more := FullThenGiven(s1);
      ops := [OpGetEmpty] + more;
      assert ops[1..] == more;
    }
  }

  lemma FullThenGiven(s: Lists) returns (ops: seq<Op>)
    requires s.refills == [] && s.inflight != []
    ensures OrderlyRun(s, ops) && Delivered(s, ops) == [s.inflight[0]]
  {
    ops := [OpPutFull(0), OpGetFull];
    var s1 := Step(s, OpPutFull(0));
    assert ops[1..] == [OpGetFull] && [OpGetFull][1..] == [];
    assert Delivered(s1, [OpGetFull]) == Given(s1, OpGetFull) + Delivered(Step(s1, OpGetFull), []);
  }

  /** What the reader is given after a step, in any orderly run, goes round the ring as it was before the step. */
  ghost predicate StillFollows(s: Lists, op: Op) {
    forall ops :: OrderlyRun(Step(s, op), ops) ==> Follows(Delivered(Step(s, op), ops), s.Cycle())
  }

  /** A drain, or a steal, leaves the reader its order exactly when it is one of those that keep it. */
  lemma OrderKeptIff(s: Lists, op: Op)
    requires Consistent(s) && (op.OpDrain? || op.OpSteal?)
    ensures StillFollows(s, op) <==> KeepsOrder(s, op)
  {
    var s1 := Step(s, op);
    if KeepsOrder(s, op) {
      SameCycle(s, op);
      forall ops | OrderlyRun(s1, ops)
        ensures Follows(Delivered(s1, ops), s.Cycle())
      {
        ReaderFollowsRing(s1, ops);
      }
    } else {
      var ops := OrderLost(s, op);
      if StillFollows(s, op) {
        FollowsHead(Delivered(s1, ops), s.Cycle());
      }
    }
  }

  lemma SameCycle(s: Lists, op: Op)
    requires (op.OpDrain? || op.OpSteal?) && KeepsOrder(s, op)
    ensures Step(s, op).Cycle() == s.Cycle()
  {
    if op.OpDrain? {
      DrainTurns(s);
    } else {
      StealTurns(s);
    }
  }

  lemma FollowsHead(ds: seq<nat>, c: seq<nat>)
    requires Follows(ds, c) && ds != []
    ensures c != [] && ds[0] == c[0]
  {
    DivModUnique(0, 0, 0, |c|);
  }

  /** Otherwise the first buffer given is not the one that was next. */
  lemma OrderLost(s: Lists, op: Op) returns (ops: seq<Op>)
    requires Consistent(s) && (op.OpDrain? || op.OpSteal?) && !KeepsOrder(s, op)
    ensures OrderlyRun(Step(s, op), ops)
    ensures var ds := Delivered(Step(s, op), ops); |ds| == 1 && s.Cycle() != [] && ds[0] != s.Cycle()[0]
  {
    var s1 := Step(s, op);
    ops := HeadDelivered(s1);
    var x := if op.OpDrain? then s.inflight + s.empties else s.refills[1..] + s.inflight;
    assert (s1.refills + s1.inflight + s1.empties)[0] == x[0];
    NextDiffers(s);
    assert x[0] in s.refills[1..] + s.inflight + s.empties;
  }

  lemma NextDiffers(s: Lists)
    requires Consistent(s) && s.refills != []
    ensures s.Cycle() != [] && s.Cycle()[0] == s.refills[0]
    ensures s.refills[0] !in s.refills[1..] + s.inflight + s.empties
  {
    CycleNoDup(s);
    var rest := s.refills[1..] + s.inflight + s.empties;
    assert s.Cycle() == [s.refills[0]] + rest + s.opens;
  }

  // ----- Rotations of the ring

  ghost predicate IsRotation(a: seq<nat>, b: seq<nat>) {
    exists k :: 0 <= k <= |a| && b == Rotated(a, k)
  }

  ghost function Rotated(a: seq<nat>, k: int): (b: seq<nat>)
    requires 0 <= k <= |a|
  {
    a[k..] + a[..k]
  }

  lemma RotationOf(x: seq<nat>, y: seq<nat>)
    ensures IsRotation(x + y, y + x)
  {
    assert Rotated(x + y, |x|) == y + x;
  }

  lemma RotatedTwice(a: seq<nat>, k: nat, j: nat)
    requires k <= |a| && j <= |a|
    ensures k + j <= |a| ==> Rotated(Rotated(a, k), j) == Rotated(a, k + j)
    ensures k + j > |a| ==> Rotated(Rotated(a, k), j) == Rotated(a, k + j - |a|)
  {
    var x, y := a[..k], a[k..];
    assert a == x + y;
  }

  lemma RotationTransitive(a: seq<nat>, b: seq<nat>, c: seq<nat>)
    requires IsRotation(a, b) && IsRotation(b, c)
    ensures IsRotation(a, c)
  {
    var k :| 0 <= k <= |a| && b == Rotated(a, k);
    var j :| 0 <= j <= |b| && c == Rotated(b, j);
    RotatedTwice(a, k, j);
  }

  /**
    Exactly the steps that keep the buffers in ring order, wherever it begins: a drain with nothing to drain,
    nothing to drain past or nothing open; a steal with nothing between the buffer and where it goes, one way round
    or the other; giving reserved buffers back with none reserved and EMPTIES in order, or all there is and turned.
   */
  ghost predicate KeepsRing(s: Lists, op: Op) {
    match op
    case OpSteal => s.refills == [] || s.refills[1..] + s.inflight == [] || s.empties + s.opens == []
    case OpDrain => s.opens == [] || s.refills == [] || s.inflight + s.empties == []
    case OpReserve(b) => b !in s.empties
    case OpReplaceAll =>
      && s.reserved == []
      && (Sort(s.empties) == s.empties || (s.refills + s.inflight + s.opens == [] && IsRotation(s.empties, Sort(s.empties))))
    case _ => true
  }

  ghost predicate RingRun(s: Lists, ops: seq<Op>)
    decreases |ops|
  {
    ops != [] ==> KeepsRing(s, ops[0]) && RingRun(Step(s, ops[0]), ops[1..])
  }

  lemma RotationSelf(a: seq<nat>)
    ensures IsRotation(a, a)
  {
    assert Rotated(a, 0) == a;
  }

  lemma FrontBlocksRotate(r: seq<nat>, x: seq<nat>, y: seq<nat>)
    requires r == [] || x == [] || y == []
    ensures IsRotation(r + x + y, x + r + y)
  {
    if y == [] {
      assert r + x + y == r + x && x + r + y == x + r;
      RotationOf(r, x);
    } else {
      assert r + x + y == x + r + y;
      RotationSelf(r + x + y);
    }
  }

  /** A steal exchanges a full buffer with those before it, seen from the front of the cycle. */
  lemma StealBlocks(s: Lists)
    requires s.refills != []
    ensures var r, x, y := s.refills[..1], s.refills[1..] + s.inflight, s.empties + s.opens;
      s.Cycle() == r + x + y && GetEmptyFromRefills(s).0.Cycle() == x + r + y
  {
    assert s.refills == s.refills[..1] + s.refills[1..] && [s.refills[0]] == s.refills[..1];
  }

  /** A drain exchanges all of them with those in flight and empty. */
  lemma DrainBlocks(s: Lists)
    ensures var r, x, o := s.refills, s.inflight + s.empties, s.opens;
      s.Cycle() == r + x + o && DrainRefills(s).Cycle() == x + r + o
  {
  }

  lemma StealRotates(s: Lists)
    requires KeepsRing(s, OpSteal)
    ensures IsRotation(s.Cycle(), GetEmptyFromRefills(s).0.Cycle())
  {
    if s.refills == [] {
      RotationSelf(s.Cycle());
    } else {
      StealBlocks(s);
      FrontBlocksRotate(s.refills[..1], s.refills[1..] + s.inflight, s.empties + s.opens);
    }
  }

  lemma DrainRotates(s: Lists)
    requires KeepsRing(s, OpDrain)
    ensures IsRotation(s.Cycle(), DrainRefills(s).Cycle())
  {
    DrainBlocks(s);
    FrontBlocksRotate(s.refills, s.inflight + s.empties, s.opens);
  }

  lemma ReplaceCycle(s: Lists)
    requires s.reserved == []
    ensures ReplaceAll(s).Cycle() == s.refills + s.inflight + Sort(s.empties) + s.opens
  {
    assert Reverse(s.reserved) + s.empties == s.empties;
  }

  lemma ReplaceRotates(s: Lists)
    requires KeepsRing(s, OpReplaceAll)
    ensures IsRotation(s.Cycle(), ReplaceAll(s).Cycle())
  {
    ReplaceCycle(s);
    if Sort(s.empties) == s.empties {
      RotationSelf(s.Cycle());
    } else {
      assert s.refills == [] && s.inflight == [] && s.opens == [];
      assert s.Cycle() == s.empties && ReplaceAll(s).Cycle() == Sort(s.empties);
    }
  }

  lemma StepRotates(s: Lists, op: Op)
    requires KeepsRing(s, op)
    ensures IsRotation(s.Cycle(), Step(s, op).Cycle())
  {
    if op.OpSteal? {
      StealRotates(s);
    } else if op.OpDrain? {
      DrainRotates(s);
    } else if op.OpReserve? {
      RotationSelf(s.Cycle());
    } else if op.OpReplaceAll? {
      ReplaceRotates(s);
    } else {
      var b := Given(s, op);
      StepTurns(s, op);
      RotationOf(b, s.Cycle()[|b|..]);
    }
  }

  /** Over every run of such steps the buffers stay in ring order. */
  lemma {:induction false} RunRotates(s: Lists, ops: seq<Op>)
    requires RingRun(s, ops)
    ensures IsRotation(s.Cycle(), Run(s, ops).Cycle())
    decreases |ops|
  {
    if ops == [] {
      RotationSelf(s.Cycle());
    } else {
      var s1 := Step(s, ops[0]);
      StepRotates(s, ops[0]);
      RunRotates(s1, ops[1..]);
      RotationTransitive(s.Cycle(), s1.Cycle(), Run(s, ops).Cycle());
    }
  }

  /** The order in which the lists are usually drawn. */
  function Drawn(s: Lists): (c: seq<nat>) {
    s.opens + s.refills + s.inflight + s.empties
  }

  lemma DrawnIsRotation(s: Lists)
    ensures IsRotation(s.Cycle(), Drawn(s)) && IsRotation(Drawn(s), s.Cycle())
  {
    var x := s.refills + s.inflight + s.empties;
    assert s.Cycle() == x + s.opens && Drawn(s) == s.opens + x;
    RotationOf(x, s.opens);
    RotationOf(s.opens, x);
  }

  // ----- Neighbours on the ring

  ghost predicate NextAt(c: seq<nat>, i: int, x: nat, y: nat) {
    0 <= i < |c| && c[i] == x && c[if i + 1 == |c| then 0 else i + 1] == y
  }

  /** `y` comes after `x`, going round `c`. */
  ghost predicate Successive(c: seq<nat>, x: nat, y: nat) {
    exists i :: NextAt(c, i, x, y)
  }

  lemma SuccessiveRotates(a: seq<nat>, b: seq<nat>, x: nat, y: nat)
    requires IsRotation(a, b) && Successive(a, x, y)
    ensures Successive(b, x, y)
  {
    var k :| 0 <= k <= |a| && b == Rotated(a, k);
    var i :| NextAt(a, i, x, y);
    assert NextAt(b, if k <= i then i - k else i + |a| - k, x, y);
  }

  lemma RotationSymmetric(a: seq<nat>, b: seq<nat>)
    requires IsRotation(a, b)
    ensures IsRotation(b, a)
  {
    var k :| 0 <= k <= |a| && b == Rotated(a, k);
    assert a == a[..k] + a[k..];
    RotationOf(a[k..], a[..k]);
  }

  // ----- The buffers either side of an event

  /** `acq400_init_event_info`. */
  datatype EventInfo = EventInfo(hbm0: Option<nat>, hbm1: Option<nat>)

  function InitEventInfo(s: Lists): (ev: EventInfo) {
    EventInfo(
      if s.refills != [] then Some(s.refills[|s.refills| - 1])
      else if s.opens != [] then Some(s.opens[|s.opens| - 1])
      else None,
      if s.inflight != [] then Some(s.inflight[0]) else None)
  }

  lemma EventBetween(ring: seq<nat>, s: Lists)
    requires IsRotation(ring, s.Cycle())
    requires InitEventInfo(s).hbm0.Some? && InitEventInfo(s).hbm1.Some?
    ensures Successive(ring, InitEventInfo(s).hbm0.value, InitEventInfo(s).hbm1.value)
  {
    var ev, c := InitEventInfo(s), s.Cycle();
    if s.refills != [] {
      assert NextAt(c, |s.refills| - 1, ev.hbm0.value, ev.hbm1.value);
    } else {
      assert c[|c| - 1] == s.opens[|s.opens| - 1];
      assert NextAt(c, |c| - 1, ev.hbm0.value, ev.hbm1.value);
    }
    RotationSymmetric(ring, c);
    SuccessiveRotates(c, ring, ev.hbm0.value, ev.hbm1.value);
  }

  /**
    At any time after the start of a capture, when both are known, the event is between neighbours: `hbm1` comes
    after `hbm0` in index order, round the buffers of the capture.
   */
  lemma EventBracketed(s: Lists, ops: seq<Op>)
    requires Pools(s) && RingRun(Start(s), ops)
    ensures var ring, t := Start(s).Cycle(), Run(Start(s), ops); var ev := InitEventInfo(t);
      && Ascending(ring) && multiset(ring) == multiset(s.Cycle())
      && (ev.hbm0 == None <==> t.refills == [] == t.opens) && (ev.hbm1 == None <==> t.inflight == [])
      && (ev.hbm0.Some? && ev.hbm1.Some? ==> Successive(ring, ev.hbm0.value, ev.hbm1.value))
  {
    StartConsistent(s);
    RunRotates(Start(s), ops);
    var t := Run(Start(s), ops);
    if InitEventInfo(t).hbm0.Some? && InitEventInfo(t).hbm1.Some? {
      EventBetween(Start(s).Cycle(), t);
    }
  }

  // ----- Exactly when draining and stealing keep the order

  /** Exchanging two neighbouring blocks of three is a rotation only when one of the three is empty. */
  lemma BlocksRotateIff(o: seq<nat>, r: seq<nat>, x: seq<nat>)
    requires NoDup(o + r + x)
    ensures IsRotation(o + r + x, o + x + r) <==> o == [] || r == [] || x == []
  {
    if o == [] {
      RotationOf(r, x);
      assert o + r + x == r + x && o + x + r == x + r;
    } else if r == [] || x == [] {
      assert Rotated(o + r + x, 0) == o + x + r;
    } else {
      BlocksDoNotRotate(o, r, x);
    }
  }

  lemma BlocksDoNotRotate(o: seq<nat>, r: seq<nat>, x: seq<nat>)
    requires NoDup(o + r + x) && o != [] && r != [] && x != []
    ensures !IsRotation(o + r + x, o + x + r)
  {
    var a, b, last := o + r + x, o + x + r, o[|o| - 1];
    assert a[|o| - 1] == last && a[|o|] == r[0] && a[|o| + |r|] == x[0];
    assert NextAt(a, |o| - 1, last, r[0]);
    if IsRotation(a, b) {
      SuccessiveRotates(a, b, last, r[0]);
      var i :| NextAt(b, i, last, r[0]);
      OnlyAt(o, r, x, i);
    }
  }

  lemma OnlyAt(o: seq<nat>, r: seq<nat>, x: seq<nat>, i: nat)
    requires NoDup(o + r + x) && o != [] && i < |o + x + r| && (o + x + r)[i] == o[|o| - 1]
    ensures i == |o| - 1
  {
    var a, b := o + r + x, o + x + r;
    var j := if i < |o| then i else if i < |o| + |x| then i + |r| else i - |x|;
    assert a[j] == b[i] == a[|o| - 1];
  }

  /**
    Draining REFILLS keeps the buffers in ring order exactly when there is nothing to drain, nothing to drain
    past, or nothing open.
   */
  lemma DrainKeepsRingIff(s: Lists)
    requires Consistent(s)
    ensures IsRotation(Drawn(s), Drawn(DrainRefills(s))) <==>
            s.opens == [] || s.refills == [] || s.inflight + s.empties == []
  {
    OneList(s);
    var o, r, x := s.opens, s.refills, s.inflight + s.empties;
    assert Drawn(s) == o + r + x && Drawn(DrainRefills(s)) == o + x + r;
    DrawnNoDup(s);
    BlocksRotateIff(o, r, x);
  }

  lemma DrawnNoDup(s: Lists)
    requires Consistent(s)
    ensures NoDup(Drawn(s))
  {
  }

  lemma CycleNoDup(s: Lists)
    requires Consistent(s)
    ensures NoDup(s.Cycle())
  {
  }

  /** A rotation stays one when either side is turned. */
  lemma SameRing(a: seq<nat>, a': seq<nat>, b: seq<nat>)
    requires IsRotation(a, a')
    ensures IsRotation(a, b) <==> IsRotation(a', b)
  {
    RotationSymmetric(a, a');
    if IsRotation(a, b) {
      RotationTransitive(a', a, b);
    }
    if IsRotation(a', b) {
      RotationTransitive(a, a', b);
    }
  }

  /** The exchange of two blocks at the front of three, as seen in the cycle. */
  lemma FrontBlocksIff(r: seq<nat>, x: seq<nat>, y: seq<nat>)
    requires NoDup(r + x + y)
    ensures IsRotation(r + x + y, x + r + y) <==> y == [] || r == [] || x == []
  {
    var a, b, a', b' := r + x + y, x + r + y, y + r + x, y + x + r;
    assert a == (r + x) + y && a' == y + (r + x) && b == (x + r) + y && b' == y + (x + r);
    RotationOf(r + x, y);
    RotationOf(x + r, y);
    RotationNoDup(r + x, y);
    BlocksRotateIff(y, r, x);
    SameRing(a, a', b);
    if IsRotation(a', b) {
      RotationTransitive(a', b, b');
    }
    if IsRotation(a', b') {
      RotationSymmetric(b, b');
      RotationTransitive(a', b', b);
    }
  }

  lemma RotationNoDup(u: seq<nat>, y: seq<nat>)
    requires NoDup(u + y)
    ensures NoDup(y + u)
  {
    var a, b := u + y, y + u;
    forall i, j | 0 <= i < j < |b|
      ensures b[i] != b[j]
    {
      assert b[i] == a[if i < |y| then |u| + i else i - |y|];
      assert b[j] == a[if j < |y| then |u| + j else j - |y|];
    }
  }

  /** Taking the head of REFILLS back, and every other step but one, keeps the ring exactly as `KeepsRing` says. */
  lemma StepKeepsRingIff(s: Lists, op: Op)
    requires Consistent(s)
    ensures IsRotation(s.Cycle(), Step(s, op).Cycle()) <==> KeepsRing(s, op)
  {
    CycleNoDup(s);
    if KeepsRing(s, op) {
      StepRotates(s, op);
    } else if op.OpSteal? {
      StealBlocks(s);
      FrontBlocksIff(s.refills[..1], s.refills[1..] + s.inflight, s.empties + s.opens);
    } else if op.OpDrain? {
      DrainBlocks(s);
      FrontBlocksIff(s.refills, s.inflight + s.empties, s.opens);
    } else if op.OpReplaceAll? {
      if IsRotation(s.Cycle(), Step(s, op).Cycle()) {
        ReplaceKeeps(s);
      }
    } else {
      WithoutShorter(s.empties, op.b);
    }
  }

  /** A rotation that leaves an element where it is leaves them all. */
  lemma RotationFixed(a: seq<nat>, b: seq<nat>, i: nat)
    requires NoDup(a) && IsRotation(a, b) && i < |a| && i < |b| && a[i] == b[i]
    ensures a == b
  {
    var k :| 0 <= k <= |a| && b == Rotated(a, k);
    assert b[i] == a[if i < |a| - k then i + k else i - (|a| - k)];
  }

  /** Giving reserved buffers back leaves a rotation only on that condition. */
  lemma ReplaceKeeps(s: Lists)
    requires Consistent(s) && IsRotation(s.Cycle(), ReplaceAll(s).Cycle())
    ensures KeepsRing(s, OpReplaceAll)
  {
    var c, c' := s.Cycle(), ReplaceAll(s).Cycle();
    CycleNoDup(s);
    NoneReserved(s);
    ReplaceCycle(s);
    if s.refills + s.inflight + s.opens != [] {
      SortSorts(s.empties);
      SameSize(Sort(s.empties), s.empties);
      MiddleFixed(s.refills + s.inflight, s.empties, Sort(s.empties), s.opens);
    } else {
      assert c == s.empties && c' == Sort(s.empties);
    }
  }

  lemma MiddleFixed(x: seq<nat>, e: seq<nat>, e': seq<nat>, y: seq<nat>)
    requires NoDup(x + e + y) && IsRotation(x + e + y, x + e' + y) && x + y != [] && |e| == |e'|
    ensures e == e'
  {
    RotationFixed(x + e + y, x + e' + y, if x != [] then 0 else |x + e + y| - 1);
    MiddleSame(x, e, e', y);
  }

  lemma NoneReserved(s: Lists)
    requires IsRotation(s.Cycle(), ReplaceAll(s).Cycle())
    ensures s.reserved == []
  {
    var e := Reverse(s.reserved) + s.empties;
    SortSorts(e);
    SameSize(Sort(e), e);
    ReverseSize(s.reserved);
    assert |ReplaceAll(s).Cycle()| == |s.Cycle()|;
  }

  lemma MiddleSame(x: seq<nat>, e: seq<nat>, e': seq<nat>, y: seq<nat>)
    requires x + e + y == x + e' + y
    ensures e == e'
  {
    assert |e| == |e'|;
    assert (x + e + y)[|x|..|x| + |e|] == e && (x + e' + y)[|x|..|x| + |e|] == e';
  }

  lemma SameSize(a: seq<nat>, b: seq<nat>)
    requires multiset(a) == multiset(b)
    ensures |a| == |b|
  {
    assert |multiset(a)| == |a| && |multiset(b)| == |b|;
  }

  lemma {:induction false} ReverseSize(bs: seq<nat>)
    ensures |Reverse(bs)| == |bs|
  {
    if bs != [] {
      ReverseSize(bs[1..]);
    }
  }

  lemma {:induction false} WithoutShorter(bs: seq<nat>, b: nat)
    requires b in bs
    ensures |Without(bs, b)| == |bs| - 1
  {
    if bs[0] != b {
      WithoutShorter(bs[1..], b);
    }
  }

  ghost predicate ReaderOps(ops: seq<Op>) {
    forall i :: 0 <= i < |ops| ==> ops[i].OpGetFull? || ops[i].OpPutEmpty?
  }

  lemma {:induction false} ReaderRun(s: Lists, ops: seq<Op>)
    requires ReaderOps(ops)
    ensures RingRun(s, ops) && Run(s, ops).inflight == s.inflight
    decreases |ops|
  {
    if ops != [] {
      ReaderRun(Step(s, ops[0]), ops[1..]);
    }
  }

  /** The emergency path of `ai_data_loop`: a full buffer is taken back, the reader may run, and REFILLS is drained. */
  function Emergency(s: Lists, ops: seq<Op>): (r: Lists) {
    DrainRefills(Run(GetEmptyFromRefills(s).0, ops))
  }

  /** Once stolen past other buffers, the buffer stays next to the one in flight. */
  lemma StolenStays(s: Lists, ops: seq<Op>)
    requires Consistent(s) && s.inflight != [] && s.refills != [] && ReaderOps(ops) && s.empties + s.opens != []
    ensures !IsRotation(s.Cycle(), Emergency(s, ops).Cycle())
  {
    var s1 := GetEmptyFromRefills(s).0;
    var s2, s3 := Run(s1, ops), Emergency(s, ops);
    var c, c3 := s.Cycle(), s3.Cycle();
    StealConsistent(s);
    RunConsistent(s1, ops);
    DrainConsistent(s2);
    CycleNoDup(s);
    CycleNoDup(s3);
    ReaderRun(s1, ops);
    var n, m := |s.inflight|, |s.refills| + |s.inflight|;
    var last := s.inflight[n - 1];
    assert c3[n - 1] == last && c3[n] == s.refills[0];
    assert c[m - 1] == last && c[m] == (s.empties + s.opens)[0] && c[0] == s.refills[0];
    assert NextAt(c, m - 1, last, c[m]) && NextAt(c3, n - 1, last, c[0]);
    if IsRotation(c, c3) {
      SuccessiveRotates(c, c3, last, c[m]);
      OneSuccessor(c3, last, c[m], c[0]);
    }
  }

  lemma OneSuccessor(c: seq<nat>, x: nat, y: nat, z: nat)
    requires NoDup(c) && Successive(c, x, y) && Successive(c, x, z)
    ensures y == z
  {
    var i :| NextAt(c, i, x, y);
    var j :| NextAt(c, j, x, z);
    assert i == j;
  }

  /**
    It keeps the buffers in ring order exactly when no other buffer is empty or open as the full one is taken
    back, and when REFILLS is drained the reader has none open, or has taken them all.
   */
  lemma EmergencyKeepsRingIff(s: Lists, ops: seq<Op>)
    requires Consistent(s) && s.inflight != [] && s.refills != [] && ReaderOps(ops)
    ensures var s2 := Run(GetEmptyFromRefills(s).0, ops);
      IsRotation(s.Cycle(), Emergency(s, ops).Cycle()) <==>
      s.empties + s.opens == [] && (s2.opens == [] || s2.refills == [])
  {
    var s2 := Run(GetEmptyFromRefills(s).0, ops);
    if s.empties + s.opens != [] {
      StolenStays(s, ops);
    } else {
      StolenTurns(s, ops);
      DrainAfter(s2, s.Cycle());
    }
  }

  lemma DrainAfter(s: Lists, c: seq<nat>)
    requires Consistent(s) && s.inflight != [] && IsRotation(c, s.Cycle())
    ensures IsRotation(c, DrainRefills(s).Cycle()) <==> s.opens == [] || s.refills == []
  {
    var c1, c2 := s.Cycle(), DrainRefills(s).Cycle();
    SameRing(c, c1, c2);
    StepKeepsRingIff(s, OpDrain);
    assert Step(s, OpDrain).Cycle() == c2;
  }

  lemma StolenTurns(s: Lists, ops: seq<Op>)
    requires Consistent(s) && s.inflight != [] && s.refills != [] && ReaderOps(ops) && s.empties + s.opens == []
    ensures var s2 := Run(GetEmptyFromRefills(s).0, ops);
      Consistent(s2) && s2.inflight != [] && IsRotation(s.Cycle(), s2.Cycle())
  {
    var s1 := GetEmptyFromRefills(s).0;
    StealRotates(s);
    StealConsistent(s);
    RunConsistent(s1, ops);
    ReaderRun(s1, ops);
    RunRotates(s1, ops);
    RotationTransitive(s.Cycle(), s1.Cycle(), Run(s1, ops).Cycle());
  }
}
