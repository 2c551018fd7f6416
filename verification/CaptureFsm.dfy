/**
  The life of a pre/post capture, buffer by buffer: `streamCore` and `getBufferId` of `StreamHeadPrePost` in
  acq400_stream.cpp. Inputs are what `select` finds: a software event, or the number of a full buffer.
 */
module CaptureFsm {
  import opened Arith

  const WRAP := 0x1_0000_0000

  datatype State = Arm | RunPre | RunPost | PostProcess

  datatype Input = Event | Buffer(ib: nat)

  /** Targets in samples, samples in a buffer, and the buffers to wait at the corner before taking events. */
  datatype Config = Config(pre: nat, post: nat, sb: nat, delay: int) {
    /** 32-bit numbers, and buffers that hold a sample. */
    ghost predicate Valid() {
      0 < sb < WRAP && pre < WRAP && post < WRAP
    }

    /** The 32-bit counters do not wrap: not while pre fills, in whole buffers, nor when post has filled. */
    ghost predicate Countable() {
      0 < sb && post + sb < WRAP && (pre == 0 || PreBuffers(this) * sb < WRAP)
    }
  }

  function Add32(a: nat, b: nat): (c: nat) {
    (a + b) % WRAP
  }

  /** `over` is post_run_over_one and `overPre` is buffers_over_pre. */
  datatype Fsm = Fsm(state: State, pre: nat, post: nat, over: nat, overPre: nat, accepting: bool, event: bool)

  const ARMED := Fsm(Arm, 0, 0, 0, 0, false, false)

  function OnEvent(f: Fsm): (f': Fsm) {
    if f.accepting then f.(event := true) else f
  }

  function OnPre(c: Config, f: Fsm): (f': Fsm) {
    var pre := if f.pre >= c.pre then f.pre else if Add32(f.pre, c.sb) < c.pre then Add32(f.pre, c.sb) else c.pre;
    var g := f.(pre := pre);
    if pre < c.pre then g
    else if f.event then g.(state := RunPost)
    else g.(overPre := f.overPre + 1, accepting := f.accepting || f.overPre + 1 > c.delay)
  }

  function OnPost(c: Config, f: Fsm): (f': Fsm) {
    var post := Add32(f.post, c.sb);
    if post <= c.post then f.(post := post)
    else f.(post := c.post, over := f.over + 1, state := if f.over > 1 then PostProcess else RunPost)
  }

  function OnBuffer(c: Config, f: Fsm): (f': Fsm) {
    var g := if f.state == Arm then f.(state := if c.pre > 0 then RunPre else RunPost) else f;
    match g.state
    case RunPre => OnPre(c, g)
    case RunPost => OnPost(c, g)
    case _ => g
  }

  /** Nothing is read after the capture has ended. */
  function Step(c: Config, f: Fsm, i: Input): (f': Fsm) {
    if f.state == PostProcess then f else match i case Event => OnEvent(f) case Buffer(_) => OnBuffer(c, f)
  }

  function Run(c: Config, f: Fsm, inputs: seq<Input>): (f': Fsm)
    decreases |inputs|
  {
    if inputs == [] then f else Run(c, Step(c, f, inputs[0]), inputs[1..])
  }

  // ----- The reference: counting buffers

  /** Buffers that fill the pre-trigger target. */
  function PreBuffers(c: Config): (n: nat)
    requires 0 < c.sb
  {
    (c.pre + c.sb - 1) / c.sb
  }

  /** Events are taken from this many buffers on. */
  function OpenAt(c: Config): (n: nat)
    requires 0 < c.sb
  {
    PreBuffers(c) + if c.delay > 0 then c.delay else 0
  }

  /** Whole buffers in the post-trigger target. */
  function PostBuffers(c: Config): (n: nat)
    requires 0 < c.sb
  {
    c.post / c.sb
  }

  const EXTRA := 3   // one that passes the target, and two more

  datatype Count =
    | Hunting(n: nat)      // buffers so far, no event taken
    | Triggered(n: nat)    // and now one has been
    | Counting(k: nat)     // buffers processed in the post state
    | Finished

  function CountStep(c: Config, h: Count, i: Input): (h': Count)
    requires 0 < c.sb
  {
    match (h, i)
    case (Hunting(n), Event) => if n >= OpenAt(c) then Triggered(n) else h
    case (Hunting(n), Buffer(_)) => Hunting(n + 1)
    case (Triggered(_), Buffer(_)) => Counting(0)
    case (Counting(k), Buffer(_)) => if k + 1 == PostBuffers(c) + EXTRA then Finished else Counting(k + 1)
    case _ => h
  }

  function CountRun(c: Config, h: Count, inputs: seq<Input>): (h': Count)
    requires 0 < c.sb
    decreases |inputs|
  {
    if inputs == [] then h else CountRun(c, CountStep(c, h, inputs[0]), inputs[1..])
  }

  function CountStart(c: Config): (h: Count) {
    if c.pre > 0 then Hunting(0) else Counting(0)
  }

  function Excess(a: int, b: int): (n: nat) {
    if a > b then a - b else 0
  }

  /** The state the code is in after the buffers counted. */
  ghost predicate Matches(c: Config, f: Fsm, h: Count)
    requires 0 < c.sb
  {
    match h
    case Hunting(n) =>
      && c.pre > 0
      && f == Fsm(if n == 0 then Arm else RunPre, Min(n * c.sb, c.pre), 0, 0, Excess(n + 1, PreBuffers(c)), n >= OpenAt(c), false)
    case Triggered(n) =>
      && c.pre > 0 && OpenAt(c) <= n
      && f == Fsm(RunPre, c.pre, 0, 0, Excess(n + 1, PreBuffers(c)), true, true)
    case Counting(k) =>
      && k < PostBuffers(c) + EXTRA
      && f.state == (if c.pre == 0 && k == 0 then Arm else RunPost)
      && f.pre == c.pre && f.post == Min(k * c.sb, c.post) && f.over == Excess(k, PostBuffers(c))
      && f.event == f.accepting == (c.pre > 0)
    case Finished =>
      && f.state == PostProcess && f.pre == c.pre && f.post == c.post && f.event == f.accepting == (c.pre > 0)
  }

  lemma PreFilled(c: Config, n: nat)
    requires 0 < c.sb && 0 < c.pre
    ensures n * c.sb >= c.pre <==> n >= PreBuffers(c)
    ensures 1 <= PreBuffers(c)
  {
    var p, x := PreBuffers(c), c.pre + c.sb - 1;
    assert x == p * c.sb + x % c.sb;
    if n >= p {
      MulLe(p, n, c.sb);
    } else {
      MulLe(n + 1, p, c.sb);
      MulDistrib(n, 1, c.sb);
    }
    if p <= 0 {
      MulLe(p, 0, c.sb);
    }
  }

  lemma PostFilled(c: Config, k: nat)
    requires 0 < c.sb
    ensures k * c.sb > c.post <==> k > PostBuffers(c)
  {
    var q := PostBuffers(c);
    assert c.post == q * c.sb + c.post % c.sb;
    if k > q {
      MulLe(q + 1, k, c.sb);
      MulDistrib(q, 1, c.sb);
    } else {
      MulLe(k, q, c.sb);
    }
  }

  lemma Times(k: nat, d: nat)
    ensures (k + 1) * d == k * d + d
  {
  }

  lemma HuntingBuffer(c: Config, f: Fsm, n: nat, ib: nat)
    requires 0 < c.sb && PreBuffers(c) * c.sb < WRAP && Matches(c, f, Hunting(n))
    ensures Matches(c, Step(c, f, Buffer(ib)), Hunting(n + 1))
  {
    PreFilled(c, n);
    PreFilled(c, n + 1);
    Times(n, c.sb);
    if n < PreBuffers(c) {
      MulLe(n + 1, PreBuffers(c), c.sb);
    }
  }

  lemma CountingBuffer(c: Config, f: Fsm, k: nat, ib: nat)
    requires c.Countable() && Matches(c, f, Counting(k))
    ensures Matches(c, Step(c, f, Buffer(ib)), CountStep(c, Counting(k), Buffer(ib)))
  {
    PostFilled(c, k);
    PostFilled(c, k + 1);
    Times(k, c.sb);
  }

  lemma HuntingEvent(c: Config, f: Fsm, n: nat)
    requires c.Countable() && Matches(c, f, Hunting(n))
    ensures Matches(c, Step(c, f, Event), CountStep(c, Hunting(n), Event))
  {
    PreFilled(c, n);
  }

  lemma MatchesStep(c: Config, f: Fsm, h: Count, i: Input)
    requires c.Countable() && Matches(c, f, h)
    ensures Matches(c, Step(c, f, i), CountStep(c, h, i))
  {
    match (h, i)
    case (Hunting(n), Event) => HuntingEvent(c, f, n);
    case (Hunting(n), Buffer(ib)) => HuntingBuffer(c, f, n, ib);
    case (Counting(k), Buffer(ib)) => CountingBuffer(c, f, k, ib);
    case _ =>
  }

  /** The code's counters and flags are, after every sequence of inputs, what counting buffers gives. */
  lemma {:induction false} RunMatches(c: Config, f: Fsm, h: Count, inputs: seq<Input>)
    requires c.Countable() && Matches(c, f, h)
    ensures Matches(c, Run(c, f, inputs), CountRun(c, h, inputs))
    decreases |inputs|
  {
    if inputs != [] {
      MatchesStep(c, f, h, inputs[0]);
      RunMatches(c, Step(c, f, inputs[0]), CountStep(c, h, inputs[0]), inputs[1..]);
    }
  }

  lemma StartMatches(c: Config)
    requires c.Countable()
    ensures Matches(c, ARMED, CountStart(c))
  {
    if c.pre > 0 {
      PreFilled(c, 0);
    }
  }

  // ----- What the inputs must be for a capture to end

  function Buffers(inputs: seq<Input>): (n: nat) {
    if inputs == [] then 0 else Buffers(inputs[1..]) + if inputs[0].Buffer? then 1 else 0
  }

  lemma {:induction false} CountingEndsIff(c: Config, k: nat, inputs: seq<Input>)
    requires 0 < c.sb && k < PostBuffers(c) + EXTRA
    ensures CountRun(c, Counting(k), inputs).Finished? <==> k + Buffers(inputs) >= PostBuffers(c) + EXTRA
    decreases |inputs|
  {
    if inputs != [] {
      if inputs[0].Buffer? && k + 1 == PostBuffers(c) + EXTRA {
        FinishedStays(c, inputs[1..]);
      } else {
        CountingEndsIff(c, if inputs[0].Buffer? then k + 1 else k, inputs[1..]);
      }
    }
  }

  lemma {:induction false} FinishedStays(c: Config, inputs: seq<Input>)
    requires 0 < c.sb
    ensures CountRun(c, Finished, inputs) == Finished
    decreases |inputs|
  {
    if inputs != [] {
      FinishedStays(c, inputs[1..]);
    }
  }

  lemma {:induction false} TriggeredEndsIff(c: Config, n: nat, inputs: seq<Input>)
    requires 0 < c.sb
    ensures CountRun(c, Triggered(n), inputs).Finished? <==> Buffers(inputs) >= 1 + PostBuffers(c) + EXTRA
    decreases |inputs|
  {
    if inputs != [] {
      if inputs[0].Buffer? {
        CountingEndsIff(c, 0, inputs[1..]);
      } else {
        TriggeredEndsIff(c, n, inputs[1..]);
      }
    }
  }

  /** Input `i` is an event that comes after acceptance opened and has enough buffers after it. */
  ghost predicate Ending(c: Config, n: nat, inputs: seq<Input>, i: int)
    requires 0 < c.sb
  {
    && 0 <= i < |inputs| && inputs[i] == Event
    && n + Buffers(inputs[..i]) >= OpenAt(c) && Buffers(inputs[i + 1..]) >= 1 + PostBuffers(c) + EXTRA
  }

  lemma {:induction false} BuffersSplit(inputs: seq<Input>, i: nat)
    requires i <= |inputs|
    ensures Buffers(inputs) == Buffers(inputs[..i]) + Buffers(inputs[i..])
    decreases i
  {
    if i == 0 {
      assert inputs[0..] == inputs;
    } else {
      BuffersSplit(inputs[1..], i - 1);
      assert inputs[..i][1..] == inputs[1..][..i - 1] && inputs[1..][i - 1..] == inputs[i..];
    }
  }

  lemma EndingShifts(c: Config, n: nat, inputs: seq<Input>, i: nat)
    requires 0 < c.sb && 0 < i < |inputs|
    ensures Ending(c, n, inputs, i) <==> Ending(c, n + (if inputs[0].Buffer? then 1 else 0), inputs[1..], i - 1)
  {
    assert inputs[..i][1..] == inputs[1..][..i - 1] && inputs[1..][i - 1 + 1..] == inputs[i + 1..];
  }

  lemma {:induction false} HuntingEndsIff(c: Config, n: nat, inputs: seq<Input>)
    requires 0 < c.sb
    ensures CountRun(c, Hunting(n), inputs).Finished? <==> exists i :: Ending(c, n, inputs, i)
    decreases |inputs|
  {
    if inputs != [] {
      var n' := n + if inputs[0].Buffer? then 1 else 0;
      if inputs[0] == Event && n >= OpenAt(c) {
        TriggeredEndsIff(c, n, inputs[1..]);
        if CountRun(c, Hunting(n), inputs).Finished? {
          assert inputs[..0] == [] && inputs[0 + 1..] == inputs[1..];
          assert Ending(c, n, inputs, 0);
        }
        if i :| Ending(c, n, inputs, i) {
          EndingHasBuffers(c, n, inputs, i);
        }
      } else {
        HuntingEndsIff(c, n', inputs[1..]);
        HuntingEndsLater(c, n, inputs, n');
      }
    }
  }

  lemma EndingHasBuffers(c: Config, n: nat, inputs: seq<Input>, i: nat)
    requires 0 < c.sb && Ending(c, n, inputs, i)
    ensures Buffers(inputs[1..]) >= 1 + PostBuffers(c) + EXTRA
  {
    BuffersSplit(inputs[1..], i);
    assert inputs[1..][i..] == inputs[i + 1..];
  }

  lemma HuntingEndsLater(c: Config, n: nat, inputs: seq<Input>, n': nat)
    requires 0 < c.sb && inputs != [] && !(inputs[0] == Event && n >= OpenAt(c))
    requires n' == n + if inputs[0].Buffer? then 1 else 0
    ensures (exists i :: Ending(c, n, inputs, i)) <==> (exists i :: Ending(c, n', inputs[1..], i))
  {
    if i :| Ending(c, n, inputs, i) {
      assert inputs[..0] == [];
      EndingShifts(c, n, inputs, i);
    }
    if i :| Ending(c, n', inputs[1..], i) {
      EndingShifts(c, n, inputs, i + 1);
    }
  }

  /** What the inputs must hold for the capture to end. */
  ghost predicate Sufficient(c: Config, inputs: seq<Input>)
    requires 0 < c.sb
  {
    if c.pre == 0 then Buffers(inputs) >= PostBuffers(c) + EXTRA
    else exists i :: Ending(c, 0, inputs, i)
  }

  /**
    A capture ends exactly when the inputs contain an event that came after the pre-trigger target was filled
    and acceptance had opened, and after it one buffer and then exactly as many more as hold the whole
    post-trigger target, plus three.
   */
  lemma CaptureEndsIff(c: Config, inputs: seq<Input>)
    requires c.Countable()
    ensures Run(c, ARMED, inputs).state == PostProcess <==> Sufficient(c, inputs)
  {
    StartMatches(c);
    RunMatches(c, ARMED, CountStart(c), inputs);
    if c.pre == 0 {
      CountingEndsIff(c, 0, inputs);
    } else {
      HuntingEndsIff(c, 0, inputs);
    }
  }

  /** The counters are within their targets, and each stage of the capture has been earned. */
  ghost predicate Within(c: Config, f: Fsm) {
    && f.pre <= c.pre && f.post <= c.post
    && (f.state == RunPost || f.state == PostProcess ==> f.pre == c.pre && (c.pre > 0 ==> f.event))
    && (f.event ==> f.accepting)
    && (f.accepting ==> f.pre == c.pre)
    && (f.state == PostProcess ==> f.post == c.post)
  }

  lemma {:induction false} RunWithin(c: Config, f: Fsm, inputs: seq<Input>)
    requires Within(c, f)
    ensures Within(c, Run(c, f, inputs))
    decreases |inputs|
  {
    if inputs != [] {
      assert Within(c, Step(c, f, inputs[0]));
      RunWithin(c, Step(c, f, inputs[0]), inputs[1..]);
    }
  }

  /**
    At every buffer boundary, of every capture, its counters wrapping or not: they are within their targets, and
    the post state is reached only with the pre-trigger target filled and an event taken.
   */
  lemma CountersWithinTargets(c: Config, inputs: seq<Input>)
    ensures var f := Run(c, ARMED, inputs);
      && f.pre <= c.pre && f.post <= c.post
      && (f.state == RunPost || f.state == PostProcess ==> f.pre == c.pre && (c.pre > 0 ==> f.event))
      && (f.event ==> f.accepting && f.pre == c.pre)
      && (f.state == PostProcess ==> f.post == c.post)
  {
    RunWithin(c, ARMED, inputs);
  }

  // ----- When the counters wrap

  ghost function Bufs(n: nat): (inputs: seq<Input>) {
    seq(n, _ => Buffer(0))
  }

  lemma BufsNext(c: Config, f: Fsm, n: nat)
    ensures Run(c, f, Bufs(n + 1)) == Step(c, Run(c, f, Bufs(n)), Buffer(0))
  {
    assert Bufs(n + 1) == Bufs(n) + [Buffer(0)];
    RunConcat(c, f, Bufs(n), [Buffer(0)]);
    assert [Buffer(0)][1..] == [];
  }

  lemma {:induction false} BufsCount(n: nat)
    ensures Buffers(Bufs(n)) == n
  {
    if n > 0 {
      assert Bufs(n)[1..] == Bufs(n - 1);
      BufsCount(n - 1);
    }
  }

  /** About to count post-trigger buffers. */
  ghost predicate AtPost(c: Config, f: Fsm) {
    f.post == 0 && f.over == 0 && (f.state == RunPost || (f.state == Arm && c.pre == 0))
  }

  lemma {:induction false} PostFilling(c: Config, f: Fsm, k: nat)
    requires c.Valid() && AtPost(c, f) && k <= PostBuffers(c)
    ensures var g := Run(c, f, Bufs(k)); g.post == k * c.sb && g.over == 0 && (g.state == RunPost || (k == 0 && g == f))
    decreases k
  {
    if k > 0 {
      PostFilling(c, f, k - 1);
      BufsNext(c, f, k - 1);
      Times(k - 1, c.sb);
      PostFilled(c, k);
    }
  }

  /** When a full count of post-trigger samples and one more buffer wrap, the buffers that should end the capture do not. */
  lemma PostWraps(c: Config, f: Fsm)
    requires c.Valid() && AtPost(c, f) && WRAP <= c.post + c.sb
    ensures Run(c, f, Bufs(PostBuffers(c) + EXTRA)).state != PostProcess
  {
    var q := PostBuffers(c);
    PostFilling(c, f, q);
    BufsNext(c, f, q);
    BufsNext(c, f, q + 1);
    BufsNext(c, f, q + 2);
    NotThreeOver(c, Run(c, f, Bufs(q)));
  }

  /** Of three buffers the second or the one before it is not seen to pass the target. */
  lemma NotThreeOver(c: Config, f: Fsm)
    requires c.Valid() && WRAP <= c.post + c.sb && f.over == 0 && (f.state == RunPost || (f.state == Arm && c.pre == 0))
    ensures var f2 := Step(c, Step(c, f, Buffer(0)), Buffer(0)); Step(c, f2, Buffer(0)).state != PostProcess
  {
    var f1 := Step(c, f, Buffer(0));
    assert f1.state == RunPost && (f1.over == 0 || f1.post == c.post);
    var f2 := Step(c, f1, Buffer(0));
    assert Add32(c.post, c.sb) == c.post + c.sb - WRAP;
    assert f2.state == RunPost && f2.over <= 1;
  }

  /** How far behind a wrapped pre-trigger counter is: it has not filled by the buffer that should fill it. */
  ghost predicate Late(c: Config, f: Fsm, k: nat)
    requires 0 < c.sb
  {
    && f.state == (if k == 0 then Arm else RunPre) && !f.event && f.overPre <= Excess(k, PreBuffers(c))
    && (f.accepting ==> f.overPre > c.delay && f.overPre >= 1)
    && (k < PreBuffers(c) ==> f.pre == k * c.sb)
  }

  lemma WrapsLow(c: Config)
    requires c.Valid() && 0 < c.pre && WRAP <= PreBuffers(c) * c.sb
    ensures 2 <= PreBuffers(c) && Add32((PreBuffers(c) - 1) * c.sb, c.sb) < c.pre
  {
    var p := PreBuffers(c);
    PreFilled(c, 0);
    PreFilled(c, p - 1);
    Times(p - 1, c.sb);
    if 2 <= p {
      MulLe(1, p - 1, c.sb);
    }
  }

  lemma {:induction false} LateRun(c: Config, k: nat)
    requires c.Valid() && 0 < c.pre && WRAP <= PreBuffers(c) * c.sb
    ensures Late(c, Run(c, ARMED, Bufs(k)), k)
    decreases k
  {
    PreFilled(c, 0);
    if k > 0 {
      LateRun(c, k - 1);
      BufsNext(c, ARMED, k - 1);
      LateStep(c, Run(c, ARMED, Bufs(k - 1)), k - 1);
    }
  }

  lemma LateStep(c: Config, f: Fsm, k: nat)
    requires c.Valid() && 0 < c.pre && WRAP <= PreBuffers(c) * c.sb && Late(c, f, k)
    ensures Late(c, Step(c, f, Buffer(0)), k + 1)
  {
    Times(k, c.sb);
    PreFilled(c, k);
    PreFilled(c, k + 1);
    if k + 1 == PreBuffers(c) {
      WrapsLow(c);
    }
  }

  lemma {:induction false} NoEventStays(c: Config, f: Fsm, k: nat)
    requires 0 < c.pre && f.state == RunPre && !f.event
    ensures var g := Run(c, f, Bufs(k)); g.state == RunPre && !g.event
    decreases k
  {
    if k > 0 {
      NoEventStays(c, f, k - 1);
      BufsNext(c, f, k - 1);
    }
  }

  /** The inputs that should just end a capture. */
  ghost function Enough(c: Config): (inputs: seq<Input>)
    requires 0 < c.sb
  {
    if c.pre == 0 then Bufs(PostBuffers(c) + EXTRA)
    else Bufs(OpenAt(c)) + ([Event] + Bufs(1 + PostBuffers(c) + EXTRA))
  }

  lemma EnoughSuffices(c: Config)
    requires 0 < c.sb
    ensures Sufficient(c, Enough(c))
  {
    var q := PostBuffers(c) + EXTRA;
    BufsCount(q);
    if c.pre > 0 {
      var a, inputs := OpenAt(c), Enough(c);
      BufsCount(a);
      BufsCount(1 + q);
      assert inputs[..a] == Bufs(a) && inputs[a + 1..] == Bufs(1 + q);
      assert Ending(c, 0, inputs, a);
    }
  }

  lemma RunEnough(c: Config)
    requires 0 < c.sb && 0 < c.pre
    ensures Run(c, ARMED, Enough(c)) ==
            Run(c, Step(c, Run(c, ARMED, Bufs(OpenAt(c))), Event), Bufs(1 + PostBuffers(c) + EXTRA))
  {
    var f, rest := Run(c, ARMED, Bufs(OpenAt(c))), Bufs(1 + PostBuffers(c) + EXTRA);
    RunConcat(c, ARMED, Bufs(OpenAt(c)), [Event] + rest);
    assert ([Event] + rest)[0] == Event && ([Event] + rest)[1..] == rest;
  }

  lemma PreWrapsFails(c: Config)
    requires c.Valid() && 0 < c.pre && WRAP <= PreBuffers(c) * c.sb
    ensures Run(c, ARMED, Enough(c)).state != PostProcess
  {
    var a := OpenAt(c);
    LateRun(c, a);
    PreFilled(c, 0);
    RunEnough(c);
    NoEventStays(c, Run(c, ARMED, Bufs(a)), 1 + PostBuffers(c) + EXTRA);
  }

  lemma {:induction false} HuntingRun(c: Config, k: nat)
    requires c.Valid() && 0 < c.pre && PreBuffers(c) * c.sb < WRAP
    ensures Matches(c, Run(c, ARMED, Bufs(k)), Hunting(k))
    decreases k
  {
    if k == 0 {
      PreFilled(c, 0);
    } else {
      HuntingRun(c, k - 1);
      BufsNext(c, ARMED, k - 1);
      HuntingBuffer(c, Run(c, ARMED, Bufs(k - 1)), k - 1, 0);
    }
  }

  lemma PostWrapsFails(c: Config)
    requires c.Valid() && WRAP <= c.post + c.sb && (c.pre == 0 || PreBuffers(c) * c.sb < WRAP)
    ensures Run(c, ARMED, Enough(c)).state != PostProcess
  {
    var q := PostBuffers(c) + EXTRA;
    if c.pre == 0 {
      PostWraps(c, ARMED);
    } else {
      HuntingRun(c, OpenAt(c));
      RunEnough(c);
      PreFilled(c, OpenAt(c));
      var f := Step(c, Run(c, ARMED, Bufs(OpenAt(c))), Event);
      var g := Step(c, f, Buffer(0));
      assert AtPost(c, g);
      PostWraps(c, g);
      assert Bufs(1 + q) == [Buffer(0)] + Bufs(q);
      RunConcat(c, f, [Buffer(0)], Bufs(q));
      assert [Buffer(0)][1..] == [];
      assert Run(c, f, [Buffer(0)]) == g;
    }
  }

  /**
    The capture ends when it should, on all inputs, exactly when its counters do not wrap: pre, rounded up to
    whole buffers, fits 32 bits, and so does post with one buffer more.
   */
  lemma CountsRightIff(c: Config)
    requires c.Valid()
    ensures (forall inputs :: Run(c, ARMED, inputs).state == PostProcess <==> Sufficient(c, inputs)) <==> c.Countable()
  {
    if c.Countable() {
      forall inputs
        ensures Run(c, ARMED, inputs).state == PostProcess <==> Sufficient(c, inputs)
      {
        CaptureEndsIff(c, inputs);
      }
    } else {
      EnoughSuffices(c);
      if c.pre > 0 && WRAP <= PreBuffers(c) * c.sb {
        PreWrapsFails(c);
      } else {
        PostWrapsFails(c);
      }
    }
  }

  /** The guard with which the constructor lets a capture through to be taken as asked. */
  predicate Admitted(c: Config, sampleSize: nat, limit: nat) {
    (Add32(c.pre, c.post) * sampleSize) % WRAP <= limit
  }

  /** One pre-trigger sample and the greatest target pass that guard, their sum being 0, and the capture never ends. */
  lemma {:induction false} GreatestTargetNeverEnds(c: Config, f: Fsm, inputs: seq<Input>)
    requires c.pre == 1 && c.post == WRAP - 1 && f.state != PostProcess
    ensures Run(c, f, inputs).state != PostProcess
    ensures forall sampleSize: nat, limit: nat :: Admitted(c, sampleSize, limit)
    decreases |inputs|
  {
    if inputs != [] {
      GreatestTargetNeverEnds(c, Step(c, f, inputs[0]), inputs[1..]);
    }
  }

  // ----- The code

  class StreamHeadPrePost {
    const c: Config
    var f: Fsm

    constructor (c: Config)
      ensures this.c == c && f == ARMED
    {
      this.c, f := c, ARMED;
    }

    /** `getBufferId`: take inputs up to the next buffer number; `ok` is false when there is no more input. */
    method GetBufferId(inputs: seq<Input>, at: nat) returns (ok: bool, at': nat)
      requires at <= |inputs| && f.state != PostProcess
      modifies this`f
      ensures at <= at' <= |inputs| && (ok ==> at' < |inputs| && inputs[at'].Buffer?) && (!ok ==> at' == |inputs|)
      ensures f == Run(c, old(f), inputs[at..at']) && f.state == old(f).state
      ensures forall i :: at <= i < at' ==> inputs[i].Event?
    {
      at' := at;
      while at' < |inputs|
        invariant at <= at' <= |inputs|
        invariant f == Run(c, old(f), inputs[at..at']) && f.state == old(f).state
        invariant forall i :: at <= i < at' ==> inputs[i].Event?
      {
        if inputs[at'].Buffer? {
          return true, at';
        }
        RunNext(c, old(f), inputs, at, at');
        if f.accepting {
          f := f.(event := true);
        }
        at' := at' + 1;
      }
      ok := false;
    }

    /** The body of the loop in `streamCore`. */
    method ProcessBuffer(ib: nat) returns (quit: bool)
      requires f.state != PostProcess
      modifies this`f
      ensures f == Step(c, old(f), Buffer(ib)) && quit == (f.state == PostProcess)
    {
      if f.state == Arm {
        f := f.(state := if c.pre > 0 then RunPre else RunPost);
      }
      quit := false;
      if f.state == RunPre {
        if f.pre < c.pre {
          if Add32(f.pre, c.sb) < c.pre {
            f := f.(pre := Add32(f.pre, c.sb));
          } else {
            f := f.(pre := c.pre);
          }
        }
        if f.pre >= c.pre {
          if f.event {
            f := f.(state := RunPost);
          } else {
            f := f.(overPre := f.overPre + 1);
            if f.overPre > c.delay {
              f := f.(accepting := true);
            }
          }
        }
      } else {
        f := f.(post := Add32(f.post, c.sb));
        if f.post > c.post {
          f := f.(post := c.post);
          var over := f.over;
          f := f.(over := over + 1);
          if over > 1 {
            f := f.(state := PostProcess);
            quit := true;
          }
        }
      }
    }

    /** `streamCore`: `finished` says that the capture ended rather than the input. */
    method StreamCore(inputs: seq<Input>) returns (finished: bool, at: nat)
      requires 0 < c.sb && f == ARMED
      modifies this`f
      ensures at <= |inputs| && f == Run(c, ARMED, inputs[..at]) && finished == (f.state == PostProcess)
      ensures !finished ==> at == |inputs|
      ensures finished ==> at > 0 && Run(c, ARMED, inputs[..at - 1]).state != PostProcess
      ensures c.Countable() ==> (finished <==> Sufficient(c, inputs))
      ensures c.Countable() && finished ==> Sufficient(c, inputs[..at]) && !Sufficient(c, inputs[..at - 1])
    {
      at := 0;
      var ok := true;
      assert inputs[..0] == [];
      while true
        invariant at <= |inputs| && f == Run(c, ARMED, inputs[..at]) && f.state != PostProcess
        decreases |inputs| - at
      {
        ghost var at0 := at;
        ok, at := GetBufferId(inputs, at);
        RunJoin(c, ARMED, inputs, at0, at);
        if !ok {
          break;
        }
        RunNext(c, ARMED, inputs, 0, at);
        finished := ProcessBuffer(inputs[at].ib);
        at := at + 1;
        if finished {
          if c.Countable() {
            EndedStays(c, ARMED, inputs, at);
            CaptureEndsIff(c, inputs);
            CaptureEndsIff(c, inputs[..at]);
            CaptureEndsIff(c, inputs[..at - 1]);
          }
          return;
        }
      }
      assert inputs[..at] == inputs;
      if c.Countable() {
        CaptureEndsIff(c, inputs);
      }
      finished := false;
    }
  }

  lemma {:induction false} RunConcat(c: Config, f: Fsm, a: seq<Input>, b: seq<Input>)
    ensures Run(c, f, a + b) == Run(c, Run(c, f, a), b)
    decreases |a|
  {
    if a == [] {
      assert a + b == b;
    } else {
      assert (a + b)[1..] == a[1..] + b;
      RunConcat(c, Step(c, f, a[0]), a[1..], b);
    }
  }

  lemma RunJoin(c: Config, f: Fsm, inputs: seq<Input>, i: nat, j: nat)
    requires i <= j <= |inputs|
    ensures Run(c, f, inputs[..j]) == Run(c, Run(c, f, inputs[..i]), inputs[i..j])
  {
    assert inputs[..j] == inputs[..i] + inputs[i..j];
    RunConcat(c, f, inputs[..i], inputs[i..j]);
  }

  lemma RunNext(c: Config, f: Fsm, inputs: seq<Input>, i: nat, j: nat)
    requires i <= j < |inputs|
    ensures Run(c, f, inputs[i..j + 1]) == Step(c, Run(c, f, inputs[i..j]), inputs[j])
  {
    assert inputs[i..j + 1] == inputs[i..j] + [inputs[j]];
    RunConcat(c, f, inputs[i..j], [inputs[j]]);
    assert [inputs[j]][1..] == [];
  }

  lemma EndedStays(c: Config, f: Fsm, inputs: seq<Input>, i: nat)
    requires i <= |inputs| && Run(c, f, inputs[..i]).state == PostProcess
    ensures Run(c, f, inputs).state == PostProcess
  {
    assert inputs == inputs[..i] + inputs[i..];
    RunConcat(c, f, inputs[..i], inputs[i..]);
    EndedRun(c, Run(c, f, inputs[..i]), inputs[i..]);
  }

  lemma {:induction false} EndedRun(c: Config, f: Fsm, inputs: seq<Input>)
    requires f.state == PostProcess
    ensures Run(c, f, inputs) == f
    decreases |inputs|
  {
    if inputs != [] {
      EndedRun(c, f, inputs[1..]);
    }
  }
}
