/**
  The life cycle of the DMA host buffers: the lists of acq400_lists.c and the run-time counters that go
  with them. A buffer is named by its index `ix`; the head of a list is the front of the sequence.
 */
module HostBuffers {
  import opened Options

  datatype BState = BsEmpty | BsFilling | BsFull | BsFullApp | BsReserved

  /** The state under `list_mutex`, with the counters of struct RUN_TIME. */
  datatype Lists = Lists(
    empties: seq<nat>, inflight: seq<nat>, refills: seq<nat>, opens: seq<nat>, reserved: seq<nat>,
    bstate: map<nat, BState>,
    nget: nat, ngetr: nat, nput: nat, getErrors: nat, putErrors: nat, pleaseStop: bool)
  {
    /** All the buffers, in the order a reader will see them: full, filling, empty, and last the ones it has open. */
    function Cycle(): (c: seq<nat>) {
      refills + inflight + empties + opens
    }

    function All(): (c: seq<nat>) {
      Cycle() + reserved
    }
  }

  // ----- The operations

  function GetEmpty(s: Lists): (r: (Lists, Option<nat>)) {
    if s.empties == [] then (s.(getErrors := s.getErrors + 1), None) else
    var b := s.empties[0];
    (s.(empties := s.empties[1..], inflight := s.inflight + [b], bstate := s.bstate[b := BsFilling], nget := s.nget + 1),
     Some(b))
  }

  /** `runBuffers` is the module parameter that ends a run after so many buffers, 0 for never. */
  function PutFull(s: Lists, runBuffers: nat): (r: Lists) {
    if s.inflight == [] then s.(putErrors := s.putErrors + 1) else
    var b := s.inflight[0];
    s.(inflight := s.inflight[1..], refills := s.refills + [b], bstate := s.bstate[b := BsFull], nput := s.nput + 1,
       pleaseStop := s.pleaseStop || (runBuffers > 0 && s.nput + 1 >= runBuffers))
  }

  function GetEmptyFromRefills(s: Lists): (r: (Lists, Option<nat>)) {
    if s.refills == [] then (s, None) else
    var b := s.refills[0];
    (s.(refills := s.refills[1..], inflight := s.inflight + [b], bstate := s.bstate[b := BsFilling], ngetr := s.ngetr + 1),
     Some(b))
  }

  /** `getFull` when a full buffer is there; None when it would wait or give up. */
  function GetFull(s: Lists): (r: (Lists, Option<nat>)) {
    if s.refills == [] then (s, None) else
    var b := s.refills[0];
    (s.(refills := s.refills[1..], opens := s.opens + [b], bstate := s.bstate[b := BsFullApp]), Some(b))
  }

  function PutEmpty(s: Lists): (r: Lists) {
    if s.opens == [] then s else
    var b := s.opens[0];
    s.(opens := s.opens[1..], empties := s.empties + [b], bstate := s.bstate[b := BsEmpty])
  }

  function MarkAll(m: map<nat, BState>, bs: seq<nat>, st: BState): (m': map<nat, BState>) {
    m + map b | b in bs :: st
  }

  /** `move_list_to_empty` on each of the lists. */
  function DrainRefills(s: Lists): (r: Lists) {
    s.(refills := [], empties := s.empties + s.refills, bstate := MarkAll(s.bstate, s.refills, BsEmpty))
  }

  function DrainOpens(s: Lists): (r: Lists) {
    s.(opens := [], empties := s.empties + s.opens, bstate := MarkAll(s.bstate, s.opens, BsEmpty))
  }

  function DrainInflight(s: Lists): (r: Lists) {
    s.(inflight := [], empties := s.empties + s.inflight, bstate := MarkAll(s.bstate, s.inflight, BsEmpty))
  }

  /** `list_sort` by buffer index. */
  function Insert(b: nat, bs: seq<nat>): (r: seq<nat>) {
    if bs == [] || b <= bs[0] then [b] + bs else [bs[0]] + Insert(b, bs[1..])
  }

  function Sort(bs: seq<nat>): (r: seq<nat>) {
    if bs == [] then [] else Insert(bs[0], Sort(bs[1..]))
  }

  function SortEmpties(s: Lists): (r: Lists) {
    s.(empties := Sort(s.empties))
  }

  function EmptyLists(s: Lists): (r: Lists) {
    SortEmpties(DrainInflight(DrainRefills(DrainOpens(s))))
  }

  /** `reserve`: take a named buffer out of EMPTIES. */
  function Reserve(s: Lists, b: nat): (r: (Lists, bool)) {
    if b !in s.empties then (s, false)
    else (s.(empties := Without(s.empties, b), reserved := s.reserved + [b], bstate := s.bstate[b := BsReserved]), true)
  }

  function Without(bs: seq<nat>, b: nat): (r: seq<nat>) {
    if bs == [] then [] else if bs[0] == b then bs[1..] else [bs[0]] + Without(bs[1..], b)
  }

  /** `replace_all`: each reserved buffer goes back to the head of EMPTIES, which is then sorted. */
  function ReplaceAll(s: Lists): (r: Lists) {
    SortEmpties(s.(reserved := [], empties := Reverse(s.reserved) + s.empties, bstate := MarkAll(s.bstate, s.reserved, BsEmpty)))
  }

  function Reverse(bs: seq<nat>): (r: seq<nat>) {
    if bs == [] then [] else Reverse(bs[1..]) + [bs[0]]
  }

  /** `acq2006_continuous_start`: everything to EMPTIES, in order, and the counters reset. */
  function Start(s: Lists): (r: Lists) {
    Reset(EmptyLists(s))
  }

  function Reset(s: Lists): (r: Lists) {
    s.(nget := 0, ngetr := 0, nput := 0, getErrors := 0, putErrors := 0, pleaseStop := false)
  }

  // ----- Runs

  /** A step of the producer, the reader, or a client reserving buffers; each is one critical section. */
  datatype Op =
    | OpGetEmpty
    | OpPutFull(runBuffers: nat)
    | OpSteal
    | OpGetFull
    | OpPutEmpty
    | OpDrain
    | OpReserve(b: nat)
    | OpReplaceAll

  function Step(s: Lists, op: Op): (r: Lists) {
    match op
    case OpGetEmpty => GetEmpty(s).0
    case OpPutFull(n) => PutFull(s, n)
    case OpSteal => GetEmptyFromRefills(s).0
    case OpGetFull => GetFull(s).0
    case OpPutEmpty => PutEmpty(s)
    case OpDrain => DrainRefills(s)
    case OpReserve(b) => Reserve(s, b).0
    case OpReplaceAll => ReplaceAll(s)
  }

  function Run(s: Lists, ops: seq<Op>): (r: Lists)
    decreases |ops|
  {
    if ops == [] then s else Run(Step(s, ops[0]), ops[1..])
  }

  // ----- Partition and accounting

  ghost predicate NoDup(bs: seq<nat>) {
    forall i, j :: 0 <= i < j < |bs| ==> bs[i] != bs[j]
  }

  ghost predicate Marked(m: map<nat, BState>, bs: seq<nat>, st: BState) {
    forall i :: 0 <= i < |bs| ==> bs[i] in m && m[bs[i]] == st
  }

  /** A list that repeats no buffer, all in state `st`. */
  ghost predicate Pool(m: map<nat, BState>, bs: seq<nat>, st: BState) {
    NoDup(bs) && Marked(m, bs, st)
  }

  /** Each buffer's state names the list it is in. */
  ghost predicate Pools(s: Lists) {
    && Pool(s.bstate, s.empties, BsEmpty) && Pool(s.bstate, s.inflight, BsFilling)
    && Pool(s.bstate, s.refills, BsFull) && Pool(s.bstate, s.opens, BsFullApp)
    && Pool(s.bstate, s.reserved, BsReserved)
  }

  /** And the counters account for what is in flight. */
  ghost predicate Consistent(s: Lists) {
    Pools(s) && |s.inflight| == s.nget + s.ngetr - s.nput
  }

  /** Then no buffer is in two places. */
  lemma OneList(s: Lists)
    requires Consistent(s)
    ensures NoDup(s.All())
  {
  }

  // Moving buffers between pools

  lemma TakeHead(m: map<nat, BState>, bs: seq<nat>, st: BState, st': BState)
    requires Pool(m, bs, st) && bs != []
    ensures Pool(m[bs[0] := st'], bs[1..], st)
  {
  }

  lemma AddTail(m: map<nat, BState>, bs: seq<nat>, st: BState, b: nat)
    requires Pool(m, bs, st) && b in m && m[b] != st
    ensures Pool(m[b := st], bs + [b], st)
  {
  }

  lemma KeepPool(m: map<nat, BState>, bs: seq<nat>, st: BState, b: nat, st': BState)
    requires Pool(m, bs, st) && b in m && m[b] != st
    ensures Pool(m[b := st'], bs, st)
  {
  }

  lemma AppendPool(m: map<nat, BState>, bs: seq<nat>, st: BState, more: seq<nat>, st': BState)
    requires Pool(m, bs, st) && Pool(m, more, st') && st != st'
    ensures Pool(MarkAll(m, more, st), bs + more, st)
  {
  }

  lemma KeepPoolAll(m: map<nat, BState>, bs: seq<nat>, st: BState, more: seq<nat>, st': BState, st'': BState)
    requires Pool(m, bs, st) && Marked(m, more, st') && st != st'
    ensures Pool(MarkAll(m, more, st''), bs, st)
  {
  }

  lemma GetEmptyConsistent(s: Lists)
    requires Consistent(s)
    ensures Consistent(GetEmpty(s).0)
  {
    if s.empties != [] {
      var b := s.empties[0];
      TakeHead(s.bstate, s.empties, BsEmpty, BsFilling);
      AddTail(s.bstate, s.inflight, BsFilling, b);
      KeepPool(s.bstate, s.refills, BsFull, b, BsFilling);
      KeepPool(s.bstate, s.opens, BsFullApp, b, BsFilling);
      KeepPool(s.bstate, s.reserved, BsReserved, b, BsFilling);
    }
  }

  lemma PutFullConsistent(s: Lists, n: nat)
    requires Consistent(s)
    ensures Consistent(PutFull(s, n))
  {
    if s.inflight != [] {
      var b := s.inflight[0];
      TakeHead(s.bstate, s.inflight, BsFilling, BsFull);
      AddTail(s.bstate, s.refills, BsFull, b);
      KeepPool(s.bstate, s.empties, BsEmpty, b, BsFull);
      KeepPool(s.bstate, s.opens, BsFullApp, b, BsFull);
      KeepPool(s.bstate, s.reserved, BsReserved, b, BsFull);
    }
  }

  lemma StealConsistent(s: Lists)
    requires Consistent(s)
    ensures Consistent(GetEmptyFromRefills(s).0)
  {
    if s.refills != [] {
      var b := s.refills[0];
      TakeHead(s.bstate, s.refills, BsFull, BsFilling);
      AddTail(s.bstate, s.inflight, BsFilling, b);
      KeepPool(s.bstate, s.empties, BsEmpty, b, BsFilling);
      KeepPool(s.bstate, s.opens, BsFullApp, b, BsFilling);
      KeepPool(s.bstate, s.reserved, BsReserved, b, BsFilling);
    }
  }

  lemma GetFullConsistent(s: Lists)
    requires Consistent(s)
    ensures Consistent(GetFull(s).0)
  {
    if s.refills != [] {
      var b := s.refills[0];
      TakeHead(s.bstate, s.refills, BsFull, BsFullApp);
      AddTail(s.bstate, s.opens, BsFullApp, b);
      KeepPool(s.bstate, s.empties, BsEmpty, b, BsFullApp);
      KeepPool(s.bstate, s.inflight, BsFilling, b, BsFullApp);
      KeepPool(s.bstate, s.reserved, BsReserved, b, BsFullApp);
    }
  }

  lemma PutEmptyConsistent(s: Lists)
    requires Consistent(s)
    ensures Consistent(PutEmpty(s))
  {
    if s.opens != [] {
      var b := s.opens[0];
      TakeHead(s.bstate, s.opens, BsFullApp, BsEmpty);
      AddTail(s.bstate, s.empties, BsEmpty, b);
      KeepPool(s.bstate, s.inflight, BsFilling, b, BsEmpty);
      KeepPool(s.bstate, s.refills, BsFull, b, BsEmpty);
      KeepPool(s.bstate, s.reserved, BsReserved, b, BsEmpty);
    }
  }

  lemma DrainConsistent(s: Lists)
    requires Consistent(s)
    ensures Consistent(DrainRefills(s))
  {
    DrainRefillsPools(s);
  }

  // ----- Sorting, reserving and replacing

  lemma MultisetNoDup(bs: seq<nat>)
    ensures NoDup(bs) <==> forall b :: multiset(bs)[b] <= 1
  {
    if NoDup(bs) {
      forall b
        ensures multiset(bs)[b] <= 1
      {
        OccursOnce(bs, b);
      }
    } else {
      var i, j :| 0 <= i < j < |bs| && bs[i] == bs[j];
      OccursTwice(bs, i, j);
    }
  }

  lemma OccursTwice(bs: seq<nat>, i: nat, j: nat)
    requires i < j < |bs| && bs[i] == bs[j]
    ensures multiset(bs)[bs[i]] >= 2
  {
    var x := bs[i];
    assert bs == bs[..j] + bs[j..];
    assert x in bs[..j] && x in bs[j..];
    assert multiset(bs)[x] == multiset(bs[..j])[x] + multiset(bs[j..])[x];
  }

  lemma {:induction false} OccursOnce(bs: seq<nat>, b: nat)
    requires NoDup(bs)
    ensures multiset(bs)[b] <= 1
  {
    if bs != [] {
      assert bs == [bs[0]] + bs[1..];
      OccursOnce(bs[1..], b);
      assert bs[0] !in bs[1..];
    }
  }

  lemma SamePool(m: map<nat, BState>, bs: seq<nat>, bs': seq<nat>, st: BState)
    requires multiset(bs) == multiset(bs') && Pool(m, bs, st)
    ensures Pool(m, bs', st)
  {
    MultisetNoDup(bs);
    MultisetNoDup(bs');
    forall i | 0 <= i < |bs'|
      ensures bs'[i] in m && m[bs'[i]] == st
    {
      assert bs'[i] in multiset(bs');
      assert bs'[i] in bs;
    }
  }

  ghost predicate Ascending(bs: seq<nat>) {
    forall i, j :: 0 <= i < j < |bs| ==> bs[i] <= bs[j]
  }

  lemma {:induction false} InsertKeeps(b: nat, bs: seq<nat>)
    ensures multiset(Insert(b, bs)) == multiset(bs) + multiset{b}
  {
    if bs == [] || b <= bs[0] {
    } else {
      InsertKeeps(b, bs[1..]);
      assert bs == [bs[0]] + bs[1..];
    }
  }

  lemma {:induction false} InsertAscends(b: nat, bs: seq<nat>)
    requires Ascending(bs)
    ensures Ascending(Insert(b, bs))
    ensures forall lo :: lo <= b && (bs == [] || lo <= bs[0]) ==> AtLeast(Insert(b, bs), lo)
  {
    if bs == [] || b <= bs[0] {
    } else {
      InsertAscends(b, bs[1..]);
      assert AtLeast(Insert(b, bs[1..]), bs[0]);
    }
  }

  ghost predicate AtLeast(bs: seq<nat>, lo: int) {
    forall i :: 0 <= i < |bs| ==> lo <= bs[i]
  }

  /** Sorting EMPTIES loses no buffer and puts them in index order. */
  lemma {:induction false} SortSorts(bs: seq<nat>)
    ensures Ascending(Sort(bs)) && multiset(Sort(bs)) == multiset(bs)
  {
    if bs != [] {
      SortSorts(bs[1..]);
      InsertKeeps(bs[0], Sort(bs[1..]));
      InsertAscends(bs[0], Sort(bs[1..]));
      assert bs == [bs[0]] + bs[1..];
    }
  }

  lemma {:induction false} ReverseKeeps(bs: seq<nat>)
    ensures multiset(Reverse(bs)) == multiset(bs)
  {
    if bs != [] {
      ReverseKeeps(bs[1..]);
      assert bs == [bs[0]] + bs[1..];
    }
  }

  lemma {:induction false} WithoutTakes(bs: seq<nat>, b: nat)
    requires b in bs
    ensures multiset(Without(bs, b)) + multiset{b} == multiset(bs)
  {
    assert bs == [bs[0]] + bs[1..];
    if bs[0] != b {
      WithoutTakes(bs[1..], b);
    }
  }

  lemma ReservedPools(m: map<nat, BState>, es: seq<nat>, rs: seq<nat>, b: nat)
    requires Pool(m, es, BsEmpty) && Pool(m, rs, BsReserved) && b in es
    ensures Pool(m[b := BsReserved], Without(es, b), BsEmpty) && Pool(m[b := BsReserved], rs + [b], BsReserved)
  {
    WithoutTakes(es, b);
    assert multiset([b] + Without(es, b)) == multiset(es);
    SamePool(m, es, [b] + Without(es, b), BsEmpty);
    TakeHead(m, [b] + Without(es, b), BsEmpty, BsReserved);
    assert ([b] + Without(es, b))[1..] == Without(es, b);
    AddTail(m, rs, BsReserved, b);
  }

  lemma ReserveConsistent(s: Lists, b: nat)
    requires Consistent(s)
    ensures Consistent(Reserve(s, b).0)
  {
    if b in s.empties {
      ReservedPools(s.bstate, s.empties, s.reserved, b);
      KeepPool(s.bstate, s.inflight, BsFilling, b, BsReserved);
      KeepPool(s.bstate, s.refills, BsFull, b, BsReserved);
      KeepPool(s.bstate, s.opens, BsFullApp, b, BsReserved);
    }
  }

  lemma ReplacedPool(m: map<nat, BState>, es: seq<nat>, rs: seq<nat>)
    requires Pool(m, es, BsEmpty) && Pool(m, rs, BsReserved)
    ensures multiset(Sort(Reverse(rs) + es)) == multiset(es + rs)
    ensures Pool(MarkAll(m, rs, BsEmpty), Sort(Reverse(rs) + es), BsEmpty)
  {
    ReverseKeeps(rs);
    SortSorts(Reverse(rs) + es);
    AppendPool(m, es, BsEmpty, rs, BsReserved);
    SamePool(MarkAll(m, rs, BsEmpty), es + rs, Sort(Reverse(rs) + es), BsEmpty);
  }

  lemma ReplaceAllConsistent(s: Lists)
    requires Consistent(s)
    ensures Consistent(ReplaceAll(s))
  {
    var m, rs := s.bstate, s.reserved;
    ReplacedPool(m, s.empties, rs);
    KeepPoolAll(m, s.inflight, BsFilling, rs, BsReserved, BsEmpty);
    KeepPoolAll(m, s.refills, BsFull, rs, BsReserved, BsEmpty);
    KeepPoolAll(m, s.opens, BsFullApp, rs, BsReserved, BsEmpty);
  }

  // ----- Whole runs

  lemma StepConsistent(s: Lists, op: Op)
    requires Consistent(s)
    ensures Consistent(Step(s, op))
  {
    match op
    case OpGetEmpty => GetEmptyConsistent(s);
    case OpPutFull(n) => PutFullConsistent(s, n);
    case OpSteal => StealConsistent(s);
    case OpGetFull => GetFullConsistent(s);
    case OpPutEmpty => PutEmptyConsistent(s);
    case OpDrain => DrainConsistent(s);
    case OpReserve(b) => ReserveConsistent(s, b);
    case OpReplaceAll => ReplaceAllConsistent(s);
  }

  /** How often a buffer occurs in all the lists together. */
  ghost function Occurrences(s: Lists, b: nat): (n: nat) {
    multiset(s.refills)[b] + multiset(s.inflight)[b] + multiset(s.empties)[b] + multiset(s.opens)[b] + multiset(s.reserved)[b]
  }

  lemma MoveHead(from: seq<nat>, to: seq<nat>, b: nat)
    requires from != []
    ensures multiset(from[1..])[b] + multiset(to + [from[0]])[b] == multiset(from)[b] + multiset(to)[b]
  {
    assert from == [from[0]] + from[1..];
  }

  lemma GetEmptyKeepsBuffers(s: Lists, b: nat)
    ensures Occurrences(GetEmpty(s).0, b) == Occurrences(s, b)
  {
    if s.empties != [] {
      MoveHead(s.empties, s.inflight, b);
    }
  }

  lemma PutFullKeepsBuffers(s: Lists, n: nat, b: nat)
    ensures Occurrences(PutFull(s, n), b) == Occurrences(s, b)
  {
    if s.inflight != [] {
      MoveHead(s.inflight, s.refills, b);
    }
  }

  lemma StealKeepsBuffers(s: Lists, b: nat)
    ensures Occurrences(GetEmptyFromRefills(s).0, b) == Occurrences(s, b)
  {
    if s.refills != [] {
      MoveHead(s.refills, s.inflight, b);
    }
  }

  lemma GetFullKeepsBuffers(s: Lists, b: nat)
    ensures Occurrences(GetFull(s).0, b) == Occurrences(s, b)
  {
    if s.refills != [] {
      MoveHead(s.refills, s.opens, b);
    }
  }

  lemma PutEmptyKeepsBuffers(s: Lists, b: nat)
    ensures Occurrences(PutEmpty(s), b) == Occurrences(s, b)
  {
    if s.opens != [] {
      MoveHead(s.opens, s.empties, b);
    }
  }

  lemma DrainKeepsBuffers(s: Lists, b: nat)
    ensures Occurrences(DrainRefills(s), b) == Occurrences(s, b)
  {
  }

  lemma ReserveKeepsBuffers(s: Lists, x: nat, b: nat)
    ensures Occurrences(Reserve(s, x).0, b) == Occurrences(s, b)
  {
    if x in s.empties {
      WithoutTakes(s.empties, x);
      assert multiset(Without(s.empties, x))[b] + multiset{x}[b] == multiset(s.empties)[b];
      assert multiset(s.reserved + [x])[b] == multiset(s.reserved)[b] + multiset{x}[b];
    }
  }

  lemma ReplaceKeepsBuffers(s: Lists, b: nat)
    requires Consistent(s)
    ensures Occurrences(ReplaceAll(s), b) == Occurrences(s, b)
  {
    ReplacedPool(s.bstate, s.empties, s.reserved);
  }

  /** No step creates or loses a buffer. */
  lemma StepKeepsBuffers(s: Lists, op: Op, b: nat)
    requires Consistent(s)
    ensures Occurrences(Step(s, op), b) == Occurrences(s, b)
  {
    match op
    case OpGetEmpty => GetEmptyKeepsBuffers(s, b);
    case OpPutFull(n) => PutFullKeepsBuffers(s, n, b);
    case OpSteal => StealKeepsBuffers(s, b);
    case OpGetFull => GetFullKeepsBuffers(s, b);
    case OpPutEmpty => PutEmptyKeepsBuffers(s, b);
    case OpDrain => DrainKeepsBuffers(s, b);
    case OpReserve(x) => ReserveKeepsBuffers(s, x, b);
    case OpReplaceAll => ReplaceKeepsBuffers(s, b);
  }

  /**
    In every reachable state each buffer is in exactly one list, its state names that list, and what is in
    flight is what was taken and not yet put.
   */
  lemma {:induction false} RunConsistent(s: Lists, ops: seq<Op>)
    requires Consistent(s)
    ensures Consistent(Run(s, ops)) && NoDup(Run(s, ops).All())
    ensures forall b: nat :: Occurrences(Run(s, ops), b) == Occurrences(s, b)
    decreases |ops|
  {
    if ops == [] {
      OneList(s);
    } else {
      StepConsistent(s, ops[0]);
      RunConsistent(Step(s, ops[0]), ops[1..]);
      forall b: nat
        ensures Occurrences(Run(s, ops), b) == Occurrences(s, b)
      {
        StepKeepsBuffers(s, ops[0], b);
      }
    }
  }

  // ----- The counters

  /** Steps of a run taken on a list that had nothing to give, or had. */
  ghost function Taken(s: Lists, ops: seq<Op>, counts: (Lists, Op) -> bool): (n: nat)
    decreases |ops|
  {
    if ops == [] then 0 else Taken(Step(s, ops[0]), ops[1..], counts) + if counts(s, ops[0]) then 1 else 0
  }

  /** Each counter counts one kind of step: buffers got, got from full ones and put, and failures to get and to put. */
  lemma {:induction false} CountersCount(s: Lists, ops: seq<Op>)
    ensures var t := Run(s, ops);
      && t.nget == s.nget + Taken(s, ops, (u: Lists, op: Op) => op.OpGetEmpty? && u.empties != [])
      && t.ngetr == s.ngetr + Taken(s, ops, (u: Lists, op: Op) => op.OpSteal? && u.refills != [])
      && t.nput == s.nput + Taken(s, ops, (u: Lists, op: Op) => op.OpPutFull? && u.inflight != [])
      && t.getErrors == s.getErrors + Taken(s, ops, (u: Lists, op: Op) => op.OpGetEmpty? && u.empties == [])
      && t.putErrors == s.putErrors + Taken(s, ops, (u: Lists, op: Op) => op.OpPutFull? && u.inflight == [])
    decreases |ops|
  {
    if ops != [] {
      CountersCount(Step(s, ops[0]), ops[1..]);
    }
  }

  /** A run limited to `n` buffers is told to stop exactly when so many have been put, and one with no limit never is. */
  lemma {:induction false} StopsIff(s: Lists, ops: seq<Op>, n: nat)
    requires forall i :: 0 <= i < |ops| && ops[i].OpPutFull? ==> ops[i].runBuffers == n
    requires s.pleaseStop <==> 0 < n <= s.nput
    ensures Run(s, ops).pleaseStop <==> 0 < n <= Run(s, ops).nput
    decreases |ops|
  {
    if ops != [] {
      assert ops[0] == ops[..][0];
      StopsIff(Step(s, ops[0]), ops[1..], n);
    }
  }

  // ----- The start of a run

  lemma DrainOpensPools(s: Lists)
    requires Pools(s)
    ensures Pools(DrainOpens(s))
  {
    var m, bs := s.bstate, s.opens;
    AppendPool(m, s.empties, BsEmpty, bs, BsFullApp);
    KeepPoolAll(m, s.inflight, BsFilling, bs, BsFullApp, BsEmpty);
    KeepPoolAll(m, s.refills, BsFull, bs, BsFullApp, BsEmpty);
    KeepPoolAll(m, s.reserved, BsReserved, bs, BsFullApp, BsEmpty);
  }

  lemma DrainRefillsPools(s: Lists)
    requires Pools(s)
    ensures Pools(DrainRefills(s))
  {
    var m, bs := s.bstate, s.refills;
    AppendPool(m, s.empties, BsEmpty, bs, BsFull);
    KeepPoolAll(m, s.inflight, BsFilling, bs, BsFull, BsEmpty);
    KeepPoolAll(m, s.opens, BsFullApp, bs, BsFull, BsEmpty);
    KeepPoolAll(m, s.reserved, BsReserved, bs, BsFull, BsEmpty);
  }

  lemma DrainInflightPools(s: Lists)
    requires Pools(s)
    ensures Pools(DrainInflight(s))
  {
    var m, bs := s.bstate, s.inflight;
    AppendPool(m, s.empties, BsEmpty, bs, BsFilling);
    KeepPoolAll(m, s.refills, BsFull, bs, BsFilling, BsEmpty);
    KeepPoolAll(m, s.opens, BsFullApp, bs, BsFilling, BsEmpty);
    KeepPoolAll(m, s.reserved, BsReserved, bs, BsFilling, BsEmpty);
  }

  lemma EmptyListsPools(s: Lists)
    requires Pools(s)
    ensures Pools(EmptyLists(s))
  {
    var s1 := DrainOpens(s);
    var s2 := DrainRefills(s1);
    var s3 := DrainInflight(s2);
    DrainOpensPools(s);
    DrainRefillsPools(s1);
    DrainInflightPools(s2);
    SortSorts(s3.empties);
    SamePool(s3.bstate, s3.empties, Sort(s3.empties), BsEmpty);
  }

  lemma EmptyListsEmpties(s: Lists)
    ensures var t := EmptyLists(s);
      && t.inflight == t.refills == t.opens == [] && t.reserved == s.reserved
      && Ascending(t.empties) && multiset(t.empties) == multiset(s.empties + s.opens + s.refills + s.inflight)
  {
    SortSorts(s.empties + s.opens + s.refills + s.inflight);
  }

  lemma CycleBuffers(s: Lists)
    ensures multiset(s.Cycle()) == multiset(s.empties + s.opens + s.refills + s.inflight)
  {
  }

  lemma ResetConsistent(t: Lists)
    requires Pools(t) && t.inflight == t.refills == t.opens == []
    ensures Consistent(Reset(t)) && Reset(t).Cycle() == t.empties
  {
    assert [] + [] + t.empties + [] == t.empties;
  }

  /** However the last run was left, a start finds every buffer not reserved in EMPTIES, in index order. */
  lemma StartConsistent(s: Lists)
    requires Pools(s)
    ensures var t := Start(s);
      && Consistent(t) && Ascending(t.Cycle()) && t.reserved == s.reserved
      && t.empties == t.Cycle() && t.nget == t.ngetr == t.nput == t.getErrors == t.putErrors == 0 && !t.pleaseStop
      && multiset(t.Cycle()) == multiset(s.Cycle())
  {
    EmptyListsPools(s);
    EmptyListsEmpties(s);
    CycleBuffers(s);
    ResetConsistent(EmptyLists(s));
  }
}
