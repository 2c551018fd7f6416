/** The list operations as the driver performs them, on the device's own lists: acq400_lists.c. */
module Device {
  import opened HostBuffers
  import opened RingOrder
  import opened Options

  datatype ListId = Opens | Refills | Inflight

  /** Outcomes of `getFull`. */
  datatype FullResult = Full(b: nat) | Interrupted | Waiting | Done | RefillError

  class AcqDevice {
    var empties: seq<nat>
    var inflight: seq<nat>
    var refills: seq<nat>
    var opens: seq<nat>
    var reserved: seq<nat>
    var bstate: map<nat, BState>
    var nget: nat
    var ngetr: nat
    var nput: nat
    var getErrors: nat
    var putErrors: nat
    var pleaseStop: bool

    ghost function State(): (s: Lists)
      reads this
    {
      Lists(empties, inflight, refills, opens, reserved, bstate, nget, ngetr, nput, getErrors, putErrors, pleaseStop)
    }

    constructor (bs: seq<nat>)
      requires NoDup(bs)
      ensures Consistent(State()) && State().Cycle() == bs && reserved == []
    {
      empties, inflight, refills, opens, reserved := bs, [], [], [], [];
      bstate := map b | b in bs :: BsEmpty;
      nget, ngetr, nput, getErrors, putErrors, pleaseStop := 0, 0, 0, 0, 0, false;
      new;
      assert [] + [] + bs + [] == bs;
    }

    method GetEmpty() returns (hbm: Option<nat>)
      modifies this
      ensures (State(), hbm) == HostBuffers.GetEmpty(old(State()))
    {
      if empties != [] {
        var b := empties[0];
        empties, inflight := empties[1..], inflight + [b];
        bstate := bstate[b := BsFilling];
        nget := nget + 1;
        hbm := Some(b);
      } else {
        getErrors := getErrors + 1;
        hbm := None;
      }
    }

    method PutFull(runBuffers: nat)
      modifies this
      ensures State() == HostBuffers.PutFull(old(State()), runBuffers)
    {
      if inflight != [] {
        var b := inflight[0];
        bstate := bstate[b := BsFull];
        inflight, refills := inflight[1..], refills + [b];
        nput := nput + 1;
        if runBuffers > 0 && nput >= runBuffers {
          pleaseStop := true;
        }
      } else {
        putErrors := putErrors + 1;
      }
    }

    method GetEmptyFromRefills() returns (hbm: Option<nat>)
      modifies this
      ensures (State(), hbm) == HostBuffers.GetEmptyFromRefills(old(State()))
    {
      if refills != [] {
        var b := refills[0];
        refills, inflight := refills[1..], inflight + [b];
        bstate := bstate[b := BsFilling];
        ngetr := ngetr + 1;
        hbm := Some(b);
      } else {
        hbm := None;
      }
    }

    /** `getFull` up to the point where it may have to wait. */
    method GetFull(wait: bool) returns (rc: FullResult)
      modifies this
      ensures State() == HostBuffers.GetFull(old(State())).0
      ensures rc == match HostBuffers.GetFull(old(State())).1
                    case Some(b) => Full(b)
                    case None => if wait then Waiting else Interrupted
      ensures rc.Full? <==> old(refills) != []
      ensures rc.Full? ==> opens == old(opens) + [rc.b] && [rc.b] == Given(old(State()), OpGetFull)
    {
      if refills == [] {
        rc := if wait then Waiting else Interrupted;
      } else {
        var b := refills[0];
        refills, opens := refills[1..], opens + [b];
        bstate := bstate[b := BsFullApp];
        rc := Full(b);
      }
    }

    /** `getFull` after the wait; a stop or an error takes precedence over a full buffer. */
    method WokenFull(refillError: bool) returns (rc: FullResult)
      modifies this
      ensures pleaseStop ==> rc == Done && State() == old(State())
      ensures !pleaseStop && refillError ==> rc == RefillError && State() == old(State())
      ensures !pleaseStop && !refillError ==>
        && State() == HostBuffers.GetFull(old(State())).0
        && (rc == match HostBuffers.GetFull(old(State())).1 case Some(b) => Full(b) case None => Waiting)
      ensures rc.Full? ==> opens == old(opens) + [rc.b] && [rc.b] == Given(old(State()), OpGetFull)
    {
      if pleaseStop {
        rc := Done;
      } else if refillError {
        rc := RefillError;
      } else {
        rc := GetFull(true);
      }
    }

    method PutEmpty()
      requires opens != []
      modifies this
      ensures State() == HostBuffers.PutEmpty(old(State()))
    {
      var b := opens[0];
      bstate := bstate[b := BsEmpty];
      opens, empties := opens[1..], empties + [b];
    }

    /** The buffers the reader gives back before it asks for another, in `acq400_continuous_read`. */
    method PutBacklog(openBacklog: nat)
      modifies this
      ensures State() == Run(old(State()), PutEmpties(if |old(opens)| > openBacklog then |old(opens)| - openBacklog else 0))
      ensures |opens| <= openBacklog
    {
      var backlog := |opens|;
      ghost var n := 0;
      while backlog > openBacklog
        invariant backlog == |opens| && n + |opens| == |old(opens)|
        invariant n > 0 ==> |opens| >= openBacklog
        invariant State() == Run(old(State()), PutEmpties(n))
        decreases backlog
      {
        RunOneMore(old(State()), n);
        PutEmpty();
        backlog, n := backlog - 1, n + 1;
      }
    }

    /** The loop of `move_list_to_empty`. */
    method AppendToEmpties(list: seq<nat>)
      modifies this`empties, this`bstate
      ensures empties == old(empties) + list && bstate == MarkAll(old(bstate), list, BsEmpty)
    {
      assert bstate == MarkAll(bstate, [], BsEmpty);
      for k := 0 to |list|
        invariant empties == old(empties) + list[..k]
        invariant bstate == MarkAll(old(bstate), list[..k], BsEmpty)
      {
        MarkNext(old(bstate), list, k, BsEmpty);
        bstate := bstate[list[k] := BsEmpty];
        empties := empties + [list[k]];
      }
      assert list[..|list|] == list;
    }

    /** `move_list_to_empty`, on the list named. */
    method MoveListToEmpty(elist: ListId)
      modifies this
      ensures State() == match elist
                         case Opens => DrainOpens(old(State()))
                         case Refills => DrainRefills(old(State()))
                         case Inflight => DrainInflight(old(State()))
    {
      match elist {
        case Opens =>
          AppendToEmpties(opens);
          opens := [];
        case Refills =>
          AppendToEmpties(refills);
          refills := [];
        case Inflight =>
          AppendToEmpties(inflight);
          inflight := [];
      }
    }

    method EmptyLists()
      modifies this
      ensures State() == HostBuffers.EmptyLists(old(State()))
    {
      MoveListToEmpty(Opens);
      MoveListToEmpty(Refills);
      MoveListToEmpty(Inflight);
      empties := Sort(empties);
    }

    /** `_reserve` on EMPTIES: find the buffer and take it out. */
    method Reserve(ibuf: nat) returns (found: bool)
      modifies this
      ensures (State(), found) == HostBuffers.Reserve(old(State()), ibuf)
    {
      for i := 0 to |empties|
        invariant State() == old(State())
        invariant ibuf !in empties[..i]
      {
        if empties[i] == ibuf {
          WithoutAt(empties, i, ibuf);
          bstate := bstate[ibuf := BsReserved];
          empties, reserved := empties[..i] + empties[i + 1..], reserved + [ibuf];
          return true;
        }
      }
      return false;
    }

    /** Any one of the critical sections, and the number the reader is told; with nothing open it has nothing to give back. */
    method Perform(op: Op) returns (told: seq<nat>)
      modifies this
      ensures State() == Step(old(State()), op) && told == Given(old(State()), op)
    {
      told := [];
      match op {
        case OpGetEmpty =>
          var b := GetEmpty();
        case OpPutFull(n) =>
          PutFull(n);
        case OpSteal =>
          var b := GetEmptyFromRefills();
        case OpGetFull =>
          var rc := GetFull(false);
          if rc.Full? {
            told := [rc.b];
          }
        case OpPutEmpty =>
          if opens != [] {
            PutEmpty();
          }
        case OpDrain =>
          MoveListToEmpty(Refills);
        case OpReserve(b) =>
          var found := Reserve(b);
        case OpReplaceAll =>
          ReplaceAll();
      }
    }

    /**
      And any run of them: what is proved of runs holds of the device, and the numbers that the reader is told are those
      of the buffers it is given, round and round the ring if the run is orderly.
     */
    method PerformAll(ops: seq<Op>) returns (told: seq<nat>)
      requires Consistent(State())
      modifies this
      ensures State() == Run(old(State()), ops) && Consistent(State())
      ensures NoDup(State().All()) && forall b: nat :: Occurrences(State(), b) == Occurrences(old(State()), b)
      ensures told == Delivered(old(State()), ops)
      ensures OrderlyRun(old(State()), ops) ==> Follows(told, old(State()).Cycle())
    {
      told := [];
      ghost var s := State();
      assert ops[0..] == ops;
      for k := 0 to |ops|
        invariant Run(State(), ops[k..]) == Run(s, ops) && told + Delivered(State(), ops[k..]) == Delivered(s, ops)
      {
        assert ops[k..][0] == ops[k] && ops[k..][1..] == ops[k + 1..];
        var t := Perform(ops[k]);
        told := told + t;
      }
      RunConsistent(s, ops);
      if OrderlyRun(s, ops) {
        ReaderFollowsRing(s, ops);
      }
    }

    /** The loop of `replace_all`: back to the head of EMPTIES one by one. */
    method PrependToEmpties(list: seq<nat>)
      modifies this`empties, this`bstate
      ensures empties == Reverse(list) + old(empties) && bstate == MarkAll(old(bstate), list, BsEmpty)
    {
      assert bstate == MarkAll(bstate, [], BsEmpty);
      for k := 0 to |list|
        invariant empties == Reverse(list[..k]) + old(empties)
        invariant bstate == MarkAll(old(bstate), list[..k], BsEmpty)
      {
        ReverseNext(list, k);
        MarkNext(old(bstate), list, k, BsEmpty);
        bstate := bstate[list[k] := BsEmpty];
        empties := [list[k]] + empties;
      }
      assert list[..|list|] == list;
    }

    /** `replace_all`, and the sort that follows. */
    method ReplaceAll()
      modifies this
      ensures State() == HostBuffers.ReplaceAll(old(State()))
    {
      ghost var s := State();
      PrependToEmpties(reserved);
      reserved := [];
      assert State() == s.(reserved := [], empties := Reverse(s.reserved) + s.empties, bstate := MarkAll(s.bstate, s.reserved, BsEmpty));
      empties := Sort(empties);
    }
  }

  lemma MarkNext(m: map<nat, BState>, list: seq<nat>, k: nat, st: BState)
    requires k < |list|
    ensures MarkAll(m, list[..k], st)[list[k] := st] == MarkAll(m, list[..k + 1], st)
  {
    assert list[..k + 1] == list[..k] + [list[k]];
  }

  /** The steps of a reader that gives `n` buffers back. */
  ghost function PutEmpties(n: nat): (ops: seq<Op>) {
    seq(n, _ => OpPutEmpty)
  }

  lemma {:induction false} RunOneMore(s: Lists, n: nat)
    ensures Run(s, PutEmpties(n + 1)) == Step(Run(s, PutEmpties(n)), OpPutEmpty)
    decreases n
  {
    assert PutEmpties(n + 1)[1..] == PutEmpties(n);
    if n > 0 {
      RunOneMore(Step(s, OpPutEmpty), n - 1);
      assert PutEmpties(n)[1..] == PutEmpties(n - 1);
    }
  }

  lemma {:induction false} WithoutAt(bs: seq<nat>, i: nat, b: nat)
    requires i < |bs| && bs[i] == b && b !in bs[..i]
    ensures Without(bs, b) == bs[..i] + bs[i + 1..]
  {
    if i > 0 {
      var rest := bs[1..];
      assert bs[..i][0] == bs[0];
      assert bs[..i] == [bs[0]] + rest[..i - 1];
      assert rest[i..] == bs[i + 1..];
      WithoutAt(rest, i - 1, b);
    }
  }

  lemma {:induction false} ReverseNext(bs: seq<nat>, k: nat)
    requires k < |bs|
    ensures Reverse(bs[..k + 1]) == [bs[k]] + Reverse(bs[..k])
  {
    if k > 0 {
      var rest := bs[1..];
      ReverseNext(rest, k - 1);
      assert bs[..k + 1][1..] == rest[..k];
      assert bs[..k][1..] == rest[..k - 1];
    } else {
      assert bs[..1][1..] == [];
    }
  }
}
