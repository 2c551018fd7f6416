/**
  The queues of buffer numbers kept for the readers of /dev/acq400.0.bq: the BQ_ functions of acq400_structs.h,
  `acq400_bq_notify` of acq400_drv.c and `acq400_bq_read` of acq400_ui.c.
 */
module BufferQueue {
  import opened Arith
  import opened Bits
  import opened Options

  // ----- The circular queue

  function Incr(cursor: nat, len: nat): (c: nat)
    requires 0 < len
  {
    And(cursor + 1, len - 1)
  }

  /** `CIRC_CNT`. */
  function Cnt(head: nat, tail: nat, len: nat): (n: nat)
    requires 0 < len
  {
    And(head - tail, len - 1)
  }

  /** `CIRC_SPACE`. */
  function Space(head: nat, tail: nat, len: nat): (n: nat)
    requires 0 < len
  {
    Cnt(tail, head + 1, len)
  }

  /** Where `i` places on from `tail` is. */
  function Place(tail: nat, i: nat, len: nat): (p: nat)
    requires tail < len
  {
    if tail + i < len then tail + i else if tail + i < 2 * len then tail + i - len else 0
  }

  lemma Masks(head: nat, tail: nat, len: nat, k: nat)
    requires len == Pow2(k) && head < len && tail < len
    ensures Cnt(head, tail, len) == (if tail <= head then head - tail else head - tail + len)
    ensures Space(head, tail, len) == len - 1 - Cnt(head, tail, len)
    ensures Incr(head, len) == Place(head, 1, len)
  {
    AndMask(head - tail, k);
    AndMask(tail - (head + 1), k);
    AndMask(head + 1, k);
    DivModUnique(head - tail, if tail <= head then 0 else -1, if tail <= head then head - tail else head - tail + len, len);
    DivModUnique(tail - head - 1, if head < tail then 0 else -1, if head < tail then tail - head - 1 else tail - head - 1 + len, len);
    DivModUnique(head + 1, if head + 1 < len then 0 else 1, if head + 1 < len then head + 1 else 0, len);
  }

  class Bq {
    const buf: array<nat>
    ghost const k: nat
    var head: nat
    var tail: nat

    ghost predicate Valid()
      reads this
    {
      buf.Length == Pow2(k) && 2 <= buf.Length && head < buf.Length && tail < buf.Length
    }

    /** The numbers waiting, oldest first. */
    ghost function Contents(): (q: seq<nat>)
      requires Valid()
      reads this, buf
    {
      QueueOf(buf[..], head, tail)
    }

    constructor (len: nat, ghost k: nat)
      requires len == Pow2(k) && 2 <= len
      ensures Valid() && Contents() == [] && buf.Length == len && fresh(buf)
    {
      buf := new nat[len];
      this.k, head, tail := k, 0, 0;
    }

    method Count() returns (n: nat)
      requires Valid()
      ensures n == |Contents()| < buf.Length
    {
      Masks(head, tail, buf.Length, k);
      n := Cnt(head, tail, buf.Length);
    }

    method SpaceLeft() returns (n: nat)
      requires Valid()
      ensures n == buf.Length - 1 - |Contents()|
    {
      Masks(head, tail, buf.Length, k);
      n := Space(head, tail, buf.Length);
    }

    /** `BQ_put`; on a full queue it loses everything. */
    method Put(item: nat)
      requires Valid()
      modifies this`head, buf
      ensures Valid()
      ensures Contents() == if |old(Contents())| == buf.Length - 1 then [] else old(Contents()) + [item]
    {
      Masks(head, tail, buf.Length, k);
      QueuePut(buf[..], head, tail, item);
      buf[head] := item;
      head := Incr(head, buf.Length);
    }

    /** `BQ_get_st`. */
    method Get() returns (item: Option<nat>)
      requires Valid()
      modifies this`tail
      ensures Valid()
      ensures old(Contents()) == [] ==> item == None && Contents() == []
      ensures old(Contents()) != [] ==> item == Some(old(Contents())[0]) && Contents() == old(Contents())[1..]
    {
      Masks(tail, tail, buf.Length, k);
      if head == tail {
        return None;
      }
      QueueGet(buf[..], head, tail);
      item := Some(buf[tail]);
      tail := Incr(tail, buf.Length);
    }

    method Clear()
      requires Valid()
      modifies this`head, this`tail
      ensures Valid() && Contents() == []
    {
      head, tail := 0, 0;
    }

    /** What `acq400_bq_notify` does for one client. */
    method Notify(nbuffers: nat, ix: nat) returns (overrun: bool)
      requires Valid()
      modifies this, buf
      ensures Valid()
      ensures (Contents(), overrun) == Notified(buf.Length, nbuffers, old(Contents()), ix)
    {
      var th := nbuffers - 2;
      var nq := Count();
      var space := SpaceLeft();
      overrun := space < 1 || nq > th;
      if overrun {
        Clear();
      }
      Put(ix);
      assert [] + [ix] == [ix];
    }

    /** One event, and what the client reads at it. */
    method Turn(nbuffers: nat, e: Event) returns (read: seq<nat>, overrun: bool)
      requires Valid()
      modifies this, buf
      ensures Valid() && overrun == (e.Notify? && Notified(buf.Length, nbuffers, old(Contents()), e.ix).1)
      ensures read == if e.Read? && old(Contents()) != [] then [old(Contents())[0]] else []
      ensures forall n: nat :: Client(Contents(), n + if overrun then 1 else 0) ==
                               Step(buf.Length, nbuffers, Client(old(Contents()), n), e)
    {
      read, overrun := [], false;
      match e {
        case Notify(ix) =>
          overrun := Notify(nbuffers, ix);
        case Read =>
          var item := Get();
          if item.Some? {
            read := [item.value];
          }
      }
    }

    /** A client's whole life: every number notified is read, waiting, or lost at a counted overrun. */
    method Serve(nbuffers: nat, es: seq<Event>)
      returns (taken: seq<nat>, overruns: nat, ghost eps: seq<Epoch>, ghost read: seq<nat>)
      requires Valid() && 2 <= nbuffers && |Contents()| <= Capacity(buf.Length, nbuffers)
      modifies this, buf
      ensures Valid() && |Contents()| <= Capacity(buf.Length, nbuffers)
      ensures var c := Client(old(Contents()), 0);
        && Client(Contents(), overruns) == Run(buf.Length, nbuffers, c, es) && taken == Reads(buf.Length, nbuffers, c, es)
        && Accounts(buf.Length, nbuffers, c, es, eps, read)
    {
      ghost var c := Client(Contents(), 0);
      taken, overruns := [], 0;
      assert es[0..] == es;
      for k := 0 to |es|
        invariant Valid()
        invariant Run(buf.Length, nbuffers, Client(Contents(), overruns), es[k..]) == Run(buf.Length, nbuffers, c, es)
        invariant taken + Reads(buf.Length, nbuffers, Client(Contents(), overruns), es[k..]) == Reads(buf.Length, nbuffers, c, es)
      {
        assert es[k..][0] == es[k] && es[k..][1..] == es[k + 1..];
        var r, overrun := Turn(nbuffers, es[k]);
        taken := taken + r;
        overruns := overruns + if overrun then 1 else 0;
      }
      eps, read := EveryNoticeAccounted(buf.Length, nbuffers, c, es);
    }
  }

  ghost function Waiting(head: nat, tail: nat, len: nat): (n: nat)
    requires head < len && tail < len
  {
    if tail <= head then head - tail else head - tail + len
  }

  ghost function QueueOf(b: seq<nat>, head: nat, tail: nat): (q: seq<nat>)
    requires head < |b| && tail < |b|
  {
    seq(Waiting(head, tail, |b|), i requires 0 <= i < Waiting(head, tail, |b|) => b[Place(tail, i, |b|)])
  }

  lemma QueuePut(b: seq<nat>, head: nat, tail: nat, item: nat)
    requires head < |b| && tail < |b|
    ensures QueueOf(b[head := item], Place(head, 1, |b|), tail) ==
            if |QueueOf(b, head, tail)| == |b| - 1 then [] else QueueOf(b, head, tail) + [item]
  {
  }

  lemma QueueGet(b: seq<nat>, head: nat, tail: nat)
    requires head < |b| && tail < |b| && head != tail
    ensures QueueOf(b, head, tail) == [b[tail]] + QueueOf(b, head, Place(tail, 1, |b|))
  {
  }

  // ----- A client over a whole run

  /** Contents after a notification, and whether it overran. */
  function Notified(len: nat, nbuffers: nat, q: seq<nat>, ix: nat): (r: (seq<nat>, bool)) {
    if len - 1 - |q| < 1 || |q| > nbuffers - 2 then ([ix], true) else (q + [ix], false)
  }

  /** The most that can wait in a queue. */
  function Capacity(len: nat, nbuffers: nat): (n: int) {
    (if len < nbuffers then len else nbuffers) - 1
  }

  datatype Event = Notify(ix: nat) | Read

  datatype Client = Client(q: seq<nat>, overruns: nat)

  function Step(len: nat, nbuffers: nat, c: Client, e: Event): (c': Client) {
    match e
    case Notify(ix) =>
      var (q, overrun) := Notified(len, nbuffers, c.q, ix);
      Client(q, c.overruns + if overrun then 1 else 0)
    case Read => if c.q == [] then c else c.(q := c.q[1..])
  }

  function Run(len: nat, nbuffers: nat, c: Client, es: seq<Event>): (c': Client)
    decreases |es|
  {
    if es == [] then c else Run(len, nbuffers, Step(len, nbuffers, c, es[0]), es[1..])
  }

  /** The numbers notified. */
  function Notices(es: seq<Event>): (ns: seq<nat>) {
    if es == [] then [] else (if es[0].Notify? then [es[0].ix] else []) + Notices(es[1..])
  }

  /** The numbers read; a read of an empty queue waits, and takes nothing. */
  function Reads(len: nat, nbuffers: nat, c: Client, es: seq<Event>): (rs: seq<nat>)
    decreases |es|
  {
    if es == [] then [] else
    (if es[0].Read? && c.q != [] then [c.q[0]] else []) + Reads(len, nbuffers, Step(len, nbuffers, c, es[0]), es[1..])
  }

  /** Between one overrun and the next: what was read, and what was waiting and was lost. */
  datatype Epoch = Epoch(read: seq<nat>, lost: seq<nat>)

  function AllOf(eps: seq<Epoch>): (ns: seq<nat>) {
    if eps == [] then [] else eps[0].read + eps[0].lost + AllOf(eps[1..])
  }

  function ReadOf(eps: seq<Epoch>): (ns: seq<nat>) {
    if eps == [] then [] else eps[0].read + ReadOf(eps[1..])
  }

  ghost predicate EachLoses(eps: seq<Epoch>, n: int) {
    forall i :: 0 <= i < |eps| ==> |eps[i].lost| == n
  }

  /** Of `ns`, `rs` were read and `q` is waiting: the epochs that overruns ended, and what was read since the last. */
  ghost predicate Conserved(ns: seq<nat>, rs: seq<nat>, q: seq<nat>, eps: seq<Epoch>, read: seq<nat>) {
    ns == AllOf(eps) + read + q && rs == ReadOf(eps) + read
  }

  /** The account of a run. */
  ghost predicate Accounts(len: nat, nbuffers: nat, c: Client, es: seq<Event>, eps: seq<Epoch>, read: seq<nat>) {
    var c' := Run(len, nbuffers, c, es);
    && c'.overruns == c.overruns + |eps| && EachLoses(eps, Capacity(len, nbuffers))
    && Conserved(c.q + Notices(es), Reads(len, nbuffers, c, es), c'.q, eps, read)
  }

  ghost predicate Within(len: nat, nbuffers: nat, c: Client) {
    2 <= len && 2 <= nbuffers && |c.q| <= Capacity(len, nbuffers)
  }

  lemma WithinStep(len: nat, nbuffers: nat, c: Client, e: Event)
    requires Within(len, nbuffers, c)
    ensures Within(len, nbuffers, Step(len, nbuffers, c, e))
  {
  }

  /** An account with one more number read at its start. */
  lemma ReadFirst(x: nat, eps: seq<Epoch>, read: seq<nat>) returns (eps': seq<Epoch>, read': seq<nat>)
    ensures AllOf(eps') + read' == [x] + (AllOf(eps) + read) && ReadOf(eps') + read' == [x] + (ReadOf(eps) + read)
    ensures |eps'| == |eps| && forall n :: EachLoses(eps, n) ==> EachLoses(eps', n)
  {
    if eps == [] {
      eps', read' := eps, [x] + read;
      assert [] + ([x] + read) == [x] + ([] + read);
    } else {
      var e, rest := eps[0], eps[1..];
      eps', read' := [Epoch([x] + e.read, e.lost)] + rest, read;
      assert eps'[1..] == rest;
      assert [x] + e.read + e.lost + AllOf(rest) + read == [x] + (e.read + e.lost + AllOf(rest) + read);
      assert [x] + e.read + ReadOf(rest) + read == [x] + (e.read + ReadOf(rest) + read);
    }
  }

  lemma ReadConserves(x: nat, ns: seq<nat>, rs: seq<nat>, q: seq<nat>, eps: seq<Epoch>, read: seq<nat>)
    returns (eps': seq<Epoch>, read': seq<nat>)
    requires Conserved(ns, rs, q, eps, read)
    ensures Conserved([x] + ns, [x] + rs, q, eps', read')
    ensures |eps'| == |eps| && forall n :: EachLoses(eps, n) ==> EachLoses(eps', n)
  {
    eps', read' := ReadFirst(x, eps, read);
    assert [x] + (AllOf(eps) + read + q) == ([x] + (AllOf(eps) + read)) + q;
  }

  lemma OverrunConserves(q0: seq<nat>, ns: seq<nat>, rs: seq<nat>, q: seq<nat>, eps: seq<Epoch>, read: seq<nat>)
    requires Conserved(ns, rs, q, eps, read)
    ensures Conserved(q0 + ns, rs, q, [Epoch([], q0)] + eps, read)
  {
    var eps' := [Epoch([], q0)] + eps;
    assert eps'[1..] == eps;
    assert AllOf(eps') == q0 + AllOf(eps) && ReadOf(eps') == ReadOf(eps);
    assert q0 + (AllOf(eps) + read + q) == (q0 + AllOf(eps)) + read + q;
  }

  lemma {:induction false} NoticesStep(len: nat, nbuffers: nat, c: Client, es: seq<Event>)
    requires es != []
    ensures var c1 := Step(len, nbuffers, c, es[0]); var ns := c.q + Notices(es);
      && (es[0].Notify? && !Notified(len, nbuffers, c.q, es[0].ix).1 ==> ns == c1.q + Notices(es[1..]))
      && (es[0].Notify? && Notified(len, nbuffers, c.q, es[0].ix).1 ==> ns == c.q + (c1.q + Notices(es[1..])))
      && (es[0].Read? && c.q != [] ==> ns == [c.q[0]] + (c1.q + Notices(es[1..])))
      && (es[0].Read? && c.q == [] ==> ns == c1.q + Notices(es[1..]))
  {
    var ns := Notices(es[1..]);
    if es[0].Notify? {
      assert Notices(es) == [es[0].ix] + ns;
      assert c.q + ([es[0].ix] + ns) == (c.q + [es[0].ix]) + ns;
    } else {
      assert Notices(es) == ns;
      if c.q != [] {
        assert c.q + ns == [c.q[0]] + (c.q[1..] + ns);
      }
    }
  }

  /** An account of all but the first event, extended to it. */
  lemma AccountsStep(len: nat, nbuffers: nat, c: Client, es: seq<Event>, eps0: seq<Epoch>, read0: seq<nat>)
    returns (eps: seq<Epoch>, read: seq<nat>)
    requires es != [] && Within(len, nbuffers, c)
    requires Accounts(len, nbuffers, Step(len, nbuffers, c, es[0]), es[1..], eps0, read0)
    ensures Accounts(len, nbuffers, c, es, eps, read)
  {
    var c1 := Step(len, nbuffers, c, es[0]);
    var ns, rs, q := c1.q + Notices(es[1..]), Reads(len, nbuffers, c1, es[1..]), Run(len, nbuffers, c, es).q;
    NoticesStep(len, nbuffers, c, es);
    eps, read := eps0, read0;
    if es[0].Read? && c.q != [] {
      eps, read := ReadConserves(c.q[0], ns, rs, q, eps0, read0);
    } else if es[0].Notify? && Notified(len, nbuffers, c.q, es[0].ix).1 {
      OverrunConserves(c.q, ns, rs, q, eps0, read0);
      eps := [Epoch([], c.q)] + eps0;
    }
  }

  /**
    Whatever the interleaving, every number notified is read, is still waiting, or was lost at a counted
    overrun, in the order of notification; and each overrun loses exactly a full queue.
   */
  lemma {:induction false} EveryNoticeAccounted(len: nat, nbuffers: nat, c: Client, es: seq<Event>)
    returns (eps: seq<Epoch>, read: seq<nat>)
    requires Within(len, nbuffers, c)
    ensures Accounts(len, nbuffers, c, es, eps, read)
    ensures Within(len, nbuffers, Run(len, nbuffers, c, es))
    decreases |es|
  {
    if es == [] {
      eps, read := [], [];
    } else {
      var c1 := Step(len, nbuffers, c, es[0]);
      WithinStep(len, nbuffers, c, es[0]);
      eps, read := EveryNoticeAccounted(len, nbuffers, c1, es[1..]);
      eps, read := AccountsStep(len, nbuffers, c, es, eps, read);
    }
  }

  /** A new client's queue is always the last part of what was notified, within capacity; with no overrun nothing is skipped. */
  lemma QueueIsSuffix(len: nat, nbuffers: nat, es: seq<Event>)
    requires 2 <= len && 2 <= nbuffers
    ensures var c := Run(len, nbuffers, Client([], 0), es);
      && |c.q| <= Capacity(len, nbuffers) && |c.q| <= |Notices(es)|
      && c.q == Notices(es)[|Notices(es)| - |c.q|..]
      && (c.overruns == 0 ==> Reads(len, nbuffers, Client([], 0), es) + c.q == Notices(es))
  {
    var eps, read := EveryNoticeAccounted(len, nbuffers, Client([], 0), es);
    var q, ns := Run(len, nbuffers, Client([], 0), es).q, Notices(es);
    assert [] + ns == ns;
    assert ns == (AllOf(eps) + read) + q;
    assert ns[|ns| - |q|..] == q;
  }
}
