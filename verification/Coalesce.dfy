/** Joining host buffers into larger ones: `coalesce_buffers` of acq400_drv.c. */
module Coalesce {
  import opened Arith
  import opened Bits

  datatype Hbm = Hbm(ix: nat, pa: nat, len: nat) {
    function End(): (a: nat) {
      pa + len
    }
  }

  /** One round: buffers are taken two by two, joined if the second begins where the first ends, else dropped. */
  function Joined(list: seq<Hbm>): (out: seq<Hbm>) {
    if |list| < 2 then [] else
    var b0, b1 := list[0], list[1];
    (if b1.pa == b0.End() then [b0.(len := b0.len + b1.len)] else []) + Joined(list[2..])
  }

  /** Disjoint, in order of address. */
  ghost predicate InOrder(list: seq<Hbm>) {
    forall i, j :: 0 <= i < j < |list| ==> list[i].End() <= list[j].pa
  }

  /** `b` is the union of inputs `i` and `i + 1`, end to end. */
  ghost predicate Union(list: seq<Hbm>, i: nat, b: Hbm) {
    i + 1 < |list| && list[i].End() == list[i + 1].pa && b.pa == list[i].pa && b.End() == list[i + 1].End()
  }

  ghost predicate IsUnion(list: seq<Hbm>, b: Hbm) {
    exists i: nat :: Union(list, i, b)
  }

  ghost predicate FromInputs(list: seq<Hbm>, out: seq<Hbm>) {
    forall k :: 0 <= k < |out| ==> IsUnion(list, out[k])
  }

  ghost predicate AtOrAbove(out: seq<Hbm>, a: nat) {
    forall k :: 0 <= k < |out| ==> a <= out[k].pa
  }

  /** Each result is the union of two neighbours among the inputs. */
  lemma {:induction false} JoinedFromInputs(list: seq<Hbm>)
    ensures FromInputs(list, Joined(list))
    decreases |list|
  {
    if |list| >= 2 {
      var out, rest := Joined(list), Joined(list[2..]);
      JoinedFromInputs(list[2..]);
      forall k | 0 <= k < |out|
        ensures IsUnion(list, out[k])
      {
        var j := k - (|out| - |rest|);
        if j >= 0 {
          assert out[k] == rest[j];
          assert IsUnion(list[2..], rest[j]);
          var i: nat :| Union(list[2..], i, rest[j]);
          assert Union(list, i + 2, out[k]);
        } else {
          assert Union(list, 0, out[k]);
        }
      }
    }
  }

  /** From buffers in order, a round leaves buffers in order. */
  lemma {:induction false} JoinedInOrder(list: seq<Hbm>, a: nat)
    requires InOrder(list) && AtOrAbove(list, a)
    ensures InOrder(Joined(list)) && AtOrAbove(Joined(list), a)
    decreases |list|
  {
    if |list| >= 2 {
      JoinedInOrder(list[2..], list[1].End());
    }
  }

  /** Inputs `2k` and `2k + 1` are end to end. */
  ghost predicate Meets(list: seq<Hbm>, k: nat) {
    2 * k + 1 < |list| && list[2 * k].End() == list[2 * k + 1].pa
  }

  ghost predicate PairUnion(list: seq<Hbm>, k: nat, b: Hbm) {
    Meets(list, k) && b == Hbm(list[2 * k].ix, list[2 * k].pa, list[2 * k].len + list[2 * k + 1].len)
  }

  /** How many of the first `n` pairs do. */
  ghost function Meetings(list: seq<Hbm>, n: nat): (m: nat) {
    if n == 0 then 0 else Meetings(list, n - 1) + if Meets(list, n - 1) then 1 else 0
  }

  lemma {:induction false} MeetingsLater(list: seq<Hbm>, n: nat)
    requires 2 <= |list|
    ensures Meetings(list, n + 1) == (if Meets(list, 0) then 1 else 0) + Meetings(list[2..], n)
  {
    if n > 0 {
      MeetingsLater(list, n - 1);
      MeetsLater(list, n - 1);
    } else {
      assert Meetings(list, 0) == 0;
    }
  }

  lemma MeetsLater(list: seq<Hbm>, k: nat)
    requires 2 <= |list|
    ensures Meets(list, k + 1) <==> Meets(list[2..], k)
    ensures forall b :: PairUnion(list, k + 1, b) <==> PairUnion(list[2..], k, b)
  {
    if 2 * k + 1 < |list[2..]| {
      assert list[2..][2 * k] == list[2 * (k + 1)] && list[2..][2 * k + 1] == list[2 * (k + 1) + 1];
    }
  }

  /** Every pair that is end to end is joined, whatever the pairs before it were, and nothing else is kept. */
  lemma {:induction false} JoinedExactly(list: seq<Hbm>, b: Hbm)
    ensures |Joined(list)| == Meetings(list, |list| / 2)
    ensures b in Joined(list) <==> exists k: nat :: PairUnion(list, k, b)
    decreases |list|
  {
    if |list| >= 2 {
      var rest := list[2..];
      JoinedExactly(rest, b);
      MeetingsLater(list, |rest| / 2);
      if k: nat :| PairUnion(rest, k, b) {
        MeetsLater(list, k);
        assert PairUnion(list, k + 1, b);
      }
      if k: nat :| PairUnion(list, k, b) {
        if k > 0 {
          MeetsLater(list, k - 1);
          assert PairUnion(rest, k - 1, b);
        }
      }
      assert PairUnion(list, 0, b) <==> Meets(list, 0) && b == Joined(list)[0];
    }
  }

  // ----- Rounds

  function Rounds(list: seq<Hbm>, f: nat): (out: seq<Hbm>)
    decreases f
  {
    if f == 0 then list else Rounds(Joined(list), f - 1)
  }

  ghost predicate AllLen(list: seq<Hbm>, len: nat) {
    forall i :: 0 <= i < |list| ==> list[i].len == len
  }

  lemma {:induction false} JoinedLen(list: seq<Hbm>, len: nat)
    requires AllLen(list, len)
    ensures AllLen(Joined(list), 2 * len)
    decreases |list|
  {
    if |list| >= 2 {
      JoinedLen(list[2..], len);
    }
  }

  lemma Doubled(f: nat, len: nat)
    requires 0 < f
    ensures Pow2(f) * len == Pow2(f - 1) * (2 * len)
  {
  }

  /** After `f` rounds over buffers of one length, in order, all are in order and `2^f` times as long. */
  lemma {:induction false} RoundsDouble(list: seq<Hbm>, len: nat, f: nat)
    requires AllLen(list, len) && InOrder(list)
    ensures AllLen(Rounds(list, f), Pow2(f) * len) && InOrder(Rounds(list, f))
    decreases f
  {
    if f > 0 {
      JoinedLen(list, len);
      JoinedInOrder(list, 0);
      RoundsDouble(Joined(list), 2 * len, f - 1);
      Doubled(f, len);
    }
  }

  /** `n` buffers of one length, end to end from `pa`, their numbers `step` apart. */
  ghost function Row(ix: nat, step: nat, pa: nat, len: nat, n: nat): (list: seq<Hbm>)
    decreases n
  {
    if n == 0 then [] else [Hbm(ix, pa, len)] + Row(ix + step, step, pa + len, len, n - 1)
  }

  lemma {:induction false} RowJoined(ix: nat, step: nat, pa: nat, len: nat, n: nat)
    ensures Joined(Row(ix, step, pa, len, n)) == Row(ix, 2 * step, pa, 2 * len, n / 2)
    decreases n
  {
    if n >= 2 {
      var list := Row(ix, step, pa, len, n);
      var tail := Row(ix + step, step, pa + len, len, n - 1);
      var rest := Row(ix + step + step, step, pa + len + len, len, n - 2);
      assert list == [Hbm(ix, pa, len)] + tail;
      assert tail == [Hbm(ix + step, pa + len, len)] + rest;
      assert list[2..] == rest;
      RowJoined(ix + 2 * step, step, pa + 2 * len, len, n - 2);
    } else if n == 1 {
      assert Row(ix + step, step, pa + len, len, 0) == [];
    }
  }

  /**
    Of `n` buffers end to end, `f` rounds make `n / 2^f` that are still end to end: only a tail too short for
    one more is given up.
   */
  lemma {:induction false} RowRounds(ix: nat, step: nat, pa: nat, len: nat, n: nat, f: nat, step': nat, len': nat, n': nat)
    requires step' == Pow2(f) * step && len' == Pow2(f) * len && n' == n / Pow2(f)
    ensures Rounds(Row(ix, step, pa, len, n), f) == Row(ix, step', pa, len', n')
    decreases f
  {
    if f > 0 {
      RowJoined(ix, step, pa, len, n);
      Doubled(f, len);
      Doubled(f, step);
      HalfThenMore(n, Pow2(f - 1));
      RowRounds(ix, 2 * step, pa, 2 * len, n / 2, f - 1, step', len', n');
    }
  }

  lemma HalfThenMore(n: nat, m: nat)
    requires 0 < m
    ensures n / (2 * m) == (n / 2) / m
  {
    var h := n / 2;
    var q, r := h / m, h % m;
    assert h == q * m + r;
    assert q * (2 * m) == 2 * (q * m);
    DivModUnique(n, q, n % 2 + 2 * r, 2 * m);
  }

  // ----- The code

  /** The length of the first buffer that has any. */
  function FirstLen(list: seq<Hbm>): (n: nat) {
    if list == [] then 0 else if list[0].len != 0 then list[0].len else FirstLen(list[1..])
  }

  lemma {:induction false} FirstLenNext(list: seq<Hbm>, b: Hbm)
    ensures FirstLen(list + [b]) == if FirstLen(list) == 0 then b.len else FirstLen(list)
  {
    if list != [] {
      assert (list + [b])[1..] == list[1..] + [b];
      FirstLenNext(list[1..], b);
    }
  }

  /** None before buffer `k` has a length, and it has. */
  ghost predicate FirstWithLen(list: seq<Hbm>, k: nat) {
    k < |list| && list[k].len != 0 && forall i :: 0 <= i < k ==> list[i].len == 0
  }

  lemma {:induction false} FirstLenIs(list: seq<Hbm>)
    ensures FirstLen(list) == 0 <==> AllLen(list, 0)
    ensures forall k: nat :: FirstWithLen(list, k) ==> FirstLen(list) == list[k].len
  {
    if list != [] {
      FirstLenIs(list[1..]);
      forall k: nat | FirstWithLen(list, k)
        ensures FirstLen(list) == list[k].len
      {
        if k > 0 {
          assert list[0].len == 0 && FirstWithLen(list[1..], k - 1);
        }
      }
      assert AllLen(list, 0) <==> list[0].len == 0 && AllLen(list[1..], 0) by {
        assert list == [list[0]] + list[1..];
      }
    }
  }

  /** From buffers of one length the parameter is that of the buffers made, if any are. */
  lemma BufferlenIs(list: seq<Hbm>, len: nat, f: nat)
    requires AllLen(list, len) && InOrder(list) && 0 < len
    ensures FirstLen(Rounds(list, f)) == if Rounds(list, f) == [] then 0 else Pow2(f) * len
  {
    var out := Rounds(list, f);
    RoundsDouble(list, len, f);
    FirstLenIs(out);
    MulLe(1, Pow2(f), len);
    if out != [] {
      assert FirstWithLen(out, 0);
    }
  }

  class Device {
    var empties: seq<Hbm>
    var nbuffers: nat
    var bufferlen: nat

    /** `_coalesce_buffers`: what is joined goes to EMPTIES, the module parameters follow. */
    method CoalesceOnce(tmp: seq<Hbm>)
      requires empties == []
      modifies this
      ensures empties == Joined(tmp) && nbuffers == |empties|
      ensures bufferlen == FirstLen(empties)
    {
      var nb, bl := 0, 0;
      var b0: Hbm := Hbm(0, 0, 0);
      var haveB0 := false;
      for i := 0 to |tmp|
        invariant nb == |empties|
        invariant haveB0 ==> 0 < i && b0 == tmp[i - 1]
        invariant bl == FirstLen(empties)
        invariant var at := if haveB0 then i - 1 else i; Joined(tmp) == empties + Joined(tmp[at..])
      {
        var cur := tmp[i];
        if !haveB0 {
          b0, haveB0 := cur, true;
        } else {
          assert tmp[i - 1..][2..] == tmp[i + 1..];
          if cur.pa == b0.End() {
            b0 := b0.(len := b0.len + cur.len);
            FirstLenNext(empties, b0);
            empties := empties + [b0];
            nb := nb + 1;
            if bl == 0 {
              bl := b0.len;
            }
          }
          haveB0 := false;
        }
      }
      nbuffers, bufferlen := nb, bl;
    }

    /** `coalesce_buffers`. */
    method CoalesceBuffers(factor: nat)
      modifies this
      ensures empties == Rounds(old(empties), factor)
      ensures factor > 0 ==> nbuffers == |empties| && bufferlen == FirstLen(empties)
      ensures factor == 0 ==> nbuffers == old(nbuffers) && bufferlen == old(bufferlen)
      decreases factor
    {
      if factor > 0 {
        var tmp := empties;
        empties := [];
        CoalesceOnce(tmp);
        CoalesceBuffers(factor - 1);
      }
    }
  }
}
