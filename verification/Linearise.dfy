/**
  Unwrapping a pre/post window that crosses the corner of the buffer ring:
  `BufferSeq` and `BufferDistribution::sortToLinearBuffer` of acq400_stream.cpp.
 */
module Linearise {
  import opened Arith
  import opened MapBuffers
  import opened Options

  datatype BsState = Unknown | Empty | Pre | Post | Es

  /** The label of one buffer; its position in the vector is the buffer number. */
  datatype BufferSeq = BufferSeq(state: BsState, iseq: nat, esp: Option<int>)

  // ----- Buffer contents

  ghost function Window(m: seq<Word>, base: nat, len: nat): (w: seq<Word>) {
    if base + len <= |m| then m[base..base + len] else []
  }

  ghost function Block(g: Geometry, m: seq<Word>, b: nat): (w: seq<Word>) {
    Window(m, b * g.Len(), g.Len())
  }

  /** Memory seen as its buffers. */
  ghost function Blocks(g: Geometry, m: seq<Word>): (bs: seq<seq<Word>>) {
    seq(g.nbuffers, b requires 0 <= b => Block(g, m, b))
  }

  /** Different buffers do not overlap, and every buffer lies inside the mapping. */
  lemma BuffersApart(g: Geometry, b: nat, c: nat)
    requires g.Valid() && b < g.nbuffers
    ensures b * g.Len() + g.Len() <= g.Hi()
    ensures b < c ==> b * g.Len() + g.Len() <= c * g.Len()
    ensures c < b ==> c * g.Len() + g.Len() <= b * g.Len()
  {
    MulDistrib(b, 1, g.Len());
    MulDistrib(c, 1, g.Len());
    MulLe(b + 1, g.nbuffers, g.Len());
    if b < c {
      MulLe(b + 1, c, g.Len());
    } else if c < b {
      MulLe(c + 1, b, g.Len());
    }
  }

  lemma CopiedWindow(m: seq<Word>, to: nat, from: nat, len: nat, base: nat)
    requires to + len <= |m| && from + len <= |m| && base + len <= |m|
    requires base + len <= to || base == to || to + len <= base
    ensures Window(Copied(m, to, from, len), base, len) == Window(m, if base == to then from else base, len)
  {
  }

  lemma CopiedBlock(g: Geometry, m: seq<Word>, m': seq<Word>, to: nat, from: nat, b: nat)
    requires g.Valid() && |m| == g.Hi() && to < g.nbuffers && from < g.nbuffers && b < g.nbuffers
    requires m' == Copied(m, to * g.Len(), from * g.Len(), g.Len())
    ensures Block(g, m', b) == Block(g, m, if b == to then from else b)
  {
    var len, d, f, x := g.Len(), to * g.Len(), from * g.Len(), b * g.Len();
    assert d + len <= |m| && f + len <= |m| && x + len <= |m| && (if b == to then x == d else x + len <= d || d + len <= x) by {
      BuffersApart(g, from, to);
      BuffersApart(g, to, b);
      BuffersApart(g, b, to);
    }
    CopiedWindow(m, d, f, len, x);
  }

  lemma CopiedBlocks(g: Geometry, m: seq<Word>, to: nat, from: nat)
    requires g.Valid() && |m| == g.Hi() && to < g.nbuffers && from < g.nbuffers
    ensures Blocks(g, Copied(m, to * g.Len(), from * g.Len(), g.Len())) == Blocks(g, m)[to := Blocks(g, m)[from]]
  {
    var m' := Copied(m, to * g.Len(), from * g.Len(), g.Len());
    forall b: nat | b < g.nbuffers
      ensures Block(g, m', b) == Block(g, m, if b == to then from else b)
    {
      CopiedBlock(g, m, m', to, from, b);
    }
  }

  // ----- Labels

  /** The two labelled ranges: buffers `first..nbuffers-1`, then `RESERVED..fin`. `ibEsp` holds the event. */
  datatype Span = Span(nbuffers: nat, first: nat, fin: nat, ibEsp: nat, esp: nat) {
    ghost predicate Valid() {
      RESERVED <= first < nbuffers && RESERVED <= fin && RESERVED <= ibEsp < nbuffers
    }

    ghost predicate Disjoint() {
      fin < first
    }

    /** Number of labels given out. */
    function Count(): (n: int) {
      nbuffers - first + fin - RESERVED + 1
    }

    /** The buffer that holds part `k` of the window, counted from 1 in ring order. */
    function Source(k: nat): (b: int) {
      if k <= nbuffers - first then first + k - 1 else RESERVED + k - 1 - (nbuffers - first)
    }

    function UpperLabel(ib: nat): (l: BufferSeq)
      requires first <= ib
    {
      BufferSeq(if ib < ibEsp then Pre else if ib == ibEsp then Es else Post, ib - first + 1,
                if ib == ibEsp then Some(esp) else None)
    }

    function LowerLabel(ib: nat): (l: BufferSeq)
      requires RESERVED <= ib && first <= nbuffers
    {
      BufferSeq(if ibEsp < fin && ib < ibEsp then Pre else if ib == ibEsp then Es else Post,
                nbuffers - first + ib - RESERVED + 1,
                if ib == ibEsp then Some(esp) else None)
    }

    /** The label buffer `ib` ends up with; a lower label replaces an upper one. */
    function Label(ib: nat): (l: BufferSeq)
      requires first <= nbuffers
    {
      if RESERVED <= ib <= fin then LowerLabel(ib)
      else if first <= ib then UpperLabel(ib)
      else BufferSeq(Unknown, 0, None)
    }

    ghost predicate Labelled(ib: nat) {
      RESERVED <= ib <= fin || first <= ib < nbuffers
    }

    /** The buffer in position `p`, `k` or above, when parts 1..k-1 have been swapped into place. */
    function Left(k: nat, p: nat): (b: nat) {
      if k <= 1 then p else
      var b := Left(k - 1, p);
      if b == Source(k - 1) then Left(k - 1, k - 1) else b
    }

    /** The buffer that the sort leaves just above the window. */
    function Above(): (b: nat) {
      if Count() < 0 then 0 else Left(Count() + 1, Count() + 1)
    }

    /** From buffer `p`, `n` times on to the position that the buffer's label names. */
    function Chain(p: nat, n: nat): (b: nat)
      requires first <= nbuffers
    {
      if n == 0 then p else Label(Chain(p, n - 1)).iseq
    }

    ghost predicate Leads(p: nat, b: nat)
      requires first <= nbuffers
    {
      exists n: nat :: Chain(p, n) == b
    }
  }

  ghost predicate AllLabelled(sp: Span, ls: seq<BufferSeq>)
    requires sp.first <= sp.nbuffers
  {
    forall ib: nat :: ib < |ls| ==> ls[ib] == sp.Label(ib)
  }

  method LabelBuffers(sp: Span) returns (ok: bool, mm: array<BufferSeq>)
    requires sp.Valid()
    ensures fresh(mm) && mm.Length == sp.nbuffers
    ensures ok == (sp.fin < sp.nbuffers)
    ensures ok ==> AllLabelled(sp, mm[..])
  {
    mm := new BufferSeq[sp.nbuffers](_ => BufferSeq(Unknown, 0, None));
    for ib := sp.first to sp.nbuffers
      invariant forall i: nat :: i < mm.Length ==>
        mm[i] == if sp.first <= i < ib then sp.UpperLabel(i) else BufferSeq(Unknown, 0, None)
    {
      mm[ib] := sp.UpperLabel(ib);
    }
    if sp.fin >= sp.nbuffers {
      return false, mm;
    }
    for ib := RESERVED to sp.fin + 1
      invariant forall i: nat :: i < mm.Length ==>
        mm[i] == if RESERVED <= i < ib then sp.LowerLabel(i)
                 else if sp.first <= i then sp.UpperLabel(i) else BufferSeq(Unknown, 0, None)
    {
      mm[ib] := sp.LowerLabel(ib);
    }
    ok := true;
  }

  method FindSeq(mm: array<BufferSeq>, iseq: nat) returns (r: int)
    ensures -1 <= r < mm.Length
    ensures 0 <= r ==> mm[r].iseq == iseq
    ensures forall i :: 0 <= i < (if r < 0 then mm.Length else r) ==> mm[i].iseq != iseq
  {
    for i := 0 to mm.Length
      invariant forall j :: 0 <= j < i ==> mm[j].iseq != iseq
    {
      if mm[i].iseq == iseq {
        return i;
      }
    }
    return -1;
  }

  method FindEs(mm: array<BufferSeq>) returns (r: int)
    ensures -1 <= r < mm.Length
    ensures 0 <= r ==> mm[r].state == Es
    ensures forall i :: 0 <= i < (if r < 0 then mm.Length else r) ==> mm[i].state != Es
  {
    for i := 0 to mm.Length
      invariant forall j :: 0 <= j < i ==> mm[j].state != Es
    {
      if mm[i].state == Es {
        return i;
      }
    }
    return -1;
  }

  /** Each label 1..Count() is on exactly one buffer, its `Source`, when the ranges do not overlap. */
  lemma LabelUnique(sp: Span, b: nat, k: nat)
    requires sp.Valid() && sp.Disjoint() && b < sp.nbuffers && 1 <= k <= sp.Count()
    ensures sp.Label(b).iseq == k <==> b == sp.Source(k)
    ensures RESERVED <= sp.Source(k) < sp.nbuffers && sp.Labelled(sp.Source(k))
  {
  }

  /**
    The state is about the event's buffer and no other; with the event above the corner the states go Pre, Es, Post along
    the window, and with it below the buffers above the corner are marked Post, though they come before it.
   */
  lemma LabelStates(sp: Span, b: nat)
    requires sp.Valid() && sp.Disjoint() && sp.Labelled(b) && sp.Labelled(sp.ibEsp)
    ensures sp.Label(b).state == Es <==> b == sp.ibEsp
    ensures sp.Label(b).esp == if b == sp.ibEsp then Some(sp.esp) else None
    ensures sp.first <= sp.ibEsp ==> (sp.Label(b).state == Pre <==> sp.Label(b).iseq < sp.Label(sp.ibEsp).iseq)
    ensures sp.ibEsp <= sp.fin && sp.first <= b ==> sp.Label(b).state == Post && sp.Label(b).iseq < sp.Label(sp.ibEsp).iseq
    ensures sp.ibEsp < sp.fin && b <= sp.fin ==> (sp.Label(b).state == Pre <==> sp.Label(b).iseq < sp.Label(sp.ibEsp).iseq)
    ensures sp.ibEsp == sp.fin && b < sp.fin ==> sp.Label(b).state == Post
  {
  }

  /** When the ranges overlap, label 1 has been replaced and is on no buffer. */
  lemma LabelLost(sp: Span, b: nat)
    requires sp.Valid() && !sp.Disjoint() && b < sp.nbuffers
    ensures sp.Label(b).iseq != 1
  {
  }

  // ----- What is left above the window

  lemma {:induction false} LeftWithin(sp: Span, k: nat, p: nat)
    requires sp.first <= sp.nbuffers && 1 <= k <= p < sp.nbuffers
    ensures 1 <= sp.Left(k, p) < sp.nbuffers
  {
    if k > 1 {
      LeftWithin(sp, k - 1, p);
      LeftWithin(sp, k - 1, k - 1);
    }
  }

  lemma {:induction false} LeftApart(sp: Span, k: nat, p: nat, q: nat)
    requires 1 <= k <= p < q
    ensures sp.Left(k, p) != sp.Left(k, q)
  {
    if k > 1 {
      LeftApart(sp, k - 1, p, q);
      LeftApart(sp, k - 1, k - 1, p);
      LeftApart(sp, k - 1, k - 1, q);
    }
  }

  /** A part that has been placed is no longer above. */
  lemma {:induction false} LeftBeyond(sp: Span, k: nat, p: nat, j: nat)
    requires 1 <= j < k <= p
    ensures sp.Left(k, p) != sp.Source(j)
  {
    LeftApart(sp, k - 1, k - 1, p);
    if j < k - 1 {
      LeftBeyond(sp, k - 1, p, j);
      LeftBeyond(sp, k - 1, k - 1, j);
    }
  }

  lemma {:induction false} ChainOn(sp: Span, p: nat, n: nat, n': nat)
    requires sp.first <= sp.nbuffers
    ensures sp.Chain(p, n + n') == sp.Chain(sp.Chain(p, n), n')
  {
    if n' > 0 {
      ChainOn(sp, p, n, n' - 1);
      assert n + n' - 1 == n + (n' - 1);
    }
  }

  lemma {:induction false} LeftOnChain(sp: Span, k: nat, p: nat) returns (n: nat)
    requires sp.Valid() && sp.Disjoint() && 1 <= k <= sp.Count() + 1 && k <= p < sp.nbuffers
    ensures sp.Left(k, p) == sp.Chain(p, n)
  {
    n := 0;
    if k > 1 {
      n := LeftOnChain(sp, k - 1, p);
      var b := sp.Left(k - 1, p);
      if b == sp.Source(k - 1) {
        LabelUnique(sp, b, k - 1);
        var n' := LeftOnChain(sp, k - 1, k - 1);
        assert sp.Chain(p, n + 1) == k - 1;
        ChainOn(sp, p, n + 1, n');
        n := n + 1 + n';
      }
    }
  }

  /** The buffer left above the window is where the labels lead from there: the one with no label. */
  lemma AboveIsChainEnd(sp: Span)
    requires sp.Valid() && sp.Disjoint()
    ensures sp.Count() + 1 < sp.nbuffers && 1 <= sp.Above() < sp.nbuffers && !sp.Labelled(sp.Above())
    ensures sp.Leads(sp.Count() + 1, sp.Above())
  {
    var k, b := sp.Count() + 1, sp.Above();
    var n := LeftOnChain(sp, k, k);
    LeftWithin(sp, k, k);
    if sp.Labelled(b) {
      var j := sp.Label(b).iseq;
      LabelUnique(sp, b, j);
      LeftBeyond(sp, k, k, j);
    }
  }

  lemma {:induction false} LeftAlone(sp: Span, k: nat, p: nat)
    requires sp.Valid() && sp.Disjoint() && 1 <= k <= sp.Count() + 1 && !sp.Labelled(p) && p < sp.nbuffers
    ensures sp.Left(k, p) == p
  {
    if k > 1 {
      LeftAlone(sp, k - 1, p);
      LabelUnique(sp, p, k - 1);
    }
  }

  /** On a full ring it is reserved buffer 1; below the first labelled buffer nothing has been moved. */
  lemma AboveCases(sp: Span)
    requires sp.Valid() && sp.Disjoint()
    ensures sp.fin + 1 == sp.first ==> sp.Above() == 1
    ensures sp.Count() + 1 < sp.first ==> sp.Above() == sp.Count() + 1
  {
    AboveIsChainEnd(sp);
    if sp.Count() + 1 < sp.first {
      LeftAlone(sp, sp.Count() + 1, sp.Count() + 1);
    }
  }

  // ----- Moving buffers

  /** A label carried from buffer `from` to buffer `to`: the event pointer moves with the data. */
  function Moved(g: Geometry, l: BufferSeq, from: nat, to: nat): (l': BufferSeq) {
    if l.esp.Some? then l.(esp := Some(l.esp.value + to * g.Len() - from * g.Len())) else l
  }

  /** `BufferSeq::copy`: contents and label of one buffer onto another. */
  method CopySeq(g: Geometry, mem: array<Word>, mm: array<BufferSeq>, to: nat, from: nat)
    requires g.Valid() && mem.Length == g.Hi() && mm.Length == g.nbuffers
    requires to < g.nbuffers && from < g.nbuffers
    modifies mem, mm
    ensures Blocks(g, mem[..]) == old(Blocks(g, mem[..])[to := Blocks(g, mem[..])[from]])
    ensures mm[..] == old(mm[..][to := Moved(g, mm[from], from, to)])
  {
    CopyBlock(g, mem, to, from);
    mm[to] := Moved(g, mm[from], from, to);
  }

  method CopyBlock(g: Geometry, mem: array<Word>, to: nat, from: nat)
    requires g.Valid() && mem.Length == g.Hi() && to < g.nbuffers && from < g.nbuffers
    modifies mem
    ensures Blocks(g, mem[..]) == old(Blocks(g, mem[..])[to := Blocks(g, mem[..])[from]])
  {
    BuffersApart(g, from, to);
    BuffersApart(g, to, from);
    CopiedBlocks(g, mem[..], to, from);
    var len, dst, src := g.Len(), to * g.Len(), from * g.Len();
    assert dst + len <= mem.Length && src + len <= mem.Length && (dst <= src || src + len <= dst);
    Memcpy(mem, dst, src, len);
  }

  /** `BufferSeq::swap`, through the scratch buffer 0. */
  method Swap(g: Geometry, mem: array<Word>, mm: array<BufferSeq>, aa: nat, bb: nat)
    requires g.Valid() && mem.Length == g.Hi() && mm.Length == g.nbuffers
    requires 1 <= aa < g.nbuffers && 1 <= bb < g.nbuffers
    modifies mem, mm
    ensures Blocks(g, mem[..])[1..] == old(Exchanged(Blocks(g, mem[..]), aa, bb)[1..])
    ensures mm[..][1..] == old(ExchangedLabels(g, mm[..], aa, bb)[1..])
    ensures mm[0].iseq == old(mm[aa].iseq)
  {
    CopySeq(g, mem, mm, 0, aa);
    CopySeq(g, mem, mm, aa, bb);
    CopySeq(g, mem, mm, bb, 0);
  }

  ghost function Exchanged<T>(s: seq<T>, aa: nat, bb: nat): (s': seq<T>)
    requires aa < |s| && bb < |s|
  {
    s[aa := s[bb]][bb := s[aa]]
  }

  ghost function ExchangedLabels(g: Geometry, s: seq<BufferSeq>, aa: nat, bb: nat): (s': seq<BufferSeq>)
    requires aa < |s| && bb < |s|
  {
    s[aa := Moved(g, s[bb], bb, aa)][bb := Moved(g, s[aa], aa, bb)]
  }

  ghost predicate IsPermutation(perm: seq<nat>, inv: seq<nat>) {
    && |inv| == |perm|
    && (forall i {:trigger perm[i]} :: 1 <= i < |perm| ==> 1 <= perm[i] < |perm|)
    && (forall i {:trigger inv[i]} :: 1 <= i < |perm| ==> 1 <= inv[i] < |perm|)
    && (forall i {:trigger inv[perm[i]]} :: 1 <= i < |perm| ==> inv[perm[i]] == i)
    && (forall i {:trigger perm[inv[i]]} :: 1 <= i < |perm| ==> perm[inv[i]] == i)
  }

  /** Every buffer but the scratch holds, contents and label, what buffer `perm[i]` held at first. */
  ghost predicate Arranged(g: Geometry, sp: Span, b0: seq<seq<Word>>, bs: seq<seq<Word>>, ls: seq<BufferSeq>, perm: seq<nat>)
    requires sp.first <= sp.nbuffers
  {
    && |b0| == |bs| == |ls| == |perm|
    && (forall i :: 1 <= i < |perm| ==> 1 <= perm[i] < |perm|)
    && (forall i {:trigger perm[i]} :: 1 <= i < |perm| ==> bs[i] == b0[perm[i]])
    && (forall i :: 1 <= i < |perm| ==> ls[i] == Moved(g, sp.Label(perm[i]), perm[i], i))
  }

  /** The inverse of a permutation after two of its entries were exchanged. */
  ghost function Reindexed(inv: seq<nat>, perm: seq<nat>, aa: nat, bb: nat): (inv': seq<nat>)
    requires aa < |perm| && bb < |perm| && perm[aa] < |inv| && perm[bb] < |inv|
  {
    inv[perm[aa] := bb][perm[bb] := aa]
  }

  lemma ExchangePermutation(perm: seq<nat>, inv: seq<nat>, aa: nat, bb: nat)
    requires IsPermutation(perm, inv) && 1 <= aa < |perm| && 1 <= bb < |perm|
    ensures IsPermutation(Exchanged(perm, aa, bb), Reindexed(inv, perm, aa, bb))
  {
    var perm', inv' := Exchanged(perm, aa, bb), Reindexed(inv, perm, aa, bb);
    forall i | 1 <= i < |perm|
      ensures inv'[perm'[i]] == i && perm'[inv'[i]] == i
    {
      assert inv[perm[i]] == i && perm[inv[i]] == i && inv[perm[aa]] == aa && inv[perm[bb]] == bb;
    }
  }

  lemma ExchangeArranged(g: Geometry, sp: Span, b0: seq<seq<Word>>, bs: seq<seq<Word>>, ls: seq<BufferSeq>,
                         perm: seq<nat>, aa: nat, bb: nat, bs': seq<seq<Word>>, ls': seq<BufferSeq>)
    requires sp.first <= sp.nbuffers && Arranged(g, sp, b0, bs, ls, perm)
    requires 1 <= aa < |perm| && 1 <= bb < |perm| && |bs'| == |bs| && |ls'| == |ls|
    requires bs'[1..] == Exchanged(bs, aa, bb)[1..] && ls'[1..] == ExchangedLabels(g, ls, aa, bb)[1..]
    ensures Arranged(g, sp, b0, bs', ls', Exchanged(perm, aa, bb))
  {
    forall i | 1 <= i < |perm|
      ensures bs'[i] == Exchanged(bs, aa, bb)[i] && ls'[i] == ExchangedLabels(g, ls, aa, bb)[i]
    {
      assert bs'[i] == bs'[1..][i - 1] && ls'[i] == ls'[1..][i - 1];
    }
  }

  /** Positions `n` and above, when parts 1..k-1 are placed. */
  ghost predicate LeftAbove(sp: Span, perm: seq<nat>, k: nat, n: nat)
    requires sp.first <= sp.nbuffers
    decreases |perm| - n
  {
    n < |perm| ==> perm[n] == sp.Left(k, n) && LeftAbove(sp, perm, k, n + 1)
  }

  lemma {:induction false} LeftAboveAt(sp: Span, perm: seq<nat>, k: nat, n: nat, p: nat)
    requires sp.first <= sp.nbuffers && LeftAbove(sp, perm, k, n) && n <= p < |perm|
    ensures perm[p] == sp.Left(k, p)
    decreases p - n
  {
    if n < p {
      LeftAboveAt(sp, perm, k, n + 1, p);
    }
  }

  lemma {:induction false} LeftAboveFirst(sp: Span, perm: seq<nat>, n: nat)
    requires sp.first <= sp.nbuffers && forall i :: 0 <= i < |perm| ==> perm[i] == i
    ensures LeftAbove(sp, perm, 1, n)
    decreases |perm| - n
  {
    if n < |perm| {
      LeftAboveFirst(sp, perm, n + 1);
    }
  }

  /** The buffer above all the parts, when they are placed. */
  ghost predicate LastLeft(sp: Span, perm: seq<nat>) {
    sp.Valid() && sp.Disjoint() && sp.Count() + 1 < |perm| && perm[sp.Count() + 1] == sp.Above()
  }

  lemma LeftAtLast(sp: Span, perm: seq<nat>, k: nat)
    requires sp.Valid() && sp.Disjoint() && |perm| == sp.nbuffers && k == sp.Count() + 1 && LeftAbove(sp, perm, k, k)
    ensures LastLeft(sp, perm)
  {
    LeftAboveAt(sp, perm, k, k, k);
  }

  /** The swap loop about to place part `k`: parts 1..k-1 are in buffers 1..k-1. */
  ghost predicate Placed(g: Geometry, sp: Span, b0: seq<seq<Word>>, bs: seq<seq<Word>>, ls: seq<BufferSeq>,
                         perm: seq<nat>, inv: seq<nat>, k: int) {
    && sp.Valid() && 1 <= k <= sp.Count() + 1 && |perm| == sp.nbuffers
    && Arranged(g, sp, b0, bs, ls, perm) && IsPermutation(perm, inv)
    && (k == 1 || sp.Disjoint())
    && (forall j {:trigger perm[j]} :: 1 <= j < k ==> j < |perm| && perm[j] == sp.Source(j))
    && ls[0].iseq < k
  }

  /** And what is above them is known. */
  ghost predicate Placing(g: Geometry, sp: Span, b0: seq<seq<Word>>, bs: seq<seq<Word>>, ls: seq<BufferSeq>,
                         perm: seq<nat>, inv: seq<nat>, k: nat)
  {
    Placed(g, sp, b0, bs, ls, perm, inv, k) && LeftAbove(sp, perm, k, k)
  }

  /** All parts in place. */
  ghost predicate Finished(g: Geometry, sp: Span, b0: seq<seq<Word>>, bs: seq<seq<Word>>, ls: seq<BufferSeq>,
                         perm: seq<nat>, inv: seq<nat>)
  {
    Placed(g, sp, b0, bs, ls, perm, inv, sp.Count() + 1) && LastLeft(sp, perm)
  }

  lemma PlacedAll(g: Geometry, sp: Span, b0: seq<seq<Word>>, bs: seq<seq<Word>>, ls: seq<BufferSeq>,
                         perm: seq<nat>, inv: seq<nat>, k: nat)
    requires Placing(g, sp, b0, bs, ls, perm, inv, k) && k == sp.Count() + 1
    ensures Finished(g, sp, b0, bs, ls, perm, inv) && sp.Disjoint()
  {
    LeftAtLast(sp, perm, k);
  }

  /** `r` is the outcome of the linear search for label `k`. */
  ghost predicate SearchResult(ls: seq<BufferSeq>, k: nat, r: int) {
    && -1 <= r < |ls| && (0 <= r ==> ls[r].iseq == k)
    && forall i :: 0 <= i < (if r < 0 then |ls| else r) ==> ls[i].iseq != k
  }

  lemma SourceAt(g: Geometry, sp: Span, b0: seq<seq<Word>>, bs: seq<seq<Word>>, ls: seq<BufferSeq>,
                 perm: seq<nat>, inv: seq<nat>, k: nat) returns (i: nat)
    requires Placed(g, sp, b0, bs, ls, perm, inv, k) && sp.Disjoint() && k <= sp.Count()
    ensures 1 <= i < |ls| && ls[i].iseq == k
  {
    LabelUnique(sp, sp.Source(k), k);
    i := inv[sp.Source(k)];
    assert perm[i] == sp.Source(k);
  }

  /** The search for a label fails exactly on overlapping ranges, and then at the first label. */
  lemma SearchFails(g: Geometry, sp: Span, b0: seq<seq<Word>>, bs: seq<seq<Word>>, ls: seq<BufferSeq>,
                    perm: seq<nat>, inv: seq<nat>, k: nat, r: int)
    requires Placed(g, sp, b0, bs, ls, perm, inv, k) && k <= sp.Count() && SearchResult(ls, k, r)
    ensures r == -1 <==> !sp.Disjoint()
    ensures !sp.Disjoint() ==> k == 1
  {
    if sp.Disjoint() {
      var i := SourceAt(g, sp, b0, bs, ls, perm, inv, k);
    } else if 0 <= r {
      LabelLost(sp, perm[r]);
    }
  }

  /** The search for label `k` stops at the buffer now holding `Source(k)`, at or above position `k`. */
  lemma FoundSource(g: Geometry, sp: Span, b0: seq<seq<Word>>, bs: seq<seq<Word>>, ls: seq<BufferSeq>,
                    perm: seq<nat>, inv: seq<nat>, k: nat, r: nat)
    requires Placed(g, sp, b0, bs, ls, perm, inv, k) && sp.Disjoint() && k <= sp.Count() && SearchResult(ls, k, r)
    ensures k <= r && perm[r] == sp.Source(k) && k < sp.nbuffers && ls[k].state != Empty
  {
    assert 1 <= r;
    LabelUnique(sp, perm[r], k);
    if r < k {
      LabelUnique(sp, perm[r], r);
    }
  }

  lemma PlacedNext(g: Geometry, sp: Span, b0: seq<seq<Word>>, bs: seq<seq<Word>>, ls: seq<BufferSeq>,
                   perm: seq<nat>, inv: seq<nat>, k: nat, r: nat, bs': seq<seq<Word>>, ls': seq<BufferSeq>)
    requires Placed(g, sp, b0, bs, ls, perm, inv, k) && sp.Disjoint() && k <= sp.Count()
    requires k <= r < |perm| && perm[r] == sp.Source(k) && ls[r].iseq == k
    requires |bs'| == |bs| && |ls'| == |ls| && ls'[0].iseq == k
    requires bs'[1..] == Exchanged(bs, r, k)[1..] && ls'[1..] == ExchangedLabels(g, ls, r, k)[1..]
    ensures Placed(g, sp, b0, bs', ls', Exchanged(perm, r, k), Reindexed(inv, perm, r, k), k + 1)
  {
    ExchangeArranged(g, sp, b0, bs, ls, perm, r, k, bs', ls');
    ExchangePermutation(perm, inv, r, k);
  }

  lemma {:induction false} LeftNext(sp: Span, perm: seq<nat>, inv: seq<nat>, k: nat, r: nat, n: nat)
    requires sp.Valid() && sp.Disjoint() && 1 <= k <= sp.Count() && |perm| == sp.nbuffers
    requires IsPermutation(perm, inv) && k <= r < |perm| && perm[r] == sp.Source(k)
    requires LeftAbove(sp, perm, k, k) && k < n
    ensures LeftAbove(sp, Exchanged(perm, r, k), k + 1, n)
    decreases |perm| - n
  {
    if n < |perm| {
      LeftAboveAt(sp, perm, k, k, n);
      LeftAboveAt(sp, perm, k, k, k);
      LabelUnique(sp, perm[n], k);
      assert inv[perm[n]] == n && inv[perm[r]] == r;
      LeftNext(sp, perm, inv, k, r, n + 1);
    }
  }

  /** What the sort leaves: a permutation of the buffers above the scratch, the window's first. */
  ghost predicate Sorted(g: Geometry, sp: Span, m0: seq<Word>, m: seq<Word>, perm: seq<nat>, inv: seq<nat>) {
    && sp.nbuffers == g.nbuffers == |perm| && IsPermutation(perm, inv)
    && (forall i :: 1 <= i < |perm| ==> Blocks(g, m)[i] == Blocks(g, m0)[perm[i]])
    && (forall j :: 1 <= j <= sp.Count() && j < |perm| ==> perm[j] == sp.Source(j))
    && LastLeft(sp, perm)
  }

  ghost function Identity(n: nat): (s: seq<nat>) {
    seq(n, i requires 0 <= i => i)
  }

  lemma MovedInPlace(g: Geometry, l: BufferSeq, i: nat)
    ensures Moved(g, l, i, i) == l
  {
  }

  lemma PlacedAtFirst(g: Geometry, sp: Span, b0: seq<seq<Word>>, ls: seq<BufferSeq>)
    requires sp.Valid() && sp.fin < sp.nbuffers && |b0| == |ls| == sp.nbuffers
    requires AllLabelled(sp, ls)
    ensures Placed(g, sp, b0, b0, ls, Identity(sp.nbuffers), Identity(sp.nbuffers), 1)
    ensures LeftAbove(sp, Identity(sp.nbuffers), 1, 1)
  {
    var id := Identity(sp.nbuffers);
    forall i | 1 <= i < sp.nbuffers
      ensures id[i] == i && ls[i] == Moved(g, sp.Label(id[i]), id[i], i)
    {
      MovedInPlace(g, ls[i], i);
    }
    LeftAboveFirst(sp, id, 1);
  }

  lemma PlacedAtLast(g: Geometry, sp: Span, m0: seq<Word>, m: seq<Word>, ls: seq<BufferSeq>, perm: seq<nat>, inv: seq<nat>)
    requires sp.nbuffers == g.nbuffers
    requires Finished(g, sp, Blocks(g, m0), Blocks(g, m), ls, perm, inv)
    ensures sp.Disjoint() && Sorted(g, sp, m0, m, perm, inv)
  {
  }

  /** One pass of the swap loop. */
  method PlacePart(g: Geometry, mem: array<Word>, mm: array<BufferSeq>, sp: Span, k: nat,
                   ghost b0: seq<seq<Word>>, ghost perm0: seq<nat>, ghost inv0: seq<nat>)
    returns (ok: bool, ghost perm: seq<nat>, ghost inv: seq<nat>)
    requires g.Valid() && mem.Length == g.Hi() && sp.nbuffers == g.nbuffers == mm.Length && k <= sp.Count()
    requires Placing(g, sp, b0, Blocks(g, mem[..]), mm[..], perm0, inv0, k)
    modifies mem, mm
    ensures ok == sp.Disjoint()
    ensures ok ==> Placing(g, sp, b0, Blocks(g, mem[..]), mm[..], perm, inv, k + 1)
    ensures !ok ==> mem[..] == old(mem[..])
  {
    perm, inv := perm0, inv0;
    var from := FindSeq(mm, k);
    ghost var bs, ls := Blocks(g, mem[..]), mm[..];
    SearchFails(g, sp, b0, bs, ls, perm, inv, k, from);
    if from == -1 {
      return false, perm, inv;
    }
    FoundSource(g, sp, b0, bs, ls, perm, inv, k, from);
    if mm[k].state == Empty {
      assert false;
    } else {
      Swap(g, mem, mm, from, k);
      PlacedNext(g, sp, b0, bs, ls, perm, inv, k, from, Blocks(g, mem[..]), mm[..]);
      LeftNext(sp, perm, inv, k, from, k + 1);
      perm, inv := Exchanged(perm, from, k), Reindexed(inv, perm, from, k);
    }
    ok := true;
  }

  /** Part after part, from the labels as they were given out. */
  method PlaceParts(g: Geometry, mem: array<Word>, mm: array<BufferSeq>, sp: Span)
    returns (ok: bool, ghost perm: seq<nat>, ghost inv: seq<nat>)
    requires g.Valid() && mem.Length == g.Hi() && sp.nbuffers == g.nbuffers == mm.Length && 1 <= sp.Count()
    requires Placing(g, sp, Blocks(g, mem[..]), Blocks(g, mem[..]), mm[..], Identity(g.nbuffers), Identity(g.nbuffers), 1)
    modifies mem, mm
    ensures ok == sp.Disjoint()
    ensures ok ==> Finished(g, sp, old(Blocks(g, mem[..])), Blocks(g, mem[..]), mm[..], perm, inv)
    ensures !ok ==> mem[..] == old(mem[..])
  {
    ghost var b0 := Blocks(g, mem[..]);
    perm, inv := Identity(g.nbuffers), Identity(g.nbuffers);
    ok := true;
    ghost var bs, ls := b0, mm[..];
    var k: nat := 1;
    while k <= sp.Count()
      invariant 1 <= k <= sp.Count() + 1
      invariant bs == Blocks(g, mem[..]) && ls == mm[..]
      invariant Placing(g, sp, b0, bs, ls, perm, inv, k)
      invariant !sp.Disjoint() ==> mem[..] == old(mem[..])
    {
      ok, perm, inv := PlacePart(g, mem, mm, sp, k, b0, perm, inv);
      bs, ls := Blocks(g, mem[..]), mm[..];
      if !ok {
        return;
      }
      k := k + 1;
    }
    PlacedAll(g, sp, b0, bs, ls, perm, inv, k);
    ok := true;
  }

  /** The swap loop; `ok` is false when the assertion on the search result fails. */
  method SwapLoop(g: Geometry, mem: array<Word>, mm: array<BufferSeq>, sp: Span)
    returns (ok: bool, ghost perm: seq<nat>, ghost inv: seq<nat>)
    requires g.Valid() && mem.Length == g.Hi() && sp.Valid() && sp.nbuffers == g.nbuffers == mm.Length
    requires sp.fin < sp.nbuffers && AllLabelled(sp, mm[..])
    modifies mem, mm
    ensures ok == sp.Disjoint()
    ensures ok ==> Finished(g, sp, old(Blocks(g, mem[..])), Blocks(g, mem[..]), mm[..], perm, inv)
    ensures !ok ==> mem[..] == old(mem[..])
  {
    PlacedAtFirst(g, sp, Blocks(g, mem[..]), mm[..]);
    ok, perm, inv := PlaceParts(g, mem, mm, sp);
  }

  /** The end of the sort: clear the scratch label and look for the event. */
  method LocateEvent(g: Geometry, mm: array<BufferSeq>, sp: Span, ghost b0: seq<seq<Word>>, ghost bs: seq<seq<Word>>,
                     ghost perm: seq<nat>, ghost inv: seq<nat>) returns (r: Option<int>)
    requires Finished(g, sp, b0, bs, mm[..], perm, inv)
    modifies mm
    ensures r.Some? <==> sp.Labelled(sp.ibEsp)
    ensures r.Some? ==> r.value == sp.esp + sp.Label(sp.ibEsp).iseq * g.Len() - sp.ibEsp * g.Len()
  {
    ghost var ls := mm[..];
    mm[0] := BufferSeq(Empty, 0, None);
    assert forall i :: 1 <= i < mm.Length ==> mm[i] == ls[i];
    var es := FindEs(mm);
    FoundEs(g, sp, b0, bs, ls, perm, inv, es);
    r := if es == -1 then None else mm[es].esp;
  }

  /** Label, sort, and find where the event went. */
  method SortBuffers(g: Geometry, mem: array<Word>, sp: Span)
    returns (r: Option<int>, ghost perm: seq<nat>, ghost inv: seq<nat>)
    requires g.Valid() && mem.Length == g.Hi() && sp.Valid() && sp.nbuffers == g.nbuffers
    modifies mem
    ensures r.Some? <==> sp.Disjoint() && sp.Labelled(sp.ibEsp)
    ensures r.Some? ==> r.value == sp.esp + sp.Label(sp.ibEsp).iseq * g.Len() - sp.ibEsp * g.Len()
    ensures sp.Disjoint() ==> Sorted(g, sp, old(mem[..]), mem[..], perm, inv)
    ensures !sp.Disjoint() ==> mem[..] == old(mem[..])
  {
    var ok, mm := LabelBuffers(sp);
    if !ok {
      return None, [], [];
    }
    ok, perm, inv := SwapLoop(g, mem, mm, sp);
    if !ok {
      return None, perm, inv;
    }
    ghost var m0, m := old(mem[..]), mem[..];
    PlacedAtLast(g, sp, m0, m, mm[..], perm, inv);
    r := LocateEvent(g, mm, sp, Blocks(g, m0), Blocks(g, m), perm, inv);
  }

  /** After the sort exactly one buffer is labelled with the event, if the event was labelled at all. */
  lemma FoundEs(g: Geometry, sp: Span, b0: seq<seq<Word>>, bs: seq<seq<Word>>, ls: seq<BufferSeq>,
                perm: seq<nat>, inv: seq<nat>, r: int)
    requires Placed(g, sp, b0, bs, ls, perm, inv, sp.Count() + 1)
    requires -1 <= r < |ls| && r != 0 && (0 <= r ==> ls[r].state == Es)
    requires forall i :: 1 <= i < (if r < 0 then |ls| else r) ==> ls[i].state != Es
    ensures 0 <= r <==> sp.Labelled(sp.ibEsp)
    ensures 0 <= r ==> r == sp.Label(sp.ibEsp).iseq && perm[r] == sp.ibEsp
    ensures 0 <= r ==> ls[r].esp == Some(sp.esp + r * g.Len() - sp.ibEsp * g.Len())
  {
    if sp.Labelled(sp.ibEsp) {
      var k := sp.Label(sp.ibEsp).iseq;
      LabelUnique(sp, sp.ibEsp, k);
      assert perm[k] == sp.ibEsp && ls[k].state == Es;
    }
    if 0 <= r {
      assert sp.Label(perm[r]).state == Es;
      LabelUnique(sp, sp.ibEsp, sp.Label(sp.ibEsp).iseq);
      assert inv[perm[r]] == r;
    }
  }
}
