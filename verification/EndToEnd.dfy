/**
  From the ring to the client: a capture post-processed and then read back through a channel file, the
  demultiplexed way and the raw way.
 */
module EndToEnd {
  import opened Arith
  import opened MapBuffers
  import opened Distribution
  import opened PostProcess
  import opened ChannelFiles

  /** A client reading `wants[0]`, `wants[1]`, ... words of a demultiplexed capture. */
  method ReadCookedSession(file: ChannelFile, wants: seq<nat>, ghost data: seq<Word>) returns (out: seq<Word>)
    requires file.Valid() && file.enabled && file.sample == 0
    requires Cooked(file.g, file.mem[..], data) && file.nsamples * file.g.nchan <= |data|
    modifies file
    ensures out == Column(data, file.g.nchan, file.nsamples, file.c)[..SessionEnd(file.g.cbs, file.nsamples, 0, wants)]
  {
    ghost var col := Column(data, file.g.nchan, file.nsamples, file.c);
    out := [];
    for k := 0 to |wants|
      invariant file.Valid() && file.sample == SessionEnd(file.g.cbs, file.nsamples, 0, wants[..k]) && out == col[..file.sample]
    {
      SessionNext(file.g.cbs, file.nsamples, 0, wants, k);
      ghost var s := file.sample;
      var rc, buf := file.ReadCooked(wants[k] * file.wordSize, wants[k], data);
      assert col[..s] + col[s..file.sample] == col[..file.sample];
      out := out + buf;
    }
    assert wants[..|wants|] == wants;
  }

  /** And of a raw one. */
  method ReadMuxSession(file: ChannelFile, wants: seq<nat>, ghost data: seq<Word>) returns (out: seq<Word>)
    requires file.Valid() && file.enabled && file.sample == 0
    requires Raw(file.mem[..], data) && file.nsamples * file.g.nchan <= |data|
    modifies file
    ensures out == Column(data, file.g.nchan, file.nsamples, file.c)[..SessionEnd(file.g.cbs, file.nsamples, 0, wants)]
  {
    ghost var col := Column(data, file.g.nchan, file.nsamples, file.c);
    out := [];
    for k := 0 to |wants|
      invariant file.Valid() && file.sample == SessionEnd(file.g.cbs, file.nsamples, 0, wants[..k]) && out == col[..file.sample]
    {
      SessionNext(file.g.cbs, file.nsamples, 0, wants, k);
      ghost var s := file.sample;
      var rc, buf := file.ReadMuxdata(wants[k] * file.wordSize, wants[k], data);
      assert col[..s] + col[s..file.sample] == col[..file.sample];
      out := out + buf;
    }
    assert wants[..|wants|] == wants;
  }

  lemma {:induction false} SessionSnoc(cbs: nat, nsamples: nat, s: nat, a: seq<nat>, x: nat)
    requires 0 < cbs
    ensures SessionEnd(cbs, nsamples, s, a + [x]) ==
            var e := SessionEnd(cbs, nsamples, s, a); e + ReadLen(cbs, nsamples, e, x)
    decreases |a|
  {
    var b := a + [x];
    if a == [] {
      assert b[1..] == [];
    } else {
      assert b[0] == a[0] && b[1..] == a[1..] + [x];
      SessionSnoc(cbs, nsamples, s + ReadLen(cbs, nsamples, s, a[0]), a[1..], x);
    }
  }

  lemma SessionNext(cbs: nat, nsamples: nat, s: nat, wants: seq<nat>, k: nat)
    requires 0 < cbs && k < |wants|
    ensures SessionEnd(cbs, nsamples, s, wants[..k + 1]) ==
            var e := SessionEnd(cbs, nsamples, s, wants[..k]); e + ReadLen(cbs, nsamples, e, wants[k])
  {
    assert wants[..k + 1] == wants[..k] + [wants[k]];
    SessionSnoc(cbs, nsamples, s, wants[..k], wants[k]);
  }

  function Samples(w: Capture): (n: nat) {
    w.pre + w.post
  }

  /** Channel `c` of what is stored, as far as the client's reads go. */
  ghost function ChannelRead(w: Capture, m: seq<Word>, esp: int, c: nat, wants: seq<nat>): (out: seq<Word>)
    requires w.g.Valid()
  {
    Column(Stored(w, m, esp), w.g.nchan, Samples(w), c)[..SessionEnd(w.g.cbs, Samples(w), 0, wants)]
  }

  /** The reference: channel `c` of the capture read round the ring, as far as the same reads go. */
  ghost function CapturedRead(w: Capture, m: seq<Word>, esp: int, c: nat, wants: seq<nat>): (out: seq<Word>)
    requires w.g.Valid()
  {
    Column(Captured(w, m, esp), w.g.nchan, Samples(w), c)[..SessionEnd(w.g.cbs, Samples(w), 0, wants)]
  }

  // ----- Exactly how far the samples are right

  lemma WholeSamples(a: int, b: int, n: nat)
    requires 0 < n && a % n == 0 && b % n == 0
    ensures (a + b) % n == 0 && (a - b) % n == 0
  {
    var p, q := a / n, b / n;
    MulDistrib(p, q, n);
    ExactDiv(p + q, a + b, n);
    ExactDiv(p - q, a - b, n);
  }

  /** A wrapped window is cut at a sample. */
  lemma FinishOnSample(w: Capture, esp: nat)
    requires w.Valid() && w.OnSample(esp) && w.Sortable(esp) && w.ModeOf(esp) != Linear
    ensures w.Finish(esp) % w.g.Len() % w.g.nchan == 0 && w.g.Len() % w.g.nchan == 0
  {
    FinishWhole(w, esp);
    OffsetWhole(w.g, w.Finish(esp));
    BufferWhole(w.g, 1);
  }

  lemma FinishWhole(w: Capture, esp: nat)
    requires w.Valid() && w.OnSample(esp) && w.Sortable(esp) && w.ModeOf(esp) != Linear
    ensures w.Finish(esp) % w.g.nchan == 0
  {
    var g, ring := w.g, w.g.Hi() - w.g.Lo();
    w.CornerWindow(esp);
    ExactDiv(w.post, w.Postw(), g.nchan);
    BufferWhole(g, g.nbuffers);
    BufferWhole(g, RESERVED);
    WholeSamples(g.Hi(), g.Lo(), g.nchan);
    WholeSamples(esp, w.Postw(), g.nchan);
    WholeSamples(esp + w.Postw(), ring, g.nchan);
  }

  lemma OffsetWhole(g: Geometry, a: int)
    requires g.Valid() && a % g.nchan == 0
    ensures a % g.Len() % g.nchan == 0
  {
    var q := a / g.Len();
    assert a == q * g.Len() + a % g.Len();
    BufferWhole(g, q);
    WholeSamples(a, q * g.Len(), g.nchan);
  }

  lemma BufferWhole(g: Geometry, b: int)
    requires g.Valid()
    ensures (b * g.Len()) % g.nchan == 0
  {
    assert b * g.Len() == (b * g.cbs) * g.nchan;
    ExactDiv(b * g.cbs, b * g.Len(), g.nchan);
  }

  /** What is good is whole samples. */
  lemma GoodWhole(w: Capture, esp: nat)
    requires w.Valid() && w.OnSample(esp) && 0 < w.pre && w.Sortable(esp)
    ensures GoodLen(w, esp) % w.g.nchan == 0
  {
    var g := w.g;
    ExactDiv(w.pre, w.Prew(), g.nchan);
    ExactDiv(w.post, w.Postw(), g.nchan);
    WholeSamples(0, 0, g.nchan);
    WholeSamples(w.es, w.Postw(), g.nchan);
    WholeSamples(w.Prew(), w.Tail(), g.nchan);
    if w.ModeOf(esp) != Linear {
      FinishOnSample(w, esp);
      WholeSamples(w.Finish(esp) % g.Len(), w.es, g.nchan);
      WholeSamples(w.Finish(esp) % g.Len() + w.es, g.Len(), g.nchan);
    }
    WholeSamples(w.Prew() + w.Tail(), w.Overrun(esp), g.nchan);
  }

  /** Beyond the good samples there is a memory in which the next one of the channel is stored wrong. */
  lemma SampleWrong(w: Capture, esp: nat, c: nat, n: nat) returns (m: seq<Word>)
    requires w.Valid() && w.OnSample(esp) && 0 < w.pre && w.Sortable(esp) && c < w.g.nchan
    requires n <= Samples(w) && GoodLen(w, esp) < n * w.g.nchan
    ensures |m| == w.g.Hi()
    ensures Column(Stored(w, m, esp), w.g.nchan, n, c) != Column(Captured(w, m, esp), w.g.nchan, n, c)
  {
    var nchan, s := w.g.nchan, n - 1;
    var i := s * nchan + c;
    GoodWhole(w, esp);
    LastSample(GoodLen(w, esp), n, nchan, c);
    MulDistrib(w.pre, w.post, nchan);
    MulLe(n, Samples(w), nchan);
    MulDistrib(s, 1, nchan);
    m := TailWordWrong(w, esp, i - w.Prew());
    assert Column(Stored(w, m, esp), nchan, n, c)[s] == Stored(w, m, esp)[i];
    assert Column(Captured(w, m, esp), nchan, n, c)[s] == Captured(w, m, esp)[i];
  }

  lemma LastSample(good: nat, n: nat, nchan: nat, c: nat)
    requires 0 < nchan && good % nchan == 0 && good < n * nchan && c < nchan
    ensures good <= (n - 1) * nchan + c
  {
    var q := good / nchan;
    assert good == q * nchan;
    if n <= q {
      MulLe(n, q, nchan);
    }
    MulLe(q, n - 1, nchan);
  }

  /** The first `n` samples of a channel are right, whatever memory held, exactly as far as `GoodLen` goes. */
  lemma ColumnRightIff(w: Capture, esp: nat, c: nat, n: nat)
    requires w.Valid() && w.OnSample(esp) && Succeeds(w, esp) && c < w.g.nchan && n <= Samples(w)
    ensures (forall m :: |m| == w.g.Hi() ==>
               Column(Stored(w, m, esp), w.g.nchan, n, c) == Column(Captured(w, m, esp), w.g.nchan, n, c)) <==>
            n * w.g.nchan <= GoodLen(w, esp)
  {
    if n * w.g.nchan <= GoodLen(w, esp) {
      forall m | |m| == w.g.Hi()
        ensures Column(Stored(w, m, esp), w.g.nchan, n, c) == Column(Captured(w, m, esp), w.g.nchan, n, c)
      {
        StoredColumn(w, m, esp, c, n);
      }
    } else {
      MulLe(n, Samples(w), w.g.nchan);
      var m := SampleWrong(w, esp, c, n);
    }
  }

  /** All the samples of a channel are right, whatever memory held, exactly when nothing overran, or signature words only. */
  lemma SamplesRightIff(w: Capture, esp: nat, c: nat)
    requires w.Valid() && w.OnSample(esp) && Succeeds(w, esp) && c < w.g.nchan
    ensures (forall m :: |m| == w.g.Hi() ==>
               Column(Stored(w, m, esp), w.g.nchan, Samples(w), c) == Column(Captured(w, m, esp), w.g.nchan, Samples(w), c)) <==>
            w.pre == 0 || w.Overrun(esp) == 0 || w.showEs || w.post == 0
  {
    ColumnRightIff(w, esp, c, Samples(w));
    AllGoodIff(w, esp);
  }

  lemma AllGoodIff(w: Capture, esp: nat)
    requires w.Valid()
    ensures Samples(w) * w.g.nchan <= GoodLen(w, esp) <==>
            w.pre == 0 || w.Overrun(esp) == 0 || w.showEs || w.post == 0
  {
    MulDistrib(w.pre, w.post, w.g.nchan);
    OverrunBound(w, esp);
    if 0 < w.post {
      MulLe(1, w.post, w.g.nchan);
    }
  }

  /** The client reads its channel of the capture, whatever memory held. */
  ghost predicate AlwaysRight(w: Capture, esp: nat, c: nat, wants: seq<nat>)
    requires w.g.Valid()
  {
    forall m :: |m| == w.g.Hi() ==> ChannelRead(w, m, esp, c, wants) == CapturedRead(w, m, esp, c, wants)
  }

  lemma ColumnPrefix(data: seq<Word>, nchan: nat, nsamples: nat, c: nat, n: nat)
    requires n <= nsamples
    ensures Column(data, nchan, nsamples, c)[..n] == Column(data, nchan, n, c)
  {
  }

  /** It does exactly when its reads stop within the good samples. */
  lemma ReadRightIff(w: Capture, esp: nat, c: nat, wants: seq<nat>)
    requires w.Valid() && w.OnSample(esp) && Succeeds(w, esp) && c < w.g.nchan
    ensures AlwaysRight(w, esp, c, wants) <==> SessionEnd(w.g.cbs, Samples(w), 0, wants) * w.g.nchan <= GoodLen(w, esp)
  {
    var n := SessionEnd(w.g.cbs, Samples(w), 0, wants);
    forall m | |m| == w.g.Hi()
      ensures ChannelRead(w, m, esp, c, wants) == Column(Stored(w, m, esp), w.g.nchan, n, c)
      ensures CapturedRead(w, m, esp, c, wants) == Column(Captured(w, m, esp), w.g.nchan, n, c)
    {
      ColumnPrefix(Stored(w, m, esp), w.g.nchan, Samples(w), c, n);
      ColumnPrefix(Captured(w, m, esp), w.g.nchan, Samples(w), c, n);
    }
    ColumnRightIff(w, esp, c, n);
  }

  // ----- From the ring to the client

  lemma SamplesFit(w: Capture, m: seq<Word>, esp: nat)
    requires Processable(w, esp) && Succeeds(w, esp)
    ensures Samples(w) * w.g.nchan <= |Stored(w, m, esp)| && Samples(w) * w.g.nchan <= w.g.Hi()
  {
    MulDistrib(w.pre, w.post, w.g.nchan);
    if w.pre > 0 {
      if w.ModeOf(esp) == Linear {
        w.CornerWindow(esp);
      } else {
        CornerEnds(w, esp);
        ReadyRoom(w, esp);
      }
    }
  }

  /** Post-process a capture the demultiplexed way and read it. */
  method ProcessAndReadCooked(w: Capture, mem: array<Word>, esp: nat, wordSize: nat, c: nat, wants: seq<nat>)
    returns (ok: bool, out: seq<Word>)
    requires Processable(w, esp) && mem.Length == w.g.Hi() && c < w.g.nchan && (wordSize == 2 || wordSize == 4)
    modifies mem
    ensures ok <==> Succeeds(w, esp)
    ensures ok ==> out == ChannelRead(w, old(mem[..]), esp, c, wants)
  {
    ghost var data := Stored(w, mem[..], esp);
    out := [];
    ok := PostProcessDemux(w, mem, esp);
    if ok {
      SamplesFit(w, old(mem[..]), esp);
      var file := new ChannelFile(w.g, mem, wordSize, Samples(w), c, true);
      out := ReadCookedSession(file, wants, data);
    }
  }

  /** Post-process it the raw way and read it. */
  method ProcessAndReadRaw(w: Capture, mem: array<Word>, esp: nat, wordSize: nat, c: nat, wants: seq<nat>)
    returns (ok: bool, out: seq<Word>)
    requires Processable(w, esp) && mem.Length == w.g.Hi() && c < w.g.nchan && (wordSize == 2 || wordSize == 4)
    modifies mem
    ensures ok <==> Succeeds(w, esp)
    ensures ok ==> out == ChannelRead(w, old(mem[..]), esp, c, wants)
  {
    ghost var data := Stored(w, mem[..], esp);
    out := [];
    ok := PostProcessRaw(w, mem, esp);
    if ok {
      SamplesFit(w, old(mem[..]), esp);
      var file := new ChannelFile(w.g, mem, wordSize, Samples(w), c, true);
      out := ReadMuxSession(file, wants, data);
    }
  }

  /**
    The two ways agree: from equal captures, whatever the mode, the unwrapping and the cuts of the client's
    reads, channel `c` of a demultiplexed capture and of a raw one give the same words. These are that channel of the
    capture read round the ring, whatever the ring held, exactly when the reads stop within the good samples.
   */
  method CookedReadsAsRaw(w: Capture, memCooked: array<Word>, memRaw: array<Word>, esp: nat, wordSize: nat, c: nat, wants: seq<nat>)
    returns (ok: bool, cooked: seq<Word>, raw: seq<Word>)
    requires Processable(w, esp) && memCooked != memRaw && memCooked.Length == memRaw.Length == w.g.Hi()
    requires memCooked[..] == memRaw[..] && c < w.g.nchan && (wordSize == 2 || wordSize == 4)
    modifies memCooked, memRaw
    ensures ok <==> Succeeds(w, esp)
    ensures ok ==> cooked == raw == ChannelRead(w, old(memRaw[..]), esp, c, wants)
    ensures ok && SessionEnd(w.g.cbs, Samples(w), 0, wants) * w.g.nchan <= GoodLen(w, esp) ==>
      raw == CapturedRead(w, old(memRaw[..]), esp, c, wants)
    ensures ok ==> (AlwaysRight(w, esp, c, wants) <==> SessionEnd(w.g.cbs, Samples(w), 0, wants) * w.g.nchan <= GoodLen(w, esp))
  {
    ok, cooked := ProcessAndReadCooked(w, memCooked, esp, wordSize, c, wants);
    ok, raw := ProcessAndReadRaw(w, memRaw, esp, wordSize, c, wants);
    if ok {
      ReadRightIff(w, esp, c, wants);
    }
  }
}
