/**
  Reading a capture back as channel files: acq400_fs.c. Offsets and counts are in bytes, as in the driver;
  memory is in words of `wordSize` bytes, and clients read whole words.
 */
module ChannelFiles {
  import opened Arith
  import opened MapBuffers
  import opened Options
  import opened Demux
  import opened Distribution
  import opened PostProcess

  // ----- Which word of a sample a channel is

  datatype Site = Site(id: nat, nchan: nat)

  /** Words per sample of an aggregator set; an element may be missing. */
  function SampleWords(agg: seq<Option<Site>>): (n: nat) {
    if agg == [] then 0 else SampleWords(agg[..|agg| - 1]) + SiteWords(agg[|agg| - 1])
  }

  function SiteWords(s: Option<Site>): (n: nat) {
    match s case None => 0 case Some(site) => site.nchan
  }

  ghost predicate Holds(agg: seq<Option<Site>>, id: nat, i: nat) {
    i < |agg| && agg[i].Some? && agg[i].value.id == id
  }

  /** The site is in none of the first `n` elements. */
  ghost predicate Absent(agg: seq<Option<Site>>, id: nat, n: nat) {
    forall i: nat :: i < n ==> !Holds(agg, id, i)
  }

  /** `raw_offset_w`: words of the sites aggregated before this one. */
  method RawOffset(agg: seq<Option<Site>>, id: nat) returns (offset: int)
    ensures offset < 0 ==> offset == -1 && Absent(agg, id, |agg|)
    ensures 0 <= offset ==>
      exists i: nat :: Holds(agg, id, i) && Absent(agg, id, i) && offset == SampleWords(agg[..i])
  {
    offset := 0;
    for ia := 0 to |agg|
      invariant offset == SampleWords(agg[..ia]) && Absent(agg, id, ia)
    {
      SampleWordsNext(agg, ia);
      match agg[ia] {
        case None =>
        case Some(site) =>
          if site.id == id {
            assert Holds(agg, id, ia);
            return;
          }
          offset := offset + site.nchan;
      }
    }
    offset := -1;
  }

  lemma {:induction false} SampleWordsMono(agg: seq<Option<Site>>, i: nat, j: nat)
    requires i <= j <= |agg|
    ensures SampleWords(agg[..i]) <= SampleWords(agg[..j])
    decreases j - i
  {
    if i < j {
      SampleWordsNext(agg, i);
      SampleWordsMono(agg, i + 1, j);
    }
  }

  lemma SampleWordsNext(agg: seq<Option<Site>>, i: nat)
    requires i < |agg|
    ensures SampleWords(agg[..i + 1]) == SampleWords(agg[..i]) + SiteWords(agg[i])
  {
    assert agg[..i + 1][..i] == agg[..i];
  }

  /** Every word of a sample is the column of one channel, numbered from 1, of one aggregated site. */
  lemma {:induction false} ColumnHasChannel(agg: seq<Option<Site>>, w: nat) returns (i: nat, channel: nat)
    requires w < SampleWords(agg)
    ensures i < |agg| && 1 <= channel <= SiteWords(agg[i]) && w == SampleWords(agg[..i]) + channel - 1
  {
    var k := |agg| - 1;
    if SampleWords(agg[..k]) <= w {
      i, channel := k, w - SampleWords(agg[..k]) + 1;
    } else {
      i, channel := ColumnHasChannel(agg[..k], w);
      assert agg[..k][..i] == agg[..i];
    }
  }

  /** Different channels have different columns. */
  lemma ColumnsDiffer(agg: seq<Option<Site>>, i: nat, c: nat, j: nat, d: nat)
    requires i < |agg| && 1 <= c <= SiteWords(agg[i]) && j < |agg| && 1 <= d <= SiteWords(agg[j])
    requires SampleWords(agg[..i]) + c == SampleWords(agg[..j]) + d
    ensures i == j && c == d
  {
    SampleWordsNext(agg, i);
    SampleWordsNext(agg, j);
    if i < j {
      SampleWordsMono(agg, i + 1, j);
    } else if j < i {
      SampleWordsMono(agg, j + 1, i);
    }
  }

  // ----- The readers

  /** The words of channel `c` in a capture. */
  ghost function Column(data: seq<Word>, nchan: nat, nsamples: nat, c: nat): (col: seq<Word>)
  {
    seq(nsamples, s requires 0 <= s => At(data, s * nchan + c))
  }

  /** Words returned by one read of `want` words at sample `s`: never past the buffer it starts in, or the end. */
  function ReadLen(cbs: nat, nsamples: nat, s: nat, want: nat): (n: nat)
    requires 0 < cbs
  {
    if nsamples <= s then 0 else Min(want, Min(cbs - s % cbs, nsamples - s))
  }

  /** Address of column `s % cbs` of row `c` in the buffer of sample `s`. */
  ghost function RowStart(g: Geometry, c: nat, s: nat): (a: nat)
    requires g.Valid()
  {
    (s / g.cbs) * g.Len() + (c * g.cbs + s % g.cbs)
  }

  lemma MinTimes(a: int, b: int, d: nat)
    ensures Min(a * d, b * d) == Min(a, b) * d
  {
    if a < b {
      MulLe(a, b, d);
    } else {
      MulLe(b, a, d);
    }
  }

  /** Bytes of one channel in one buffer. */
  lemma ChannelBytes(g: Geometry, wordSize: nat)
    requires g.Valid() && 0 < wordSize
    ensures g.Len() * wordSize / g.nchan == g.cbs * wordSize && 0 < g.cbs * wordSize
  {
    MulLe(1, g.cbs, wordSize);
    assert g.Len() * wordSize == (g.cbs * wordSize) * g.nchan;
    ExactDiv(g.cbs * wordSize, g.Len() * wordSize, g.nchan);
  }

  /** Buffer and byte offset, within one channel, of sample `s`. */
  lemma ByteOffset(cbs: nat, wordSize: nat, s: nat)
    requires 0 < cbs && 0 < wordSize && 0 < cbs * wordSize
    ensures (s * wordSize) / (cbs * wordSize) == s / cbs
    ensures s * wordSize - (s / cbs) * (cbs * wordSize) == (s % cbs) * wordSize
  {
    var q, r := s / cbs, s % cbs;
    MulLe(r + 1, cbs, wordSize);
    MulDistrib(r, 1, wordSize);
    MulDistrib(q * cbs, r, wordSize);
    assert q * (cbs * wordSize) == (q * cbs) * wordSize;
    DivModUnique(s * wordSize, q, r * wordSize, cbs * wordSize);
  }

  /** Row `c` of a buffer starts `c * cbs` words in. */
  lemma RowOffset(g: Geometry, wordSize: nat, c: nat, r: nat)
    requires g.Valid() && 0 < wordSize
    ensures (r * wordSize + c * (g.Len() * wordSize) / g.nchan) / wordSize == c * g.cbs + r
  {
    var x := c * g.cbs;
    assert c * (g.Len() * wordSize) == (x * wordSize) * g.nchan;
    ExactDiv(x * wordSize, c * (g.Len() * wordSize), g.nchan);
    MulDistrib(x, r, wordSize);
    ExactDiv(x + r, r * wordSize + x * wordSize, wordSize);
  }

  /** The bytes that may be read, in words. */
  lemma Headroom(cbs: nat, wordSize: nat, nsamples: nat, s: nat, want: nat)
    requires 0 < cbs && 0 < wordSize
    ensures var r := s % cbs; var room, left := cbs * wordSize - r * wordSize, nsamples * wordSize - s * wordSize;
      && (left <= 0 <==> nsamples <= s)
      && (s < nsamples ==> Min(want * wordSize, Min(room, left)) == ReadLen(cbs, nsamples, s, want) * wordSize)
  {
    var r := s % cbs;
    MulDistrib(cbs, r, wordSize);
    MulDistrib(nsamples, s, wordSize);
    MinTimes(cbs - r, nsamples - s, wordSize);
    MinTimes(want, Min(cbs - r, nsamples - s), wordSize);
    if s < nsamples {
      MulLe(1, nsamples - s, wordSize);
    } else {
      MulLe(nsamples, s, wordSize);
    }
  }

  /** The arithmetic of `a400fs_read_chan_file` with stride 1: first word, and bytes, of a read at sample `s`. */
  method CookedRange(g: Geometry, wordSize: nat, nsamples: nat, c: nat, foffset: nat, count: nat, ghost s: nat, ghost want: nat)
    returns (first: nat, bytes: nat)
    requires g.Valid() && 0 < wordSize && foffset == s * wordSize && count == want * wordSize
    ensures bytes == ReadLen(g.cbs, nsamples, s, want) * wordSize
    ensures s < nsamples ==> first == RowStart(g, c, s)
  {
    ChannelBytes(g, wordSize);
    ByteOffset(g.cbs, wordSize, s);
    Headroom(g.cbs, wordSize, nsamples, s, want);
    var bufferlen := g.Len() * wordSize / g.nchan;
    var ibuf := foffset / bufferlen;
    var buffOffset := foffset - ibuf * bufferlen;
    assert ibuf == s / g.cbs && buffOffset == (s % g.cbs) * wordSize;
    var bufHeadroom := bufferlen - buffOffset;
    var setHeadroom := nsamples * wordSize - foffset;
    if setHeadroom <= 0 {
      return 0, 0;
    }
    first := CookedAddress(g, wordSize, c, ibuf, buffOffset, s);
    bytes := Min(count, Min(bufHeadroom, setHeadroom));
  }

  /** The cursor into the buffer, with the row offset of `get_buffer_offset_b`. */
  method CookedAddress(g: Geometry, wordSize: nat, c: nat, ibuf: nat, buffOffset: nat, ghost s: nat) returns (first: nat)
    requires g.Valid() && 0 < wordSize && ibuf == s / g.cbs && buffOffset == (s % g.cbs) * wordSize
    ensures first == RowStart(g, c, s)
  {
    RowOffset(g, wordSize, c, s % g.cbs);
    var bufferOffset := c * (g.Len() * wordSize) / g.nchan;
    var cursor := buffOffset + bufferOffset;
    first := ibuf * g.Len() + cursor / wordSize;
  }

  /** Samples of one buffer, from its bytes and the bytes of a sample. */
  lemma BufferSamples(g: Geometry, wordSize: nat)
    requires g.Valid() && 0 < wordSize
    ensures 0 < g.nchan * wordSize && g.Len() * wordSize / (g.nchan * wordSize) == g.cbs
  {
    MulLe(1, g.nchan, wordSize);
    assert g.Len() * wordSize == g.cbs * (g.nchan * wordSize);
    ExactDiv(g.cbs, g.Len() * wordSize, g.nchan * wordSize);
  }

  lemma SampleOffset(g: Geometry, wordSize: nat, c: nat, s: nat)
    requires g.Valid() && 0 < wordSize
    ensures var q, r := s / g.cbs, s % g.cbs;
      q * g.Len() + (r * (g.nchan * wordSize) + c * wordSize) / wordSize == s * g.nchan + c
  {
    var q, r := s / g.cbs, s % g.cbs;
    assert r * (g.nchan * wordSize) == (r * g.nchan) * wordSize;
    MulDistrib(r * g.nchan, c, wordSize);
    ExactDiv(r * g.nchan + c, (r * g.nchan) * wordSize + c * wordSize, wordSize);
    MulDistrib(q * g.cbs, r, g.nchan);
    assert (q * g.cbs) * g.nchan == q * g.Len();
  }

  /** The arithmetic of `a400fs_read_chan_file_muxdata`: first word, and bytes, of a read at sample `s`. */
  method MuxRange(g: Geometry, wordSize: nat, nsamples: nat, c: nat, foffset: nat, count: nat, ghost s: nat, ghost want: nat)
    returns (first: nat, bytes: nat)
    requires g.Valid() && 0 < wordSize && foffset == s * wordSize && count == want * wordSize && s <= nsamples
    ensures bytes == ReadLen(g.cbs, nsamples, s, want) * wordSize
    ensures s < nsamples && 0 < want ==> first == s * g.nchan + c
  {
    BufferSamples(g, wordSize);
    ExactDiv(s, foffset, wordSize);
    ExactDiv(want, count, wordSize);
    var ssb := g.nchan * wordSize;
    var fsam := foffset / wordSize;
    var bufferSam := g.Len() * wordSize / ssb;
    assert fsam == s && bufferSam == g.cbs;
    var ibuf := fsam / bufferSam;
    var buffOffsetSam := fsam - ibuf * bufferSam;
    assert ibuf == s / g.cbs && buffOffsetSam == s % g.cbs;
    var headsam := Min(bufferSam - buffOffsetSam, nsamples - fsam);
    var headcount := headsam * wordSize;
    assert headsam == 0 <==> s == nsamples;
    MinTimes(want, headsam, wordSize);
    bytes := Min(count, headcount);
    if headcount > count {
      headsam := count / wordSize;
    }
    if headsam <= 0 {
      return 0, 0;
    }
    first := MuxAddress(g, wordSize, c, ibuf, buffOffsetSam, s);
  }

  method MuxAddress(g: Geometry, wordSize: nat, c: nat, ibuf: nat, buffOffsetSam: nat, ghost s: nat) returns (first: nat)
    requires g.Valid() && 0 < wordSize && ibuf == s / g.cbs && buffOffsetSam == s % g.cbs
    ensures first == s * g.nchan + c
  {
    SampleOffset(g, wordSize, c, s);
    var ssb := g.nchan * wordSize;
    var buffOffset := buffOffsetSam * ssb + c * wordSize;
    first := ibuf * g.Len() + buffOffset / wordSize;
  }

  lemma SamplesBefore(g: Geometry, t: nat, q: nat, r: nat)
    requires t == q * g.cbs + r
    ensures t * g.nchan == q * g.Len() + r * g.nchan
  {
    MulDistrib(q * g.cbs, r, g.nchan);
    assert (q * g.cbs) * g.nchan == q * g.Len();
  }

  lemma RowIsSlot(g: Geometry, c: nat, t: nat, q: nat, r: nat)
    requires g.Valid() && c < g.nchan && r < g.cbs && t == q * g.cbs + r
    ensures Slot(g, t * g.nchan + c) == q * g.Len() + c * g.cbs + r
  {
    SamplesBefore(g, t, q, r);
    WordOfSample(g, g.cbs, c, r);
    SlotOfSample(g, q, r, c);
  }

  /** Consecutive samples of one buffer are consecutive words of a row of the demultiplexed image. */
  lemma RowIsSlots(g: Geometry, c: nat, s: nat, k: nat)
    requires g.Valid() && c < g.nchan && s % g.cbs + k < g.cbs
    ensures Slot(g, (s + k) * g.nchan + c) == RowStart(g, c, s) + k
  {
    RowIsSlot(g, c, s + k, s / g.cbs, s % g.cbs + k);
  }

  const ENODEV := 19

  /** An open channel file: the driver's view of the buffers, and the file position. */
  class ChannelFile {
    const g: Geometry
    const mem: array<Word>     // the host buffers, in order
    const wordSize: nat
    const nsamples: nat        // CAPDAT.nsamples
    const c: nat               // word_offset
    const enabled: bool        // the channel is among those its site has enabled
    var offset: nat            // bytes
    ghost var sample: nat      // the same position, in samples

    ghost predicate Valid()
      reads this
    {
      && g.Valid() && mem.Length == g.Hi() && (wordSize == 2 || wordSize == 4)
      && c < g.nchan && nsamples * g.nchan <= g.Hi()
      && offset == sample * wordSize && sample <= nsamples
    }

    constructor (g: Geometry, mem: array<Word>, wordSize: nat, nsamples: nat, c: nat, enabled: bool)
      requires g.Valid() && mem.Length == g.Hi() && (wordSize == 2 || wordSize == 4)
      requires c < g.nchan && nsamples * g.nchan <= g.Hi()
      ensures Valid() && sample == 0
      ensures this.g == g && this.mem == mem && this.wordSize == wordSize && this.nsamples == nsamples
      ensures this.c == c && this.enabled == enabled
    {
      this.g, this.mem, this.wordSize, this.nsamples, this.c, this.enabled := g, mem, wordSize, nsamples, c, enabled;
      offset, sample := 0, 0;
    }

    /** `a400fs_read_chan_file`: a demultiplexed capture. */
    method ReadCooked(count: nat, ghost want: nat, ghost data: seq<Word>) returns (rc: int, buf: seq<Word>)
      requires Valid() && count == want * wordSize
      requires Cooked(g, mem[..], data) && nsamples * g.nchan <= |data|
      modifies this`offset, this`sample
      ensures Valid()
      ensures !enabled ==> rc == -1 && buf == [] && sample == old(sample)
      ensures enabled ==>
        && sample == old(sample) + ReadLen(g.cbs, nsamples, old(sample), want)
        && rc == offset - old(offset)
        && buf == Column(data, g.nchan, nsamples, c)[old(sample)..sample]
    {
      if !enabled {
        return -1, [];
      }
      var first, bytes := CookedRange(g, wordSize, nsamples, c, offset, count, sample, want);
      ghost var n := ReadLen(g.cbs, nsamples, sample, want);
      ReadAdvances(wordSize, sample, n);
      if bytes == 0 {
        return 0, [];
      }
      CookedColumn(g, mem[..], data, nsamples, c, sample, n);
      buf := mem[first..first + bytes / wordSize];
      rc, offset, sample := bytes, offset + bytes, sample + n;
    }

    /** `a400fs_read_chan_file_muxdata`: a raw capture, gathered a sample apart. */
    method ReadMuxdata(count: nat, ghost want: nat, ghost data: seq<Word>) returns (rc: int, buf: seq<Word>)
      requires Valid() && count == want * wordSize
      requires Raw(mem[..], data) && nsamples * g.nchan <= |data|
      modifies this`offset, this`sample
      ensures Valid()
      ensures !enabled ==> rc < 0 && buf == [] && sample == old(sample)
      ensures enabled ==>
        && sample == old(sample) + ReadLen(g.cbs, nsamples, old(sample), want)
        && rc == offset - old(offset)
        && buf == Column(data, g.nchan, nsamples, c)[old(sample)..sample]
    {
      if !enabled {
        return -ENODEV, [];
      }
      var first, bytes := MuxRange(g, wordSize, nsamples, c, offset, count, sample, want);
      ghost var n := ReadLen(g.cbs, nsamples, sample, want);
      ReadAdvances(wordSize, sample, n);
      if bytes == 0 {
        return 0, [];
      }
      buf := CopyStrided(first, bytes / wordSize, data, sample);
      rc, offset, sample := bytes, offset + bytes, sample + n;
    }

    /** `cp_muxdata_lbuf_*`. */
    method CopyStrided(first: nat, headsam: nat, ghost data: seq<Word>, ghost s: nat) returns (lbuf: seq<Word>)
      requires Valid() && Raw(mem[..], data) && nsamples * g.nchan <= |data|
      requires first == s * g.nchan + c && s + headsam <= nsamples
      ensures lbuf == Column(data, g.nchan, nsamples, c)[s..s + headsam]
    {
      ghost var col := Column(data, g.nchan, nsamples, c);
      lbuf := [];
      for iw := 0 to headsam
        invariant lbuf == col[s..s + iw]
      {
        StridedWord(g, mem[..], data, nsamples, c, s, iw);
        assert col[s..s + iw + 1] == col[s..s + iw] + [col[s + iw]];
        lbuf := lbuf + [mem[first + iw * g.nchan]];
      }
    }
  }

  lemma ReadAdvances(wordSize: nat, s: nat, n: nat)
    requires 0 < wordSize
    ensures (n * wordSize) / wordSize == n && (s + n) * wordSize == s * wordSize + n * wordSize
    ensures n * wordSize == 0 <==> n == 0
  {
    ExactDiv(n, n * wordSize, wordSize);
    MulDistrib(s, n, wordSize);
    if 0 < n {
      MulLe(1, n, wordSize);
    }
  }

  lemma WordOfSample(g: Geometry, nsamples: nat, c: nat, s: nat)
    requires g.Valid() && c < g.nchan && s < nsamples
    ensures s * g.nchan + c < nsamples * g.nchan
  {
    MulLe(s + 1, nsamples, g.nchan);
    MulDistrib(s, 1, g.nchan);
  }

  /** `iw` samples on from sample `s` is that many samples' words on. */
  lemma StridedWord(g: Geometry, m: seq<Word>, data: seq<Word>, nsamples: nat, c: nat, s: nat, iw: nat)
    requires g.Valid() && c < g.nchan && Raw(m, data) && nsamples * g.nchan <= |data| && s + iw < nsamples
    ensures s * g.nchan + c + iw * g.nchan < |m|
    ensures m[s * g.nchan + c + iw * g.nchan] == Column(data, g.nchan, nsamples, c)[s + iw]
  {
    var x := (s + iw) * g.nchan + c;
    MulDistrib(s, iw, g.nchan);
    WordOfSample(g, nsamples, c, s + iw);
    assert m[x] == m[..|data|][x] == data[x] == At(data, x);
  }

  lemma CookedWord(g: Geometry, m: seq<Word>, data: seq<Word>, nsamples: nat, c: nat, s: nat, k: nat)
    requires g.Valid() && |m| == g.Hi() && c < g.nchan && Cooked(g, m, data)
    requires nsamples * g.nchan <= |data| && nsamples * g.nchan <= g.Hi()
    requires s % g.cbs + k < g.cbs && s + k < nsamples
    ensures RowStart(g, c, s) + k < |m|
    ensures m[RowStart(g, c, s) + k] == Column(data, g.nchan, nsamples, c)[s + k]
  {
    var w := (s + k) * g.nchan + c;
    RowIsSlots(g, c, s, k);
    WordOfSample(g, nsamples, c, s + k);
    SlotInMemory(g, w);
    assert At(m, Slot(g, w)) == data[w];
  }

  /** A stretch of a row of the demultiplexed image is a stretch of the channel's column. */
  lemma CookedColumn(g: Geometry, m: seq<Word>, data: seq<Word>, nsamples: nat, c: nat, s: nat, n: nat)
    requires g.Valid() && |m| == g.Hi() && c < g.nchan && Cooked(g, m, data)
    requires nsamples * g.nchan <= |data| && nsamples * g.nchan <= g.Hi()
    requires 0 < n && s % g.cbs + n <= g.cbs && s + n <= nsamples
    ensures RowStart(g, c, s) + n <= |m|
    ensures m[RowStart(g, c, s)..RowStart(g, c, s) + n] == Column(data, g.nchan, nsamples, c)[s..s + n]
  {
    var first, col := RowStart(g, c, s), Column(data, g.nchan, nsamples, c);
    CookedWord(g, m, data, nsamples, c, s, n - 1);
    var row := m[first..first + n];
    forall k | 0 <= k < n
      ensures row[k] == col[s..s + n][k]
    {
      CookedWord(g, m, data, nsamples, c, s, k);
    }
  }

  // ----- Whole sessions

  /** The position after a session of reads. */
  function SessionEnd(cbs: nat, nsamples: nat, s: nat, wants: seq<nat>): (e: nat)
    requires 0 < cbs
    ensures s <= nsamples ==> s <= e <= nsamples
    decreases |wants|
  {
    if wants == [] then s
    else SessionEnd(cbs, nsamples, s + ReadLen(cbs, nsamples, s, wants[0]), wants[1..])
  }

  /** Everything a session of reads returns. */
  ghost function Session(cbs: nat, col: seq<Word>, s: nat, wants: seq<nat>): (out: seq<Word>)
    requires 0 < cbs && s <= |col|
    decreases |wants|
  {
    if wants == [] then []
    else
      var n := ReadLen(cbs, |col|, s, wants[0]);
      col[s..s + n] + Session(cbs, col, s + n, wants[1..])
  }

  /** However a client cuts up its reads, it gets the column in order, nothing twice and nothing missing. */
  lemma {:induction false} SessionIsColumn(cbs: nat, col: seq<Word>, s: nat, wants: seq<nat>)
    requires 0 < cbs && s <= |col|
    ensures s <= SessionEnd(cbs, |col|, s, wants) <= |col|
    ensures Session(cbs, col, s, wants) == col[s..SessionEnd(cbs, |col|, s, wants)]
    decreases |wants|
  {
    if wants != [] {
      var n := ReadLen(cbs, |col|, s, wants[0]);
      SessionIsColumn(cbs, col, s + n, wants[1..]);
      var e := SessionEnd(cbs, |col|, s, wants);
      assert col[s..s + n] + col[s + n..e] == col[s..e];
    }
  }

  /** A read is cut short only by the end of its buffer, or of the file. */
  lemma ShortRead(cbs: nat, nsamples: nat, s: nat, want: nat)
    requires 0 < cbs && s <= nsamples
    ensures var n := ReadLen(cbs, nsamples, s, want);
      && n <= want && s % cbs + n <= cbs && s + n <= nsamples
      && (n < want ==> s % cbs + n == cbs || s + n == nsamples)
  {
  }

  /** A read of at least one word returns nothing exactly at the end of the file. */
  lemma EndOfFile(cbs: nat, nsamples: nat, s: nat, want: nat)
    requires 0 < cbs && 0 < want
    ensures ReadLen(cbs, nsamples, s, want) == 0 <==> nsamples <= s
  {
  }

  /** A session with as many non-empty reads as there are samples left reaches the end. */
  lemma {:induction false} SessionReachesEnd(cbs: nat, nsamples: nat, s: nat, wants: seq<nat>)
    requires 0 < cbs && s <= nsamples <= s + |wants| && forall k :: 0 <= k < |wants| ==> 0 < wants[k]
    ensures SessionEnd(cbs, nsamples, s, wants) == nsamples
    decreases |wants|
  {
    if wants != [] {
      var n := ReadLen(cbs, nsamples, s, wants[0]);
      EndOfFile(cbs, nsamples, s, wants[0]);
      SessionReachesEnd(cbs, nsamples, s + n, wants[1..]);
    }
  }

  lemma ColumnsAgree(data: seq<Word>, data': seq<Word>, n: nat, g: Geometry, nsamples: nat, c: nat)
    requires g.Valid() && c < g.nchan && AgreeUpTo(data, data', n) && nsamples * g.nchan <= n
    ensures Column(data, g.nchan, nsamples, c) == Column(data', g.nchan, nsamples, c)
  {
    var col, col' := Column(data, g.nchan, nsamples, c), Column(data', g.nchan, nsamples, c);
    forall s | 0 <= s < nsamples
      ensures col[s] == col'[s]
    {
      WordOfSample(g, nsamples, c, s);
      var i := s * g.nchan + c;
      assert data[i] == data[..n][i] == data'[..n][i] == data'[i];
    }
  }

  /** The first `n` samples of a stored channel are those of the capture read round the ring, where it is good. */
  lemma StoredColumn(w: Capture, m: seq<Word>, esp: nat, c: nat, n: nat)
    requires w.Valid() && c < w.g.nchan && n * w.g.nchan <= GoodLen(w, esp)
    ensures Column(Stored(w, m, esp), w.g.nchan, n, c) == Column(Captured(w, m, esp), w.g.nchan, n, c)
  {
    OverrunBound(w, esp);
    StoredIsCaptured(w, m, esp);
    ColumnsAgree(Stored(w, m, esp), Captured(w, m, esp), GoodLen(w, esp), w.g, n, c);
  }
}
