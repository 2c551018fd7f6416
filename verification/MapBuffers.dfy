/**
  The buffer memory that acq400_stream maps (Buffer.h): `nbuffers` buffers laid end to end.
  Addresses are counted in data words from the low end of the mapping, so `ba0` is 0.
  A buffer holds `cbs` samples of `nchan` words; buffers 0 and 1 are reserved for the
  post-processor, and the capture ring occupies the rest.
 */
module MapBuffers {
  type Word = int   // sample words are moved, never interpreted

  const RESERVED := 2

  datatype Geometry = Geometry(nchan: nat, cbs: nat, nbuffers: nat) {
    function Len(): (n: nat) {
      nchan * cbs
    }

    ghost predicate Valid() {
      0 < nchan && 0 < cbs && 0 < Len() && RESERVED < nbuffers
    }

    function Lo(): (a: nat) {
      RESERVED * Len()
    }

    function Hi(): (a: nat) {
      nbuffers * Len()
    }
  }

  /** An address off one end of the capture ring, brought round to the other. */
  function Ring(g: Geometry, a: int): (a': int) {
    if a < g.Lo() then a + (g.Hi() - g.Lo()) else if a >= g.Hi() then a - (g.Hi() - g.Lo()) else a
  }

  /** Memory contents at any address; 0 outside the mapping. */
  function At(m: seq<Word>, a: int): (w: Word) {
    if 0 <= a < |m| then m[a] else 0
  }

  /** What `memcpy` of `n` words leaves in memory `m`. */
  ghost function Copied(m: seq<Word>, dst: nat, src: nat, n: nat): (m': seq<Word>)
  {
    if dst + n <= |m| && src + n <= |m| then m[..dst] + m[src..src + n] + m[dst + n..] else m
  }

  /** An ascending copy; overlapping ranges are copied faithfully when the data moves down. */
  method Memcpy(mem: array<Word>, dst: nat, src: nat, n: nat)
    requires dst + n <= mem.Length && src + n <= mem.Length
    requires dst <= src || src + n <= dst
    modifies mem
    ensures mem[..] == Copied(old(mem[..]), dst, src, n)
  {
    ghost var m0 := mem[..];
    for k := 0 to n
      invariant CopyUpTo(m0, mem[..], dst, src, k)
    {
      CopyNext(m0, mem[..], dst, src, k, n);
      mem[dst + k] := mem[src + k];
    }
    CopyEnd(m0, mem[..], dst, src, n);
  }

  ghost predicate CopyUpTo(m0: seq<Word>, m: seq<Word>, dst: nat, src: nat, k: nat) {
    && |m| == |m0| && dst + k <= |m| && src + k <= |m|
    && (forall a {:trigger m[a]} :: dst <= a < dst + k ==> m[a] == m0[src + (a - dst)])
    && (forall a {:trigger m[a]} :: 0 <= a < dst || dst + k <= a < |m| ==> m[a] == m0[a])
  }

  lemma CopyNext(m0: seq<Word>, m: seq<Word>, dst: nat, src: nat, k: nat, n: nat)
    requires CopyUpTo(m0, m, dst, src, k) && k < n && dst + n <= |m| && src + n <= |m|
    requires dst <= src || src + n <= dst
    ensures CopyUpTo(m0, m[dst + k := m[src + k]], dst, src, k + 1)
  {
    assert m[src + k] == m0[src + k];
  }

  lemma CopyEnd(m0: seq<Word>, m: seq<Word>, dst: nat, src: nat, n: nat)
    requires CopyUpTo(m0, m, dst, src, n)
    ensures m == Copied(m0, dst, src, n)
  {
  }
}
