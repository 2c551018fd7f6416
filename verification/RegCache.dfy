/**
  The write-through register cache: acq400_reg_cache.c, and the register access of acq400_core.c that goes
  through it. Two caches, of control and of clock registers, have maps of their own and one data array.
 */
module RegCache {
  import opened Bits
  import opened Options

  const MAP_REGS := 4
  const BITS := 32
  const CACHE_MAX := 128     // MAP_REGS * BITS registers

  // ----- Maps of registers

  /** `m |= 1 << b`. */
  function SetBit(m: nat, b: nat): (m': nat)
    decreases b
  {
    if b == 0 then (if m % 2 == 1 then m else m + 1) else m % 2 + 2 * SetBit(m / 2, b - 1)
  }

  lemma {:induction false} BitSet(m: nat, b: nat, c: nat)
    ensures Bit(SetBit(m, b), c) <==> c == b || Bit(m, c)
    decreases b
  {
    var m' := SetBit(m, b);
    if b == 0 {
      assert m' / 2 == m / 2;
    } else {
      assert m' % 2 == m % 2 && m' / 2 == SetBit(m / 2, b - 1);
      if c > 0 {
        BitSet(m / 2, b - 1, c - 1);
      }
    }
  }

  lemma {:induction false} SetBitBound(m: nat, b: nat, k: nat)
    requires m < Pow2(k) && b < k
    ensures SetBit(m, b) < Pow2(k)
    decreases b
  {
    if b > 0 {
      SetBitBound(m / 2, b - 1, k - 1);
    } else if m % 2 == 0 {
      assert Pow2(k) == 2 * Pow2(k - 1);
    }
  }

  lemma {:induction false} ShiftedMore(m: int, b: nat, c: nat)
    ensures Shifted(m, b + c) == Shifted(Shifted(m, b), c)
    decreases b
  {
    if b > 0 {
      ShiftedMore(m / 2, b - 1, c);
    }
  }

  lemma {:induction false} ShiftedOut(m: nat, k: nat)
    requires m < Pow2(k)
    ensures Shifted(m, k) == 0
    decreases k
  {
    if k > 0 {
      ShiftedOut(m / 2, k - 1);
    }
  }

  /** When nothing is left of a map word after `b` shifts, it has no bit at or above `b`. */
  lemma NoBitsAbove(m: nat, b: nat, c: nat)
    requires Shifted(m, b) == 0 && b <= c
    ensures !Bit(m, c)
  {
    ShiftedMore(m, b, c - b);
    ShiftedZero(c - b);
  }

  ghost predicate Words(map4: seq<nat>) {
    |map4| == MAP_REGS && forall ix :: 0 <= ix < MAP_REGS ==> map4[ix] < Pow2(BITS)
  }

  /** `reg` is in the map. */
  predicate InMap(map4: seq<nat>, reg: nat)
    requires |map4| == MAP_REGS && reg < CACHE_MAX
  {
    Bit(map4[reg / BITS], reg % BITS)
  }

  // ----- One cache

  class Cache {
    const map4: array<nat>
    const data: array<nat>       // may be another cache's too

    ghost predicate Valid()
      reads this, map4
    {
      map4.Length == MAP_REGS && data.Length == CACHE_MAX && map4 != data && Words(map4[..])
    }

    ghost predicate Has(reg: nat)
      requires map4.Length == MAP_REGS && reg < CACHE_MAX
      reads this, map4
    {
      InMap(map4[..], reg)
    }

    constructor (data: array<nat>)
      requires data.Length == CACHE_MAX
      ensures Valid() && this.data == data && fresh(map4)
      ensures forall reg: nat :: reg < CACHE_MAX ==> !Has(reg)
    {
      this.data := data;
      map4 := new nat[MAP_REGS](_ => 0);
      new;
      forall reg: nat | reg < CACHE_MAX
        ensures !Has(reg)
      {
        ShiftedZero(reg % BITS);
      }
      assert 0 < Pow2(BITS);
    }

    /** `dev_rc_register_init`; false for a register too high to be cached. */
    method RegisterInit(regBytes: nat, initval: nat) returns (ok: bool)
      requires Valid()
      modifies map4, data
      ensures Valid() && ok == (regBytes / 4 < CACHE_MAX)
      ensures forall r: nat :: r < CACHE_MAX ==> (Has(r) <==> r == regBytes / 4 || old(Has(r)))
      ensures data[..] == if ok then old(data[..])[regBytes / 4 := initval] else old(data[..])
    {
      var reg := regBytes / 4;
      if reg < CACHE_MAX {
        var ix, bit := reg / BITS, reg % BITS;
        MapWith(map4[..], reg);
        map4[ix] := SetBit(map4[ix], bit);
        data[reg] := initval;
        ok := true;
      } else {
        ok := false;
      }
    }

    /** `dev_rc_update`: refresh the mapped registers from the device. */
    method Update(dev: array<nat>)
      requires Valid() && CACHE_MAX <= dev.Length && dev != data && dev != map4
      modifies data
      ensures Valid() && map4[..] == old(map4[..])
      ensures forall r: nat :: r < CACHE_MAX ==> data[r] == if Has(r) then dev[r] else old(data[r])
    {
      for ix := 0 to MAP_REGS
        invariant Refreshed(map4[..], dev[..], old(data[..]), data[..], ix * BITS)
      {
        UpdateWord(dev, ix, old(data[..]));
      }
    }

    /** The inner loop: shift the map word out, a bit for each register. */
    method UpdateWord(dev: array<nat>, ix: nat, ghost d0: seq<nat>)
      requires Valid() && CACHE_MAX <= dev.Length && dev != data && dev != map4 && ix < MAP_REGS
      requires Refreshed(map4[..], dev[..], d0, data[..], ix * BITS)
      modifies data
      ensures Refreshed(map4[..], dev[..], d0, data[..], ix * BITS + BITS)
    {
      var m, bit := map4[ix], 0;
      while m != 0
        invariant bit <= BITS && m == Shifted(map4[ix], bit)
        invariant Refreshed(map4[..], dev[..], d0, data[..], ix * BITS + bit)
        decreases m
      {
        if bit == BITS {
          ShiftedOut(map4[ix], BITS);
          assert false;
        }
        var reg := ix * BITS + bit;
        assert reg / BITS == ix && reg % BITS == bit;
        if m % 2 == 1 {
          data[reg] := dev[reg];
        }
        ShiftedMore(map4[ix], bit, 1);
        m, bit := m / 2, bit + 1;
      }
      RestUnmapped(map4[..], dev[..], d0, data[..], ix, bit);
    }

    /** `dev_rc_read`: None when the register is not in the cache. */
    method RcRead(offset: nat) returns (value: Option<nat>)
      requires Valid() && offset / 4 != CACHE_MAX
      ensures value == if offset / 4 < CACHE_MAX && Has(offset / 4) then Some(data[offset / 4]) else None
    {
      var reg := offset / 4;
      if reg > CACHE_MAX {
        return None;
      }
      if Bit(map4[reg / BITS], reg % BITS) {
        value := Some(data[reg]);
      } else {
        value := None;
      }
    }

    /** `dev_rc_write`: to the cache and to the device, or `cached` is false and to neither. */
    method RcWrite(dev: array<nat>, offset: nat, v: nat) returns (cached: bool)
      requires Valid() && offset / 4 != CACHE_MAX && offset / 4 < dev.Length && dev != data && dev != map4
      modifies data, dev
      ensures cached == (offset / 4 < CACHE_MAX && Has(offset / 4)) && map4[..] == old(map4[..])
      ensures data[..] == if cached then old(data[..])[offset / 4 := v] else old(data[..])
      ensures dev[..] == if cached then old(dev[..])[offset / 4 := v] else old(dev[..])
    {
      var reg := offset / 4;
      if reg > CACHE_MAX {
        return false;
      }
      if Bit(map4[reg / BITS], reg % BITS) {
        data[reg] := v;
        dev[reg] := v;
        cached := true;
      } else {
        cached := false;
      }
    }
  }

  /** Registers below `n` that are mapped have been read afresh, and the rest are as they were. */
  ghost predicate Refreshed(map4: seq<nat>, dev: seq<nat>, d0: seq<nat>, d: seq<nat>, n: nat) {
    && |map4| == MAP_REGS && CACHE_MAX <= |dev| && |d0| == |d| == CACHE_MAX && n <= CACHE_MAX
    && forall r: nat :: r < CACHE_MAX ==> d[r] == if r < n && InMap(map4, r) then dev[r] else d0[r]
  }

  lemma RestUnmapped(map4: seq<nat>, dev: seq<nat>, d0: seq<nat>, d: seq<nat>, ix: nat, bit: nat)
    requires ix < MAP_REGS && bit <= BITS && Refreshed(map4, dev, d0, d, ix * BITS + bit) && Shifted(map4[ix], bit) == 0
    ensures Refreshed(map4, dev, d0, d, ix * BITS + BITS)
  {
    forall r: nat | ix * BITS + bit <= r < ix * BITS + BITS
      ensures !InMap(map4, r)
    {
      assert r / BITS == ix && r % BITS == r - ix * BITS;
      NoBitsAbove(map4[ix], bit, r % BITS);
    }
  }

  lemma MapWith(map4: seq<nat>, reg: nat)
    requires Words(map4) && reg < CACHE_MAX
    ensures var map4' := map4[reg / BITS := SetBit(map4[reg / BITS], reg % BITS)];
      Words(map4') && forall r: nat :: r < CACHE_MAX ==> (InMap(map4', r) <==> r == reg || InMap(map4, r))
  {
    var ix, bit := reg / BITS, reg % BITS;
    var map4' := map4[ix := SetBit(map4[ix], bit)];
    SetBitBound(map4[ix], bit, BITS);
    forall r: nat | r < CACHE_MAX
      ensures InMap(map4', r) <==> r == reg || InMap(map4, r)
    {
      BitSet(map4[ix], bit, r % BITS);
      assert r == reg <==> r / BITS == ix && r % BITS == bit;
    }
  }

  // ----- Register access on a device

  /** Registers and caches: what is mapped, what is cached, what the device holds. */
  datatype Regs = Regs(ctrl: set<nat>, clk: set<nat>, data: map<nat, nat>, dev: map<nat, nat>)

  function Get(m: map<nat, nat>, r: nat): (v: nat) {
    if r in m then m[r] else 0
  }

  datatype Event = Write(reg: nat, v: nat) | Refresh | Tick(reg: nat, v: nat)

  /** `Tick` is the device changing a register by itself. */
  function Step(r: Regs, e: Event): (r': Regs) {
    match e
    case Write(reg, v) =>
      r.(data := if reg in r.ctrl then r.data[reg := v] else r.data, dev := r.dev[reg := v])
    case Refresh => r.(data := r.data + map c | c in r.clk :: Get(r.dev, c))
    case Tick(reg, v) => r.(dev := r.dev[reg := v])
  }

  function Run(r: Regs, es: seq<Event>): (r': Regs)
    decreases |es|
  {
    if es == [] then r else Run(Step(r, es[0]), es[1..])
  }

  /** A read: from the cache when it is allowed and the register is mapped. */
  function ReadOf(r: Regs, reg: nat, nocache: bool): (v: nat) {
    if !nocache && reg in r.ctrl then Get(r.data, reg) else Get(r.dev, reg)
  }

  /** The last value written to `reg`. */
  function LastWrite(es: seq<Event>, reg: nat): (v: Option<nat>) {
    if es == [] then None else
    var rest := LastWrite(es[1..], reg);
    if rest.Some? then rest else if es[0].Write? && es[0].reg == reg then Some(es[0].v) else None
  }

  /** The device does not change the control register by itself. */
  ghost predicate Stable(es: seq<Event>, reg: nat) {
    forall i :: 0 <= i < |es| && es[i].Tick? ==> es[i].reg != reg
  }

  ghost predicate Refreshes(es: seq<Event>) {
    exists i :: 0 <= i < |es| && es[i].Refresh?
  }

  /** The device holds the last value written, or what it held at first. */
  lemma {:induction false} DeviceHasLastWrite(r: Regs, es: seq<Event>, reg: nat)
    requires Stable(es, reg)
    ensures Get(Run(r, es).dev, reg) == match LastWrite(es, reg) case Some(v) => v case None => Get(r.dev, reg)
    ensures Run(r, es).ctrl == r.ctrl && Run(r, es).clk == r.clk
    decreases |es|
  {
    if es != [] {
      assert es[0] == es[..][0];
      DeviceHasLastWrite(Step(r, es[0]), es[1..], reg);
    }
  }

  lemma {:induction false} RefreshesLater(es: seq<Event>)
    requires es != []
    ensures Refreshes(es) <==> es[0].Refresh? || Refreshes(es[1..])
  {
    if i :| 0 <= i < |es| && es[i].Refresh? {
      assert i > 0 ==> es[1..][i - 1].Refresh?;
    }
    if Refreshes(es[1..]) {
      var i :| 0 <= i < |es[1..]| && es[1..][i].Refresh?;
      assert es[i + 1].Refresh?;
    }
  }

  /** A step leaves a coherent entry coherent, and makes one so exactly by writing or refreshing it. */
  lemma StepCoherent(r: Regs, e: Event, reg: nat)
    requires reg in r.ctrl && !(e.Tick? && e.reg == reg)
    ensures Get(Step(r, e).data, reg) == Get(Step(r, e).dev, reg) <==>
      || Get(r.data, reg) == Get(r.dev, reg) || (e.Write? && e.reg == reg) || (e.Refresh? && reg in r.clk)
  {
  }

  /**
    After any sequence of writes, clock refreshes and changes the device makes elsewhere, a cached read of a
    control register is what the device holds exactly when it was so at first, or the register has been
    written, or the maps overlap there and a refresh has come by.
   */
  lemma {:induction false} CoherentIff(r: Regs, es: seq<Event>, reg: nat)
    requires reg in r.ctrl && Stable(es, reg)
    ensures ReadOf(Run(r, es), reg, false) == ReadOf(Run(r, es), reg, true) <==>
      || Get(r.data, reg) == Get(r.dev, reg) || LastWrite(es, reg).Some? || (reg in r.clk && Refreshes(es))
    decreases |es|
  {
    DeviceHasLastWrite(r, es, reg);
    if es != [] {
      assert es[0] == es[..][0];
      StepCoherent(r, es[0], reg);
      RefreshesLater(es);
      DeviceHasLastWrite(Step(r, es[0]), es[1..], reg);
      CoherentIff(Step(r, es[0]), es[1..], reg);
    }
  }

  /** A register that has been written reads as the last value written, from the cache or from the device. */
  lemma CachedReadIsLastWrite(r: Regs, es: seq<Event>, reg: nat, nocache: bool)
    requires reg in r.ctrl && Stable(es, reg) && LastWrite(es, reg).Some?
    ensures ReadOf(Run(r, es), reg, nocache) == LastWrite(es, reg).value
  {
    CoherentIff(r, es, reg);
    DeviceHasLastWrite(r, es, reg);
  }

  /** A register that is not mapped, or any read past the cache, is the last value written, or the device's own. */
  lemma UncachedRead(r: Regs, es: seq<Event>, reg: nat, nocache: bool)
    requires Stable(es, reg) && (nocache || reg !in r.ctrl)
    ensures ReadOf(Run(r, es), reg, nocache) == match LastWrite(es, reg) case Some(v) => v case None => Get(r.dev, reg)
  {
    DeviceHasLastWrite(r, es, reg);
  }

  lemma {:induction false} RunSnoc(r: Regs, es: seq<Event>, e: Event)
    ensures Run(r, es + [e]) == Step(Run(r, es), e)
    decreases |es|
  {
    if es == [] {
      assert es + [e] == [e] && [e][1..] == [];
    } else {
      assert (es + [e])[1..] == es[1..] + [e];
      RunSnoc(Step(r, es[0]), es[1..], e);
    }
  }

  lemma {:induction false} MapsKept(r: Regs, es: seq<Event>)
    ensures Run(r, es).ctrl == r.ctrl && Run(r, es).clk == r.clk
    decreases |es|
  {
    if es != [] {
      MapsKept(Step(r, es[0]), es[1..]);
    }
  }

  /** After any run a refresh leaves the clock entries, and no others, as the device has them. */
  lemma RefreshedEntries(r: Regs, es: seq<Event>, reg: nat)
    ensures Get(Run(r, es + [Refresh]).data, reg) == Get(if reg in r.clk then Run(r, es).dev else Run(r, es).data, reg)
    ensures Run(r, es + [Refresh]).dev == Run(r, es).dev
  {
    RunSnoc(r, es, Refresh);
    MapsKept(r, es);
  }

  // ----- The driver's access

  class AcqRegs {
    const dev: array<nat>            // the device's registers
    const data: array<nat>
    const ctrl: Cache
    const clk: Cache

    ghost predicate Valid()
      reads this, ctrl, clk, ctrl.map4, clk.map4
    {
      && ctrl != clk && ctrl.Valid() && clk.Valid() && ctrl.data == clk.data == data && ctrl.map4 != clk.map4
      && CACHE_MAX < dev.Length && dev != data && dev != ctrl.map4 && dev != clk.map4
    }

    constructor (dev: array<nat>, ctrl: Cache, clk: Cache)
      requires ctrl != clk && ctrl.Valid() && clk.Valid() && ctrl.data == clk.data && ctrl.map4 != clk.map4
      requires CACHE_MAX < dev.Length && dev != ctrl.data && dev != ctrl.map4 && dev != clk.map4
      ensures Valid() && this.dev == dev && this.ctrl == ctrl && this.clk == clk
    {
      this.dev, this.data, this.ctrl, this.clk := dev, ctrl.data, ctrl, clk;
    }

    /** What the caches and the device hold, for `Step` and `ReadOf`. */
    ghost function View(): (r: Regs)
      requires Valid()
      reads this, ctrl, clk, ctrl.map4, clk.map4, data, dev
    {
      Regs(set r: nat | r < CACHE_MAX && ctrl.Has(r), set r: nat | r < CACHE_MAX && clk.Has(r),
           map r: nat | r < CACHE_MAX :: data[r], map r: nat | r < dev.Length :: dev[r])
    }

    /** `acq400wr32`. */
    method Wr32(offset: nat, value: nat)
      requires Valid() && offset / 4 != CACHE_MAX && offset / 4 < dev.Length
      modifies data, dev
      ensures Valid() && View() == Step(old(View()), Write(offset / 4, value))
    {
      ghost var v := View();
      var cached := ctrl.RcWrite(dev, offset, value);
      if !cached {
        dev[offset / 4] := value;
      }
      assert View().ctrl == v.ctrl && View().clk == v.clk;
      assert View().dev == v.dev[offset / 4 := value];
      assert View().data == Step(v, Write(offset / 4, value)).data;
    }

    /** `_acq400rd32`. */
    method Rd32(offset: nat, nocache: bool) returns (value: nat)
      requires Valid() && offset / 4 != CACHE_MAX && offset / 4 < dev.Length
      ensures value == ReadOf(View(), offset / 4, nocache)
    {
      var cached: Option<nat> := None;
      if !nocache {
        cached := ctrl.RcRead(offset);
      }
      value := if cached.Some? then cached.value else dev[offset / 4];
    }

    /** `dev_rc_timer_update` of the clock cache; `inhibited` is its site's bit of `cache_sites_mask`. */
    method TimerUpdate(inhibited: bool)
      requires Valid()
      modifies data
      ensures Valid() && View() == if inhibited then old(View()) else Step(old(View()), Refresh)
    {
      if inhibited {
        return;
      }
      ghost var v := View();
      clk.Update(dev);
      assert View().ctrl == v.ctrl && View().clk == v.clk && View().dev == v.dev;
      assert View().data == Step(v, Refresh).data;
    }

    /** One event; `Tick` is the device's own doing. */
    method Turn(e: Event)
      requires Valid() && OnDevice(e, dev.Length)
      modifies data, dev
      ensures Valid() && View() == Step(old(View()), e)
    {
      match e {
        case Write(reg, v) =>
          Wr32(4 * reg, v);
        case Refresh =>
          TimerUpdate(false);
        case Tick(reg, v) =>
          ghost var w := View();
          dev[reg] := v;
          assert View().dev == w.dev[reg := v];
      }
    }

    /** Any run of writes, refreshes and changes on the device is one of the model: coherent exactly as it says. */
    method Drive(es: seq<Event>)
      requires Valid() && forall i :: 0 <= i < |es| ==> OnDevice(es[i], dev.Length)
      modifies data, dev
      ensures Valid() && View() == Run(old(View()), es)
      ensures forall reg: nat :: reg in old(View()).ctrl && Stable(es, reg) ==>
        && (ReadOf(View(), reg, false) == ReadOf(View(), reg, true) <==>
            || Get(old(View()).data, reg) == Get(old(View()).dev, reg) || LastWrite(es, reg).Some?
            || (reg in old(View()).clk && Refreshes(es)))
        && (LastWrite(es, reg).Some? ==> ReadOf(View(), reg, false) == ReadOf(View(), reg, true) == LastWrite(es, reg).value)
      ensures forall reg: nat, nocache: bool :: Stable(es, reg) && (nocache || reg !in old(View()).ctrl) ==>
        ReadOf(View(), reg, nocache) ==
        match LastWrite(es, reg) case Some(v) => v case None => Get(old(View()).dev, reg)
    {
      ghost var r := View();
      assert es[0..] == es;
      for k := 0 to |es|
        invariant Valid() && Run(View(), es[k..]) == Run(r, es)
      {
        assert es[k..][0] == es[k] && es[k..][1..] == es[k + 1..];
        Turn(es[k]);
      }
      forall reg: nat, nocache: bool | Stable(es, reg) && (nocache || reg !in r.ctrl)
        ensures ReadOf(View(), reg, nocache) == match LastWrite(es, reg) case Some(v) => v case None => Get(r.dev, reg)
      {
        UncachedRead(r, es, reg, nocache);
      }
      forall reg: nat | reg in r.ctrl && Stable(es, reg)
        ensures ReadOf(View(), reg, false) == ReadOf(View(), reg, true) <==>
          Get(r.data, reg) == Get(r.dev, reg) || LastWrite(es, reg).Some? || (reg in r.clk && Refreshes(es))
        ensures LastWrite(es, reg).Some? ==> ReadOf(View(), reg, false) == ReadOf(View(), reg, true) == LastWrite(es, reg).value
      {
        CoherentIff(r, es, reg);
        if LastWrite(es, reg).Some? {
          CachedReadIsLastWrite(r, es, reg, false);
          CachedReadIsLastWrite(r, es, reg, true);
        }
      }
    }
  }

  /** The event is of a register that the device has. */
  ghost predicate OnDevice(e: Event, n: nat) {
    match e
    case Write(reg, _) => reg < n && reg != CACHE_MAX
    case Refresh => true
    case Tick(reg, _) => reg < n
  }
}
