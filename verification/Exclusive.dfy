/** Load- and store-exclusive as compare-and-exchange: any number of cores over
    one memory, one instruction at a time in any order. */
module Exclusive {
  import opened AddressSpace
  import opened Flags
  import opened JitState
  import opened LeBytes

  datatype MemByte = MemByte(b: Byte, read: bool, write: bool)
  type Mem = map<int, MemByte>
  type Registers = x: seq<U64> | |x| == 31 witness seq(31, _ => 0)
  datatype Core = Core(x: Registers, monitor: Option<Monitor>)
  datatype Sys = Sys(mem: Mem, cores: seq<Core>)

  // ---- memory ----

  predicate CanRead(m: Mem, a: int, n: nat) {
    forall k :: a <= k < a + n ==> k in m && m[k].read
  }

  predicate CanWrite(m: Mem, a: int, n: nat) {
    forall k :: a <= k < a + n ==> k in m && m[k].write
  }

  function ReadAt(m: Mem, a: int, n: nat): (bs: seq<Byte>)
    requires CanRead(m, a, n)
  {
    seq(n, i requires 0 <= i < n => m[a + i].b)
  }

  function WriteAt(m: Mem, a: int, bs: seq<Byte>): (m': Mem) {
    map k | k in m :: if a <= k < a + |bs| then m[k].(b := bs[k - a]) else m[k]
  }

  /** The little-endian number in `n` bytes at `a`. */
  function Number(m: Mem, a: int, n: nat): nat
    requires CanRead(m, a, n)
  {
    FromBytes(ReadAt(m, a, n))
  }

  /** `cmpxchg`: the new memory, if it wrote; or a fault. */
  datatype Exchange = Wrote(m: Mem) | Differs | Faults

  function CompareExchange(m: Mem, a: int, was: seq<Byte>, new_: seq<Byte>): Exchange
    requires |was| == |new_|
  {
    if !CanRead(m, a, |was|) then Faults
    else if ReadAt(m, a, |was|) != was then Differs
    else if !CanWrite(m, a, |new_|) then Faults
    else Wrote(WriteAt(m, a, new_))
  }

  // ---- instructions ----

  /** Elements of `2^size` bytes, one or two of them. */
  datatype Shape = Shape(size: nat, pair: bool) {
    ghost predicate Valid() {
      size <= 3 && (pair ==> size >= 2)
    }

    function Elem(): nat {
      if size == 0 then 1 else if size == 1 then 2 else if size == 2 then 4 else 8
    }

    function Total(): nat {
      if pair then 2 * Elem() else Elem()
    }
  }

  lemma ShapeBytes(s: Shape)
    requires s.Valid()
    ensures s.Elem() == Pow2(s.size) && s.Total() == Pow2(if s.pair then s.size + 1 else s.size)
  {
    assert Pow2(0) == 1 && Pow2(1) == 2 && Pow2(2) == 4;
    assert Pow2(3) == 8 && Pow2(4) == 2 * Pow2(3);
  }

  datatype Insn =
    | LoadEx(shape: Shape, rt: nat, rt2: nat, addr: U64)
    | StoreEx(shape: Shape, rs: nat, rt: nat, rt2: nat, addr: U64)
    | Clrex
    | Store(addr: U64, data: seq<Byte>)
    /** Any instruction that touches neither memory nor the monitor. */
    | Compute(x: Registers)

  datatype Effect = Done | Succeeded | Failed | Fault

  function Reg(x: Registers, r: nat): U64 {
    if r < 31 then x[r] else 0
  }

  function SetReg(x: Registers, r: nat, v: U64): Registers {
    if r < 31 then x[r := v] else x
  }

  /** The registers after a load-exclusive of `v`. */
  function Loaded(x: Registers, i: Insn, v: nat): Registers
    requires i.LoadEx? && i.shape.Valid()
  {
    var bits := Pow256(i.shape.Elem());
    if i.shape.pair then SetReg(SetReg(x, i.rt, v % bits % B64), i.rt2, v / bits % B64) else SetReg(x, i.rt, v % B64)
  }

  /** The number a store-exclusive writes, before truncation to its bytes. */
  function Stored(x: Registers, i: Insn): nat
    requires i.StoreEx?
  {
    var bits := Pow256(i.shape.Elem());
    if i.shape.pair then Reg(x, i.rt) % bits + Reg(x, i.rt2) * bits else Reg(x, i.rt)
  }

  /** A loaded value fits the monitor. */
  lemma LoadedFits(s: Shape, bs: seq<Byte>)
    requires s.Valid() && |bs| == s.Total()
    ensures FromBytes(bs) < B128
  {
    FromBytesBound(bs);
    assert Pow256(1) == 256 && Pow256(2) == 0x1_0000 && Pow256(4) == B32;
    assert Pow256(8) == B64;
    assert Pow256(12) == B64 * B32;
    assert Pow256(16) == B128;
  }

  /** One instruction of one core: the memory, that core, and what happened. */
  function Execute(m: Mem, c: Core, i: Insn): (r: (Mem, Core, Effect))
    requires i.LoadEx? || i.StoreEx? ==> i.shape.Valid()
  {
    match i
    case Clrex => (m, c.(monitor := None), Done)
    case Compute(x) => (m, c.(x := x), Done)
    case Store(a, data) =>
      if CanWrite(m, a, |data|) then (WriteAt(m, a, data), c, Done) else (m, c, Fault)
    case LoadEx(s, rt, rt2, a) =>
      if a % s.Total() != 0 || !CanRead(m, a, s.Total()) then (m, c, Fault)
      else
        var v := Number(m, a, s.Total());
        LoadedFits(s, ReadAt(m, a, s.Total()));
        (m, Core(Loaded(c.x, i, v), Some(Monitor(a, s.Total(), v))), Done)
    case StoreEx(s, rs, rt, rt2, a) =>
      if a % s.Total() != 0 then (m, c, Fault)
      else
        var c' := c.(monitor := None);
        var new_ := ToBytes(Stored(c.x, i), s.Total());
        if c.monitor.Some? && c.monitor.value.addr == a && c.monitor.value.bytes == s.Total() then
          match CompareExchange(m, a, ToBytes(c.monitor.value.value, s.Total()), new_)
          case Faults => (m, c', Fault)
          case Differs => (m, c'.(x := SetReg(c.x, rs, 1)), Failed)
          case Wrote(m') => (m', c'.(x := SetReg(c.x, rs, 0)), Succeeded)
        else (m, c'.(x := SetReg(c.x, rs, 1)), Failed)
  }

  // ---- runs ----

  datatype Event = Event(core: nat, insn: Insn)

  ghost predicate ValidEvent(cores: nat, e: Event) {
    e.core < cores && (e.insn.LoadEx? || e.insn.StoreEx? ==> e.insn.shape.Valid())
  }

  function Step(s: Sys, e: Event): (r: (Sys, Effect))
    requires ValidEvent(|s.cores|, e)
    ensures |r.0.cores| == |s.cores|
  {
    var (m, c, f) := Execute(s.mem, s.cores[e.core], e.insn);
    (Sys(m, s.cores[e.core := c]), f)
  }

  /** Any interleaving: `states[k + 1]` is `states[k]` after `events[k]`. */
  ghost predicate IsRun(states: seq<Sys>, events: seq<Event>) {
    && |states| == |events| + 1
    && (forall c :: 0 <= c < |states[0].cores| ==> states[0].cores[c].monitor == None)
    && (forall k {:trigger StepAt(states, events, k)} :: 0 <= k < |events| ==> StepAt(states, events, k))
  }

  ghost predicate StepAt(states: seq<Sys>, events: seq<Event>, k: nat)
    requires k < |events| < |states|
  {
    && |states[k].cores| == |states[0].cores| && ValidEvent(|states[0].cores|, events[k])
    && states[k + 1] == Step(states[k], events[k]).0
  }

  ghost function EffectAt(states: seq<Sys>, events: seq<Event>, k: nat): Effect
    requires IsRun(states, events) && k < |events|
  {
    assert StepAt(states, events, k);
    Step(states[k], events[k]).1
  }

  /** Event `j` is the load-exclusive of core `c` that `m` comes from: it read
      `m.value` from memory, and until `i` the core completed no other
      exclusive. */
  ghost predicate LoadedBy(states: seq<Sys>, events: seq<Event>, c: nat, m: Monitor, j: int, i: nat)
    requires IsRun(states, events) && i <= |events|
  {
    && 0 <= j < i && events[j].core == c && events[j].insn.LoadEx? && EffectAt(states, events, j) == Done
    && m.addr == events[j].insn.addr && m.bytes == events[j].insn.shape.Total()
    && CanRead(states[j].mem, m.addr, m.bytes) && m.value == Number(states[j].mem, m.addr, m.bytes)
    && forall k {:trigger events[k]} :: j < k < i && events[k].core == c ==>
         EffectAt(states, events, k) != Succeeded && !(events[k].insn.LoadEx? && EffectAt(states, events, k) == Done)
  }

  /** An event other than a load-exclusive of the core leaves its monitor, or takes
      it away; a success takes it away. */
  lemma MonitorStays(states: seq<Sys>, events: seq<Event>, i: nat, c: nat)
    requires IsRun(states, events) && i < |events| && StepAt(states, events, i)
    requires c < |states[i].cores| && states[i + 1].cores[c].monitor.Some?
    requires !(events[i].core == c && events[i].insn.LoadEx? && EffectAt(states, events, i) == Done)
    ensures states[i + 1].cores[c].monitor == states[i].cores[c].monitor
    ensures events[i].core == c ==> EffectAt(states, events, i) != Succeeded
  {
  }

  lemma StillLoaded(states: seq<Sys>, events: seq<Event>, i: nat, c: nat, m: Monitor, j: int)
    requires IsRun(states, events) && i < |events| && LoadedBy(states, events, c, m, j, i)
    requires events[i].core == c ==>
               && EffectAt(states, events, i) != Succeeded
               && !(events[i].insn.LoadEx? && EffectAt(states, events, i) == Done)
    ensures LoadedBy(states, events, c, m, j, i + 1)
  {
  }

  /** A monitor is always the trace of the core's own last load-exclusive. */
  lemma {:induction false} MonitorHistory(states: seq<Sys>, events: seq<Event>, i: nat, c: nat)
    requires IsRun(states, events) && i <= |events| && c < |states[0].cores|
    ensures |states[i].cores| == |states[0].cores|
    ensures var m := states[i].cores[c].monitor;
            m.Some? ==> exists j :: LoadedBy(states, events, c, m.value, j, i)
  {
    if i > 0 {
      MonitorHistory(states, events, i - 1, c);
      assert StepAt(states, events, i - 1);
      var m := states[i].cores[c].monitor;
      var e := events[i - 1];
      if m.Some? {
        if e.core == c && e.insn.LoadEx? && EffectAt(states, events, i - 1) == Done {
          assert LoadedBy(states, events, c, m.value, i - 1, i);
        } else {
          MonitorStays(states, events, i - 1, c);
          var j :| LoadedBy(states, events, c, m.value, j, i - 1);
          StillLoaded(states, events, i - 1, c, m.value, j);
        }
      }
    }
  }

  /** A store-exclusive that succeeds finds in memory exactly the value that its
      own last load-exclusive read, and replaces those bytes and no others. Since
      no store-exclusive of the core succeeded after that load, no two successes
      share a load. */
  lemma SuccessMatches(states: seq<Sys>, events: seq<Event>, i: nat)
    requires IsRun(states, events) && i < |events| && EffectAt(states, events, i) == Succeeded
    ensures StepAt(states, events, i) && events[i].insn.StoreEx?
    ensures var e := events[i].insn; var n := e.shape.Total();
            var m := states[i].cores[events[i].core].monitor;
            && CanRead(states[i].mem, e.addr, n)
            && states[i + 1].mem ==
               WriteAt(states[i].mem, e.addr, ToBytes(Stored(states[i].cores[events[i].core].x, e), n))
            && m.Some? && m.value.addr == e.addr && m.value.bytes == n
            && exists j :: && LoadedBy(states, events, events[i].core, m.value, j, i)
                           && ReadAt(states[j].mem, e.addr, n) == ReadAt(states[i].mem, e.addr, n)
  {
    var c := events[i].core;
    assert StepAt(states, events, i);
    MonitorHistory(states, events, i, c);
    var m := states[i].cores[c].monitor.value;
    var j :| LoadedBy(states, events, c, m, j, i);
    BytesRoundTrip(ReadAt(states[j].mem, m.addr, m.bytes));
    assert ReadAt(states[j].mem, m.addr, m.bytes) == ReadAt(states[i].mem, m.addr, m.bytes);
  }

  /** Between two successes of a core lies a load-exclusive of it. */
  lemma OneSuccessPerLoad(states: seq<Sys>, events: seq<Event>, i: nat, k: nat)
    requires IsRun(states, events) && i < k < |events| && events[i].core == events[k].core
    requires EffectAt(states, events, i) == Succeeded && EffectAt(states, events, k) == Succeeded
    ensures exists j :: i < j < k && events[j].core == events[k].core && events[j].insn.LoadEx?
                        && EffectAt(states, events, j) == Done && events[j].insn.addr == events[k].insn.addr
  {
    SuccessMatches(states, events, k);
    var c := events[k].core;
    var m := states[k].cores[c].monitor.value;
    var j :| LoadedBy(states, events, c, m, j, k);
    assert j != i;
    assert !(j < i < k);
  }

  // ---- what the instructions do to registers and memory ----

  /** The monitor of the core, the location and the bytes there make the store of a
      store-exclusive take place. */
  ghost predicate Takes(m: Mem, c: Core, i: Insn)
    requires i.StoreEx? && CanRead(m, i.addr, i.shape.Total())
  {
    && c.monitor.Some? && c.monitor.value.addr == i.addr && c.monitor.value.bytes == i.shape.Total()
    && ToBytes(c.monitor.value.value, i.shape.Total()) == ReadAt(m, i.addr, i.shape.Total())
  }

  /** The bytes of the source registers, the first register's first. */
  function SourceBytes(x: Registers, i: Insn): seq<Byte>
    requires i.StoreEx?
  {
    var first, second := if i.rt < 31 then x[i.rt] else 0, if i.rt2 < 31 then x[i.rt2] else 0;
    if i.shape.pair then ToBytes(first, i.shape.Elem()) + ToBytes(second, i.shape.Elem())
    else ToBytes(first, i.shape.Elem())
  }

  /** A store-exclusive that does not fault reports 0 exactly if the store took
      place, 1 otherwise, and changes no other register. If it took place, memory
      holds the bytes of the source registers; otherwise it is unchanged. In both
      cases the monitor is gone. */
  lemma StatusTells(states: seq<Sys>, events: seq<Event>, i: nat)
    requires IsRun(states, events) && i < |events| && events[i].insn.StoreEx? && EffectAt(states, events, i) != Fault
    ensures StepAt(states, events, i)
    ensures var e, c := events[i].insn, events[i].core;
            var m, m', before, after := states[i].mem, states[i + 1].mem, states[i].cores[c], states[i + 1].cores[c];
            var done := CanRead(m, e.addr, e.shape.Total()) && Takes(m, before, e);
            && (e.rs < 31 ==> after.x[e.rs] == if done then 0 else 1)
            && (forall r :: 0 <= r < 31 && r != e.rs ==> after.x[r] == before.x[r])
            && m' == (if done then WriteAt(m, e.addr, SourceBytes(before.x, e)) else m)
            && (done <==> EffectAt(states, events, i) == Succeeded)
            && after.monitor == None
  {
    assert StepAt(states, events, i);
    var e, c := events[i].insn, states[i].cores[events[i].core];
    if e.shape.pair {
      PairBytes(Reg(c.x, e.rt), Reg(c.x, e.rt2), e.shape.Elem(), e.shape.Elem());
    }
  }

  /** An exclusive faults exactly if its address is not aligned to its size, or if
      memory refuses the access it makes; it then leaves memory as it was. */
  lemma FaultsExactly(states: seq<Sys>, events: seq<Event>, i: nat)
    requires IsRun(states, events) && i < |events| && (events[i].insn.LoadEx? || events[i].insn.StoreEx?)
    ensures StepAt(states, events, i)
    ensures var e, c := events[i].insn, states[i].cores[events[i].core];
            var m, n := states[i].mem, e.shape.Total();
            var mine := c.monitor.Some? && c.monitor.value.addr == e.addr && c.monitor.value.bytes == n;
            var noRead := exists k :: e.addr <= k < e.addr + n && !(k in m && m[k].read);
            var noWrite := exists k :: e.addr <= k < e.addr + n && !(k in m && m[k].write);
            && (EffectAt(states, events, i) == Fault <==>
                 || e.addr % n != 0
                 || (if e.LoadEx? then noRead else mine && (noRead || (Takes(m, c, e) && noWrite))))
            && (EffectAt(states, events, i) == Fault ==> states[i + 1].mem == m)
  {
    assert StepAt(states, events, i);
  }

  /** A plain store faults exactly if some byte is not writable, and then changes
      nothing; otherwise exactly the bytes of the range become those stored. */
  lemma StoreWrites(states: seq<Sys>, events: seq<Event>, i: nat)
    requires IsRun(states, events) && i < |events| && events[i].insn.Store?
    ensures StepAt(states, events, i) && states[i + 1].cores == states[i].cores
    ensures var e, m, m' := events[i].insn, states[i].mem, states[i + 1].mem;
            var n, faulted := |e.data|, EffectAt(states, events, i) == Fault;
            && (faulted <==> exists k :: e.addr <= k < e.addr + n && !(k in m && m[k].write))
            && (faulted ==> m' == m)
            && m'.Keys == m.Keys
            && (!faulted ==> forall k :: k in m ==>
                 m'[k] == if e.addr <= k < e.addr + n then m[k].(b := e.data[k - e.addr]) else m[k])
  {
    assert StepAt(states, events, i);
    var c := events[i].core;
    assert states[i].cores[c := states[i].cores[c]] == states[i].cores;
  }

  /** Two elements side by side. */
  lemma {:induction false} PairBytes(a: nat, b: nat, n: nat, m: nat)
    ensures ToBytes(a % Pow256(n) + b * Pow256(n), n + m) == ToBytes(a, n) + ToBytes(b, m)
    decreases n
  {
    if n == 0 {
      assert a % 1 == 0;
      assert ToBytes(a, 0) + ToBytes(b, m) == ToBytes(b, m);
    } else {
      PairDigits(a, b, Pow256(n - 1));
      PairBytes(a / 256, b, n - 1, m);
      assert [a % 256] + (ToBytes(a / 256, n - 1) + ToBytes(b, m)) == ToBytes(a, n) + ToBytes(b, m);
    }
  }

  lemma PairDigits(a: nat, b: nat, q: nat)
    requires q > 0
    ensures var v := a % (256 * q) + b * (256 * q); v % 256 == a % 256 && v / 256 == a / 256 % q + b * q
  {
    LowByteMod(a, q);
    Scale(b, q);
    Digits(a % (256 * q) + b * (256 * q), a % 256, a / 256 % q + b * q);
  }

  lemma Digits(v: nat, low: nat, high: nat)
    requires v == low + 256 * high && low < 256
    ensures v % 256 == low && v / 256 == high
  {
  }

  /** A load-exclusive that does not fault leaves memory alone and puts the
      little-endian numbers at its address into its registers: one element, or two
      that follow each other. */
  lemma LoadReads(states: seq<Sys>, events: seq<Event>, i: nat)
    requires IsRun(states, events) && i < |events| && events[i].insn.LoadEx? && EffectAt(states, events, i) == Done
    requires events[i].insn.shape.pair ==> events[i].insn.rt != events[i].insn.rt2
    ensures StepAt(states, events, i) && states[i + 1].mem == states[i].mem
    ensures var e, c, n := events[i].insn, events[i].core, events[i].insn.shape.Elem();
            var m, before, after := states[i].mem, states[i].cores[c], states[i + 1].cores[c];
            && CanRead(m, e.addr, e.shape.Total()) && e.addr % e.shape.Total() == 0
            && (e.rt < 31 ==> after.x[e.rt] == Number(m, e.addr, n))
            && (e.shape.pair && e.rt2 < 31 ==> after.x[e.rt2] == Number(m, e.addr + n, n))
            && (forall r :: 0 <= r < 31 && r != e.rt && !(e.shape.pair && r == e.rt2) ==> after.x[r] == before.x[r])
  {
    assert StepAt(states, events, i);
    var e, m, n := events[i].insn, states[i].mem, events[i].insn.shape.Elem();
    if e.shape.pair {
      var a, b := ReadAt(m, e.addr, n), ReadAt(m, e.addr + n, n);
      assert ReadAt(m, e.addr, e.shape.Total()) == a + b;
      LoadedPair(states[i].cores[events[i].core].x, e, a, b);
    } else {
      FromBytesBound(ReadAt(m, e.addr, n));
      Narrow(e.shape, Number(m, e.addr, n));
    }
  }

  lemma LoadedPair(x: Registers, i: Insn, a: seq<Byte>, b: seq<Byte>)
    requires i.LoadEx? && i.shape.Valid() && i.shape.pair && i.rt != i.rt2 && |a| == |b| == i.shape.Elem()
    ensures FromBytes(a) < B64 && FromBytes(b) < B64
    ensures Loaded(x, i, FromBytes(a + b)) == SetReg(SetReg(x, i.rt, FromBytes(a)), i.rt2, FromBytes(b))
  {
    Widths(i.shape);
    FromBytesAppend(a, b);
    FromBytesBound(a);
    FromBytesBound(b);
    TwoHalves(i.shape.size, FromBytes(a), FromBytes(b));
  }

  lemma TwoHalves(size: nat, a: nat, b: nat)
    requires (size == 2 && a < B32 && b < B32) || (size == 3 && a < B64 && b < B64)
    ensures var p := if size == 2 then B32 else B64;
            (a + p * b) % p % B64 == a && (a + p * b) / p % B64 == b
  {
    if size == 2 {
      assert (a + B32 * b) % B32 == a && (a + B32 * b) / B32 == b;
    } else {
      assert (a + B64 * b) % B64 == a && (a + B64 * b) / B64 == b;
    }
  }

  lemma Narrow(s: Shape, v: nat)
    requires s.Valid() && !s.pair && v < Pow256(s.Total())
    ensures v < B64
  {
    assert Pow256(1) == 256 && Pow256(2) == 0x1_0000 && Pow256(4) == B32;
    assert Pow256(8) == B64;
  }

  // ---- increment loops ----

  /** Where a core is in `LDXR rt; ADD rt, rt, #1; STXR rs, rt; CBNZ rs`, or in the
      same loop with `LDXP`, `ADDS` and `ADC`, and `STXP`. */
  datatype Pos = AtLoad | AtAdd | AtStore | Finished

  /** Cores that run that loop on the same location, again and again, and how often
      one was left: its status register was 0. */
  datatype Loop = Loop(sys: Sys, pos: seq<Pos>, wins: nat)

  /** The location, and the registers of the loops. */
  datatype Counter = Counter(shape: Shape, addr: U64, rs: nat, rt: nat, rt2: nat) {
    ghost predicate Valid() {
      shape.Valid() && rs < 31 && rt < 31 && (shape.pair ==> rt2 < 31 && rt2 != rt)
    }

    function Load(): Insn {
      LoadEx(shape, rt, rt2, addr)
    }

    function Save(): Insn {
      StoreEx(shape, rs, rt, rt2, addr)
    }
  }

  /** The registers after one was added to the number they hold. */
  ghost function AddOne(k: Counter, x: Registers): Registers
    requires k.Valid()
  {
    if k.shape.pair then
      var n := (Stored(x, k.Save()) + 1) % Pow256(k.shape.Total());
      x[k.rt := n % Pow256(k.shape.Elem()) % B64][k.rt2 := n / Pow256(k.shape.Elem()) % B64]
    else x[k.rt := (x[k.rt] + 1) % B64]
  }

  /** The next instruction of core `c`; the branch goes with the store before it. A
      fault leaves the core where it is. */
  ghost function LoopStep(k: Counter, l: Loop, c: nat): (l': Loop)
    requires k.Valid() && c < |l.sys.cores| == |l.pos|
  {
    var x := l.sys.cores[c].x;
    match l.pos[c]
    case AtLoad =>
      var (s, f) := Step(l.sys, Event(c, k.Load()));
      Loop(s, if f == Fault then l.pos else l.pos[c := AtAdd], l.wins)
    case AtAdd =>
      var (s, f) := Step(l.sys, Event(c, Compute(AddOne(k, x))));
      Loop(s, l.pos[c := AtStore], l.wins)
    case AtStore =>
      var (s, f) := Step(l.sys, Event(c, k.Save()));
      if f == Fault then Loop(s, l.pos, l.wins)
      else if s.cores[c].x[k.rs] != 0 then Loop(s, l.pos[c := AtLoad], l.wins)
      else Loop(s, l.pos[c := Finished], l.wins + 1)
    case Finished => l.(pos := l.pos[c := AtLoad])
  }

  predicate Apart(a: int, n: nat, b: int, m: nat) {
    n == 0 || a + n <= b || b + m <= a
  }

  /** Ranges are apart exactly if they have no byte in common. */
  lemma ApartIs(a: int, n: nat, b: int, m: nat)
    requires m > 0
    ensures Apart(a, n, b, m) <==> forall k :: Inside(k, a, n) ==> !Inside(k, b, m)
  {
    if !Apart(a, n, b, m) {
      var k := if a < b then b else a;
      assert Inside(k, a, n) && Inside(k, b, m);
    }
  }

  predicate Inside(k: int, a: int, n: nat) {
    a <= k < a + n
  }

  /** What else may happen at any moment: a core loses its monitor, or stores
      elsewhere. */
  ghost predicate Interference(k: Counter, l: Loop, e: Event) {
    && e.core < |l.sys.cores|
    && (e.insn.Clrex?
        || (e.insn.Store? && Apart(e.insn.addr, |e.insn.data|, k.addr, k.shape.Total())))
  }

  /** `l'` is `l` after one step of any core, or after interference. */
  ghost predicate Next(k: Counter, l: Loop, l': Loop)
    requires k.Valid() && |l.sys.cores| == |l.pos|
  {
    || (exists c: nat :: c < |l.pos| && l' == LoopStep(k, l, c))
    || (exists e :: Interference(k, l, e) && l' == l.(sys := Step(l.sys, e).0))
  }

  ghost predicate Start(k: Counter, l: Loop) {
    && l.wins == 0 && |l.pos| == |l.sys.cores| && CanRead(l.sys.mem, k.addr, k.shape.Total())
    && (forall c :: 0 <= c < |l.pos| ==> l.pos[c] == AtLoad)
  }

  /** The registers hold what the monitor remembers, plus one after the addition. */
  ghost predicate CoreOk(k: Counter, pos: Pos, c: Core)
    requires k.Valid()
  {
    var p := Pow256(k.shape.Total());
    match pos
    case AtLoad => true
    case Finished => true
    case AtAdd => c.monitor.Some? ==> Stored(c.x, k.Save()) % p == c.monitor.value.value % p
    case AtStore => c.monitor.Some? ==> Stored(c.x, k.Save()) % p == (c.monitor.value.value + 1) % p
  }

  ghost predicate LoopOk(k: Counter, l: Loop, initial: nat)
    requires k.Valid()
  {
    && |l.pos| == |l.sys.cores| && CanRead(l.sys.mem, k.addr, k.shape.Total())
    && (forall c :: 0 <= c < |l.pos| ==> CoreOk(k, l.pos[c], l.sys.cores[c]))
    && Number(l.sys.mem, k.addr, k.shape.Total()) == (initial + l.wins) % Pow256(k.shape.Total())
  }

  lemma WrittenBack(m: Mem, a: int, bs: seq<Byte>)
    requires CanRead(m, a, |bs|)
    ensures CanRead(WriteAt(m, a, bs), a, |bs|) && ReadAt(WriteAt(m, a, bs), a, |bs|) == bs
  {
  }

  lemma WrittenElsewhere(m: Mem, a: int, bs: seq<Byte>, b: int, n: nat)
    requires CanRead(m, b, n) && Apart(a, |bs|, b, n)
    ensures CanRead(WriteAt(m, a, bs), b, n) && ReadAt(WriteAt(m, a, bs), b, n) == ReadAt(m, b, n)
  {
  }

  lemma Widths(s: Shape)
    requires s.Valid()
    ensures Pow256(s.Total()) > 1
    ensures !s.pair ==> B64 / Pow256(s.Total()) * Pow256(s.Total()) == B64
    ensures s.pair ==> Pow256(s.Elem()) == (if s.size == 2 then B32 else B64)
    ensures s.pair ==> Pow256(s.Total()) == (if s.size == 2 then B64 else B128)
  {
    assert Pow256(1) == 256 && Pow256(2) == 0x1_0000 && Pow256(4) == B32;
    assert Pow256(8) == B64;
    assert Pow256(12) == B64 * B32;
    assert Pow256(16) == B128;
  }

  /** What a load-exclusive puts into the registers, a store-exclusive writes. */
  lemma LoadedHeld(k: Counter, x: Registers, v: nat)
    requires k.Valid() && v < Pow256(k.shape.Total())
    ensures Stored(Loaded(x, k.Load(), v), k.Save()) % Pow256(k.shape.Total()) == v
  {
    var p := Pow256(k.shape.Total());
    Widths(k.shape);
    if k.shape.pair {
      Halves(k.shape.size, v);
    } else {
      ModMod(v, p, B64 / p);
    }
    ModUnique(v, p, 0, v);
  }

  /** The halves of a number, put together. */
  lemma Halves(size: nat, v: nat)
    requires size == 2 || size == 3
    requires v < if size == 2 then B64 else B128
    ensures var e := if size == 2 then B32 else B64; v % e % B64 % e + v / e % B64 * e == v
  {
  }

  lemma AddedHeld(k: Counter, x: Registers)
    requires k.Valid()
    ensures var p := Pow256(k.shape.Total()); Stored(AddOne(k, x), k.Save()) % p == (Stored(x, k.Save()) + 1) % p
  {
    var p := Pow256(k.shape.Total());
    Widths(k.shape);
    if k.shape.pair {
      var n := (Stored(x, k.Save()) + 1) % p;
      Halves(k.shape.size, n);
      ModUnique(n, p, 0, n);
    } else {
      var held: nat := x[k.rt];
      ModMod(held + 1, p, B64 / p);
    }
  }

  /** Equal remainders stay equal after adding one. */
  lemma PlusOne(x: nat, y: nat, p: nat)
    requires p > 1 && x % p == y % p
    ensures (x + 1) % p == (y + 1) % p
  {
    Successor(x, p);
    Successor(y, p);
  }

  lemma ModMod(x: nat, p: nat, q: nat)
    requires p > 0 && q > 0 && q * p > 0
    ensures x % (q * p) % p == x % p
  {
    var a, b := x / (q * p), x % (q * p);
    var c, d := b / p, b % p;
    assert x == a * (q * p) + b && b == c * p + d;
    Regroup(a, q, p, c);
    ModUnique(x, p, a * q + c, d);
  }

  lemma Regroup(a: nat, q: nat, p: nat, c: nat)
    ensures a * q + c >= 0 && a * (q * p) + c * p == (a * q + c) * p
  {
    assert a * (q * p) == (a * q) * p;
  }

  lemma Successor(x: nat, p: nat)
    requires p > 1
    ensures (x + 1) % p == if x % p + 1 == p then 0 else x % p + 1
  {
    var q := x / p;
    assert x == q * p + x % p;
    if x % p + 1 == p {
      assert x + 1 == (q + 1) * p;
      ModUnique(x + 1, p, q + 1, 0);
    } else {
      ModUnique(x + 1, p, q, x % p + 1);
    }
  }

  /** Memory holds the bytes of `v`, which counts to `y`; those of `held` count one
      more. */
  lemma Bumped(v: nat, held: nat, y: nat, n: nat)
    requires Pow256(n) > 1 && FromBytes(ToBytes(v, n)) == y % Pow256(n)
    requires held % Pow256(n) == (v + 1) % Pow256(n)
    ensures FromBytes(ToBytes(held, n)) == (y + 1) % Pow256(n)
  {
    ValueRoundTrip(v, n);
    ValueRoundTrip(held, n);
    PlusOne(v, y, Pow256(n));
  }

  /** What the store of a loop does: it takes place and the loop is left, or memory
      stays. The core does not need its monitor afterwards. */
  lemma StoreOutcome(k: Counter, l: Loop, c: nat)
    requires k.Valid() && c < |l.sys.cores| == |l.pos| && l.pos[c] == AtStore
    requires CanRead(l.sys.mem, k.addr, k.shape.Total())
    ensures var l', n, core := LoopStep(k, l, c), k.shape.Total(), l.sys.cores[c];
            && |l'.sys.cores| == |l'.pos| == |l.pos|
            && (forall d :: 0 <= d < |l.pos| && d != c ==> l'.pos[d] == l.pos[d] && l'.sys.cores[d] == l.sys.cores[d])
            && (CoreOk(k, AtStore, core) ==> CoreOk(k, l'.pos[c], l'.sys.cores[c]))
            && (if l'.wins == l.wins then l'.sys.mem == l.sys.mem
                else
                  && l'.wins == l.wins + 1 && core.monitor.Some?
                  && ReadAt(l.sys.mem, k.addr, n) == ToBytes(core.monitor.value.value, n)
                  && l'.sys.mem == WriteAt(l.sys.mem, k.addr, ToBytes(Stored(core.x, k.Save()), n)))
  {
  }

  lemma StoreStep(k: Counter, l: Loop, c: nat, initial: nat)
    requires k.Valid() && LoopOk(k, l, initial) && c < |l.pos| && l.pos[c] == AtStore
    ensures LoopOk(k, LoopStep(k, l, c), initial)
  {
    StoreOutcome(k, l, c);
    var l', n, core := LoopStep(k, l, c), k.shape.Total(), l.sys.cores[c];
    assert CoreOk(k, AtStore, core);
    if l'.wins > l.wins {
      var held := Stored(core.x, k.Save());
      WrittenBack(l.sys.mem, k.addr, ToBytes(held, n));
      Widths(k.shape);
      Bumped(core.monitor.value.value, held, initial + l.wins, n);
    }
  }

  lemma LoadStep(k: Counter, l: Loop, c: nat, initial: nat)
    requires k.Valid() && LoopOk(k, l, initial) && c < |l.pos| && l.pos[c] == AtLoad
    ensures LoopOk(k, LoopStep(k, l, c), initial)
  {
    var n := k.shape.Total();
    if LoopStep(k, l, c).pos[c] == AtAdd {
      var v := Number(l.sys.mem, k.addr, n);
      FromBytesBound(ReadAt(l.sys.mem, k.addr, n));
      LoadedHeld(k, l.sys.cores[c].x, v);
      ModUnique(v, Pow256(n), 0, v);
    }
  }

  lemma AddStep(k: Counter, l: Loop, c: nat, initial: nat)
    requires k.Valid() && LoopOk(k, l, initial) && c < |l.pos| && l.pos[c] == AtAdd
    ensures LoopOk(k, LoopStep(k, l, c), initial)
  {
    var core := l.sys.cores[c];
    assert CoreOk(k, AtAdd, core);
    AddedHeld(k, core.x);
    if core.monitor.Some? {
      Widths(k.shape);
      PlusOne(Stored(core.x, k.Save()), core.monitor.value.value, Pow256(k.shape.Total()));
    }
  }

  lemma LoopStepOk(k: Counter, l: Loop, c: nat, initial: nat)
    requires k.Valid() && LoopOk(k, l, initial) && c < |l.pos|
    ensures LoopOk(k, LoopStep(k, l, c), initial)
  {
    match l.pos[c]
    case AtLoad => LoadStep(k, l, c, initial);
    case AtAdd => AddStep(k, l, c, initial);
    case AtStore => StoreStep(k, l, c, initial);
    case Finished =>
  }

  lemma InterferenceOk(k: Counter, l: Loop, e: Event, initial: nat)
    requires k.Valid() && LoopOk(k, l, initial) && Interference(k, l, e)
    ensures LoopOk(k, l.(sys := Step(l.sys, e).0), initial)
  {
    if e.insn.Store? {
      WrittenElsewhere(l.sys.mem, e.insn.addr, e.insn.data, k.addr, k.shape.Total());
    }
  }

  ghost predicate Linked(k: Counter, ls: seq<Loop>, i: int)
    requires k.Valid() && 0 < i < |ls|
  {
    |ls[i - 1].sys.cores| == |ls[i - 1].pos| && Next(k, ls[i - 1], ls[i])
  }

  /** No update is lost: in every interleaving of any number of such loops, the
      number in memory is the initial one plus the successes, modulo its
      width. */
  lemma {:induction false} NoLostUpdate(k: Counter, ls: seq<Loop>)
    requires k.Valid() && |ls| > 0 && Start(k, ls[0]) && forall i :: 0 < i < |ls| ==> Linked(k, ls, i)
    ensures var n, end := k.shape.Total(), ls[|ls| - 1];
            LoopOk(k, end, Number(ls[0].sys.mem, k.addr, n))
  {
    var n := k.shape.Total();
    var initial := Number(ls[0].sys.mem, k.addr, n);
    if |ls| == 1 {
      FromBytesBound(ReadAt(ls[0].sys.mem, k.addr, n));
      ModUnique(initial, Pow256(n), 0, initial);
    } else {
      var before := ls[..|ls| - 1];
      assert forall i :: 0 < i < |before| ==> Linked(k, ls, i) ==> Linked(k, before, i);
      NoLostUpdate(k, before);
      var l, l' := ls[|ls| - 2], ls[|ls| - 1];
      assert Linked(k, ls, |ls| - 1);
      NextOk(k, l, l', initial);
    }
  }

  lemma NextOk(k: Counter, l: Loop, l': Loop, initial: nat)
    requires k.Valid() && LoopOk(k, l, initial) && Next(k, l, l')
    ensures LoopOk(k, l', initial)
  {
    if c: nat :| c < |l.pos| && l' == LoopStep(k, l, c) {
      LoopStepOk(k, l, c, initial);
    } else {
      var e :| Interference(k, l, e) && l' == l.(sys := Step(l.sys, e).0);
      InterferenceOk(k, l, e, initial);
    }
  }
}
