/** The CPU state and its copy in the memory shared with translated code
    (`JitState`, user-mode fields). */
module JitState {
  import opened AddressSpace
  import opened Flags

  const B128: int := 0x1_0000_0000_0000_0000_0000_0000_0000_0000

  type U128 = x: int | 0 <= x < B128

  datatype Monitor = Monitor(addr: U64, bytes: U32, value: U128)

  datatype Cpu = Cpu(
    x: seq<U64>, sp: U64, pc: U64, nzcv: U32,
    tpidrEl0: U64, tpidrroEl0: U64,
    monitor: Option<Monitor>,
    v: seq<U128>, fpcr: U32, fpsr: U32,
    sys: int)

  datatype JitState = JitState(
    x: seq<U64>, sp: U64, pc: U64, steps: U64, nzcv: U32,
    exitDetail: U32, ctx: U32, limit: U64,
    monAddr: U64, monLo: U64, monHi: U64, monValid: U32, monBytes: U32,
    entry: U32, vValid: U32, fk: U32, fpcr: U32, fpsr: U32,
    v: seq<(U64, U64)>, fa: U64, fb: U64, fr: U64)

  function Zero(): JitState {
    JitState([], 0, 0, 0, 0, 0, 0, 0, 0, 0, 0, 0, 0, 0, 0, 0, 0, 0, [], 0, 0, 0)
  }

  /** `JitState::from_cpu`. */
  function FromCpu(cpu: Cpu): (js: JitState) {
    var s := Zero().(x := cpu.x, sp := cpu.sp, pc := cpu.pc, nzcv := cpu.nzcv, fpcr := cpu.fpcr, fpsr := cpu.fpsr);
    match cpu.monitor
    case None => s
    case Some(m) =>
      s.(monValid := 1, monBytes := m.bytes, monAddr := m.addr, monLo := m.value % B64, monHi := m.value / B64)
  }

  function Join(p: (U64, U64)): U128 {
    p.0 + B64 * p.1
  }

  /** `JitState::to_cpu`: what the shared state says, on top of the fields of
      `cpu` that translated code cannot change. */
  function ToCpu(js: JitState, cpu: Cpu): (r: Cpu) {
    cpu.(
      x := js.x, sp := js.sp, pc := js.pc, fpsr := js.fpsr,
      monitor := if js.monValid != 0 then Some(Monitor(js.monAddr, js.monBytes, Join((js.monLo, js.monHi)))) else None,
      nzcv := LazyNzcv(js.fk, js.fa, js.fb, js.fr, js.nzcv),
      v := if js.vValid != 0 then seq(|js.v|, i requires 0 <= i < |js.v| => Join(js.v[i])) else cpu.v)
  }

  /** `vsync_in`: brings the SIMD registers into the shared state. */
  function VsyncIn(js: JitState, v: seq<U128>): (r: JitState) {
    js.(v := seq(|v|, i requires 0 <= i < |v| => (v[i] % B64, v[i] / B64)), vValid := 1)
  }

  /** Translated code starts with the registers of the CPU, the control register of
      the FPU among them, no flags pending, no SIMD registers and nothing counted. */
  lemma EntersWith(cpu: Cpu)
    ensures var js := FromCpu(cpu);
            && js.x == cpu.x && js.sp == cpu.sp && js.pc == cpu.pc && js.nzcv == cpu.nzcv
            && js.fpcr == cpu.fpcr && js.fpsr == cpu.fpsr
            && js.fk == 0 && js.fa == 0 && js.fb == 0 && js.fr == 0 && js.vValid == 0 && js.v == []
            && js.steps == 0 && js.limit == 0 && js.ctx == 0 && js.entry == 0 && js.exitDetail == 0
            && js.monValid == (if cpu.monitor.Some? then 1 else 0)
            && (cpu.monitor.Some? ==>
                 && js.monAddr == cpu.monitor.value.addr && js.monBytes == cpu.monitor.value.bytes
                 && js.monLo + B64 * js.monHi == cpu.monitor.value.value)
  {
  }

  /** The fields that translated code cannot change. */
  ghost predicate SameHost(a: Cpu, b: Cpu) {
    a.tpidrEl0 == b.tpidrEl0 && a.tpidrroEl0 == b.tpidrroEl0 && a.fpcr == b.fpcr && a.sys == b.sys
  }

  /** Every register that translated code can change is written back: a state taken
      from `b` turns any CPU with the same host fields and SIMD registers into `b`,
      whatever its other registers were. */
  lemma WritesBack(a: Cpu, b: Cpu)
    requires SameHost(a, b) && a.v == b.v
    ensures ToCpu(FromCpu(b), a) == b
  {
    if b.monitor.Some? {
      var v := b.monitor.value.value;
      assert Join((v % B64, v / B64)) == v;
    }
  }

  /** The same with the SIMD registers, once they were brought in. */
  lemma WritesBackSimd(a: Cpu, b: Cpu)
    requires SameHost(a, b)
    ensures ToCpu(VsyncIn(FromCpu(b), b.v), a) == b
  {
    WritesBack(a.(v := b.v), b);
    var v := ToCpu(VsyncIn(FromCpu(b), b.v), a).v;
    assert |v| == |b.v|;
    forall i | 0 <= i < |v|
      ensures v[i] == b.v[i]
    {
      assert Join((b.v[i] % B64, b.v[i] / B64)) == b.v[i];
    }
    assert v == b.v;
  }

  /** The host fields are never written. */
  lemma HostFieldsStay(js: JitState, cpu: Cpu)
    ensures SameHost(ToCpu(js, cpu), cpu) && (js.vValid == 0 ==> ToCpu(js, cpu).v == cpu.v)
  {
  }

  /** Entering and leaving translated code without running anything changes no
      register. */
  lemma RoundTrip(cpu: Cpu)
    ensures ToCpu(FromCpu(cpu), cpu) == cpu
  {
    WritesBack(cpu, cpu);
  }

  /** Copying the SIMD registers in is invisible, whenever it happens. */
  lemma VsyncInvisible(js: JitState, cpu: Cpu)
    requires js.vValid == 0
    ensures ToCpu(VsyncIn(js, cpu.v), cpu) == ToCpu(js, cpu)
  {
    var v := ToCpu(VsyncIn(js, cpu.v), cpu).v;
    assert |v| == |cpu.v|;
    forall i | 0 <= i < |v|
      ensures v[i] == cpu.v[i]
    {
      assert Join((cpu.v[i] % B64, cpu.v[i] / B64)) == cpu.v[i];
    }
    assert v == cpu.v;
  }

  /** An addition recorded with lazy flags leaves the same CPU as one that wrote
      NZCV at once. */
  lemma LazyAddVisible(js: JitState, cpu: Cpu, x: U64, y: U64, sf: bool)
    ensures var (r, f) := AddWithCarry(x, y, false, sf);
            ToCpu(js.(fk := AddKind(sf), fa := Trunc(x, sf), fb := Trunc(y, sf), fr := r), cpu) ==
            ToCpu(js.(fk := 0, nzcv := FlagWord(f)), cpu)
  {
    LazyAdd(x, y, sf, js.nzcv);
  }

  lemma LazySubVisible(js: JitState, cpu: Cpu, x: U64, y: U64, sf: bool)
    ensures var (r, f) := Sub(x, y, sf);
            ToCpu(js.(fk := SubKind(sf), fa := Trunc(x, sf), fb := Trunc(y, sf), fr := r), cpu) ==
            ToCpu(js.(fk := 0, nzcv := FlagWord(f)), cpu)
  {
    LazySub(x, y, sf, js.nzcv);
  }
}
