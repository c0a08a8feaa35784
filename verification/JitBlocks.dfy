/** Translated regions and what the driver relies on: the interpreter step, the
    region discovery and the compiled code are parameters (`World`), bound by the
    contracts of `World.Ok`. */
module JitBlocks {
  import opened AddressSpace
  import opened Flags
  import opened JitState

  /** Entries of the engine's function table. */
  const TABLE_SIZE: int := 0x4_0000
  /** Base blocks of a region that can act as its entry. */
  const MAX_ENTRIES: int := 64

  type Exception = int

  datatype Outcome = Outcome(cpu: Cpu, ram: Ram, exc: Option<Exception>)
  datatype GuestOutcome = GuestOutcome(cpu: Cpu, guest: Guest, exc: Option<Exception>)

  /** Consecutive instructions from `pc`. */
  datatype Bb = Bb(pc: U64, words: seq<Word>)
  /** A region: base blocks of one page, one of which starts at `pc`. */
  datatype Block = Block(pc: U64, bbs: seq<Bb>)

  datatype Code = Next | Fault | Stop | Svc
  datatype RegionExit = RegionExit(code: Code, js: JitState, guest: Guest)

  /** Address of word `j` of base block `i`. */
  function WordAddr(b: Block, i: nat, j: nat): int
    requires i < |b.bbs|
  {
    b.bbs[i].pc + 4 * j
  }

  /** The words stand one behind the other, four bytes each. */
  lemma WordsTile(b: Block, i: nat, a: int)
    requires i < |b.bbs| && b.bbs[i].pc <= a < b.bbs[i].pc + 4 * |b.bbs[i].words|
    ensures exists j: nat :: j < |b.bbs[i].words| && WordAddr(b, i, j) <= a < WordAddr(b, i, j) + 4
    ensures forall j: nat, k: nat :: j < k ==> WordAddr(b, i, j) + 4 <= WordAddr(b, i, k)
  {
    var j := (a - b.bbs[i].pc) / 4;
    assert WordAddr(b, i, j) <= a < WordAddr(b, i, j) + 4;
  }

  /** Every word of the block lies in the page of its entry, word aligned. */
  ghost predicate InPage(b: Block) {
    forall i: nat, j: nat :: i < |b.bbs| && j < |b.bbs[i].words| ==>
      WordAddr(b, i, j) / PAGE == b.pc / PAGE && WordAddr(b, i, j) % 4 == 0
  }

  /** The words of the block are the private, executable words of `v`. */
  ghost predicate WordsIn(b: Block, v: View) {
    forall i: nat, j: nat :: i < |b.bbs| && j < |b.bbs[i].words| ==>
      CodeWord(v, WordAddr(b, i, j)) == Some(b.bbs[i].words[j])
  }

  ghost predicate Shape(b: Block) {
    && InPage(b)
    && (exists i :: 0 <= i < |b.bbs| && b.bbs[i].pc == b.pc)
    && (forall i :: 0 <= i < |b.bbs| ==> 0 < |b.bbs[i].words| < 0x1_0000)
    && (forall i :: 0 <= i < |b.bbs| ==> b.bbs[i].pc / PAGE == b.pc / PAGE)
  }

  // ---- the signature of a region ----

  /** `(pc & 0xfff) << 16 | instructions`. */
  function Header(bb: Bb): int {
    bb.pc % PAGE * 0x1_0000 + |bb.words|
  }

  /** The signature `discover` returns: the key of the compiled modules. */
  function Signature(bbs: seq<Bb>): (sig: seq<int>) {
    if bbs == [] then [] else [Header(bbs[0])] + bbs[0].words + Signature(bbs[1..])
  }

  /** In one page, the signature determines the blocks. */
  lemma {:induction false} SignatureInjective(p: int, a: seq<Bb>, b: seq<Bb>)
    requires forall i :: 0 <= i < |a| ==> a[i].pc / PAGE == p && |a[i].words| < 0x1_0000
    requires forall i :: 0 <= i < |b| ==> b[i].pc / PAGE == p && |b[i].words| < 0x1_0000
    requires Signature(a) == Signature(b)
    ensures a == b
  {
    if a == [] || b == [] {
      assert |Signature(a)| == 0 <==> a == [];
      assert |Signature(b)| == 0 <==> b == [];
    } else {
      var sa, sb := Signature(a), Signature(b);
      var n := |a[0].words|;
      assert sa[0] == Header(a[0]) && sb[0] == Header(b[0]);
      HeaderInjective(a[0], b[0]);
      assert a[0].words == sa[1..1 + n] && b[0].words == sb[1..1 + n];
      assert Signature(a[1..]) == sa[1 + n..] && Signature(b[1..]) == sb[1 + n..];
      SignatureInjective(p, a[1..], b[1..]);
      assert a == [a[0]] + a[1..] && b == [b[0]] + b[1..];
    }
  }

  lemma HeaderIs(bb: Bb)
    requires |bb.words| < 0x1_0000
    ensures Header(bb) / 0x1_0000 == bb.pc % PAGE && Header(bb) % 0x1_0000 == |bb.words|
  {
  }

  lemma HeaderInjective(a: Bb, b: Bb)
    requires a.pc / PAGE == b.pc / PAGE && |a.words| < 0x1_0000 && |b.words| < 0x1_0000
    requires Header(a) == Header(b)
    ensures a.pc == b.pc && |a.words| == |b.words|
  {
  }

  // ---- contracts of the parts the driver does not contain ----

  datatype World = World(
    /** `Cpu::step` on registers and memory, shared buffers included. */
    step: (Cpu, Ram) -> Outcome,
    /** `Cpu::step` on an address space with watched pages. */
    interp: (Cpu, Guest) -> GuestOutcome,
    /** `translate::discover`. */
    discover: (U64, View) -> Option<Block>,
    /** Steps one run of a base block executes at most. */
    steps: seq<Word> -> nat,
    /** The compiled code of a region, entered at one of its base blocks. */
    region: (Block, nat, JitState, Cpu, Guest) -> RegionExit,
    /** Modules the engine accepts after a reset: at least these, and no more if
        `strict`. */
    capacity: nat,
    strict: bool,
    /** `JitConfig::hot_threshold`. */
    threshold: nat)
  {
    /** `n` interpreter steps without an exception. */
    ghost function StepN(n: nat, c: Cpu, m: Ram): (r: Option<(Cpu, Ram)>) {
      if n == 0 then Some((c, m))
      else match StepN(n - 1, c, m)
        case None => None
        case Some((c1, m1)) =>
          var o := step(c1, m1);
          if o.exc.None? then Some((o.cpu, o.ram)) else None
    }

    lemma {:induction false} StepNAdd(k: nat, n: nat, c: Cpu, m: Ram)
      requires StepN(k, c, m).Some?
      ensures StepN(k + n, c, m) == StepN(n, StepN(k, c, m).value.0, StepN(k, c, m).value.1)
    {
      if n > 0 {
        StepNAdd(k, n - 1, c, m);
      }
    }

    /** `n` calls of `Cpu::step` from `(c, m)`, the last of which may raise an
        exception. */
    ghost predicate Steps(n: nat, c: Cpu, m: Ram, o: Outcome) {
      if o.exc.None? then StepN(n, c, m) == Some((o.cpu, o.ram))
      else n > 0 && StepN(n - 1, c, m).Some? && step(StepN(n - 1, c, m).value.0, StepN(n - 1, c, m).value.1) == o
    }

    lemma StepsAfter(k: nat, n: nat, c: Cpu, m: Ram, c1: Cpu, m1: Ram, o: Outcome)
      requires StepN(k, c, m) == Some((c1, m1)) && Steps(n, c1, m1, o)
      ensures Steps(k + n, c, m, o)
    {
      if o.exc.None? {
        StepNAdd(k, n, c, m);
      } else {
        StepNAdd(k, n - 1, c, m);
      }
    }

    ghost predicate InterpOk() {
      forall c: Cpu, g: Guest {:trigger interp(c, g)} :: var o := interp(c, g);
        Outcome(o.cpu, o.guest.ram, o.exc) == step(c, g.ram) && Tracked(g, o.guest)
    }

    ghost predicate DiscoverOk() {
      forall pc: U64, v: View {:trigger discover(pc, v)} :: discover(pc, v).Some? ==>
        var b := discover(pc, v).value;
        b.pc == pc && Shape(b) && WordsIn(b, v) && forall i :: 0 <= i < |b.bbs| && b.bbs[i].pc == pc ==>
          i < MAX_ENTRIES && 0 < steps(b.bbs[i].words)
    }

    ghost predicate StepsOk() {
      forall ws: seq<Word> :: steps(ws) < 0x100
    }

    /** A region may be entered at base block `i`: its words are in memory, its
        page is watched and clean, and the block fits the step limit. */
    ghost predicate MayEnter(b: Block, i: nat, js: JitState, g: Guest) {
      && Shape(b) && i < |b.bbs| && js.pc == b.bbs[i].pc && js.entry == i
      && WordsIn(b, g.ram.view) && b.pc / PAGE in g.watch && g.dirty == []
      && 0 < steps(b.bbs[i].words) && js.steps + steps(b.bbs[i].words) <= js.limit
    }

    /** What a region run leaves: it performed interpreter steps, and stopped
        right after a store that dirtied watched code. A fault leaves a state in
        which the interpreter step has the outcome it would have had. */
    ghost predicate Exits(js: JitState, cpu: Cpu, g: Guest, out: RegionExit) {
      var k := out.js.steps - js.steps;
      && k >= 0 && out.js.steps <= js.limit
      && out.js.ctx == js.ctx && out.js.limit == js.limit
      && Tracked(g, out.guest)
      && StepN(k, ToCpu(js, cpu), g.ram).Some?
      && Reached(out.code, ToCpu(out.js, cpu), out.guest.ram, StepN(k, ToCpu(js, cpu), g.ram).value)
      && (out.code == Next ==> out.guest.dirty == [])
      && (out.code == Next || out.code == Stop ==> k >= 1)
      && (out.code == Fault ==> out.js.steps < js.limit)
    }

    ghost predicate Reached(code: Code, c: Cpu, m: Ram, at: (Cpu, Ram)) {
      if code == Fault then step(c, m) == step(at.0, at.1) else (c, m) == at
    }

    ghost predicate RegionsOk() {
      forall b: Block, i: nat, js: JitState, cpu: Cpu, g: Guest {:trigger region(b, i, js, cpu, g)} ::
        MayEnter(b, i, js, g) ==> Exits(js, cpu, g, region(b, i, js, cpu, g))
    }

    ghost predicate Ok() {
      InterpOk() && DiscoverOk() && StepsOk() && RegionsOk()
    }
  }

  // ---- the contracts can be met ----

  /** A machine of which every instruction loads the byte at address 0, shared or
      not, stores it behind the first byte of a shared buffer and jumps that many
      words ahead; and its translator: one instruction per region. */
  ghost function Jumping(): World {
    World(
      (c: Cpu, m: Ram) => Outcome(c.(pc := Ahead(c.pc, m)), Noted(m), None),
      (c: Cpu, g: Guest) => GuestOutcome(c.(pc := Ahead(c.pc, g.ram)), g.(ram := Noted(g.ram)), None),
      (pc: U64, v: View) => OneWord(pc, v),
      _ => 1,
      (b: Block, i: nat, js: JitState, cpu: Cpu, g: Guest) => Jump(js, g),
      2, true, 1)
  }

  function Loaded(m: Ram): Byte {
    if Load(m, 0).Some? then Load(m, 0).value else 0
  }

  function Ahead(pc: U64, m: Ram): U64 {
    (pc + 4 + 4 * Loaded(m)) % B64
  }

  function Noted(m: Ram): Ram {
    m.(bufs := m.bufs[0 := [BufferByte(m.bufs, 0, 0), Loaded(m)]])
  }

  ghost function OneWord(pc: U64, v: View): Option<Block> {
    if pc % 4 == 0 && CodeWord(v, pc).Some? then Some(Block(pc, [Bb(pc, [CodeWord(v, pc).value])])) else None
  }

  ghost function Jump(js: JitState, g: Guest): RegionExit {
    if js.steps < js.limit
    then RegionExit(Next, js.(pc := Ahead(js.pc, g.ram), steps := js.steps + 1), g.(ram := Noted(g.ram)))
    else RegionExit(Stop, js, g)
  }

  lemma ContractsCanBeMet()
    ensures Jumping().Ok()
  {
    var w := Jumping();
    forall pc: U64, v: View | w.discover(pc, v).Some?
      ensures var b := w.discover(pc, v).value;
              b.pc == pc && Shape(b) && WordsIn(b, v) && forall i :: 0 <= i < |b.bbs| && b.bbs[i].pc == pc ==>
                i < MAX_ENTRIES && 0 < w.steps(b.bbs[i].words)
    {
      var b := OneWord(pc, v).value;
      assert b.bbs[0].pc == pc;
    }
    forall b: Block, i: nat, js: JitState, cpu: Cpu, g: Guest | w.MayEnter(b, i, js, g)
      ensures w.Exits(js, cpu, g, w.region(b, i, js, cpu, g))
    {
      var out := Jump(js, g);
      assert w.StepN(0, ToCpu(js, cpu), g.ram) == Some((ToCpu(js, cpu), g.ram));
      assert w.StepN(1, ToCpu(js, cpu), g.ram) == Some((ToCpu(out.js, cpu), out.guest.ram));
    }
  }

  // ---- words stay while their page is clean ----

  lemma CodeWordStays(old_: Guest, new_: Guest, a: int)
    requires Tracked(old_, new_) && a % 4 == 0 && a / PAGE in old_.watch && a / PAGE !in new_.dirty
    ensures CodeWord(new_.ram.view, a) == CodeWord(old_.ram.view, a)
  {
    assert (a + 1) / PAGE == a / PAGE && (a + 2) / PAGE == a / PAGE && (a + 3) / PAGE == a / PAGE;
    assert Bare(Get(old_.ram.view, a)) == Bare(Get(new_.ram.view, a));
    assert Bare(Get(old_.ram.view, a + 1)) == Bare(Get(new_.ram.view, a + 1));
    assert Bare(Get(old_.ram.view, a + 2)) == Bare(Get(new_.ram.view, a + 2));
    assert Bare(Get(old_.ram.view, a + 3)) == Bare(Get(new_.ram.view, a + 3));
  }

  lemma WordsStay(b: Block, old_: Guest, new_: Guest)
    requires Tracked(old_, new_) && Shape(b) && WordsIn(b, old_.ram.view)
    requires b.pc / PAGE in old_.watch && b.pc / PAGE !in new_.dirty
    ensures WordsIn(b, new_.ram.view)
  {
    forall i: nat, j: nat | i < |b.bbs| && j < |b.bbs[i].words|
      ensures CodeWord(new_.ram.view, WordAddr(b, i, j)) == Some(b.bbs[i].words[j])
    {
      CodeWordStays(old_, new_, WordAddr(b, i, j));
    }
  }
}
