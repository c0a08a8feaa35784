/** `transition`: the ops that move the WebGL context from one guest context's
    state to another's. */
module Transition {
  import opened AddressSpace
  import opened Flags
  import opened OpBuf
  import opened GlState

  /** What the decoder keeps true of the state of every guest context. */
  ghost predicate StateOk(s: GlState) {
    s.activeTexture < UNITS && forall i :: 0 <= i < ATTRIBS ==> 0 <= s.attribs[i].0 <= 2
  }

  // ---- where a transition ends ----

  function Pick<T>(same: bool, w: T, to: T): T {
    if same then w else to
  }

  predicate CoverEq(from: GlState, to: GlState) {
    FloatEq(from.floats.sampleCoverage, to.floats.sampleCoverage) && from.coverInvert == to.coverInvert
  }

  /** Float values that compare equal are left as they are. */
  function ArrivedFloats(w: Floats, from: GlState, to: GlState): Floats {
    var f, t := from.floats, to.floats;
    Floats(
      Pick(FloatsEq(f.blendColor, t.blendColor), w.blendColor, t.blendColor),
      Pick(FloatsEq(f.clearColor, t.clearColor), w.clearColor, t.clearColor),
      Pick(FloatEq(f.clearDepth, t.clearDepth), w.clearDepth, t.clearDepth),
      Pick(FloatsEq(f.depthRange, t.depthRange), w.depthRange, t.depthRange),
      Pick(FloatEq(f.lineWidth, t.lineWidth), w.lineWidth, t.lineWidth),
      Pick(FloatsEq(f.polygonOffset, t.polygonOffset), w.polygonOffset, t.polygonOffset),
      Pick(CoverEq(from, to), w.sampleCoverage, t.sampleCoverage))
  }

  /** An indexed binding after the executor made it: 32-bit offset and size. */
  function Rebound(b: Ubo): Ubo {
    Bound(b.0, Bits32(b.1), Bits32(b.2))
  }

  function ArrivedUbo(from: Ubos, to: Ubos): (r: Ubos) {
    seq(24, u requires 0 <= u < 24 => if from[u] == to[u] then to[u] else Rebound(to[u]))
  }

  /** The WebGL state that `transition(from, to)` leaves, if it was `w` before. */
  function Arrived(w: GlState, from: GlState, to: GlState): GlState {
    to.(floats := ArrivedFloats(w.floats, from, to), ubo := ArrivedUbo(from.ubo, to.ubo))
  }

  /** The executor can express the binding: its offset and size fit in 32 bits,
      and a binding of the whole buffer has no offset. */
  predicate Fits(b: Ubo) {
    0 <= b.1 < B32 && 0 <= b.2 < B32 && (b.2 == 0 ==> b.1 == 0)
  }

  predicate UboFit(from: Ubos, to: Ubos) {
    forall u :: 0 <= u < 24 ==> from[u] == to[u] || Fits(to[u])
  }

  lemma ReboundIs(b: Ubo)
    ensures Rebound(b) == b <==> Fits(b)
  {
  }

  lemma FloatEqNorm(x: Word, y: Word)
    requires FloatEq(x, y)
    ensures Norm1(x) == Norm1(y)
  {
  }

  lemma FloatsEqNorm(xs: seq<Word>, ys: seq<Word>)
    requires |xs| == |ys| && FloatsEq(xs, ys)
    ensures NormSeq(xs) == NormSeq(ys)
  {
    forall i | 0 <= i < |xs|
      ensures Norm1(xs[i]) == Norm1(ys[i])
    {
      FloatEqNorm(xs[i], ys[i]);
    }
  }

  lemma ArrivedFloatsSame(w: Floats, from: GlState, to: GlState)
    requires NormFloats(w) == NormFloats(from.floats)
    ensures NormFloats(ArrivedFloats(w, from, to)) == NormFloats(to.floats)
  {
    var f, t := from.floats, to.floats;
    if FloatsEq(f.blendColor, t.blendColor) { FloatsEqNorm(f.blendColor, t.blendColor); }
    if FloatsEq(f.clearColor, t.clearColor) { FloatsEqNorm(f.clearColor, t.clearColor); }
    if FloatsEq(f.depthRange, t.depthRange) { FloatsEqNorm(f.depthRange, t.depthRange); }
    if FloatsEq(f.polygonOffset, t.polygonOffset) { FloatsEqNorm(f.polygonOffset, t.polygonOffset); }
  }

  lemma ArrivedUboSame(from: Ubos, to: Ubos)
    ensures ArrivedUbo(from, to) == to <==> UboFit(from, to)
  {
    var r := ArrivedUbo(from, to);
    forall u | 0 <= u < 24
      ensures r[u] == to[u] <==> from[u] == to[u] || Fits(to[u])
    {
      ReboundIs(to[u]);
    }
  }

  /** From any state that agrees with `from`, the transition reaches `to`, up to
      the sign of zero, exactly when the indexed bindings that change can be
      expressed. */
  lemma ArrivesUpToZero(w: GlState, from: GlState, to: GlState)
    requires Same(w, from)
    ensures Same(Arrived(w, from, to), to) <==> UboFit(from.ubo, to.ubo)
  {
    assert NormFloats(w.floats) == Norm(w).floats == Norm(from).floats == NormFloats(from.floats);
    ArrivedFloatsSame(w.floats, from, to);
    ArrivedUboSame(from.ubo, to.ubo);
    var a := Arrived(w, from, to);
    assert Norm(a) == Norm(to).(ubo := a.ubo);
    assert Norm(to).ubo == to.ubo;
  }

  /** No float value changes only in the sign of a zero. */
  predicate FloatsMove(from: GlState, to: GlState) {
    var f, t := from.floats, to.floats;
    && (FloatsEq(f.blendColor, t.blendColor) ==> f.blendColor == t.blendColor)
    && (FloatsEq(f.clearColor, t.clearColor) ==> f.clearColor == t.clearColor)
    && (FloatEq(f.clearDepth, t.clearDepth) ==> f.clearDepth == t.clearDepth)
    && (FloatsEq(f.depthRange, t.depthRange) ==> f.depthRange == t.depthRange)
    && (FloatEq(f.lineWidth, t.lineWidth) ==> f.lineWidth == t.lineWidth)
    && (FloatsEq(f.polygonOffset, t.polygonOffset) ==> f.polygonOffset == t.polygonOffset)
    && (CoverEq(from, to) ==> f.sampleCoverage == t.sampleCoverage)
  }

  /** It reaches `to` exactly, bit for bit, if and only if moreover no group of
      floats differs in signs of zeros alone. */
  lemma ArrivesExactly(from: GlState, to: GlState)
    ensures Arrived(from, from, to) == to <==> UboFit(from.ubo, to.ubo) && FloatsMove(from, to)
  {
    ArrivedUboSame(from.ubo, to.ubo);
    var a := Arrived(from, from, to);
    assert a == to <==> a.floats == to.floats && a.ubo == to.ubo;
    assert a.floats == to.floats <==> FloatsMove(from, to);
  }

  /** A change of the clear depth from 0 to -0 emits nothing. */
  lemma SignOfZeroStays(s: GlState)
    requires s.floats.clearDepth == 0
    ensures var to := s.(floats := s.floats.(clearDepth := B31)); Arrived(s, s, to) != to && Same(Arrived(s, s, to), to)
  {
    var to := s.(floats := s.floats.(clearDepth := B31));
    assert FloatEq(s.floats.clearDepth, B31);
    assert Arrived(s, s, to).floats.clearDepth == 0;
    ArrivesUpToZero(s, s, to);
  }

  /** An offset without a size is lost. */
  lemma OffsetWithoutSize(s: GlState)
    requires s.ubo[0] == (0, 0, 0)
    ensures var to := s.(ubo := s.ubo[0 := (7, 256, 0)]); Arrived(s, s, to).ubo[0] == (7, 0, 0) && !Same(Arrived(s, s, to), to)
  {
    var to := s.(ubo := s.ubo[0 := (7, 256, 0)]);
    assert !Fits(to.ubo[0]);
    ArrivesUpToZero(s, s, to);
  }

  // ---- the ops ----

  ghost predicate StepAt(states: seq<GlState>, ops: seq<Op>, i: nat)
    requires i < |ops| < |states|
  {
    states[i + 1] == Exec(states[i], ops[i])
  }

  /** A step by an op that changes the context state. */
  ghost predicate StateStep(states: seq<GlState>, ops: seq<Op>, i: nat)
    requires i < |ops| < |states|
  {
    StepAt(states, ops, i) && StateOp(ops[i])
  }

  lemma TraceRun(states: seq<GlState>, ops: seq<Op>, n: nat)
    requires |states| == |ops| + 1 && n <= |ops| && forall i :: 0 <= i < |ops| ==> StepAt(states, ops, i)
    ensures Run(states[0], ops[..n]) == states[n]
  {
    forall i | 0 <= i < |ops|
      ensures states[i + 1] == Exec(states[i], ops[i])
    {
      assert StepAt(states, ops, i);
    }
    FoldTrace(Exec, states, ops, n);
  }

  /** `a[..i]` followed by the rest of `b`. */
  function Mix<T>(a: seq<T>, b: seq<T>, i: nat): (r: seq<T>)
    requires i <= |a| == |b|
    ensures |r| == |a|
  {
    a[..i] + b[i..]
  }

  lemma MixStep<T>(a: seq<T>, b: seq<T>, i: nat)
    requires i < |a| == |b|
    ensures Mix(a, b, i + 1) == Mix(a, b, i)[i := a[i]]
    ensures a[i] == b[i] ==> Mix(a, b, i + 1) == Mix(a, b, i)
  {
  }

  lemma MixEnds<T>(a: seq<T>, b: seq<T>)
    requires |a| == |b|
    ensures Mix(a, b, 0) == b && Mix(a, b, |a|) == a
  {
  }

  lemma OneFace<T>(face: Word, k: nat, a: seq<T>, v: T)
    requires |a| == 2 && k < 2 && face == (if k == 0 then FRONT else BACK)
    ensures OnFaces(face, a, v) == a[k := v]
  {
  }

  lemma BoxRoundTrip(b: Ints4)
    ensures [Int32(Bits32(b[0])), Int32(Bits32(b[1])), Int32(Bits32(b[2])), Int32(Bits32(b[3]))] == b
  {
  }

  function AttribCode(kind: int): Code {
    if kind == 1 then VertexAttribI4i else if kind == 2 then VertexAttribI4ui else VertexAttrib4f
  }

  lemma ExecUbo(s: GlState, u: Word, b: Ubo)
    requires u < UBO_BINDINGS
    ensures Exec(s, Op(BindBufferRange, [UNIFORM_BUFFER, u, b.0, Bits32(b.1), Bits32(b.2)])) ==
            s.(ubo := s.ubo[u := Rebound(b)], buffers := s.buffers[5 := b.0])
  {
    TablesDistinct();
    PositionOf(BUFFER_TARGETS, 5);
    var a := [UNIFORM_BUFFER, u, b.0, Bits32(b.1), Bits32(b.2)];
    assert Exec(s, Op(BindBufferRange, a)) == SetRange(s, a);
    assert SetBuffer(s, UNIFORM_BUFFER, b.0) == s.(buffers := s.buffers[5 := b.0]);
  }

  /** The ops of one transition, and the WebGL states they pass through. */
  class Stream {
    var ops: seq<Op>
    ghost const start: GlState
    ghost var states: seq<GlState>

    ghost predicate Valid()
      reads this
    {
      states != [] && states[0] == start && |states| == |ops| + 1 && forall i :: 0 <= i < |ops| ==> StateStep(states, ops, i)
    }

    ghost function Now(): GlState
      requires Valid()
      reads this
    {
      states[|ops|]
    }

    lemma Done()
      requires Valid()
      ensures Run(start, ops) == Now() && AllValid(ops)
    {
      forall i | 0 <= i < |ops|
        ensures StepAt(states, ops, i) && StateOp(ops[i])
      {
        assert StateStep(states, ops, i);
      }
      TraceRun(states, ops, |ops|);
      assert ops[..|ops|] == ops;
      StateOpsValid(ops);
    }

    constructor (ghost s: GlState)
      ensures Valid() && ops == [] && Now() == s && start == s
    {
      start := s;
      ops := [];
      states := [s];
    }

    method Emit(code: Code, args: seq<Word>)
      requires Valid() && StateOp(Op(code, args))
      modifies this
      ensures Valid() && ops == old(ops) + [Op(code, args)]
      ensures Now() == Exec(old(Now()), Op(code, args))
    {
      ops := ops + [Op(code, args)];
      states := states + [Exec(states[|states| - 1], Op(code, args))];
      assert forall i :: 0 <= i < |ops| - 1 ==> StateStep(old(states), old(ops), i) ==> StateStep(states, ops, i);
    }

    method PutCap(i: nat, on: bool)
      requires Valid() && i < |CAPS|
      modifies this
      ensures Valid() && Now() == old(Now()).(enabled := old(Now()).enabled[i := on])
    {
      TablesDistinct();
      PositionOf(CAPS, i);
      if on {
        Emit(Enable, [CAPS[i]]);
      } else {
        Emit(Disable, [CAPS[i]]);
      }
    }

    method Caps(from: GlState, to: GlState)
      requires Valid()
      requires Now().enabled == from.enabled
      modifies this
      ensures Valid()
      ensures Now() == old(Now()).(enabled := to.enabled)
    {
      ghost var w := Now();
      MixEnds(to.enabled, from.enabled);
      var i := 0;
      while i < |CAPS|
        invariant Valid()
        invariant 0 <= i <= |CAPS| && Now() == w.(enabled := Mix(to.enabled, from.enabled, i))
      {
        CapAt(from, to, i, w);
        i := i + 1;
      }
    }

    method CapAt(from: GlState, to: GlState, i: nat, ghost w: GlState)
      requires Valid() && i < |CAPS| && Now() == w.(enabled := Mix(to.enabled, from.enabled, i))
      modifies this
      ensures Valid() && Now() == w.(enabled := Mix(to.enabled, from.enabled, i + 1))
    {
      MixStep(to.enabled, from.enabled, i);
      if from.enabled[i] != to.enabled[i] {
        PutCap(i, to.enabled[i]);
      }
    }

    method BlendColors(from: GlState, to: GlState)
      requires Valid()
      modifies this
      ensures Valid()
      ensures var same := FloatsEq(from.floats.blendColor, to.floats.blendColor);
              Now() == old(Now()).(
                floats := old(Now()).floats.(blendColor := Pick(same, old(Now()).floats.blendColor, to.floats.blendColor)))
    {
      if !FloatsEq(from.floats.blendColor, to.floats.blendColor) {
        Emit(BlendColor, to.floats.blendColor);
      }
    }

    method BlendEquations(from: GlState, to: GlState)
      requires Valid() && Now().blendEq == from.blendEq
      modifies this
      ensures Valid() && Now() == old(Now()).(blendEq := to.blendEq)
    {
      if from.blendEq != to.blendEq {
        Emit(BlendEquationSeparate, to.blendEq);
      }
    }

    method BlendFuncs(from: GlState, to: GlState)
      requires Valid() && Now().blendFunc == from.blendFunc
      modifies this
      ensures Valid() && Now() == old(Now()).(blendFunc := to.blendFunc)
    {
      if from.blendFunc != to.blendFunc {
        Emit(BlendFuncSeparate, to.blendFunc);
      }
    }

    method ColorMasks(from: GlState, to: GlState)
      requires Valid() && Now().colorMask == from.colorMask
      modifies this
      ensures Valid() && Now() == old(Now()).(colorMask := to.colorMask)
    {
      var m := to.colorMask;
      assert m == [m[0], m[1], m[2], m[3]];
      if from.colorMask != m {
        Emit(ColorMask, [Flag(m[0]), Flag(m[1]), Flag(m[2]), Flag(m[3])]);
      }
    }

    method DepthMasks(from: GlState, to: GlState)
      requires Valid() && Now().depthMask == from.depthMask
      modifies this
      ensures Valid() && Now() == old(Now()).(depthMask := to.depthMask)
    {
      if from.depthMask != to.depthMask {
        Emit(DepthMask, [Flag(to.depthMask)]);
      }
    }

    method Stencils(from: GlState, to: GlState)
      requires Valid()
      requires var w := Now();
               w.stencilMask == from.stencilMask && w.stencilFunc == from.stencilFunc && w.stencilOp == from.stencilOp
      modifies this
      ensures Valid()
      ensures Now() == old(Now()).(stencilMask := to.stencilMask, stencilFunc := to.stencilFunc, stencilOp := to.stencilOp)
    {
      ghost var w := Now();
      MixEnds(to.stencilMask, from.stencilMask);
      MixEnds(to.stencilFunc, from.stencilFunc);
      MixEnds(to.stencilOp, from.stencilOp);
      var k := 0;
      while k < 2
        invariant Valid()
        invariant 0 <= k <= 2
        invariant Now() == w.(stencilMask := Mix(to.stencilMask, from.stencilMask, k),
                                  stencilFunc := Mix(to.stencilFunc, from.stencilFunc, k),
                                  stencilOp := Mix(to.stencilOp, from.stencilOp, k))
      {
        StencilFace(from, to, k, w);
        k := k + 1;
      }
    }

    method StencilFace(from: GlState, to: GlState, k: nat, ghost w: GlState)
      requires Valid() && k < 2
      requires Now() == w.(stencilMask := Mix(to.stencilMask, from.stencilMask, k),
                           stencilFunc := Mix(to.stencilFunc, from.stencilFunc, k),
                           stencilOp := Mix(to.stencilOp, from.stencilOp, k))
      modifies this
      ensures Valid()
      ensures Now() == w.(stencilMask := Mix(to.stencilMask, from.stencilMask, k + 1),
                          stencilFunc := Mix(to.stencilFunc, from.stencilFunc, k + 1),
                          stencilOp := Mix(to.stencilOp, from.stencilOp, k + 1))
    {
      var face := if k == 0 then FRONT else BACK;
      MixStep(to.stencilMask, from.stencilMask, k);
      MixStep(to.stencilFunc, from.stencilFunc, k);
      MixStep(to.stencilOp, from.stencilOp, k);
      if from.stencilMask[k] != to.stencilMask[k] {
        FaceMask(face, k, to.stencilMask[k]);
      }
      if from.stencilFunc[k] != to.stencilFunc[k] {
        FaceFunc(face, k, to.stencilFunc[k]);
      }
      if from.stencilOp[k] != to.stencilOp[k] {
        FaceOp(face, k, to.stencilOp[k]);
      }
    }

    method FaceMask(face: Word, k: nat, m: Word)
      requires Valid() && k < 2 && face == (if k == 0 then FRONT else BACK)
      modifies this
      ensures Valid() && Now() == old(Now()).(stencilMask := old(Now()).stencilMask[k := m])
    {
      OneFace(face, k, Now().stencilMask, m);
      Emit(StencilMaskSeparate, [face, m]);
    }

    method FaceFunc(face: Word, k: nat, f: (Word, I32, Word))
      requires Valid() && k < 2 && face == (if k == 0 then FRONT else BACK)
      modifies this
      ensures Valid() && Now() == old(Now()).(stencilFunc := old(Now()).stencilFunc[k := f])
    {
      OneFace(face, k, Now().stencilFunc, f);
      IntRoundTrip(f.1);
      Emit(StencilFuncSeparate, [face, f.0, Bits32(f.1), f.2]);
    }

    method FaceOp(face: Word, k: nat, o: (Word, Word, Word))
      requires Valid() && k < 2 && face == (if k == 0 then FRONT else BACK)
      modifies this
      ensures Valid() && Now() == old(Now()).(stencilOp := old(Now()).stencilOp[k := o])
    {
      OneFace(face, k, Now().stencilOp, o);
      Emit(StencilOpSeparate, [face, o.0, o.1, o.2]);
    }

    method ClearColors(from: GlState, to: GlState)
      requires Valid()
      modifies this
      ensures Valid()
      ensures var same := FloatsEq(from.floats.clearColor, to.floats.clearColor);
              Now() == old(Now()).(
                floats := old(Now()).floats.(clearColor := Pick(same, old(Now()).floats.clearColor, to.floats.clearColor)))
    {
      if !FloatsEq(from.floats.clearColor, to.floats.clearColor) {
        Emit(ClearColor, to.floats.clearColor);
      }
    }

    method ClearDepths(from: GlState, to: GlState)
      requires Valid()
      modifies this
      ensures Valid()
      ensures var same := FloatEq(from.floats.clearDepth, to.floats.clearDepth);
              Now() == old(Now()).(
                floats := old(Now()).floats.(clearDepth := Pick(same, old(Now()).floats.clearDepth, to.floats.clearDepth)))
    {
      if !FloatEq(from.floats.clearDepth, to.floats.clearDepth) {
        Emit(ClearDepth, [to.floats.clearDepth]);
      }
    }

    method ClearStencils(from: GlState, to: GlState)
      requires Valid() && Now().clearStencil == from.clearStencil
      modifies this
      ensures Valid() && Now() == old(Now()).(clearStencil := to.clearStencil)
    {
      IntRoundTrip(to.clearStencil);
      if from.clearStencil != to.clearStencil {
        Emit(ClearStencil, [Bits32(to.clearStencil)]);
      }
    }

    method CullFaces(from: GlState, to: GlState)
      requires Valid() && Now().cullFace == from.cullFace
      modifies this
      ensures Valid() && Now() == old(Now()).(cullFace := to.cullFace)
    {
      if from.cullFace != to.cullFace {
        Emit(CullFace, [to.cullFace]);
      }
    }

    method FrontFaces(from: GlState, to: GlState)
      requires Valid() && Now().frontFace == from.frontFace
      modifies this
      ensures Valid() && Now() == old(Now()).(frontFace := to.frontFace)
    {
      if from.frontFace != to.frontFace {
        Emit(FrontFace, [to.frontFace]);
      }
    }

    method DepthFuncs(from: GlState, to: GlState)
      requires Valid() && Now().depthFunc == from.depthFunc
      modifies this
      ensures Valid() && Now() == old(Now()).(depthFunc := to.depthFunc)
    {
      if from.depthFunc != to.depthFunc {
        Emit(DepthFunc, [to.depthFunc]);
      }
    }

    method DepthRanges(from: GlState, to: GlState)
      requires Valid()
      modifies this
      ensures Valid()
      ensures var same := FloatsEq(from.floats.depthRange, to.floats.depthRange);
              Now() == old(Now()).(
                floats := old(Now()).floats.(depthRange := Pick(same, old(Now()).floats.depthRange, to.floats.depthRange)))
    {
      if !FloatsEq(from.floats.depthRange, to.floats.depthRange) {
        Emit(DepthRange, to.floats.depthRange);
      }
    }

    method LineWidths(from: GlState, to: GlState)
      requires Valid()
      modifies this
      ensures Valid()
      ensures var same := FloatEq(from.floats.lineWidth, to.floats.lineWidth);
              Now() == old(Now()).(
                floats := old(Now()).floats.(lineWidth := Pick(same, old(Now()).floats.lineWidth, to.floats.lineWidth)))
    {
      if !FloatEq(from.floats.lineWidth, to.floats.lineWidth) {
        Emit(LineWidth, [to.floats.lineWidth]);
      }
    }

    method PolygonOffsets(from: GlState, to: GlState)
      requires Valid()
      modifies this
      ensures Valid()
      ensures var same := FloatsEq(from.floats.polygonOffset, to.floats.polygonOffset);
              Now() == old(Now()).(
                floats := old(Now()).floats.(polygonOffset := Pick(same, old(Now()).floats.polygonOffset, to.floats.polygonOffset)))
    {
      if !FloatsEq(from.floats.polygonOffset, to.floats.polygonOffset) {
        Emit(PolygonOffset, to.floats.polygonOffset);
      }
    }

    method SampleCoverages(from: GlState, to: GlState)
      requires Valid() && Now().coverInvert == from.coverInvert
      modifies this
      ensures Valid()
      ensures Now() == old(Now()).(
                floats := old(Now()).floats.(
                  sampleCoverage := Pick(CoverEq(from, to), old(Now()).floats.sampleCoverage, to.floats.sampleCoverage)),
                coverInvert := to.coverInvert)
    {
      if !CoverEq(from, to) {
        Emit(SampleCoverage, [to.floats.sampleCoverage, Flag(to.coverInvert)]);
      }
    }

    method Scissors(from: GlState, to: GlState)
      requires Valid() && Now().scissor == from.scissor
      modifies this
      ensures Valid() && Now() == old(Now()).(scissor := to.scissor)
    {
      var b := to.scissor;
      BoxRoundTrip(b);
      if from.scissor != b {
        Emit(Scissor, [Bits32(b[0]), Bits32(b[1]), Bits32(b[2]), Bits32(b[3])]);
      }
    }

    method Viewports(from: GlState, to: GlState)
      requires Valid() && Now().viewport == from.viewport
      modifies this
      ensures Valid() && Now() == old(Now()).(viewport := to.viewport)
    {
      var b := to.viewport;
      BoxRoundTrip(b);
      if from.viewport != b {
        Emit(Viewport, [Bits32(b[0]), Bits32(b[1]), Bits32(b[2]), Bits32(b[3])]);
      }
    }

    method PutHint(k: nat, v: Word)
      requires Valid() && k < 2
      modifies this
      ensures Valid() && Now() == old(Now()).(hints := old(Now()).hints[k := v])
    {
      TablesDistinct();
      PositionOf(HINTS, k);
      Emit(Hint, [HINTS[k], v]);
    }

    method Hints(from: GlState, to: GlState)
      requires Valid()
      requires Now().hints == from.hints
      modifies this
      ensures Valid()
      ensures Now() == old(Now()).(hints := to.hints)
    {
      ghost var w := Now();
      MixEnds(to.hints, from.hints);
      var k := 0;
      while k < 2
        invariant Valid()
        invariant 0 <= k <= 2 && Now() == w.(hints := Mix(to.hints, from.hints, k))
      {
        HintAt(from, to, k, w);
        k := k + 1;
      }
    }

    method HintAt(from: GlState, to: GlState, k: nat, ghost w: GlState)
      requires Valid() && k < 2 && Now() == w.(hints := Mix(to.hints, from.hints, k))
      modifies this
      ensures Valid() && Now() == w.(hints := Mix(to.hints, from.hints, k + 1))
    {
      MixStep(to.hints, from.hints, k);
      if from.hints[k] != to.hints[k] {
        PutHint(k, to.hints[k]);
      }
    }

    method PutPixelStore(i: nat, v: I32)
      requires Valid() && i < |PIXEL_STORE|
      modifies this
      ensures Valid() && Now() == old(Now()).(pixelStore := old(Now()).pixelStore[i := v])
    {
      TablesDistinct();
      PositionOf(PIXEL_STORE, i);
      IntRoundTrip(v);
      Emit(PixelStorei, [PIXEL_STORE[i], Bits32(v)]);
    }

    method PixelStores(from: GlState, to: GlState)
      requires Valid()
      requires Now().pixelStore == from.pixelStore
      modifies this
      ensures Valid()
      ensures Now() == old(Now()).(pixelStore := to.pixelStore)
    {
      ghost var w := Now();
      MixEnds(to.pixelStore, from.pixelStore);
      var i := 0;
      while i < |PIXEL_STORE|
        invariant Valid()
        invariant 0 <= i <= |PIXEL_STORE| && Now() == w.(pixelStore := Mix(to.pixelStore, from.pixelStore, i))
      {
        PixelStoreAt(from, to, i, w);
        i := i + 1;
      }
    }

    method PixelStoreAt(from: GlState, to: GlState, i: nat, ghost w: GlState)
      requires Valid() && i < |PIXEL_STORE| && Now() == w.(pixelStore := Mix(to.pixelStore, from.pixelStore, i))
      modifies this
      ensures Valid() && Now() == w.(pixelStore := Mix(to.pixelStore, from.pixelStore, i + 1))
    {
      MixStep(to.pixelStore, from.pixelStore, i);
      if from.pixelStore[i] != to.pixelStore[i] {
        PutPixelStore(i, to.pixelStore[i]);
      }
    }

    method SelectUnit(u: Word)
      requires Valid() && u < UNITS
      modifies this
      ensures Valid() && Now() == old(Now()).(activeTexture := u)
    {
      Emit(ActiveTexture, [TEXTURE0 + u]);
    }

    method PutTexture(u: Word, k: nat, id: Word)
      requires Valid() && u < UNITS && Now().activeTexture == u && k < |TEX_TARGETS|
      modifies this
      ensures Valid() && Now() == old(Now()).(textures := old(Now()).textures[u := old(Now()).textures[u][k := id]])
    {
      TablesDistinct();
      PositionOf(TEX_TARGETS, k);
      Emit(BindTexture, [TEX_TARGETS[k], id]);
    }

    method PutSampler(u: Word, id: Word)
      requires Valid() && u < UNITS
      modifies this
      ensures Valid() && Now() == old(Now()).(samplers := old(Now()).samplers[u := id])
    {
      Emit(BindSampler, [u, id]);
    }

    /** The textures of unit `u`; the unit is selected only if one differs. */
    method UnitTextures(from: Words4, to: Words4, u: nat, unit: Word, ghost w: GlState)
      returns (unit': Word)
      requires Valid()
      requires u < UNITS && Now() == w && w.activeTexture == unit && w.textures[u] == from
      modifies this
      ensures Valid()
      ensures Now() == w.(activeTexture := unit', textures := w.textures[u := to])
    {
      unit' := unit;
      if from == to {
        assert w.textures == w.textures[u := to];
        return;
      }
      if unit != u {
        SelectUnit(u);
        unit' := u;
      }
      EachTexture(from, to, u, Now());
    }

    method EachTexture(from: Words4, to: Words4, u: nat, ghost w: GlState)
      requires Valid() && u < UNITS && Now() == w && w.activeTexture == u && w.textures[u] == from
      modifies this
      ensures Valid() && Now() == w.(textures := w.textures[u := to])
    {
      MixEnds(to, from);
      assert w.textures == w.textures[u := from];
      var k := 0;
      while k < |TEX_TARGETS|
        invariant Valid()
        invariant 0 <= k <= |TEX_TARGETS| && Now() == w.(textures := w.textures[u := Mix(to, from, k)])
      {
        TextureAt(from, to, u, k, w);
        k := k + 1;
      }
    }

    method TextureAt(from: Words4, to: Words4, u: nat, k: nat, ghost w: GlState)
      requires Valid() && u < UNITS && w.activeTexture == u && k < |TEX_TARGETS|
      requires Now() == w.(textures := w.textures[u := Mix(to, from, k)])
      modifies this
      ensures Valid() && Now() == w.(textures := w.textures[u := Mix(to, from, k + 1)])
    {
      MixStep(to, from, k);
      if from[k] != to[k] {
        PutTexture(u, k, to[k]);
      }
    }

    /** One turn of the loop over the units. */
    method UnitAt(from: GlState, to: GlState, u: nat, unit: Word, ghost w: GlState) returns (unit': Word)
      requires Valid() && u < UNITS
      requires Now() == w.(textures := Mix(to.textures, from.textures, u), samplers := Mix(to.samplers, from.samplers, u),
                           activeTexture := unit)
      modifies this
      ensures Valid()
      ensures Now() == w.(textures := Mix(to.textures, from.textures, u + 1),
                          samplers := Mix(to.samplers, from.samplers, u + 1), activeTexture := unit')
    {
      MixStep(to.textures, from.textures, u);
      MixStep(to.samplers, from.samplers, u);
      unit' := UnitTextures(from.textures[u], to.textures[u], u, unit, Now());
      if from.samplers[u] != to.samplers[u] {
        PutSampler(u, to.samplers[u]);
      }
    }

    method TextureUnits(from: GlState, to: GlState)
      requires Valid()
      requires to.activeTexture < UNITS
      requires var w := Now();
               w.textures == from.textures && w.samplers == from.samplers && w.activeTexture == from.activeTexture
      modifies this
      ensures Valid()
      ensures Now() == old(Now()).(textures := to.textures, samplers := to.samplers, activeTexture := to.activeTexture)
    {
      ghost var w := Now();
      var unit := from.activeTexture;
      MixEnds(to.textures, from.textures);
      MixEnds(to.samplers, from.samplers);
      var u := 0;
      while u < UNITS
        invariant Valid()
        invariant 0 <= u <= UNITS
        invariant Now() == w.(textures := Mix(to.textures, from.textures, u), samplers := Mix(to.samplers, from.samplers, u),
                                  activeTexture := unit)
      {
        unit := UnitAt(from, to, u, unit, w);
        u := u + 1;
      }
      if unit != to.activeTexture {
        SelectUnit(to.activeTexture);
      }
    }

    method PutUbo(u: Word, b: Ubo)
      requires Valid() && u < UBO_BINDINGS
      modifies this
      ensures Valid() && Now() == old(Now()).(ubo := old(Now()).ubo[u := Rebound(b)], buffers := old(Now()).buffers[5 := b.0])
    {
      ExecUbo(Now(), u, b);
      Emit(BindBufferRange, [UNIFORM_BUFFER, u, b.0, Bits32(b.1), Bits32(b.2)]);
    }

    method Ubos(from: GlState, to: GlState)
      requires Valid()
      requires Now().ubo == from.ubo
      modifies this
      ensures Valid()
      ensures exists b: Words7 :: Now() == old(Now()).(ubo := ArrivedUbo(from.ubo, to.ubo), buffers := b)
                                  && b[..5] == old(Now()).buffers[..5] && b[6] == old(Now()).buffers[6]
                                  && (from.ubo == to.ubo ==> b == old(Now()).buffers)
    {
      ghost var w := Now();
      ghost var end: Ubos := ArrivedUbo(from.ubo, to.ubo);
      ghost var b: Words7 := w.buffers;
      MixEnds(end, from.ubo);
      var u := 0;
      while u < UBO_BINDINGS
        invariant Valid()
        invariant 0 <= u <= UBO_BINDINGS
        invariant Now() == w.(ubo := Mix(end, from.ubo, u), buffers := b)
        invariant b[..5] == w.buffers[..5] && b[6] == w.buffers[6]
        invariant from.ubo == to.ubo ==> b == w.buffers
      {
        MixStep(end, from.ubo, u);
        if from.ubo[u] != to.ubo[u] {
          PutUbo(u, to.ubo[u]);
          b := b[5 := to.ubo[u].0];
        }
        u := u + 1;
      }
    }

    method PutBuffer(i: nat, id: Word)
      requires Valid() && i < |BUFFER_TARGETS|
      modifies this
      ensures Valid() && Now() == old(Now()).(buffers := old(Now()).buffers[i := id])
    {
      TablesDistinct();
      PositionOf(BUFFER_TARGETS, i);
      Emit(BindBuffer, [BUFFER_TARGETS[i], id]);
    }

    method BufferAt(from: GlState, to: GlState, i: nat, ghost w: GlState)
      requires Valid() && i < |BUFFER_TARGETS| && Now() == w.(buffers := Mix(to.buffers, w.buffers, i))
      requires from.ubo == to.ubo || i != 5 ==> w.buffers[i] == from.buffers[i]
      modifies this
      ensures Valid() && Now() == w.(buffers := Mix(to.buffers, w.buffers, i + 1))
    {
      MixStep(to.buffers, w.buffers, i);
      if from.buffers[i] != to.buffers[i] || (BUFFER_TARGETS[i] == UNIFORM_BUFFER && from.ubo != to.ubo) {
        PutBuffer(i, to.buffers[i]);
      }
    }

    /** The generic bindings, after the indexed ones. */
    method Buffers(from: GlState, to: GlState)
      requires Valid()
      requires var b := Now().buffers;
               b[..5] == from.buffers[..5] && b[6] == from.buffers[6] && (from.ubo == to.ubo ==> b == from.buffers)
      modifies this
      ensures Valid()
      ensures Now() == old(Now()).(buffers := to.buffers)
    {
      ghost var w := Now();
      MixEnds(to.buffers, w.buffers);
      assert forall i :: 0 <= i < 7 && i != 5 ==> w.buffers[i] == from.buffers[i] by {
        assert forall i :: 0 <= i < 5 ==> w.buffers[i] == w.buffers[..5][i] && from.buffers[i] == from.buffers[..5][i];
      }
      var i := 0;
      while i < |BUFFER_TARGETS|
        invariant Valid()
        invariant 0 <= i <= |BUFFER_TARGETS| && Now() == w.(buffers := Mix(to.buffers, w.buffers, i))
      {
        BufferAt(from, to, i, w);
        i := i + 1;
      }
    }

    method Programs(from: GlState, to: GlState)
      requires Valid() && Now().program == from.program
      modifies this
      ensures Valid() && Now() == old(Now()).(program := to.program)
    {
      if from.program != to.program {
        Emit(UseProgram, [to.program]);
      }
    }

    method VertexArrays(from: GlState, to: GlState)
      requires Valid() && Now().vao == from.vao
      modifies this
      ensures Valid() && Now() == old(Now()).(vao := to.vao)
    {
      if from.vao != to.vao {
        Emit(BindVertexArray, [to.vao]);
      }
    }

    method DrawFbos(from: GlState, to: GlState)
      requires Valid() && Now().drawFbo == from.drawFbo
      modifies this
      ensures Valid() && Now() == old(Now()).(drawFbo := to.drawFbo)
    {
      if from.drawFbo != to.drawFbo {
        Emit(BindFramebuffer, [DRAW_FRAMEBUFFER, to.drawFbo]);
      }
    }

    method ReadFbos(from: GlState, to: GlState)
      requires Valid() && Now().readFbo == from.readFbo
      modifies this
      ensures Valid() && Now() == old(Now()).(readFbo := to.readFbo)
    {
      if from.readFbo != to.readFbo {
        Emit(BindFramebuffer, [READ_FRAMEBUFFER, to.readFbo]);
      }
    }

    method Renderbuffers(from: GlState, to: GlState)
      requires Valid() && Now().renderbuffer == from.renderbuffer
      modifies this
      ensures Valid() && Now() == old(Now()).(renderbuffer := to.renderbuffer)
    {
      if from.renderbuffer != to.renderbuffer {
        Emit(BindRenderbuffer, [to.renderbuffer]);
      }
    }

    method TransformFeedbacks(from: GlState, to: GlState)
      requires Valid() && Now().transformFeedback == from.transformFeedback
      modifies this
      ensures Valid() && Now() == old(Now()).(transformFeedback := to.transformFeedback)
    {
      if from.transformFeedback != to.transformFeedback {
        Emit(BindTransformFeedback, [to.transformFeedback]);
      }
    }

    method PutAttrib(i: Word, a: Attrib)
      requires Valid() && i < ATTRIBS && 0 <= a.0 <= 2
      modifies this
      ensures Valid() && Now() == old(Now()).(attribs := old(Now()).attribs[i := a])
    {
      var v := a.1;
      assert [i, v[0], v[1], v[2], v[3]][1..] == v;
      Emit(AttribCode(a.0), [i, v[0], v[1], v[2], v[3]]);
    }

    method CurrentAttribs(from: GlState, to: GlState)
      requires Valid()
      requires StateOk(to) && Now().attribs == from.attribs
      modifies this
      ensures Valid()
      ensures Now() == old(Now()).(attribs := to.attribs)
    {
      ghost var w := Now();
      MixEnds(to.attribs, from.attribs);
      var i := 0;
      while i < ATTRIBS
        invariant Valid()
        invariant 0 <= i <= ATTRIBS && Now() == w.(attribs := Mix(to.attribs, from.attribs, i))
      {
        AttribAt(from, to, i, w);
        i := i + 1;
      }
    }

    method AttribAt(from: GlState, to: GlState, i: nat, ghost w: GlState)
      requires Valid() && StateOk(to) && i < ATTRIBS && Now() == w.(attribs := Mix(to.attribs, from.attribs, i))
      modifies this
      ensures Valid() && Now() == w.(attribs := Mix(to.attribs, from.attribs, i + 1))
    {
      MixStep(to.attribs, from.attribs, i);
      if from.attribs[i] != to.attribs[i] {
        PutAttrib(i, to.attribs[i]);
      }
    }

    method Fragments(from: GlState, to: GlState)
      requires Valid() && Now() == from.(floats := Now().floats)
      modifies this
      ensures Valid()
      ensures var w := old(Now());
              Now() == w.(
                enabled := to.enabled,
                floats := w.floats.(
                  blendColor := ArrivedFloats(w.floats, from, to).blendColor,
                  clearColor := ArrivedFloats(w.floats, from, to).clearColor,
                  clearDepth := ArrivedFloats(w.floats, from, to).clearDepth),
                blendEq := to.blendEq, blendFunc := to.blendFunc, colorMask := to.colorMask, depthMask := to.depthMask,
                stencilMask := to.stencilMask, stencilFunc := to.stencilFunc, stencilOp := to.stencilOp,
                clearStencil := to.clearStencil)
    {
      Caps(from, to);
      BlendColors(from, to);
      BlendEquations(from, to);
      BlendFuncs(from, to);
      ColorMasks(from, to);
      DepthMasks(from, to);
      Stencils(from, to);
      ClearColors(from, to);
      ClearDepths(from, to);
      ClearStencils(from, to);
    }

    method Rasters(from: GlState, to: GlState)
      requires Valid()
      requires var w := Now();
               && w.cullFace == from.cullFace && w.frontFace == from.frontFace && w.depthFunc == from.depthFunc
               && w.coverInvert == from.coverInvert && w.scissor == from.scissor && w.viewport == from.viewport
      modifies this
      ensures Valid()
      ensures var w := old(Now());
              Now() == w.(
                floats := w.floats.(
                  depthRange := ArrivedFloats(w.floats, from, to).depthRange,
                  lineWidth := ArrivedFloats(w.floats, from, to).lineWidth,
                  polygonOffset := ArrivedFloats(w.floats, from, to).polygonOffset,
                  sampleCoverage := ArrivedFloats(w.floats, from, to).sampleCoverage),
                cullFace := to.cullFace, frontFace := to.frontFace, depthFunc := to.depthFunc,
                coverInvert := to.coverInvert, scissor := to.scissor, viewport := to.viewport)
    {
      CullFaces(from, to);
      FrontFaces(from, to);
      DepthFuncs(from, to);
      DepthRanges(from, to);
      LineWidths(from, to);
      PolygonOffsets(from, to);
      SampleCoverages(from, to);
      Scissors(from, to);
      Viewports(from, to);
    }

    method Samples(from: GlState, to: GlState)
      requires Valid() && to.activeTexture < UNITS
      requires var w := Now();
               && w.hints == from.hints && w.pixelStore == from.pixelStore && w.textures == from.textures
               && w.samplers == from.samplers && w.activeTexture == from.activeTexture
      modifies this
      ensures Valid()
      ensures Now() == old(Now()).(
                hints := to.hints, pixelStore := to.pixelStore, textures := to.textures, samplers := to.samplers,
                activeTexture := to.activeTexture)
    {
      Hints(from, to);
      PixelStores(from, to);
      TextureUnits(from, to);
    }

    method Bindings(from: GlState, to: GlState)
      requires Valid() && StateOk(to)
      requires var w := Now();
               && w.program == from.program && w.vao == from.vao && w.ubo == from.ubo && w.buffers == from.buffers
               && w.drawFbo == from.drawFbo && w.readFbo == from.readFbo && w.renderbuffer == from.renderbuffer
               && w.transformFeedback == from.transformFeedback && w.attribs == from.attribs
      modifies this
      ensures Valid()
      ensures Now() == old(Now()).(
                program := to.program, vao := to.vao, ubo := ArrivedUbo(from.ubo, to.ubo), buffers := to.buffers,
                drawFbo := to.drawFbo, readFbo := to.readFbo, renderbuffer := to.renderbuffer,
                transformFeedback := to.transformFeedback, attribs := to.attribs)
    {
      Programs(from, to);
      VertexArrays(from, to);
      Ubos(from, to);
      Buffers(from, to);
      DrawFbos(from, to);
      ReadFbos(from, to);
      Renderbuffers(from, to);
      TransformFeedbacks(from, to);
      CurrentAttribs(from, to);
    }
  }

  /** `from == to`. */
  predicate Equal(from: GlState, to: GlState) {
    && from == to.(floats := from.floats)
    && FloatsEq(from.floats.blendColor, to.floats.blendColor) && FloatsEq(from.floats.clearColor, to.floats.clearColor)
    && FloatEq(from.floats.clearDepth, to.floats.clearDepth) && FloatsEq(from.floats.depthRange, to.floats.depthRange)
    && FloatEq(from.floats.lineWidth, to.floats.lineWidth)
    && FloatsEq(from.floats.polygonOffset, to.floats.polygonOffset)
    && FloatEq(from.floats.sampleCoverage, to.floats.sampleCoverage)
  }

  /** `transition`. Executed on any WebGL state that agrees with `from`, the ops
      lead to `Arrived`. */
  method Transition(from: GlState, to: GlState, ghost s: GlState) returns (ops: seq<Op>)
    requires StateOk(to) && Same(s, from)
    ensures Run(s, ops) == Arrived(s, from, to) && AllValid(ops)
  {
    ops := [];
    AgreeWith(s, from);
    if Equal(from, to) {
      assert ArrivedUbo(from.ubo, to.ubo) == to.ubo;
      return;
    }
    var out := new Stream(s);
    out.Fragments(from, to);
    out.Rasters(from, to);
    out.Samples(from, to);
    out.Bindings(from, to);
    out.Done();
    ops := out.ops;
  }

  lemma AgreeWith(s: GlState, from: GlState)
    requires Same(s, from)
    ensures s == from.(floats := s.floats)
  {
    assert s == Norm(s).(floats := s.floats) && from == Norm(from).(floats := from.floats);
  }
}
