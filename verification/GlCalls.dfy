/** The GLES calls that change context state: what the decoder records in its
    state vector, and which ops it sends to the executor. */
module GlCalls {
  import opened AddressSpace
  import opened Flags
  import opened OpBuf
  import opened GlState
  import opened Transition

  const FRAMEBUFFER: Word := 0x8D40
  const EXTERNAL_OES: Word := 0x8D65

  /** A call with its arguments decoded and its object names resolved to host
      ids. For a framebuffer, `draw` and `read` are what the two targets get:
      the object, or the surfaces of the context for name 0. */
  datatype Call =
    | ActiveTexture(texture: Word)
    | Enable(on: bool, cap: Word)
    | BlendColor(f4: Words4)
    | BlendEquation(w2: Words2)
    | BlendFunc(w4: Words4)
    | ColorMask(b4: Bools4)
    | DepthMask(b: bool)
    | StencilMask(face: Word, mask: Word)
    | StencilFunc(face: Word, fn: (Word, I32, Word))
    | StencilOp(face: Word, op: (Word, Word, Word))
    | ClearColor(f4: Words4)
    | ClearDepth(f: Word)
    | ClearStencil(i: I32)
    | CullFace(w: Word)
    | FrontFace(w: Word)
    | DepthFunc(w: Word)
    | DepthRange(f2: Words2)
    | LineWidth(f: Word)
    | PolygonOffset(f2: Words2)
    | SampleCoverage(f: Word, b: bool)
    | Scissor(i4: Ints4)
    | Viewport(i4: Ints4)
    | Hint(target: Word, w: Word)
    | PixelStore(param: Word, i: I32)
    | VertexAttrib(index: Word, kind: AttribKind, w4: Words4)
    | BindTexture(target: Word, id: Word)
    | BindBuffer(target: Word, id: Word)
    | BindRange(target: Word, index: Word, id: Word, off: I32, size: I32)
    | BindFramebuffer(target: Word, draw: Word, read: Word)
    | BindRenderbuffer(id: Word)
    | BindVertexArray(id: Word)
    | BindSampler(unit: Word, id: Word)
    | BindTransformFeedback(id: Word)
    | UseProgram(id: Word)

  /** `a.u(0).wrapping_sub(0x84C0).min(UNITS - 1)`. */
  function UnitOf(texture: Word): (u: Word)
    ensures u < UNITS
  {
    var u := (texture - TEXTURE0) % B32;
    if u < UNITS then u else UNITS - 1
  }

  function SamplerUnit(unit: Word): (u: Word)
    ensures u < UNITS
  {
    if unit < UNITS then unit else UNITS - 1
  }

  /** `tex_slot`. */
  function TexSlot(target: Word): (r: Option<nat>)
    ensures r.Some? ==> r.value < 4
  {
    if target == EXTERNAL_OES then Some(0) else Position(TEX_TARGETS, target)
  }

  predicate ForDraw(target: Word) { target == FRAMEBUFFER || target == DRAW_FRAMEBUFFER }
  predicate ForRead(target: Word) { target == FRAMEBUFFER || target == READ_FRAMEBUFFER }

  /** What the decoder's closure does to a state vector. */
  function Change(c: Call, s: GlState): (s': GlState)
    requires s.activeTexture < UNITS
  {
    match c
    case ActiveTexture(t) => s.(activeTexture := UnitOf(t))
    case Enable(on, cap) => SetCap(s, cap, on)
    case BlendColor(v) => s.(floats := s.floats.(blendColor := v))
    case BlendEquation(v) => s.(blendEq := v)
    case BlendFunc(v) => s.(blendFunc := v)
    case ColorMask(v) => s.(colorMask := v)
    case DepthMask(v) => s.(depthMask := v)
    case StencilMask(face, m) => s.(stencilMask := OnFaces(face, s.stencilMask, m))
    case StencilFunc(face, f) => s.(stencilFunc := OnFaces(face, s.stencilFunc, f))
    case StencilOp(face, o) => s.(stencilOp := OnFaces(face, s.stencilOp, o))
    case ClearColor(v) => s.(floats := s.floats.(clearColor := v))
    case ClearDepth(v) => s.(floats := s.floats.(clearDepth := v))
    case ClearStencil(v) => s.(clearStencil := v)
    case CullFace(v) => s.(cullFace := v)
    case FrontFace(v) => s.(frontFace := v)
    case DepthFunc(v) => s.(depthFunc := v)
    case DepthRange(v) => s.(floats := s.floats.(depthRange := v))
    case LineWidth(v) => s.(floats := s.floats.(lineWidth := v))
    case PolygonOffset(v) => s.(floats := s.floats.(polygonOffset := v))
    case SampleCoverage(v, b) => s.(floats := s.floats.(sampleCoverage := v), coverInvert := b)
    case Scissor(v) => s.(scissor := v)
    case Viewport(v) => s.(viewport := v)
    case Hint(t, v) => SetHint(s, t, v)
    case PixelStore(p, v) => SetPixelStore(s, p, v)
    case VertexAttrib(i, k, v) => if i < ATTRIBS then s.(attribs := s.attribs[i := (k, v)]) else s
    case BindTexture(t, id) =>
      if TexSlot(t).Some?
      then s.(textures := s.textures[s.activeTexture := s.textures[s.activeTexture][TexSlot(t).value := id]]) else s
    case BindBuffer(t, id) => SetBuffer(s, t, id)
    case BindRange(t, i, id, off, size) =>
      if t == UNIFORM_BUFFER && i < UBO_BINDINGS
      then s.(ubo := s.ubo[i := (id, off, size)], buffers := s.buffers[5 := id])
      else SetBuffer(s, t, id)
    case BindFramebuffer(t, d, r) =>
      s.(drawFbo := if ForDraw(t) then d else s.drawFbo, readFbo := if ForRead(t) then r else s.readFbo)
    case BindRenderbuffer(id) => s.(renderbuffer := id)
    case BindVertexArray(id) => s.(vao := id)
    case BindSampler(u, id) => s.(samplers := s.samplers[SamplerUnit(u) := id])
    case BindTransformFeedback(id) => s.(transformFeedback := id)
    case UseProgram(id) => s.(program := id)
  }

  function Box(v: Ints4): seq<Word> {
    [Bits32(v[0]), Bits32(v[1]), Bits32(v[2]), Bits32(v[3])]
  }

  /** The ops of the call. */
  function Ops(c: Call): (ops: seq<Op>) {
    match c
    case ActiveTexture(t) => [Op(Code.ActiveTexture, [TEXTURE0 + UnitOf(t)])]
    case Enable(on, cap) =>
      if Position(CAPS, cap).Some? then [Op(if on then Code.Enable else Code.Disable, [cap])] else []
    case BlendColor(v) => [Op(Code.BlendColor, v)]
    case BlendEquation(v) => [Op(Code.BlendEquationSeparate, v)]
    case BlendFunc(v) => [Op(Code.BlendFuncSeparate, v)]
    case ColorMask(v) => [Op(Code.ColorMask, [Flag(v[0]), Flag(v[1]), Flag(v[2]), Flag(v[3])])]
    case DepthMask(v) => [Op(Code.DepthMask, [Flag(v)])]
    case StencilMask(face, m) => [Op(Code.StencilMaskSeparate, [face, m])]
    case StencilFunc(face, f) => [Op(Code.StencilFuncSeparate, [face, f.0, Bits32(f.1), f.2])]
    case StencilOp(face, o) => [Op(Code.StencilOpSeparate, [face, o.0, o.1, o.2])]
    case ClearColor(v) => [Op(Code.ClearColor, v)]
    case ClearDepth(v) => [Op(Code.ClearDepth, [v])]
    case ClearStencil(v) => [Op(Code.ClearStencil, [Bits32(v)])]
    case CullFace(v) => [Op(Code.CullFace, [v])]
    case FrontFace(v) => [Op(Code.FrontFace, [v])]
    case DepthFunc(v) => [Op(Code.DepthFunc, [v])]
    case DepthRange(v) => [Op(Code.DepthRange, v)]
    case LineWidth(v) => [Op(Code.LineWidth, [v])]
    case PolygonOffset(v) => [Op(Code.PolygonOffset, v)]
    case SampleCoverage(v, b) => [Op(Code.SampleCoverage, [v, Flag(b)])]
    case Scissor(v) => [Op(Code.Scissor, Box(v))]
    case Viewport(v) => [Op(Code.Viewport, Box(v))]
    case Hint(t, v) => if Position(HINTS, t).Some? then [Op(Code.Hint, [t, v])] else []
    case PixelStore(p, v) => if Position(PIXEL_STORE, p).Some? then [Op(Code.PixelStorei, [p, Bits32(v)])] else []
    case VertexAttrib(i, k, v) => if i < ATTRIBS then [Op(AttribCode(k), [i, v[0], v[1], v[2], v[3]])] else []
    case BindTexture(t, id) =>
      if TexSlot(t).Some? then [Op(Code.BindTexture, [TEX_TARGETS[TexSlot(t).value], id])] else []
    case BindBuffer(t, id) =>
      if t == 0x8893 || Position(BUFFER_TARGETS, t).Some? then [Op(Code.BindBuffer, [t, id])] else []
    case BindRange(t, i, id, off, size) => [Op(Code.BindBufferRange, [t, i, id, Bits32(off), Bits32(size)])]
    case BindFramebuffer(t, d, r) =>
      (if ForDraw(t) then [Op(Code.BindFramebuffer, [DRAW_FRAMEBUFFER, d])] else []) +
      (if ForRead(t) then [Op(Code.BindFramebuffer, [READ_FRAMEBUFFER, r])] else [])
    case BindRenderbuffer(id) => [Op(Code.BindRenderbuffer, [id])]
    case BindVertexArray(id) => [Op(Code.BindVertexArray, [id])]
    case BindSampler(u, id) => [Op(Code.BindSampler, [SamplerUnit(u), id])]
    case BindTransformFeedback(id) => [Op(Code.BindTransformFeedback, [id])]
    case UseProgram(id) => [Op(Code.UseProgram, [id])]
  }

  /** Arguments the executor can express: an indexed uniform buffer binding within
      the limit, with a range or the whole buffer. */
  predicate ValidCall(c: Call) {
    c.BindRange? && c.target == UNIFORM_BUFFER ==> c.index < UBO_BINDINGS && Fits((c.id, c.off, c.size))
  }

  // ---- the recorded state is what the ops do ----

  lemma OneOp(c: Call, s: GlState)
    requires s.activeTexture < UNITS && |Ops(c)| == 1
    ensures Run(s, Ops(c)) == Exec(s, Ops(c)[0])
  {
    assert Ops(c) == [Ops(c)[0]];
    RunOne(s, Ops(c)[0]);
  }

  lemma RecordedWords(c: Call, s: GlState)
    requires s.activeTexture < UNITS && (c.BlendEquation? || c.BlendFunc? || c.CullFace? || c.FrontFace? || c.DepthFunc?)
    ensures Run(s, Ops(c)) == Change(c, s)
  {
    OneOp(c, s);
  }

  lemma RecordedFloats1(c: Call, s: GlState)
    requires s.activeTexture < UNITS && (c.BlendColor? || c.ClearColor? || c.ClearDepth?)
    ensures Run(s, Ops(c)) == Change(c, s)
  {
    OneOp(c, s);
  }

  lemma RecordedFloats2(c: Call, s: GlState)
    requires s.activeTexture < UNITS && (c.DepthRange? || c.LineWidth?)
    ensures Run(s, Ops(c)) == Change(c, s)
  {
    match c
    case DepthRange(v) =>
      var op := Op(Code.DepthRange, v);
      RunOne(s, op);
      assert Exec(s, op) == s.(floats := s.floats.(depthRange := v));
    case LineWidth(v) =>
      var op := Op(Code.LineWidth, [v]);
      RunOne(s, op);
      assert Exec(s, op) == s.(floats := s.floats.(lineWidth := v));
  }

  lemma RecordedPolygonOffset(c: Call, s: GlState)
    requires s.activeTexture < UNITS && c.PolygonOffset?
    ensures Run(s, Ops(c)) == Change(c, s)
  {
    var op := Op(Code.PolygonOffset, c.f2);
    RunOne(s, op);
    assert Exec(s, op) == s.(floats := s.floats.(polygonOffset := c.f2));
  }

  lemma RecordedSampleCoverage(c: Call, s: GlState)
    requires s.activeTexture < UNITS && c.SampleCoverage?
    ensures Run(s, Ops(c)) == Change(c, s)
  {
    var op := Op(Code.SampleCoverage, [c.f, Flag(c.b)]);
    RunOne(s, op);
    assert Exec(s, op) == s.(floats := s.floats.(sampleCoverage := c.f), coverInvert := c.b);
  }

  lemma RecordedMasks(c: Call, s: GlState)
    requires s.activeTexture < UNITS && (c.ColorMask? || c.DepthMask?)
    ensures Run(s, Ops(c)) == Change(c, s)
  {
    match c
    case ColorMask(v) =>
      var op := Op(Code.ColorMask, [Flag(v[0]), Flag(v[1]), Flag(v[2]), Flag(v[3])]);
      assert v == [v[0], v[1], v[2], v[3]];
      RunOne(s, op);
      assert Exec(s, op) == s.(colorMask := v);
    case DepthMask(v) =>
      var op := Op(Code.DepthMask, [Flag(v)]);
      RunOne(s, op);
      assert Exec(s, op) == s.(depthMask := v);
  }

  lemma RecordedStencil(c: Call, s: GlState)
    requires s.activeTexture < UNITS && (c.StencilMask? || c.StencilFunc?)
    ensures Run(s, Ops(c)) == Change(c, s)
  {
    match c
    case StencilMask(face, m) =>
      var op := Op(Code.StencilMaskSeparate, [face, m]);
      RunOne(s, op);
      assert Exec(s, op) == s.(stencilMask := OnFaces(face, s.stencilMask, m));
    case StencilFunc(face, f) =>
      var op := Op(Code.StencilFuncSeparate, [face, f.0, Bits32(f.1), f.2]);
      IntRoundTrip(f.1);
      RunOne(s, op);
      assert Exec(s, op) == s.(stencilFunc := OnFaces(face, s.stencilFunc, f));
  }

  lemma RecordedStencil2(c: Call, s: GlState)
    requires s.activeTexture < UNITS && (c.StencilOp? || c.ClearStencil?)
    ensures Run(s, Ops(c)) == Change(c, s)
  {
    match c
    case StencilOp(face, o) =>
      var op := Op(Code.StencilOpSeparate, [face, o.0, o.1, o.2]);
      RunOne(s, op);
      assert Exec(s, op) == s.(stencilOp := OnFaces(face, s.stencilOp, o));
    case ClearStencil(v) =>
      var op := Op(Code.ClearStencil, [Bits32(v)]);
      IntRoundTrip(v);
      RunOne(s, op);
      assert Exec(s, op) == s.(clearStencil := v);
  }

  lemma RecordedBoxes(c: Call, s: GlState)
    requires s.activeTexture < UNITS && (c.Scissor? || c.Viewport?)
    ensures Run(s, Ops(c)) == Change(c, s)
  {
    match c
    case Scissor(v) =>
      var op := Op(Code.Scissor, Box(v));
      BoxRoundTrip(v);
      RunOne(s, op);
      assert Exec(s, op) == s.(scissor := v);
    case Viewport(v) =>
      var op := Op(Code.Viewport, Box(v));
      BoxRoundTrip(v);
      RunOne(s, op);
      assert Exec(s, op) == s.(viewport := v);
  }

  lemma RecordedRenderbuffer(c: Call, s: GlState)
    requires s.activeTexture < UNITS && c.BindRenderbuffer?
    ensures Run(s, Ops(c)) == Change(c, s)
  {
    RunOne(s, Op(Code.BindRenderbuffer, [c.id]));
    assert Exec(s, Op(Code.BindRenderbuffer, [c.id])) == s.(renderbuffer := c.id);
  }

  lemma RecordedVertexArray(c: Call, s: GlState)
    requires s.activeTexture < UNITS && c.BindVertexArray?
    ensures Run(s, Ops(c)) == Change(c, s)
  {
    RunOne(s, Op(Code.BindVertexArray, [c.id]));
    assert Exec(s, Op(Code.BindVertexArray, [c.id])) == s.(vao := c.id);
  }

  lemma RecordedTransformFeedback(c: Call, s: GlState)
    requires s.activeTexture < UNITS && c.BindTransformFeedback?
    ensures Run(s, Ops(c)) == Change(c, s)
  {
    RunOne(s, Op(Code.BindTransformFeedback, [c.id]));
    assert Exec(s, Op(Code.BindTransformFeedback, [c.id])) == s.(transformFeedback := c.id);
  }

  lemma RecordedProgram(c: Call, s: GlState)
    requires s.activeTexture < UNITS && c.UseProgram?
    ensures Run(s, Ops(c)) == Change(c, s)
  {
    RunOne(s, Op(Code.UseProgram, [c.id]));
    assert Exec(s, Op(Code.UseProgram, [c.id])) == s.(program := c.id);
  }

  /** Nothing recorded, nothing sent. */
  lemma NoOps(c: Call, s: GlState)
    requires s.activeTexture < UNITS && Ops(c) == [] && !c.BindFramebuffer?
    ensures Change(c, s) == s == Run(s, Ops(c))
  {
  }

  lemma CapOps(s: GlState, t: Word)
    ensures Exec(s, Op(Code.Enable, [t])) == SetCap(s, t, true) && Exec(s, Op(Code.Disable, [t])) == SetCap(s, t, false)
  {
  }

  lemma HintOp(s: GlState, t: Word, v: Word)
    ensures Exec(s, Op(Code.Hint, [t, v])) == SetHint(s, t, v)
  {
  }

  lemma PixelStoreOp(s: GlState, t: Word, v: Word)
    ensures Exec(s, Op(Code.PixelStorei, [t, v])) == SetPixelStore(s, t, Int32(v))
  {
  }

  lemma TextureOp(s: GlState, t: Word, v: Word)
    ensures Exec(s, Op(Code.BindTexture, [t, v])) == SetTexture(s, t, v)
  {
  }

  lemma BufferOp(s: GlState, t: Word, v: Word)
    ensures Exec(s, Op(Code.BindBuffer, [t, v])) == SetBuffer(s, t, v)
  {
  }

  lemma RecordedEnable(c: Call, s: GlState)
    requires s.activeTexture < UNITS && c.Enable?
    ensures Run(s, Ops(c)) == Change(c, s)
  {
    if Ops(c) == [] {
      NoOps(c, s);
    } else {
      OneOp(c, s);
      CapOps(s, c.cap);
    }
  }

  lemma RecordedHint(c: Call, s: GlState)
    requires s.activeTexture < UNITS && c.Hint?
    ensures Run(s, Ops(c)) == Change(c, s)
  {
    if Ops(c) == [] {
      NoOps(c, s);
    } else {
      OneOp(c, s);
      HintOp(s, c.target, c.w);
    }
  }

  lemma RecordedPixelStore(c: Call, s: GlState)
    requires s.activeTexture < UNITS && c.PixelStore?
    ensures Run(s, Ops(c)) == Change(c, s)
  {
    if Ops(c) == [] {
      NoOps(c, s);
    } else {
      OneOp(c, s);
      PixelStoreOp(s, c.param, Bits32(c.i));
      IntRoundTrip(c.i);
    }
  }

  lemma RecordedUnit(c: Call, s: GlState)
    requires s.activeTexture < UNITS && c.ActiveTexture?
    ensures Run(s, Ops(c)) == Change(c, s)
  {
    RunOne(s, Op(Code.ActiveTexture, [TEXTURE0 + UnitOf(c.texture)]));
    assert Exec(s, Op(Code.ActiveTexture, [TEXTURE0 + UnitOf(c.texture)])) == s.(activeTexture := UnitOf(c.texture));
  }

  lemma RecordedSampler(c: Call, s: GlState)
    requires s.activeTexture < UNITS && c.BindSampler?
    ensures Run(s, Ops(c)) == Change(c, s)
  {
    RunOne(s, Op(Code.BindSampler, [SamplerUnit(c.unit), c.id]));
    assert Exec(s, Op(Code.BindSampler, [SamplerUnit(c.unit), c.id])) == s.(samplers := s.samplers[SamplerUnit(c.unit) := c.id]);
  }

  lemma RecordedTexture(c: Call, s: GlState)
    requires s.activeTexture < UNITS && c.BindTexture?
    ensures Run(s, Ops(c)) == Change(c, s)
  {
    if Ops(c) == [] {
      NoOps(c, s);
    } else {
      OneOp(c, s);
      TextureOp(s, TEX_TARGETS[TexSlot(c.target).value], c.id);
      TablesDistinct();
      PositionOf(TEX_TARGETS, TexSlot(c.target).value);
    }
  }

  lemma AttribOp(s: GlState, i: Word, k: int, v: Words4)
    requires i < ATTRIBS && 0 <= k <= 2
    ensures Exec(s, Op(AttribCode(k), [i, v[0], v[1], v[2], v[3]])) == s.(attribs := s.attribs[i := (k, v)])
  {
    assert [i, v[0], v[1], v[2], v[3]][1..] == v;
  }

  lemma RecordedAttrib(c: Call, s: GlState)
    requires s.activeTexture < UNITS && c.VertexAttrib? && ValidCall(c)
    ensures Run(s, Ops(c)) == Change(c, s)
  {
    if Ops(c) == [] {
      NoOps(c, s);
    } else {
      OneOp(c, s);
      AttribOp(s, c.index, c.kind, c.w4);
    }
  }

  lemma RecordedBuffer(c: Call, s: GlState)
    requires s.activeTexture < UNITS && c.BindBuffer?
    ensures Run(s, Ops(c)) == Change(c, s)
  {
    if Ops(c) == [] {
      NoOps(c, s);
    } else {
      OneOp(c, s);
      BufferOp(s, c.target, c.id);
    }
  }

  lemma RangeOp(c: Call, s: GlState)
    requires s.activeTexture < UNITS && c.BindRange?
    ensures Run(s, Ops(c)) == SetRange(s, [c.target, c.index, c.id, Bits32(c.off), Bits32(c.size)])
  {
    var a: seq<Word> := [c.target, c.index, c.id, Bits32(c.off), Bits32(c.size)];
    RunOne(s, Op(Code.BindBufferRange, a));
    RangeExec(s, Op(Code.BindBufferRange, a));
  }

  lemma RangeExec(s: GlState, op: Op)
    requires op.code.BindBufferRange? && |op.args| == 5
    ensures Exec(s, op) == SetRange(s, op.args)
  {
  }

  lemma RecordedRange(c: Call, s: GlState)
    requires s.activeTexture < UNITS && c.BindRange? && ValidCall(c)
    ensures Run(s, Ops(c)) == Change(c, s)
  {
    RangeOp(c, s);
    RangeIs(c, s);
  }

  lemma RangeIs(c: Call, s: GlState)
    requires s.activeTexture < UNITS && c.BindRange? && ValidCall(c)
    ensures SetRange(s, [c.target, c.index, c.id, Bits32(c.off), Bits32(c.size)]) == Change(c, s)
  {
    if c.target == UNIFORM_BUFFER {
      ReboundIs((c.id, c.off, c.size));
      TablesDistinct();
      PositionOf(BUFFER_TARGETS, 5);
    }
  }

  lemma RecordedFramebuffer(c: Call, s: GlState)
    requires s.activeTexture < UNITS && c.BindFramebuffer?
    ensures Run(s, Ops(c)) == Change(c, s)
  {
    var d, r := Op(Code.BindFramebuffer, [DRAW_FRAMEBUFFER, c.draw]), Op(Code.BindFramebuffer, [READ_FRAMEBUFFER, c.read]);
    FramebufferOp(s, DRAW_FRAMEBUFFER, c.draw);
    FramebufferOp(s, READ_FRAMEBUFFER, c.read);
    FramebufferOp(s.(drawFbo := c.draw), READ_FRAMEBUFFER, c.read);
    RunOne(s, d);
    RunOne(s, r);
    RunAppend(s, [d], [r]);
    RunOne(Exec(s, d), r);
    assert [d] + [] == [d] && [] + [r] == [r];
    assert !ForDraw(c.target) && !ForRead(c.target) ==> Ops(c) == [];
  }

  lemma FramebufferOp(s: GlState, target: Word, id: Word)
    ensures Exec(s, Op(Code.BindFramebuffer, [target, id])) == SetFramebuffer(s, target, id)
  {
  }

  /** The decoder's record of a valid call is what its ops do to the WebGL state,
      for every call and every state. */
  lemma Recorded(c: Call, s: GlState)
    requires s.activeTexture < UNITS && ValidCall(c)
    ensures Run(s, Ops(c)) == Change(c, s)
  {
    match c
    case BlendEquation(_) => RecordedWords(c, s);
    case BlendFunc(_) => RecordedWords(c, s);
    case CullFace(_) => RecordedWords(c, s);
    case FrontFace(_) => RecordedWords(c, s);
    case DepthFunc(_) => RecordedWords(c, s);
    case BlendColor(_) => RecordedFloats1(c, s);
    case ClearColor(_) => RecordedFloats1(c, s);
    case ClearDepth(_) => RecordedFloats1(c, s);
    case DepthRange(_) => RecordedFloats2(c, s);
    case LineWidth(_) => RecordedFloats2(c, s);
    case PolygonOffset(_) => RecordedPolygonOffset(c, s);
    case SampleCoverage(_, _) => RecordedSampleCoverage(c, s);
    case ColorMask(_) => RecordedMasks(c, s);
    case DepthMask(_) => RecordedMasks(c, s);
    case StencilMask(_, _) => RecordedStencil(c, s);
    case StencilFunc(_, _) => RecordedStencil(c, s);
    case StencilOp(_, _) => RecordedStencil2(c, s);
    case ClearStencil(_) => RecordedStencil2(c, s);
    case Scissor(_) => RecordedBoxes(c, s);
    case Viewport(_) => RecordedBoxes(c, s);
    case BindRenderbuffer(_) => RecordedRenderbuffer(c, s);
    case BindVertexArray(_) => RecordedVertexArray(c, s);
    case BindTransformFeedback(_) => RecordedTransformFeedback(c, s);
    case UseProgram(_) => RecordedProgram(c, s);
    case Enable(_, _) => RecordedEnable(c, s);
    case Hint(_, _) => RecordedHint(c, s);
    case PixelStore(_, _) => RecordedPixelStore(c, s);
    case ActiveTexture(_) => RecordedUnit(c, s);
    case BindSampler(_, _) => RecordedSampler(c, s);
    case BindTexture(_, _) => RecordedTexture(c, s);
    case VertexAttrib(_, _, _) => RecordedAttrib(c, s);
    case BindBuffer(_, _) => RecordedBuffer(c, s);
    case BindRange(_, _, _, _, _) => RecordedRange(c, s);
    case BindFramebuffer(_, _, _) => RecordedFramebuffer(c, s);
  }

  /** And only of valid ones: an invalid call leaves some state different from
      the record. */
  lemma InvalidDiffers(c: Call, s: GlState)
    requires StateOk(s) && !ValidCall(c) && c.BindRange?
    ensures exists t: GlState :: t.activeTexture < UNITS && Run(t, Ops(c)) != Change(c, t)
  {
    var t := s.(buffers := s.buffers[5 := if c.id == 0 then 1 else 0]);
    RangeOp(c, t);
    RangeDiffers(c, t);
  }

  lemma RangeDiffers(c: Call, t: GlState)
    requires t.activeTexture < UNITS && !ValidCall(c) && c.BindRange? && t.buffers[5] != c.id
    ensures SetRange(t, [c.target, c.index, c.id, Bits32(c.off), Bits32(c.size)]) != Change(c, t)
  {
    var x := SetRange(t, [c.target, c.index, c.id, Bits32(c.off), Bits32(c.size)]);
    TablesDistinct();
    PositionOf(BUFFER_TARGETS, 5);
    if c.index < UBO_BINDINGS {
      ReboundIs((c.id, c.off, c.size));
      assert x.ubo[c.index] != Change(c, t).ubo[c.index];
    } else {
      assert x.buffers[5] != Change(c, t).buffers[5];
    }
  }

  // ---- calls and states up to the sign of zero ----

  /** A call does the same to states that agree. */
  lemma ChangeSame(c: Call, a: GlState, b: GlState)
    requires a.activeTexture < UNITS && b.activeTexture < UNITS && Same(a, b)
    ensures Same(Change(c, a), Change(c, b))
  {
    AgreeWith(a, b);
    AgreeFloats(a, b);
    ChangeFloats(c, a, b);
    ChangeRest(c, a, b);
    SameBut(Change(c, a), Change(c, b));
  }

  lemma ChangeRest(c: Call, a: GlState, b: GlState)
    requires a.activeTexture < UNITS && b.activeTexture < UNITS && a == b.(floats := a.floats)
    ensures Change(c, a) == Change(c, b).(floats := Change(c, a).floats)
  {
    if c.BindTexture? {
      TextureRest(c, a, b);
    } else if c.BindRange? {
      RangeRest(c, a, b);
    } else if c.BindBuffer? {
      BufferRest(c, a, b);
    } else if c.Enable? || c.Hint? || c.PixelStore? {
      TableRest(c, a, b);
    } else if c.VertexAttrib? || c.BindSampler? {
      IndexRest(c, a, b);
    } else if FloatCall(c) {
      FloatRest(c, a, b);
    } else {
      FieldRest(c, a, b);
    }
  }

  predicate FloatCall(c: Call) {
    || c.BlendColor? || c.ClearColor? || c.ClearDepth? || c.DepthRange? || c.LineWidth? || c.PolygonOffset?
    || c.SampleCoverage?
  }

  lemma FloatRest(c: Call, a: GlState, b: GlState)
    requires a.activeTexture < UNITS && b.activeTexture < UNITS && a == b.(floats := a.floats) && FloatCall(c)
    ensures Change(c, a) == Change(c, b).(floats := Change(c, a).floats)
  {
  }

  lemma FieldRest(c: Call, a: GlState, b: GlState)
    requires a.activeTexture < UNITS && b.activeTexture < UNITS && a == b.(floats := a.floats) && !FloatCall(c)
    requires !c.BindTexture? && !c.BindRange? && !c.BindBuffer? && !c.Enable? && !c.Hint? && !c.PixelStore?
    requires !c.VertexAttrib? && !c.BindSampler?
    ensures Change(c, a) == Change(c, b).(floats := Change(c, a).floats)
  {
  }

  lemma TextureRest(c: Call, a: GlState, b: GlState)
    requires a.activeTexture < UNITS && b.activeTexture < UNITS && a == b.(floats := a.floats) && c.BindTexture?
    ensures Change(c, a) == Change(c, b).(floats := Change(c, a).floats)
  {
  }

  lemma BufferRest(c: Call, a: GlState, b: GlState)
    requires a.activeTexture < UNITS && b.activeTexture < UNITS && a == b.(floats := a.floats) && c.BindBuffer?
    ensures Change(c, a) == Change(c, b).(floats := Change(c, a).floats)
  {
  }

  lemma RangeRest(c: Call, a: GlState, b: GlState)
    requires a.activeTexture < UNITS && b.activeTexture < UNITS && a == b.(floats := a.floats) && c.BindRange?
    ensures Change(c, a) == Change(c, b).(floats := Change(c, a).floats)
  {
  }

  lemma TableRest(c: Call, a: GlState, b: GlState)
    requires a.activeTexture < UNITS && b.activeTexture < UNITS && a == b.(floats := a.floats)
    requires c.Enable? || c.Hint? || c.PixelStore?
    ensures Change(c, a) == Change(c, b).(floats := Change(c, a).floats)
  {
  }

  lemma IndexRest(c: Call, a: GlState, b: GlState)
    requires a.activeTexture < UNITS && b.activeTexture < UNITS && a == b.(floats := a.floats)
    requires c.VertexAttrib? || c.BindSampler?
    ensures Change(c, a) == Change(c, b).(floats := Change(c, a).floats)
  {
  }

  lemma ChangeFloats(c: Call, a: GlState, b: GlState)
    requires a.activeTexture < UNITS && b.activeTexture < UNITS && NormFloats(a.floats) == NormFloats(b.floats)
    ensures NormFloats(Change(c, a).floats) == NormFloats(Change(c, b).floats)
  {
    if !(c.BlendColor? || c.ClearColor? || c.ClearDepth? || c.DepthRange? || c.LineWidth? || c.PolygonOffset?
         || c.SampleCoverage?) {
      FloatsStay(c, a);
      FloatsStay(c, b);
    }
  }

  lemma FloatsStay(c: Call, a: GlState)
    requires a.activeTexture < UNITS
    requires !(c.BlendColor? || c.ClearColor? || c.ClearDepth? || c.DepthRange? || c.LineWidth? || c.PolygonOffset?
               || c.SampleCoverage?)
    ensures Change(c, a).floats == a.floats
  {
  }

  lemma SameBut(x: GlState, y: GlState)
    requires x == y.(floats := x.floats) && NormFloats(x.floats) == NormFloats(y.floats)
    ensures Same(x, y)
  {
    assert Norm(x) == x.(floats := NormFloats(y.floats)) == Norm(y);
  }

  lemma AgreeFloats(a: GlState, b: GlState)
    requires Same(a, b)
    ensures NormFloats(a.floats) == NormFloats(b.floats)
  {
    assert Norm(a).floats == Norm(b).floats;
  }

  /** What the decoder keeps true of the states of its contexts. */
  ghost predicate UboOk(s: GlState) {
    forall u :: 0 <= u < 24 ==> Fits(s.ubo[u])
  }

  lemma ChangeOk(c: Call, s: GlState)
    requires ValidCall(c) && StateOk(s) && UboOk(s)
    ensures StateOk(Change(c, s)) && UboOk(Change(c, s))
  {
    var s' := Change(c, s);
    if c.BindRange? {
      RangeOk(c, s);
    } else if c.VertexAttrib? {
      assert s'.ubo == s.ubo;
    } else if c.ActiveTexture? {
      assert s'.ubo == s.ubo && s'.attribs == s.attribs;
    } else {
      BindingsStay(c, s);
    }
  }

  lemma RangeOk(c: Call, s: GlState)
    requires c.BindRange? && ValidCall(c) && StateOk(s) && UboOk(s)
    ensures StateOk(Change(c, s)) && UboOk(Change(c, s))
  {
  }

  lemma BindingsStay(c: Call, s: GlState)
    requires s.activeTexture < UNITS && !c.BindRange? && !c.VertexAttrib? && !c.ActiveTexture?
    ensures var s' := Change(c, s); s'.ubo == s.ubo && s'.attribs == s.attribs && s'.activeTexture == s.activeTexture
  {
    if FloatCall(c) {
      FloatCallStays(c, s);
    } else if c.Enable? || c.Hint? || c.PixelStore? || c.BindBuffer? || c.BindTexture? || c.BindSampler? {
      TablesStay(c, s);
    }
  }

  lemma FloatCallStays(c: Call, s: GlState)
    requires s.activeTexture < UNITS && FloatCall(c)
    ensures var s' := Change(c, s); s'.ubo == s.ubo && s'.attribs == s.attribs && s'.activeTexture == s.activeTexture
  {
  }

  lemma TablesStay(c: Call, s: GlState)
    requires s.activeTexture < UNITS
    requires c.Enable? || c.Hint? || c.PixelStore? || c.BindBuffer? || c.BindTexture? || c.BindSampler?
    ensures var s' := Change(c, s); s'.ubo == s.ubo && s'.attribs == s.attribs && s'.activeTexture == s.activeTexture
  {
  }
}
