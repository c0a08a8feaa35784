/** What each state-setting GLES call does to a WebGL context, field by field and in
    terms of its arguments. */
module GlEffects {
  import opened AddressSpace
  import opened Flags
  import opened OpBuf
  import opened GlState
  import opened Transition
  import opened GlCalls

  /** Slot `i` of a table holds `v` if it is the slot of `key`, and otherwise what it
      held. */
  ghost predicate SlotSet<T>(keys: seq<Word>, key: Word, v: T, old_: seq<T>, new_: seq<T>) {
    && |new_| == |old_| == |keys|
    && forall i :: 0 <= i < |keys| ==> new_[i] == if keys[i] == key then v else old_[i]
  }

  /** Entry `k` of an array holds `v`, the others what they held. */
  ghost predicate EntrySet<T>(k: int, v: T, old_: seq<T>, new_: seq<T>) {
    && |new_| == |old_|
    && forall i :: 0 <= i < |old_| ==> new_[i] == if i == k then v else old_[i]
  }

  /** The front face has `v` unless the call is for the back, and the other way
      round. */
  ghost predicate FacesSet<T>(face: Word, v: T, old_: seq<T>, new_: seq<T>) {
    && |new_| == |old_| == 2
    && new_[0] == (if face == BACK then old_[0] else v) && new_[1] == (if face == FRONT then old_[1] else v)
  }

  /** Call `c` leads from `s` to `s'`. */
  ghost predicate Does(c: Call, s: GlState, s': GlState) {
    match c
    case ActiveTexture(t) =>
      s' == s.(activeTexture := if TEXTURE0 <= t < TEXTURE0 + UNITS then t - TEXTURE0 else UNITS - 1)
    case Enable(on, cap) => s' == s.(enabled := s'.enabled) && SlotSet(CAPS, cap, on, s.enabled, s'.enabled)
    case Hint(t, v) => s' == s.(hints := s'.hints) && SlotSet(HINTS, t, v, s.hints, s'.hints)
    case PixelStore(p, v) =>
      s' == s.(pixelStore := s'.pixelStore) && SlotSet(PIXEL_STORE, p, v, s.pixelStore, s'.pixelStore)
    case BindBuffer(t, id) => s' == s.(buffers := s'.buffers) && SlotSet(BUFFER_TARGETS, t, id, s.buffers, s'.buffers)
    case BindTexture(t, id) => s' == s.(textures := s'.textures) && TextureSet(t, id, s, s')
    case BindSampler(u, id) =>
      && s' == s.(samplers := s'.samplers)
      && EntrySet(if u < UNITS then u else UNITS - 1, id, s.samplers, s'.samplers)
    case VertexAttrib(i, kind, v) =>
      s' == s.(attribs := s'.attribs) && EntrySet<Attrib>(i, (kind, v), s.attribs, s'.attribs)
    case BindRange(t, i, id, off, size) =>
      && s' == s.(ubo := s'.ubo, buffers := s'.buffers) && SlotSet(BUFFER_TARGETS, t, id, s.buffers, s'.buffers)
      && (if t == UNIFORM_BUFFER then EntrySet<Ubo>(i, (id, off, size), s.ubo, s'.ubo) else s'.ubo == s.ubo)
    case BindFramebuffer(t, draw, read) =>
      s' == s.(drawFbo := if t == 0x8D40 || t == 0x8CA9 then draw else s.drawFbo,
               readFbo := if t == 0x8D40 || t == 0x8CA8 then read else s.readFbo)
    case StencilMask(face, m) =>
      s' == s.(stencilMask := s'.stencilMask) && FacesSet(face, m, s.stencilMask, s'.stencilMask)
    case StencilFunc(face, f) =>
      s' == s.(stencilFunc := s'.stencilFunc) && FacesSet(face, f, s.stencilFunc, s'.stencilFunc)
    case StencilOp(face, o) => s' == s.(stencilOp := s'.stencilOp) && FacesSet(face, o, s.stencilOp, s'.stencilOp)
    case BlendColor(v) => s' == s.(floats := s.floats.(blendColor := v))
    case ClearColor(v) => s' == s.(floats := s.floats.(clearColor := v))
    case ClearDepth(v) => s' == s.(floats := s.floats.(clearDepth := v))
    case DepthRange(v) => s' == s.(floats := s.floats.(depthRange := v))
    case LineWidth(v) => s' == s.(floats := s.floats.(lineWidth := v))
    case PolygonOffset(v) => s' == s.(floats := s.floats.(polygonOffset := v))
    case SampleCoverage(v, invert) => s' == s.(floats := s.floats.(sampleCoverage := v), coverInvert := invert)
    case BlendEquation(v) => s' == s.(blendEq := v)
    case BlendFunc(v) => s' == s.(blendFunc := v)
    case ColorMask(v) => s' == s.(colorMask := v)
    case DepthMask(v) => s' == s.(depthMask := v)
    case ClearStencil(v) => s' == s.(clearStencil := v)
    case CullFace(v) => s' == s.(cullFace := v)
    case FrontFace(v) => s' == s.(frontFace := v)
    case DepthFunc(v) => s' == s.(depthFunc := v)
    case Scissor(v) => s' == s.(scissor := v)
    case Viewport(v) => s' == s.(viewport := v)
    case BindRenderbuffer(id) => s' == s.(renderbuffer := id)
    case BindVertexArray(id) => s' == s.(vao := id)
    case BindTransformFeedback(id) => s' == s.(transformFeedback := id)
    case UseProgram(id) => s' == s.(program := id)
  }

  /** The texture is bound in the selected unit, at its target; an external texture
      is a 2D one. */
  ghost predicate TextureSet(t: Word, id: Word, s: GlState, s': GlState) {
    && (forall u :: 0 <= u < UNITS && u != s.activeTexture ==> s'.textures[u] == s.textures[u])
    && s.activeTexture < UNITS
    && SlotSet(TEX_TARGETS, if t == EXTERNAL_OES then TEX_TARGETS[0] else t, id,
               s.textures[s.activeTexture], s'.textures[s.activeTexture])
  }

  /** Writing the slot that the table has for a key, if any. */
  lemma SlotIs<T>(keys: seq<Word>, key: Word, v: T, old_: seq<T>)
    requires Distinct(keys) && |old_| == |keys|
    ensures match Position(keys, key)
            case Some(i) => SlotSet(keys, key, v, old_, old_[i := v])
            case None => SlotSet(keys, key, v, old_, old_)
  {
    PositionIs(keys, key);
  }

  lemma TableDoes(c: Call, s: GlState)
    requires s.activeTexture < UNITS && (c.Enable? || c.Hint? || c.PixelStore? || c.BindBuffer?)
    ensures Does(c, s, Change(c, s))
  {
    TablesDistinct();
    match c
    case Enable(on, cap) => SlotIs(CAPS, cap, on, s.enabled);
    case Hint(t, v) => SlotIs(HINTS, t, v, s.hints);
    case PixelStore(p, v) => SlotIs(PIXEL_STORE, p, v, s.pixelStore);
    case BindBuffer(t, id) => SlotIs(BUFFER_TARGETS, t, id, s.buffers);
  }

  lemma TextureDoes(c: Call, s: GlState)
    requires s.activeTexture < UNITS && c.BindTexture?
    ensures Does(c, s, Change(c, s))
  {
    TablesDistinct();
    var row, key := s.textures[s.activeTexture], if c.target == EXTERNAL_OES then TEX_TARGETS[0] else c.target;
    SlotIs(TEX_TARGETS, key, c.id, row);
    if c.target == EXTERNAL_OES {
      PositionOf(TEX_TARGETS, 0);
    }
    assert TexSlot(c.target) == Position(TEX_TARGETS, key);
  }

  lemma RangeDoes(c: Call, s: GlState)
    requires s.activeTexture < UNITS && c.BindRange? && ValidCall(c)
    ensures Does(c, s, Change(c, s))
  {
    TablesDistinct();
    SlotIs(BUFFER_TARGETS, c.target, c.id, s.buffers);
    if c.target == UNIFORM_BUFFER {
      PositionOf(BUFFER_TARGETS, 5);
    }
  }

  lemma IndexDoes(c: Call, s: GlState)
    requires s.activeTexture < UNITS && (c.BindSampler? || c.VertexAttrib?)
    ensures Does(c, s, Change(c, s))
  {
  }

  lemma TargetDoes(c: Call, s: GlState)
    requires s.activeTexture < UNITS && (c.ActiveTexture? || c.BindFramebuffer?)
    ensures Does(c, s, Change(c, s))
  {
  }

  lemma StencilDoes(c: Call, s: GlState)
    requires s.activeTexture < UNITS && (c.StencilMask? || c.StencilFunc? || c.StencilOp?)
    ensures Does(c, s, Change(c, s))
  {
  }

  lemma FloatDoes(c: Call, s: GlState)
    requires s.activeTexture < UNITS && FloatCall(c)
    ensures Does(c, s, Change(c, s))
  {
  }

  /** The decoder's record of a valid call. */
  lemma ChangeDoes(c: Call, s: GlState)
    requires s.activeTexture < UNITS && ValidCall(c)
    ensures Does(c, s, Change(c, s))
  {
    if c.Enable? || c.Hint? || c.PixelStore? || c.BindBuffer? {
      TableDoes(c, s);
    } else if c.BindTexture? {
      TextureDoes(c, s);
    } else if c.BindRange? {
      RangeDoes(c, s);
    } else if c.BindSampler? || c.VertexAttrib? {
      IndexDoes(c, s);
    } else if c.ActiveTexture? || c.BindFramebuffer? {
      TargetDoes(c, s);
    } else if c.StencilMask? || c.StencilFunc? || c.StencilOp? {
      StencilDoes(c, s);
    } else if FloatCall(c) {
      FloatDoes(c, s);
    }
  }

  /** What the ops of a valid call do to any WebGL state. */
  lemma OpsDo(c: Call, s: GlState)
    requires s.activeTexture < UNITS && ValidCall(c)
    ensures Does(c, s, Run(s, Ops(c)))
  {
    Recorded(c, s);
    ChangeDoes(c, s);
  }
}
