/** The GL state of a context, and a small WebGL machine: what each op of the
    executor does to it. */
module GlState {
  import opened AddressSpace
  import opened Flags
  import opened OpBuf

  type I32 = x: int | -B31 <= x < B31

  const UNITS: int := 32
  const ATTRIBS: int := 16
  const UBO_BINDINGS: int := 24

  /** Capabilities of glEnable, in the order of `enabled`. */
  const CAPS: seq<Word> :=
    [0x0BE2, 0x0B44, 0x0B71, 0x0BD0, 0x8037, 0x8D69, 0x8C89, 0x809E, 0x80A0, 0x0C11, 0x0B90]
  /** Pixel store parameters, in the order of `pixelStore`. */
  const PIXEL_STORE: seq<Word> :=
    [0x0CF5, 0x0D05, 0x0CF2, 0x0CF3, 0x0CF4, 0x806E, 0x806D, 0x0D02, 0x0D03, 0x0D04]
  const HINTS: seq<Word> := [0x8192, 0x8B8B]
  /** Texture targets per unit. */
  const TEX_TARGETS: seq<Word> := [0x0DE1, 0x8513, 0x806F, 0x8C1A]
  /** Generic buffer bindings kept per context. */
  const BUFFER_TARGETS: seq<Word> := [0x8892, 0x8F36, 0x8F37, 0x88EB, 0x88EC, 0x8A11, 0x8C8E]
  const UNIFORM_BUFFER: Word := 0x8A11
  const FRONT: Word := 0x0404
  const BACK: Word := 0x0405
  const TEXTURE0: Word := 0x84C0
  const DRAW_FRAMEBUFFER: Word := 0x8CA9
  const READ_FRAMEBUFFER: Word := 0x8CA8

  // Arrays of the source.
  type Words2 = s: seq<Word> | |s| == 2 witness [0, 0]
  type Words4 = s: seq<Word> | |s| == 4 witness [0, 0, 0, 0]
  type Words7 = s: seq<Word> | |s| == 7 witness [0, 0, 0, 0, 0, 0, 0]
  type Words32 = s: seq<Word> | |s| == 32 witness seq(32, _ => 0)
  type Ints4 = s: seq<I32> | |s| == 4 witness [0, 0, 0, 0]
  type Ints10 = s: seq<I32> | |s| == 10 witness seq(10, _ => 0)
  type Bools4 = s: seq<bool> | |s| == 4 witness [true, true, true, true]
  type Bools11 = s: seq<bool> | |s| == 11 witness seq(11, _ => false)
  const NONE4: Words4 := [0, 0, 0, 0]
  type Textures = s: seq<Words4> | |s| == 32 witness seq<Words4>(32, _ => NONE4)
  type StencilFuncs = s: seq<(Word, I32, Word)> | |s| == 2 witness [(0, 0, 0), (0, 0, 0)]
  type StencilOps = s: seq<(Word, Word, Word)> | |s| == 2 witness [(0, 0, 0), (0, 0, 0)]
  /** Buffer, offset, size; size 0 is the whole buffer. */
  type Ubo = (Word, int, int)
  type Ubos = s: seq<Ubo> | |s| == 24 witness seq<Ubo>(24, _ => (0, 0, 0))
  /** Kind (0 float, 1 int, 2 uint) and four values. */
  type AttribKind = k: int | 0 <= k <= 2
  type Attrib = (int, Words4)
  type Attribs = s: seq<Attrib> | |s| == 16 witness seq<Attrib>(16, _ => (0, NONE4))

  /** The float values, as bits. */
  datatype Floats = Floats(
    blendColor: Words4, clearColor: Words4, clearDepth: Word, depthRange: Words2, lineWidth: Word,
    polygonOffset: Words2, sampleCoverage: Word)

  datatype GlState = GlState(
    floats: Floats, coverInvert: bool,
    enabled: Bools11, blendEq: Words2, blendFunc: Words4, colorMask: Bools4, depthMask: bool,
    stencilMask: Words2, clearStencil: I32, cullFace: Word, frontFace: Word, depthFunc: Word,
    scissor: Ints4, viewport: Ints4, stencilFunc: StencilFuncs, stencilOp: StencilOps,
    hints: Words2, pixelStore: Ints10,
    activeTexture: Word, textures: Textures, samplers: Words32,
    program: Word, vao: Word, buffers: Words7, ubo: Ubos,
    drawFbo: Word, readFbo: Word, renderbuffer: Word, transformFeedback: Word,
    attribs: Attribs)

  /** Float bits of 1. */
  const ONE_F: Word := 0x3F80_0000
  const ATTRIB4: Words4 := [0, 0, 0, ONE_F]

  /** The initial state of a context, with its default vertex array. */
  function Initial(vao: Word): GlState {
    GlState(
      Floats([0, 0, 0, 0], [0, 0, 0, 0], ONE_F, [0, ONE_F], ONE_F, [0, 0], ONE_F), false,
      seq(11, i => i == 3), [0x8006, 0x8006], [1, 0, 1, 0], [true, true, true, true], true,
      [0xFFFF_FFFF, 0xFFFF_FFFF], 0, 0x0405, 0x0901, 0x0201,
      [0, 0, 0, 0], [0, 0, 0, 0], [(0x0207, 0, 0xFFFF_FFFF), (0x0207, 0, 0xFFFF_FFFF)],
      [(0x1E00, 0x1E00, 0x1E00), (0x1E00, 0x1E00, 0x1E00)],
      [0x1100, 0x1100], [4, 4, 0, 0, 0, 0, 0, 0, 0, 0],
      0, seq<Words4>(32, _ => NONE4), seq(32, _ => 0),
      0, vao, [0, 0, 0, 0, 0, 0, 0], seq<Ubo>(24, _ => (0, 0, 0)),
      0, 0, 0, 0,
      seq<Attrib>(16, _ => (0, ATTRIB4)))
  }

  /** Nothing is bound in a new context but its vertex array, and of the capabilities
      only dithering is on. */
  lemma NothingBound(vao: Word)
    ensures var s := Initial(vao);
            && s.vao == vao && s.program == 0 && s.drawFbo == 0 && s.readFbo == 0 && s.renderbuffer == 0
            && s.transformFeedback == 0 && s.activeTexture == 0
            && (forall u :: 0 <= u < UNITS ==> s.textures[u] == NONE4 && s.samplers[u] == 0)
            && (forall b :: b in s.buffers ==> b == 0) && (forall b :: b in s.ubo ==> b == (0, 0, 0))
            && (forall i :: 0 <= i < |CAPS| ==> (s.enabled[i] <==> CAPS[i] == 0x0BD0))
  {
  }

  /** It draws plainly: it writes every colour, depth and stencil bit, without blending
      (ONE, ZERO, by addition), stencil test (ALWAYS, KEEP) or offset, with the depth
      test LESS over the range from 0 to 1; front faces are counterclockwise, back
      faces are culled, rows are aligned to 4 bytes, and attributes are (0, 0, 0, 1). */
  lemma DrawsPlainly(vao: Word)
    ensures var s := Initial(vao);
            && (forall b :: b in s.colorMask ==> b) && s.depthMask && (forall m :: m in s.stencilMask ==> m == B32 - 1)
            && s.blendEq == [0x8006, 0x8006] && s.blendFunc == [1, 0, 1, 0]
            && (forall f :: f in s.stencilFunc ==> f == (0x0207, 0, B32 - 1))
            && (forall o :: o in s.stencilOp ==> o == (0x1E00, 0x1E00, 0x1E00))
            && s.depthFunc == 0x0201 && s.frontFace == 0x0901 && s.cullFace == 0x0405 && s.clearStencil == 0
            && (forall i :: 0 <= i < |PIXEL_STORE| ==>
                 s.pixelStore[i] == if PIXEL_STORE[i] == 0x0CF5 || PIXEL_STORE[i] == 0x0D05 then 4 else 0)
            && (forall h :: h in s.hints ==> h == 0x1100) && s.viewport == s.scissor == [0, 0, 0, 0]
            && (forall a :: a in s.attribs ==> a == (0, ATTRIB4))
            && var f := s.floats;
            && f.blendColor == f.clearColor == [0, 0, 0, 0] && f.polygonOffset == [0, 0] && !s.coverInvert
            && f.depthRange == [0, 0x3F80_0000]
            && f.clearDepth == f.lineWidth == f.sampleCoverage == 0x3F80_0000
  {
  }

  // ---- conversions ----

  /** `v as u32`. */
  function Bits32(v: int): (w: Word) {
    v % B32
  }

  /** `w as i32`. */
  function Int32(w: Word): (v: I32) {
    if w < B31 then w else w - B32
  }

  lemma IntRoundTrip(v: I32)
    ensures Int32(Bits32(v)) == v
  {
  }

  function Flag(b: bool): Word {
    if b then 1 else 0
  }

  /** `xs.iter().position(|&c| c == x)`. */
  function Position(xs: seq<Word>, x: Word): (r: Option<nat>)
    ensures r.Some? ==> r.value < |xs|
  {
    if xs == [] then None
    else if xs[0] == x then Some(0)
    else
      match Position(xs[1..], x)
      case None => None
      case Some(i) => Some(i + 1)
  }

  ghost predicate Distinct(xs: seq<Word>) {
    forall i, j :: 0 <= i < j < |xs| ==> xs[i] != xs[j]
  }

  /** The first place where `x` stands, if any. */
  lemma {:induction false} PositionIs(xs: seq<Word>, x: Word)
    ensures match Position(xs, x)
            case Some(i) => xs[i] == x && forall j :: 0 <= j < i ==> xs[j] != x
            case None => x !in xs
  {
    if xs != [] && xs[0] != x {
      PositionIs(xs[1..], x);
    }
  }

  lemma PositionOf(xs: seq<Word>, i: nat)
    requires Distinct(xs) && i < |xs|
    ensures Position(xs, xs[i]) == Some(i)
  {
    PositionIs(xs, xs[i]);
  }

  lemma TablesDistinct()
    ensures Distinct(CAPS) && Distinct(PIXEL_STORE) && Distinct(HINTS) && Distinct(TEX_TARGETS) && Distinct(BUFFER_TARGETS)
  {
  }

  // ---- the WebGL machine ----

  /** Front, back, or both. */
  function OnFaces<T>(face: Word, s: seq<T>, v: T): (r: seq<T>)
    requires |s| == 2
    ensures |r| == 2
  {
    [if face != BACK then v else s[0], if face != FRONT then v else s[1]]
  }

  /** An indexed binding made by `BindBufferRange`: size 0 binds the whole
      buffer, without the offset. */
  function Bound(id: Word, off: Word, size: Word): Ubo {
    if size == 0 then (id, 0, 0) else (id, off, size)
  }

  /** What an op does to the state of the WebGL context. Unknown enumerants and
      indices out of range have no effect. */
  function Exec(s: GlState, op: Op): (s': GlState) {
    var a := op.args;
    match op.code
    case Enable => if |a| == 1 then SetCap(s, a[0], true) else s
    case Disable => if |a| == 1 then SetCap(s, a[0], false) else s
    case BlendColor => if |a| == 4 then s.(floats := s.floats.(blendColor := a)) else s
    case BlendEquationSeparate => if |a| == 2 then s.(blendEq := a) else s
    case BlendFuncSeparate => if |a| == 4 then s.(blendFunc := a) else s
    case ColorMask => if |a| == 4 then s.(colorMask := [a[0] != 0, a[1] != 0, a[2] != 0, a[3] != 0]) else s
    case DepthMask => if |a| == 1 then s.(depthMask := a[0] != 0) else s
    case StencilMaskSeparate => if |a| == 2 then s.(stencilMask := OnFaces(a[0], s.stencilMask, a[1])) else s
    case ClearColor => if |a| == 4 then s.(floats := s.floats.(clearColor := a)) else s
    case ClearDepth => if |a| == 1 then s.(floats := s.floats.(clearDepth := a[0])) else s
    case ClearStencil => if |a| == 1 then s.(clearStencil := Int32(a[0])) else s
    case CullFace => if |a| == 1 then s.(cullFace := a[0]) else s
    case FrontFace => if |a| == 1 then s.(frontFace := a[0]) else s
    case DepthFunc => if |a| == 1 then s.(depthFunc := a[0]) else s
    case DepthRange => if |a| == 2 then s.(floats := s.floats.(depthRange := a)) else s
    case LineWidth => if |a| == 1 then s.(floats := s.floats.(lineWidth := a[0])) else s
    case PolygonOffset => if |a| == 2 then s.(floats := s.floats.(polygonOffset := a)) else s
    case SampleCoverage =>
      if |a| == 2 then s.(floats := s.floats.(sampleCoverage := a[0]), coverInvert := a[1] != 0) else s
    case Scissor => if |a| == 4 then s.(scissor := [Int32(a[0]), Int32(a[1]), Int32(a[2]), Int32(a[3])]) else s
    case Viewport => if |a| == 4 then s.(viewport := [Int32(a[0]), Int32(a[1]), Int32(a[2]), Int32(a[3])]) else s
    case StencilFuncSeparate =>
      if |a| == 4 then s.(stencilFunc := OnFaces(a[0], s.stencilFunc, (a[1], Int32(a[2]), a[3]))) else s
    case StencilOpSeparate => if |a| == 4 then s.(stencilOp := OnFaces(a[0], s.stencilOp, (a[1], a[2], a[3]))) else s
    case Hint => if |a| == 2 then SetHint(s, a[0], a[1]) else s
    case PixelStorei => if |a| == 2 then SetPixelStore(s, a[0], Int32(a[1])) else s
    case ActiveTexture =>
      if |a| == 1 && TEXTURE0 <= a[0] < TEXTURE0 + UNITS then s.(activeTexture := a[0] - TEXTURE0) else s
    case BindTexture => if |a| == 2 then SetTexture(s, a[0], a[1]) else s
    case BindSampler => if |a| == 2 && a[0] < UNITS then s.(samplers := s.samplers[a[0] := a[1]]) else s
    case UseProgram => if |a| == 1 then s.(program := a[0]) else s
    case BindVertexArray => if |a| == 1 then s.(vao := a[0]) else s
    case BindBuffer => if |a| == 2 then SetBuffer(s, a[0], a[1]) else s
    case BindBufferRange => if |a| == 5 then SetRange(s, a) else s
    case BindFramebuffer => if |a| == 2 then SetFramebuffer(s, a[0], a[1]) else s
    case BindRenderbuffer => if |a| == 1 then s.(renderbuffer := a[0]) else s
    case BindTransformFeedback => if |a| == 1 then s.(transformFeedback := a[0]) else s
    case VertexAttrib4f => if |a| == 5 && a[0] < ATTRIBS then s.(attribs := s.attribs[a[0] := (0, a[1..])]) else s
    case VertexAttribI4i => if |a| == 5 && a[0] < ATTRIBS then s.(attribs := s.attribs[a[0] := (1, a[1..])]) else s
    case VertexAttribI4ui => if |a| == 5 && a[0] < ATTRIBS then s.(attribs := s.attribs[a[0] := (2, a[1..])]) else s
    case Other(_) => s
  }

  function SetCap(s: GlState, cap: Word, on: bool): GlState {
    match Position(CAPS, cap)
    case Some(i) => s.(enabled := s.enabled[i := on])
    case None => s
  }

  function SetHint(s: GlState, target: Word, v: Word): GlState {
    match Position(HINTS, target)
    case Some(i) => s.(hints := s.hints[i := v])
    case None => s
  }

  function SetPixelStore(s: GlState, p: Word, v: I32): GlState {
    match Position(PIXEL_STORE, p)
    case Some(i) => s.(pixelStore := s.pixelStore[i := v])
    case None => s
  }

  /** A texture goes to the active unit. */
  function SetTexture(s: GlState, target: Word, id: Word): GlState {
    match Position(TEX_TARGETS, target)
    case Some(i) =>
      if s.activeTexture < UNITS
      then s.(textures := s.textures[s.activeTexture := s.textures[s.activeTexture][i := id]]) else s
    case None => s
  }

  function SetBuffer(s: GlState, target: Word, id: Word): GlState {
    match Position(BUFFER_TARGETS, target)
    case Some(i) => s.(buffers := s.buffers[i := id])
    case None => s
  }

  /** An indexed binding also takes the generic one. The indexed bindings of
      transform feedback belong to its object. */
  function SetRange(s: GlState, a: seq<Word>): GlState
    requires |a| == 5
  {
    if a[0] != UNIFORM_BUFFER then SetBuffer(s, a[0], a[2])
    else if a[1] >= UBO_BINDINGS then s
    else SetBuffer(s.(ubo := s.ubo[a[1] := Bound(a[2], a[3], a[4])]), UNIFORM_BUFFER, a[2])
  }

  function SetFramebuffer(s: GlState, target: Word, id: Word): GlState {
    if target == DRAW_FRAMEBUFFER then s.(drawFbo := id)
    else if target == READ_FRAMEBUFFER then s.(readFbo := id)
    else if target == 0x8D40 then s.(drawFbo := id, readFbo := id)
    else s
  }

  lemma FramebufferTargets(s: GlState, target: Word, id: Word)
    ensures var s' := SetFramebuffer(s, target, id);
            && s'.drawFbo == (if target == 0x8D40 || target == 0x8CA9 then id else s.drawFbo)
            && s'.readFbo == (if target == 0x8D40 || target == 0x8CA8 then id else s.readFbo)
            && s' == s.(drawFbo := s'.drawFbo, readFbo := s'.readFbo)
  {
  }

  /** One step after the other. */
  function Fold<S, O>(step: (S, O) -> S, s: S, ops: seq<O>): S {
    if ops == [] then s else step(Fold(step, s, ops[..|ops| - 1]), ops[|ops| - 1])
  }

  lemma FoldOne<S, O>(step: (S, O) -> S, s: S, op: O)
    ensures Fold(step, s, [op]) == step(s, op)
  {
    assert [op][..0] == [];
    assert Fold(step, s, []) == s;
  }

  lemma {:induction false} FoldAppend<S, O>(step: (S, O) -> S, s: S, a: seq<O>, b: seq<O>)
    ensures Fold(step, s, a + b) == Fold(step, Fold(step, s, a), b)
  {
    if b == [] {
      assert a + b == a;
    } else {
      var b' := b[..|b| - 1];
      FoldAppend(step, s, a, b');
      assert (a + b)[..|a + b| - 1] == a + b';
    }
  }

  /** A trace of states, each one step after the one before, ends where the steps
      lead. */
  lemma {:induction false} FoldTrace<S, O>(step: (S, O) -> S, states: seq<S>, ops: seq<O>, n: nat)
    requires |states| == |ops| + 1 && n <= |ops|
    requires forall i :: 0 <= i < |ops| ==> states[i + 1] == step(states[i], ops[i])
    ensures Fold(step, states[0], ops[..n]) == states[n]
  {
    if n > 0 {
      FoldTrace(step, states, ops, n - 1);
      assert ops[..n][..n - 1] == ops[..n - 1];
    }
  }

  function Run(s: GlState, ops: seq<Op>): (s': GlState) {
    Fold(Exec, s, ops)
  }

  lemma RunOne(s: GlState, op: Op)
    ensures Run(s, [op]) == Exec(s, op)
  {
    FoldOne(Exec, s, op);
  }

  lemma RunAppend(s: GlState, a: seq<Op>, b: seq<Op>)
    ensures Run(s, a + b) == Run(Run(s, a), b)
  {
    FoldAppend(Exec, s, a, b);
  }

  // ---- floats up to the sign of zero ----

  predicate IsZero(w: Word) {
    w % B31 == 0
  }

  predicate IsNaN(w: Word) {
    w % B31 > 0x7F80_0000
  }

  /** All exponent bits are set, and some bit of the fraction. */
  lemma NaNIs(w: Word)
    ensures IsNaN(w) <==> w / 0x80_0000 % 0x100 == 0xFF && w % 0x80_0000 != 0
  {
  }

  /** `==` on `f32`. */
  predicate FloatEq(x: Word, y: Word) {
    !IsNaN(x) && !IsNaN(y) && (x == y || (IsZero(x) && IsZero(y)))
  }

  predicate FloatsEq(xs: seq<Word>, ys: seq<Word>)
    requires |xs| == |ys|
  {
    forall i :: 0 <= i < |xs| ==> FloatEq(xs[i], ys[i])
  }

  /** The value: both zeros are one. */
  function Norm1(w: Word): Word {
    if IsZero(w) then 0 else w
  }

  /** Values are compared bit for bit but for the two zeros. */
  lemma NormIs(x: Word, y: Word)
    ensures Norm1(x) == Norm1(y) <==> x == y || (x in {0, 0x8000_0000} && y in {0, 0x8000_0000})
    ensures FloatEq(x, y) <==> Norm1(x) == Norm1(y) && !IsNaN(x) && !IsNaN(y)
  {
  }

  function NormSeq(ws: seq<Word>): (r: seq<Word>)
    ensures |r| == |ws|
  {
    seq(|ws|, i requires 0 <= i < |ws| => Norm1(ws[i]))
  }

  function NormFloats(f: Floats): Floats {
    Floats(NormSeq(f.blendColor), NormSeq(f.clearColor), Norm1(f.clearDepth), NormSeq(f.depthRange), Norm1(f.lineWidth),
           NormSeq(f.polygonOffset), Norm1(f.sampleCoverage))
  }

  function Norm(s: GlState): GlState {
    s.(floats := NormFloats(s.floats))
  }

  /** The same state, if `0.0` and `-0.0` are the same value. */
  ghost predicate Same(a: GlState, b: GlState) {
    Norm(a) == Norm(b)
  }
}
