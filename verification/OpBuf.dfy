/** The op stream from the decoder to a GL executor: ops of a code and words,
    packed behind headers, and a byte blob they refer to. */
module OpBuf {
  import opened AddressSpace

  /** Op codes: those that change the context state, in the order of their
      numbers from 2 on, and the others by number. */
  datatype Code =
    | Enable | Disable | BlendColor | BlendEquationSeparate | BlendFuncSeparate | ColorMask | DepthMask
    | StencilMaskSeparate | ClearColor | ClearDepth | ClearStencil | CullFace | FrontFace | DepthFunc | DepthRange
    | LineWidth | PolygonOffset | SampleCoverage | Scissor | Viewport | StencilFuncSeparate | StencilOpSeparate
    | Hint | PixelStorei | ActiveTexture | BindTexture | BindSampler | UseProgram | BindVertexArray | BindBuffer
    | BindBufferRange | BindFramebuffer | BindRenderbuffer | BindTransformFeedback
    | VertexAttrib4f | VertexAttribI4i | VertexAttribI4ui
    | Other(n: nat)

  /** The codes that change the context state; their numbers start at 2. */
  const STATE_CODES: seq<Code> :=
    [Enable, Disable, BlendColor, BlendEquationSeparate, BlendFuncSeparate, ColorMask, DepthMask,
     StencilMaskSeparate, ClearColor, ClearDepth, ClearStencil, CullFace, FrontFace, DepthFunc, DepthRange,
     LineWidth, PolygonOffset, SampleCoverage, Scissor, Viewport, StencilFuncSeparate, StencilOpSeparate,
     Hint, PixelStorei, ActiveTexture, BindTexture, BindSampler, UseProgram, BindVertexArray, BindBuffer,
     BindBufferRange, BindFramebuffer, BindRenderbuffer, BindTransformFeedback,
     VertexAttrib4f, VertexAttribI4i, VertexAttribI4ui]

  function CodeOf(n: nat): Code {
    if 2 <= n < 2 + |STATE_CODES| then STATE_CODES[n - 2] else Other(n)
  }

  function Number(c: Code): nat {
    if c.Other? then c.n else 2 + Place(STATE_CODES, c)
  }

  /** The first place of `c`, or the length. */
  function Place(codes: seq<Code>, c: Code): (i: nat)
    ensures i <= |codes| && (i < |codes| ==> codes[i] == c) && (i == |codes| <==> c !in codes)
  {
    if codes == [] || codes[0] == c then 0 else 1 + Place(codes[1..], c)
  }

  lemma Listed(c: Code)
    requires !c.Other?
    ensures c in STATE_CODES
  {
  }

  /** A code with a number that fits a header and means this code. */
  ghost predicate CodeOk(c: Code) {
    Number(c) < 0x1_0000 && CodeOf(Number(c)) == c
  }

  /** The number that the executor knows a code by. */
  function WireNumber(c: Code): nat {
    match c
    case Enable => 2 case Disable => 3 case BlendColor => 4 case BlendEquationSeparate => 5
    case BlendFuncSeparate => 6 case ColorMask => 7 case DepthMask => 8 case StencilMaskSeparate => 9
    case ClearColor => 10 case ClearDepth => 11 case ClearStencil => 12 case CullFace => 13 case FrontFace => 14
    case DepthFunc => 15 case DepthRange => 16 case LineWidth => 17 case PolygonOffset => 18
    case SampleCoverage => 19 case Scissor => 20 case Viewport => 21 case StencilFuncSeparate => 22
    case StencilOpSeparate => 23 case Hint => 24 case PixelStorei => 25 case ActiveTexture => 26
    case BindTexture => 27 case BindSampler => 28 case UseProgram => 29 case BindVertexArray => 30
    case BindBuffer => 31 case BindBufferRange => 32 case BindFramebuffer => 33 case BindRenderbuffer => 34
    case BindTransformFeedback => 35 case VertexAttrib4f => 36 case VertexAttribI4i => 37
    case VertexAttribI4ui => 38
    case Other(n) => n
  }

  /** Each code is sent under its number. */
  lemma NumberIs(c: Code)
    ensures Number(c) == WireNumber(c)
  {
    if !c.Other? {
      Listed(c);
      TableNumbers(Place(STATE_CODES, c));
    }
  }

  lemma TableNumbers(i: nat)
    requires i < |STATE_CODES|
    ensures WireNumber(STATE_CODES[i]) == 2 + i
  {
    if i < 12 {
      FirstNumbers(i);
    } else if i < 24 {
      MiddleNumbers(i);
    } else {
      LastNumbers(i);
    }
  }

  lemma FirstNumbers(i: nat)
    requires i < 12
    ensures WireNumber(STATE_CODES[i]) == 2 + i
  {
  }

  lemma MiddleNumbers(i: nat)
    requires 12 <= i < 24
    ensures WireNumber(STATE_CODES[i]) == 2 + i
  {
  }

  lemma LastNumbers(i: nat)
    requires 24 <= i < |STATE_CODES|
    ensures WireNumber(STATE_CODES[i]) == 2 + i
  {
  }

  lemma StateCodeOk(c: Code)
    requires !c.Other?
    ensures CodeOk(c)
  {
    Listed(c);
    CodeAt(Place(STATE_CODES, c));
  }

  lemma CodeAt(i: nat)
    requires i < |STATE_CODES|
    ensures CodeOf(2 + i) == STATE_CODES[i] && 2 + i < 0x1_0000
  {
  }

  /** The first word of an op of `n` words, cut to 32 bits. */
  function Header(code: nat, n: nat): Word {
    (code * 0x1_0000 + n) % 0x1_0000_0000
  }

  lemma HeaderIs(code: nat, n: nat)
    requires code < 0x1_0000 && n < 0x1_0000
    ensures Header(code, n) % 0x1_0000 == n && Header(code, n) / 0x1_0000 == code
  {
  }

  /** An op on the wire: a code number and words. */
  datatype Raw = Raw(n: nat, args: seq<Word>) {
    predicate Fits() {
      |args| < 0xffff && n < 0x1_0000
    }

    function Words(): seq<Word> {
      [Header(n, 1 + |args|)] + args
    }
  }

  datatype Op = Op(code: Code, args: seq<Word>) {
    /** The header holds the code and the words of the op. */
    ghost predicate Valid() {
      |args| < 0xffff && CodeOk(code)
    }
  }

  function Raws(ops: seq<Op>): (raws: seq<Raw>)
    ensures |raws| == |ops|
  {
    seq(|ops|, i requires 0 <= i < |ops| => Raw(Number(ops[i].code), ops[i].args))
  }

  ghost predicate AllValid(ops: seq<Op>) {
    forall k {:trigger ValidAt(ops, k)} :: 0 <= k < |ops| ==> ValidAt(ops, k)
  }

  ghost predicate ValidAt(ops: seq<Op>, k: nat)
    requires k < |ops|
  {
    ops[k].Valid()
  }

  /** An op that changes the context state. */
  predicate StateOp(op: Op) {
    !op.code.Other? && |op.args| < 0xffff
  }

  lemma StateOpsValid(ops: seq<Op>)
    requires forall k :: 0 <= k < |ops| ==> StateOp(ops[k])
    ensures AllValid(ops)
  {
    forall k | 0 <= k < |ops|
      ensures ValidAt(ops, k)
    {
      assert StateOp(ops[k]);
      StateCodeOk(ops[k].code);
    }
  }

  lemma RawsAppend(a: seq<Op>, b: seq<Op>)
    requires AllValid(a) && AllValid(b)
    ensures Raws(a + b) == Raws(a) + Raws(b) && AllValid(a + b)
  {
    forall k | 0 <= k < |a + b|
      ensures ValidAt(a + b, k)
    {
      assert if k < |a| then ValidAt(a, k) else ValidAt(b, k - |a|);
    }
  }

  ghost predicate AllFit(raws: seq<Raw>) {
    forall k :: 0 <= k < |raws| ==> raws[k].Fits()
  }

  // ---- packing ----

  function Pack(raws: seq<Raw>): (ws: seq<Word>) {
    if raws == [] then [] else Pack(raws[..|raws| - 1]) + raws[|raws| - 1].Words()
  }

  /** The words of a batch. */
  function Encode(ops: seq<Op>): (ws: seq<Word>) {
    Pack(Raws(ops))
  }

  lemma {:induction false} PackFirst(raws: seq<Raw>)
    requires raws != []
    ensures Pack(raws) == raws[0].Words() + Pack(raws[1..])
  {
    if |raws| > 1 {
      PackFirst(raws[..|raws| - 1]);
      assert raws[..|raws| - 1][1..] == raws[1..][..|raws| - 2];
    } else {
      assert raws[..0] == [] && raws[1..] == [];
    }
  }

  lemma PackMore(raws: seq<Raw>, r: Raw)
    ensures Pack(raws + [r]) == Pack(raws) + r.Words()
  {
    assert (raws + [r])[..|raws|] == raws;
  }

  // ---- walking ----

  function WalkRaw(ws: seq<Word>, i: nat): (raws: seq<Raw>)
    requires i <= |ws|
    decreases |ws| - i
  {
    if i == |ws| then []
    else
      var n := ws[i] % 0x1_0000;
      if n == 0 || i + n > |ws| then [] else [Raw(ws[i] / 0x1_0000, ws[i + 1..i + n])] + WalkRaw(ws, i + n)
  }

  /** The executor's walk over a batch. */
  function Walk(ws: seq<Word>): (ops: seq<Op>) {
    var raws := WalkRaw(ws, 0);
    seq(|raws|, k requires 0 <= k < |raws| => Op(CodeOf(raws[k].n), raws[k].args))
  }

  /** One op at `i` is read back whole. */
  lemma WalkOne(ws: seq<Word>, i: nat, r: Raw, rest: seq<Word>) returns (j: nat)
    requires r.Fits() && i <= |ws| && ws[i..] == r.Words() + rest
    ensures i < j == i + |r.Words()| <= |ws| && ws[j..] == rest && WalkRaw(ws, i) == [r] + WalkRaw(ws, j)
  {
    var n := |r.Words()|;
    j := i + n;
    assert ws[i] == ws[i..][0] == Header(r.n, n);
    assert ws[i + 1..i + n] == ws[i..][1..n] == r.args;
    assert ws[i..][n..] == ws[i + n..];
    HeaderIs(r.n, n);
  }

  lemma HeadAndTail(all: seq<Raw>, rest: seq<Raw>, raws: seq<Raw>)
    requires raws != [] && all == [raws[0]] + rest && rest == raws[1..]
    ensures all == raws
  {
  }

  lemma {:induction false} WalkPack(raws: seq<Raw>, ws: seq<Word>, i: nat)
    requires AllFit(raws) && i <= |ws| && ws[i..] == Pack(raws)
    ensures WalkRaw(ws, i) == raws
    decreases |raws|
  {
    if raws == [] {
      assert ws[i..] == [];
    } else {
      PackFirst(raws);
      var j := WalkOne(ws, i, raws[0], Pack(raws[1..]));
      WalkPack(raws[1..], ws, j);
      HeadAndTail(WalkRaw(ws, i), WalkRaw(ws, j), raws);
    }
  }

  /** What the decoder packed is what the executor sees, in order. */
  lemma WalkEncode(ops: seq<Op>)
    requires AllValid(ops)
    ensures Walk(Encode(ops)) == ops
  {
    var ws := Encode(ops);
    RawsFit(ops);
    assert ws[0..] == ws;
    WalkPack(Raws(ops), ws, 0);
    forall k | 0 <= k < |ops|
      ensures Walk(ws)[k] == ops[k]
    {
      assert ValidAt(ops, k);
    }
  }

  lemma RawsFit(ops: seq<Op>)
    requires AllValid(ops)
    ensures AllFit(Raws(ops))
  {
    forall k | 0 <= k < |ops|
      ensures Raws(ops)[k].Fits()
    {
      assert ValidAt(ops, k);
    }
  }

  /** `NullExecutor::execute`: counts the ops of a batch. */
  method CountOps(words: seq<Word>, ghost ops: seq<Raw>) returns (count: nat)
    requires AllFit(ops) && words == Pack(ops)
    ensures count == |ops|
  {
    count := 0;
    var i := 0;
    ghost var rest := ops;
    assert words[0..] == words;
    while i < |words|
      invariant i <= |words| && |rest| + count == |ops|
      invariant AllFit(rest) && words[i..] == Pack(rest)
      decreases |words| - i
    {
      var n := if words[i] % 0x1_0000 == 0 then 1 else words[i] % 0x1_0000;
      FirstLength(words, i, rest);
      count := count + 1;
      i := i + n;
      rest := rest[1..];
    }
    if rest != [] {
      PackFirst(rest);
    }
  }

  lemma FirstLength(words: seq<Word>, i: nat, rest: seq<Raw>)
    requires i < |words| && AllFit(rest) && words[i..] == Pack(rest)
    ensures rest != [] && var n := words[i] % 0x1_0000; n > 0 && i + n <= |words| && words[i + n..] == Pack(rest[1..])
  {
    assert rest != [];
    PackFirst(rest);
    var j := WalkOne(words, i, rest[0], Pack(rest[1..]));
    HeaderIs(rest[0].n, |rest[0].Words()|);
    assert words[i] == words[i..][0] == rest[0].Words()[0];
  }

  /** A batch under construction. */
  class Batch {
    var words: seq<Word>
    var blob: seq<Byte>
    /** Bytes the read ops of this batch will write. */
    var outLen: nat
    ghost var ops: seq<Raw>

    ghost predicate Valid()
      reads this
    {
      AllFit(ops) && words == Pack(ops)
    }

    constructor ()
      ensures Valid() && ops == [] && blob == [] && outLen == 0
    {
      words, blob, outLen, ops := [], [], 0, [];
    }

    method Clear()
      modifies this
      ensures Valid() && ops == [] && blob == [] && outLen == 0
    {
      words, blob, outLen, ops := [], [], 0, [];
    }

    /** `op`. */
    method Push(code: nat, args: seq<Word>)
      requires Valid() && Raw(code, args).Fits()
      modifies this`words, this`ops
      ensures Valid() && ops == old(ops) + [Raw(code, args)]
    {
      PackMore(ops, Raw(code, args));
      words := words + [Header(code, 1 + |args|)];
      words := words + args;
      ops := ops + [Raw(code, args)];
    }

    /** `blob`: the bytes at an 8-aligned offset; earlier references stay. */
    method AddBlob(data: seq<Byte>) returns (off: nat, len: nat)
      modifies this`blob
      ensures off % 8 == 0 && len == |data| && |old(blob)| <= off < |old(blob)| + 8 && off + len == |blob|
      ensures blob[off..] == data && blob[..|old(blob)|] == old(blob)
    {
      off := (|blob| + 7) / 8 * 8;
      blob := blob + seq(off - |blob|, _ => 0);
      assert blob[..|old(blob)|] == old(blob);
      blob := blob + data;
      len := |data|;
      assert blob[..|old(blob)|] == old(blob);
    }

    /** `op_blob_then`, and `op_blob` with an empty tail. */
    method PushBlob(code: nat, args: seq<Word>, data: seq<Byte>, tail: seq<Word>)
      requires Valid() && |blob| + 8 + |data| < 0x1_0000_0000
      requires |args| + 2 + |tail| < 0xffff && code < 0x1_0000
      modifies this`words, this`ops, this`blob
      ensures Valid()
      ensures exists off: Word ::
                && off % 8 == 0 && |old(blob)| <= off && off + |data| == |blob|
                && blob[off..] == data && blob[..|old(blob)|] == old(blob)
                && ops == old(ops) + [Raw(code, args + [off, |data|] + tail)]
    {
      var off, len := AddBlob(data);
      var at: Word, n: Word := off, len;
      Push(code, args + [at, n] + tail);
    }

    /** `op_read`. */
    method PushRead(code: nat, args: seq<Word>, n: nat)
      requires Valid() && Raw(code, args).Fits()
      modifies this`words, this`ops, this`outLen
      ensures Valid() && ops == old(ops) + [Raw(code, args)] && outLen == old(outLen) + n
    {
      Push(code, args);
      outLen := outLen + n;
    }
  }
}
