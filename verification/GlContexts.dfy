/** Many guest GL contexts on one WebGL context: activation by state transitions,
    and the mirror of what WebGL has. */
module GlContexts {
  import opened AddressSpace
  import opened Flags
  import opened OpBuf
  import opened GlState
  import opened Transition
  import opened GlCalls
  import opened GlEffects

  datatype Surface = Surface(width: I32, height: I32, fbo: Word)

  datatype Ctx = Ctx(state: GlState, draw: nat, read: nat, drawDefault: bool, readDefault: bool, sized: bool)

  /** A render thread of the guest; context 0 is none. */
  datatype Thread = Thread(ctx: nat, draw: nat, read: nat)

  ghost predicate CtxOk(s: GlState) {
    StateOk(s) && UboOk(s)
  }

  /** Making surfaces current: the framebuffers of the surfaces where no object is
      bound, and the first surface's size. */
  function Attached(s: GlState, c: Ctx, dfbo: Word, rfbo: Word, size: Option<(I32, I32)>): GlState {
    s.(drawFbo := if c.drawDefault then dfbo else s.drawFbo,
       readFbo := if c.readDefault then rfbo else s.readFbo,
       viewport := FirstSize(c, size, s.viewport),
       scissor := FirstSize(c, size, s.scissor))
  }

  function FirstSize(c: Ctx, size: Option<(I32, I32)>, box: Ints4): Ints4 {
    if !c.sized && size.Some? then [0, 0, size.value.0, size.value.1] else box
  }

  lemma InitialOk(vao: Word)
    ensures CtxOk(Initial(vao))
  {
  }

  lemma AttachedOk(s: GlState, c: Ctx, dfbo: Word, rfbo: Word, size: Option<(I32, I32)>)
    requires CtxOk(s)
    ensures CtxOk(Attached(s, c, dfbo, rfbo, size))
  {
  }

  lemma Attaches(a: GlState, b: GlState, c: Ctx, dfbo: Word, rfbo: Word, size: Option<(I32, I32)>)
    requires Same(a, b) && CtxOk(b)
    ensures Same(Attached(a, c, dfbo, rfbo, size), Attached(b, c, dfbo, rfbo, size))
    ensures CtxOk(Attached(b, c, dfbo, rfbo, size))
  {
    AgreeWith(a, b);
    AgreeFloats(a, b);
    AttachedOk(b, c, dfbo, rfbo, size);
    var x, y := Attached(a, c, dfbo, rfbo, size), Attached(b, c, dfbo, rfbo, size);
    assert x == y.(floats := a.floats);
    SameBut(x, y);
  }

  /** From a state that agrees with the mirror, to a context's state. */
  lemma Switches(w: GlState, from: GlState, to: GlState)
    requires Same(w, from) && CtxOk(to)
    ensures Same(Arrived(w, from, to), to)
  {
    ArrivesUpToZero(w, from, to);
  }

  /** Ops that change no context state: draws, clears, readbacks. */
  lemma OtherOp(s: GlState, n: nat, args: seq<Word>)
    ensures Run(s, [Op(Other(n), args)]) == s
  {
    RunOne(s, Op(Other(n), args));
  }

  ghost predicate Trace(states: seq<GlState>, ops: seq<Op>) {
    |states| == |ops| + 1 && forall i :: 0 <= i < |ops| ==> StepAt(states, ops, i)
  }

  /** The executor plays some more ops. */
  ghost method Extend(states: seq<GlState>, web: GlState, ops: seq<Op>, more: seq<Op>)
    returns (states': seq<GlState>, web': GlState)
    requires Trace(states, ops) && states[|ops|] == web
    ensures Trace(states', ops + more) && states'[0] == states[0] && states'[|ops + more|] == web'
    ensures web' == Run(web, more)
  {
    states', web' := states, web;
    if more != [] {
      var n := |more| - 1;
      states', web' := Extend(states, web, ops, more[..n]);
      var last := web';
      web' := Exec(last, more[n]);
      ghost var before := states';
      states' := states' + [web'];
      assert ops + more == (ops + more[..n]) + [more[n]];
      forall i | 0 <= i < |ops + more|
        ensures StepAt(states', ops + more, i)
      {
        assert i < |ops| + n ==> StepAt(before, ops + more[..n], i);
      }
    } else {
      assert ops + more == ops;
    }
  }

  /** The record of a call keeps up with a WebGL state that executes it. */
  lemma Follows(c: Call, w: GlState, s: GlState)
    requires ValidCall(c) && CtxOk(s) && Same(w, s)
    ensures Same(Run(w, Ops(c)), Change(c, s)) && CtxOk(Change(c, s))
  {
    AgreeWith(w, s);
    Recorded(c, w);
    ChangeSame(c, w, s);
    ChangeOk(c, s);
  }

  lemma Means(c: Call, w: GlState, s: GlState)
    requires ValidCall(c) && CtxOk(s) && Same(w, s)
    ensures Does(c, w, Run(w, Ops(c))) && Does(c, s, Change(c, s))
  {
    AgreeWith(w, s);
    OpsDo(c, w);
    ChangeDoes(c, s);
  }

  /** `GL_FRAMEBUFFER` is both targets. */
  function FbosAt(target: Word, draw: Word, read: Word, s: GlState): GlState {
    s.(drawFbo := if target == 0x8D40 || target == 0x8CA9 then draw else s.drawFbo,
       readFbo := if target == 0x8D40 || target == 0x8CA8 then read else s.readFbo)
  }

  /** A context `c` with the reference `a` binds `name`, which is `draw` and `read`
      to WebGL, and becomes `c'` and `a'`. */
  ghost predicate Rebinds(target: Word, name: nat, draw: Word, read: Word, c: Ctx, a: GlState, c': Ctx, a': GlState) {
    && a' == FbosAt(target, draw, read, a) && c'.state == FbosAt(target, draw, read, c.state)
    && (c'.drawDefault <==> if target == 0x8D40 || target == 0x8CA9 then name == 0 else c.drawDefault)
    && (c'.readDefault <==> if target == 0x8D40 || target == 0x8CA8 then name == 0 else c.readDefault)
    && c'.draw == c.draw && c'.read == c.read && c'.sized == c.sized
  }

  lemma RebindsSo(target: Word, name: nat, draw: Word, read: Word, c: Ctx, a: GlState)
    ensures Rebinds(target, name, draw, read, c, a,
                  c.(drawDefault := if ForDraw(target) then name == 0 else c.drawDefault,
                     readDefault := if ForRead(target) then name == 0 else c.readDefault)
                   .(state := FbosAt(target, draw, read, c.state)), FbosAt(target, draw, read, a))
  {
  }

  lemma FbosDone(target: Word, draw: Word, read: Word, s: GlState, s': GlState)
    requires Does(Call.BindFramebuffer(target, draw, read), s, s')
    ensures s' == FbosAt(target, draw, read, s)
  {
  }

  lemma OpsValid(c: Call)
    requires ValidCall(c)
    ensures AllValid(Ops(c))
  {
    StateOpsValid(Ops(c));
  }

  /** Every context has the state that its own calls alone would have given it. */
  ghost predicate Apart(ctxs: map<nat, Ctx>, alone: seq<GlState>) {
    && (forall c :: c in ctxs ==> 0 < c < |alone|)
    && (forall c {:trigger Good(ctxs, alone, c)} :: c in ctxs ==> Good(ctxs, alone, c))
  }

  ghost predicate Good(ctxs: map<nat, Ctx>, alone: seq<GlState>, c: nat)
    requires c in ctxs && c < |alone|
  {
    CtxOk(ctxs[c].state) && Same(alone[c], ctxs[c].state)
  }

  lemma ApartUpdate(ctxs: map<nat, Ctx>, alone: seq<GlState>, id: nat, c: Ctx, a: GlState)
    requires Apart(ctxs, alone) && 0 < id < |alone| && CtxOk(c.state) && Same(a, c.state)
    ensures Apart(ctxs[id := c], alone[id := a])
  {
    var m, n := ctxs[id := c], alone[id := a];
    forall k | k in m
      ensures 0 < k < |n| && Good(m, n, k)
    {
      if k != id {
        assert Good(ctxs, alone, k);
        assert m[k] == ctxs[k] && n[k] == alone[k];
      }
    }
  }

  lemma ApartGrow(ctxs: map<nat, Ctx>, alone: seq<GlState>, a: GlState)
    requires Apart(ctxs, alone)
    ensures Apart(ctxs, alone + [a]) && |alone| !in ctxs
  {
    forall k | k in ctxs
      ensures 0 < k < |alone| && Good(ctxs, alone + [a], k)
    {
      assert Good(ctxs, alone, k);
    }
  }

  class Gl {
    var ctxs: map<nat, Ctx>
    var surfaces: map<nat, Surface>
    var applied: GlState
    var active: nat
    var nextHandle: nat
    /** The words queued for the executor. */
    const batch: Batch
    /** Every op so far, and how many of them the executor has got. */
    ghost var ops: seq<Op>
    ghost var flushed: nat
    ghost const start: GlState
    /** The states of the WebGL context, from the first to the current one. */
    ghost var states: seq<GlState>
    ghost var web: GlState
    /** For each context handle, a WebGL context of its own that only ever executes
        the ops of that context's own calls. */
    ghost var alone: seq<GlState>

    ghost predicate Valid()
      reads this, batch
    {
      && (active != 0 ==> active in ctxs && applied == ctxs[active].state)
      && CtxOk(applied) && Same(web, applied) && Played() && Queued()
      && 0 < nextHandle == |alone| && Apart(ctxs, alone)
    }

    /** `web` is where the executor is after `ops`. */
    ghost predicate Played()
      reads this
    {
      && |states| == |ops| + 1 && states[0] == start && states[|ops|] == web
      && forall i :: 0 <= i < |ops| ==> StepAt(states, ops, i)
    }

    /** The batch holds the ops that the executor has not got. */
    ghost predicate Queued()
      reads this`ops, this`flushed, batch
    {
      && batch.Valid() && flushed <= |ops|
      && AllValid(ops[flushed..]) && batch.ops == Raws(ops[flushed..])
    }

    /** The executor, walking over the words of the batch from where it is, comes to
        `web`. */
    lemma BatchRun()
      requires Played() && Queued()
      ensures Walk(batch.words) == ops[flushed..] && Run(states[flushed], Walk(batch.words)) == web
    {
      var rest := ops[flushed..];
      WalkEncode(rest);
      forall i | 0 <= i < |rest|
        ensures StepAt(states[flushed..], rest, i)
      {
        assert StepAt(states, ops, flushed + i);
      }
      TraceRun(states[flushed..], rest, |rest|);
      assert rest[..|rest|] == rest;
    }

    lemma PlayedRun()
      requires Played()
      ensures web == Run(start, ops)
    {
      TraceRun(states, ops, |ops|);
      assert ops[..|ops|] == ops;
    }

    constructor ()
      ensures Valid() && fresh(batch) && web == start == Initial(0) && ops == [] && ctxs == map[]
    {
      batch := new Batch();
      flushed := 0;
      start := Initial(0);
      web := Initial(0);
      states := [Initial(0)];
      applied := Initial(0);
      active, nextHandle, ops := 0, 1, [];
      ctxs, surfaces, alone := map[], map[], [Initial(0)];
    }

    method Send(new_: seq<Op>)
      requires Played() && Queued() && AllValid(new_)
      modifies this`ops, this`web, this`states, batch
      ensures Played() && Queued() && ops == old(ops) + new_ && web == Run(old(web), new_)
    {
      Enqueue(new_);
      RawsAppend(ops[flushed..], new_);
      assert (ops + new_)[flushed..] == ops[flushed..] + new_;
      ops := ops + new_;
      states, web := Extend(states, web, old(ops), new_);
    }

    method Enqueue(new_: seq<Op>)
      requires batch.Valid() && AllValid(new_)
      modifies batch
      ensures batch.Valid() && batch.ops == old(batch.ops) + Raws(new_)
    {
      RawsFit(new_);
      var k := 0;
      while k < |new_|
        invariant 0 <= k <= |new_| && batch.Valid() && batch.ops == old(batch.ops) + Raws(new_)[..k]
      {
        assert Raws(new_)[k].Fits();
        batch.Push(Number(new_[k].code), new_[k].args);
        k := k + 1;
      }
    }

    /** `flush`: the executor gets the batch, and what it then has is `web`. */
    method Flush() returns (words: seq<Word>)
      requires Valid()
      modifies this`flushed, batch
      ensures Valid() && words == old(batch.words) && batch.words == []
      ensures flushed == |ops| && Run(old(states[flushed]), Walk(words)) == web == states[flushed]
    {
      BatchRun();
      words := batch.words;
      batch.Clear();
      flushed := |ops|;
    }

    method NewHandle(ghost s: GlState) returns (h: nat)
      requires Valid()
      modifies this`nextHandle, this`alone
      ensures Valid() && h == old(nextHandle) && nextHandle == h + 1 && alone == old(alone) + [s] && h !in ctxs
    {
      h := nextHandle;
      nextHandle := nextHandle + 1;
      ApartGrow(ctxs, alone, s);
      alone := alone + [s];
    }

    method ContextCreate(vao: Word) returns (h: nat)
      requires Valid()
      modifies this`nextHandle, this`alone, this`ctxs
      ensures Valid() && h !in old(ctxs) && ctxs == old(ctxs)[h := Ctx(Initial(vao), 0, 0, true, true, false)]
      ensures alone == old(alone) + [Initial(vao)]
    {
      InitialOk(vao);
      h := AddContext(Ctx(Initial(vao), 0, 0, true, true, false));
    }

    method AddContext(c: Ctx) returns (h: nat)
      requires Valid() && CtxOk(c.state)
      modifies this`nextHandle, this`alone, this`ctxs
      ensures Valid() && h !in old(ctxs) && ctxs == old(ctxs)[h := c] && alone == old(alone) + [c.state]
    {
      h := NewHandle(c.state);
      ApartUpdate(ctxs, alone, h, c, c.state);
      assert alone[h := c.state] == alone;
      ctxs := ctxs[h := c];
    }

    method Put(id: nat, x: Ctx, ghost a: GlState)
      requires Apart(ctxs, alone) && id in ctxs && 0 < id < |alone| && CtxOk(x.state) && Same(a, x.state)
      modifies this`ctxs, this`alone
      ensures Apart(ctxs, alone) && ctxs.Keys == old(ctxs).Keys
      ensures ctxs == old(ctxs)[id := x] && alone == old(alone)[id := a]
    {
      ApartUpdate(ctxs, alone, id, x, a);
      assert ctxs[id := x].Keys == ctxs.Keys;
      alone := alone[id := a];
      ctxs := ctxs[id := x];
    }

    function SizeOf(h: nat): Option<(I32, I32)>
      reads this`surfaces
    {
      if h in surfaces then Some((surfaces[h].width, surfaces[h].height)) else None
    }

    function SurfaceFbo(h: nat): Word
      reads this`surfaces
    {
      if h in surfaces then surfaces[h].fbo else 0
    }

    method SurfaceCreate(width: I32, height: I32, fbo: Word) returns (h: nat)
      requires Valid()
      modifies this`nextHandle, this`alone, this`surfaces
      ensures Valid() && surfaces == old(surfaces)[h := Surface(width, height, fbo)]
      ensures alone == old(alone) + [Initial(0)]
    {
      h := NewHandle(Initial(0));
      surfaces := surfaces[h := Surface(width, height, fbo)];
    }

    /** `activate`: makes the thread's context the one that WebGL reflects. */
    method Activate(t: Thread) returns (ok: bool)
      requires Valid()
      modifies this`applied, this`active, this`ops, this`web, this`states, batch
      ensures Valid() && ok == (t.ctx in ctxs)
      ensures ok ==> active == t.ctx < |alone| && Same(web, ctxs[t.ctx].state) && Same(web, alone[t.ctx])
    {
      if t.ctx == 0 || t.ctx !in ctxs {
        return false;
      }
      assert Good(ctxs, alone, t.ctx);
      if active != t.ctx {
        Switch(ctxs[t.ctx].state);
        active := t.ctx;
      }
      ok := true;
    }

    /** Transition from the mirror to `to`; the mirror follows. */
    method Switch(to: GlState)
      requires Same(web, applied) && CtxOk(to) && Played() && Queued()
      modifies this`applied, this`ops, this`web, this`states, batch
      ensures applied == to && Same(web, to) && Played() && Queued()
    {
      var o := Transition.Transition(applied, to, web);
      Switches(web, applied, to);
      Send(o);
      applied := to;
    }

    /** A GLES call that changes context state. */
    method StateCall(t: Thread, c: Call)
      requires Valid() && ValidCall(c) && !c.BindFramebuffer?
      modifies this`ctxs, this`alone, this`applied, this`active, this`ops, this`web, this`states, batch
      ensures Valid() && ctxs.Keys == old(ctxs).Keys
      ensures t.ctx in ctxs ==>
                active == t.ctx < |old(alone)| && Called(c, old(ctxs)[t.ctx].state, old(alone)[t.ctx], t.ctx)
      ensures t.ctx in ctxs ==> alone == old(alone)[t.ctx := alone[t.ctx]]
      ensures t.ctx !in ctxs ==> alone == old(alone)
      ensures t.ctx in ctxs ==> ctxs[t.ctx] == old(ctxs)[t.ctx].(state := ctxs[t.ctx].state)
      ensures forall k :: k in ctxs && k != t.ctx ==> ctxs[k] == old(ctxs)[k]
    {
      var ok := Activate(t);
      if !ok {
        return;
      }
      Perform(t.ctx, ctxs[t.ctx], c);
    }

    /** Call `c` did to the state of context `id` and to its reference, which were `s`
        and `a`, what it means. It did it to WebGL too, which had the state `s`. */
    ghost predicate Called(c: Call, s: GlState, a: GlState, id: nat)
      reads this`ctxs, this`alone, this`web
    {
      && id in ctxs && id < |alone|
      && Does(c, s, ctxs[id].state) && Does(c, a, alone[id])
      && exists w :: Same(w, s) && Does(c, w, web)
    }

    /** Records a call of the active context, which is `x` from now on, and sends its
        ops. */
    method Perform(id: nat, x: Ctx, c: Call)
      requires Valid() && ValidCall(c) && id in ctxs && active == id && x.state == ctxs[id].state
      modifies this`ctxs, this`applied, this`alone, this`ops, this`web, this`states, batch
      ensures Valid() && ctxs.Keys == old(ctxs).Keys && ctxs[id] == x.(state := Change(c, x.state))
      ensures forall k :: k in ctxs && k != id ==> ctxs[k] == old(ctxs)[k]
      ensures id < |old(alone)| && alone == old(alone)[id := Run(old(alone)[id], Ops(c))]
      ensures Called(c, old(ctxs)[id].state, old(alone)[id], id)
    {
      assert Good(ctxs, alone, id);
      Follows(c, web, applied);
      Follows(c, alone[id], ctxs[id].state);
      Means(c, web, applied);
      Means(c, alone[id], ctxs[id].state);
      OpsValid(c);
      Record(id, x.(state := Change(c, x.state)), Ops(c), c);
    }

    /** `set`, on the context and on the mirror, and the ops that make WebGL
        follow. */
    method Record(id: nat, x: Ctx, o: seq<Op>, ghost c: Call)
      requires Valid() && id in ctxs && active == id && CtxOk(x.state) && AllValid(o)
      requires Same(Run(web, o), x.state) && Same(Run(alone[id], o), x.state)
      requires Does(c, ctxs[id].state, x.state) && Does(c, alone[id], Run(alone[id], o)) && Does(c, web, Run(web, o))
      modifies this`ctxs, this`applied, this`alone, this`ops, this`web, this`states, batch
      ensures Valid() && ctxs.Keys == old(ctxs).Keys && ctxs == old(ctxs)[id := x]
      ensures applied == x.state && ops == old(ops) + o && web == Run(old(web), o)
      ensures id < |old(alone)| && alone == old(alone)[id := Run(old(alone)[id], o)]
      ensures Called(c, old(ctxs)[id].state, old(alone)[id], id)
    {
      ghost var w := web;
      Put(id, x, Run(alone[id], o));
      applied := x.state;
      Send(o);
      assert Same(w, old(ctxs)[id].state) && Does(c, w, web);
    }

    /** `bind_framebuffer`: name 0 is the thread's surface, and stays so when other
        surfaces are made current. */
    method BindFramebuffer(t: Thread, target: Word, name: nat, id: Word)
      requires Valid()
      modifies this`ctxs, this`alone, this`applied, this`active, this`ops, this`web, this`states, batch
      ensures Valid() && ctxs.Keys == old(ctxs).Keys
      ensures t.ctx !in ctxs ==> alone == old(alone)
      ensures forall k :: k in ctxs && k != t.ctx ==> ctxs[k] == old(ctxs)[k]
      ensures t.ctx in ctxs ==>
                && active == t.ctx < |old(alone)| && alone == old(alone)[t.ctx := alone[t.ctx]]
                && BoundTo(target, name, id, old(ctxs)[t.ctx], old(alone)[t.ctx], t.ctx)
    {
      var ok := Activate(t);
      if ok {
        Bind(t.ctx, target, name, id);
      }
    }

    /** The binding, in the active context. */
    method Bind(h: nat, target: Word, name: nat, id: Word)
      requires Valid() && h in ctxs && active == h
      modifies this`ctxs, this`applied, this`alone, this`ops, this`web, this`states, batch
      ensures Valid() && ctxs.Keys == old(ctxs).Keys
      ensures h < |old(alone)| && alone == old(alone)[h := alone[h]]
      ensures BoundTo(target, name, id, old(ctxs)[h], old(alone)[h], h)
      ensures forall k :: k in ctxs && k != h ==> ctxs[k] == old(ctxs)[k]
    {
      var c := ctxs[h];
      var d := if name == 0 then SurfaceFbo(c.draw) else id;
      var r := if name == 0 then SurfaceFbo(c.read) else id;
      var x := c.(drawDefault := if ForDraw(target) then name == 0 else c.drawDefault,
                  readDefault := if ForRead(target) then name == 0 else c.readDefault);
      RebindsSo(target, name, d, r, c, alone[h]);
      BindAt(h, x, target, d, r);
    }

    /** Records the binding of WebGL's objects `draw` and `read`. */
    method BindAt(h: nat, x: Ctx, target: Word, draw: Word, read: Word)
      requires Valid() && h in ctxs && active == h && x.state == ctxs[h].state
      modifies this`ctxs, this`applied, this`alone, this`ops, this`web, this`states, batch
      ensures Valid() && ctxs.Keys == old(ctxs).Keys
      ensures ctxs[h] == x.(state := FbosAt(target, draw, read, x.state)) && Same(web, ctxs[h].state)
      ensures h < |old(alone)| && alone == old(alone)[h := FbosAt(target, draw, read, old(alone)[h])]
      ensures forall k :: k in ctxs && k != h ==> ctxs[k] == old(ctxs)[k]
    {
      assert Good(ctxs, alone, h);
      ghost var a := alone[h];
      Perform(h, x, Call.BindFramebuffer(target, draw, read));
      FbosDone(target, draw, read, x.state, ctxs[h].state);
      FbosDone(target, draw, read, a, alone[h]);
    }

    /** Context `h`, which was `c`, and its reference, which was `a`, have the object
        `id` bound at the target, or for name 0 the surfaces of the context; so has
        WebGL. */
    ghost predicate BoundTo(target: Word, name: nat, id: Word, c: Ctx, a: GlState, h: nat)
      reads this`ctxs, this`alone, this`web, this`surfaces
    {
      && h in ctxs && h < |alone| && Same(web, ctxs[h].state)
      && Rebinds(target, name, if name == 0 then SurfaceFbo(c.draw) else id,
               if name == 0 then SurfaceFbo(c.read) else id, c, a, ctxs[h], alone[h])
    }

    /** A draw, a clear or a readback: it happens on the thread's own state,
        whatever the other threads did. */
    method Draw(t: Thread, code: nat, args: seq<Word>)
      requires Valid() && Op(Other(code), args).Valid()
      modifies this`applied, this`active, this`ops, this`web, this`states, batch
      ensures Valid()
      ensures t.ctx in ctxs ==>
                && t.ctx < |alone| && Same(web, alone[t.ctx])
                && var sent := Walk(batch.words);
                   |sent| > 0 && sent[|sent| - 1] == Op(Other(code), args) && Run(states[flushed], sent) == web
    {
      var ok := Activate(t);
      if ok {
        var op := Op(Other(code), args);
        OtherOp(web, code, args);
        assert ValidAt([op], 0);
        Send([op]);
        BatchRun();
      }
    }

    /** A new state for a context; WebGL follows if it reflects that context. */
    method Update(id: nat, x: Ctx, ghost a: GlState)
      requires Valid() && id in ctxs && CtxOk(x.state) && Same(a, x.state)
      modifies this`ctxs, this`alone, this`applied, this`ops, this`web, this`states, batch
      ensures Valid() && ctxs.Keys == old(ctxs).Keys && ctxs[id] == x
      ensures forall k :: k in ctxs && k != id ==> ctxs[k] == old(ctxs)[k]
      ensures id < |old(alone)| && alone == old(alone)[id := a]
    {
      assert Good(ctxs, alone, id);
      if active == id {
        Put(id, x, a);
        Switch(x.state);
      } else {
        ghost var other := if active == 0 then applied else ctxs[active].state;
        Put(id, x, a);
        assert active != 0 ==> ctxs[active].state == other;
      }
    }

    /** Making surfaces current took a state of context `c` from `s` to `s'`: the
        framebuffer of the draw surface is bound for drawing and that of the read
        surface for reading, each where no object is bound; the first surface sets
        viewport and scissor to its size. */
    ghost predicate Surfaced(c: Ctx, draw: nat, read: nat, s: GlState, s': GlState)
      reads this`surfaces
    {
      && s'.drawFbo == (if !c.drawDefault then s.drawFbo else if draw in surfaces then surfaces[draw].fbo else 0)
      && s'.readFbo == (if !c.readDefault then s.readFbo else if read in surfaces then surfaces[read].fbo else 0)
      && (if c.sized || draw !in surfaces then s'.viewport == s.viewport && s'.scissor == s.scissor
          else s'.viewport == s'.scissor == [0, 0, surfaces[draw].width, surfaces[draw].height])
      && s' == s.(drawFbo := s'.drawFbo, readFbo := s'.readFbo, viewport := s'.viewport, scissor := s'.scissor)
    }

    /** `make_current`. */
    method MakeCurrent(t: Thread, ctx: nat, draw: nat, read: nat) returns (ok: bool, t': Thread)
      requires Valid()
      modifies this`ctxs, this`alone, this`applied, this`active, this`ops, this`web, this`states, batch
      ensures Valid() && ctxs.Keys == old(ctxs).Keys
      ensures ok == (ctx == 0 || ctx in ctxs)
      ensures forall k :: k in ctxs && k != ctx ==> ctxs[k] == old(ctxs)[k]
      ensures ctx in ctxs && ctx != 0 ==>
                ctxs[ctx] == old(ctxs)[ctx].(state := ctxs[ctx].state, draw := draw, read := read,
                                             sized := old(ctxs)[ctx].sized || draw in surfaces)
      ensures t' == if ctx == 0 then Thread(0, 0, 0) else if ok then Thread(ctx, draw, read) else t
      ensures !ok || ctx == 0 ==> ctxs == old(ctxs) && alone == old(alone)
      ensures ok && ctx != 0 ==>
                && ctx < |old(alone)|
                && alone == old(alone)[ctx := alone[ctx]]
                && Surfaced(old(ctxs)[ctx], draw, read, old(ctxs)[ctx].state, ctxs[ctx].state)
                && Surfaced(old(ctxs)[ctx], draw, read, old(alone)[ctx], alone[ctx])
                && (old(active) == ctx ==> Same(web, ctxs[ctx].state))
    {
      ok, t' := true, Thread(0, 0, 0);
      if ctx == 0 {
        return;
      }
      if ctx !in ctxs {
        return false, t;
      }
      t' := Thread(ctx, draw, read);
      var c := ctxs[ctx];
      assert Good(ctxs, alone, ctx);
      Attaches(alone[ctx], c.state, c, SurfaceFbo(draw), SurfaceFbo(read), SizeOf(draw));
      var s := Attached(c.state, c, SurfaceFbo(draw), SurfaceFbo(read), SizeOf(draw));
      Update(ctx, c.(state := s, draw := draw, read := read, sized := c.sized || draw in surfaces),
             Attached(alone[ctx], c, SurfaceFbo(draw), SurfaceFbo(read), SizeOf(draw)));
    }
  }
}
