/** `JitCpu`: user-mode execution that alternates translated regions and
    interpreter steps. */
module JitDriver {
  import opened AddressSpace
  import opened Collections
  import opened Flags
  import opened JitState
  import opened JitBlocks
  import opened JitCaches

  /** Outcome of looking up a block. */
  datatype Look = Found(c: Compiled) | Translate | Interp | One

  /** A region entry, with the memory it found. */
  datatype Entered = Entered(block: Block, view: View)

  class JitCpu {
    const w: World
    var spaces: map<int, Space>
    var compiled: map<Key, Entries>
    var tick: nat
    var dispatcher: bool
    var nextSlot: nat
    var ctxSeq: nat
    // The engine: shared state, jump cache, table, modules since the reset.
    var js: JitState
    var jc: seq<JcEntry>
    var table: map<nat, Block>
    var loaded: nat
    /** Every region entry so far. */
    ghost var entered: seq<Entered>

    ghost predicate Valid()
      reads this
    {
      && w.capacity > 0
      && nextSlot <= TABLE_SIZE && ctxSeq <= CTX_MAX && |spaces| <= MAX_SPACES
      && SpacesOk(w, table, nextSlot, spaces)
      && CompiledOk(w, table, nextSlot, compiled)
      && CtxOk(spaces, ctxSeq)
      && JcOk(jc, spaces, ctxSeq)
      && NeverStale()
    }

    /** Whenever a region was entered, the words it was compiled from were the
        words in memory. */
    ghost predicate NeverStale()
      reads this`entered
    {
      forall e :: e in entered ==> WordsIn(e.block, e.view)
    }

    constructor (w: World)
      requires w.capacity > 0
      ensures Valid() && this.w == w && spaces == map[] && entered == []
      ensures compiled == map[] && !dispatcher && loaded == 0 && nextSlot == 0
    {
      this.w := w;
      spaces := map[];
      compiled := map[];
      tick := 0;
      dispatcher := false;
      nextSlot := 0;
      ctxSeq := 0;
      js := Zero();
      jc := EmptyJc();
      table := map[];
      loaded := 0;
      entered := [];
    }

    // ---- engine ----

    /** `Engine::compile`: it accepts at least `capacity` modules after a reset;
        beyond that it may refuse, and does if it is strict. */
    method Compile() returns (ok: bool)
      modifies this`loaded
      ensures old(loaded) < w.capacity ==> ok
      ensures w.strict && old(loaded) >= w.capacity ==> !ok
      ensures loaded == if ok then old(loaded) + 1 else old(loaded)
    {
      ok := *;
      if loaded < w.capacity {
        ok := true;
      } else if w.strict {
        ok := false;
      }
      if ok {
        loaded := loaded + 1;
      }
    }

    /** Discards all blocks of all spaces and resets the engine, with the shared
        state in it. */
    method Reset()
      requires Valid()
      modifies this
      ensures Valid() && spaces == map[] && compiled == map[] && !dispatcher && loaded == 0 && nextSlot == 0
      ensures entered == old(entered)
    {
      spaces := map[];
      compiled := map[];
      dispatcher := false;
      nextSlot := 0;
      table := map[];
      loaded := 0;
      js := Zero();
      jc := EmptyJc();
      ctxSeq := 0;
    }

    method CompileDispatcher()
      requires Valid()
      modifies this
      ensures Valid() && dispatcher && entered == old(entered)
      ensures (spaces == old(spaces) && loaded == old(loaded) + 1) || (spaces == map[] && loaded == 1 && nextSlot == 0)
      ensures old(loaded) < w.capacity ==> spaces == old(spaces)
      ensures w.strict && old(loaded) >= w.capacity ==> spaces == map[] && compiled == map[]
    {
      var ok := Compile();
      if !ok {
        Reset();
        var again := Compile();
      }
      dispatcher := true;
    }

    // ---- contexts and spaces ----

    /** New context for jump cache entries. When the values run out the jump
        cache is emptied and the spaces get new contexts. */
    method NextCtx() returns (ctx: nat)
      requires Valid()
      modifies this`spaces, this`jc, this`ctxSeq
      ensures SameBlocks(old(spaces), spaces)
      ensures ctx == ctxSeq && 0 < ctxSeq <= CTX_MAX
      ensures CtxOk(spaces, ctxSeq - 1) && JcOk(jc, spaces, ctxSeq - 1)
    {
      if ctxSeq == CTX_MAX {
        jc := EmptyJc();
        spaces, ctxSeq := Renumber(spaces);
        ClearedJc(spaces, ctxSeq);
      }
      ctxSeq := ctxSeq + 1;
      ctx := ctxSeq;
    }

    /** Contexts from 1 on for all spaces. */
    static method Renumber(old_: map<int, Space>) returns (r: map<int, Space>, last: nat)
      ensures SameBlocks(old_, r) && last == |old_| && CtxOk(r, last)
    {
      r, last := old_, 0;
      var done: set<int> := {};
      while done != old_.Keys
        invariant done <= old_.Keys && last == |done|
        invariant SameBlocks(old_, r) && Numbered(r, done, last)
        decreases old_.Keys - done
      {
        ghost var some := Pick(old_.Keys - done);
        var id :| id in old_.Keys && id !in done;
        last := last + 1;
        NumberOne(r, done, last, id);
        assert r[id := r[id].(ctx := last)].Keys == r.Keys;
        r := r[id := r[id].(ctx := last)];
        done := done + {id};
      }
    }

    /** The spaces of `done` have distinct contexts from 1 to `last`. */
    static ghost predicate Numbered(m: map<int, Space>, done: set<int>, last: nat) {
      && done <= m.Keys
      && (forall a :: a in done ==> 0 < m[a].ctx <= last)
      && (forall a, b :: a in done && b in done && a != b ==> m[a].ctx != m[b].ctx)
    }

    static lemma NumberOne(m: map<int, Space>, done: set<int>, last: nat, id: int)
      requires last > 0 && Numbered(m, done, last - 1) && id in m && id !in done
      ensures Numbered(m[id := m[id].(ctx := last)], done + {id}, last)
    {
    }

    /** `space`: makes room by evicting the least recently used space, and
        opens the space `id` if it is not there. */
    method OpenSpace(id: int)
      requires Valid()
      modifies this`spaces, this`jc, this`ctxSeq, this`tick
      ensures Valid() && id in spaces && OthersShrink(old(spaces), spaces, id)
      ensures id in old(spaces) ==> spaces[id] == old(spaces)[id].(lastUse := spaces[id].lastUse)
      ensures id !in old(spaces) ==> spaces[id].blocks == map[]
      ensures spaces[id].lastUse == tick == old(tick) + 1
    {
      tick := tick + 1;
      if id !in spaces && |spaces| >= MAX_SPACES {
        Evict();
      }
      if id !in spaces {
        AddSpace(id);
      }
      PutSpace(id, spaces[id].(lastUse := tick));
    }

    /** Replaces a space that keeps its context and its hot blocks. */
    method PutSpace(id: int, s: Space)
      requires Valid() && id in spaces && SpaceOk(w, table, nextSlot, s) && s.ctx == spaces[id].ctx
      requires forall pc: U64 :: IsHot(spaces[id], pc) ==> pc in s.blocks && s.blocks[pc] == spaces[id].blocks[pc]
      modifies this`spaces
      ensures Valid() && spaces == old(spaces)[id := s] && spaces.Keys == old(spaces).Keys
    {
      KeepHot(jc, spaces, ctxSeq, id, s);
      assert spaces[id := s].Keys == spaces.Keys;
      spaces := spaces[id := s];
    }

    method AddSpace(id: int)
      requires Valid() && id !in spaces && |spaces| < MAX_SPACES
      modifies this`spaces, this`jc, this`ctxSeq
      ensures Valid() && id in spaces && spaces[id].blocks == map[] && OthersShrink(old(spaces), spaces, id)
    {
      var ctx := NextCtx();
      var s := Space(map[], map[], 0, ctx);
      NewCtx(jc, spaces, ctxSeq - 1, id, s);
      assert spaces[id := s].Keys == old(spaces).Keys + {id};
      spaces := spaces[id := s];
    }

    /** Forgets a space with the least `last_use`. */
    method Evict()
      requires Valid() && |spaces| > 0
      modifies this`spaces
      ensures Valid() && |spaces| == old(|spaces|) - 1
      ensures forall k :: k in spaces ==> k in old(spaces) && spaces[k] == old(spaces)[k]
      ensures forall k, j :: k in old(spaces) && k !in spaces && j in old(spaces) ==>
                old(spaces)[k].lastUse <= old(spaces)[j].lastUse
    {
      OldestExists(spaces);
      var oldest :| oldest in spaces && forall k :: k in spaces ==> spaces[oldest].lastUse <= spaces[k].lastUse;
      DropSpaces(jc, spaces, ctxSeq, {oldest});
      assert (spaces - {oldest}).Keys == spaces.Keys - {oldest};
      spaces := spaces - {oldest};
    }

    static lemma OldestExists(m: map<int, Space>)
      requires |m| > 0
      ensures exists k :: k in m && forall j :: j in m ==> m[k].lastUse <= m[j].lastUse
    {
      var some := Pick(m.Keys);
      var uses := set k | k in m :: 0 - m[k].lastUse;
      assert 0 - m[some].lastUse in uses;
      var best := MaxOf(uses);
      var k :| k in m && 0 - m[k].lastUse == best;
      assert forall j :: j in m ==> 0 - m[j].lastUse in uses;
    }

    // ---- invalidation ----

    /** Discards the blocks of the dirty pages. If there were any, the space gets
        a new context: its jump cache entries are no longer valid. */
    method Drain(id: int, mem: Guest) returns (mem': Guest)
      requires Valid() && (id in spaces ==> Fresh(spaces[id], mem))
      modifies this`spaces, this`jc, this`ctxSeq
      ensures Valid() && spaces.Keys == old(spaces).Keys && OthersShrink(old(spaces), spaces, id)
      ensures mem' == mem.(dirty := [])
      ensures id in spaces ==> Clean(spaces[id], mem')
      ensures mem.dirty == [] ==> spaces == old(spaces)
    {
      mem' := mem.(dirty := []);
      if mem.dirty == [] || id !in spaces {
        return;
      }
      var s, any := InvalidateAll(spaces[id], mem);
      if any {
        var ctx := NextCtx();
        s := s.(ctx := ctx);
        NewCtx(jc, spaces, ctxSeq - 1, id, s);
        assert spaces[id := s].Keys == spaces.Keys == old(spaces).Keys;
        spaces := spaces[id := s];
      }
    }

    method InvalidateAll(s: Space, mem: Guest) returns (s': Space, any: bool)
      requires SpaceOk(w, table, nextSlot, s) && Fresh(s, mem)
      ensures SpaceOk(w, table, nextSlot, s') && Clean(s', mem.(dirty := []))
      ensures !any ==> s' == s
    {
      s', any := s, false;
      var i := 0;
      while i < |mem.dirty|
        invariant 0 <= i <= |mem.dirty|
        invariant SpaceOk(w, table, nextSlot, s')
        invariant Swept(s, s', mem.dirty[..i])
        invariant !any ==> s' == s
      {
        var p := mem.dirty[i];
        SweptMore(w, table, nextSlot, s, s', mem.dirty[..i], p);
        assert mem.dirty[..i + 1] == mem.dirty[..i] + [p];
        any := any || p in s'.pages;
        s' := Invalidate(s', p);
        i := i + 1;
      }
      assert mem.dirty[..i] == mem.dirty;
      SweptClean(s, s', mem);
    }

    // ---- finding and installing regions ----

    /** Looks up the block of `pc` and counts the executions of cold ones. */
    method Lookup(id: int, pc: U64) returns (look: Look)
      requires Valid() && id in spaces
      modifies this`spaces
      ensures Valid() && spaces.Keys == old(spaces).Keys && OthersShrink(old(spaces), spaces, id)
      ensures SameHot(old(spaces)[id], spaces[id])
      ensures look.Found? <==> IsHot(spaces[id], pc)
      ensures look.Found? ==> look.c == spaces[id].blocks[pc].c
      ensures pc !in old(spaces)[id].blocks ==>
                && look == (if w.threshold > 1 then Interp else Translate)
                && Get(spaces[id].blocks, pc) == if w.threshold > 1 then Some(Cold(1)) else None
      ensures pc in old(spaces)[id].blocks && old(spaces)[id].blocks[pc] == NoBlock ==> look == One
      ensures pc in old(spaces)[id].blocks && old(spaces)[id].blocks[pc].Cold? ==>
                var n := old(spaces)[id].blocks[pc].n + 1;
                look == (if n < w.threshold then Interp else Translate) && Get(spaces[id].blocks, pc) == Some(Cold(n))
    {
      var s := spaces[id];
      if pc in s.blocks {
        match s.blocks[pc] {
          case Hot(c) => return Found(c);
          case NoBlock => return One;
          case Cold(n) =>
            SetCold(id, pc, n + 1);
            return if n + 1 < w.threshold then Interp else Translate;
        }
      }
      if w.threshold > 1 {
        SetCold(id, pc, 1);
        look := Interp;
      } else {
        look := Translate;
      }
    }

    method SetCold(id: int, pc: U64, n: nat)
      requires Valid() && id in spaces && !IsHot(spaces[id], pc)
      modifies this`spaces
      ensures Valid() && spaces.Keys == old(spaces).Keys && OthersShrink(old(spaces), spaces, id)
      ensures SameHot(old(spaces)[id], spaces[id]) && Get(spaces[id].blocks, pc) == Some(Cold(n))
    {
      var s := spaces[id].(blocks := spaces[id].blocks[pc := Cold(n)]);
      assert SameHot(spaces[id], s);
      PutSpace(id, s);
    }

    /** The entries of a region in table slot `slot`, the one at its start
        first. */
    method MakeEntries(b: Block, slot: nat) returns (es: Entries)
      requires w.StepsOk() && Valid() && Shape(b) && slot < nextSlot && slot in table && table[slot] == b
      requires forall i :: 0 <= i < |b.bbs| && b.bbs[i].pc == b.pc ==> i < MAX_ENTRIES && 0 < w.steps(b.bbs[i].words)
      ensures EntriesOk(w, table, nextSlot, (b.pc, Signature(b.bbs)), es)
      ensures forall i :: 0 <= i < |es| ==> es[i].1.block == b
    {
      es := [];
      var at := -1;
      var i := 0;
      while i < |b.bbs|
        invariant 0 <= i <= |b.bbs|
        invariant forall j :: 0 <= j < |es| ==> EntryOk(w, table, nextSlot, es[j].0, es[j].1) && es[j].1.block == b
        invariant at == -1 ==> forall j :: 0 <= j < i ==> b.bbs[j].pc != b.pc
        invariant at != -1 ==> 0 <= at < |es| && es[at].0 == b.pc
      {
        var steps := w.steps(b.bbs[i].words);
        if i < MAX_ENTRIES && steps > 0 {
          if at == -1 && b.bbs[i].pc == b.pc {
            at := |es|;
          }
          es := es + [(b.bbs[i].pc, Compiled(b, slot, steps, i))];
        }
        i := i + 1;
      }
      es := es[0 := es[at]][at := es[0]];
    }

    /** `translate`: reads and compiles the region that starts at `pc`, or reuses
        the module already compiled from the same words. It may reset the engine
        to make room. */
    method TranslateAt(pc: U64, mem: Guest) returns (es: Option<Entries>)
      requires w.DiscoverOk() && w.StepsOk() && Valid()
      modifies this
      ensures Valid() && entered == old(entered)
      ensures (spaces == old(spaces) && dispatcher == old(dispatcher) && js == old(js))
              || (spaces == map[] && !dispatcher && loaded == 1)
      ensures old(loaded) < w.capacity && old(nextSlot) < TABLE_SIZE ==>
                spaces == old(spaces) && dispatcher == old(dispatcher)
      ensures es.Some? <==> w.discover(pc, mem.ram.view).Some?
      ensures es.Some? && w.strict && old(loaded) >= w.capacity && old(compiled) == map[] ==> !dispatcher && loaded == 1
      ensures es.Some? && old(loaded) < w.capacity && old(nextSlot) < TABLE_SIZE && old(compiled) == map[] ==>
                loaded == old(loaded) + 1
      ensures es.Some? ==> EntriesAt(w, table, nextSlot, pc, es.value, mem.ram.view)
    {
      var found := w.discover(pc, mem.ram.view);
      if found.None? {
        return None;
      }
      var b := found.value;
      var key := (pc, Signature(b.bbs));
      if key in compiled {
        assert EntriesOk(w, table, nextSlot, key, compiled[key]);
        SameRegion(w, table, nextSlot, key, compiled[key], b, mem.ram.view);
        return Some(compiled[key]);
      }
      CompileModule();
      var entries := Place(b);
      SameRegion(w, table, nextSlot, key, entries, b, mem.ram.view);
      es := Some(entries);
    }

    /** Compiles one more module, resetting the engine if it is full. */
    method CompileModule()
      requires Valid()
      modifies this
      ensures Valid() && entered == old(entered) && nextSlot < TABLE_SIZE
      ensures (spaces == old(spaces) && dispatcher == old(dispatcher) && js == old(js))
              || (spaces == map[] && !dispatcher && loaded == 1)
      ensures old(loaded) < w.capacity && old(nextSlot) < TABLE_SIZE ==>
                spaces == old(spaces) && dispatcher == old(dispatcher)
      ensures w.strict && old(loaded) >= w.capacity ==> !dispatcher && loaded == 1
      ensures old(loaded) < w.capacity && old(nextSlot) < TABLE_SIZE ==> loaded == old(loaded) + 1
    {
      if nextSlot + 1 > TABLE_SIZE {
        Reset();
      }
      var ok := Compile();
      if !ok {
        Reset();
        var again := Compile();
      }
    }

    /** Places the module of `b` in the table and remembers it by its key. */
    method Place(b: Block) returns (es: Entries)
      requires w.StepsOk() && Valid() && nextSlot < TABLE_SIZE && Shape(b)
      requires forall i :: 0 <= i < |b.bbs| && b.bbs[i].pc == b.pc ==> i < MAX_ENTRIES && 0 < w.steps(b.bbs[i].words)
      modifies this`table, this`nextSlot, this`compiled
      ensures Valid()
      ensures EntriesOk(w, table, nextSlot, (b.pc, Signature(b.bbs)), es)
      ensures forall i :: 0 <= i < |es| ==> es[i].1.block == b
    {
      Placed(w, table, nextSlot, b, spaces, compiled);
      var slot := nextSlot;
      table := table[slot := b];
      nextSlot := slot + 1;
      es := MakeEntries(b, slot);
      Remember((b.pc, Signature(b.bbs)), es);
    }

    method Remember(key: Key, es: Entries)
      requires Valid() && EntriesOk(w, table, nextSlot, key, es)
      modifies this`compiled
      ensures Valid() && compiled == old(compiled)[key := es]
    {
      Remembered(w, table, nextSlot, compiled, key, es);
      compiled := compiled[key := es];
    }

    static lemma Remembered(w: World, table: map<nat, Block>, next: nat, compiled: map<Key, Entries>, key: Key,
                            es: Entries)
      requires CompiledOk(w, table, next, compiled) && EntriesOk(w, table, next, key, es)
      ensures CompiledOk(w, table, next, compiled[key := es])
    {
      var more := compiled[key := es];
      forall k | k in more
        ensures EntriesOk(w, table, next, k, more[k])
      {
        assert k != key ==> EntriesOk(w, table, next, k, compiled[k]);
      }
    }

    /** A module found by its key was compiled from the region just read. */
    static lemma SameRegion(w: World, table: map<nat, Block>, next: nat, key: Key, es: Entries, b: Block, v: View)
      requires EntriesOk(w, table, next, key, es) && Shape(b) && key == (b.pc, Signature(b.bbs)) && WordsIn(b, v)
      ensures EntriesAt(w, table, next, b.pc, es, v)
    {
      forall i | 0 <= i < |es|
        ensures EntryAt(w, table, next, b.pc, es[i], v)
      {
        SignatureInjective(b.pc / PAGE, es[i].1.block.bbs, b.bbs);
        assert es[i].1.block == b;
      }
    }

    /** Translates and installs the region of `pc`, or marks it untranslatable. */
    method Install(id: int, pc: U64, mem: Guest) returns (c: Option<Compiled>, mem': Guest)
      requires w.DiscoverOk() && w.StepsOk() && Valid() && id in spaces && Clean(spaces[id], mem) && !IsHot(spaces[id], pc)
      modifies this
      ensures Valid() && entered == old(entered)
      ensures id in spaces && OthersShrink(old(spaces), spaces, id)
      ensures mem' == mem.(watch := mem'.watch) && mem.watch <= mem'.watch && Clean(spaces[id], mem')
      ensures c.Some? ==> IsHot(spaces[id], pc) && c.value == spaces[id].blocks[pc].c
      ensures c.Some? <==> w.discover(pc, mem.ram.view).Some?
      ensures c.Some? ==> pc / PAGE in mem'.watch
      ensures c.None? ==> Get(spaces[id].blocks, pc) == Some(NoBlock)
      ensures c.Some? && w.strict && old(loaded) >= w.capacity && old(compiled) == map[] ==> !dispatcher && loaded == 1
      ensures c.Some? && old(loaded) < w.capacity && old(nextSlot) < TABLE_SIZE && old(compiled) == map[] ==>
                loaded == old(loaded) + 1
      ensures old(loaded) < w.capacity && old(nextSlot) < TABLE_SIZE ==> dispatcher == old(dispatcher)
      ensures !dispatcher ==> !old(dispatcher) || loaded == 1
    {
      mem' := mem;
      var es := TranslateAt(pc, mem);
      OpenSpace(id);
      assert Clean(spaces[id], mem) && !IsHot(spaces[id], pc);
      if es.None? {
        SetNoBlock(id, pc);
        return None, mem;
      }
      mem' := mem.(watch := mem.watch + {pc / PAGE});
      PutEntries(id, pc, es.value, mem');
      c := Some(es.value[0].1);
    }

    method PutEntries(id: int, pc: U64, es: Entries, mem: Guest)
      requires Valid() && id in spaces && Clean(spaces[id], mem) && pc / PAGE in mem.watch && !IsHot(spaces[id], pc)
      requires EntriesAt(w, table, nextSlot, pc, es, mem.ram.view)
      modifies this`spaces
      ensures Valid() && spaces.Keys == old(spaces).Keys && OthersShrink(old(spaces), spaces, id)
      ensures Clean(spaces[id], mem) && IsHot(spaces[id], pc) && spaces[id].blocks[pc].c == es[0].1
    {
      var s := AddEntries(spaces[id], pc, es, mem);
      PutSpace(id, s);
    }

    method AddEntries(s: Space, pc: U64, es: Entries, mem: Guest) returns (s': Space)
      requires SpaceOk(w, table, nextSlot, s) && Clean(s, mem) && pc / PAGE in mem.watch && !IsHot(s, pc)
      requires EntriesAt(w, table, nextSlot, pc, es, mem.ram.view)
      ensures SpaceOk(w, table, nextSlot, s') && Clean(s', mem) && s'.ctx == s.ctx
      ensures IsHot(s', pc) && s'.blocks[pc].c == es[0].1
      ensures forall p: U64 :: IsHot(s, p) ==> IsHot(s', p) && s'.blocks[p] == s.blocks[p]
    {
      assert EntryAt(w, table, nextSlot, pc, es[0], mem.ram.view);
      AddEntryKeeps(w, table, nextSlot, s, true, pc / PAGE, es[0], mem);
      s' := AddEntry(s, true, pc / PAGE, es[0]);
      var i := 1;
      while i < |es|
        invariant 1 <= i <= |es|
        invariant SpaceOk(w, table, nextSlot, s') && Clean(s', mem) && s'.ctx == s.ctx
        invariant IsHot(s', pc) && s'.blocks[pc].c == es[0].1
        invariant forall p: U64 :: IsHot(s, p) ==> IsHot(s', p) && s'.blocks[p] == s.blocks[p]
      {
        assert EntryAt(w, table, nextSlot, pc, es[i], mem.ram.view);
        AddEntryKeeps(w, table, nextSlot, s', false, pc / PAGE, es[i], mem);
        s' := AddEntry(s', false, pc / PAGE, es[i]);
        i := i + 1;
      }
    }

    method SetNoBlock(id: int, pc: U64)
      requires Valid() && id in spaces && !IsHot(spaces[id], pc)
      modifies this`spaces
      ensures Valid() && spaces.Keys == old(spaces).Keys && OthersShrink(old(spaces), spaces, id)
      ensures SameHot(old(spaces)[id], spaces[id]) && Get(spaces[id].blocks, pc) == Some(NoBlock)
    {
      var s := spaces[id].(blocks := spaces[id].blocks[pc := NoBlock]);
      assert SameHot(spaces[id], s);
      PutSpace(id, s);
    }

    // ---- running ----

    /** `install_jc`, under the context of the space. */
    method WriteJc(id: int, pc: U64)
      requires Valid() && id in spaces && IsHot(spaces[id], pc)
      modifies this`jc
      ensures Valid()
      ensures jc[JcIndex(pc)] == JcEntry(pc, spaces[id].ctx, Pack(spaces[id].blocks[pc].c))
    {
      InstallJc(jc, spaces, ctxSeq, id, pc);
      jc := jc[JcIndex(pc) := JcEntry(pc, spaces[id].ctx, Pack(spaces[id].blocks[pc].c))];
    }

    predicate Hit(e: JcEntry)
      reads this`js
    {
      e.pc == js.pc && e.ctx == js.ctx
    }

    /** The dispatcher's search: both ways of the jump cache, then the host, which
        writes the entry if the region is hot in this space. The host writes the
        first way only, so the second never hits. */
    method FindEntry(id: int) returns (e: Option<JcEntry>)
      requires Valid() && id in spaces && js.ctx == spaces[id].ctx
      modifies this`jc
      ensures Valid()
      ensures e.Some? ==> IsHot(spaces[id], js.pc) && e.value == JcEntry(js.pc, js.ctx, Pack(spaces[id].blocks[js.pc].c))
      ensures Hit(old(jc)[JcIndex(js.pc)]) ==> e.Some?
      ensures !Hit(old(jc)[OtherWay(JcIndex(js.pc))])
    {
      var i := JcIndex(js.pc);
      var j := OtherWay(i);
      var first, second := jc[i], jc[j];
      e := if Hit(first) then Some(first) else if Hit(second) then Some(second) else None;
      if e.None? && IsHot(spaces[id], js.pc) {
        WriteJc(id, js.pc);
        e := Some(jc[i]);
      }
    }

    /** Enters the region that a jump cache entry names. */
    method Enter(id: int, cpu: Cpu, mem: Guest, e: JcEntry) returns (code: Code, mem': Guest)
      requires w.RegionsOk() && Valid() && id in spaces && Clean(spaces[id], mem)
      requires IsHot(spaces[id], js.pc) && e.w == Pack(spaces[id].blocks[js.pc].c)
      requires js.steps + StepsOf(e.w) <= js.limit
      modifies this`js, this`entered
      ensures Valid()
      ensures w.Exits(old(js), cpu, mem, RegionExit(code, js, mem'))
      ensures code == Next ==> Clean(spaces[id], mem')
      ensures |entered| == |old(entered)| + 1
    {
      ghost var c := spaces[id].blocks[js.pc].c;
      Unpack(c);
      var b := table[SlotOf(e.w)];
      js := js.(entry := EntryOf(e.w));
      assert ToCpu(js, cpu) == ToCpu(old(js), cpu);
      assert b == c.block && w.MayEnter(b, EntryOf(e.w), js, mem);
      entered := entered + [Entered(b, mem.ram.view)];
      var out := w.region(b, EntryOf(e.w), js, cpu, mem);
      code, js, mem' := out.code, out.js, out.guest;
      FreshStays(w, table, nextSlot, spaces[id], mem, mem');
    }

    /** One turn of the dispatcher: enters the region at the current `pc`, if the
        jump cache or the host has it and it fits the step limit. */
    method Turn(id: int, cpu: Cpu, mem: Guest) returns (ran: bool, code: Code, mem': Guest)
      requires w.RegionsOk() && Valid() && id in spaces && Clean(spaces[id], mem) && js.ctx == spaces[id].ctx
      modifies this`js, this`jc, this`entered
      ensures Valid()
      ensures ran ==> w.Exits(old(js), cpu, mem, RegionExit(code, js, mem'))
      ensures ran && code == Next ==> Clean(spaces[id], mem')
      ensures !ran ==> js == old(js) && mem' == mem
      ensures (&& Hit(old(jc)[JcIndex(old(js).pc)]) && IsHot(spaces[id], old(js).pc)
               && old(js).steps + spaces[id].blocks[old(js).pc].c.maxSteps <= old(js).limit) ==> ran
    {
      ran, code, mem' := false, Next, mem;
      var e := FindEntry(id);
      if e.None? {
        return;
      }
      Unpack(spaces[id].blocks[js.pc].c);
      if js.steps + StepsOf(e.value.w) > js.limit {
        return;
      }
      ran := true;
      code, mem' := Enter(id, cpu, mem, e.value);
    }

    /** The dispatcher: from region to region through the jump cache, without
        returning to the host, as long as they end with `Next` and fit. */
    method Dispatch(id: int, cpu: Cpu, mem: Guest) returns (code: Code, mem': Guest)
      requires w.RegionsOk() && Valid() && id in spaces && Clean(spaces[id], mem)
      requires js.steps == 0 && js.ctx == spaces[id].ctx && Hit(jc[JcIndex(js.pc)])
      requires IsHot(spaces[id], js.pc) && spaces[id].blocks[js.pc].c.maxSteps <= js.limit
      modifies this`js, this`jc, this`entered
      ensures Valid()
      ensures w.Exits(old(js), cpu, mem, RegionExit(code, js, mem'))
    {
      var ran;
      ran, code, mem' := Turn(id, cpu, mem);
      while code == Next
        invariant Valid() && w.Exits(old(js), cpu, mem, RegionExit(code, js, mem'))
        invariant code == Next ==> Clean(spaces[id], mem')
        decreases if code == Next then js.limit - js.steps + 1 else 0
      {
        ran, code, mem' := Continue(id, cpu, mem', old(js), mem);
        if !ran {
          return Next, mem';
        }
      }
    }

    /** Another turn of a dispatcher run that started with `js0` and `mem0`. */
    method Continue(id: int, cpu: Cpu, mem: Guest, ghost js0: JitState, ghost mem0: Guest)
      returns (ran: bool, code: Code, mem': Guest)
      requires w.RegionsOk() && Valid() && id in spaces && Clean(spaces[id], mem) && js.ctx == spaces[id].ctx
      requires js0.steps == 0 && w.Exits(js0, cpu, mem0, RegionExit(Next, js, mem))
      modifies this`js, this`jc, this`entered
      ensures Valid()
      ensures w.Exits(js0, cpu, mem0, RegionExit(if ran then code else Next, js, mem'))
      ensures ran && code == Next ==> Clean(spaces[id], mem') && js.steps > old(js).steps
    {
      ghost var at := js;
      ran, code, mem' := Turn(id, cpu, mem);
      if ran {
        Chained(js0, cpu, mem0, at, mem, RegionExit(code, js, mem'));
      }
    }

    /** A region entered after some steps extends the run so far. */
    lemma Chained(js0: JitState, cpu: Cpu, mem: Guest, at: JitState, g: Guest, out: RegionExit)
      requires js0.steps == 0 && at.limit == js0.limit && at.ctx == js0.ctx && Tracked(mem, g)
      requires w.StepN(at.steps, ToCpu(js0, cpu), mem.ram) == Some((ToCpu(at, cpu), g.ram))
      requires w.Exits(at, cpu, g, out)
      ensures w.Exits(js0, cpu, mem, out)
    {
      w.StepNAdd(at.steps, out.js.steps - at.steps, ToCpu(js0, cpu), mem.ram);
      TrackedTransitive(mem, g, out.guest);
    }

    /** One interpreter step; the dirty pages are collected after it. */
    method InterpStep(id: int, cpu: Cpu, mem: Guest) returns (cpu': Cpu, mem': Guest, exc: Option<Exception>)
      requires w.InterpOk() && Valid() && id in spaces && Clean(spaces[id], mem)
      modifies this`spaces, this`jc, this`ctxSeq
      ensures Valid() && id in spaces && OthersShrink(old(spaces), spaces, id) && Clean(spaces[id], mem')
      ensures Outcome(cpu', mem'.ram, exc) == w.step(cpu, mem.ram) && mem'.id == mem.id
    {
      var o := w.interp(cpu, mem);
      FreshStays(w, table, nextSlot, spaces[id], mem, o.guest);
      mem' := Drain(id, o.guest);
      cpu', exc := o.cpu, o.exc;
    }

    /** The CPU, wherever its state is kept. */
    ghost function Now(cpu: Cpu, inJit: bool): Cpu
      reads this`js
    {
      if inJit then ToCpu(js, cpu) else cpu
    }

    /** The next turn of `Run` executes something: its code is there and the
        dispatcher too, or nothing can make the engine discard it. */
    ghost predicate Ready(id: int, pc: U64)
      reads this
    {
      && dispatcher && id in spaces
      && (|| IsHot(spaces[id], pc)
          || (loaded == 1 && nextSlot == 0 && w.capacity >= 2)
          || (w.threshold >= 2 && pc !in spaces[id].blocks))
    }

    /** An engine with room for one module only, which is new or holds the
        dispatcher, while the code at `pc` is to be compiled at its first
        execution. */
    ghost predicate Starved(id: int, pc: U64, view: View)
      reads this
    {
      && w.strict && w.capacity == 1 && w.threshold <= 1
      && compiled == map[] && (if dispatcher then loaded == 1 else loaded == 0 && nextSlot == 0)
      && id in spaces && pc !in spaces[id].blocks && w.discover(pc, view).Some?
    }

    /** The first part of a turn of `Run`: looks up `pc` and translates if it is
        time to. Compiling may reset the engine, so the state goes back into the
        CPU first. */
    method Seek(id: int, cpu: Cpu, mem: Guest, inJit: bool, pc: U64)
      returns (hot: Option<Compiled>, one: bool, cpu': Cpu, inJit': bool, mem': Guest)
      requires w.DiscoverOk() && w.StepsOk() && Valid() && id in spaces && Clean(spaces[id], mem)
      requires pc == if inJit then js.pc else cpu.pc
      modifies this
      ensures Valid() && id in spaces && OthersShrink(old(spaces), spaces, id) && Clean(spaces[id], mem')
      ensures mem'.ram == mem.ram && mem'.id == mem.id && mem.watch <= mem'.watch
      ensures Now(cpu', inJit') == old(Now(cpu, inJit)) && pc == if inJit' then js.pc else cpu'.pc
      ensures hot.Some? ==> IsHot(spaces[id], pc) && hot.value == spaces[id].blocks[pc].c
      ensures hot.Some? && old(Ready(id, pc)) ==> dispatcher
      ensures old(Starved(id, pc, mem.ram.view)) ==> hot.Some? && !dispatcher && loaded == 1
    {
      cpu', inJit', mem', one, hot := cpu, inJit, mem, false, None;
      ghost var before := spaces;
      var look := Lookup(id, pc);
      assert Clean(spaces[id], mem);
      match look {
        case Found(c) => hot := Some(c);
        case Interp =>
        case One => one := true;
        case Translate =>
          if inJit' {
            cpu' := ToCpu(js, cpu);
            inJit' := false;
          }
          hot, mem' := Install(id, pc, mem);
          one := hot.None?;
      }
    }

    /** Runs translated code from `pc`, then the interpreter on the instruction
        that made it stop, if any. */
    method RunHot(id: int, cpu: Cpu, mem: Guest, inJit: bool, pc: U64, limit: U64)
      returns (n: nat, cpu': Cpu, inJit': bool, mem': Guest, exc: Option<Exception>)
      requires w.RegionsOk() && w.InterpOk() && Valid() && id in spaces && Clean(spaces[id], mem)
      requires pc == if inJit then js.pc else cpu.pc
      requires IsHot(spaces[id], pc) && spaces[id].blocks[pc].c.maxSteps <= limit
      modifies this
      ensures Valid() && id in spaces && OthersShrink(old(spaces), spaces, id) && Clean(spaces[id], mem')
      ensures mem'.id == mem.id
      ensures 0 < n <= limit
      ensures w.Steps(n, old(Now(cpu, inJit)), mem.ram, Outcome(Now(cpu', inJit'), mem'.ram, exc))
      ensures exc.Some? ==> !inJit'
    {
      EnterState(id, cpu, inJit, pc, limit);
      ghost var start := js;
      exc, cpu', inJit' := None, cpu, true;
      var code;
      code, mem' := Dispatch(id, cpu, mem);
      n := js.steps;
      FreshStays(w, table, nextSlot, spaces[id], mem, mem');
      match code {
        case Next =>
        case Stop =>
          mem' := Drain(id, mem');
        case Fault =>
          cpu', inJit' := ToCpu(js, cpu), false;
          n, cpu', mem', exc := Retry(id, n, cpu', mem', limit, old(Now(cpu, inJit)), mem.ram);
        case Svc =>
          cpu', inJit' := ToCpu(js, cpu), false;
          n, cpu', mem', exc := Retry(id, n, cpu', mem', limit, old(Now(cpu, inJit)), mem.ram);
      }
    }

    /** Writes the jump cache entry of `pc` and the state for a dispatcher run. */
    method EnterState(id: int, cpu: Cpu, inJit: bool, pc: U64, limit: U64)
      requires Valid() && id in spaces && IsHot(spaces[id], pc)
      requires pc == if inJit then js.pc else cpu.pc
      modifies this`js, this`jc
      ensures Valid()
      ensures js.pc == pc && js.steps == 0 && js.ctx == spaces[id].ctx && js.limit == limit
      ensures Hit(jc[JcIndex(pc)])
      ensures ToCpu(js, cpu) == old(Now(cpu, inJit))
    {
      WriteJc(id, pc);
      if inJit {
        js := js.(steps := 0, limit := limit, ctx := spaces[id].ctx, exitDetail := 0);
      } else {
        RoundTrip(cpu);
        js := FromCpu(cpu).(limit := limit, ctx := spaces[id].ctx);
      }
    }

    /** After a fault or an SVC: the interpreter executes the instruction. */
    method Retry(id: int, n: nat, cpu: Cpu, mem: Guest, limit: nat, ghost c0: Cpu, ghost m0: Ram)
      returns (n': nat, cpu': Cpu, mem': Guest, exc: Option<Exception>)
      requires w.InterpOk() && Valid() && id in spaces && Fresh(spaces[id], mem) && n <= limit
      requires w.StepN(n, c0, m0).Some?
      requires (cpu, mem.ram) == w.StepN(n, c0, m0).value
               || (n < limit && w.step(cpu, mem.ram) == w.step(w.StepN(n, c0, m0).value.0, w.StepN(n, c0, m0).value.1))
      modifies this`spaces, this`jc, this`ctxSeq
      ensures Valid() && id in spaces && OthersShrink(old(spaces), spaces, id) && Clean(spaces[id], mem')
      ensures mem'.id == mem.id && n' == if n < limit then n + 1 else n
      ensures w.Steps(n', c0, m0, Outcome(cpu', mem'.ram, exc))
    {
      n', cpu', exc := n, cpu, None;
      mem' := Drain(id, mem);
      if n < limit {
        cpu', mem', exc := InterpStep(id, cpu, mem');
        n' := n + 1;
      }
    }

    /** The interpreter, until the end of the block, the page or the budget; one
        step only if `single`. */
    method RunInterp(id: int, cpu: Cpu, mem: Guest, limit: nat, single: bool)
      returns (n: nat, cpu': Cpu, mem': Guest, exc: Option<Exception>)
      requires w.InterpOk() && Valid() && id in spaces && Clean(spaces[id], mem) && limit > 0
      modifies this`spaces, this`jc, this`ctxSeq
      ensures Valid() && id in spaces && OthersShrink(old(spaces), spaces, id) && Clean(spaces[id], mem')
      ensures mem'.id == mem.id && 0 < n <= limit
      ensures w.Steps(n, cpu, mem.ram, Outcome(cpu', mem'.ram, exc))
    {
      n, cpu', mem', exc := 0, cpu, mem, None;
      while true
        invariant Valid() && id in spaces && OthersShrink(old(spaces), spaces, id) && Clean(spaces[id], mem')
        invariant mem'.id == mem.id && n < limit && exc.None?
        invariant w.StepN(n, cpu, mem.ram) == Some((cpu', mem'.ram))
        decreases limit - n
      {
        var pc := cpu'.pc;
        cpu', mem', exc := InterpStep(id, cpu', mem');
        n := n + 1;
        if exc.Some? {
          return;
        }
        if n >= limit || cpu'.pc != (pc + 4) % B64 || cpu'.pc / PAGE != pc / PAGE || single {
          return;
        }
      }
    }

    /** Compiles the dispatcher. That may reset the engine and the spaces: the
        space of the run is opened again. */
    method OpenDispatcher(id: int, ghost mem: Guest)
      requires Valid() && id in spaces && Clean(spaces[id], mem)
      modifies this
      ensures Valid() && id in spaces && OthersShrink(old(spaces), spaces, id) && Clean(spaces[id], mem) && dispatcher
      ensures spaces[id].blocks == old(spaces)[id].blocks || (spaces[id].blocks == map[] && loaded == 1 && nextSlot == 0)
      ensures w.strict && old(loaded) >= w.capacity ==> spaces[id].blocks == map[] && loaded == 1 && compiled == map[]
    {
      CompileDispatcher();
      OpenSpace(id);
    }

    /** One turn of `Run`. It executes at least one step, except that it may only
        compile the dispatcher; then the next turn is ready if the engine has room
        for two modules or cold code goes to the interpreter first. A starved
        engine stays starved and executes nothing. */
    method Round(id: int, cpu: Cpu, mem: Guest, inJit: bool, limit: U64)
      returns (n: nat, cpu': Cpu, inJit': bool, mem': Guest, exc: Option<Exception>)
      requires w.Ok() && Valid() && id in spaces && Clean(spaces[id], mem) && limit > 0
      modifies this
      ensures Valid() && id in spaces && OthersShrink(old(spaces), spaces, id) && Clean(spaces[id], mem')
      ensures mem'.id == mem.id && n <= limit
      ensures w.Steps(n, old(Now(cpu, inJit)), mem.ram, Outcome(Now(cpu', inJit'), mem'.ram, exc))
      ensures exc.Some? ==> !inJit'
      ensures n == 0 ==> exc.None?
      ensures n == 0 && (w.capacity >= 2 || w.threshold >= 2) ==>
                !old(Ready(id, Now(cpu, inJit).pc)) && Ready(id, Now(cpu', inJit').pc)
      ensures old(Starved(id, Now(cpu, inJit).pc, mem.ram.view)) && limit >= 0xff ==>
                n == 0 && mem'.ram == mem.ram && Starved(id, Now(cpu', inJit').pc, mem'.ram.view)
    {
      var pc := if inJit then js.pc else cpu.pc;
      var hot, one;
      hot, one, cpu', inJit', mem' := Seek(id, cpu, mem, inJit, pc);
      if hot.Some? && hot.value.maxSteps <= limit {
        if !dispatcher {
          if inJit' {
            cpu' := ToCpu(js, cpu');
            inJit' := false;
          }
          OpenDispatcher(id, mem');
          n, exc := 0, None;
        } else {
          n, cpu', inJit', mem', exc := RunHot(id, cpu', mem', inJit', pc, limit);
        }
      } else {
        if inJit' {
          cpu' := ToCpu(js, cpu');
          inJit' := false;
        }
        n, cpu', mem', exc := RunInterp(id, cpu', mem', limit, hot.Some? || one);
      }
    }

    /** A turn after `done` steps from `(c0, m0)`. */
    method Advance(id: int, cpu: Cpu, mem: Guest, inJit: bool, limit: U64, ghost done: nat, ghost c0: Cpu, ghost m0: Ram)
      returns (n: nat, cpu': Cpu, inJit': bool, mem': Guest, exc: Option<Exception>)
      requires w.Ok() && Valid() && id in spaces && Clean(spaces[id], mem) && limit > 0
      requires w.StepN(done, c0, m0) == Some((Now(cpu, inJit), mem.ram))
      modifies this
      ensures Valid() && id in spaces && OthersShrink(old(spaces), spaces, id) && Clean(spaces[id], mem')
      ensures mem'.id == mem.id && n <= limit
      ensures w.Steps(done + n, c0, m0, Outcome(Now(cpu', inJit'), mem'.ram, exc))
      ensures exc.Some? ==> !inJit' && n > 0
      ensures n == 0 && (w.capacity >= 2 || w.threshold >= 2) ==>
                !old(Ready(id, Now(cpu, inJit).pc)) && Ready(id, Now(cpu', inJit').pc)
    {
      ghost var c1, m1 := Now(cpu, inJit), mem.ram;
      n, cpu', inJit', mem', exc := Round(id, cpu, mem, inJit, limit);
      w.StepsAfter(done, n, c0, m0, c1, m1, Outcome(Now(cpu', inJit'), mem'.ram, exc));
    }

    /** `JitCpu::run`: at most `budget` steps, stopping after the first that raises
        an exception; registers, memory and exception are those of the same
        number of `Cpu::step` calls. It terminates if the engine holds the
        dispatcher and one region at a time, or if regions must be seen twice
        before they are compiled. */
    method Run(cpu: Cpu, mem: Guest, budget: U64)
      returns (done: nat, cpu': Cpu, mem': Guest, exc: Option<Exception>)
      requires w.Ok() && Valid() && (mem.id in spaces ==> Fresh(spaces[mem.id], mem))
      requires w.capacity >= 2 || w.threshold >= 2
      modifies this
      ensures Valid() && mem'.id == mem.id && OthersShrink(old(spaces), spaces, mem.id)
      ensures mem.id in spaces && Clean(spaces[mem.id], mem')
      ensures w.Steps(done, cpu, mem.ram, Outcome(cpu', mem'.ram, exc))
      ensures done <= budget && (exc.None? ==> done == budget) && (budget > 0 ==> done > 0)
    {
      var id := mem.id;
      mem' := Drain(id, mem);
      OpenSpace(id);
      done, cpu', exc := 0, cpu, None;
      var inJit := false;
      while done < budget
        invariant Valid() && id in spaces && OthersShrink(old(spaces), spaces, id) && Clean(spaces[id], mem')
        invariant mem'.id == id && done <= budget && exc.None?
        invariant w.StepN(done, cpu, mem.ram) == Some((Now(cpu', inJit), mem'.ram))
        decreases budget - done, if Ready(id, Now(cpu', inJit).pc) then 0 else 1
      {
        var n;
        n, cpu', inJit, mem', exc := Advance(id, cpu', mem', inJit, budget - done, done, cpu, mem.ram);
        done := done + n;
        if exc.Some? {
          return;
        }
      }
      if inJit {
        cpu' := ToCpu(js, cpu');
      }
    }
  }

  /** The case that `Run` must exclude: a new engine that holds one module, and
      code that is compiled when first seen. Turn after turn, region and dispatcher
      displace each other and no instruction is executed. */
  method NeverStarts(w: World, cpu: Cpu, mem: Guest, limit: U64) returns (first: nat, second: nat)
    requires w.Ok() && w.strict && w.capacity == 1 && w.threshold <= 1
    requires mem.dirty == [] && w.discover(cpu.pc, mem.ram.view).Some? && limit >= 0xff
    ensures first == 0 && second == 0
  {
    var jit := new JitCpu(w);
    jit.OpenSpace(mem.id);
    assert jit.Starved(mem.id, cpu.pc, mem.ram.view) && jit.Now(cpu, false).pc == cpu.pc;
    var cpu', inJit, mem', exc;
    first, cpu', inJit, mem', exc := jit.Round(mem.id, cpu, mem, false, limit);
    second, cpu', inJit, mem', exc := jit.Round(mem.id, cpu', mem', inJit, limit);
    assert jit.Starved(mem.id, jit.Now(cpu', inJit).pc, mem'.ram.view);
  }
}
