/** The three caches of the JIT driver: block maps per address space, compiled
    modules by signature, and the jump cache with its contexts; and what each
    update keeps. */
module JitCaches {
  import opened AddressSpace
  import opened Flags
  import opened JitState
  import opened JitBlocks

  const JC_ENTRIES: int := 8192
  /** Address spaces kept in cache. */
  const MAX_SPACES: int := 64
  /** `u32::MAX`. */
  const CTX_MAX: int := 0xFFFF_FFFF

  /** An entry of a compiled region; the module stands for its block. */
  datatype Compiled = Compiled(block: Block, slot: nat, maxSteps: nat, bb: nat)
  datatype Entry = Cold(n: nat) | Hot(c: Compiled) | NoBlock
  datatype Space = Space(blocks: map<U64, Entry>, pages: map<int, seq<U64>>, lastUse: nat, ctx: nat)
  datatype JcEntry = JcEntry(pc: U64, ctx: nat, w: nat)

  type Key = (U64, seq<int>)
  type Entries = seq<(U64, Compiled)>

  // ---- jump cache entries ----

  function JcIndex(pc: U64): (i: int)
    ensures 0 <= i < JC_ENTRIES
  {
    pc / 4 % JC_ENTRIES
  }

  /** Consecutive instructions have consecutive entries, around the cache. */
  lemma JcIndexNext(pc: U64)
    requires pc + 4 < B64 && pc % 4 == 0
    ensures JcIndex(0) == 0 && JcIndex(pc + 4) == (JcIndex(pc) + 1) % JC_ENTRIES
  {
    assert (pc + 4) / 4 == pc / 4 + 1;
  }

  /** `i ^ 1`. */
  function OtherWay(i: int): (j: int)
    requires 0 <= i < JC_ENTRIES
    ensures 0 <= j < JC_ENTRIES && j != i
  {
    if i % 2 == 0 then i + 1 else i - 1
  }

  lemma OtherWayIs(i: int)
    requires 0 <= i < JC_ENTRIES
    ensures OtherWay(i) / 2 == i / 2 && OtherWay(OtherWay(i)) == i
  {
  }

  /** `bb << 26 | slot << 8 | max_steps`. */
  function Pack(c: Compiled): (w: nat) {
    c.bb * 0x400_0000 + c.slot * 0x100 + c.maxSteps
  }

  function SlotOf(w: nat): nat { w / 0x100 % TABLE_SIZE }
  function StepsOf(w: nat): nat { w % 0x100 }
  function EntryOf(w: nat): nat { w / 0x400_0000 }

  /** The dispatcher reads back what the host packed. */
  lemma Unpack(c: Compiled)
    requires c.bb < MAX_ENTRIES && c.slot < TABLE_SIZE && c.maxSteps < 0x100
    ensures SlotOf(Pack(c)) == c.slot && StepsOf(Pack(c)) == c.maxSteps && EntryOf(Pack(c)) == c.bb
    ensures Pack(c) < 0x1_0000_0000
  {
  }

  function EmptyJc(): (jc: seq<JcEntry>)
    ensures |jc| == JC_ENTRIES && forall i :: 0 <= i < |jc| ==> jc[i] == JcEntry(0, 0, 0)
  {
    seq(JC_ENTRIES, _ => JcEntry(0, 0, 0))
  }

  // ---- what the caches promise ----

  predicate IsHot(s: Space, pc: U64) {
    pc in s.blocks && s.blocks[pc].Hot?
  }

  /** `c` is an entry at `pc` of a region that sits in its table slot. */
  ghost predicate EntryOk(w: World, table: map<nat, Block>, next: nat, pc: U64, c: Compiled) {
    && c.slot < next <= TABLE_SIZE && c.slot in table && table[c.slot] == c.block
    && Shape(c.block) && c.bb < |c.block.bbs| && c.bb < MAX_ENTRIES
    && c.block.bbs[c.bb].pc == pc
    && c.maxSteps == w.steps(c.block.bbs[c.bb].words) && 0 < c.maxSteps < 0x100
  }

  ghost predicate SpaceOk(w: World, table: map<nat, Block>, next: nat, s: Space) {
    forall pc: U64 :: IsHot(s, pc) ==>
      && EntryOk(w, table, next, pc, s.blocks[pc].c)
      && pc / PAGE in s.pages && pc in s.pages[pc / PAGE]
  }

  ghost predicate SpacesOk(w: World, table: map<nat, Block>, next: nat, spaces: map<int, Space>) {
    forall id :: id in spaces ==> SpaceOk(w, table, next, spaces[id])
  }

  /** The module compiled from the region with this key, entry at `pc` first. */
  ghost predicate EntriesOk(w: World, table: map<nat, Block>, next: nat, key: Key, es: Entries) {
    && |es| > 0 && es[0].0 == key.0
    && forall i :: 0 <= i < |es| ==>
         && EntryOk(w, table, next, es[i].0, es[i].1)
         && es[i].1.block.pc == key.0 && Signature(es[i].1.block.bbs) == key.1
  }

  ghost predicate CompiledOk(w: World, table: map<nat, Block>, next: nat, compiled: map<Key, Entries>) {
    forall key {:trigger EntriesOk(w, table, next, key, compiled[key])} ::
      key in compiled ==> EntriesOk(w, table, next, key, compiled[key])
  }

  /** Entries of a region that starts at `pc` and whose words are in `v`, the one at
      `pc` first. */
  ghost predicate EntriesAt(w: World, table: map<nat, Block>, next: nat, pc: U64, es: Entries, v: View) {
    && |es| > 0 && es[0].0 == pc
    && forall i :: 0 <= i < |es| ==> EntryAt(w, table, next, pc, es[i], v)
  }

  ghost predicate EntryAt(w: World, table: map<nat, Block>, next: nat, pc: U64, e: (U64, Compiled), v: View) {
    EntryOk(w, table, next, e.0, e.1) && e.1.block.pc == pc && WordsIn(e.1.block, v)
  }

  /** Live contexts are distinct and at most the last one assigned; 0 is none. */
  ghost predicate CtxOk(spaces: map<int, Space>, last: nat) {
    && (forall id :: id in spaces ==> 0 < spaces[id].ctx <= last)
    && (forall a, b :: a in spaces && b in spaces && a != b ==> spaces[a].ctx != spaces[b].ctx)
  }

  /** `e` names the region that is hot at its `pc` in `s`. */
  ghost predicate Names(e: JcEntry, i: int, s: Space) {
    JcIndex(e.pc) == i && IsHot(s, e.pc) && e.w == Pack(s.blocks[e.pc].c)
  }

  /** A jump cache entry with a live context names a hot region of that space. */
  ghost predicate JcOk(jc: seq<JcEntry>, spaces: map<int, Space>, last: nat) {
    && |jc| == JC_ENTRIES
    && (forall i :: 0 <= i < |jc| ==> jc[i].ctx <= last)
    && (forall i, id :: 0 <= i < |jc| && id in spaces && spaces[id].ctx == jc[i].ctx ==> Names(jc[i], i, spaces[id]))
  }

  /** Every hot block is either reported dirty or still matches memory. */
  ghost predicate Fresh(s: Space, g: Guest) {
    forall pc: U64 :: IsHot(s, pc) ==>
      pc / PAGE in g.dirty || (pc / PAGE in g.watch && WordsIn(s.blocks[pc].c.block, g.ram.view))
  }

  /** No stale code: every hot block matches memory and its page is watched. */
  ghost predicate Clean(s: Space, g: Guest) {
    && g.dirty == []
    && forall pc: U64 :: IsHot(s, pc) ==> pc / PAGE in g.watch && WordsIn(s.blocks[pc].c.block, g.ram.view)
  }

  /** Whatever happens to the address space, the JIT can tell. */
  lemma FreshStays(w: World, table: map<nat, Block>, next: nat, s: Space, old_: Guest, new_: Guest)
    requires SpaceOk(w, table, next, s) && Fresh(s, old_) && Tracked(old_, new_)
    ensures Fresh(s, new_)
    ensures new_.dirty == [] ==> Clean(s, new_)
  {
    forall pc: U64 | IsHot(s, pc)
      ensures pc / PAGE in new_.dirty || (pc / PAGE in new_.watch && WordsIn(s.blocks[pc].c.block, new_.ram.view))
    {
      if pc / PAGE !in new_.dirty {
        assert pc / PAGE == s.blocks[pc].c.block.pc / PAGE;
        WordsStay(s.blocks[pc].c.block, old_, new_);
      }
    }
  }

  // ---- updates ----

  /** The same spaces, up to their contexts. */
  ghost predicate SameBlocks(a: map<int, Space>, b: map<int, Space>) {
    a.Keys == b.Keys && forall id :: id in a ==> b[id] == a[id].(ctx := b[id].ctx)
  }

  /** `b` has no hot block that `a` does not have, apart from space `id`. */
  ghost predicate OthersShrink(a: map<int, Space>, b: map<int, Space>, id: int) {
    forall k :: k in b && k != id ==> k in a && b[k].blocks == a[k].blocks
  }

  /** A context nobody used yet may be given to any space. */
  lemma NewCtx(jc: seq<JcEntry>, spaces: map<int, Space>, last: nat, id: int, s: Space)
    requires CtxOk(spaces, last) && JcOk(jc, spaces, last) && s.ctx == last + 1
    ensures CtxOk(spaces[id := s], last + 1) && JcOk(jc, spaces[id := s], last + 1)
  {
  }

  /** Forgetting spaces keeps the jump cache right. */
  lemma DropSpaces(jc: seq<JcEntry>, spaces: map<int, Space>, last: nat, gone: set<int>)
    requires CtxOk(spaces, last) && JcOk(jc, spaces, last)
    ensures CtxOk(spaces - gone, last) && JcOk(jc, spaces - gone, last)
  {
  }

  /** A space keeps its context while its hot blocks stay. */
  lemma KeepHot(jc: seq<JcEntry>, spaces: map<int, Space>, last: nat, id: int, s: Space)
    requires CtxOk(spaces, last) && JcOk(jc, spaces, last) && id in spaces && s.ctx == spaces[id].ctx
    requires forall pc: U64 :: IsHot(spaces[id], pc) ==> pc in s.blocks && s.blocks[pc] == spaces[id].blocks[pc]
    ensures CtxOk(spaces[id := s], last) && JcOk(jc, spaces[id := s], last)
  {
    var new_ := spaces[id := s];
    forall i, k | 0 <= i < |jc| && k in new_ && new_[k].ctx == jc[i].ctx
      ensures Names(jc[i], i, new_[k])
    {
      assert spaces[k].ctx == jc[i].ctx;
      assert Names(jc[i], i, spaces[k]);
    }
  }

  /** Writing the entry of a hot block under its space's context. */
  lemma InstallJc(jc: seq<JcEntry>, spaces: map<int, Space>, last: nat, id: int, pc: U64)
    requires CtxOk(spaces, last) && JcOk(jc, spaces, last) && id in spaces && IsHot(spaces[id], pc)
    ensures JcOk(jc[JcIndex(pc) := JcEntry(pc, spaces[id].ctx, Pack(spaces[id].blocks[pc].c))], spaces, last)
  {
  }

  /** A cleared jump cache is right for any contexts. */
  lemma ClearedJc(spaces: map<int, Space>, last: nat)
    requires CtxOk(spaces, last)
    ensures JcOk(EmptyJc(), spaces, last)
  {
  }

  /** Placing one more region in the table disturbs nothing. */
  lemma Placed(w: World, table: map<nat, Block>, next: nat, b: Block, spaces: map<int, Space>, compiled: map<Key,
               Entries>)
    requires SpacesOk(w, table, next, spaces) && CompiledOk(w, table, next, compiled) && next < TABLE_SIZE
    ensures SpacesOk(w, table[next := b], next + 1, spaces) && CompiledOk(w, table[next := b], next + 1, compiled)
  {
    forall key | key in compiled
      ensures EntriesOk(w, table[next := b], next + 1, key, compiled[key])
    {
      assert EntriesOk(w, table, next, key, compiled[key]);
    }
    forall id | id in spaces
      ensures SpaceOk(w, table[next := b], next + 1, spaces[id])
    {
      assert SpaceOk(w, table, next, spaces[id]);
    }
  }

  /** The same space, up to blocks that are not hot. */
  ghost predicate SameHot(s: Space, s': Space) {
    && s' == s.(blocks := s'.blocks)
    && forall pc: U64 :: (IsHot(s, pc) <==> IsHot(s', pc)) && (IsHot(s, pc) ==> s'.blocks[pc] == s.blocks[pc])
  }

  // ---- invalidation ----

  /** `Space::invalidate`. */
  function Invalidate(s: Space, page: int): (s': Space) {
    if page in s.pages then
      s.(pages := s.pages - {page}, blocks := s.blocks - (set pc | pc in s.pages[page]))
    else s
  }

  /** After invalidating a page no hot block is left in it, and the others stay. */
  lemma InvalidateKeeps(w: World, table: map<nat, Block>, next: nat, s: Space, page: int)
    requires SpaceOk(w, table, next, s)
    ensures var s' := Invalidate(s, page);
            && SpaceOk(w, table, next, s')
            && s'.ctx == s.ctx && s'.lastUse == s.lastUse
            && (page !in s.pages ==> s' == s)
            && forall pc: U64 :: IsHot(s', pc) ==> pc / PAGE != page && IsHot(s, pc) && s'.blocks[pc] == s.blocks[pc]
  {
    var s' := Invalidate(s, page);
    forall pc: U64 | IsHot(s', pc)
      ensures pc / PAGE != page && IsHot(s, pc) && s'.blocks[pc] == s.blocks[pc]
      ensures pc / PAGE in s'.pages && s'.pages[pc / PAGE] == s.pages[pc / PAGE]
    {
      assert IsHot(s, pc);
    }
  }

  /** The hot blocks of `s'` are hot blocks of `s` outside `pages`. */
  ghost predicate Swept(s: Space, s': Space, pages: seq<int>) {
    forall pc: U64 :: IsHot(s', pc) ==> pc / PAGE !in pages && IsHot(s, pc) && s'.blocks[pc] == s.blocks[pc]
  }

  lemma SweptMore(w: World, table: map<nat, Block>, next: nat, s: Space, s1: Space, pages: seq<int>, page: int)
    requires SpaceOk(w, table, next, s1) && Swept(s, s1, pages)
    ensures SpaceOk(w, table, next, Invalidate(s1, page)) && Swept(s, Invalidate(s1, page), pages + [page])
  {
    InvalidateKeeps(w, table, next, s1, page);
  }

  /** Once the dirty pages are swept, the space is clean. */
  lemma SweptClean(s: Space, s': Space, g: Guest)
    requires Fresh(s, g) && Swept(s, s', g.dirty)
    ensures Clean(s', g.(dirty := []))
  {
  }

  // ---- installing the entries of a region ----

  function Listed(s: Space, page: int): seq<U64> {
    if page in s.pages then s.pages[page] else []
  }

  /** One step of the loop in `install`. */
  function AddEntry(s: Space, first: bool, page: int, e: (U64, Compiled)): (s': Space) {
    if !first && IsHot(s, e.0) then s
    else s.(blocks := s.blocks[e.0 := Hot(e.1)], pages := s.pages[page := Listed(s, page) + [e.0]])
  }

  lemma AddEntryKeeps(w: World, table: map<nat, Block>, next: nat, s: Space, first: bool, page: int, e: (U64,
                      Compiled), g: Guest)
    requires SpaceOk(w, table, next, s) && EntryOk(w, table, next, e.0, e.1) && e.0 / PAGE == page
    requires Clean(s, g) && page in g.watch && WordsIn(e.1.block, g.ram.view)
    requires first ==> !IsHot(s, e.0)
    ensures var s' := AddEntry(s, first, page, e);
            && SpaceOk(w, table, next, s') && Clean(s', g) && s'.ctx == s.ctx && s'.lastUse == s.lastUse
            && IsHot(s', e.0) && (first ==> s'.blocks[e.0] == Hot(e.1))
            && forall pc: U64 :: IsHot(s, pc) ==> IsHot(s', pc) && s'.blocks[pc] == s.blocks[pc]
  {
    var s' := AddEntry(s, first, page, e);
    forall pc: U64 | IsHot(s', pc)
      ensures EntryOk(w, table, next, pc, s'.blocks[pc].c) && pc / PAGE in s'.pages && pc in s'.pages[pc / PAGE]
      ensures pc / PAGE in g.watch && WordsIn(s'.blocks[pc].c.block, g.ram.view)
    {
      if !IsHot(s, pc) || pc == e.0 {
        assert s' != s ==> pc == e.0 && s'.pages[page][|Listed(s, page)|] == pc;
      } else {
        assert pc in Listed(s, pc / PAGE);
      }
    }
  }
}
