/** `UserMemory`: the address space of a user-mode process, with the watched code
    pages of the JIT. Every operation is specified by what it does to the flat
    map of bytes (`RegionMap.CellAt`) and to the watched and dirty pages. */
module UserMemory {
  import opened AddressSpace
  import opened Collections
  import opened Regions
  import opened RegionMap

  datatype Fault = Fault(addr: int, access: Access)

  /** The watched pages from `first` to `last`. */
  function PagesIn(w: set<int>, first: int, last: int): (hit: set<int>) {
    set p | p in w && first <= p <= last
  }

  /** The watched pages that `[start, end)` touches. */
  function Hit(w: set<int>, start: int, end: int): (hit: set<int>)
    ensures hit <= w
    ensures forall a: int :: start <= a < end && a / PAGE in w ==> a / PAGE in hit
  {
    if start >= end then {} else PagesIn(w, start / PAGE, (end - 1) / PAGE)
  }

  /** A watched page is hit exactly if a byte of the range lies in it. */
  lemma HitIs(w: set<int>, start: int, end: int, p: int)
    ensures p in Hit(w, start, end) <==> p in w && exists a :: start <= a < end && a / PAGE == p
  {
    if p in Hit(w, start, end) {
      var a := if p * PAGE < start then start else p * PAGE;
      assert start <= a < end && a / PAGE == p;
    }
  }

  /** `(w, d)` became `(w', d')` by moving the pages of `hit`, each exactly once,
      from the watched set to the end of the dirty list. */
  ghost predicate Moved(w: set<int>, d: seq<int>, w': set<int>, d': seq<int>, hit: set<int>) {
    && hit <= w
    && w' == w - hit
    && d <= d'
    && |d'| == |d| + |hit|
    && forall p :: p in d'[|d|..] <==> p in hit
  }

  lemma MoveOne(w: set<int>, d: seq<int>, w': set<int>, d': seq<int>, hit: set<int>, p: int)
    requires Moved(w, d, w', d', hit) && p in w && p !in hit
    ensures Moved(w, d, w' - {p}, d' + [p], hit + {p})
  {
    assert (d' + [p])[|d|..] == d'[|d|..] + [p];
  }

  /** The effect of `touch(start, end)`. */
  ghost predicate Touched(w: set<int>, d: seq<int>, w': set<int>, d': seq<int>, start: int, end: int) {
    Moved(w, d, w', d', Hit(w, start, end))
  }

  lemma MovedCompose(w: set<int>, d: seq<int>, w1: set<int>, d1: seq<int>, w2: set<int>, d2: seq<int>,
                     h1: set<int>, h2: set<int>)
    requires Moved(w, d, w1, d1, h1) && Moved(w1, d1, w2, d2, h2)
    ensures Moved(w, d, w2, d2, h1 + h2)
  {
    assert |h1 + h2| == |h1| + |h2|;
    assert d2[|d|..] == d1[|d|..] + d2[|d1|..];
  }

  /** Moving every watched page in which a byte changed keeps the JIT informed. */
  lemma MovedTracks(g: Guest, rs: RMap, g': Guest, rs': RMap, hit: set<int>)
    requires Wf(rs) && Wf(rs') && g.ram.view == ViewOf(rs) && g'.ram.view == ViewOf(rs') && g.id == g'.id
    requires Moved(g.watch, g.dirty, g'.watch, g'.dirty, hit)
    requires forall a: int :: a / PAGE in g.watch && Bare(CellAt(rs', a)) != Bare(CellAt(rs, a)) ==> a / PAGE in hit
    ensures Tracked(g, g')
  {
    var d, d' := g.dirty, g'.dirty;
    assert forall p :: p in hit ==> p in d'[|d|..] && p in d';
    forall p | p in d
      ensures p in d'
    {
      var i :| 0 <= i < |d| && d[i] == p;
      assert d'[i] == p;
    }
    forall a: int | a / PAGE in g.watch && Bare(Get(ViewOf(rs), a)) != Bare(Get(ViewOf(rs'), a))
      ensures a / PAGE in d'
    {
      ViewIs(rs, a);
      ViewIs(rs', a);
      assert a / PAGE in hit;
    }
  }

  lemma TouchedTracks(g: Guest, rs: RMap, g': Guest, rs': RMap, start: int, end: int)
    requires Wf(rs) && Wf(rs') && g.ram.view == ViewOf(rs) && g'.ram.view == ViewOf(rs') && g.id == g'.id
    requires Touched(g.watch, g.dirty, g'.watch, g'.dirty, start, end)
    requires forall a :: !(start <= a < end) ==> CellAt(rs', a) == CellAt(rs, a)
    ensures Tracked(g, g')
  {
    MovedTracks(g, rs, g', rs', Hit(g.watch, start, end));
  }

  lemma RemapTracks(g: Guest, rs: RMap, w1: set<int>, d1: seq<int>, w2: set<int>, d2: seq<int>, g': Guest, rs': RMap,
                    from: int, len: nat, dst: int)
    requires Wf(rs) && Wf(rs') && g.ram.view == ViewOf(rs) && g'.ram.view == ViewOf(rs') && g.id == g'.id
    requires Touched(g.watch, g.dirty, w1, d1, from, from + len)
    requires Touched(w1, d1, w2, d2, dst, dst + len)
    requires Touched(w2, d2, g'.watch, g'.dirty, dst, dst + len)
    requires forall a :: !(from <= a < from + len) && !(dst <= a < dst + len) ==> CellAt(rs', a) == CellAt(rs, a)
    ensures Moved(g.watch, g.dirty, g'.watch, g'.dirty, Hit(g.watch, from, from + len) + Hit(g.watch, dst, dst + len))
    ensures Tracked(g, g')
  {
    var h1, h2, h3 := Hit(g.watch, from, from + len), Hit(w1, dst, dst + len), Hit(w2, dst, dst + len);
    MovedCompose(g.watch, g.dirty, w1, d1, w2, d2, h1, h2);
    MovedCompose(g.watch, g.dirty, w2, d2, g'.watch, g'.dirty, h1 + h2, h3);
    assert h1 + h2 + h3 == h1 + Hit(g.watch, dst, dst + len);
    BothTracked(g, rs, g', rs', from, len, dst);
  }

  lemma BothTracked(g: Guest, rs: RMap, g': Guest, rs': RMap, from: int, len: nat, dst: int)
    requires Wf(rs) && Wf(rs') && g.ram.view == ViewOf(rs) && g'.ram.view == ViewOf(rs') && g.id == g'.id
    requires Moved(g.watch, g.dirty, g'.watch, g'.dirty, Hit(g.watch, from, from + len) + Hit(g.watch, dst, dst + len))
    requires forall a :: !(from <= a < from + len) && !(dst <= a < dst + len) ==> CellAt(rs', a) == CellAt(rs, a)
    ensures Tracked(g, g')
  {
    MovedTracks(g, rs, g', rs', Hit(g.watch, from, from + len) + Hit(g.watch, dst, dst + len));
  }

  /** A byte left behind by MREMAP_DONTUNMAP. */
  function Emptied(c: Option<Cell>): Option<Cell> {
    if c.Some? then Some(WithByte(c.value, 0)) else None
  }

  function EmptiedRegion(r: Region): (r': Region)
    requires r.Valid()
    ensures r'.Valid() && r'.len == r.len
    ensures forall o: nat :: r'.CellAt(o) == WithByte(r.CellAt(o), 0)
  {
    if r.backing.Pages? then r.(backing := Pages(map[], 0)) else r
  }

  lemma EmptiedEdit(rs: RMap, rs': RMap)
    requires Wf(rs) && rs' == map b | b in rs :: EmptiedRegion(rs[b])
    ensures Wf(rs') && forall a :: CellAt(rs', a) == Emptied(CellAt(rs, a))
  {
    forall a
      ensures CellAt(rs', a) == Emptied(CellAt(rs, a))
    {
      assert forall b :: Covers(rs', b, a) <==> Covers(rs, b, a);
      if c :| Covers(rs, c, a) {
        CellIs(rs, c, a);
        CellIs(rs', c, a);
      }
    }
  }

  /** The byte `k` positions after the end of a region whose last byte is `c`. */
  function Continued(c: Cell, k: nat): Cell {
    match c
    case Private(_, perm, mayWrite, growsDown) => Private(0, perm, mayWrite, growsDown)
    case Shared(buf, off, perm, mayWrite, growsDown) => Shared(buf, off + 1 + k, perm, mayWrite, growsDown)
  }

  ghost predicate EndsAt(rs: RMap, end: int) {
    exists c :: c in rs && c + rs[c].len == end
  }

  ghost function Continuation(rs: RMap, end: int, a: int): Option<Cell>
    requires Wf(rs) && end <= a
  {
    var c := CellAt(rs, end - 1);
    if c.Some? then Some(Continued(c.value, a - end)) else None
  }

  lemma ContinuationIs(rs: RMap, b: int, end: int, tail: Region)
    requires Wf(rs) && b in rs && b + rs[b].len == end && tail.Valid()
    requires forall o: nat :: tail.CellAt(o) == Continued(rs[b].CellAt(rs[b].len - 1), o)
    ensures EndsAt(rs, end)
    ensures forall a :: end <= a ==> Continuation(rs, end, a) == Some(tail.CellAt(a - end))
  {
    CellIs(rs, b, end - 1);
  }

  ghost predicate Accessible(c: Cell) {
    c.perm.read || c.perm.write || c.perm.exec
  }

  /** A MAP_GROWSDOWN mapping starts at `b`, above the unmapped rest of the page
      of `addr`, and the nearest mapping below leaves the guard gap. */
  ghost predicate Growable(rs: RMap, page: int, addr: int, gap: int, b: int)
    requires Wf(rs)
  {
    && page < b && addr < b
    && CellAt(rs, b).Some? && CellAt(rs, b).value.growsDown
    && (forall a :: page <= a < b ==> CellAt(rs, a).None?)
    && (forall x :: NearestBelow(rs, page, x) ==>
          page - (x + 1) >= gap || !Accessible(CellAt(rs, x).value) || CellAt(rs, x).value.growsDown)
  }

  /** `x` is the last mapped byte below `page`. */
  ghost predicate NearestBelow(rs: RMap, page: int, x: int)
    requires Wf(rs)
  {
    x < page && CellAt(rs, x).Some? && forall y :: x < y < page ==> CellAt(rs, y).None?
  }

  /** The byte `k` places after `c` lies in a page that starts beyond the end of
      the buffer of `c`. */
  ghost predicate Beyond(c: Cell, k: nat, bufs: Buffers) {
    c.Shared? && PageStart(c.off + k) >= |BufferOf(bufs, c.buf)|
  }

  /** A byte lies beyond the end of its file exactly if no byte of its page is in
      the file. */
  lemma BeyondIs(c: Cell, bufs: Buffers)
    requires c.Shared?
    ensures Beyond(c, 0, bufs) <==> forall i: nat :: i / PAGE == c.off / PAGE ==> i >= |BufferOf(bufs, c.buf)|
  {
    var first := PageStart(c.off);
    assert first / PAGE == c.off / PAGE && first >= 0;
  }

  /** Byte `a` can be accessed on its own: it is mapped, allows the access, and
      does not lie beyond the end of its file. */
  ghost predicate Usable(rs: RMap, bufs: Buffers, a: int, access: Access)
    requires Wf(rs)
  {
    CellAt(rs, a).Some? && CellAt(rs, a).value.perm.Allows(access) && !Beyond(CellAt(rs, a).value, 0, bufs)
  }

  /** The access starts in a shared mapping that allows it, and would run beyond
      the end of the file there. */
  ghost predicate Spills(rs: RMap, bufs: Buffers, addr: int, len: nat, access: Access)
    requires Wf(rs)
  {
    && len > 0 && CellAt(rs, addr).Some?
    && CellAt(rs, addr).value.perm.Allows(access) && Beyond(CellAt(rs, addr).value, len - 1, bufs)
  }

  /** The test of the source against the flat one. */
  lemma PastEndBeyond(r: Region, off: nat, k: nat, bufs: Buffers)
    requires r.Valid()
    ensures r.PastEnd(off + k, bufs) <==> Beyond(r.CellAt(off), k, bufs)
    ensures Beyond(r.CellAt(off), 0, bufs) ==> r.PastEnd(off + k, bufs)
  {
    if r.backing.Window? {
      PageStartUp(r.backing.start + off, r.backing.start + off + k);
    }
  }

  lemma InsideUsable(rs: RMap, bufs: Buffers, b: int, addr: int, len: nat, access: Access)
    requires Wf(rs) && b in rs && b <= addr && len > 0 && addr + len <= b + rs[b].len
    requires rs[b].perm.Allows(access) && !rs[b].PastEnd(addr - b + len - 1, bufs)
    ensures forall x :: addr <= x < addr + len ==> Covers(rs, b, x) && Usable(rs, bufs, x, access)
  {
    forall x | addr <= x < addr + len
      ensures Covers(rs, b, x) && Usable(rs, bufs, x, access)
    {
      CellIs(rs, b, x);
      var off, k := x - b, addr + len - 1 - x;
      assert off + k == addr - b + len - 1;
      PastEndBeyond(rs[b], off, k, bufs);
    }
  }

  /** `f` names the first byte of `[addr, addr + len)` that refuses `access`. */
  ghost predicate FirstFault(rs: RMap, bufs: Buffers, addr: int, len: nat, access: Access, f: Fault)
    requires Wf(rs)
  {
    && f.access == access
    && addr <= f.addr < addr + len
    && !Usable(rs, bufs, f.addr, access)
    && forall a :: addr <= a < f.addr ==> Usable(rs, bufs, a, access)
  }

  /** The answer of an access that looks at each byte alone: a fault at the first
      one that refuses, or none. */
  ghost predicate BytewiseAnswer(rs: RMap, bufs: Buffers, addr: int, len: nat, access: Access, r: Option<Fault>)
    requires Wf(rs)
  {
    match r
    case Some(f) => FirstFault(rs, bufs, addr, len, access, f)
    case None => forall a :: addr <= a < addr + len ==> Usable(rs, bufs, a, access)
  }

  /** The answer of an access: it faults at its start if it spills. */
  ghost predicate Answer(rs: RMap, bufs: Buffers, addr: int, len: nat, access: Access, r: Option<Fault>)
    requires Wf(rs)
  {
    if Spills(rs, bufs, addr, len, access) then r == Some(Fault(addr, access))
    else BytewiseAnswer(rs, bufs, addr, len, access, r)
  }

  /** The answer is the one byte by byte exactly if it is not the case that the
      access spills over the end of a file from a usable byte. */
  lemma AnswerIsBytewise(rs: RMap, bufs: Buffers, addr: int, len: nat, access: Access, r: Option<Fault>)
    requires Wf(rs) && Answer(rs, bufs, addr, len, access, r)
    ensures BytewiseAnswer(rs, bufs, addr, len, access, r) <==>
            !(Spills(rs, bufs, addr, len, access) && Usable(rs, bufs, addr, access))
  {
  }

  /** A spilling access of the failing family: a file of one page is mapped before
      a private page; two bytes across the border are refused, though each of them
      is usable. */
  lemma SpillsThoughUsable(private: Region, window: Region)
    requires private.Valid() && private.len == PAGE && private.backing.Pages? && private.perm.read
    requires window.Valid() && window.len == PAGE && window.backing == Window(0, 0) && window.perm.read
    ensures var rs, bufs := map[0 := window, PAGE := private], map[0 := Zeros(PAGE)];
            && Wf(rs) && Spills(rs, bufs, PAGE - 1, 2, Read)
            && Usable(rs, bufs, PAGE - 1, Read) && Usable(rs, bufs, PAGE, Read)
  {
    var rs := map[0 := window, PAGE := private];
    CellIs(rs, 0, PAGE - 1);
    CellIs(rs, PAGE, PAGE);
  }

  /** All bytes of the range are mapped and have the permission bit that `access`
      needs. */
  ghost predicate Permitted(rs: RMap, addr: int, len: nat, access: Access)
    requires Wf(rs)
  {
    match access
    case Read => forall a :: addr <= a < addr + len ==> CellAt(rs, a).Some? && CellAt(rs, a).value.perm.read
    case Write => forall a :: addr <= a < addr + len ==> CellAt(rs, a).Some? && CellAt(rs, a).value.perm.write
    case Fetch => forall a :: addr <= a < addr + len ==> CellAt(rs, a).Some? && CellAt(rs, a).value.perm.exec
  }

  /** An access faults unless every byte has its permission bit; in private memory
      that is all it needs. */
  lemma AnswerPermits(rs: RMap, bufs: Buffers, addr: int, len: nat, access: Access, r: Option<Fault>)
    requires Wf(rs) && Answer(rs, bufs, addr, len, access, r)
    ensures r.None? ==> Permitted(rs, addr, len, access)
    ensures Permitted(rs, addr, len, access) && AllPrivate(rs, addr, len) ==> r.None?
  {
    if r.None? {
      forall a | addr <= a < addr + len
        ensures CellAt(rs, a).Some? && CellAt(rs, a).value.perm.Allows(access)
      {
        assert Usable(rs, bufs, a, access);
      }
    }
    if Permitted(rs, addr, len, access) && AllPrivate(rs, addr, len) {
      assert forall a :: addr <= a < addr + len ==> CellAt(rs, a).Some? && CellAt(rs, a).value.perm.Allows(access);
      assert !Spills(rs, bufs, addr, len, access);
    }
  }

  /** Every mapped byte of `[addr, addr + len)` is private. */
  ghost predicate AllPrivate(rs: RMap, addr: int, len: nat)
    requires Wf(rs)
  {
    forall a :: addr <= a < addr + len && CellAt(rs, a).Some? ==> CellAt(rs, a).value.Private?
  }

  /** A hole of `len` bytes at `x` within `[bottom, top)`. */
  ghost predicate Hole(rs: RMap, x: int, len: nat, bottom: int, top: int) {
    bottom <= x && x + len <= top && forall b :: b in rs ==> x + len <= b || b + rs[b].len <= x
  }

  /** A hole keeps away from a range that is mapped: a move into it never overlaps. */
  lemma HoleIsApart(rs: RMap, x: int, len: nat, bottom: int, top: int, from: int)
    requires Wf(rs) && len > 0 && Hole(rs, x, len, bottom, top)
    requires forall a :: from <= a < from + len ==> CellAt(rs, a).Some?
    ensures from + len <= x || x + len <= from
  {
    var a := if from < x then x else from;
    if a < from + len {
      assert CellAt(rs, a).Some?;
      var b :| Covers(rs, b, a);
      var e := b + rs[b].len;
      assert x + len <= b || e <= x;
    }
  }

  /** What `find_free` promises: the highest hole, or none because there is none. */
  ghost predicate HighestHole(rs: RMap, r: Option<int>, len: nat, bottom: int, top: int) {
    match r
    case Some(x) => Hole(rs, x, len, bottom, top) && forall y :: Hole(rs, y, len, bottom, top) ==> y <= x
    case None => forall y :: !Hole(rs, y, len, bottom, top)
  }

  lemma GrowableStarts(rs: RMap, page: int, addr: int, gap: int, b: int)
    requires Wf(rs) && Growable(rs, page, addr, gap, b)
    ensures FirstFrom(rs, page + 1) == Some(b)
  {
    var c :| Covers(rs, c, b);
    var x := if c < page then page else c;
    assert c < b ==> CellAt(rs, x).None? && Covers(rs, c, x);
    forall k | k in rs && page < k
      ensures b <= k
    {
      StartCovered(rs, k);
    }
  }

  lemma StartCovered(rs: RMap, k: int)
    requires Wf(rs) && k in rs
    ensures Covers(rs, k, k) && CellAt(rs, k).Some?
  {
    CellIs(rs, k, k);
  }

  /** The last region that starts up to `page` and ends by it holds the last
      mapped byte below. */
  lemma LastIsNearest(rs: RMap, page: int, p: int)
    requires Wf(rs) && LastBelow(rs, page + 1) == Some(p) && p + rs[p].len <= page
    ensures NearestBelow(rs, page, p + rs[p].len - 1)
    ensures CellAt(rs, p + rs[p].len - 1) == Some(rs[p].CellAt(rs[p].len - 1))
    ensures CellAt(rs, page).None?
  {
    var x := p + rs[p].len - 1;
    CellIs(rs, p, x);
    forall y | x < y <= page
      ensures CellAt(rs, y).None?
    {
      assert forall c :: Covers(rs, c, y) ==> c <= p;
    }
  }

  lemma PrevBlocks(rs: RMap, page: int, addr: int, gap: int, b: int, p: int)
    requires Wf(rs) && LastBelow(rs, page + 1) == Some(p) && page < b
    requires var pend := p + rs[p].len;
             pend > page || (page - pend < gap && !rs[p].growsDown
                             && (rs[p].perm.read || rs[p].perm.write || rs[p].perm.exec))
    ensures !Growable(rs, page, addr, gap, b)
  {
    if p + rs[p].len > page {
      CellIs(rs, p, page);
    } else {
      LastIsNearest(rs, page, p);
    }
  }

  lemma FreeUpTo(rs: RMap, page: int, b: int, prev: Option<int>)
    requires Wf(rs) && FirstFrom(rs, page + 1) == Some(b) && prev == LastBelow(rs, page + 1)
    requires prev.Some? ==> prev.value + rs[prev.value].len <= page
    ensures forall a :: page <= a < b ==> CellAt(rs, a).None?
  {
    forall a | page <= a < b
      ensures CellAt(rs, a).None?
    {
      assert forall c :: Covers(rs, c, a) ==> c <= page;
    }
  }

  lemma GrowableNow(rs: RMap, page: int, addr: int, gap: int, b: int, prev: Option<int>)
    requires Wf(rs) && addr < b && FirstFrom(rs, page + 1) == Some(b) && rs[b].growsDown
    requires prev == LastBelow(rs, page + 1)
    requires prev.Some? ==> var pend, r := prev.value + rs[prev.value].len, rs[prev.value];
             pend <= page && ((r.perm.read || r.perm.write || r.perm.exec) && !r.growsDown ==> page - pend >= gap)
    ensures Growable(rs, page, addr, gap, b)
  {
    CellIs(rs, b, b);
    FreeUpTo(rs, page, b, prev);
    forall x | NearestBelow(rs, page, x)
      ensures page - (x + 1) >= gap || !Accessible(CellAt(rs, x).value) || CellAt(rs, x).value.growsDown
    {
      NearestIsLast(rs, page, x, prev);
    }
  }

  lemma NearestIsLast(rs: RMap, page: int, x: int, prev: Option<int>)
    requires Wf(rs) && prev == LastBelow(rs, page + 1) && NearestBelow(rs, page, x)
    requires prev.Some? ==> prev.value + rs[prev.value].len <= page
    ensures prev.Some? && x == prev.value + rs[prev.value].len - 1
    ensures CellAt(rs, x) == Some(rs[prev.value].CellAt(rs[prev.value].len - 1))
  {
    var c :| Covers(rs, c, x);
    assert prev.Some?;
    LastIsNearest(rs, page, prev.value);
    OneNearest(rs, page, x, prev.value + rs[prev.value].len - 1);
  }

  lemma OneNearest(rs: RMap, page: int, x: int, y: int)
    requires Wf(rs) && NearestBelow(rs, page, x) && NearestBelow(rs, page, y)
    ensures x == y
  {
  }

  /** No hole above region `b` if the gap up to `end` is too small. */
  lemma NoneBetween(rs: RMap, b: int, len: nat, bottom: nat, end: int, top: nat)
    requires Wf(rs) && b in rs
    requires var start := if b + rs[b].len > bottom then b + rs[b].len else bottom; end - start < len
    requires forall y :: Hole(rs, y, len, bottom, top) ==> y + len <= end
    ensures forall y :: Hole(rs, y, len, bottom, top) ==> y + len <= b
  {
    var e := b + rs[b].len;
    assert forall y :: Hole(rs, y, len, bottom, top) ==> y + len <= b || e <= y;
  }

  lemma HoleBetween(rs: RMap, b: int, x: int, len: nat, bottom: int, end: int, top: int)
    requires Wf(rs) && LastBelow(rs, end) == Some(b) && b + rs[b].len <= x && x + len == end && bottom <= x && end <= top
    ensures Hole(rs, x, len, bottom, top)
  {
  }

  /** The byte at `a` after `byte` was stored there. */
  ghost function Written(rs: RMap, a: int, byte: Byte): Option<Cell>
    requires Wf(rs)
  {
    var c := CellAt(rs, a);
    if c.Some? then Some(WithByte(c.value, byte)) else None
  }

  /** Below `end` nothing is mapped. */
  lemma LastGap(rs: RMap, len: nat, bottom: nat, end: int, top: nat)
    requires Wf(rs) && len <= TOP && bottom <= TOP && end <= top <= TOP && (end == top || end in rs)
    requires LastBelow(rs, end).None? && forall y :: Hole(rs, y, len, bottom, top) ==> y + len <= end
    ensures var r := if end >= SatAdd(bottom, len) then Some(end - len) else None;
            HighestHole(rs, r, len, bottom, top) <==> !(bottom + len > TOP && top == TOP && |rs| == 0)
  {
    if bottom + len <= TOP {
      assert end >= bottom + len ==> Hole(rs, end - len, len, bottom, top);
    } else if end == TOP {
      assert rs.Keys == {} by {
        assert forall b :: b in rs ==> b < TOP;
      }
    } else {
      assert forall y :: !Hole(rs, y, len, bottom, top);
      assert |rs| == 0 ==> rs == map[] && end == top;
    }
  }

  /** The shared buffers after `byte` was stored into a mapped byte. */
  function PutByte(bufs: Buffers, c: Cell, byte: Byte): Buffers {
    if c.Private? then bufs else PutRun(bufs, c.buf, c.off, [byte])
  }

  function PutRun(bufs: Buffers, buf: nat, at: nat, data: seq<Byte>): Buffers {
    bufs[buf := Overwritten(BufferOf(bufs, buf), at, data)]
  }

  /** The shared buffers after `data` was stored into the bytes `cells`, one after
      the other. */
  function PutAll(bufs: Buffers, cells: seq<Option<Cell>>, data: seq<Byte>): Buffers
    requires |cells| == |data|
  {
    if data == [] then bufs
    else
      var n := |data| - 1;
      PutSome(PutAll(bufs, cells[..n], data[..n]), cells[n], data[n])
  }

  function PutSome(bufs: Buffers, c: Option<Cell>, byte: Byte): Buffers {
    if c.Some? then PutByte(bufs, c.value, byte) else bufs
  }

  predicate Names(c: Option<Cell>, buf: nat, off: nat) {
    c.Some? && c.value.Shared? && c.value.buf == buf && c.value.off == off
  }

  /** A store into private memory leaves the shared buffers alone. */
  lemma {:induction false} PutPrivate(bufs: Buffers, cells: seq<Option<Cell>>, data: seq<Byte>)
    requires |cells| == |data| && forall i :: 0 <= i < |cells| && cells[i].Some? ==> cells[i].value.Private?
    ensures PutAll(bufs, cells, data) == bufs
  {
    if data != [] {
      PutPrivate(bufs, cells[..|data| - 1], data[..|data| - 1]);
    }
  }

  lemma PutElsewhere(bufs: Buffers, c: Option<Cell>, byte: Byte, buf: nat, off: nat)
    requires !Names(c, buf, off)
    ensures BufferByte(PutSome(bufs, c, byte), buf, off) == BufferByte(bufs, buf, off)
  {
  }

  lemma PutGets(bufs: Buffers, c: Option<Cell>, byte: Byte, buf: nat, off: nat)
    requires Names(c, buf, off)
    ensures BufferByte(PutSome(bufs, c, byte), buf, off) == byte
  {
  }

  /** A store changes no place of a buffer that its bytes do not name; and a place
      that several of them name holds the last one. */
  lemma {:induction false} PutAllAt(bufs: Buffers, cells: seq<Option<Cell>>, data: seq<Byte>, k: int, buf: nat, off: nat)
    requires |cells| == |data| && -1 <= k < |data| && (k >= 0 ==> Names(cells[k], buf, off))
    requires forall i :: k < i < |cells| ==> !Names(cells[i], buf, off)
    ensures BufferByte(PutAll(bufs, cells, data), buf, off) == if k >= 0 then data[k] else BufferByte(bufs, buf, off)
    decreases |data|
  {
    if data != [] {
      var n := |data| - 1;
      var before := PutAll(bufs, cells[..n], data[..n]);
      if k < n {
        PutAllAt(bufs, cells[..n], data[..n], k, buf, off);
        PutElsewhere(before, cells[n], data[n], buf, off);
      } else {
        PutGets(before, cells[n], data[n], buf, off);
      }
    }
  }

  /** Writing a run of bytes of one buffer at once or byte by byte is the same. */
  lemma {:induction false} PutWindow(bufs: Buffers, cells: seq<Option<Cell>>, data: seq<Byte>, buf: nat, at: nat)
    requires |cells| == |data| > 0 && forall i :: 0 <= i < |cells| ==> Names(cells[i], buf, at + i)
    ensures PutAll(bufs, cells, data) == PutRun(bufs, buf, at, data)
    decreases |data|
  {
    var n := |data| - 1;
    var before := PutAll(bufs, cells[..n], data[..n]);
    assert Names(cells[n], buf, at + n);
    NamedPut(before, cells[n], data[n], buf, at + n);
    if n == 0 {
      assert data == [data[0]] && data[..0] == [] && before == bufs;
    } else {
      PutWindow(bufs, cells[..n], data[..n], buf, at);
      PutRunMore(bufs, buf, at, data);
    }
  }

  lemma NamedPut(bufs: Buffers, c: Option<Cell>, byte: Byte, buf: nat, off: nat)
    requires Names(c, buf, off)
    ensures PutSome(bufs, c, byte) == PutRun(bufs, buf, off, [byte])
  {
  }

  lemma PutRunMore(bufs: Buffers, buf: nat, at: nat, data: seq<Byte>)
    requires data != []
    ensures var n := |data| - 1;
            PutRun(PutRun(bufs, buf, at, data[..n]), buf, at + n, [data[n]]) == PutRun(bufs, buf, at, data)
  {
    OverwrittenMore(BufferOf(bufs, buf), at, data);
  }

  ghost function CellsAt(rs: RMap, addr: int, n: nat): (cells: seq<Option<Cell>>)
    requires Wf(rs)
    ensures |cells| == n
  {
    seq(n, i => CellAt(rs, addr + i))
  }

  /** The shared buffers after `data` was stored from `addr` on, in ascending order. */
  ghost function Stored(rs: RMap, bufs: Buffers, addr: int, data: seq<Byte>): Buffers
    requires Wf(rs)
  {
    PutAll(bufs, CellsAt(rs, addr, |data|), data)
  }

  lemma StoredPrivate(rs: RMap, bufs: Buffers, addr: int, data: seq<Byte>)
    requires Wf(rs) && AllPrivate(rs, addr, |data|)
    ensures Stored(rs, bufs, addr, data) == bufs
  {
    PutPrivate(bufs, CellsAt(rs, addr, |data|), data);
  }

  /** The last stored byte that names a place of a buffer is there afterwards; a
      place that none of them names is unchanged. */
  lemma StoredAt(rs: RMap, bufs: Buffers, addr: int, data: seq<Byte>, k: int, buf: nat, off: nat)
    requires Wf(rs) && -1 <= k < |data| && (k >= 0 ==> Names(CellAt(rs, addr + k), buf, off))
    requires forall a :: addr + k < a < addr + |data| ==> !Names(CellAt(rs, a), buf, off)
    ensures BufferByte(Stored(rs, bufs, addr, data), buf, off) == if k >= 0 then data[k] else BufferByte(bufs, buf, off)
  {
    PutAllAt(bufs, CellsAt(rs, addr, |data|), data, k, buf, off);
  }

  lemma StoredInside(rs: RMap, bufs: Buffers, b: int, addr: int, data: seq<Byte>)
    requires Wf(rs) && b in rs && data != [] && b <= addr && addr + |data| <= b + rs[b].len
    ensures Stored(rs, bufs, addr, data) ==
            match rs[b].backing
            case Window(buf, start) => PutRun(bufs, buf, start + (addr - b), data)
            case Pages(_, _) => bufs
  {
    if rs[b].backing.Window? {
      var cells, buf, at := CellsAt(rs, addr, |data|), rs[b].backing.buf, rs[b].backing.start + (addr - b);
      forall i | 0 <= i < |cells|
        ensures Names(cells[i], buf, at + i)
      {
        CellIs(rs, b, addr + i);
      }
      PutWindow(bufs, cells, data, buf, at);
    } else {
      InsidePrivate(rs, b, addr, |data|);
      StoredPrivate(rs, bufs, addr, data);
    }
  }

  lemma InsidePrivate(rs: RMap, b: int, addr: int, len: nat)
    requires Wf(rs) && b in rs && rs[b].backing.Pages? && b <= addr && addr + len <= b + rs[b].len
    ensures AllPrivate(rs, addr, len)
  {
    forall a | addr <= a < addr + len
      ensures CellAt(rs, a).Some? && CellAt(rs, a).value.Private?
    {
      CellIs(rs, b, a);
    }
  }

  lemma StoredMore(rs: RMap, bufs: Buffers, addr: int, data: seq<Byte>, n: nat)
    requires Wf(rs) && n < |data| && CellAt(rs, addr + n).Some?
    ensures Stored(rs, bufs, addr, data[..n + 1]) ==
            PutByte(Stored(rs, bufs, addr, data[..n]), CellAt(rs, addr + n).value, data[n])
  {
    var cells, part := CellsAt(rs, addr, n + 1), data[..n + 1];
    assert part[..n] == data[..n] && part[n] == data[n];
    assert cells[..n] == CellsAt(rs, addr, n) && cells[n] == CellAt(rs, addr + n);
    assert PutAll(bufs, cells, part) == PutSome(PutAll(bufs, cells[..n], part[..n]), cells[n], part[n]);
  }

  lemma StoredOne(rs: RMap, bufs: Buffers, p: int, byte: Byte)
    requires Wf(rs) && CellAt(rs, p).Some?
    ensures Stored(rs, bufs, p, [byte]) == PutByte(bufs, CellAt(rs, p).value, byte)
  {
    StoredMore(rs, bufs, p, [byte], 0);
    assert [byte][..1] == [byte];
  }

  lemma OverwrittenMore(b: seq<Byte>, at: nat, data: seq<Byte>)
    requires data != []
    ensures var n := |data| - 1;
            Overwritten(Overwritten(b, at, data[..n]), at + n, [data[n]]) == Overwritten(b, at, data)
  {
  }

  lemma StoreEdit(rs: RMap, b: int, addr: int, data: seq<Byte>, r: Region, rs': RMap)
    requires Wf(rs) && b in rs && b <= addr && addr + |data| <= b + rs[b].len
    requires r.Valid() && r.len == rs[b].len && rs' == rs[b := r]
    requires forall o: nat :: r.CellAt(o) ==
               if addr - b <= o < addr - b + |data| then WithByte(rs[b].CellAt(o), data[o - (addr - b)]) else rs[b].CellAt(o)
    ensures Wf(rs') && WrittenUpTo(rs, rs', addr, data, |data|)
  {
    forall a
      ensures CellAt(rs', a) == if addr <= a < addr + |data| then Written(rs, a, data[a - addr]) else CellAt(rs, a)
    {
      StoreCell(rs, b, addr - b, data, r, rs', a);
    }
    forall a | addr <= a < addr + |data|
      ensures CellAt(rs, a).Some?
    {
      CellIs(rs, b, a);
    }
  }

  lemma StoreCell(rs: RMap, b: int, off: nat, data: seq<Byte>, r: Region, rs': RMap, a: int)
    requires Wf(rs) && Wf(rs') && b in rs && off + |data| <= rs[b].len && r.Valid() && r.len == rs[b].len
    requires rs' == rs[b := r]
    requires forall o: nat :: r.CellAt(o) ==
               if off <= o < off + |data| then WithByte(rs[b].CellAt(o), data[o - off]) else rs[b].CellAt(o)
    ensures CellAt(rs', a) ==
            if b + off <= a < b + off + |data| then Written(rs, a, data[a - (b + off)]) else CellAt(rs, a)
  {
    assert forall c :: Covers(rs', c, a) <==> Covers(rs, c, a);
    if c :| Covers(rs, c, a) {
      CellIs(rs, c, a);
      CellIs(rs', c, a);
      if b + off <= a < b + off + |data| {
        OneCovers(rs, b, c, a);
      }
    }
  }

  function Marked(c: Option<Cell>): Option<Cell> {
    if c.Some? then Some(c.value.(growsDown := true)) else None
  }

  lemma MarkEdit(rs: RMap, base: int, rs': RMap)
    requires Wf(rs) && base in rs && rs' == rs[base := rs[base].(growsDown := true)]
    ensures Wf(rs')
    ensures forall a {:trigger CellAt(rs', a)} ::
              CellAt(rs', a) == if base <= a < base + rs[base].len then Marked(CellAt(rs, a)) else CellAt(rs, a)
  {
    forall a
      ensures CellAt(rs', a) == if base <= a < base + rs[base].len then Marked(CellAt(rs, a)) else CellAt(rs, a)
    {
      MarkCell(rs, base, rs', a);
    }
  }

  lemma MarkCell(rs: RMap, base: int, rs': RMap, a: int)
    requires Wf(rs) && Wf(rs') && base in rs && rs' == rs[base := rs[base].(growsDown := true)]
    ensures CellAt(rs', a) == if base <= a < base + rs[base].len then Marked(CellAt(rs, a)) else CellAt(rs, a)
  {
    assert forall c :: Covers(rs', c, a) <==> Covers(rs, c, a);
    if c :| Covers(rs, c, a) {
      CellIs(rs, c, a);
      CellIs(rs', c, a);
      if base <= a < base + rs[base].len {
        OneCovers(rs, base, c, a);
      }
    }
  }

  /** The first `n` bytes of `data` were stored and no other byte changed. */
  ghost predicate WrittenUpTo(rs: RMap, rs': RMap, addr: int, data: seq<Byte>, n: nat)
    requires Wf(rs) && Wf(rs') && n <= |data|
  {
    && (forall a :: addr <= a < addr + n ==> CellAt(rs, a).Some?)
    && (forall a {:trigger CellAt(rs', a)} :: CellAt(rs', a) ==
          if addr <= a < addr + n then Written(rs, a, data[a - addr]) else CellAt(rs, a))
  }

  lemma WrittenTracks(g: Guest, rs: RMap, g': Guest, rs': RMap, addr: int, data: seq<Byte>, n: nat, end: int)
    requires Wf(rs) && Wf(rs') && g.ram.view == ViewOf(rs) && g'.ram.view == ViewOf(rs') && g.id == g'.id
    requires n <= |data| && WrittenUpTo(rs, rs', addr, data, n) && addr + n <= end
    requires Touched(g.watch, g.dirty, g'.watch, g'.dirty, addr, end)
    ensures Tracked(g, g')
  {
    assert forall a :: !(addr <= a < end) ==> CellAt(rs', a) == CellAt(rs, a);
    TouchedTracks(g, rs, g', rs', addr, end);
  }

  lemma WrittenOneMore(rs: RMap, rs1: RMap, rs2: RMap, addr: int, data: seq<Byte>, n: nat)
    requires Wf(rs) && Wf(rs1) && Wf(rs2) && n < |data| && WrittenUpTo(rs, rs1, addr, data, n)
    requires CellAt(rs, addr + n).Some?
    requires forall a {:trigger CellAt(rs2, a)} :: CellAt(rs2, a) ==
               if a == addr + n then Written(rs1, addr + n, data[n]) else CellAt(rs1, a)
    ensures WrittenUpTo(rs, rs2, addr, data, n + 1)
  {
    assert CellAt(rs1, addr + n) == CellAt(rs, addr + n);
    forall a
      ensures CellAt(rs2, a) == if addr <= a < addr + n + 1 then Written(rs, a, data[a - addr]) else CellAt(rs, a)
    {
      assert CellAt(rs1, a) == if addr <= a < addr + n then Written(rs, a, data[a - addr]) else CellAt(rs, a);
    }
  }

  /** The regions of `moved` are in place, `d` further on, except those in
      `todo`. */
  ghost predicate Placed(was: RMap, moved: RMap, todo: set<int>, d: int, rs: RMap) {
    && (forall b :: b in rs <==> b in was || (b - d in moved && b - d !in todo))
    && (forall b :: b in rs ==> rs[b] == if b - d in moved && b - d !in todo then moved[b - d] else was[b])
  }

  lemma PlaceOne(was: RMap, moved: RMap, todo: set<int>, d: int, rs: RMap, k: int)
    requires Placed(was, moved, todo, d, rs) && k in todo && todo <= moved.Keys
    ensures Placed(was, moved, todo - {k}, d, rs[k + d := moved[k]])
  {
  }

  /** `[start, end)` is unmapped and nothing else changed. */
  ghost predicate Unmapped(rs: RMap, rs': RMap, start: int, end: int)
    requires Wf(rs) && Wf(rs')
  {
    forall a {:trigger CellAt(rs', a)} :: CellAt(rs', a) == if start <= a < end then None else CellAt(rs, a)
  }

  /** `moved` is what `[start, end)` held. */
  ghost predicate Taken(rs: RMap, moved: RMap, start: int, end: int)
    requires Wf(rs) && Wf(moved)
  {
    forall a {:trigger CellAt(moved, a)} :: CellAt(moved, a) == if start <= a < end then CellAt(rs, a) else None
  }

  /** The bytes of `moved` in `[from, from + len)` were put to `dst`. */
  ghost predicate Shifted(rs: RMap, moved: RMap, rs': RMap, from: int, len: nat, dst: int)
    requires Wf(rs) && Wf(moved) && Wf(rs')
  {
    forall a {:trigger CellAt(rs', a)} :: CellAt(rs', a) ==
      if dst <= a < dst + len then CellAt(moved, a - dst + from) else CellAt(rs, a)
  }

  /** The bytes of `[from, from + len)` are at `dst`, and the rest of the range is
      unmapped. */
  ghost predicate Remapped(rs: RMap, rs': RMap, from: int, len: nat, dst: int)
    requires Wf(rs) && Wf(rs')
  {
    forall a {:trigger CellAt(rs', a)} :: CellAt(rs', a) ==
      if dst <= a < dst + len then CellAt(rs, a - dst + from)
      else if from <= a < from + len then None
      else CellAt(rs, a)
  }

  lemma RemapCells(rs: RMap, moved: RMap, rest: RMap, free: RMap, rs': RMap, from: int, len: nat, dst: int)
    requires Wf(rs) && Wf(moved) && Wf(rest) && Wf(free) && Wf(rs')
    requires Taken(rs, moved, from, from + len) && Unmapped(rs, rest, from, from + len)
    requires Unmapped(rest, free, dst, dst + len) && Shifted(free, moved, rs', from, len, dst)
    ensures Remapped(rs, rs', from, len, dst)
  {
    forall a
      ensures CellAt(rs', a) ==
              if dst <= a < dst + len then CellAt(rs, a - dst + from)
              else if from <= a < from + len then None
              else CellAt(rs, a)
    {
      var b := a - dst + from;
      assert CellAt(moved, b) == if from <= b < from + len then CellAt(rs, b) else None;
      assert CellAt(rest, a) == if from <= a < from + len then None else CellAt(rs, a);
      assert CellAt(free, a) == if dst <= a < dst + len then None else CellAt(rest, a);
    }
  }

  lemma PlacedRelocated(was: RMap, moved: RMap, from: int, len: nat, dst: int, rs: RMap)
    requires Placed(was, moved, {}, dst - from, rs) && Wf(moved)
    requires forall b :: b in moved ==> from <= b && b + moved[b].len <= from + len
    ensures Relocated(moved, from, len, dst, was, rs)
  {
    forall b
      ensures b in rs <==> b in was || (dst <= b < dst + len && b - dst + from in moved)
      ensures b in rs ==> rs[b] == if dst <= b < dst + len && b - dst + from in moved then moved[b - dst + from] else was[b]
    {
      assert b - (dst - from) == b - dst + from;
    }
  }

  /** Where `locate` found an access. */
  datatype Located = Refused | Crossing | Inside(base: int, off: nat)

  function SatAdd(a: int, n: nat): (s: int)
    requires a <= TOP
    ensures a <= s <= TOP && s <= a + n && (s == a + n || s == TOP)
  {
    if a + n <= TOP then a + n else TOP
  }

  class UserMemory {
    var regions: RMap
    const space: int
    var watched: set<int>
    var dirty: seq<int>
    /** The shared buffers the windows look into. */
    var buffers: Buffers

    ghost predicate Valid()
      reads this
    {
      Wf(regions)
    }

    /** The address space as the JIT sees it. */
    ghost function Abs(): (g: Guest)
      reads this
      requires Valid()
    {
      Guest(space, Ram(ViewOf(regions), buffers), watched, dirty)
    }

    constructor (id: int)
      ensures Valid() && space == id && regions == map[] && watched == {} && dirty == [] && buffers == map[]
    {
      space := id;
      regions := map[];
      watched := {};
      dirty := [];
      buffers := map[];
    }

    /** A fork: same bytes, another identity, nothing watched. */
    constructor Clone(other: UserMemory, id: int)
      requires other.Valid()
      ensures Valid() && space == id && watched == {} && dirty == [] && buffers == other.buffers
      ensures forall a :: CellAt(regions, a) == CellAt(other.regions, a)
    {
      space := id;
      regions := other.regions;
      watched := {};
      dirty := [];
      buffers := other.buffers;
    }

    method WatchCode(page: int)
      modifies this`watched
      ensures watched == old(watched) + {page}
    {
      watched := watched + {page};
    }

    method TakeCodeDirty() returns (d: seq<int>)
      modifies this`dirty
      ensures d == old(dirty) && dirty == []
    {
      d := dirty;
      dirty := [];
    }

    /** True if the code at `addr` may live in a cache of translated blocks. */
    method IsPrivate(addr: int) returns (b: bool)
      requires Valid()
      ensures b <==> CellAt(regions, addr).Some? && CellAt(regions, addr).value.Private?
    {
      var f := Find(regions, addr);
      b := f.Some? && regions[f.value].backing.Pages?;
    }

    /** Marks dirty the watched pages that touch `[start, end)`: page by page
        for short ranges, by filtering the watched set for long ones. */
    method Touch(start: int, end: int)
      modifies this`watched, this`dirty
      ensures Touched(old(watched), old(dirty), watched, dirty, start, end)
    {
      if watched == {} || start >= end {
        assert Hit(watched, start, end) == {};
        return;
      }
      var first, last := start / PAGE, (end - 1) / PAGE;
      if last - first < 64 {
        TouchShort(first, last);
      } else {
        TouchLong(first, last);
      }
    }

    method TouchShort(first: int, last: int)
      requires first <= last
      modifies this`watched, this`dirty
      ensures Moved(old(watched), old(dirty), watched, dirty, PagesIn(old(watched), first, last))
    {
      ghost var w := watched;
      var p := first;
      assert PagesIn(w, first, p - 1) == {};
      while p <= last
        invariant first <= p <= last + 1
        invariant Moved(w, old(dirty), watched, dirty, PagesIn(w, first, p - 1))
      {
        if p in watched {
          MoveOne(w, old(dirty), watched, dirty, PagesIn(w, first, p - 1), p);
          watched := watched - {p};
          dirty := dirty + [p];
          assert PagesIn(w, first, p) == PagesIn(w, first, p - 1) + {p};
        } else {
          assert PagesIn(w, first, p) == PagesIn(w, first, p - 1);
        }
        p := p + 1;
      }
    }

    method TouchLong(first: int, last: int)
      modifies this`watched, this`dirty
      ensures Moved(old(watched), old(dirty), watched, dirty, PagesIn(old(watched), first, last))
    {
      ghost var w := watched;
      var hit := PagesIn(watched, first, last);
      var todo := hit;
      while todo != {}
        invariant todo <= hit
        invariant Moved(w, old(dirty), watched, dirty, hit - todo)
        decreases todo
      {
        ghost var some := Pick(todo);
        var p :| p in todo;
        MoveOne(w, old(dirty), watched, dirty, hit - todo, p);
        assert hit - (todo - {p}) == hit - todo + {p};
        todo := todo - {p};
        watched := watched - {p};
        dirty := dirty + [p];
      }
      assert hit - todo == hit;
    }

    /** `touch` for a write of `len` bytes at `addr` (saturating at the top). */
    method TouchWrite(addr: int, len: nat)
      requires 0 <= addr <= TOP
      modifies this`watched, this`dirty
      ensures Touched(old(watched), old(dirty), watched, dirty, addr, SatAdd(addr, len))
    {
      if watched != {} {
        Touch(addr, SatAdd(addr, len));
      } else {
        assert Hit(watched, addr, SatAdd(addr, len)) == {};
      }
    }

    /** True if some byte of the non-empty range `[start, end)` is mapped. */
    method Overlaps(start: int, end: int) returns (b: bool)
      requires Valid() && start < end
      ensures b <==> exists a :: start <= a < end && CellAt(regions, a).Some?
    {
      var last := LastBelow(regions, end);
      if last.None? {
        assert forall x, c :: start <= x < end ==> !Covers(regions, c, x);
        return false;
      }
      b := last.value + regions[last.value].len > start;
      if b {
        var a := if last.value < start then start else last.value;
        CellIs(regions, last.value, a);
      } else {
        forall a | start <= a < end
          ensures CellAt(regions, a).None?
        {
          assert forall c :: Covers(regions, c, a) ==> c <= last.value;
        }
      }
    }

    /** Splits the region that contains `at`, if any, so that `at` is a boundary. */
    method SplitAt(at: int)
      requires Valid()
      modifies this`regions
      ensures Valid() && Boundary(regions, at)
      ensures forall a :: CellAt(regions, a) == CellAt(old(regions), a)
      ensures forall x :: Boundary(old(regions), x) ==> Boundary(regions, x)
    {
      var last := LastBelow(regions, at);
      if last.None? {
        return;
      }
      var b := last.value;
      if at >= b + regions[b].len {
        assert forall c :: c in regions && c < at ==> c + regions[c].len <= at;
        return;
      }
      var (head, tail) := regions[b].SplitOff(at - b);
      ghost var before := regions;
      regions := regions[b := head][at := tail];
      SplitEdit(before, b, at, regions);
    }

    /** Removes every mapping in `[start, end)`. */
    method Unmap(start: int, end: int)
      requires Valid()
      modifies this`regions, this`watched, this`dirty
      ensures Valid()
      ensures Unmapped(old(regions), regions, start, end)
      ensures Touched(old(watched), old(dirty), watched, dirty, start, end)
      ensures Tracked(old(Abs()), Abs())
    {
      if start >= end {
        assert Hit(watched, start, end) == {};
        Untouched();
        return;
      }
      Touch(start, end);
      var _ := Detach(start, end);
      TouchedTracks(old(Abs()), old(regions), Abs(), regions, start, end);
    }

    /** Inserts a region over whatever `[base, base + r.len)` held. */
    method Replace(base: int, r: Region)
      requires Valid() && r.Valid() && 0 <= base && base + r.len <= TOP
      modifies this`regions, this`watched, this`dirty
      ensures Valid()
      ensures forall a :: CellAt(regions, a) ==
                if base <= a < base + r.len then Some(r.CellAt(a - base)) else CellAt(old(regions), a)
      ensures Touched(old(watched), old(dirty), watched, dirty, base, base + r.len)
      ensures Tracked(old(Abs()), Abs())
    {
      Unmap(base, base + r.len);
      Insert(base, r);
      TouchedTracks(old(Abs()), old(regions), Abs(), regions, base, base + r.len);
    }

    /** Inserts a region where nothing is mapped. */
    method Insert(base: int, r: Region)
      requires Valid() && r.Valid() && 0 <= base && base + r.len <= TOP
      requires forall a :: base <= a < base + r.len ==> CellAt(regions, a).None?
      modifies this`regions
      ensures Valid()
      ensures forall a {:trigger CellAt(regions, a)} :: CellAt(regions, a) ==
                if base <= a < base + r.len then Some(r.CellAt(a - base)) else CellAt(old(regions), a)
    {
      InsertEdit(regions, base, r, regions[base := r]);
      regions := regions[base := r];
    }

    /** Maps `data` at `base`, which must overlap nothing. */
    method Map(base: int, data: seq<Byte>, perm: Perm) returns (ok: bool)
      requires Valid() && 0 <= base <= TOP
      modifies this`regions, this`watched, this`dirty
      ensures Valid()
      ensures ok <==> data != [] && base + |data| <= TOP
                      && forall a :: base <= a < base + |data| ==> CellAt(old(regions), a).None?
      ensures forall a :: CellAt(regions, a) ==
                if ok && base <= a < base + |data| then Some(Private(data[a - base], perm, true, false))
                else CellAt(old(regions), a)
      ensures Tracked(old(Abs()), Abs())
    {
      ok := data != [] && base + |data| <= TOP;
      if ok {
        var taken := Overlaps(base, base + |data|);
        ok := !taken;
      }
      if !ok {
        Untouched();
        return;
      }
      MapFree(base, data, perm);
    }

    method MapFree(base: int, data: seq<Byte>, perm: Perm)
      requires Valid() && 0 <= base && data != [] && base + |data| <= TOP
      requires forall a :: base <= a < base + |data| ==> CellAt(regions, a).None?
      modifies this`regions, this`watched, this`dirty
      ensures Valid()
      ensures forall a :: CellAt(regions, a) ==
                if base <= a < base + |data| then Some(Private(data[a - base], perm, true, false))
                else CellAt(old(regions), a)
      ensures Tracked(old(Abs()), Abs())
    {
      Touch(base, base + |data|);
      var r := Own(data, perm);
      Insert(base, r);
      TouchedTracks(old(Abs()), old(regions), Abs(), regions, base, base + |data|);
    }

    /** `map_fixed`: like `Map`, but replaces what was there. */
    method MapFixed(base: int, data: seq<Byte>, perm: Perm)
      requires Valid() && 0 <= base && base + |data| <= TOP
      modifies this`regions, this`watched, this`dirty
      ensures Valid()
      ensures forall a :: CellAt(regions, a) ==
                if base <= a < base + |data| then Some(Private(data[a - base], perm, true, false))
                else CellAt(old(regions), a)
      ensures Tracked(old(Abs()), Abs())
    {
      if data == [] {
        Untouched();
        return;
      }
      var r := Own(data, perm);
      Replace(base, r);
    }

    method MapZeroed(base: int, len: nat, perm: Perm)
      requires Valid() && 0 <= base && base + len <= TOP
      modifies this`regions, this`watched, this`dirty
      ensures Valid()
      ensures forall a :: CellAt(regions, a) ==
                if base <= a < base + len then Some(Private(0, perm, true, false)) else CellAt(old(regions), a)
      ensures Tracked(old(Abs()), Abs())
    {
      if len == 0 {
        Untouched();
        return;
      }
      Replace(base, Zeroed(len, perm, true, false));
    }

    method MapShared(base: int, buf: nat, off: nat, len: nat, perm: Perm, mayWrite: bool)
      requires Valid() && 0 <= base && base + len <= TOP
      modifies this`regions, this`watched, this`dirty
      ensures Valid()
      ensures forall a :: CellAt(regions, a) ==
                if base <= a < base + len then Some(Shared(buf, off + (a - base), perm, mayWrite, false))
                else CellAt(old(regions), a)
      ensures Tracked(old(Abs()), Abs())
    {
      if len == 0 {
        Untouched();
        return;
      }
      Replace(base, Region(Window(buf, off), len, perm, mayWrite, false));
    }

    /** Moves the bytes of `[from, from + len)` to `dst`, replacing what was
        there. The two ranges may overlap. */
    method Remap(from: int, len: nat, dst: int)
      requires Valid() && 0 <= from && from + len <= TOP && 0 <= dst && dst + len <= TOP
      modifies this`regions, this`watched, this`dirty
      ensures Valid()
      ensures Remapped(old(regions), regions, from, len, dst)
      ensures Moved(old(watched), old(dirty), watched, dirty,
                    Hit(old(watched), from, from + len) + Hit(old(watched), dst, dst + len))
      ensures Tracked(old(Abs()), Abs())
    {
      Touch(from, SatAdd(from, len));
      ghost var w1, d1 := watched, dirty;
      Touch(dst, SatAdd(dst, len));
      ghost var w2, d2 := watched, dirty;
      Relocate(from, len, dst);
      RemapTracks(old(Abs()), old(regions), w1, d1, w2, d2, Abs(), regions, from, len, dst);
    }

    /** The part of `Remap` after both ranges have been touched. */
    method Relocate(from: int, len: nat, dst: int)
      requires Valid() && 0 <= from && from + len <= TOP && 0 <= dst && dst + len <= TOP
      modifies this`regions, this`watched, this`dirty
      ensures Valid()
      ensures Remapped(old(regions), regions, from, len, dst)
      ensures Touched(old(watched), old(dirty), watched, dirty, dst, dst + len)
    {
      ghost var rs := regions;
      var moved := Detach(from, from + len);
      ghost var rest := regions;
      Unmap(dst, dst + len);
      assert Touched(old(watched), old(dirty), watched, dirty, dst, dst + len);
      ghost var free := regions;
      PlaceAll(moved, from, len, dst);
      RemapCells(rs, moved, rest, free, regions, from, len, dst);
    }

    /** Takes the regions of `[start, end)` out of the map. */
    method Detach(start: int, end: int) returns (moved: RMap)
      requires Valid() && start <= end
      modifies this`regions
      ensures Valid() && Wf(moved)
      ensures forall b :: b in moved ==> start <= b && b + moved[b].len <= end
      ensures Taken(old(regions), moved, start, end) && Unmapped(old(regions), regions, start, end)
    {
      SplitAt(start);
      SplitAt(end);
      ghost var src := regions;
      moved := map b | b in regions && start <= b < end :: regions[b];
      KeepEdit(src, start, end, moved);
      regions := map b | b in regions && !(start <= b < end) :: regions[b];
      RemoveEdit(src, start, end, regions);
    }

    /** Inserts the moved regions at their distance from `dst`. */
    method PlaceAll(moved: RMap, from: int, len: nat, dst: int)
      requires Valid() && Wf(moved) && 0 <= dst && dst + len <= TOP
      requires forall b :: b in moved ==> from <= b && b + moved[b].len <= from + len
      requires forall a :: dst <= a < dst + len ==> CellAt(regions, a).None?
      modifies this`regions
      ensures Valid()
      ensures Shifted(old(regions), moved, regions, from, len, dst)
    {
      if len == 0 {
        return;
      }
      ghost var was := regions;
      regions := ShiftInto(regions, moved, dst - from);
      PlacedRelocated(was, moved, from, len, dst, regions);
      MoveEdit(moved, from, len, dst, was, regions);
    }

    static method ShiftInto(was: RMap, moved: RMap, d: int) returns (rs: RMap)
      ensures Placed(was, moved, {}, d, rs)
    {
      rs := was;
      var todo := moved.Keys;
      while todo != {}
        invariant todo <= moved.Keys && Placed(was, moved, todo, d, rs)
        decreases todo
      {
        ghost var some := Pick(todo);
        var k :| k in todo;
        PlaceOne(was, moved, todo, d, rs, k);
        rs := rs[k + d := moved[k]];
        todo := todo - {k};
      }
    }

    /** `remap_dontunmap`: the old range stays mapped, private bytes as zeroes.
        Its caller refuses overlapping ranges. */
    method RemapDontunmap(from: int, len: nat, dst: int)
      requires Valid() && 0 <= from && from + len <= TOP && 0 <= dst && dst + len <= TOP
      requires from + len <= dst || dst + len <= from
      modifies this`regions, this`watched, this`dirty
      ensures Valid()
      ensures forall a {:trigger CellAt(regions, a)} :: CellAt(regions, a) ==
                if dst <= a < dst + len then CellAt(old(regions), a - dst + from)
                else if from <= a < from + len then Emptied(CellAt(old(regions), a))
                else CellAt(old(regions), a)
      ensures Tracked(old(Abs()), Abs())
    {
      var left := Blanks(from, from + len);
      Remap(from, len, dst);
      PlaceAll(left, from, len, from);
      assert forall a :: !(from <= a < from + len) && !(dst <= a < dst + len) ==> CellAt(regions, a) == CellAt(old(regions), a);
      BothTracked(old(Abs()), old(regions), Abs(), regions, from, len, dst);
    }

    /** The emptied regions that stay in `[start, end)`. */
    method Blanks(start: int, end: int) returns (left: RMap)
      requires Valid() && start <= end
      modifies this`regions
      ensures Valid() && Wf(left)
      ensures forall b :: b in left ==> start <= b && b + left[b].len <= end
      ensures forall a {:trigger CellAt(left, a)} ::
                CellAt(left, a) == if start <= a < end then Emptied(CellAt(old(regions), a)) else None
      ensures forall a :: CellAt(regions, a) == CellAt(old(regions), a)
    {
      SplitAt(start);
      SplitAt(end);
      var kept := map b | b in regions && start <= b < end :: regions[b];
      KeepEdit(regions, start, end, kept);
      left := map b | b in kept :: EmptiedRegion(kept[b]);
      EmptiedEdit(kept, left);
    }

    /** Extends by `extra` bytes the region that ends at `end`, if there is one:
        a private one with zeroes, a shared one further into its buffer. */
    method Extend(end: int, extra: nat)
      requires Valid() && 0 <= end && end + extra <= TOP
      modifies this`regions, this`watched, this`dirty
      ensures Valid()
      ensures forall a {:trigger CellAt(regions, a)} :: CellAt(regions, a) ==
                if end <= a < end + extra && EndsAt(old(regions), end) then Continuation(old(regions), end, a)
                else CellAt(old(regions), a)
      ensures Tracked(old(Abs()), Abs())
    {
      var last := LastBelow(regions, end);
      if last.None? || last.value + regions[last.value].len != end || extra == 0 {
        assert EndsAt(regions, end) ==> extra == 0;
        Untouched();
        return;
      }
      var r := regions[last.value];
      var backing := match r.backing
        case Window(buf, start) => Window(buf, start + r.len)
        case Pages(_, _) => Pages(map[], 0);
      var tail := Region(backing, extra, r.perm, r.mayWrite, r.growsDown);
      ContinuationIs(regions, last.value, end, tail);
      Replace(end, tail);
    }

    lemma Untouched()
      requires Valid()
      ensures Tracked(Abs(), Abs())
    {
    }

    /** Marks the region that starts at `base` as MAP_GROWSDOWN. Its pages are not
        touched: the mark is nothing that translated code depends on. */
    method SetGrowsDown(base: int)
      requires Valid()
      modifies this`regions
      ensures Valid()
      ensures base !in old(regions) ==> regions == old(regions)
      ensures base in old(regions) ==>
                forall a {:trigger CellAt(regions, a)} :: CellAt(regions, a) ==
                  if base <= a < base + old(regions)[base].len
                  then Marked(CellAt(old(regions), a)) else CellAt(old(regions), a)
      ensures Tracked(old(Abs()), Abs())
    {
      if base !in regions {
        Untouched();
        return;
      }
      regions := regions[base := regions[base].(growsDown := true)];
      MarkEdit(old(regions), base, regions);
      assert Moved(watched, dirty, watched, dirty, {});
      MovedTracks(old(Abs()), old(regions), Abs(), regions, {});
    }

    /** An access just below a MAP_GROWSDOWN mapping extends it down to the page
        of `addr`, if the guard gap allows. */
    method GrowDown(addr: int, gap: int) returns (grown: bool)
      requires Valid() && 0 <= addr <= TOP
      modifies this`regions, this`watched, this`dirty
      ensures Valid()
      ensures grown <==> exists b :: Growable(old(regions), PageStart(addr), addr, gap, b)
      ensures forall b :: Growable(old(regions), PageStart(addr), addr, gap, b) ==>
                forall a {:trigger CellAt(regions, a)} :: CellAt(regions, a) ==
                  if PageStart(addr) <= a < b then
                    Some(Private(0, CellAt(old(regions), b).value.perm, CellAt(old(regions), b).value.mayWrite, true))
                  else CellAt(old(regions), a)
      ensures !grown ==> regions == old(regions)
      ensures Tracked(old(Abs()), Abs())
    {
      Untouched();
      var page := PageStart(addr);
      var b := GrowBase(page, addr, gap);
      if b.None? {
        return false;
      }
      Touch(page, b.value);
      var r := regions[b.value];
      CellIs(regions, b.value, b.value);
      var tail := Zeroed(b.value - page, r.perm, r.mayWrite, true);
      regions := regions[page := tail];
      InsertEdit(old(regions), page, tail, regions);
      TouchedTracks(old(Abs()), old(regions), Abs(), regions, page, b.value);
      grown := true;
    }

    /** The start of the region that `grow_down` extends. */
    method GrowBase(page: int, addr: int, gap: int) returns (r: Option<int>)
      requires Valid()
      ensures r.Some? ==> r.value in regions && Growable(regions, page, addr, gap, r.value)
      ensures forall b :: Growable(regions, page, addr, gap, b) ==> r == Some(b)
    {
      var next := FirstFrom(regions, page + 1);
      forall b | Growable(regions, page, addr, gap, b)
        ensures next == Some(b)
      {
        GrowableStarts(regions, page, addr, gap, b);
      }
      if next.None? {
        return None;
      }
      var b := next.value;
      CellIs(regions, b, b);
      if !regions[b].growsDown || addr >= b {
        return None;
      }
      var prev := LastBelow(regions, page + 1);
      if prev.Some? {
        var p := regions[prev.value];
        var pend := prev.value + p.len;
        var accessible := p.perm.read || p.perm.write || p.perm.exec;
        if pend > page || (accessible && !p.growsDown && page - pend < gap) {
          PrevBlocks(regions, page, addr, gap, b, prev.value);
          return None;
        }
      }
      GrowableNow(regions, page, addr, gap, b, prev);
      r := next;
    }

    /** True if every byte of `[start, end)` is mapped. */
    method IsMapped(start: int, end: int) returns (b: bool)
      requires Valid()
      ensures b <==> forall a :: start <= a < end ==> CellAt(regions, a).Some?
    {
      var at := start;
      while at < end
        invariant start <= at
        invariant forall a :: start <= a < at ==> CellAt(regions, a).Some?
        decreases end - at
      {
        var f := Find(regions, at);
        if f.None? {
          return false;
        }
        forall a | at <= a < f.value + regions[f.value].len
          ensures CellAt(regions, a).Some?
        {
          CellIs(regions, f.value, a);
        }
        at := f.value + regions[f.value].len;
      }
      b := true;
    }

    /** Changes the permissions of `[start, end)`; fails, changing nothing, if
        part of it is not mapped. */
    method Protect(start: int, end: int, perm: Perm) returns (r: Option<Fault>)
      requires Valid() && start <= end
      modifies this`regions, this`watched, this`dirty
      ensures Valid()
      ensures r.None? <==> forall a :: start <= a < end ==> CellAt(old(regions), a).Some?
      ensures r.None? ==>
                forall a {:trigger CellAt(regions, a)} :: CellAt(regions, a) ==
                  if start <= a < end then Reprotected(CellAt(old(regions), a), perm) else CellAt(old(regions), a)
      ensures r.Some? ==> r.value == Fault(start, Read) && Abs() == old(Abs())
      ensures Tracked(old(Abs()), Abs())
    {
      var mapped := IsMapped(start, end);
      if !mapped {
        Untouched();
        return Some(Fault(start, Read));
      }
      Touch(start, end);
      SplitAt(start);
      SplitAt(end);
      ghost var before := regions;
      regions := map b | b in regions :: if start <= b < end then regions[b].(perm := perm) else regions[b];
      ProtectEdit(before, start, end, perm, regions);
      TouchedTracks(old(Abs()), old(regions), Abs(), regions, start, end);
      r := None;
    }

    /** Searches from the top for a hole of `len` bytes within `[bottom, top)`.
        It finds the highest one exactly when the saturating sum of `bottom` and
        `len` cannot meet `top` at the end of the address range with nothing
        mapped. */
    method FindFree(len: nat, bottom: nat, top: nat) returns (r: Option<int>)
      requires Valid() && len <= TOP && bottom <= TOP && top <= TOP
      ensures HighestHole(regions, r, len, bottom, top) <==>
              !(bottom + len > TOP && top == TOP && |regions| == 0)
      ensures bottom + len > TOP && top == TOP && |regions| == 0 ==> r == Some(top - len)
    {
      var end := top;
      var next := LastBelow(regions, top);
      while next.Some?
        invariant end <= top
        invariant next == LastBelow(regions, end)
        invariant forall y :: Hole(regions, y, len, bottom, top) ==> y + len <= end
        invariant end == top || end in regions
        decreases end
      {
        var b := next.value;
        var rEnd := b + regions[b].len;
        var start := if rEnd > bottom then rEnd else bottom;
        assert |regions| != 0;
        if end >= start && end - start >= len {
          HoleBetween(regions, b, end - len, len, bottom, end, top);
          return Some(end - len);
        }
        NoneBetween(regions, b, len, bottom, end, top);
        end := b;
        if end < SatAdd(bottom, len) {
          return None;
        }
        next := LastBelow(regions, end);
      }
      r := if end >= SatAdd(bottom, len) then Some(end - len) else None;
      LastGap(regions, len, bottom, end, top);
    }

    /** Region that contains all of `[addr, addr + len)`, if it allows `a`. */
    method Locate(addr: int, len: nat, a: Access) returns (l: Located)
      requires Valid() && len > 0
      ensures l.Refused? <==> !Usable(regions, buffers, addr, a) || Spills(regions, buffers, addr, len, a)
      ensures l.Inside? ==>
                && l.base in regions && l.off == addr - l.base && l.off + len <= regions[l.base].len
                && forall x :: addr <= x < addr + len ==> Covers(regions, l.base, x) && Usable(regions, buffers, x, a)
    {
      var f := Find(regions, addr);
      if f.None? {
        return Refused;
      }
      var r := regions[f.value];
      var off := addr - f.value;
      PastEndBeyond(r, off, len - 1, buffers);
      if !r.perm.Allows(a) || r.PastEnd(off + len - 1, buffers) {
        return Refused;
      }
      if off + len <= r.len {
        InsideUsable(regions, buffers, f.value, addr, len, a);
        l := Inside(f.value, off);
      } else {
        l := Crossing;
      }
    }

    /** Checks byte by byte a range that crosses several regions. The byte at
        `TOP` is never mapped, so a range that wraps around always faults. */
    method CheckSlow(addr: int, len: nat, a: Access) returns (r: Option<Fault>)
      requires Valid() && 0 <= addr <= TOP
      ensures BytewiseAnswer(regions, buffers, addr, len, a, r)
      ensures r.None? ==> addr + len <= TOP
    {
      var k := 0;
      while k < len
        invariant 0 <= k <= len && addr + k <= TOP
        invariant forall x :: addr <= x < addr + k ==> Usable(regions, buffers, x, a)
      {
        var p := (addr + k) % (TOP + 1);
        assert p == addr + k;
        var ok := CheckByte(p, a);
        if !ok {
          return Some(Fault(p, a));
        }
        k := k + 1;
      }
      r := None;
    }

    method CheckByte(p: int, a: Access) returns (ok: bool)
      requires Valid()
      ensures ok <==> Usable(regions, buffers, p, a)
      ensures ok ==> p < TOP
    {
      var f := Find(regions, p);
      if f.Some? {
        PastEndBeyond(regions[f.value], p - f.value, 0, buffers);
      }
      ok := f.Some? && regions[f.value].perm.Allows(a) && !regions[f.value].PastEnd(p - f.value, buffers);
    }

    /** What a successful read returns for byte `a`. */
    ghost function Loaded(a: int): Option<Byte>
      reads this
      requires Valid()
    {
      match CellAt(regions, a)
      case None => None
      case Some(c) => Some(ByteOf(c, buffers))
    }

    /** `bytes` is what an allowed access finds at `addr`. */
    ghost predicate Found(addr: int, bytes: seq<Byte>)
      reads this
      requires Valid()
    {
      forall k :: 0 <= k < |bytes| ==> Loaded(addr + k) == Some(bytes[k])
    }

    /** What an instruction can find out about memory depends on `Abs().ram` alone. */
    lemma RamDecides(other: UserMemory, addr: int, len: nat, access: Access)
      requires Valid() && other.Valid() && Abs().ram == other.Abs().ram
      ensures Loaded(addr) == other.Loaded(addr) == Load(Abs().ram, addr)
      ensures Usable(regions, buffers, addr, access) <==> Usable(other.regions, other.buffers, addr, access)
      ensures Spills(regions, buffers, addr, len, access) <==> Spills(other.regions, other.buffers, addr, len, access)
    {
      ViewIs(regions, addr);
      ViewIs(other.regions, addr);
    }

    /** `Memory::read`, through one region or byte by byte. */
    method ReadBytes(addr: int, buf: array<Byte>, access: Access) returns (r: Option<Fault>)
      requires Valid() && 0 <= addr <= TOP
      modifies buf
      ensures Answer(regions, buffers, addr, buf.Length, access, r)
      ensures r.None? ==> Permitted(regions, addr, buf.Length, access)
      ensures Permitted(regions, addr, buf.Length, access) && AllPrivate(regions, addr, buf.Length) ==> r.None?
      ensures r.None? ==> Found(addr, buf[..])
      ensures r.Some? ==> buf[..] == old(buf[..])
    {
      r := ReadAll(addr, buf, access);
      AnswerPermits(regions, buffers, addr, buf.Length, access, r);
    }

    method ReadAll(addr: int, buf: array<Byte>, access: Access) returns (r: Option<Fault>)
      requires Valid() && 0 <= addr <= TOP
      modifies buf
      ensures Answer(regions, buffers, addr, buf.Length, access, r)
      ensures r.None? ==> Found(addr, buf[..])
      ensures r.Some? ==> buf[..] == old(buf[..])
    {
      if buf.Length == 0 {
        return None;
      }
      var l := Locate(addr, buf.Length, access);
      match l {
        case Refused =>
          return Some(Fault(addr, access));
        case Inside(b, off) =>
          ReadInside(b, addr, buf);
          return None;
        case Crossing =>
          r := CheckSlow(addr, buf.Length, access);
          if r.Some? {
            return;
          }
          ReadEach(addr, buf, access);
      }
    }

    method ReadInside(b: int, addr: int, buf: array<Byte>)
      requires Valid() && b in regions && b <= addr && addr + buf.Length <= b + regions[b].len
      modifies buf
      ensures Found(addr, buf[..])
    {
      ReadRegion(regions[b], buffers, addr - b, buf);
      forall k | 0 <= k < buf.Length
        ensures Loaded(addr + k) == Some(buf[k])
      {
        CellIs(regions, b, addr + k);
      }
    }

    method ReadEach(addr: int, buf: array<Byte>, ghost access: Access)
      requires Valid() && 0 <= addr && addr + buf.Length <= TOP
      requires forall a :: addr <= a < addr + buf.Length ==> Usable(regions, buffers, a, access)
      modifies buf
      ensures Found(addr, buf[..])
    {
      var k := 0;
      while k < buf.Length
        invariant 0 <= k <= buf.Length
        invariant Found(addr, buf[..k])
      {
        var p := (addr + k) % (TOP + 1);
        assert p == addr + k && Usable(regions, buffers, p, access);
        buf[k] := ReadOne(p);
        k := k + 1;
      }
      assert buf[..k] == buf[..];
    }

    method ReadOne(p: int) returns (byte: Byte)
      requires Valid() && CellAt(regions, p).Some?
      ensures Loaded(p) == Some(byte)
    {
      var f := Find(regions, p);
      var one := new Byte[1];
      ReadInside(f.value, p, one);
      assert Loaded(p + 0) == Some(one[..][0]);
      byte := one[0];
    }

    /** `Memory::fetch`: the word in memory, or a fault. On private code it is the
        word the translator would read, and a fault exactly when there is none. */
    method FetchWord(addr: int) returns (w: Word, fault: Option<Fault>)
      requires Valid() && 0 <= addr <= TOP
      ensures Answer(regions, buffers, addr, 4, Fetch, fault)
      ensures fault.None? ==> forall a :: addr <= a < addr + 4 ==>
                CellAt(regions, a).Some? && CellAt(regions, a).value.perm.exec
      ensures (&& AllPrivate(regions, addr, 4)
               && forall a :: addr <= a < addr + 4 ==>
                    CellAt(regions, a).Some? && CellAt(regions, a).value.perm.exec) ==> fault.None?
      ensures fault.None? ==> HoldsWord(addr, w)
      ensures AllPrivate(regions, addr, 4) ==>
                CodeWord(ViewOf(regions), addr) == if fault.None? then Some(w) else None
    {
      var buf := new Byte[4];
      fault := ReadBytes(addr, buf, Fetch);
      w := LittleEndian(buf[0], buf[1], buf[2], buf[3]);
      if fault.None? {
        FoundWord(addr, buf[..]);
      }
      if AllPrivate(regions, addr, 4) {
        if fault.Some? {
          NoCode(addr, fault.value.addr);
        } else {
          FoundCode(addr, buf[..]);
        }
      }
    }

    /** Memory holds the word `w` at `addr`, lowest byte first. */
    ghost predicate HoldsWord(addr: int, w: Word)
      reads this
      requires Valid()
    {
      && Loaded(addr) == Some(w % 0x100) && Loaded(addr + 1) == Some(w / 0x100 % 0x100)
      && Loaded(addr + 2) == Some(w / 0x1_0000 % 0x100) && Loaded(addr + 3) == Some(w / 0x100_0000)
    }

    lemma FoundWord(addr: int, bytes: seq<Byte>)
      requires Valid() && |bytes| == 4 && Found(addr, bytes)
      ensures HoldsWord(addr, LittleEndian(bytes[0], bytes[1], bytes[2], bytes[3]))
    {
      assert Loaded(addr + 0) == Some(bytes[0]) && Loaded(addr + 1) == Some(bytes[1]);
      assert Loaded(addr + 2) == Some(bytes[2]) && Loaded(addr + 3) == Some(bytes[3]);
      WordBytes(bytes[0], bytes[1], bytes[2], bytes[3]);
    }

    static lemma WordBytes(b0: Byte, b1: Byte, b2: Byte, b3: Byte)
      ensures var w := LittleEndian(b0, b1, b2, b3);
              w % 0x100 == b0 && w / 0x100 % 0x100 == b1 && w / 0x1_0000 % 0x100 == b2 && w / 0x100_0000 == b3
    {
      var w: int := LittleEndian(b0, b1, b2, b3);
      assert w / 0x100 == b1 + 0x100 * b2 + 0x1_0000 * b3;
      assert w / 0x1_0000 == b2 + 0x100 * b3;
    }

    lemma NoCode(addr: int, at: int)
      requires Valid() && AllPrivate(regions, addr, 4)
      requires addr <= at < addr + 4 && !Usable(regions, buffers, at, Fetch)
      ensures CodeWord(ViewOf(regions), addr).None?
    {
      ViewIs(regions, at);
      BadByte(ViewOf(regions), addr, at);
    }

    static lemma BadByte(v: View, addr: int, at: int)
      requires addr <= at < addr + 4 && !CodeByte(v, at)
      ensures CodeWord(v, addr).None?
    {
      assert at == addr || at == addr + 1 || at == addr + 2 || at == addr + 3;
    }

    lemma FoundCode(addr: int, bytes: seq<Byte>)
      requires Valid() && |bytes| == 4 && Found(addr, bytes) && AllPrivate(regions, addr, 4)
      requires forall a :: addr <= a < addr + 4 ==> Usable(regions, buffers, a, Fetch)
      ensures CodeWord(ViewOf(regions), addr) == Some(LittleEndian(bytes[0], bytes[1], bytes[2], bytes[3]))
    {
      forall k: nat | k < 4
        ensures HoldsCode(ViewOf(regions), addr, bytes, k)
      {
        FoundByte(addr, bytes, k);
      }
      FourBytes(ViewOf(regions), addr, bytes);
    }

    static predicate HoldsCode(v: View, addr: int, bytes: seq<Byte>, k: nat)
      requires k < |bytes|
    {
      CodeByte(v, addr + k) && v[addr + k].byte == bytes[k]
    }

    static lemma FourBytes(v: View, addr: int, bytes: seq<Byte>)
      requires |bytes| == 4 && forall k: nat :: k < 4 ==> HoldsCode(v, addr, bytes, k)
      ensures CodeWord(v, addr) == Some(LittleEndian(bytes[0], bytes[1], bytes[2], bytes[3]))
    {
      assert HoldsCode(v, addr, bytes, 0) && HoldsCode(v, addr, bytes, 1);
      assert HoldsCode(v, addr, bytes, 2) && HoldsCode(v, addr, bytes, 3);
    }

    lemma FoundByte(addr: int, bytes: seq<Byte>, k: nat)
      requires Valid() && k < |bytes| && Found(addr, bytes) && AllPrivate(regions, addr, |bytes|)
      requires Usable(regions, buffers, addr + k, Fetch)
      ensures HoldsCode(ViewOf(regions), addr, bytes, k)
    {
      var a := addr + k;
      ViewIs(regions, a);
      assert CellAt(regions, a).value.Private? && Loaded(a) == Some(bytes[k]);
    }

    /** Stores `byte` at the mapped address `p`. */
    method StoreByte(p: int, byte: Byte)
      requires Valid() && CellAt(regions, p).Some?
      modifies this`regions, this`buffers
      ensures Valid()
      ensures forall a {:trigger CellAt(regions, a)} :: CellAt(regions, a) ==
                if a == p then Written(old(regions), p, byte) else CellAt(old(regions), a)
      ensures buffers == PutByte(old(buffers), CellAt(old(regions), p).value, byte)
    {
      var f := Find(regions, p);
      StoreIn(f.value, p, [byte]);
      StoredOne(old(regions), old(buffers), p, byte);
    }

    /** Stores `data` inside one region. */
    method StoreIn(b: int, addr: int, data: seq<Byte>)
      requires Valid() && b in regions && b <= addr && addr + |data| <= b + regions[b].len && data != []
      modifies this`regions, this`buffers
      ensures Valid()
      ensures WrittenUpTo(old(regions), regions, addr, data, |data|)
      ensures buffers == Stored(old(regions), old(buffers), addr, data)
    {
      var r, bufs := WriteRegion(regions[b], buffers, addr - b, data);
      StoredInside(regions, buffers, b, addr, data);
      regions := regions[b := r];
      buffers := bufs;
      StoreEdit(old(regions), b, addr, data, r, regions);
    }

    /** `Memory::write`. Nothing changes on a fault. */
    method WriteBytes(addr: int, data: seq<Byte>) returns (r: Option<Fault>)
      requires Valid() && 0 <= addr <= TOP
      modifies this`regions, this`buffers, this`watched, this`dirty
      ensures Valid()
      ensures Answer(old(regions), old(buffers), addr, |data|, Write, r)
      ensures r.None? ==> forall a :: addr <= a < addr + |data| ==>
                CellAt(old(regions), a).Some? && CellAt(old(regions), a).value.perm.write
      ensures (&& AllPrivate(old(regions), addr, |data|)
               && forall a :: addr <= a < addr + |data| ==>
                    CellAt(old(regions), a).Some? && CellAt(old(regions), a).value.perm.write) ==> r.None?
      ensures r.Some? ==> Abs() == old(Abs())
      ensures r.None? ==> WrittenUpTo(old(regions), regions, addr, data, |data|)
      ensures r.None? ==> buffers == Stored(old(regions), old(buffers), addr, data)
      ensures AllPrivate(old(regions), addr, |data|) ==> buffers == old(buffers)
      ensures Tracked(old(Abs()), Abs())
    {
      r := WriteAll(addr, data);
      AnswerPermits(old(regions), old(buffers), addr, |data|, Write, r);
      if r.None? && AllPrivate(old(regions), addr, |data|) {
        StoredPrivate(old(regions), old(buffers), addr, data);
      }
    }

    method WriteAll(addr: int, data: seq<Byte>) returns (r: Option<Fault>)
      requires Valid() && 0 <= addr <= TOP
      modifies this`regions, this`buffers, this`watched, this`dirty
      ensures Valid()
      ensures Answer(old(regions), old(buffers), addr, |data|, Write, r)
      ensures r.Some? ==> Abs() == old(Abs())
      ensures r.None? ==> WrittenUpTo(old(regions), regions, addr, data, |data|)
      ensures r.None? ==> buffers == Stored(old(regions), old(buffers), addr, data)
      ensures Tracked(old(Abs()), Abs())
    {
      Untouched();
      if data == [] {
        return None;
      }
      var l := Locate(addr, |data|, Write);
      match l {
        case Refused =>
          r := Some(Fault(addr, Write));
        case Inside(b, off) =>
          r := None;
          CellIs(regions, b, addr + |data| - 1);
          WriteInside(b, addr, data);
        case Crossing =>
          r := CheckSlow(addr, |data|, Write);
          if r.None? {
            WriteEach(addr, data);
          }
      }
    }

    method WriteInside(b: int, addr: int, data: seq<Byte>)
      requires Valid() && b in regions && 0 <= b <= addr && addr + |data| <= b + regions[b].len && data != []
      modifies this`regions, this`buffers, this`watched, this`dirty
      ensures Valid()
      ensures WrittenUpTo(old(regions), regions, addr, data, |data|)
      ensures buffers == Stored(old(regions), old(buffers), addr, data)
      ensures Tracked(old(Abs()), Abs())
    {
      StoreIn(b, addr, data);
      TouchWrite(addr, |data|);
      WrittenTracks(old(Abs()), old(regions), Abs(), regions, addr, data, |data|, SatAdd(addr, |data|));
    }

    method WriteEach(addr: int, data: seq<Byte>)
      requires Valid() && 0 <= addr && addr + |data| <= TOP
      requires forall a :: addr <= a < addr + |data| ==> Usable(regions, buffers, a, Write)
      modifies this`regions, this`buffers, this`watched, this`dirty
      ensures Valid()
      ensures WrittenUpTo(old(regions), regions, addr, data, |data|)
      ensures buffers == Stored(old(regions), old(buffers), addr, data)
      ensures Tracked(old(Abs()), Abs())
    {
      TouchWrite(addr, |data|);
      var n := StoreEach(addr, data);
      assert n < |data| ==> Usable(old(regions), old(buffers), addr + n, Write);
      assert n == |data| && data[..n] == data;
      WrittenTracks(old(Abs()), old(regions), Abs(), regions, addr, data, |data|, SatAdd(addr, |data|));
    }

    /** Stores byte by byte until one is not mapped; returns how many it stored. */
    method StoreEach(addr: int, data: seq<Byte>) returns (n: nat)
      requires Valid() && 0 <= addr <= TOP
      modifies this`regions, this`buffers
      ensures Valid()
      ensures n <= |data| && addr + n <= TOP
      ensures n < |data| ==> CellAt(old(regions), addr + n).None?
      ensures WrittenUpTo(old(regions), regions, addr, data, n)
      ensures buffers == Stored(old(regions), old(buffers), addr, data[..n])
    {
      n := 0;
      ghost var rs, bufs := regions, buffers;
      while n < |data|
        invariant Valid()
        invariant n <= |data| && addr + n <= TOP
        invariant WrittenUpTo(rs, regions, addr, data, n)
        invariant buffers == Stored(rs, bufs, addr, data[..n])
      {
        var p := (addr + n) % (TOP + 1);
        var mapped := StoreNext(rs, bufs, addr, data, n, p);
        if !mapped {
          return;
        }
        n := n + 1;
      }
    }

    method StoreNext(ghost rs: RMap, ghost bufs: Buffers, addr: int, data: seq<Byte>, n: nat,
                     p: int) returns (mapped: bool)
      requires Valid() && Wf(rs) && n < |data| && p == addr + n && WrittenUpTo(rs, regions, addr, data, n)
      requires buffers == Stored(rs, bufs, addr, data[..n])
      modifies this`regions, this`buffers
      ensures Valid() && (mapped <==> CellAt(rs, p).Some?)
      ensures mapped ==> p < TOP && WrittenUpTo(rs, regions, addr, data, n + 1)
      ensures mapped ==> buffers == Stored(rs, bufs, addr, data[..n + 1])
      ensures !mapped ==> regions == old(regions) && buffers == old(buffers)
    {
      assert CellAt(regions, p) == CellAt(rs, p);
      var f := Find(regions, p);
      mapped := f.Some?;
      if mapped {
        StoreByte(p, data[n]);
        WrittenOneMore(rs, old(regions), regions, addr, data, n);
        StoredMore(rs, bufs, addr, data, n);
      }
    }

    /** `poke`: a write that ignores permissions and stops at the first unmapped
        byte, keeping what it already wrote. */
    method Poke(addr: int, data: seq<Byte>) returns (r: Option<Fault>)
      requires Valid() && 0 <= addr <= TOP
      modifies this`regions, this`buffers, this`watched, this`dirty
      ensures Valid()
      ensures r.None? <==> forall a :: addr <= a < addr + |data| ==> CellAt(old(regions), a).Some?
      ensures r.Some? ==>
                && r.value.access == Write && addr <= r.value.addr < addr + |data|
                && CellAt(old(regions), r.value.addr).None?
      ensures WrittenUpTo(old(regions), regions, addr, data, if r.None? then |data| else r.value.addr - addr)
      ensures buffers == Stored(old(regions), old(buffers), addr, if r.None? then data else data[..r.value.addr - addr])
      ensures AllPrivate(old(regions), addr, |data|) ==> buffers == old(buffers)
      ensures Tracked(old(Abs()), Abs())
    {
      ghost var rs := regions;
      TouchWrite(addr, |data|);
      var n := StoreEach(addr, data);
      assert WrittenUpTo(rs, regions, addr, data, n);
      r := None;
      if n < |data| {
        var at := addr + n;
        assert CellAt(rs, at).None? && addr <= at < addr + |data|;
        r := Some(Fault(at, Write));
      }
      assert n == if r.None? then |data| else r.value.addr - addr;
      assert data[..|data|] == data;
      if AllPrivate(old(regions), addr, |data|) {
        StoredPrivate(old(regions), old(buffers), addr, data[..n]);
      }
      WrittenTracks(old(Abs()), old(regions), Abs(), regions, addr, data, n, SatAdd(addr, |data|));
    }
  }

  /** With nothing mapped, a search for 16 bytes at the last 8 addresses reports
      a place below the bottom instead of none. */
  method FindFreeBelowBottom() returns (r: Option<int>)
    ensures r == Some(TOP - 16)
    ensures !HighestHole(map[], r, 16, TOP - 8, TOP)
  {
    var m := new UserMemory(1);
    r := m.FindFree(16, TOP - 8, TOP);
  }
}
