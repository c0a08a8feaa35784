/** One region of a user address space (`Region` of `mem.rs`): lazily allocated
    private pages, or a window on a shared buffer. */
module Regions {
  import opened AddressSpace

  datatype Backing =
    /** Only written pages exist, the others read as zero. Byte `off` of the
        region is byte `base + off` of the page run. */
    | Pages(pages: map<nat, seq<Byte>>, base: nat)
    /** MAP_SHARED: byte `off` is byte `base + off` of buffer `buf`. */
    | Window(buf: nat, start: nat)

  function PageStart(addr: int): (start: int)
    ensures start % PAGE == 0 && start <= addr < start + PAGE
  {
    addr - addr % PAGE
  }

  lemma PageStartUp(x: int, y: int)
    requires x <= y
    ensures PageStart(x) <= PageStart(y)
  {
    assert PageStart(x) == x / PAGE * PAGE && PageStart(y) == y / PAGE * PAGE;
  }

  function BufferOf(buffers: Buffers, buf: nat): seq<Byte> {
    if buf in buffers then buffers[buf] else []
  }

  predicate WholePages(pages: map<nat, seq<Byte>>) {
    forall p :: p in pages ==> |pages[p]| == PAGE
  }

  /** Byte `abs` of a run of lazily allocated pages. */
  function PageByte(pages: map<nat, seq<Byte>>, abs: nat): Byte
    requires WholePages(pages)
  {
    if abs / PAGE in pages then pages[abs / PAGE][abs % PAGE] else 0
  }

  datatype Region = Region(backing: Backing, len: nat, perm: Perm, mayWrite: bool, growsDown: bool) {
    predicate Valid() {
      && len > 0
      && (backing.Pages? ==> WholePages(backing.pages))
    }

    function CellAt(off: nat): (c: Cell)
      requires Valid()
    {
      match backing
      case Pages(pages, base) => Private(PageByte(pages, base + off), perm, mayWrite, growsDown)
      case Window(buf, start) => Shared(buf, start + off, perm, mayWrite, growsDown)
    }

    lemma PermOnly(off: nat, p: Perm)
      requires Valid()
      ensures this.(perm := p).Valid() && this.(perm := p).CellAt(off) == CellAt(off).(perm := p)
    {
    }

    /** Splits `k` bytes from the start. The page that straddles the cut, if it
        exists, ends up in both halves. */
    function SplitOff(k: nat): (r: (Region, Region))
      requires Valid() && 0 < k < len
      ensures r.0.Valid() && r.1.Valid()
      ensures r.0.len == k && r.1.len == len - k
      ensures forall o: nat :: o < k ==> r.0.CellAt(o) == CellAt(o)
      ensures forall o: nat :: r.1.CellAt(o) == CellAt(k + o)
    {
      match backing
      case Window(buf, start) =>
        (this.(len := k), this.(backing := Window(buf, start + k), len := len - k))
      case Pages(pages, base) =>
        var abs := base + k;
        var first := abs / PAGE;
        var tail := map p | p in pages && p >= first :: pages[p];
        var low := map p | p in pages && p < first :: pages[p];
        var head := if abs % PAGE != 0 && first in tail then low[first := tail[first]] else low;
        SplitBytes(pages, head, tail, abs);
        (this.(backing := Pages(head, base), len := k),
         this.(backing := Pages(tail, abs), len := len - k))
    }

    /** True if byte `off` lies in a page that starts beyond the end of the
        shared buffer (SIGBUS on Linux). */
    predicate PastEnd(off: nat, buffers: Buffers) {
      match backing
      case Window(buf, start) => PageStart(start + off) >= |BufferOf(buffers, buf)|
      case Pages(_, _) => false
    }
  }

  lemma SplitBytes(pages: map<nat, seq<Byte>>, head: map<nat, seq<Byte>>, tail: map<nat, seq<Byte>>, abs: nat)
    requires WholePages(pages)
    requires tail == map p | p in pages && p >= abs / PAGE :: pages[p]
    requires head.Keys <= pages.Keys && forall p :: p in head ==> head[p] == pages[p]
    requires forall p :: p in pages && p < abs / PAGE ==> p in head
    requires abs % PAGE != 0 && abs / PAGE in pages ==> abs / PAGE in head
    ensures WholePages(head) && WholePages(tail)
    ensures forall x: nat :: x < abs ==> PageByte(head, x) == PageByte(pages, x)
    ensures forall x: nat :: x >= abs ==> PageByte(tail, x) == PageByte(pages, x)
  {
  }

  /** A private region holding `data`; all-zero pages are not allocated. */
  method Own(data: seq<Byte>, perm: Perm) returns (r: Region)
    requires data != []
    ensures r.Valid() && r.len == |data|
    ensures r.backing.Pages? && r.perm == perm && r.mayWrite && !r.growsDown
    ensures forall o: nat :: o < |data| ==> r.CellAt(o) == Private(data[o], perm, true, false)
  {
    var pages: map<nat, seq<Byte>> := map[];
    var i := 0;
    while i * PAGE < |data|
      invariant WholePages(pages)
      invariant forall p :: p in pages ==> p < i
      invariant forall o: nat :: o < |data| && o < i * PAGE ==> PageByte(pages, o) == data[o]
      decreases |data| - i * PAGE
    {
      var lo := i * PAGE;
      var hi := if lo + PAGE < |data| then lo + PAGE else |data|;
      var chunk := data[lo..hi];
      if exists k :: 0 <= k < |chunk| && chunk[k] != 0 {
        pages := pages[i := chunk + Zeros(PAGE - |chunk|)];
      }
      forall o: nat | o < |data| && lo <= o < lo + PAGE
        ensures PageByte(pages, o) == data[o]
      {
        assert o / PAGE == i && o % PAGE == o - lo;
        assert chunk[o - lo] == data[o];
      }
      i := i + 1;
    }
    r := Region(Pages(pages, 0), |data|, perm, true, false);
  }

  function Zeros(n: nat): (s: seq<Byte>)
    ensures |s| == n && forall i :: 0 <= i < n ==> s[i] == 0
  {
    seq(n, _ => 0)
  }

  /** A private region of zeroes that allocates nothing. */
  function Zeroed(len: nat, perm: Perm, mayWrite: bool, growsDown: bool): (r: Region)
    requires len > 0
    ensures r.Valid()
    ensures forall o: nat :: r.CellAt(o) == Private(0, perm, mayWrite, growsDown)
  {
    Region(Pages(map[], 0), len, perm, mayWrite, growsDown)
  }

  /** What reading byte `off` of a region gives. */
  function Content(r: Region, buffers: Buffers, off: nat): (b: Byte)
    requires r.Valid()
  {
    ByteOf(r.CellAt(off), buffers)
  }

  /** `Region::read`: page by page for private memory. */
  method ReadRegion(r: Region, buffers: Buffers, off: nat, out: array<Byte>)
    requires r.Valid()
    modifies out
    ensures forall i :: 0 <= i < out.Length ==> out[i] == Content(r, buffers, off + i)
  {
    match r.backing {
      case Pages(pages, base) =>
        var done := 0;
        while done < out.Length
          invariant 0 <= done <= out.Length
          invariant forall i :: 0 <= i < done ==> out[i] == PageByte(pages, base + off + i)
        {
          var abs := base + off + done;
          var pi, po := abs / PAGE, abs % PAGE;
          var n := if PAGE - po < out.Length - done then PAGE - po else out.Length - done;
          if pi in pages {
            forall k | 0 <= k < n { out[done + k] := pages[pi][po + k]; }
          } else {
            forall k | 0 <= k < n { out[done + k] := 0; }
          }
          forall i | done <= i < done + n
            ensures out[i] == PageByte(pages, base + off + i)
          {
            var k := i - done;
            SamePage(abs, k);
            assert out[done + k] == PageByte(pages, abs + k);
          }
          done := done + n;
        }
      case Window(buf, start) =>
        forall i | 0 <= i < out.Length { out[i] := BufferByte(buffers, buf, start + off + i); }
    }
  }

  lemma SamePage(abs: nat, k: nat)
    requires abs % PAGE + k < PAGE
    ensures (abs + k) / PAGE == abs / PAGE && (abs + k) % PAGE == abs % PAGE + k
  {
  }

  /** `resize` to at least `n` bytes. */
  function Grown(b: seq<Byte>, n: nat): (r: seq<Byte>)
    ensures |r| >= |b| && |r| >= n && b <= r
    ensures forall i :: |b| <= i < |r| ==> r[i] == 0
  {
    if |b| < n then b + Zeros(n - |b|) else b
  }

  /** A buffer after `data` was written from `at` on; it grows as needed. */
  function Overwritten(b: seq<Byte>, at: nat, data: seq<Byte>): seq<Byte> {
    var g := Grown(b, at + |data|);
    g[..at] + data + g[at + |data|..]
  }

  lemma OverwrittenByte(buffers: Buffers, buf: nat, at: nat, data: seq<Byte>, i: nat)
    ensures BufferByte(buffers[buf := Overwritten(BufferOf(buffers, buf), at, data)], buf, i) ==
            if at <= i < at + |data| then data[i - at] else BufferByte(buffers, buf, i)
  {
  }

  /** `Region::write`: page by page for private memory (pages appear when they
      are written), growing the buffer for shared memory. */
  method WriteRegion(r: Region, buffers: Buffers, off: nat, data: seq<Byte>)
    returns (r': Region, buffers': Buffers)
    requires r.Valid()
    ensures r'.Valid() && r' == r.(backing := r'.backing)
    ensures forall o: nat :: r'.CellAt(o) ==
              if off <= o < off + |data| then WithByte(r.CellAt(o), data[o - off]) else r.CellAt(o)
    ensures r.backing.Pages? ==> buffers' == buffers
    ensures forall o: nat :: Content(r', buffers', o) ==
              if off <= o < off + |data| then data[o - off] else Content(r, buffers, o)
    ensures r.backing.Window? ==>
              var buf := r.backing.buf;
              && r' == r
              && buffers' == buffers[buf := Overwritten(BufferOf(buffers, buf), r.backing.start + off, data)]
  {
    buffers' := buffers;
    match r.backing {
      case Pages(pages, base) =>
        var pages' := WritePages(pages, base + off, data);
        r' := r.(backing := Pages(pages', base));
        forall o: nat
          ensures r'.CellAt(o) ==
                  if off <= o < off + |data| then WithByte(r.CellAt(o), data[o - off]) else r.CellAt(o)
        {
          assert PageByte(pages', base + o) ==
                 if base + off <= base + o < base + off + |data| then data[base + o - (base + off)]
                 else PageByte(pages, base + o);
        }
      case Window(buf, start) =>
        buffers' := buffers[buf := Overwritten(BufferOf(buffers, buf), start + off, data)];
        r' := r;
        forall o: nat
          ensures Content(r', buffers', o) == if off <= o < off + |data| then data[o - off] else Content(r, buffers, o)
        {
          OverwrittenByte(buffers, buf, start + off, data, start + o);
        }
    }
  }

  method WritePages(pages: map<nat, seq<Byte>>, at: nat, data: seq<Byte>) returns (pages': map<nat, seq<Byte>>)
    requires WholePages(pages)
    ensures WholePages(pages')
    ensures forall x: nat :: PageByte(pages', x) ==
              if at <= x < at + |data| then data[x - at] else PageByte(pages, x)
  {
    pages' := pages;
    var done := 0;
    while done < |data|
      invariant 0 <= done <= |data|
      invariant WholePages(pages')
      invariant forall x: nat :: PageByte(pages', x) ==
                  if at <= x < at + done then data[x - at] else PageByte(pages, x)
    {
      var abs := at + done;
      var pi, po := abs / PAGE, abs % PAGE;
      var n := if PAGE - po < |data| - done then PAGE - po else |data| - done;
      var p := if pi in pages' then pages'[pi] else Zeros(PAGE);
      ghost var before := pages';
      pages' := pages'[pi := p[..po] + data[done..done + n] + p[po + n..]];
      forall x: nat
        ensures PageByte(pages', x) ==
                if at <= x < at + done + n then data[x - at] else PageByte(pages, x)
      {
        ChunkByte(before, pages', p, abs, data[done..done + n], x);
      }
      done := done + n;
    }
  }

  /** Replacing `chunk` inside one page changes exactly those bytes. */
  lemma ChunkByte(before: map<nat, seq<Byte>>, after: map<nat, seq<Byte>>, p: seq<Byte>, abs: nat,
                  chunk: seq<Byte>, x: nat)
    requires WholePages(before) && |p| == PAGE && abs % PAGE + |chunk| <= PAGE
    requires p == if abs / PAGE in before then before[abs / PAGE] else Zeros(PAGE)
    requires after == before[abs / PAGE := p[..abs % PAGE] + chunk + p[abs % PAGE + |chunk|..]]
    ensures WholePages(after)
    ensures PageByte(after, x) == if abs <= x < abs + |chunk| then chunk[x - abs] else PageByte(before, x)
  {
  }
}
