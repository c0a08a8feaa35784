/** The map of disjoint regions behind an address space (the `regions` of
    `UserMemory`), what it means as a flat map of bytes, and the effect of the
    elementary edits: split, remove, insert, re-protect, move. */
module RegionMap {
  import opened AddressSpace
  import opened Collections
  import opened Regions

  type RMap = map<int, Region>

  /** Regions are non-empty, end before the top and do not overlap. */
  ghost predicate Wf(rs: RMap) {
    && (forall b :: b in rs ==> rs[b].Valid() && 0 <= b && b + rs[b].len <= TOP)
    && (forall b, c :: b in rs && c in rs && b < c ==> b + rs[b].len <= c)
  }

  predicate Covers(rs: RMap, b: int, a: int) {
    b in rs && b <= a < b + rs[b].len
  }

  /** The byte mapped at `a`, whatever region it comes from. */
  ghost function CellAt(rs: RMap, a: int): (c: Option<Cell>)
    requires Wf(rs)
    ensures c.None? ==> forall b :: !Covers(rs, b, a)
    ensures c.Some? ==> exists b :: Covers(rs, b, a) && c == Some(rs[b].CellAt(a - b))
  {
    if exists b :: Covers(rs, b, a) then
      var b :| Covers(rs, b, a);
      Some(rs[b].CellAt(a - b))
    else
      None
  }

  lemma OneCovers(rs: RMap, b: int, c: int, a: int)
    requires Wf(rs) && Covers(rs, b, a) && Covers(rs, c, a)
    ensures b == c
  {
    assert b in rs && c in rs;
  }

  lemma CellIs(rs: RMap, b: int, a: int)
    requires Wf(rs) && Covers(rs, b, a)
    ensures CellAt(rs, a) == Some(rs[b].CellAt(a - b))
    ensures 0 <= a < TOP
  {
    var c :| Covers(rs, c, a) && CellAt(rs, a) == Some(rs[c].CellAt(a - c));
    OneCovers(rs, b, c, a);
  }

  ghost function ViewOf(rs: RMap): (v: View)
    requires Wf(rs)
  {
    map a: int | 0 <= a < TOP && CellAt(rs, a).Some? :: CellAt(rs, a).value
  }

  lemma ViewIs(rs: RMap, a: int)
    requires Wf(rs)
    ensures Get(ViewOf(rs), a) == CellAt(rs, a)
  {
    if CellAt(rs, a).Some? {
      var b :| Covers(rs, b, a);
      CellIs(rs, b, a);
    }
  }

  /** No region has `at` strictly inside. */
  ghost predicate Boundary(rs: RMap, at: int) {
    forall b :: b in rs ==> !(b < at < b + rs[b].len)
  }

  // ---- ordered-map queries ----

  /** `range(..x).next_back()`: the greatest key below `x`. */
  function LastBelow(rs: RMap, x: int): (r: Option<int>)
    ensures r.Some? ==> r.value in rs && r.value < x && forall k :: k in rs && k < x ==> k <= r.value
    ensures r.None? ==> forall k :: k in rs ==> x <= k
  {
    var below := set k | k in rs && k < x;
    assert forall k :: k in rs && k < x ==> k in below;
    if below == {} then None else Some(MaxOf(below))
  }

  /** `range(x..).next()`: the least key from `x` on. */
  function FirstFrom(rs: RMap, x: int): (r: Option<int>)
    ensures r.Some? ==> r.value in rs && x <= r.value && forall k :: k in rs && x <= k ==> r.value <= k
    ensures r.None? ==> forall k :: k in rs ==> k < x
  {
    var above := set k | k in rs && x <= k :: -k;
    assert forall k :: k in rs && x <= k ==> -k in above;
    if above == {} then None else Some(-MaxOf(above))
  }

  /** `find`: the base of the region that contains `a`. */
  function Find(rs: RMap, a: int): (r: Option<int>)
    requires Wf(rs)
    ensures r.Some? ==> Covers(rs, r.value, a) && CellAt(rs, a) == Some(rs[r.value].CellAt(a - r.value))
    ensures r.None? <==> CellAt(rs, a).None?
  {
    var last := LastBelow(rs, a + 1);
    if last.Some? && a < last.value + rs[last.value].len then
      CellIs(rs, last.value, a);
      last
    else
      assert forall b :: !Covers(rs, b, a);
      None
  }

  // ---- elementary edits ----

  ghost predicate SameCells(rs: RMap, rs': RMap)
    requires Wf(rs) && Wf(rs')
  {
    forall a :: CellAt(rs', a) == CellAt(rs, a)
  }

  /** Cutting a region in two changes no byte. */
  lemma SplitEdit(rs: RMap, b: int, at: int, rs': RMap)
    requires Wf(rs) && b in rs && b < at < b + rs[b].len
    requires rs' == rs[b := rs[b].SplitOff(at - b).0][at := rs[b].SplitOff(at - b).1]
    ensures Wf(rs') && SameCells(rs, rs') && Boundary(rs', at)
    ensures forall x :: Boundary(rs, x) ==> Boundary(rs', x)
  {
    SplitWf(rs, b, at, rs');
    forall a
      ensures CellAt(rs', a) == CellAt(rs, a)
    {
      SplitCell(rs, b, at, rs', a);
    }
    forall x | Boundary(rs, x)
      ensures Boundary(rs', x)
    {
      assert !(b < x < b + rs[b].len);
    }
  }

  lemma SplitWf(rs: RMap, b: int, at: int, rs': RMap)
    requires Wf(rs) && b in rs && b < at < b + rs[b].len
    requires rs' == rs[b := rs[b].SplitOff(at - b).0][at := rs[b].SplitOff(at - b).1]
    ensures Wf(rs') && Boundary(rs', at) && at !in rs
    ensures rs'[b] == rs[b].SplitOff(at - b).0 && rs'[at] == rs[b].SplitOff(at - b).1
    ensures forall c :: c in rs' <==> c in rs || c == at
    ensures forall c :: c in rs && c != b ==> rs'[c] == rs[c]
  {
  }

  lemma SplitCell(rs: RMap, b: int, at: int, rs': RMap, a: int)
    requires Wf(rs) && Wf(rs') && b in rs && b < at < b + rs[b].len && at !in rs
    requires forall c :: c in rs' <==> c in rs || c == at
    requires rs'[b] == rs[b].SplitOff(at - b).0 && rs'[at] == rs[b].SplitOff(at - b).1
    requires forall c :: c in rs && c != b ==> rs'[c] == rs[c]
    ensures CellAt(rs', a) == CellAt(rs, a)
  {
    assert forall c :: Covers(rs', c, a) ==> Covers(rs, if c == at then b else c, a);
    if c :| Covers(rs, c, a) {
      CellIs(rs, c, a);
      if c == b && a >= at {
        CellIs(rs', at, a);
        assert rs'[at].CellAt(a - at) == rs[b].CellAt((at - b) + (a - at));
      } else {
        CellIs(rs', c, a);
      }
    }
  }

  /** Removing the regions that start in `[start, end)` unmaps exactly that
      range when its ends are boundaries. */
  lemma RemoveEdit(rs: RMap, start: int, end: int, rs': RMap)
    requires Wf(rs) && start <= end && Boundary(rs, start) && Boundary(rs, end)
    requires rs' == map b | b in rs && !(start <= b < end) :: rs[b]
    ensures Wf(rs')
    ensures forall a :: CellAt(rs', a) == if start <= a < end then None else CellAt(rs, a)
  {
    forall a
      ensures CellAt(rs', a) == if start <= a < end then None else CellAt(rs, a)
    {
      if c :| Covers(rs, c, a) {
        CellIs(rs, c, a);
        if start <= a < end {
          assert start <= c;
          assert forall d :: !Covers(rs', d, a) by {
            forall d | Covers(rs', d, a) ensures false { OneCovers(rs, c, d, a); }
          }
        } else {
          assert !(start <= c < end);
          CellIs(rs', c, a);
        }
      } else {
        assert forall d :: Covers(rs', d, a) ==> Covers(rs, d, a);
      }
    }
  }

  /** The regions that start in `[start, end)` on their own. */
  lemma KeepEdit(rs: RMap, start: int, end: int, rs': RMap)
    requires Wf(rs) && start <= end && Boundary(rs, start) && Boundary(rs, end)
    requires rs' == map b | b in rs && start <= b < end :: rs[b]
    ensures Wf(rs') && forall b :: b in rs' ==> start <= b && b + rs'[b].len <= end
    ensures forall a :: CellAt(rs', a) == if start <= a < end then CellAt(rs, a) else None
  {
    forall a
      ensures CellAt(rs', a) == if start <= a < end then CellAt(rs, a) else None
    {
      assert forall d :: Covers(rs', d, a) ==> Covers(rs, d, a) && start <= a < end;
      if c :| Covers(rs, c, a) && start <= a < end {
        CellIs(rs, c, a);
        assert start <= c;
        CellIs(rs', c, a);
      }
    }
  }

  /** Regions of a map that leaves `[lo, hi)` free lie outside it. */
  lemma FreeRange(rs: RMap, lo: int, hi: int, c: int)
    requires Wf(rs) && lo < hi && c in rs
    requires forall a :: lo <= a < hi ==> CellAt(rs, a).None?
    ensures c + rs[c].len <= lo || hi <= c
  {
    var a := if c < lo then lo else c;
    assert lo <= a < hi && c <= a < c + rs[c].len ==> CellAt(rs, a).None? && Covers(rs, c, a);
  }

  /** Inserting a region where nothing is mapped adds exactly its bytes. */
  lemma InsertEdit(rs: RMap, base: int, r: Region, rs': RMap)
    requires Wf(rs) && r.Valid() && 0 <= base && base + r.len <= TOP
    requires forall a :: base <= a < base + r.len ==> CellAt(rs, a).None?
    requires rs' == rs[base := r]
    ensures Wf(rs')
    ensures forall a :: CellAt(rs', a) ==
              if base <= a < base + r.len then Some(r.CellAt(a - base)) else CellAt(rs, a)
  {
    forall c | c in rs
      ensures c + rs[c].len <= base || base + r.len <= c
    {
      FreeRange(rs, base, base + r.len, c);
    }
    assert Wf(rs');
    forall a
      ensures CellAt(rs', a) == if base <= a < base + r.len then Some(r.CellAt(a - base)) else CellAt(rs, a)
    {
      if base <= a < base + r.len {
        CellIs(rs', base, a);
      } else if c :| Covers(rs, c, a) {
        CellIs(rs, c, a);
        CellIs(rs', c, a);
      } else {
        assert forall d :: Covers(rs', d, a) ==> Covers(rs, d, a);
      }
    }
  }

  ghost function Reprotected(c: Option<Cell>, perm: Perm): Option<Cell> {
    if c.Some? then Some(c.value.(perm := perm)) else None
  }

  /** Changing the permissions of the regions that start in `[start, end)`. */
  lemma ProtectEdit(rs: RMap, start: int, end: int, perm: Perm, rs': RMap)
    requires Wf(rs) && start <= end && Boundary(rs, start) && Boundary(rs, end)
    requires rs' == map b | b in rs :: if start <= b < end then rs[b].(perm := perm) else rs[b]
    ensures Wf(rs')
    ensures forall a :: CellAt(rs', a) ==
              if start <= a < end then Reprotected(CellAt(rs, a), perm) else CellAt(rs, a)
  {
    assert forall b :: b in rs ==> rs'[b].len == rs[b].len && rs'[b].Valid();
    assert Wf(rs');
    forall a
      ensures CellAt(rs', a) ==
              if start <= a < end then Reprotected(CellAt(rs, a), perm) else CellAt(rs, a)
    {
      ProtectCell(rs, start, end, perm, rs', a);
    }
  }

  lemma ProtectCell(rs: RMap, start: int, end: int, perm: Perm, rs': RMap, a: int)
    requires Wf(rs) && Wf(rs') && start <= end && Boundary(rs, start) && Boundary(rs, end)
    requires rs'.Keys == rs.Keys
    requires forall b :: b in rs ==> rs'[b] == if start <= b < end then rs[b].(perm := perm) else rs[b]
    ensures CellAt(rs', a) ==
            if start <= a < end then Reprotected(CellAt(rs, a), perm) else CellAt(rs, a)
  {
    assert forall d :: Covers(rs', d, a) <==> Covers(rs, d, a);
    if c :| Covers(rs, c, a) {
      assert start <= a < end <==> start <= c < end;
      OneProtected(rs, rs', c, perm, a, start <= a < end);
    }
  }

  lemma OneProtected(rs: RMap, rs': RMap, c: int, perm: Perm, a: int, inside: bool)
    requires Wf(rs) && Wf(rs') && Covers(rs, c, a) && Covers(rs', c, a)
    requires rs'[c] == if inside then rs[c].(perm := perm) else rs[c]
    ensures CellAt(rs', a) == if inside then Reprotected(CellAt(rs, a), perm) else CellAt(rs, a)
  {
    CellIs(rs, c, a);
    CellIs(rs', c, a);
    rs[c].PermOnly(a - c, perm);
  }

  /** `rs'` is `rs` plus the regions of `src` in `[from, from + len)`, moved to
      start at `dst`. */
  ghost predicate Relocated(src: RMap, from: int, len: nat, dst: int, rs: RMap, rs': RMap) {
    && (forall b :: b in rs' <==> b in rs || (dst <= b < dst + len && b - dst + from in src))
    && (forall b :: b in rs' ==>
          rs'[b] == if dst <= b < dst + len && b - dst + from in src then src[b - dst + from] else rs[b])
  }

  /** Moving regions into a free range shows the same bytes there. */
  lemma MoveEdit(src: RMap, from: int, len: nat, dst: int, rs: RMap, rs': RMap)
    requires Wf(src) && Wf(rs) && Boundary(src, from) && Boundary(src, from + len)
    requires len > 0 && 0 <= dst && dst + len <= TOP
    requires forall a :: dst <= a < dst + len ==> CellAt(rs, a).None?
    requires Relocated(src, from, len, dst, rs, rs')
    ensures Wf(rs')
    ensures forall a {:trigger CellAt(rs', a)} :: CellAt(rs', a) ==
              if dst <= a < dst + len then CellAt(src, a - dst + from) else CellAt(rs, a)
  {
    MoveWf(src, from, len, dst, rs, rs');
    forall a
      ensures CellAt(rs', a) == if dst <= a < dst + len then CellAt(src, a - dst + from) else CellAt(rs, a)
    {
      MoveCell(src, from, len, dst, rs, rs', a);
    }
  }

  lemma MoveWf(src: RMap, from: int, len: nat, dst: int, rs: RMap, rs': RMap)
    requires Wf(src) && Wf(rs) && Boundary(src, from) && Boundary(src, from + len)
    requires len > 0 && 0 <= dst && dst + len <= TOP
    requires forall a :: dst <= a < dst + len ==> CellAt(rs, a).None?
    requires Relocated(src, from, len, dst, rs, rs')
    ensures Wf(rs')
  {
    forall b | b in rs
      ensures b + rs[b].len <= dst || dst + len <= b
    {
      FreeRange(rs, dst, dst + len, b);
    }
    assert forall b :: b in rs' && dst <= b < dst + len ==> b - dst + from in src && b + rs'[b].len <= dst + len;
    forall b, c | b in rs' && c in rs' && b < c
      ensures b + rs'[b].len <= c
    {
      if dst <= b < dst + len && dst <= c < dst + len {
        assert b - dst + from in src && c - dst + from in src;
      }
    }
  }

  lemma MoveCell(src: RMap, from: int, len: nat, dst: int, rs: RMap, rs': RMap, a: int)
    requires Wf(src) && Wf(rs) && Wf(rs') && Boundary(src, from) && Boundary(src, from + len)
    requires len > 0
    requires forall a :: dst <= a < dst + len ==> CellAt(rs, a).None?
    requires Relocated(src, from, len, dst, rs, rs')
    ensures CellAt(rs', a) == if dst <= a < dst + len then CellAt(src, a - dst + from) else CellAt(rs, a)
  {
    forall b | b in rs
      ensures b + rs[b].len <= dst || dst + len <= b
    {
      FreeRange(rs, dst, dst + len, b);
    }
    if dst <= a < dst + len {
      MoveInside(src, from, len, dst, rs, rs', a);
    } else {
      MoveOutside(src, from, len, dst, rs, rs', a);
    }
  }

  lemma MoveInside(src: RMap, from: int, len: nat, dst: int, rs: RMap, rs': RMap, a: int)
    requires Wf(src) && Wf(rs) && Wf(rs') && Boundary(src, from)
    requires forall b :: b in rs ==> b + rs[b].len <= dst || dst + len <= b
    requires Relocated(src, from, len, dst, rs, rs') && dst <= a < dst + len
    ensures CellAt(rs', a) == CellAt(src, a - dst + from)
  {
    var x := a - dst + from;
    forall d | Covers(rs', d, a)
      ensures Covers(src, d - dst + from, x)
    {
    }
    if c :| Covers(src, c, x) {
      CellIs(src, c, x);
      assert from <= c;
      var c' := c - from + dst;
      assert c' - dst + from == c;
      assert Covers(rs', c', a);
      CellIs(rs', c', a);
    }
  }

  lemma MoveOutside(src: RMap, from: int, len: nat, dst: int, rs: RMap, rs': RMap, a: int)
    requires Wf(src) && Wf(rs) && Wf(rs') && Boundary(src, from + len)
    requires forall b :: b in rs ==> b + rs[b].len <= dst || dst + len <= b
    requires Relocated(src, from, len, dst, rs, rs') && !(dst <= a < dst + len)
    ensures CellAt(rs', a) == CellAt(rs, a)
  {
    forall d | Covers(rs', d, a)
      ensures Covers(rs, d, a)
    {
    }
    if c :| Covers(rs, c, a) {
      CellIs(rs, c, a);
      assert Covers(rs', c, a);
      CellIs(rs', c, a);
    }
  }
}
