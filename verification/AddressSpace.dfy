/** The flat picture of a user address space: which bytes are mapped, what each
    one holds and allows, and which code pages are being watched.

    This is the vocabulary shared by the region map (module `UserMemory`, which
    implements it) and by the JIT driver (module `JitDriver`, which relies on
    it).
 */
module AddressSpace {
  /** Bytes of a page. */
  const PAGE: int := 4096
  /** `u64::MAX`. No mapping reaches this address (its end would overflow). */
  const TOP: int := 0xFFFF_FFFF_FFFF_FFFF

  type Byte = b: int | 0 <= b < 256
  type Word = w: int | 0 <= w < 0x1_0000_0000

  datatype Option<+T> = None | Some(value: T)

  datatype Access = Read | Write | Fetch

  datatype Perm = Perm(read: bool, write: bool, exec: bool) {
    predicate Allows(a: Access) {
      match a
      case Read => read
      case Write => write
      case Fetch => exec
    }
  }

  /** One mapped byte: a private one holds its content, a shared one names a
      place in a buffer that other spaces may see too. */
  datatype Cell =
    | Private(byte: Byte, perm: Perm, mayWrite: bool, growsDown: bool)
    | Shared(buf: nat, off: nat, perm: Perm, mayWrite: bool, growsDown: bool)

  /** `c` after a write of `b`: a shared byte keeps naming its place. */
  function WithByte(c: Cell, b: Byte): Cell {
    if c.Private? then c.(byte := b) else c
  }

  type View = map<int, Cell>
  /** The shared buffers, by number. */
  type Buffers = map<nat, seq<Byte>>
  /** What an instruction can load, store and fetch: the mapped bytes, and the
      content of the shared buffers they name. */
  datatype Ram = Ram(view: View, bufs: Buffers)

  function Get<K, V>(m: map<K, V>, k: K): (r: Option<V>)
    ensures r.Some? <==> k in m
  {
    if k in m then Some(m[k]) else None
  }

  /** Byte `i` of a shared buffer; it reads as zero beyond its end. */
  function BufferByte(bufs: Buffers, buf: nat, i: nat): Byte {
    if buf in bufs && i < |bufs[buf]| then bufs[buf][i] else 0
  }

  /** The content of a mapped byte. */
  function ByteOf(c: Cell, bufs: Buffers): Byte {
    match c
    case Private(byte, _, _, _) => byte
    case Shared(buf, off, _, _, _) => BufferByte(bufs, buf, off)
  }

  /** What a load finds at `a`. */
  function Load(m: Ram, a: int): (b: Option<Byte>)
    ensures b.Some? <==> a in m.view
  {
    if a in m.view then Some(ByteOf(m.view[a], m.bufs)) else None
  }

  /** An address space as the JIT sees it. */
  datatype Guest = Guest(id: int, ram: Ram, watch: set<int>, dirty: seq<int>)

  /** A mapped byte as far as the translator reads it: kind, content or place, and
      permissions. */
  function Bare(c: Option<Cell>): Option<Cell> {
    if c.Some? then Some(c.value.(mayWrite := false, growsDown := false)) else None
  }

  /** What every operation on an address space owes to the JIT: a watched page
      whose content, mapping or permissions changed is among the dirty pages,
      and no watched or dirty page is forgotten. Shared bytes are never code, so
      the content of the buffers plays no part. */
  ghost predicate Tracked(old_: Guest, new_: Guest) {
    && new_.id == old_.id
    && new_.watch <= old_.watch
    && (forall p :: p in old_.watch ==> p in new_.watch || p in new_.dirty)
    && (forall p :: p in old_.dirty ==> p in new_.dirty)
    && (forall a: int :: a / PAGE in old_.watch && Bare(Get(old_.ram.view, a)) != Bare(Get(new_.ram.view, a))
                         ==> a / PAGE in new_.dirty)
  }

  lemma TrackedTransitive(a: Guest, b: Guest, c: Guest)
    requires Tracked(a, b) && Tracked(b, c)
    ensures Tracked(a, c)
  {
    forall x: int | x / PAGE in a.watch && Bare(Get(a.ram.view, x)) != Bare(Get(c.ram.view, x))
      ensures x / PAGE in c.dirty
    {
      if Bare(Get(a.ram.view, x)) != Bare(Get(b.ram.view, x)) {
        assert x / PAGE in b.dirty;
      } else {
        assert Bare(Get(b.ram.view, x)) != Bare(Get(c.ram.view, x));
      }
    }
  }

  /** Four bytes, lowest address first, as one little-endian word. */
  function LittleEndian(b0: Byte, b1: Byte, b2: Byte, b3: Byte): Word {
    b0 + 0x100 * b1 + 0x1_0000 * b2 + 0x100_0000 * b3
  }

  /** The instruction word at `a`, if its four bytes are private and executable:
      what the translator may read and keep. */
  function CodeWord(v: View, a: int): (w: Option<Word>) {
    if CodeByte(v, a) && CodeByte(v, a + 1) && CodeByte(v, a + 2) && CodeByte(v, a + 3) then
      Some(LittleEndian(v[a].byte, v[a + 1].byte, v[a + 2].byte, v[a + 3].byte))
    else
      None
  }

  predicate CodeByte(v: View, a: int) {
    a in v && v[a].Private? && v[a].perm.exec
  }
}
