/** Bit masks of the decoder and the bitfield instructions. A 64-bit word is the
    sequence of its bits, lowest first. */
module Bits {
  import opened AddressSpace
  import opened Flags

  type Word64 = b: seq<bool> | |b| == 64 witness seq(64, _ => false)

  // ---- the operators of the source, bit by bit ----

  function AndBits(a: Word64, b: Word64): Word64 { seq(64, i requires 0 <= i < 64 => a[i] && b[i]) }
  function OrBits(a: Word64, b: Word64): Word64 { seq(64, i requires 0 <= i < 64 => a[i] || b[i]) }
  function NotBits(a: Word64): Word64 { seq(64, i requires 0 <= i < 64 => !a[i]) }
  function Zero64(): Word64 { seq(64, _ => false) }

  function Shl(a: Word64, k: nat): Word64
    requires k < 64
  {
    seq(64, i requires 0 <= i < 64 => i >= k && a[i - k])
  }

  function Shr(a: Word64, k: nat): Word64
    requires k < 64
  {
    seq(64, i requires 0 <= i < 64 => i + k < 64 && a[i + k])
  }

  /** `ones`. */
  function Ones(n: nat): Word64 {
    seq(64, i => i < n)
  }

  /** `ones(n)` is `2^n - 1`. */
  lemma {:induction false} OnesValue(m: nat, n: nat)
    requires n <= m
    ensures Value(seq(m, i => i < n)) == Pow2(n) - 1
  {
    if m > 0 {
      if n > 0 {
        OnesValue(m - 1, n - 1);
        assert seq(m, i => i < n)[1..] == seq(m - 1, i => i < n - 1);
      } else {
        OnesValue(m - 1, 0);
        assert seq(m, i => i < n)[1..] == seq(m - 1, i => i < 0);
      }
    }
  }

  /** The remainder `x % w`, counted out. */
  function Mod(x: nat, w: nat): (m: nat)
    requires w > 0
    ensures m < w && m <= x
    decreases x
  {
    if x < w then x else Mod(x - w, w)
  }

  /** `Mod` is the remainder of the division. */
  lemma {:induction false} ModIs(x: nat, w: nat)
    requires w > 0
    ensures Mod(x, w) == x % w
    decreases x
  {
    if x < w {
      ModUnique(x, w, 0, x);
    } else {
      ModIs(x - w, w);
      var q, r := (x - w) / w, (x - w) % w;
      assert x - w == q * w + r;
      assert (q + 1) * w == q * w + w;
      ModUnique(x, w, q + 1, r);
    }
  }

  /** `m` past a multiple of `w`. */
  lemma {:induction false} ModShift(j: nat, m: nat, w: nat)
    requires 0 < w && m < w && Mod(j, w) == 0
    ensures Mod(j + m, w) == m
    decreases j
  {
    if j >= w {
      ModShift(j - w, m, w);
    }
  }

  lemma {:induction false} ModStart(x: nat, w: nat)
    requires 0 < w
    ensures Mod(x - Mod(x, w), w) == 0
    decreases x
  {
    if x >= w {
      ModStart(x - w, w);
    }
  }

  /** `ror`. */
  function Ror(v: Word64, amount: nat, width: nat): (r: Word64)
    requires 0 < width <= 64
  {
    var m := AndBits(v, Ones(width));
    var a := Mod(amount, width);
    if a == 0 then m else AndBits(OrBits(Shr(m, a), Shl(m, width - a)), Ones(width))
  }

  /** Rotation moves bit `i + amount`, taken around the element, to `i`. */
  lemma RorBit(v: Word64, amount: nat, width: nat, i: nat)
    requires 0 < width <= 64 && i < 64
    ensures Ror(v, amount, width)[i] <==> i < width && v[Mod(i + Mod(amount, width), width)]
  {
    var m, a := AndBits(v, Ones(width)), Mod(amount, width);
    if a > 0 {
      Turned(m, a, width, i);
    }
    if i < width {
      Around(i + a, width);
    }
  }

  lemma Turned(m: Word64, a: nat, width: nat, i: nat)
    requires 0 < a < width <= 64 && i < 64 && forall k :: width <= k < 64 ==> !m[k]
    ensures AndBits(OrBits(Shr(m, a), Shl(m, width - a)), Ones(width))[i] <==>
            i < width && m[if i + a < width then i + a else i + a - width]
  {
  }

  lemma Around(x: nat, width: nat)
    requires x < 2 * width
    ensures Mod(x, width) == if x < width then x else x - width
  {
  }

  // ---- replication ----

  predicate Multiple(j: nat, esize: nat)
    requires esize > 0
  {
    Mod(j, esize) == 0
  }

  /** Bit `i` of the copies of `v` placed at the multiples of `esize` below
      `limit`. */
  predicate Copied(v: Word64, esize: nat, limit: nat, i: nat)
    requires esize > 0 && i < 64
  {
    exists j {:trigger Multiple(j, esize)} :: 0 <= j <= i && j < limit && Multiple(j, esize) && v[i - j]
  }

  function Replicated(v: Word64, esize: nat, width: nat): (r: Word64)
    requires esize > 0
  {
    seq(64, i requires 0 <= i < 64 => i < width && Copied(v, esize, width, i))
  }

  /** `replicate`. */
  method Replicate(v: Word64, esize: nat, width: nat) returns (r: Word64)
    requires esize > 0 && width <= 64
    ensures r == Replicated(v, esize, width)
  {
    r := Zero64();
    var i := 0;
    while i < width
      invariant Multiple(i, esize)
      invariant forall k :: 0 <= k < 64 ==> r[k] == Copied(v, esize, if i < width then i else width, k)
      decreases width - i
    {
      NextMultiple(i, esize);
      r := OrBits(r, Shl(v, i));
      i := i + esize;
    }
    r := AndBits(r, Ones(width));
  }

  lemma NextMultiple(i: nat, esize: nat)
    requires esize > 0 && Multiple(i, esize)
    ensures Multiple(i + esize, esize)
    ensures forall j {:trigger Multiple(j, esize)} :: i < j < i + esize ==> !Multiple(j, esize)
  {
    forall j | i < j < i + esize
      ensures !Multiple(j, esize)
    {
      ModShift(i, j - i, esize);
    }
  }

  /** An element that fits its size is repeated with that period. */
  lemma Periodic(v: Word64, esize: nat, width: nat, i: nat)
    requires 0 < esize <= 64 && i < width <= 64
    requires forall k :: esize <= k < 64 ==> !v[k]
    ensures Replicated(v, esize, width)[i] == v[Mod(i, esize)]
  {
    var m := Mod(i, esize);
    ModStart(i, esize);
    assert Multiple(i - m, esize) && v[i - (i - m)] == v[m];
    forall j | 0 <= j <= i && Multiple(j, esize) && v[i - j]
      ensures i - j == m
    {
      ModShift(j, i - j, esize);
    }
  }

  // ---- DecodeBitMasks ----

  /** Position of the highest bit of `x`, `31 - x.leading_zeros()`. */
  function HighBit(x: nat): (k: nat)
    requires x > 0
    ensures Pow2(k) <= x < 2 * Pow2(k)
  {
    if x == 1 then 0 else HighBit(x / 2) + 1
  }

  lemma {:induction false} HighBitIs(x: nat, k: nat)
    requires Pow2(k) <= x < 2 * Pow2(k)
    ensures HighBit(x) == k
  {
    if k > 0 {
      HighBitIs(x / 2, k - 1);
    }
  }

  lemma {:induction false} Pow2Mono(a: nat, b: nat)
    requires a <= b
    ensures Pow2(a) <= Pow2(b)
  {
    if a < b {
      Pow2Mono(a, b - 1);
    }
  }

  datatype Masks = Masks(wmask: Word64, tmask: Word64)

  /** A six-bit instruction field. */
  type Imm6 = x: int | 0 <= x < 64

  /** `len`, or 0 if the encoding has no element size. */
  function ElementBits(n: nat, imms: Imm6): (len: nat)
    requires n <= 1
    ensures len <= 6
  {
    var combined := n * 64 + (63 - imms);
    if combined == 0 then 0 else
    assert HighBit(combined) > 6 ==> combined >= 128 by { if HighBit(combined) > 6 { Pow2Mono(7, HighBit(combined)); } }
    HighBit(combined)
  }

  function Element(len: nat): (esize: nat)
    requires len <= 6
    ensures 0 < esize <= 64 && esize == Pow2(len)
  {
    Pow2Mono(len, 6);
    Pow2(len)
  }

  /** `s.wrapping_sub(r) & (esize - 1)`. */
  function Behind(s: nat, r: nat, esize: nat): nat
    requires r < esize
  {
    Mod(s + esize - r, esize)
  }

  /** The masks of an element with `S == s` and `R == r`. */
  function MasksOf(esize: nat, s: nat, r: nat, datasize: nat): (m: Masks)
    requires 0 < esize <= 64 && r < esize
  {
    var d := Behind(s, r, esize);
    Masks(Replicated(Ror(Ones(s + 1), r, esize), esize, datasize), Replicated(Ones(d + 1), esize, datasize))
  }

  /** `decode_bit_masks`. `x & levels` is the remainder by `esize`. */
  function DecodeBitMasks(n: nat, imms: Imm6, immr: Imm6, immediate: bool, datasize: nat): (r: Option<Masks>)
    requires n <= 1
  {
    var len := ElementBits(n, imms);
    var esize := Element(len);
    if len < 1 || datasize < esize then None
    else if immediate && Mod(imms, esize) == esize - 1 then None
    else Some(MasksOf(esize, Mod(imms, esize), Mod(immr, esize), datasize))
  }

  // ---- logical immediates ----

  /** `ones` ones, rotated right by `rot` in an element of `esize` bits that
      repeats up to `width`. */
  ghost predicate RotatedRun(v: Word64, esize: nat, ones: nat, rot: nat, width: nat)
    requires esize > 0
  {
    forall i {:trigger v[i]} :: 0 <= i < 64 ==> (v[i] <==> i < width && Mod(Mod(i, esize) + rot, esize) < ones)
  }

  /** The `imms` that asks for a run of `ones` in elements of `2^len` bits. */
  function ImmsOf(len: nat, ones: nat): int {
    (if len == 6 then 0 else 64 - 2 * Pow2(len)) + ones - 1
  }

  lemma MaskBits(esize: nat, s: nat, r: nat, datasize: nat)
    requires 0 < esize <= datasize <= 64 && s < esize && r < esize
    ensures RotatedRun(MasksOf(esize, s, r, datasize).wmask, esize, s + 1, r, datasize)
    ensures RotatedRun(MasksOf(esize, s, r, datasize).tmask, esize, Behind(s, r, esize) + 1, 0, datasize)
  {
    var w, t := Ror(Ones(s + 1), r, esize), Ones(Behind(s, r, esize) + 1);
    forall k | esize <= k < 64
      ensures !w[k]
    {
      RorBit(Ones(s + 1), r, esize, k);
    }
    forall i | 0 <= i < datasize
      ensures Replicated(w, esize, datasize)[i] <==> Mod(Mod(i, esize) + r, esize) < s + 1
      ensures Replicated(t, esize, datasize)[i] <==> Mod(Mod(i, esize) + 0, esize) < Behind(s, r, esize) + 1
    {
      Periodic(w, esize, datasize, i);
      Periodic(t, esize, datasize, i);
      RorBit(Ones(s + 1), r, esize, Mod(i, esize));
    }
  }

  /** Every accepted logical immediate is a rotated run of ones that repeats with
      a period of 2 to 64 bits, neither empty nor full. */
  lemma LogicalImmediate(n: nat, imms: Imm6, immr: Imm6, datasize: nat)
    requires n <= 1 && (datasize == 32 || datasize == 64)
    requires DecodeBitMasks(n, imms, immr, true, datasize).Some?
    ensures var m := DecodeBitMasks(n, imms, immr, true, datasize).value.wmask;
            exists len, ones, rot ::
              && 1 <= len <= 6 && Element(len) <= datasize && 0 < ones < Element(len) && 0 <= rot < Element(len)
              && RotatedRun(m, Element(len), ones, rot, datasize)
  {
    var len := ElementBits(n, imms);
    var esize := Element(len);
    MaskBits(esize, Mod(imms, esize), Mod(immr, esize), datasize);
    var m := DecodeBitMasks(n, imms, immr, true, datasize).value.wmask;
    assert RotatedRun(m, Element(len), Mod(imms, esize) + 1, Mod(immr, esize), datasize);
  }

  /** It is never all zeros or all ones. */
  lemma RunIsMixed(v: Word64, esize: nat, ones: nat, rot: nat, width: nat)
    requires 0 < esize <= width <= 64 && 0 < ones < esize && rot < esize && RotatedRun(v, esize, ones, rot, width)
    ensures v[..width] != Zero64()[..width] && v[..width] != Ones(width)[..width]
  {
    var one := if rot == 0 then 0 else esize - rot;
    var zero := esize - 1 - rot;
    Around(one + rot, esize);
    Around(zero + rot, esize);
    assert v[one] && !v[zero];
    assert v[..width][one] != Zero64()[..width][one] && v[..width][zero] != Ones(width)[..width][zero];
  }

  /** Conversely, every such pattern has an encoding. */
  lemma EveryRunEncoded(len: nat, ones: nat, rot: nat, datasize: nat) returns (n: nat, imms: Imm6, m: Masks)
    requires 1 <= len <= 6 && (datasize == 32 || datasize == 64)
    requires Element(len) <= datasize && 0 < ones < Element(len) && rot < Element(len)
    ensures n <= 1 && DecodeBitMasks(n, imms, rot, true, datasize) == Some(m)
    ensures RotatedRun(m.wmask, Element(len), ones, rot, datasize)
  {
    n, imms := Encoding(len, ones);
    m := Decodes(n, imms, rot, len, ones, datasize);
  }

  lemma Encoding(len: nat, ones: nat) returns (n: nat, imms: Imm6)
    requires 1 <= len <= 6 && 0 < ones < Element(len)
    ensures n <= 1 && ElementBits(n, imms) == len && Mod(imms, Element(len)) == ones - 1
  {
    ImmsFields(len, ones);
    n, imms := if len == 6 then 1 else 0, ImmsOf(len, ones);
  }

  lemma Decodes(n: nat, imms: Imm6, rot: Imm6, len: nat, ones: nat, datasize: nat) returns (m: Masks)
    requires n <= 1 && 1 <= len <= 6 && ElementBits(n, imms) == len && Mod(imms, Element(len)) == ones - 1
    requires 0 < ones < Element(len) <= datasize <= 64 && rot < Element(len)
    ensures DecodeBitMasks(n, imms, rot, true, datasize) == Some(m)
    ensures RotatedRun(m.wmask, Element(len), ones, rot, datasize)
  {
    m := MasksOf(Element(len), ones - 1, rot, datasize);
    MaskBits(Element(len), ones - 1, rot, datasize);
  }

  lemma ImmsFields(len: nat, ones: nat)
    requires 1 <= len <= 6 && 0 < ones < Element(len)
    ensures 0 <= ImmsOf(len, ones) < 64
    ensures ElementBits(if len == 6 then 1 else 0, ImmsOf(len, ones)) == len
    ensures Mod(ImmsOf(len, ones), Element(len)) == ones - 1
  {
    if len < 6 {
      ShortFields(len, ones);
    } else {
      assert Pow2(6) == 64;
      HighBitIs(64 + (63 - ImmsOf(6, ones)), 6);
    }
  }

  lemma ShortFields(len: nat, ones: nat)
    requires 1 <= len < 6 && 0 < ones < Element(len)
    ensures 0 <= ImmsOf(len, ones) < 64
    ensures ElementBits(0, ImmsOf(len, ones)) == len && Mod(ImmsOf(len, ones), Element(len)) == ones - 1
  {
    var esize := Element(len);
    Sizes(len);
    ModShift(64 - 2 * esize, ones - 1, esize);
    HighBitIs(63 - ImmsOf(len, ones), len);
  }

  /** Element sizes divide 64. */
  lemma Sizes(len: nat)
    requires len < 6
    ensures 2 * Pow2(len) <= 64 && Mod(64 - 2 * Pow2(len), Pow2(len)) == 0
  {
    assert Pow2(0) == 1 && Pow2(1) == 2 && Pow2(2) == 4 && Pow2(3) == 8 && Pow2(4) == 16 && Pow2(5) == 32;
    ModIs(64 - 2 * Pow2(len), Pow2(len));
  }

  // ---- bitfield instructions ----

  datatype BfOp = Sbfm | Bfm | Ubfm
  datatype Bitfield = Bitfield(sf: bool, op: BfOp, r: Imm6, s: Imm6, wmask: Word64, tmask: Word64)

  /** The bitfield arm of `dp_imm`; `None` is Undefined. */
  function DecodeBitfield(sf: bool, op: BfOp, n: nat, immr: Imm6, imms: Imm6): (r: Option<Bitfield>)
    requires n <= 1
  {
    if (sf && n != 1) || (!sf && (n != 0 || immr >= 32 || imms >= 32)) then None else
    match DecodeBitMasks(n, imms, immr, false, Width(sf))
    case None => None
    case Some(m) => Some(Bitfield(sf, op, immr, imms, m.wmask, m.tmask))
  }

  /** The bitfield arm of `execute`: the new value of `rd`. */
  function ExecBitfield(b: Bitfield, rd: Word64, src: Word64): (r: Word64) {
    var n := Width(b.sf);
    var dst := if b.op == Bfm then rd else Zero64();
    var bot := OrBits(AndBits(dst, NotBits(b.wmask)), AndBits(Ror(src, b.r, n), b.wmask));
    var top := if b.op == Sbfm then (if Shr(src, b.s)[0] then Ones(n) else Zero64()) else dst;
    var all := OrBits(AndBits(top, NotBits(b.tmask)), AndBits(bot, b.tmask));
    if b.sf then all else AndBits(all, Ones(32))
  }

  /** Bit `i` of the result as section C6.2 of the Arm ARM defines it. With
      `s >= r` the field `src<s:r>` goes to the bottom; otherwise `src<s:0>` goes
      to bit `width - r`. Below the field are zeros (BFM: the old bits), above it
      zeros, copies of its top bit (SBFM) or the old bits (BFM). */
  predicate FieldBit(sf: bool, op: BfOp, r: Imm6, s: Imm6, rd: Word64, src: Word64, i: nat)
    requires i < Width(sf) && r < Width(sf) && s < Width(sf)
  {
    var at := if s >= r then 0 else Width(sf) - r;
    var from := if s >= r then r else 0;
    var len := s - from + 1;
    if i < at then op == Bfm && rd[i]
    else if i < at + len then src[i - at + from]
    else match op
      case Ubfm => false
      case Sbfm => src[s]
      case Bfm => rd[i]
  }

  /** An encoding is accepted exactly under the guards of section C6.2, and then
      the mask form computes the field definition. */
  lemma BitfieldIsField(sf: bool, op: BfOp, n: nat, immr: Imm6, imms: Imm6, rd: Word64, src: Word64)
    requires n <= 1
    ensures DecodeBitfield(sf, op, n, immr, imms).Some? <==>
            if sf then n == 1 else n == 0 && immr < 32 && imms < 32
    ensures DecodeBitfield(sf, op, n, immr, imms).Some? ==>
              var out := ExecBitfield(DecodeBitfield(sf, op, n, immr, imms).value, rd, src);
              forall i {:trigger out[i]} :: 0 <= i < 64 ==>
                (out[i] <==> i < Width(sf) && FieldBit(sf, op, immr, imms, rd, src, i))
  {
    if (sf && n == 1) || (!sf && n == 0 && immr < 32 && imms < 32) {
      BitfieldMasks(sf, op, n, immr, imms);
      var b := DecodeBitfield(sf, op, n, immr, imms).value;
      var out := ExecBitfield(b, rd, src);
      forall i | 0 <= i < 64
        ensures out[i] <==> i < Width(sf) && FieldBit(sf, op, immr, imms, rd, src, i)
      {
        ExecBit(b, rd, src, i);
        if i < Width(sf) {
          FieldSelect(b, rd, src, i);
        }
      }
    }
  }

  /** The masks of an accepted bitfield instruction are one element wide. */
  lemma BitfieldMasks(sf: bool, op: BfOp, n: nat, immr: Imm6, imms: Imm6)
    requires if sf then n == 1 else n == 0 && immr < 32 && imms < 32
    ensures var b := DecodeBitfield(sf, op, n, immr, imms); b.Some? && FieldMasks(b.value)
    ensures var b := DecodeBitfield(sf, op, n, immr, imms).value; b.sf == sf && b.op == op && b.r == immr && b.s == imms
  {
    OneElement(sf, n, imms);
    BitfieldFields(n, imms, immr, Width(sf));
    ElementMasks(sf, op, immr, imms);
  }

  lemma ElementMasks(sf: bool, op: BfOp, r: Imm6, s: Imm6)
    requires r < Width(sf) && s < Width(sf)
    ensures var m := MasksOf(Width(sf), s, r, Width(sf)); FieldMasks(Bitfield(sf, op, r, s, m.wmask, m.tmask))
  {
    MaskBits(Width(sf), s, r, Width(sf));
  }

  lemma OneElement(sf: bool, n: nat, imms: Imm6)
    requires if sf then n == 1 else n == 0 && imms < 32
    ensures ElementBits(n, imms) > 0 && Element(ElementBits(n, imms)) == Width(sf)
  {
    assert Pow2(5) == 32 && Pow2(6) == 64;
    HighBitIs(n * 64 + (63 - imms), if sf then 6 else 5);
  }

  lemma BitfieldFields(n: nat, imms: Imm6, immr: Imm6, w: nat)
    requires n <= 1 && ElementBits(n, imms) > 0 && w == Element(ElementBits(n, imms)) && imms < w && immr < w
    ensures DecodeBitMasks(n, imms, immr, false, w) == Some(MasksOf(w, imms, immr, w))
  {
  }

  ghost predicate FieldMasks(b: Bitfield) {
    var w := Width(b.sf);
    b.r < w && b.s < w && RotatedRun(b.wmask, w, b.s + 1, b.r, w) && RotatedRun(b.tmask, w, Behind(b.s, b.r, w) + 1, 0, w)
  }

  lemma FieldSelect(b: Bitfield, rd: Word64, src: Word64, i: nat)
    requires FieldMasks(b) && i < Width(b.sf)
    ensures FieldBit(b.sf, b.op, b.r, b.s, rd, src, i) <==>
            if !b.tmask[i] then (if b.op == Sbfm then src[b.s] else b.op == Bfm && rd[i])
            else if b.wmask[i] then Ror(src, b.r, Width(b.sf))[i]
            else b.op == Bfm && rd[i]
  {
    var w := Width(b.sf);
    MaskRanges(w, b.r, b.s, i);
    RorBit(src, b.r, w, i);
    MaskAt(b, i);
  }

  lemma MaskAt(b: Bitfield, i: nat)
    requires FieldMasks(b) && i < Width(b.sf)
    ensures var w := Width(b.sf);
            && (b.tmask[i] <==> i < Behind(b.s, b.r, w) + 1)
            && (b.wmask[i] <==> Mod(i + b.r, w) < b.s + 1)
  {
    var w := Width(b.sf);
    assert Mod(i, w) == i;
    assert b.tmask[i] <==> Mod(Mod(i, w) + 0, w) < Behind(b.s, b.r, w) + 1;
    assert b.wmask[i] <==> Mod(Mod(i, w) + b.r, w) < b.s + 1;
  }

  /** The executor's select, for one bit. */
  lemma ExecBit(b: Bitfield, rd: Word64, src: Word64, i: nat)
    requires i < 64 && b.s < Width(b.sf)
    ensures ExecBitfield(b, rd, src)[i] <==>
            i < Width(b.sf) &&
            if !b.tmask[i] then (if b.op == Sbfm then src[b.s] else b.op == Bfm && rd[i])
            else if b.wmask[i] then Ror(src, b.r, Width(b.sf))[i]
            else b.op == Bfm && rd[i]
  {
  }

  /** Where the masks of a bitfield instruction have ones, and which source bit
      the rotation brings there. */
  lemma MaskRanges(w: nat, r: nat, s: nat, i: nat)
    requires r < w && s < w && i < w
    ensures Mod(i, w) == i && Mod(r, w) == r
    ensures var tm, wm := i < Behind(s, r, w) + 1, Mod(i + r, w) < s + 1;
            if s >= r then
              (tm <==> i < s - r + 1) && (tm ==> wm && Mod(i + r, w) == i + r)
            else
              && (tm <==> i < w - r + s + 1) && (i < w - r ==> !wm)
              && (w - r <= i && tm ==> wm && Mod(i + r, w) == i - (w - r))
  {
    Around(s + w - r, w);
    Around(i + r, w);
  }
}
