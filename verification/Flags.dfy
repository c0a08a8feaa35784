/** Condition flags: the interpreter's `AddWithCarry`, the JIT's lazy flags, and
    what each condition decides after a subtraction. Register values are
    unsigned integers; wrap-around is written out. */
module Flags {
  const B28: int := 0x1000_0000
  const B29: int := 0x2000_0000
  const B30: int := 0x4000_0000
  const B31: int := 0x8000_0000
  const B32: int := 0x1_0000_0000
  const B63: int := 0x8000_0000_0000_0000
  const B64: int := 0x1_0000_0000_0000_0000

  type U32 = x: int | 0 <= x < B32
  type U64 = x: int | 0 <= x < B64

  // ---- bitwise operators on naturals ----

  function Pow2(n: nat): (p: nat)
    ensures p > 0
  {
    if n == 0 then 1 else 2 * Pow2(n - 1)
  }

  predicate Bit(x: nat, i: nat) {
    x / Pow2(i) % 2 == 1
  }

  /** The number with the given bits, lowest first. */
  function Value(bits: seq<bool>): (v: nat) {
    if bits == [] then 0 else (if bits[0] then 1 else 0) + 2 * Value(bits[1..])
  }

  /** `x ^ y` on `n`-bit words. */
  function Xor(x: nat, y: nat, n: nat): (r: nat) {
    Value(seq(n, i requires 0 <= i => Bit(x, i) != Bit(y, i)))
  }

  /** `x & y` on `n`-bit words. */
  function And(x: nat, y: nat, n: nat): (r: nat) {
    Value(seq(n, i requires 0 <= i => Bit(x, i) && Bit(y, i)))
  }

  /** `!x` on `n`-bit words. */
  function Not(x: nat, n: nat): (r: nat) {
    Value(seq(n, i requires 0 <= i => !Bit(x, i)))
  }

  lemma HalfDiv(x: nat, p: nat)
    requires p > 0
    ensures x / (2 * p) == x / 2 / p
  {
    var q, r := x / 2 / p, x / 2 % p;
    assert x / 2 == q * p + r;
    assert x == q * (2 * p) + (2 * r + x % 2);
    assert 0 <= 2 * r + x % 2 < 2 * p;
    DivUnique(x, 2 * p, q, 2 * r + x % 2);
  }

  lemma MulMono(a: int, b: int, d: nat)
    requires a <= b
    ensures a * d <= b * d
  {
    assert (b - a) * d >= 0;
  }

  lemma DivUnique(x: nat, d: nat, q: nat, r: nat)
    requires d > 0 && x == q * d + r && r < d
    ensures x / d == q
  {
    var k := x / d;
    assert x == k * d + x % d;
    if k > q {
      MulMono(q + 1, k, d);
    } else if k < q {
      MulMono(k + 1, q, d);
    }
  }

  lemma ModUnique(x: nat, d: nat, q: nat, r: nat)
    requires d > 0 && x == q * d + r && r < d
    ensures x % d == r
  {
    DivUnique(x, d, q, r);
    assert x == x / d * d + x % d;
  }

  lemma BitOfHalf(x: nat, i: nat)
    requires i > 0
    ensures Bit(x, i) == Bit(x / 2, i - 1)
  {
    HalfDiv(x, Pow2(i - 1));
  }

  lemma {:induction false} ValueBound(bits: seq<bool>)
    ensures Value(bits) < Pow2(|bits|)
  {
    if bits != [] {
      ValueBound(bits[1..]);
    }
  }

  lemma {:induction false} ValueBit(bits: seq<bool>, i: nat)
    requires i < |bits|
    ensures Bit(Value(bits), i) == bits[i]
  {
    if i > 0 {
      BitOfHalf(Value(bits), i);
      assert Value(bits) / 2 == Value(bits[1..]);
      ValueBit(bits[1..], i - 1);
    }
  }

  lemma BitXor(x: nat, y: nat, n: nat, i: nat)
    requires i < n
    ensures Bit(Xor(x, y, n), i) <==> Bit(x, i) != Bit(y, i)
  {
    ValueBit(seq(n, i requires 0 <= i => Bit(x, i) != Bit(y, i)), i);
  }

  lemma BitAnd(x: nat, y: nat, n: nat, i: nat)
    requires i < n
    ensures And(x, y, n) < Pow2(n)
    ensures Bit(And(x, y, n), i) <==> Bit(x, i) && Bit(y, i)
  {
    ValueBit(seq(n, i requires 0 <= i => Bit(x, i) && Bit(y, i)), i);
    ValueBound(seq(n, i requires 0 <= i => Bit(x, i) && Bit(y, i)));
  }

  lemma BitNot(x: nat, n: nat, i: nat)
    requires i < n
    ensures Bit(Not(x, n), i) <==> !Bit(x, i)
  {
    ValueBit(seq(n, i requires 0 <= i => !Bit(x, i)), i);
  }

  // ---- the interpreter's flags ----

  datatype Nzcv = Nzcv(n: bool, z: bool, c: bool, v: bool)

  function One(b: bool): (r: int)
    ensures r == 0 || r == 1
  {
    if b then 1 else 0
  }

  /** `set_flags`: bits 31 to 28. */
  function FlagWord(f: Nzcv): (w: U32) {
    One(f.n) * B31 + One(f.z) * B30 + One(f.c) * B29 + One(f.v) * B28
  }

  function Trunc(x: U64, sf: bool): (r: U64)
    ensures r < Modulus(sf)
  {
    if sf then x else x % B32
  }

  function Width(sf: bool): nat {
    if sf then 64 else 32
  }

  function Modulus(sf: bool): int {
    if sf then B64 else B32
  }

  function Half(sf: bool): int {
    if sf then B63 else B31
  }

  /** `x` modulo the width. */
  function Wrap(x: int, sf: bool): (r: int)
    ensures 0 <= r < Modulus(sf)
  {
    if sf then x % B64 else x % B32
  }

  /** `((x ^ r) & (y ^ r)) >> (n - 1) != 0` on `n`-bit words. */
  predicate Overflow(x: nat, y: nat, r: nat, n: nat)
    requires n > 0
  {
    And(Xor(x, r, n), Xor(y, r, n), n) / Pow2(n - 1) != 0
  }

  /** `add_with_carry`, branch by branch; `v` is the overflow flag. */
  function AddFlags(x: U64, y: U64, carry: bool, sf: bool, v: bool): (r: (U64, Nzcv)) {
    if sf then
      var r1 := (x + y) % B64;
      var c1 := x + y >= B64;
      var r := (r1 + One(carry)) % B64;
      var c2 := r1 + One(carry) >= B64;
      (r, Nzcv(r / B63 != 0, r == 0, c1 || c2, v))
    else
      var wide := x % B32 + y % B32 + One(carry);
      var r := wide % B32;
      (r, Nzcv(r / B31 != 0, r == 0, wide / B32 != 0, v))
  }

  function AddWithCarry(x: U64, y: U64, carry: bool, sf: bool): (r: (U64, Nzcv)) {
    var sum := AddFlags(x, y, carry, sf, false).0;
    AddFlags(x, y, carry, sf, Overflow(Trunc(x, sf), Trunc(y, sf), sum, Width(sf)))
  }

  /** `set_logic_flags`. */
  function LogicFlags(r: U64, sf: bool): Nzcv {
    Nzcv((if sf then r / B63 % 2 else r / B31 % 2) != 0, r == 0, false, false)
  }

  // ---- what they mean ----

  /** `x` read as a two's complement number. */
  function Signed(x: int, sf: bool): int {
    if x < Half(sf) then x else x - Modulus(sf)
  }

  /** `AddWithCarry` of the Arm ARM: C and V say whether the truncated result
      differs from the unsigned and the signed sum. */
  function ArmAddWithCarry(x: int, y: int, carry: bool, sf: bool): (r: (int, Nzcv)) {
    var sum := x + y + One(carry);
    var signed := Signed(x, sf) + Signed(y, sf) + One(carry);
    var r := Wrap(sum, sf);
    (r, Nzcv(Signed(r, sf) < 0, r == 0, sum != r, signed != Signed(r, sf)))
  }

  lemma Powers()
    ensures Pow2(31) == B31 && Pow2(32) == B32 && Pow2(63) == B63 && Pow2(64) == B64
  {
    assert Pow2(8) == 256;
    assert Pow2(16) == 65536;
    assert Pow2(24) == 0x100_0000;
    assert Pow2(31) == B31;
    assert Pow2(40) == 0x100_0000_0000;
    assert Pow2(48) == 0x1_0000_0000_0000;
    assert Pow2(56) == 0x100_0000_0000_0000;
  }

  /** The top bit of `(x ^ r) & (y ^ r)` at `n` bits. */
  lemma OverflowBit(x: nat, y: nat, r: nat, n: nat)
    requires n > 0 && x < Pow2(n) && y < Pow2(n) && r < Pow2(n)
    ensures Overflow(x, y, r, n) <==>
            (x >= Pow2(n - 1)) != (r >= Pow2(n - 1)) && (y >= Pow2(n - 1)) != (r >= Pow2(n - 1))
  {
    BitAnd(Xor(x, r, n), Xor(y, r, n), n, n - 1);
    BitXor(x, r, n, n - 1);
    BitXor(y, r, n, n - 1);
    TopBit(x, n);
    TopBit(y, n);
    TopBit(r, n);
    TopBit(And(Xor(x, r, n), Xor(y, r, n), n), n);
  }

  lemma TopBit(x: nat, n: nat)
    requires n > 0 && x < Pow2(n)
    ensures Bit(x, n - 1) <==> x >= Pow2(n - 1)
    ensures x / Pow2(n - 1) == One(x >= Pow2(n - 1))
  {
    var p := Pow2(n - 1);
    if x >= p {
      DivUnique(x, p, 1, x - p);
    } else {
      DivUnique(x, p, 0, x);
    }
  }

  /** The interpreter's flags are those of the Arm ARM, at both widths. */
  lemma AddWithCarryIsArm(x: U64, y: U64, carry: bool, sf: bool)
    ensures AddWithCarry(x, y, carry, sf) == ArmAddWithCarry(Trunc(x, sf), Trunc(y, sf), carry, sf)
  {
    var a, b, r := Trunc(x, sf), Trunc(y, sf), AddFlags(x, y, carry, sf, false).0;
    OverflowSign(a, b, r, sf);
    SumFlags(x, y, carry, sf, Overflow(a, b, r, Width(sf)));
  }

  lemma SumFlags(x: U64, y: U64, carry: bool, sf: bool, v: bool)
    requires var a, b, r := Trunc(x, sf), Trunc(y, sf), AddFlags(x, y, carry, sf, v).0;
             v <==> (a >= Half(sf)) != (r >= Half(sf)) && (b >= Half(sf)) != (r >= Half(sf))
    ensures AddFlags(x, y, carry, sf, v) == ArmAddWithCarry(Trunc(x, sf), Trunc(y, sf), carry, sf)
  {
    if sf {
      SumFlags64(x, y, carry, v);
    } else {
      SumFlags32(x, y, carry, v);
    }
  }

  lemma SumFlags64(x: U64, y: U64, carry: bool, v: bool)
    requires var r := AddFlags(x, y, carry, true, v).0;
             v <==> (x >= B63) != (r >= B63) && (y >= B63) != (r >= B63)
    ensures AddFlags(x, y, carry, true, v) == ArmAddWithCarry(x, y, carry, true)
  {
    Sum64(x, y, One(carry));
  }

  lemma SumFlags32(x: U64, y: U64, carry: bool, v: bool)
    requires var r := AddFlags(x, y, carry, false, v).0;
             v <==> (x % B32 >= B31) != (r >= B31) && (y % B32 >= B31) != (r >= B31)
    ensures AddFlags(x, y, carry, false, v) == ArmAddWithCarry(x % B32, y % B32, carry, false)
  {
    Sum32(x % B32, y % B32, One(carry));
  }

  lemma Sum64(x: U64, y: U64, c: int)
    requires c == 0 || c == 1
    ensures var r := ((x + y) % B64 + c) % B64;
            && r == (x + y + c) % B64
            && (r / B63 != 0 <==> r >= B63)
            && (x + y >= B64 || (x + y) % B64 + c >= B64 <==> x + y + c != r)
            && ((x >= B63) != (r >= B63) && (y >= B63) != (r >= B63) <==>
                Signed(x, true) + Signed(y, true) + c != Signed(r, true))
  {
  }

  lemma Sum32(x: U32, y: U32, c: int)
    requires c == 0 || c == 1
    ensures var r := (x + y + c) % B32;
            && (r / B31 != 0 <==> r >= B31)
            && ((x + y + c) / B32 != 0 <==> x + y + c != r)
            && ((x >= B31) != (r >= B31) && (y >= B31) != (r >= B31) <==>
                Signed(x, false) + Signed(y, false) + c != Signed(r, false))
  {
  }

  lemma OverflowSign(x: U64, y: U64, r: U64, sf: bool)
    requires x < Modulus(sf) && y < Modulus(sf) && r < Modulus(sf)
    ensures Overflow(x, y, r, Width(sf)) <==>
            (x >= Half(sf)) != (r >= Half(sf)) && (y >= Half(sf)) != (r >= Half(sf))
  {
    Powers();
    OverflowBit(x, y, r, Width(sf));
  }

  // ---- the JIT's lazy flags ----

  const ADD64: U32 := 1
  const SUB64: U32 := 2
  const ADD32: U32 := 3
  const SUB32: U32 := 4
  const LOGIC64: U32 := 5
  const LOGIC32: U32 := 6

  /** `(!(a ^ b) & (a ^ r)) >> sh & 1`. */
  predicate AddOverflow(a: U64, b: U64, r: U64, sh: nat) {
    Bit(And(Not(Xor(a, b, 64), 64), Xor(a, r, 64), 64), sh)
  }

  /** `((a ^ b) & (a ^ r)) >> sh & 1`. */
  predicate SubOverflow(a: U64, b: U64, r: U64, sh: nat) {
    Bit(And(Xor(a, b, 64), Xor(a, r, 64), 64), sh)
  }

  /** `lazy_nzcv`. */
  function LazyNzcv(k: U32, a: U64, b: U64, r: U64, old_: U32): (w: U32) {
    if k == 0 then old_ else FlagWord(LazyFlags(k, a, b, r))
  }

  function LazyFlags(k: U32, a: U64, b: U64, r: U64): (f: Nzcv) {
    var sh := if k == ADD32 || k == SUB32 || k == LOGIC32 then 31 else 63;
    var n := Bit(r, sh);
    var z := r == 0;
    var (c, v) :=
      if k == ADD64 || k == ADD32 then
      (r < a, AddOverflow(a, b, r, sh))
      else if k == SUB64 || k == SUB32 then
      (a >= b, SubOverflow(a, b, r, sh))
      else (false, false);
    Nzcv(n, z, c, v)
  }

  function AddKind(sf: bool): U32 { if sf then ADD64 else ADD32 }
  function SubKind(sf: bool): U32 { if sf then SUB64 else SUB32 }
  function LogicKind(sf: bool): U32 { if sf then LOGIC64 else LOGIC32 }

  /** Reading the sign bit of a value that fits the operation's width. */
  lemma SignBit(x: U64, sf: bool)
    requires x < Modulus(sf)
    ensures Bit(x, Width(sf) - 1) <==> x >= Half(sf)
  {
    Powers();
    TopBit(x, Width(sf));
  }

  lemma AddOverflowBit(a: U64, b: U64, r: U64, sh: nat)
    requires sh < 64
    ensures AddOverflow(a, b, r, sh) <==> Bit(a, sh) == Bit(b, sh) && Bit(a, sh) != Bit(r, sh)
  {
    BitAnd(Not(Xor(a, b, 64), 64), Xor(a, r, 64), 64, sh);
    BitNot(Xor(a, b, 64), 64, sh);
    BitXor(a, b, 64, sh);
    BitXor(a, r, 64, sh);
  }

  lemma SubOverflowBit(a: U64, b: U64, r: U64, sh: nat)
    requires sh < 64
    ensures SubOverflow(a, b, r, sh) <==> Bit(a, sh) != Bit(b, sh) && Bit(a, sh) != Bit(r, sh)
  {
    BitAnd(Xor(a, b, 64), Xor(a, r, 64), 64, sh);
    BitXor(a, b, 64, sh);
    BitXor(a, r, 64, sh);
  }

  /** Lazy flags of an addition: the recorded operands and result determine what
      the interpreter would have written. */
  lemma LazyAdd(x: U64, y: U64, sf: bool, old_: U32)
    ensures var (r, f) := AddWithCarry(x, y, false, sf);
            LazyNzcv(AddKind(sf), Trunc(x, sf), Trunc(y, sf), r, old_) == FlagWord(f)
  {
    AddWithCarryIsArm(x, y, false, sf);
    LazyAddFlags(Trunc(x, sf), Trunc(y, sf), sf, AddWithCarry(x, y, false, sf));
  }

  lemma LazyAddFlags(a: U64, b: U64, sf: bool, p: (U64, Nzcv))
    requires a < Modulus(sf) && b < Modulus(sf) && p == ArmAddWithCarry(a, b, false, sf)
    ensures LazyFlags(AddKind(sf), a, b, p.0) == p.1
  {
    var r := p.0;
    assert r == Wrap(a + b, sf);
    AddOverflowBit(a, b, r, Width(sf) - 1);
    SignBit(a, sf);
    SignBit(b, sf);
    SignBit(r, sf);
    AddSigns(a, b, sf);
  }

  lemma AddSigns(a: int, b: int, sf: bool)
    requires 0 <= a < Modulus(sf) && 0 <= b < Modulus(sf)
    ensures var r, h := Wrap(a + b, sf), Half(sf);
            && (r < a <==> a + b != r)
            && ((a >= h) == (b >= h) && (a >= h) != (r >= h) <==> Signed(a, sf) + Signed(b, sf) != Signed(r, sf))
            && (r >= h <==> Signed(r, sf) < 0)
  {
    if sf {
    } else {
    }
  }

  /** The interpreter subtracts by adding the complement with carry. */
  function Sub(x: U64, y: U64, sf: bool): (r: (U64, Nzcv)) {
    AddWithCarry(x, B64 - 1 - y, true, sf)
  }

  /** The flags of `a - b` in terms of the operands themselves. */
  function Difference(a: int, b: int, sf: bool): (int, Nzcv) {
    var r := Wrap(a - b, sf);
    (r, Nzcv(r >= Half(sf), a == b, a >= b, Signed(a, sf) - Signed(b, sf) != Signed(r, sf)))
  }

  lemma SubIs(x: U64, y: U64, sf: bool)
    ensures Sub(x, y, sf) == Difference(Trunc(x, sf), Trunc(y, sf), sf)
  {
    AddWithCarryIsArm(x, B64 - 1 - y, true, sf);
    Complement(y, sf);
    SubFlags(Trunc(x, sf), Trunc(y, sf), sf);
  }

  lemma Complement(y: U64, sf: bool)
    ensures Trunc(B64 - 1 - y, sf) == Modulus(sf) - 1 - Trunc(y, sf)
  {
  }

  lemma SubFlags(a: int, b: int, sf: bool)
    requires 0 <= a < Modulus(sf) && 0 <= b < Modulus(sf)
    ensures ArmAddWithCarry(a, Modulus(sf) - 1 - b, true, sf) == Difference(a, b, sf)
  {
    if sf {
      SubFlags64(a, b);
    } else {
      SubFlags32(a, b);
    }
  }

  lemma SubFlags64(a: U64, b: U64)
    ensures ArmAddWithCarry(a, B64 - 1 - b, true, true) == Difference(a, b, true)
  {
    assert Wrap(a + (B64 - 1 - b) + 1, true) == Wrap(a - b, true);
  }

  lemma SubFlags32(a: U32, b: U32)
    ensures ArmAddWithCarry(a, B32 - 1 - b, true, false) == Difference(a, b, false)
  {
    assert Wrap(a + (B32 - 1 - b) + 1, false) == Wrap(a - b, false);
  }

  lemma LazySub(x: U64, y: U64, sf: bool, old_: U32)
    ensures var (r, f) := Sub(x, y, sf);
            LazyNzcv(SubKind(sf), Trunc(x, sf), Trunc(y, sf), r, old_) == FlagWord(f)
  {
    SubIs(x, y, sf);
    LazySubFlags(Trunc(x, sf), Trunc(y, sf), sf);
  }

  lemma LazySubFlags(a: U64, b: U64, sf: bool)
    requires a < Modulus(sf) && b < Modulus(sf)
    ensures LazyFlags(SubKind(sf), a, b, Wrap(a - b, sf)) == Difference(a, b, sf).1
  {
    var r := Wrap(a - b, sf);
    SubOverflowBit(a, b, r, Width(sf) - 1);
    SignBit(a, sf);
    SignBit(b, sf);
    SignBit(r, sf);
    SubSigns(a, b, sf);
  }

  lemma SubSigns(a: int, b: int, sf: bool)
    requires 0 <= a < Modulus(sf) && 0 <= b < Modulus(sf)
    ensures var r, h := Wrap(a - b, sf), Half(sf);
            && ((a >= h) != (b >= h) && (a >= h) != (r >= h) <==> Signed(a, sf) - Signed(b, sf) != Signed(r, sf))
            && (r == 0 <==> a == b)
  {
    if sf {
    } else {
    }
  }

  /** After a logical operation C and V are clear, Z says that the result is zero and
      N that it is negative as a two's complement number. */
  lemma LogicFlagsMean(r: U64, sf: bool)
    requires r < Modulus(sf)
    ensures var f := LogicFlags(r, sf); f.n == (Signed(r, sf) < 0) && f.z == (r == 0) && !f.c && !f.v
  {
  }

  lemma LazyLogic(r: U64, sf: bool, a: U64, b: U64, old_: U32)
    requires r < Modulus(sf)
    ensures LazyNzcv(LogicKind(sf), a, b, r, old_) == FlagWord(LogicFlags(r, sf))
  {
    SignBit(r, sf);
  }

  // ---- conditions ----

  /** `condition_holds` on a flag word. */
  predicate ConditionHolds(w: U32, cond: nat)
    requires cond < 16
  {
    var (n, z, c, v) := (w / B31 % 2 != 0, w / B30 % 2 != 0, w / B29 % 2 != 0, w / B28 % 2 != 0);
    var r := match cond / 2
      case 0 => z
      case 1 => c
      case 2 => n
      case 3 => v
      case 4 => c && !z
      case 5 => n == v
      case 6 => n == v && !z
      case _ => true;
    if cond % 2 == 1 && cond != 15 then !r else r
  }

  /** After `CMP x, y` (the flags of `x - y`) every condition decides its
      comparison: EQ/NE, HS/LO, HI/LS unsigned, GE/LT, GT/LE signed; MI/PL the
      sign of the truncated difference, VS/VC whether the signed difference does
      not fit. */
  lemma ConditionsCompare(x: U64, y: U64, sf: bool)
    ensures var w, a, b := FlagWord(Sub(x, y, sf).1), Trunc(x, sf), Trunc(y, sf);
            var s, t := Signed(a, sf), Signed(b, sf);
            && (ConditionHolds(w, 0) <==> a == b) && (ConditionHolds(w, 1) <==> a != b)
            && (ConditionHolds(w, 2) <==> a >= b) && (ConditionHolds(w, 3) <==> a < b)
            && (ConditionHolds(w, 8) <==> a > b) && (ConditionHolds(w, 9) <==> a <= b)
            && (ConditionHolds(w, 10) <==> s >= t) && (ConditionHolds(w, 11) <==> s < t)
            && (ConditionHolds(w, 12) <==> s > t) && (ConditionHolds(w, 13) <==> s <= t)
            && (ConditionHolds(w, 4) <==> Signed(Wrap(a - b, sf), sf) < 0)
            && (ConditionHolds(w, 5) <==> Signed(Wrap(a - b, sf), sf) >= 0)
            && (ConditionHolds(w, 6) <==> !(-Half(sf) <= s - t < Half(sf)))
            && (ConditionHolds(w, 7) <==> -Half(sf) <= s - t < Half(sf))
            && ConditionHolds(w, 14) && ConditionHolds(w, 15)
  {
    SubIs(x, y, sf);
    FlagBits(Sub(x, y, sf).1);
    SignedRange(Trunc(x, sf), Trunc(y, sf), sf);
  }

  lemma SignedRange(a: int, b: int, sf: bool)
    requires 0 <= a < Modulus(sf) && 0 <= b < Modulus(sf)
    ensures var s, t, r := Signed(a, sf), Signed(b, sf), Signed(Wrap(a - b, sf), sf);
            && (s - t == r <==> -Half(sf) <= s - t < Half(sf))
            && (r < 0 <==> Wrap(a - b, sf) >= Half(sf))
            && ((r < 0) == (s - t != r) <==> s >= t)
            && (s == t <==> a == b)
  {
    if sf {
    } else {
    }
  }

  lemma FlagBits(f: Nzcv)
    ensures var w := FlagWord(f);
            && (w / B31 % 2 != 0) == f.n && (w / B30 % 2 != 0) == f.z
            && (w / B29 % 2 != 0) == f.c && (w / B28 % 2 != 0) == f.v
  {
  }
}
