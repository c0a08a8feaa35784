/** The expression evaluator of the GLSL preprocessor: precedence climbing over a
    token list with a cursor. */
module GlslExpr {
  import opened AddressSpace
  import opened Flags

  type I64 = x: int | -B63 <= x < B63

  datatype Tok = Id(name: string) | Num(n: I64) | P(c: char)

  // Two-character operators are lexed to one character.
  const NE: char := '\U{2260}'
  const LE: char := '\U{2264}'
  const GE: char := '\U{2265}'
  const SHL: char := '\U{00AB}'
  const SHR: char := '\U{00BB}'

  /** `prec`, 0 for what is no binary operator. */
  function Prec(c: char): (p: nat)
    ensures p <= 7
  {
    if c == '|' then 1
    else if c == '&' then 2
    else if c == '=' || c == NE then 3
    else if c == '<' || c == '>' || c == LE || c == GE then 4
    else if c == SHL || c == SHR then 5
    else if c == '+' || c == '-' then 6
    else if c == '*' || c == '/' || c == '%' then 7
    else 0
  }

  // ---- 64-bit arithmetic ----

  function Wrap64(x: int): (r: I64) {
    (x + B63) % B64 - B63
  }

  function Truth(b: bool): I64 {
    if b then 1 else 0
  }

  /** Division toward zero. */
  function Quot(l: int, r: int): int
    requires r != 0
  {
    if (l < 0) == (r < 0) then Abs(l) / Abs(r) else 0 - Abs(l) / Abs(r)
  }

  function Abs(x: int): nat {
    if x < 0 then 0 - x else x
  }

  /** `checked_div(..).unwrap_or(0)`. */
  function Div(l: I64, r: I64): (q: I64) {
    if r == 0 || (l == -B63 && r == -1) then 0
    else
      QuotRange(l, r);
      Quot(l, r)
  }

  function Rem(l: I64, r: I64): (m: I64) {
    if r == 0 || (l == -B63 && r == -1) then 0
    else
      QuotRange(l, r);
      l - Quot(l, r) * r
  }

  lemma QuotRange(l: I64, r: I64)
    requires r != 0 && !(l == -B63 && r == -1)
    ensures -B63 <= Quot(l, r) < B63 && -B63 <= l - Quot(l, r) * r < B63
    ensures Abs(l - Quot(l, r) * r) < Abs(r)
  {
    Remains(l, r);
    Fits(l, r);
  }

  lemma Fits(l: I64, r: I64)
    requires r != 0 && !(l == -B63 && r == -1)
    ensures -B63 <= Quot(l, r) < B63
  {
    var q, m := DivMod(Abs(l), Abs(r));
    QuotBound(Abs(l), Abs(r), q, m);
    if Abs(r) == 1 {
      assert q == Abs(l);
    }
  }

  lemma Remains(l: I64, r: I64)
    requires r != 0
    ensures Abs(l - Quot(l, r) * r) < Abs(r)
  {
    var q, m := DivMod(Abs(l), Abs(r));
    QuotSign(l, r, q, m);
  }

  lemma DivMod(a: nat, b: nat) returns (q: nat, m: nat)
    requires b > 0
    ensures q == a / b && m < b && a == q * b + m
  {
    q, m := a / b, a % b;
  }

  lemma QuotBound(a: nat, b: nat, q: nat, m: nat)
    requires b > 0 && a == q * b + m
    ensures q <= a && (b > 1 ==> 2 * q <= a)
  {
    assert q * b >= q * 1 by { MulMono(1, b, q); }
    if b > 1 {
      MulMono(2, b, q);
    }
  }

  lemma QuotSign(l: int, r: int, q: int, m: int)
    requires r != 0 && Abs(l) == q * Abs(r) + m && q == Abs(l) / Abs(r) && 0 <= m < Abs(r)
    ensures l - Quot(l, r) * r == if l < 0 then 0 - m else m
  {
    if r > 0 {
      assert (0 - q) * r == 0 - q * r;
    } else {
      assert q * (0 - r) == 0 - q * r && (0 - q) * r == 0 - q * r;
    }
  }

  function ShiftLeft(l: I64, k: nat): I64 {
    if k == 0 then l else Wrap64(2 * ShiftLeft(l, k - 1))
  }

  /** An arithmetic shift rounds down. */
  function ShiftRight(l: I64, k: nat): I64 {
    if k == 0 then l else ShiftRight(l, k - 1) / 2
  }

  function ApplyBin(c: char, l: I64, r: I64): I64 {
    if c == '|' then Truth(l != 0 || r != 0)
    else if c == '&' then Truth(l != 0 && r != 0)
    else if c == '=' then Truth(l == r)
    else if c == NE then Truth(l != r)
    else if c == '<' then Truth(l < r)
    else if c == '>' then Truth(l > r)
    else if c == LE then Truth(l <= r)
    else if c == GE then Truth(l >= r)
    else if c == SHL then ShiftLeft(l, r % 64)
    else if c == SHR then ShiftRight(l, r % 64)
    else if c == '+' then Wrap64(l + r)
    else if c == '-' then Wrap64(l - r)
    else if c == '*' then Wrap64(l * r)
    else if c == '/' then Div(l, r)
    else if c == '%' then Rem(l, r)
    else l
  }

  function ApplyUn(c: char, v: I64): I64 {
    if c == '!' then Truth(v == 0)
    else if c == '-' then Wrap64(0 - v)
    else if c == '~' then -1 - v
    else v
  }

  predicate IsUnary(c: char) {
    c == '!' || c == '-' || c == '+' || c == '~'
  }

  // ---- what the operators mean ----

  /** `v` is the 64-bit number congruent to `x`. */
  ghost predicate Congruent(v: I64, x: int) {
    (v - x) % B64 == 0
  }

  lemma WrapCongruent(x: int)
    ensures Congruent(Wrap64(x), x)
  {
  }

  /** Comparisons and connectives: 1 exactly if they hold, otherwise 0. */
  lemma RelationsMean(l: I64, r: I64)
    ensures ApplyBin('|', l, r) == if l != 0 || r != 0 then 1 else 0
    ensures ApplyBin('&', l, r) == if l != 0 && r != 0 then 1 else 0
    ensures ApplyBin('=', l, r) == if l == r then 1 else 0
    ensures ApplyBin(NE, l, r) == if l == r then 0 else 1
    ensures ApplyBin('<', l, r) == if l < r then 1 else 0
    ensures ApplyBin('>', l, r) == if r < l then 1 else 0
    ensures ApplyBin(LE, l, r) == if r < l then 0 else 1
    ensures ApplyBin(GE, l, r) == if l < r then 0 else 1
  {
  }

  /** Sums, differences and products modulo `2^64`, as two's complement numbers. */
  lemma SumsMean(l: I64, r: I64)
    ensures Congruent(ApplyBin('+', l, r), l + r) && Congruent(ApplyBin('-', l, r), l - r)
    ensures Congruent(ApplyBin('*', l, r), l * r)
    ensures -B63 <= l + r < B63 ==> ApplyBin('+', l, r) == l + r
    ensures -B63 <= l - r < B63 ==> ApplyBin('-', l, r) == l - r
    ensures -B63 <= l * r < B63 ==> ApplyBin('*', l, r) == l * r
  {
    var p := l * r;
    assert ApplyBin('*', l, r) == Wrap64(p);
    WrapCongruent(l + r);
    WrapCongruent(l - r);
    WrapCongruent(p);
    WrapSmall(l + r);
    WrapSmall(l - r);
    WrapSmall(p);
  }

  lemma WrapSmall(x: int)
    ensures -B63 <= x < B63 ==> Wrap64(x) == x
  {
  }

  /** Quotient and remainder of a division toward zero, both 0 where it is not
      defined. */
  lemma QuotientsMean(l: I64, r: I64)
    ensures var q, m := ApplyBin('/', l, r), ApplyBin('%', l, r);
            if r == 0 || (l == -B63 && r == -1) then q == 0 && m == 0
            else l == q * r + m && Abs(m) < Abs(r) && (m == 0 || (m < 0 <==> l < 0))
  {
    if r != 0 && !(l == -B63 && r == -1) {
      var q, m := DivMod(Abs(l), Abs(r));
      QuotSign(l, r, q, m);
      QuotRange(l, r);
    }
  }

  /** Shifts by the low six bits of the right operand: multiplication modulo `2^64`
      and division that rounds down. */
  lemma ShiftsMean(l: I64, r: I64)
    ensures Congruent(ApplyBin(SHL, l, r), l * Pow2(r % 64)) && ApplyBin(SHR, l, r) == l / Pow2(r % 64)
  {
    LeftIs(l, r % 64);
    RightIs(l, r % 64);
  }

  lemma {:induction false} LeftIs(l: I64, k: nat)
    ensures Congruent(ShiftLeft(l, k), l * Pow2(k))
  {
    if k > 0 {
      LeftIs(l, k - 1);
      var x: int := l * Pow2(k - 1);
      Twice(l, Pow2(k - 1));
      DoubleCongruent(ShiftLeft(l, k - 1), x);
    }
  }

  lemma Twice(l: int, p: int)
    ensures l * (2 * p) == 2 * (l * p)
  {
  }

  lemma DoubleCongruent(v: I64, x: int)
    requires Congruent(v, x)
    ensures Congruent(Wrap64(2 * v), 2 * x)
  {
    var w: int := 2 * v;
    WrapCongruent(w);
    var y, k, m := Wrap64(w), (v - x) / B64, (Wrap64(w) - w) / B64;
    assert v - x == B64 * k && y - w == B64 * m;
    assert y - 2 * x == B64 * (m + 2 * k);
  }

  lemma {:induction false} RightIs(l: I64, k: nat)
    ensures ShiftRight(l, k) == l / Pow2(k)
  {
    if k > 0 {
      RightIs(l, k - 1);
      HalfFloor(l, Pow2(k - 1));
    }
  }

  /** Rounding down twice. */
  lemma HalfFloor(l: int, p: nat)
    requires p > 0
    ensures l / p / 2 == l / (2 * p)
  {
    var q, h := l / p, l / p / 2;
    var r := l - q * p;
    assert 0 <= r < p && q == 2 * h + q % 2;
    assert q * p == h * (2 * p) + q % 2 * p by {
      assert (2 * h + q % 2) * p == h * (2 * p) + q % 2 * p;
    }
    FloorUnique(l, 2 * p, h, q % 2 * p + r);
  }

  lemma FloorUnique(x: int, d: nat, q: int, r: int)
    requires d > 0 && x == q * d + r && 0 <= r < d
    ensures x / d == q
  {
    var k := x / d;
    assert x == k * d + x % d;
    if k > q {
      MulMono(q + 1, k, d);
    } else if k < q {
      MulMono(k + 1, q, d);
    }
  }

  lemma UnaryMeans(v: I64)
    ensures ApplyUn('!', v) == if v == 0 then 1 else 0
    ensures Congruent(ApplyUn('-', v), 0 - v) && ApplyUn('+', v) == v
    ensures ApplyUn('~', v) + v == -1
  {
    WrapCongruent(0 - v);
  }

  /** The meaning of the operators, for the evaluator and for trees. */
  datatype Ops = Ops(un: (char, I64) -> I64, bin: (char, I64, I64) -> I64)

  function Glsl(): Ops {
    Ops((c, v) => ApplyUn(c, v), (c, l, r) => ApplyBin(c, l, r))
  }

  // ---- what the cursor functions compute ----

  /** Tokens left. */
  function Left(t: seq<Tok>, i: nat): nat {
    if i < |t| then |t| - i else 0
  }

  predicate At(t: seq<Tok>, i: nat, c: char) {
    i < |t| && t[i] == P(c)
  }

  /** Precedence of the binary operator at `i`, 0 if there is none. */
  function NextPrec(t: seq<Tok>, i: nat): (p: nat)
    ensures p > 0 ==> i < |t|
  {
    if i < |t| && t[i].P? then Prec(t[i].c) else 0
  }

  /** `unary` from token `i`: its value and the token after it. */
  function ParseU(o: Ops, t: seq<Tok>, i: nat): (r: (I64, nat))
    ensures r.1 > i
    decreases Left(t, i), 1
  {
    if i < |t| && t[i].Num? then (t[i].n, i + 1)
    else if At(t, i, '(') then
      var (v, j) := ParseB(o, t, i + 1, 0);
      (v, if At(t, j, ')') then j + 1 else j)
    else if i < |t| && t[i].P? && IsUnary(t[i].c) then
      var (v, j) := ParseU(o, t, i + 1);
      (o.un(t[i].c, v), j)
    else (0, i + 1)
  }

  /** `binary`. */
  function ParseB(o: Ops, t: seq<Tok>, i: nat, min: nat): (r: (I64, nat))
    ensures r.1 > i
    decreases Left(t, i), 2
  {
    var (l, j) := ParseU(o, t, i);
    Climb(o, t, j, min, l)
  }

  /** The loop of `binary`, with `l` so far. */
  function Climb(o: Ops, t: seq<Tok>, i: nat, min: nat, l: I64): (r: (I64, nat))
    ensures r.1 >= i
    decreases Left(t, i), 0
  {
    if NextPrec(t, i) > min then
      var (v, j) := ParseB(o, t, i + 1, NextPrec(t, i));
      Climb(o, t, j, min, o.bin(t[i].c, l, v))
    else (l, i)
  }

  /** The cursor over a token list. */
  class Expr {
    const t: seq<Tok>
    var i: nat

    constructor (t: seq<Tok>)
      ensures this.t == t && i == 0
    {
      this.t := t;
      i := 0;
    }

    method Unary() returns (v: I64)
      modifies this
      ensures (v, i) == ParseU(Glsl(), t, old(i))
      decreases Left(t, i), 1
    {
      if i < |t| && t[i].Num? {
        v := t[i].n;
        i := i + 1;
      } else if At(t, i, '(') {
        i := i + 1;
        v := Binary(0);
        if At(t, i, ')') {
          i := i + 1;
        }
      } else if i < |t| && t[i].P? && IsUnary(t[i].c) {
        var c := t[i].c;
        i := i + 1;
        v := Unary();
        v := ApplyUn(c, v);
      } else {
        i := i + 1;
        v := 0;
      }
    }

    method Binary(min: nat) returns (l: I64)
      modifies this
      ensures (l, i) == ParseB(Glsl(), t, old(i), min)
      decreases Left(t, i), 2
    {
      l := Unary();
      while NextPrec(t, i) > min
        invariant i > old(i) && Climb(Glsl(), t, i, min, l) == ParseB(Glsl(), t, old(i), min)
        decreases Left(t, i)
      {
        var c, p := t[i].c, NextPrec(t, i);
        i := i + 1;
        var r := Binary(p);
        l := ApplyBin(c, l, r);
      }
    }
  }

  // ---- expression trees and their shortest notation ----

  datatype Tree = Lit(n: I64) | Name(name: string) | Un(op: char, x: Tree) | Bin(op: char, l: Tree, r: Tree)

  predicate IsTree(e: Tree) {
    match e
    case Un(c, x) => IsUnary(c) && IsTree(x)
    case Bin(c, l, r) => Prec(c) > 0 && IsTree(l) && IsTree(r)
    case _ => true
  }

  /** The value: identifiers that no macro replaced are 0. */
  function Value(o: Ops, e: Tree): I64 {
    match e
    case Lit(n) => n
    case Name(_) => 0
    case Un(c, x) => o.un(c, Value(o, x))
    case Bin(c, l, r) => o.bin(c, Value(o, l), Value(o, r))
  }

  /** How tightly the outermost construct binds. */
  function Level(e: Tree): nat {
    if e.Bin? then Prec(e.op) else 8
  }

  /** Without outer parentheses. */
  function Show(e: Tree): (t: seq<Tok>)
    decreases e, 0
  {
    match e
    case Lit(n) => [Num(n)]
    case Name(s) => [Id(s)]
    case Un(c, x) => [P(c)] + ShowIn(x, 7)
    case Bin(c, l, r) => ShowIn(l, if Prec(c) > 0 then Prec(c) - 1 else 0) + [P(c)] + ShowIn(r, Prec(c))
  }

  /** In a place that needs a level above `m`: parentheses only if they are
      needed. A left operand may have the level of its operator, a right one
      binds tighter. */
  function ShowIn(e: Tree, m: nat): (t: seq<Tok>)
    decreases e, 1
  {
    if Level(e) > m then Show(e) else [P('(')] + Show(e) + [P(')')]
  }

  /** `w` stands in `t` from token `i` on. */
  ghost predicate Stands(t: seq<Tok>, i: nat, w: seq<Tok>) {
    i + |w| <= |t| && t[i..i + |w|] == w
  }

  lemma StandsParts(t: seq<Tok>, i: nat, a: seq<Tok>, b: seq<Tok>)
    requires Stands(t, i, a + b)
    ensures Stands(t, i, a) && Stands(t, i + |a|, b)
  {
    var w := t[i..i + |a + b|];
    assert w[..|a|] == a && w[|a|..] == b;
    assert t[i..i + |a|] == w[..|a|] && t[i + |a|..i + |a| + |b|] == w[|a|..];
  }

  lemma StandsOne(t: seq<Tok>, i: nat, x: Tok)
    requires Stands(t, i, [x])
    ensures i < |t| && t[i] == x
  {
    assert t[i..i + 1][0] == x;
  }

  lemma StandsBetween(t: seq<Tok>, i: nat, l: seq<Tok>, x: Tok, r: seq<Tok>)
    requires Stands(t, i, l + [x] + r)
    ensures |l + [x] + r| == |l| + 1 + |r|
    ensures Stands(t, i, l) && i + |l| < |t| && t[i + |l|] == x && Stands(t, i + |l| + 1, r)
  {
    StandsParts(t, i, l + [x], r);
    StandsParts(t, i, l, [x]);
    StandsOne(t, i + |l|, x);
  }

  lemma StandsAround(t: seq<Tok>, i: nat, x: Tok, w: seq<Tok>, y: Tok)
    requires Stands(t, i, [x] + w + [y])
    ensures i < |t| && t[i] == x && Stands(t, i + 1, w) && i + 1 + |w| < |t| && t[i + 1 + |w|] == y
  {
    StandsParts(t, i, [x] + w, [y]);
    StandsParts(t, i, [x], w);
    StandsOne(t, i, x);
    StandsOne(t, i + 1 + |w|, y);
  }

  /** An operand of a unary operator is one `unary`. */
  lemma {:induction false} ParsesUnary(o: Ops, e: Tree, t: seq<Tok>, i: nat)
    requires IsTree(e) && Stands(t, i, ShowIn(e, 7))
    ensures ParseU(o, t, i) == (Value(o, e), i + |ShowIn(e, 7)|)
    decreases e, 3
  {
    if Level(e) > 7 {
      ParsesSimple(o, e, t, i);
    } else {
      ParsesParens(o, e, t, i);
    }
  }

  lemma {:induction false} ParsesSimple(o: Ops, e: Tree, t: seq<Tok>, i: nat)
    requires IsTree(e) && !e.Bin? && Stands(t, i, Show(e))
    ensures ParseU(o, t, i) == (Value(o, e), i + |Show(e)|)
    decreases e, 0
  {
    match e {
      case Lit(n) => StandsOne(t, i, Num(n));
      case Name(s) => StandsOne(t, i, Id(s));
      case Un(c, x) =>
        StandsParts(t, i, [P(c)], ShowIn(x, 7));
        StandsOne(t, i, P(c));
        ParsesUnary(o, x, t, i + 1);
    }
  }

  /** So is anything in parentheses. */
  lemma {:induction false} ParsesParens(o: Ops, e: Tree, t: seq<Tok>, i: nat)
    requires IsTree(e) && Stands(t, i, [P('(')] + Show(e) + [P(')')])
    ensures ParseU(o, t, i) == (Value(o, e), i + |Show(e)| + 2)
    decreases e, 2
  {
    var w := Show(e);
    StandsAround(t, i, P('('), w, P(')'));
    Parses(o, e, t, i + 1, 0);
    Stops(o, t, i + 1 + |w|, 0, Value(o, e));
  }

  lemma Stops(o: Ops, t: seq<Tok>, i: nat, min: nat, v: I64)
    requires NextPrec(t, i) <= min
    ensures Climb(o, t, i, min, v) == (v, i)
  {
  }

  /** The printed tree is what `binary` reads, and its loop goes on after it. */
  lemma {:induction false} Parses(o: Ops, e: Tree, t: seq<Tok>, i: nat, min: nat)
    requires IsTree(e) && Stands(t, i, Show(e)) && min < Level(e) && NextPrec(t, i + |Show(e)|) <= Level(e)
    ensures ParseB(o, t, i, min) == Climb(o, t, i + |Show(e)|, min, Value(o, e))
    decreases e, 1
  {
    if e.Bin? {
      ParsesBin(o, e, t, i, min);
    } else {
      ParsesSimple(o, e, t, i);
    }
  }

  /** The same in parentheses, if the place needs them. */
  lemma {:induction false} ParsesIn(o: Ops, e: Tree, m: nat, t: seq<Tok>, i: nat, min: nat)
    requires IsTree(e) && min <= m && Stands(t, i, ShowIn(e, m))
    requires Level(e) > m ==> NextPrec(t, i + |ShowIn(e, m)|) <= Level(e)
    ensures ParseB(o, t, i, min) == Climb(o, t, i + |ShowIn(e, m)|, min, Value(o, e))
    decreases e, 3
  {
    if Level(e) > m {
      Parses(o, e, t, i, min);
    } else {
      ParsesParens(o, e, t, i);
    }
  }

  lemma {:induction false} ParsesBin(o: Ops, e: Tree, t: seq<Tok>, i: nat, min: nat)
    requires IsTree(e) && e.Bin? && Stands(t, i, Show(e)) && min < Level(e) && NextPrec(t, i + |Show(e)|) <= Level(e)
    ensures ParseB(o, t, i, min) == Climb(o, t, i + |Show(e)|, min, Value(o, e))
    decreases e, 0
  {
    var l, r := ShowIn(e.l, Prec(e.op) - 1), ShowIn(e.r, Prec(e.op));
    BinStands(e, t, i, l, r);
    var j := i + |l|;
    ParsesLeft(o, e.l, e.op, t, i, min, l);
    ParsesRight(o, e.r, e.op, t, j + 1, r);
    Climbs(o, t, i, j, min, Value(o, e.l), Value(o, e.r), j + 1 + |r|);
  }

  lemma BinStands(e: Tree, t: seq<Tok>, i: nat, l: seq<Tok>, r: seq<Tok>)
    requires e.Bin? && Prec(e.op) > 0 && Stands(t, i, Show(e)) && l == ShowIn(e.l, Prec(e.op) - 1) && r == ShowIn(e.r, Prec(e.op))
    ensures |Show(e)| == |l| + 1 + |r|
    ensures Stands(t, i, l) && i + |l| < |t| && t[i + |l|] == P(e.op) && Stands(t, i + |l| + 1, r)
  {
    StandsBetween(t, i, l, P(e.op), r);
  }

  lemma {:induction false} ParsesLeft(o: Ops, e: Tree, op: char, t: seq<Tok>, i: nat, min: nat, l: seq<Tok>)
    requires IsTree(e) && min < Prec(op) && l == ShowIn(e, Prec(op) - 1) && Stands(t, i, l) && At(t, i + |l|, op)
    ensures ParseB(o, t, i, min) == Climb(o, t, i + |l|, min, Value(o, e))
    decreases e, 4
  {
    ParsesIn(o, e, Prec(op) - 1, t, i, min);
  }

  lemma {:induction false} ParsesRight(o: Ops, e: Tree, op: char, t: seq<Tok>, i: nat, r: seq<Tok>)
    requires IsTree(e) && r == ShowIn(e, Prec(op)) && Stands(t, i, r) && NextPrec(t, i + |r|) <= Prec(op)
    ensures ParseB(o, t, i, Prec(op)) == Climb(o, t, i + |r|, Prec(op), Value(o, e))
    decreases e, 4
  {
    ParsesIn(o, e, Prec(op), t, i, Prec(op));
  }

  /** One turn of the loop. */
  lemma Climbs(o: Ops, t: seq<Tok>, i: nat, j: nat, min: nat, l: I64, r: I64, k: nat)
    requires ParseB(o, t, i, min) == Climb(o, t, j, min, l) && NextPrec(t, j) > min
    requires ParseB(o, t, j + 1, NextPrec(t, j)) == Climb(o, t, k, NextPrec(t, j), r) && NextPrec(t, k) <= NextPrec(t, j)
    ensures ParseB(o, t, i, min) == Climb(o, t, k, min, o.bin(t[j].c, l, r))
  {
    Stops(o, t, k, NextPrec(t, j), r);
  }

  /** Every expression, printed with only the parentheses that precedence and left
      associativity need, evaluates to its value, and exactly its tokens are
      consumed. */
  lemma EvaluatesTrees(e: Tree)
    requires IsTree(e)
    ensures ParseB(Glsl(), Show(e), 0, 0) == (Value(Glsl(), e), |Show(e)|)
  {
    var t := Show(e);
    assert t[0..|t|] == t;
    Parses(Glsl(), e, t, 0, 0);
    Stops(Glsl(), t, |t|, 0, Value(Glsl(), e));
  }

  // ---- which operator binds tighter ----

  /** The binary operators, the loosest first; those of one group bind alike. */
  const GROUPS: seq<seq<char>> :=
    [['|'], ['&'], ['=', NE], ['<', '>', LE, GE], [SHL, SHR], ['+', '-'], ['*', '/', '%']]

  lemma PrecIsGroup(c: char, g: nat)
    requires g < |GROUPS| && c in GROUPS[g]
    ensures Prec(c) == g + 1
  {
  }

  /** Nothing else is a binary operator. */
  lemma OnlyGroups(c: char)
    requires Prec(c) > 0
    ensures c in GROUPS[Prec(c) - 1]
  {
  }

  /** `a op b op2 c`: the operator of the later group goes first; of one group, the
      left one. */
  lemma TighterFirst(a: I64, op: char, g: nat, b: I64, op2: char, g2: nat, c: I64)
    requires g < |GROUPS| && op in GROUPS[g] && g2 < |GROUPS| && op2 in GROUPS[g2]
    ensures ParseB(Glsl(), [Num(a), P(op), Num(b), P(op2), Num(c)], 0, 0).0 ==
            if g2 > g then ApplyBin(op, a, ApplyBin(op2, b, c)) else ApplyBin(op2, ApplyBin(op, a, b), c)
  {
    PrecIsGroup(op, g);
    PrecIsGroup(op2, g2);
    if g2 > g {
      ShowRight(a, op, b, op2, c);
      var inner := Bin(op2, Lit(b), Lit(c));
      EvaluatesTrees(Bin(op, Lit(a), inner));
      assert Value(Glsl(), inner) == ApplyBin(op2, b, c);
    } else {
      ShowLeft(a, op, b, op2, c);
      var inner := Bin(op, Lit(a), Lit(b));
      EvaluatesTrees(Bin(op2, inner, Lit(c)));
      assert Value(Glsl(), inner) == ApplyBin(op, a, b);
    }
  }

  lemma ShowLits(l: I64, op: char, r: I64)
    requires Prec(op) > 0
    ensures Show(Bin(op, Lit(l), Lit(r))) == [Num(l), P(op), Num(r)]
  {
    assert ShowIn(Lit(l), Prec(op) - 1) == [Num(l)] && ShowIn(Lit(r), Prec(op)) == [Num(r)];
  }

  lemma ShowRight(a: I64, op: char, b: I64, op2: char, c: I64)
    requires 0 < Prec(op) < Prec(op2)
    ensures Show(Bin(op, Lit(a), Bin(op2, Lit(b), Lit(c)))) == [Num(a), P(op), Num(b), P(op2), Num(c)]
  {
    var inner := Bin(op2, Lit(b), Lit(c));
    ShowLits(b, op2, c);
    assert ShowIn(Lit(a), Prec(op) - 1) == [Num(a)] && ShowIn(inner, Prec(op)) == Show(inner);
  }

  lemma ShowLeft(a: I64, op: char, b: I64, op2: char, c: I64)
    requires 0 < Prec(op2) <= Prec(op)
    ensures Show(Bin(op2, Bin(op, Lit(a), Lit(b)), Lit(c))) == [Num(a), P(op), Num(b), P(op2), Num(c)]
  {
    var inner := Bin(op, Lit(a), Lit(b));
    ShowLits(a, op, b);
    assert ShowIn(inner, Prec(op2) - 1) == Show(inner) && ShowIn(Lit(c), Prec(op2)) == [Num(c)];
  }
}
