/** Which lists of lines are nested conditionals: exactly those that a count of open
    conditionals accepts, so the trees of `GlslPreprocess` are all there is. */
module GlslNesting {
  import opened GlslExpr
  import opened GlslPreprocess

  datatype Kind = Opening | ElifLine | ElseLine | EndLine | Other

  /** The directive of a line, if it has one. */
  function Word(l: Line): string {
    if l.Hash? && l.toks != [] && l.toks[0].Id? then l.toks[0].name else ""
  }

  function KindOf(l: Line): Kind {
    var word := Word(l);
    if Opens(word) then Opening
    else if word == "elif" then ElifLine
    else if word == "else" then ElseLine
    else if word == "endif" then EndLine
    else Other
  }

  /** Every conditional is closed, and no `#elif` or `#else` follows an `#else`. The
      open conditionals are listed from the outside, each with whether its `#else`
      was seen. */
  predicate Nested(lines: seq<Line>, open: seq<bool>)
    decreases |lines|, 0
  {
    if lines == [] then open == [] else NestedFrom(KindOf(lines[0]), lines[1..], open)
  }

  /** The same behind a line of this kind. */
  predicate NestedFrom(kind: Kind, lines: seq<Line>, open: seq<bool>)
    decreases |lines|, 1
  {
    var n := |open|;
    match kind
    case Opening => Nested(lines, open + [false])
    case ElifLine => n > 0 && !open[n - 1] && Nested(lines, open)
    case ElseLine => n > 0 && !open[n - 1] && Nested(lines, open[..n - 1] + [true])
    case EndLine => n > 0 && Nested(lines, open[..n - 1])
    case Other => Nested(lines, open)
  }

  lemma NestedFirst(l: Line, lines: seq<Line>, open: seq<bool>)
    ensures Nested([l] + lines, open) <==> NestedFrom(KindOf(l), lines, open)
  {
    assert ([l] + lines)[1..] == lines;
  }

  lemma Inner(open: seq<bool>, seen: bool)
    ensures (open + [seen])[..|open|] == open && (open + [seen])[|open|] == seen
  {
  }

  lemma Kinds(dir: string, test: seq<Tok>)
    ensures KindOf(Directive("elif", test)) == ElifLine && KindOf(Directive("else", [])) == ElseLine
    ensures KindOf(Directive("endif", [])) == EndLine && (Opens(dir) ==> KindOf(Directive(dir, test)) == Opening)
  {
  }

  // ---- what is written after #else and #endif does not matter ----

  function Tidy(l: Line): Line {
    match KindOf(l)
    case Opening => Directive(Word(l), l.toks[1..])
    case ElifLine => Directive("elif", l.toks[1..])
    case ElseLine => Directive("else", [])
    case EndLine => Directive("endif", [])
    case Other => l
  }

  function Tidied(lines: seq<Line>): seq<Line> {
    seq(|lines|, i requires 0 <= i < |lines| => Tidy(lines[i]))
  }

  lemma TidyKind(l: Line)
    ensures KindOf(Tidy(l)) == KindOf(l) && Tidy(Tidy(l)) == Tidy(l)
  {
  }

  lemma TidyStep(s: State, l: Line)
    ensures Step(s, Tidy(l)) == Step(s, l)
  {
  }

  lemma {:induction false} TidySteps(s: State, lines: seq<Line>)
    ensures Steps(s, Tidied(lines)) == Steps(s, lines)
  {
    if lines != [] {
      var init, last := lines[..|lines| - 1], lines[|lines| - 1];
      TidySteps(s, init);
      assert Tidied(lines)[..|lines| - 1] == Tidied(init);
      TidyStep(Steps(s, init), last);
    }
  }

  lemma {:induction false} TidyNested(lines: seq<Line>, open: seq<bool>)
    ensures Nested(Tidied(lines), open) <==> Nested(lines, open)
    decreases lines
  {
    if lines != [] {
      TidyKind(lines[0]);
      assert Tidied(lines)[1..] == Tidied(lines[1..]);
      var n := |open|;
      TidyNested(lines[1..], open);
      TidyNested(lines[1..], open + [false]);
      if n > 0 {
        TidyNested(lines[1..], open[..n - 1]);
        TidyNested(lines[1..], open[..n - 1] + [true]);
      }
    }
  }

  // ---- the lines of a tree are nested ----

  lemma {:induction false} FlatNested(g: seq<Item>, more: seq<Line>, open: seq<bool>)
    requires Good(g)
    ensures Nested(Flat(g) + more, open) <==> Nested(more, open)
    decreases g
  {
    if g == [] {
      assert Flat(g) + more == more;
    } else {
      var rest := Flat(g[1..]) + more;
      assert Flat(g) + more == FlatItem(g[0]) + rest;
      assert GoodItem(g[0]);
      ItemNested(g[0], rest, open);
      FlatNested(g[1..], more, open);
    }
  }

  lemma {:induction false} ItemNested(x: Item, more: seq<Line>, open: seq<bool>)
    requires GoodItem(x)
    ensures Nested(FlatItem(x) + more, open) <==> Nested(more, open)
    decreases x
  {
    match x {
      case Plain(l) =>
        PlainKind(l);
        NestedFirst(l, more, open);
      case Cond(dir, test, body, rest) =>
        var inner := FlatChain(rest) + more;
        assert FlatItem(x) + more == [Directive(dir, test)] + (Flat(body) + inner);
        Kinds(dir, test);
        NestedFirst(Directive(dir, test), Flat(body) + inner, open);
        FlatNested(body, inner, open + [false]);
        ChainNested(rest, more, open);
    }
  }

  lemma PlainKind(l: Line)
    ensures PlainLine(l) <==> KindOf(l) == Other
  {
  }

  lemma {:induction false} ChainNested(c: Chain, more: seq<Line>, open: seq<bool>)
    requires GoodChain(c)
    ensures Nested(FlatChain(c) + more, open + [false]) <==> Nested(more, open)
    decreases c
  {
    match c {
      case End =>
        EndNested(more, open, false);
      case Else(body) =>
        var tail := [Directive("endif", [])] + more;
        assert FlatChain(c) + more == [Directive("else", [])] + (Flat(body) + tail);
        Kinds("", []);
        Inner(open, false);
        NestedFirst(Directive("else", []), Flat(body) + tail, open + [false]);
        FlatNested(body, tail, open + [true]);
        EndNested(more, open, true);
      case Elif(test, body, rest) =>
        var tail := FlatChain(rest) + more;
        assert FlatChain(c) + more == [Directive("elif", test)] + (Flat(body) + tail);
        Kinds("", test);
        Inner(open, false);
        NestedFirst(Directive("elif", test), Flat(body) + tail, open + [false]);
        FlatNested(body, tail, open + [false]);
        ChainNested(rest, more, open);
    }
  }

  lemma EndNested(more: seq<Line>, open: seq<bool>, seen: bool)
    ensures Nested([Directive("endif", [])] + more, open + [seen]) <==> Nested(more, open)
  {
    Kinds("", []);
    Inner(open, seen);
    NestedFirst(Directive("endif", []), more, open + [seen]);
  }

  // ---- nested lines have a tree ----

  ghost predicate AllTidy(lines: seq<Line>) {
    forall i :: 0 <= i < |lines| ==> Tidy(lines[i]) == lines[i]
  }

  /** The lines start inside the conditional or at its end: with `#elif`, `#else` or
      `#endif`. */
  predicate AtClose(lines: seq<Line>) {
    lines == [] || KindOf(lines[0]) == ElifLine || KindOf(lines[0]) == ElseLine || KindOf(lines[0]) == EndLine
  }

  lemma Split(lines: seq<Line>)
    requires lines != [] && AllTidy(lines)
    ensures lines == [lines[0]] + lines[1..] && AllTidy(lines[1..]) && Tidy(lines[0]) == lines[0]
  {
    assert forall i :: 0 <= i < |lines| - 1 ==> lines[1..][i] == lines[i + 1];
  }

  lemma Regroup(first: Line, a: seq<Line>, b: seq<Line>, rest: seq<Line>)
    ensures [first] + (a + (b + rest)) == [first] + a + b + rest
  {
  }

  /** Reads items up to a line that closes, or to the end. */
  lemma {:induction false} ReadItems(lines: seq<Line>, open: seq<bool>) returns (g: seq<Item>, rest: seq<Line>)
    requires Nested(lines, open) && AllTidy(lines)
    ensures Good(g) && lines == Flat(g) + rest && Nested(rest, open) && AllTidy(rest) && AtClose(rest)
    decreases |lines|, 1
  {
    if AtClose(lines) {
      return [], lines;
    }
    var x, after := ReadItem(lines, open);
    var more;
    more, rest := ReadItems(after, open);
    g := [x] + more;
    assert g[1..] == more;
    assert FlatItem(x) + (Flat(more) + rest) == FlatItem(x) + Flat(more) + rest;
  }

  lemma {:induction false} ReadItem(lines: seq<Line>, open: seq<bool>) returns (x: Item, rest: seq<Line>)
    requires Nested(lines, open) && AllTidy(lines) && !AtClose(lines)
    ensures GoodItem(x) && lines == FlatItem(x) + rest && Nested(rest, open) && AllTidy(rest) && |rest| < |lines|
    decreases |lines|, 0
  {
    Split(lines);
    var first := lines[0];
    if KindOf(first) == Opening {
      var body, inner := ReadItems(lines[1..], open + [false]);
      var chain;
      chain, rest := ReadChain(inner, open, false);
      x := Cond(Word(first), first.toks[1..], body, chain);
      Regroup(first, Flat(body), FlatChain(chain), rest);
    } else {
      PlainKind(first);
      x, rest := Plain(first), lines[1..];
    }
  }

  lemma {:induction false} ReadChain(lines: seq<Line>, open: seq<bool>, seen: bool) returns (c: Chain, rest: seq<Line>)
    requires Nested(lines, open + [seen]) && AllTidy(lines) && AtClose(lines)
    ensures GoodChain(c) && lines == FlatChain(c) + rest && Nested(rest, open) && AllTidy(rest)
    ensures |rest| < |lines| && (seen ==> c == End)
    decreases |lines|, 1
  {
    Inner(open, seen);
    Split(lines);
    match KindOf(lines[0]) {
      case EndLine =>
        c, rest := End, lines[1..];
      case ElseLine =>
        c, rest := ReadElse(lines, open);
      case ElifLine =>
        c, rest := ReadElif(lines, open);
    }
  }

  lemma {:induction false} ReadElse(lines: seq<Line>, open: seq<bool>) returns (c: Chain, rest: seq<Line>)
    requires lines != [] && KindOf(lines[0]) == ElseLine && Nested(lines, open + [false]) && AllTidy(lines)
    ensures GoodChain(c) && lines == FlatChain(c) + rest && Nested(rest, open) && AllTidy(rest) && |rest| < |lines|
    decreases |lines|, 0
  {
    Inner(open, false);
    Split(lines);
    var body, inner := ReadItems(lines[1..], open + [true]);
    var end;
    end, rest := ReadChain(inner, open, true);
    c := Else(body);
    Regroup(lines[0], Flat(body), FlatChain(End), rest);
  }

  lemma {:induction false} ReadElif(lines: seq<Line>, open: seq<bool>) returns (c: Chain, rest: seq<Line>)
    requires lines != [] && KindOf(lines[0]) == ElifLine && Nested(lines, open + [false]) && AllTidy(lines)
    ensures GoodChain(c) && lines == FlatChain(c) + rest && Nested(rest, open) && AllTidy(rest) && |rest| < |lines|
    decreases |lines|, 0
  {
    Split(lines);
    var body, inner := ReadItems(lines[1..], open + [false]);
    var others;
    others, rest := ReadChain(inner, open, false);
    c := Elif(lines[0].toks[1..], body, others);
    Regroup(lines[0], Flat(body), FlatChain(others), rest);
  }

  /** Lines are the lines of a tree of conditionals exactly if they are nested. Then
      the preprocessor emits what any such tree means. */
  lemma SelectsNested(lines: seq<Line>)
    ensures Nested(lines, []) <==> exists g :: Good(g) && Flat(g) == Tidied(lines)
    ensures forall g :: Good(g) && Flat(g) == Tidied(lines) ==> Steps(Begin(), lines).env == Meaning(g, Begin().env)
  {
    TidyNested(lines, []);
    TidySteps(Begin(), lines);
    if Nested(lines, []) {
      forall i | 0 <= i < |lines| ensures Tidy(Tidied(lines)[i]) == Tidied(lines)[i] {
        TidyKind(lines[i]);
      }
      var g, rest := ReadItems(Tidied(lines), []);
      assert rest == [];
      assert Good(g) && Flat(g) == Tidied(lines);
    }
    forall g | Good(g) && Flat(g) == Tidied(lines)
      ensures Nested(lines, []) && Steps(Begin(), lines).env == Meaning(g, Begin().env)
    {
      FlatNested(g, [], []);
      assert Flat(g) + [] == Flat(g);
      SelectsTree(g);
    }
  }
}
