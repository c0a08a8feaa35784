/** The line-by-line preprocessor of GLSL: macros and the stack of conditionals.
    A line is given by its tokens. */
module GlslPreprocess {
  import opened AddressSpace
  import opened Flags
  import opened GlslExpr

  /** A line of text, or what follows `#`; `fnLike` says that the name of a
      `#define` is immediately followed by a parenthesis. */
  datatype Line = Text(toks: seq<Tok>) | Hash(toks: seq<Tok>, fnLike: bool)

  type Macros = map<string, seq<Tok>>

  /** An open conditional: this branch is active, some branch was taken, the
      parent is active. */
  datatype Frame = Frame(active: bool, taken: bool, parent: bool)

  datatype Env = Env(macros: Macros, out: seq<Tok>, version: U32)
  datatype State = State(stack: seq<Frame>, env: Env)

  // ---- macro expansion ----

  /** `expand`: object-like macros, to a depth of 16. */
  function Expand(t: Tok, macros: Macros, depth: nat): seq<Tok>
    decreases 16 - depth, 0, 0
  {
    if t.Id? && depth < 16 && t.name in macros then ExpandAll(macros[t.name], macros, depth + 1) else [t]
  }

  function ExpandAll(ts: seq<Tok>, macros: Macros, depth: nat): seq<Tok>
    decreases 16 - depth, 1, |ts|
  {
    if ts == [] then [] else ExpandAll(ts[..|ts| - 1], macros, depth) + Expand(ts[|ts| - 1], macros, depth)
  }

  /** `expand`, appending to `out`. */
  method ExpandInto(t: Tok, macros: Macros, out: seq<Tok>, depth: nat) returns (r: seq<Tok>)
    ensures r == out + Expand(t, macros, depth)
    decreases 16 - depth, 0
  {
    if t.Id? && depth < 16 && t.name in macros {
      r := ExpandEach(macros[t.name], macros, out, depth + 1);
      return;
    }
    r := out + [t];
  }

  method ExpandEach(ts: seq<Tok>, macros: Macros, out: seq<Tok>, depth: nat) returns (r: seq<Tok>)
    ensures r == out + ExpandAll(ts, macros, depth)
    decreases 16 - depth, 1
  {
    r := out;
    var i := 0;
    while i < |ts|
      invariant 0 <= i <= |ts| && r == out + ExpandAll(ts[..i], macros, depth)
    {
      assert ts[..i + 1][..i] == ts[..i];
      r := ExpandInto(ts[i], macros, r, depth);
      i := i + 1;
    }
    assert ts[..i] == ts;
  }

  // ---- conditions ----

  /** What follows `defined`: the name and the tokens it takes. */
  function DefinedAt(ts: seq<Tok>, i: nat): (string, nat)
    requires i < |ts|
  {
    if i + 2 < |ts| && ts[i + 1] == P('(') && ts[i + 2].Id? then (ts[i + 2].name, 4)
    else if i + 1 < |ts| && ts[i + 1].Id? then (ts[i + 1].name, 2)
    else ("", 1)
  }

  /** The tokens of a condition from `i` on, with `defined` answered and macros
      expanded. */
  function Resolve(ts: seq<Tok>, i: nat, macros: Macros): seq<Tok>
    decreases |ts| - i
  {
    if i >= |ts| then []
    else if ts[i] == Id("defined") then
      var (name, skip) := DefinedAt(ts, i);
      [Num(Truth(name in macros))] + Resolve(ts, i + skip, macros)
    else Expand(ts[i], macros, 0) + Resolve(ts, i + 1, macros)
  }

  function EvalCond(ts: seq<Tok>, macros: Macros): I64 {
    ParseB(Glsl(), Resolve(ts, 0, macros), 0, 0).0
  }

  /** `eval`. */
  method Eval(ts: seq<Tok>, macros: Macros) returns (v: I64)
    ensures v == EvalCond(ts, macros)
  {
    var t := ResolveAll(ts, macros);
    var x := new Expr(t);
    v := x.Binary(0);
  }

  /** The first half of `eval`. */
  method ResolveAll(ts: seq<Tok>, macros: Macros) returns (t: seq<Tok>)
    ensures t == Resolve(ts, 0, macros)
  {
    t := [];
    var i := 0;
    while i < |ts|
      invariant t + Resolve(ts, i, macros) == Resolve(ts, 0, macros)
      decreases |ts| - i
    {
      var more, skip := ResolveOne(ts, i, macros);
      Join(t, more, Resolve(ts, i + skip, macros));
      t, i := t + more, i + skip;
    }
    assert t + [] == t;
  }

  /** One turn of that loop. */
  method ResolveOne(ts: seq<Tok>, i: nat, macros: Macros) returns (more: seq<Tok>, skip: nat)
    requires i < |ts|
    ensures skip > 0 && Resolve(ts, i, macros) == more + Resolve(ts, i + skip, macros)
  {
    if ts[i] == Id("defined") {
      var (name, n) := DefinedAt(ts, i);
      more, skip := [Num(Truth(name in macros))], n;
    } else {
      more := ExpandInto(ts[i], macros, [], 0);
      skip := 1;
    }
  }

  lemma Join(a: seq<Tok>, b: seq<Tok>, c: seq<Tok>)
    ensures a + (b + c) == (a + b) + c
  {
  }

  /** The condition of an opening directive. */
  predicate Holds(dir: string, rest: seq<Tok>, macros: Macros) {
    if dir == "if" then EvalCond(rest, macros) != 0
    else (rest != [] && rest[0].Id? && rest[0].name in macros) == (dir == "ifdef")
  }

  predicate Opens(dir: string) {
    dir == "if" || dir == "ifdef" || dir == "ifndef"
  }

  // ---- one line ----

  predicate Active(stack: seq<Frame>) {
    stack == [] || stack[|stack| - 1].active
  }

  /** `#version`, `#define` and `#undef`. */
  function Declare(env: Env, dir: string, rest: seq<Tok>, fnLike: bool, parent: bool): Env {
    if dir == "version" then
      var v := if rest != [] && rest[0].Num? then rest[0].n % B32 else env.version;
      env.(version := v, macros := env.macros["__VERSION__" := [Num(v)]])
    else if parent && rest != [] && rest[0].Id? then
      if dir == "define" then env.(macros := env.macros[rest[0].name := if fnLike then [] else rest[1..]])
      else if dir == "undef" then env.(macros := env.macros - {rest[0].name})
      else env
    else env
  }

  /** What a directive does to the innermost conditional. */
  function Switch(stack: seq<Frame>, env: Env, dir: string, rest: seq<Tok>): seq<Frame> {
    var parent := Active(stack);
    if Opens(dir) then
      var on := parent && Holds(dir, rest, env.macros);
      stack + [Frame(on, on, parent)]
    else if stack == [] then stack
    else
      var n := |stack| - 1;
      var f := stack[n];
      if dir == "elif" then
        var on := f.parent && !f.taken && EvalCond(rest, env.macros) != 0;
        stack[..n] + [Frame(on, f.taken || on, f.parent)]
      else if dir == "else" then stack[..n] + [Frame(f.parent && !f.taken, true, f.parent)]
      else if dir == "endif" then stack[..n]
      else stack
  }

  function Step(s: State, l: Line): State {
    match l
    case Text(toks) =>
      if Active(s.stack) then s.(env := s.env.(out := s.env.out + ExpandAll(toks, s.env.macros, 0))) else s
    case Hash(toks, fnLike) =>
      if toks == [] || !toks[0].Id? then s
      else
        var dir, rest := toks[0].name, toks[1..];
        State(Switch(s.stack, s.env, dir, rest), Declare(s.env, dir, rest, fnLike, Active(s.stack)))
  }

  function Steps(s: State, ls: seq<Line>): State {
    if ls == [] then s else Step(Steps(s, ls[..|ls| - 1]), ls[|ls| - 1])
  }

  lemma {:induction false} StepsAppend(s: State, a: seq<Line>, b: seq<Line>)
    ensures Steps(s, a + b) == Steps(Steps(s, a), b)
  {
    if b == [] {
      assert a + b == a;
    } else {
      var b' := b[..|b| - 1];
      StepsAppend(s, a, b');
      assert (a + b)[..|a + b| - 1] == a + b';
    }
  }

  lemma StepsOne(s: State, l: Line)
    ensures Steps(s, [l]) == Step(s, l)
  {
    assert [l][..0] == [];
    assert Steps(s, []) == s;
  }

  function Begin(): State {
    State([], Env(map["GL_ES" := [Num(1)], "GL_FRAGMENT_PRECISION_HIGH" := [Num(1)]], [], 100))
  }

  /** `preprocess`: the tokens of the active lines, and the version. */
  method Preprocess(lines: seq<Line>) returns (out: seq<Tok>, version: U32)
    ensures out == Steps(Begin(), lines).env.out && version == Steps(Begin(), lines).env.version
  {
    var s := Begin();
    var i := 0;
    while i < |lines|
      invariant 0 <= i <= |lines| && s == Steps(Begin(), lines[..i])
    {
      assert lines[..i + 1][..i] == lines[..i];
      s := DoLine(s, lines[i]);
      i := i + 1;
    }
    assert lines[..i] == lines;
    out, version := s.env.out, s.env.version;
  }

  /** The body of the loop. */
  method DoLine(s: State, l: Line) returns (s': State)
    ensures s' == Step(s, l)
  {
    s' := s;
    match l {
      case Text(toks) =>
        if Active(s.stack) {
          var out := ExpandEach(toks, s.env.macros, s.env.out, 0);
          s' := s.(env := s.env.(out := out));
        }
      case Hash(toks, fnLike) =>
        if toks != [] && toks[0].Id? {
          var dir, rest := toks[0].name, toks[1..];
          var stack := DoSwitch(s.stack, s.env, dir, rest);
          s' := State(stack, Declare(s.env, dir, rest, fnLike, Active(s.stack)));
        }
    }
  }

  method DoSwitch(stack: seq<Frame>, env: Env, dir: string, rest: seq<Tok>) returns (r: seq<Frame>)
    ensures r == Switch(stack, env, dir, rest)
  {
    r := stack;
    var n := |stack| - 1;
    if Opens(dir) {
      var on := Active(stack);
      if on && dir == "if" {
        var v := Eval(rest, env.macros);
        on := v != 0;
      } else {
        on := on && Holds(dir, rest, env.macros);
      }
      r := stack + [Frame(on, on, Active(stack))];
    } else if stack != [] && dir == "elif" {
      var f := stack[n];
      var on := f.parent && !f.taken;
      if on {
        var v := Eval(rest, env.macros);
        on := v != 0;
      }
      r := stack[..n] + [Frame(on, f.taken || on, f.parent)];
    } else if stack != [] && dir == "else" {
      r := stack[..n] + [Frame(stack[n].parent && !stack[n].taken, true, stack[n].parent)];
    } else if stack != [] && dir == "endif" {
      r := stack[..n];
    }
  }

  // ---- what the lines mean ----

  /** `#ifdef` and `#ifndef` ask whether the name is a macro; without a name it is
      none. */
  lemma IfdefAsks(rest: seq<Tok>, macros: Macros)
    ensures var known := rest != [] && rest[0].Id? && rest[0].name in macros.Keys;
            (Holds("ifdef", rest, macros) <==> known) && (Holds("ifndef", rest, macros) <==> !known)
  {
  }

  /** `#if`: a name counts 0 unless it is a macro, `defined` asks whether it is one,
      and a macro that stands for a number counts that number. */
  lemma IfAsks(name: string, macros: Macros)
    requires name != "defined" && "defined" !in macros
    ensures Holds("if", [Id("defined"), Id(name)], macros) <==> name in macros.Keys
    ensures Holds("if", [Id("defined"), P('('), Id(name), P(')')], macros) <==> name in macros.Keys
    ensures name !in macros ==> !Holds("if", [Id(name)], macros)
    ensures forall n: I64 :: Get(macros, name) == Some([Num(n)]) ==> (Holds("if", [Id(name)], macros) <==> n != 0)
  {
    var bare, parens := [Id("defined"), Id(name)], [Id("defined"), P('('), Id(name), P(')')];
    var answer := [Num(Truth(name in macros))];
    assert Resolve(bare, 2, macros) == [] && Resolve(parens, 4, macros) == [];
    assert Resolve(bare, 0, macros) == answer + [] == answer;
    assert Resolve(parens, 0, macros) == answer + [] == answer;
    OneNumber(Truth(name in macros));
    assert Resolve([Id(name)], 1, macros) == [];
    assert Resolve([Id(name)], 0, macros) == Expand(Id(name), macros, 0) + [] == Expand(Id(name), macros, 0);
    if name !in macros {
      OneName(name);
    }
    forall n: I64 | Get(macros, name) == Some([Num(n)])
      ensures Holds("if", [Id(name)], macros) <==> n != 0
    {
      assert macros[name] == [Num(n)];
      OneStays([Num(n)], macros, 1);
      OneNumber(n);
    }
  }

  lemma {:induction false} ResolveShift(c: seq<Tok>, b: seq<Tok>, off: nat, i: nat, macros: Macros)
    requires off <= |c| && c[off..] == b
    ensures Resolve(c, off + i, macros) == Resolve(b, i, macros)
    decreases |b| - i
  {
    if i < |b| {
      assert c[off + i] == b[i];
      if b[i] == Id("defined") {
        DefinedShift(c, b, off, i);
        ResolveShift(c, b, off, i + DefinedAt(b, i).1, macros);
      } else {
        ResolveShift(c, b, off, i + 1, macros);
      }
      ResolveSame(c, off + i, b, i, macros);
    }
  }

  /** Two conditions that are the same at a token and behind it. */
  lemma ResolveSame(c: seq<Tok>, k: nat, b: seq<Tok>, i: nat, macros: Macros)
    requires k < |c| && i < |b| && c[k] == b[i]
    requires b[i] == Id("defined") ==> DefinedAt(c, k) == DefinedAt(b, i)
    requires var skip := if b[i] == Id("defined") then DefinedAt(b, i).1 else 1;
             Resolve(c, k + skip, macros) == Resolve(b, i + skip, macros)
    ensures Resolve(c, k, macros) == Resolve(b, i, macros)
  {
  }

  lemma DefinedShift(c: seq<Tok>, b: seq<Tok>, off: nat, i: nat)
    requires off <= |c| && c[off..] == b && i < |b|
    ensures DefinedAt(c, off + i) == DefinedAt(b, i)
  {
    assert i + 1 < |b| ==> c[off + i + 1] == b[i + 1];
    assert i + 2 < |b| ==> c[off + i + 2] == b[i + 2];
  }

  /** In a condition `defined X` and `defined(X)` are answered by 1 or 0, whatever
      closes the parenthesis, and the rest is resolved by itself. */
  lemma DefinedAsks(name: string, close: Tok, after: seq<Tok>, macros: Macros)
    ensures var answer := [Num(if name in macros.Keys then 1 else 0)];
            && Resolve([Id("defined"), Id(name)] + after, 0, macros) == answer + Resolve(after, 0, macros)
            && Resolve([Id("defined"), P('('), Id(name), close] + after, 0, macros) == answer + Resolve(after, 0, macros)
            && Resolve([Id("defined"), P('('), Id(name)], 0, macros) == answer
  {
    var bare, parens := [Id("defined"), Id(name)], [Id("defined"), P('('), Id(name), close];
    ResolveShift(bare + after, after, 2, 0, macros);
    ResolveShift(parens + after, after, 4, 0, macros);
    assert DefinedAt(bare + after, 0) == (name, 2) && DefinedAt(parens + after, 0) == (name, 4);
    assert Resolve([Id("defined"), P('('), Id(name)], 4, macros) == [];
  }

  lemma OneNumber(n: I64)
    ensures ParseB(Glsl(), [Num(n)], 0, 0).0 == n
  {
    EvaluatesTrees(Lit(n));
  }

  lemma OneName(name: string)
    ensures ParseB(Glsl(), [Id(name)], 0, 0).0 == 0
  {
    EvaluatesTrees(Name(name));
  }

  /** Tokens that are no macro names stay. */
  lemma {:induction false} OneStays(ts: seq<Tok>, macros: Macros, depth: nat)
    requires forall t :: t in ts ==> !(t.Id? && t.name in macros)
    ensures ExpandAll(ts, macros, depth) == ts
    decreases |ts|
  {
    if ts != [] {
      var n := |ts| - 1;
      ExpandLast(ts, macros, depth);
      OneStays(ts[..n], macros, depth);
      assert ts == ts[..n] + [ts[n]];
    }
  }

  lemma ExpandLast(ts: seq<Tok>, macros: Macros, depth: nat)
    requires ts != []
    ensures var n := |ts| - 1;
            && ts[n] in ts && ExpandAll(ts, macros, depth) == ExpandAll(ts[..n], macros, depth) + Expand(ts[n], macros, depth)
            && (!(ts[n].Id? && ts[n].name in macros) ==> Expand(ts[n], macros, depth) == [ts[n]])
  {
  }

  /** A macro is replaced by its tokens, a run of text token by token. */
  lemma MacroReplaced(name: string, macros: Macros)
    requires name in macros && forall t :: t in macros[name] ==> !(t.Id? && t.name in macros)
    ensures Expand(Id(name), macros, 0) == macros[name]
  {
    OneStays(macros[name], macros, 1);
  }

  lemma {:induction false} ExpandAppend(a: seq<Tok>, b: seq<Tok>, macros: Macros, depth: nat)
    ensures ExpandAll(a + b, macros, depth) == ExpandAll(a, macros, depth) + ExpandAll(b, macros, depth)
    decreases |b|
  {
    if b == [] {
      assert a + b == a && ExpandAll(a, macros, depth) + [] == ExpandAll(a, macros, depth);
    } else {
      var n := |b| - 1;
      ExpandAppend(a, b[..n], macros, depth);
      assert (a + b)[..|a + b| - 1] == a + b[..n];
    }
  }

  /** An active line of text is appended, expanded; where nothing is a macro, as it
      is. An inactive one does nothing. */
  lemma TextAppends(s: State, toks: seq<Tok>)
    ensures var s' := Step(s, Text(toks));
            && s'.stack == s.stack && s'.env.macros == s.env.macros && s'.env.version == s.env.version
            && (!Active(s.stack) ==> s'.env.out == s.env.out)
            && (Active(s.stack) ==> s.env.out <= s'.env.out)
            && (Active(s.stack) && (forall t :: t in toks ==> !(t.Id? && t.name in s.env.macros)) ==>
                 s'.env.out == s.env.out + toks)
  {
    if forall t :: t in toks ==> !(t.Id? && t.name in s.env.macros) {
      OneStays(toks, s.env.macros, 0);
    }
  }

  /** `#define`, where it is active, binds exactly its name, to the rest of the line,
      or to nothing if it takes parameters. */
  lemma DefineBinds(s: State, name: string, body: seq<Tok>, fnLike: bool)
    ensures var s' := Step(s, Hash([Id("define"), Id(name)] + body, fnLike));
            && s'.stack == s.stack && s'.env.out == s.env.out && s'.env.version == s.env.version
            && forall x :: Get(s'.env.macros, x) ==
                 if Active(s.stack) && x == name then Some(if fnLike then [] else body) else Get(s.env.macros, x)
  {
    var toks := [Id("define"), Id(name)] + body;
    assert toks[1..] == [Id(name)] + body && toks[1..][1..] == body;
  }

  /** `#undef`, where it is active, removes exactly its name. */
  lemma UndefRemoves(s: State, name: string, rest: seq<Tok>)
    ensures var s' := Step(s, Hash([Id("undef"), Id(name)] + rest, false));
            && s'.stack == s.stack && s'.env.out == s.env.out && s'.env.version == s.env.version
            && forall x :: Get(s'.env.macros, x) == if Active(s.stack) && x == name then None else Get(s.env.macros, x)
  {
    assert ([Id("undef"), Id(name)] + rest)[1..] == [Id(name)] + rest;
  }

  /** `#version` sets the version and its macro, active or not. */
  lemma VersionSets(s: State, n: I64, rest: seq<Tok>)
    requires 0 <= n < B32
    ensures var s' := Step(s, Hash([Id("version"), Num(n)] + rest, false));
            && s'.stack == s.stack && s'.env.out == s.env.out && s'.env.version == n
            && forall x :: Get(s'.env.macros, x) == if x == "__VERSION__" then Some([Num(n)]) else Get(s.env.macros, x)
  {
    assert ([Id("version"), Num(n)] + rest)[1..] == [Num(n)] + rest;
  }

  predicate Declares(l: Line) {
    l.Hash? && l.toks != [] && l.toks[0].Id? &&
    (l.toks[0].name == "version" || l.toks[0].name == "define" || l.toks[0].name == "undef")
  }

  /** Nothing else touches the macros or the version. */
  lemma {:induction false} OnlyDeclared(s: State, lines: seq<Line>)
    requires forall l :: l in lines ==> !Declares(l)
    ensures var e := Steps(s, lines).env; e.macros == s.env.macros && e.version == s.env.version
    decreases lines
  {
    if lines != [] {
      OnlyDeclared(s, lines[..|lines| - 1]);
      assert !Declares(lines[|lines| - 1]);
    }
  }

  /** A shader that declares nothing has version 100, and only the two macros of
      every ES shader, which are 1. */
  lemma Defaults(lines: seq<Line>)
    requires forall l :: l in lines ==> !Declares(l)
    ensures var e := Steps(Begin(), lines).env;
            && e.version == 100
            && forall x :: Get(e.macros, x) ==
                 if x == "GL_ES" || x == "GL_FRAGMENT_PRECISION_HIGH" then Some([Num(1)]) else None
  {
    OnlyDeclared(Begin(), lines);
  }

  // ---- the tree of conditionals ----

  /** Nested lines: a plain line, or a conditional with its branches. */
  datatype Item = Plain(line: Line) | Cond(dir: string, test: seq<Tok>, body: seq<Item>, rest: Chain)
  /** What follows the first branch. */
  datatype Chain = End | Else(body: seq<Item>) | Elif(test: seq<Tok>, body: seq<Item>, rest: Chain)

  function Directive(dir: string, rest: seq<Tok>): Line {
    Hash([Id(dir)] + rest, false)
  }

  /** The lines of a tree. */
  function Flat(g: seq<Item>): seq<Line> {
    if g == [] then [] else FlatItem(g[0]) + Flat(g[1..])
  }

  function FlatItem(x: Item): seq<Line> {
    match x
    case Plain(l) => [l]
    case Cond(dir, test, body, rest) => [Directive(dir, test)] + Flat(body) + FlatChain(rest)
  }

  function FlatChain(c: Chain): seq<Line> {
    match c
    case End => [Directive("endif", [])]
    case Else(body) => [Directive("else", [])] + Flat(body) + [Directive("endif", [])]
    case Elif(test, body, rest) => [Directive("elif", test)] + Flat(body) + FlatChain(rest)
  }

  /** A line that is no conditional. */
  predicate PlainLine(l: Line) {
    l.Hash? && l.toks != [] && l.toks[0].Id? ==>
      var d := l.toks[0].name; !Opens(d) && d != "elif" && d != "else" && d != "endif"
  }

  predicate IsVersion(l: Line) {
    l.Hash? && l.toks != [] && l.toks[0] == Id("version")
  }

  /** The tree is made of plain lines and conditionals. */
  predicate Good(g: seq<Item>) {
    forall i :: 0 <= i < |g| ==> GoodItem(g[i])
  }

  predicate GoodItem(x: Item) {
    match x
    case Plain(l) => PlainLine(l)
    case Cond(dir, _, body, rest) => Opens(dir) && Good(body) && GoodChain(rest)
  }

  predicate GoodChain(c: Chain) {
    match c
    case End => true
    case Else(body) => Good(body)
    case Elif(_, body, rest) => Good(body) && GoodChain(rest)
  }

  /** What the tree means: of each conditional the first branch whose condition
      holds, and of the others nothing but their `#version` lines. */
  function Meaning(g: seq<Item>, env: Env): Env {
    if g == [] then env else Meaning(g[1..], MeaningItem(g[0], env))
  }

  function MeaningItem(x: Item, env: Env): Env {
    match x
    case Plain(l) => Step(State([], env), l).env
    case Cond(dir, test, body, rest) =>
      if Holds(dir, test, env.macros) then PassedChain(rest, Meaning(body, env)) else MeaningChain(rest, Passed(body, env))
  }

  function MeaningChain(c: Chain, env: Env): Env {
    match c
    case End => env
    case Else(body) => Meaning(body, env)
    case Elif(test, body, rest) =>
      if EvalCond(test, env.macros) != 0 then PassedChain(rest, Meaning(body, env)) else MeaningChain(rest, Passed(body, env))
  }

  /** What is left of a tree that is not selected: its `#version` lines, at any
      depth. */
  function Passed(g: seq<Item>, env: Env): Env {
    if g == [] then env else Passed(g[1..], PassedItem(g[0], env))
  }

  function PassedItem(x: Item, env: Env): Env {
    match x
    case Plain(l) => if IsVersion(l) then Step(State([], env), l).env else env
    case Cond(_, _, body, rest) => PassedChain(rest, Passed(body, env))
  }

  function PassedChain(c: Chain, env: Env): Env {
    match c
    case End => env
    case Else(body) => Passed(body, env)
    case Elif(_, body, rest) => PassedChain(rest, Passed(body, env))
  }

  // ---- the stack selects what the tree means ----

  lemma DirectiveStep(s: State, dir: string, rest: seq<Tok>)
    requires dir != "version" && dir != "define" && dir != "undef"
    ensures Step(s, Directive(dir, rest)) == State(Switch(s.stack, s.env, dir, rest), s.env)
  {
    assert ([Id(dir)] + rest)[1..] == rest;
  }

  lemma Three(s: State, a: Line, body: seq<Line>, rest: seq<Line>)
    ensures Steps(s, [a] + body + rest) == Steps(Steps(Step(s, a), body), rest)
  {
    StepsAppend(s, [a] + body, rest);
    StepsAppend(s, [a], body);
    StepsOne(s, a);
  }

  lemma Replaced(stack: seq<Frame>, f: Frame)
    ensures (stack + [f])[..|stack|] == stack && Active(stack + [f]) == f.active
  {
  }

  /** Under an inactive branch nothing happens, at any depth, but for `#version`: no
      line is emitted and no macro is defined or removed. */
  lemma {:induction false} Sleeps(g: seq<Item>, s: State)
    requires Good(g) && !Active(s.stack)
    ensures Steps(s, Flat(g)) == State(s.stack, Passed(g, s.env))
    decreases g
  {
    if g != [] {
      StepsAppend(s, FlatItem(g[0]), Flat(g[1..]));
      SleepsItem(g[0], s);
      Sleeps(g[1..], State(s.stack, PassedItem(g[0], s.env)));
    }
  }

  lemma {:induction false} SleepsItem(x: Item, s: State)
    requires GoodItem(x) && !Active(s.stack)
    ensures Steps(s, FlatItem(x)) == State(s.stack, PassedItem(x, s.env))
    decreases x
  {
    match x {
      case Plain(l) =>
        StepsOne(s, l);
      case Cond(dir, test, body, rest) =>
        var f := Frame(false, false, false);
        var inside := State(s.stack + [f], s.env);
        Three(s, Directive(dir, test), Flat(body), FlatChain(rest));
        DirectiveStep(s, dir, test);
        Replaced(s.stack, f);
        Sleeps(body, inside);
        Passes(rest, s.stack, f, Passed(body, s.env));
    }
  }

  /** After a branch was taken, or under an inactive parent, the rest of the chain
      is passed over and the conditional closed. */
  lemma {:induction false} Passes(c: Chain, stack: seq<Frame>, f: Frame, env: Env)
    requires GoodChain(c) && (f.taken || !f.parent)
    ensures Steps(State(stack + [f], env), FlatChain(c)) == State(stack, PassedChain(c, env))
    decreases c
  {
    var s := State(stack + [f], env);
    Replaced(stack, f);
    match c {
      case End =>
        StepsOne(s, Directive("endif", []));
        DirectiveStep(s, "endif", []);
      case Else(body) =>
        var f' := Frame(false, true, f.parent);
        Three(s, Directive("else", []), Flat(body), [Directive("endif", [])]);
        DirectiveStep(s, "else", []);
        Replaced(stack, f');
        Sleeps(body, State(stack + [f'], env));
        Closes(stack, f', Passed(body, env));
      case Elif(test, body, rest) =>
        var f' := Frame(false, f.taken, f.parent);
        Three(s, Directive("elif", test), Flat(body), FlatChain(rest));
        DirectiveStep(s, "elif", test);
        Replaced(stack, f');
        Sleeps(body, State(stack + [f'], env));
        Passes(rest, stack, f', Passed(body, env));
    }
  }

  lemma Closes(stack: seq<Frame>, f: Frame, env: Env)
    ensures Steps(State(stack + [f], env), [Directive("endif", [])]) == State(stack, env)
  {
    var s := State(stack + [f], env);
    Replaced(stack, f);
    StepsOne(s, Directive("endif", []));
    DirectiveStep(s, "endif", []);
  }

  /** While no branch was taken, the chain takes the first that holds. */
  lemma {:induction false} Seeks(c: Chain, stack: seq<Frame>, env: Env)
    requires GoodChain(c)
    ensures Steps(State(stack + [Frame(false, false, true)], env), FlatChain(c)) == State(stack, MeaningChain(c, env))
    decreases c
  {
    var f := Frame(false, false, true);
    var s := State(stack + [f], env);
    Replaced(stack, f);
    match c {
      case End =>
        Closes(stack, f, env);
      case Else(body) =>
        var f' := Frame(true, true, true);
        Three(s, Directive("else", []), Flat(body), [Directive("endif", [])]);
        DirectiveStep(s, "else", []);
        Replaced(stack, f');
        Runs(body, State(stack + [f'], env));
        Closes(stack, f', Meaning(body, env));
      case Elif(test, body, rest) =>
        var on := EvalCond(test, env.macros) != 0;
        var f' := Frame(on, on, true);
        Three(s, Directive("elif", test), Flat(body), FlatChain(rest));
        DirectiveStep(s, "elif", test);
        Replaced(stack, f');
        if on {
          Runs(body, State(stack + [f'], env));
          Passes(rest, stack, f', Meaning(body, env));
        } else {
          Sleeps(body, State(stack + [f'], env));
          Seeks(rest, stack, Passed(body, env));
        }
    }
  }

  lemma {:induction false} RunsItem(x: Item, s: State)
    requires GoodItem(x) && Active(s.stack)
    ensures Steps(s, FlatItem(x)) == State(s.stack, MeaningItem(x, s.env))
    decreases x
  {
    match x {
      case Plain(l) =>
        StepsOne(s, l);
      case Cond(dir, test, body, rest) =>
        var on := Holds(dir, test, s.env.macros);
        var f := Frame(on, on, true);
        Three(s, Directive(dir, test), Flat(body), FlatChain(rest));
        DirectiveStep(s, dir, test);
        Replaced(s.stack, f);
        if on {
          Runs(body, State(s.stack + [f], s.env));
          Passes(rest, s.stack, f, Meaning(body, s.env));
        } else {
          Sleeps(body, State(s.stack + [f], s.env));
          Seeks(rest, s.stack, Passed(body, s.env));
        }
    }
  }

  /** Under an active branch the lines of a tree do what the tree means, and every
      conditional is closed again. */
  lemma {:induction false} Runs(g: seq<Item>, s: State)
    requires Good(g) && Active(s.stack)
    ensures Steps(s, Flat(g)) == State(s.stack, Meaning(g, s.env))
    decreases g
  {
    if g != [] {
      StepsAppend(s, FlatItem(g[0]), Flat(g[1..]));
      RunsItem(g[0], s);
      Runs(g[1..], State(s.stack, MeaningItem(g[0], s.env)));
    }
  }

  /** The preprocessor emits exactly the tokens of the lines that the tree of
      conditionals selects, at any nesting depth. */
  lemma SelectsTree(g: seq<Item>)
    requires Good(g)
    ensures Steps(Begin(), Flat(g)).env == Meaning(g, Begin().env)
  {
    Runs(g, Begin());
  }

  // ---- branches that are not selected ----

  /** No `#version` line at any depth. */
  predicate NoVersion(g: seq<Item>) {
    forall i :: 0 <= i < |g| ==> NoVersionItem(g[i])
  }

  predicate NoVersionItem(x: Item) {
    match x
    case Plain(l) => !IsVersion(l)
    case Cond(_, _, body, rest) => NoVersion(body) && NoVersionChain(rest)
  }

  predicate NoVersionChain(c: Chain) {
    match c
    case End => true
    case Else(body) => NoVersion(body)
    case Elif(_, body, rest) => NoVersion(body) && NoVersionChain(rest)
  }

  /** `b` is `a` up to the version and its macro; `known` says that the macro is
      defined. */
  ghost predicate OnlyVersion(a: Env, b: Env, known: bool) {
    && b.out == a.out
    && (forall name :: name != "__VERSION__" ==> Get(b.macros, name) == Get(a.macros, name))
    && (known || "__VERSION__" in a.macros ==> "__VERSION__" in b.macros)
  }

  /** A tree that is not selected emits nothing and changes no macro but
      `__VERSION__`; without `#version` it does nothing. */
  lemma {:induction false} PassedIs(g: seq<Item>, env: Env)
    ensures OnlyVersion(env, Passed(g, env), !NoVersion(g)) && (NoVersion(g) ==> Passed(g, env) == env)
    decreases g
  {
    if g != [] {
      PassedItemIs(g[0], env);
      PassedIs(g[1..], PassedItem(g[0], env));
      assert NoVersion(g) <==> NoVersionItem(g[0]) && NoVersion(g[1..]) by {
        assert forall i :: 1 <= i < |g| ==> g[i] == g[1..][i - 1];
      }
    }
  }

  lemma {:induction false} PassedItemIs(x: Item, env: Env)
    ensures OnlyVersion(env, PassedItem(x, env), !NoVersionItem(x)) && (NoVersionItem(x) ==> PassedItem(x, env) == env)
    decreases x
  {
    if x.Cond? {
      PassedIs(x.body, env);
      PassedChainIs(x.rest, Passed(x.body, env));
    }
  }

  lemma {:induction false} PassedChainIs(c: Chain, env: Env)
    ensures OnlyVersion(env, PassedChain(c, env), !NoVersionChain(c)) && (NoVersionChain(c) ==> PassedChain(c, env) == env)
    decreases c
  {
    match c {
      case End =>
      case Else(body) =>
        PassedIs(body, env);
      case Elif(_, body, rest) =>
        PassedIs(body, env);
        PassedChainIs(rest, Passed(body, env));
    }
  }

  /** So an unselected branch has no effect, wherever it stands, exactly if there
      is no `#version` in it. */
  lemma VersionIgnoresBranches(g: seq<Item>)
    requires Good(g)
    ensures NoVersion(g) <==> forall s: State :: !Active(s.stack) ==> Steps(s, Flat(g)) == s
  {
    if NoVersion(g) {
      forall s: State | !Active(s.stack)
        ensures Steps(s, Flat(g)) == s
      {
        Sleeps(g, s);
        PassedIs(g, s.env);
      }
    } else {
      var s := State([Frame(false, false, true)], Env(map[], [], 100));
      Sleeps(g, s);
      PassedIs(g, s.env);
      assert !Active(s.stack) && Steps(s, Flat(g)) != s;
    }
  }
}
