/** Shaders and programs of a share group: names, attachment counts, deferred
    deletion. */
module ShaderLifetime {
  import opened AddressSpace
  import opened Flags
  import opened Collections

  /** `u32::MAX`, the last name. */
  const LAST: nat := 0xFFFF_FFFF

  /** A guest name; 0 is none. */
  type Name = n: nat | 1 <= n <= LAST witness 1

  datatype Shader = Shader(id: nat, attached: nat, pending: bool)
  datatype Program = Program(id: nat, list: seq<Name>, pending: bool)

  datatype HostOp =
    | CreateShader(id: nat)
    | CreateProgram(id: nat)
    | AttachShader(program: nat, id: nat)
    | DetachShader(program: nat, id: nat)
    | DeleteShader(id: nat)
    | DeleteProgram(id: nat)

  // ---- names ----

  /** `next.wrapping_add(1).max(1)`. */
  function Succ(next: U32): Name {
    if next == LAST then 1 else next + 1
  }

  /** Steps from `next` to `f`, around the end of the range. */
  function Distance(next: U32, f: Name): nat {
    if f >= next then f - next else f + LAST - next
  }

  ghost function UpTo(n: nat): (s: set<int>)
    ensures forall i :: i in s <==> 1 <= i <= n
  {
    if n == 0 then {} else UpTo(n - 1) + {n}
  }

  lemma {:induction false} RangeSize(n: nat)
    ensures |UpTo(n)| == n
  {
    if n > 0 {
      RangeSize(n - 1);
    }
  }

  lemma {:induction false} SubsetSize<T>(a: set<T>, b: set<T>)
    requires a <= b
    ensures |a| <= |b|
  {
    if a != {} {
      var x :| x in a;
      SubsetSize(a - {x}, b - {x});
    }
  }

  lemma FreeName(used: set<int>)
    requires |used| < LAST
    ensures exists f: int :: 1 <= f <= LAST && f !in used
  {
    if forall f: int :: 1 <= f <= LAST ==> f in used {
      RangeSize(LAST);
      assert UpTo(LAST) <= used;
      SubsetSize(UpTo(LAST), used);
    }
  }

  /** `Names::fresh`. */
  method Fresh(used: set<int>, next: U32) returns (name: Name)
    requires |used| < LAST
    ensures name !in used
  {
    FreeName(used);
    ghost var f :| 1 <= f <= LAST && f !in used;
    name := Succ(next);
    while name in used
      invariant name in used ==> f != name
      decreases Distance(name, f)
    {
      name := Succ(name);
    }
  }

  // ---- counting attachments ----

  /** The programs that list a shader. */
  ghost function Users(programs: map<Name, Program>, sh: Name): set<Name> {
    set p | p in programs && sh in programs[p].list
  }

  lemma UsersPut(programs: map<Name, Program>, p: Name, x: Program, sh: Name)
    ensures sh in x.list ==> Users(programs[p := x], sh) == Users(programs, sh) + {p}
    ensures sh !in x.list ==> Users(programs[p := x], sh) == Users(programs, sh) - {p}
  {
  }

  lemma UsersDrop(programs: map<Name, Program>, p: Name, sh: Name)
    ensures Users(programs - {p}, sh) == Users(programs, sh) - {p}
  {
  }

  ghost predicate NoDup<T>(s: seq<T>) {
    forall i, j :: 0 <= i < j < |s| ==> s[i] != s[j]
  }

  /** Host objects deleted so far. */
  ghost function Dead(log: seq<HostOp>): set<nat> {
    if log == [] then {}
    else
      var op := log[|log| - 1];
      Dead(log[..|log| - 1]) + (if op.DeleteShader? || op.DeleteProgram? then {op.id} else {})
  }

  ghost predicate Mentions(op: HostOp, id: nat) {
    op.id == id || ((op.AttachShader? || op.DetachShader?) && op.program == id)
  }

  ghost predicate Untouched(dead: set<nat>, op: HostOp) {
    forall id :: id in dead ==> !Mentions(op, id)
  }

  /** Nothing mentions an object after its deletion. */
  ghost predicate LogOk(log: seq<HostOp>) {
    log == [] ||
    (LogOk(log[..|log| - 1]) && Untouched(Dead(log[..|log| - 1]), log[|log| - 1]))
  }

  lemma LogAppend(log: seq<HostOp>, op: HostOp)
    ensures Dead(log + [op]) == Dead(log) + (if op.DeleteShader? || op.DeleteProgram? then {op.id} else {})
    ensures LogOk(log + [op]) <==> LogOk(log) && Untouched(Dead(log), op)
  {
    assert (log + [op])[..|log|] == log;
  }

  lemma {:induction false} DeadAt(log: seq<HostOp>, i: nat)
    requires i < |log| && (log[i].DeleteShader? || log[i].DeleteProgram?)
    ensures log[i].id in Dead(log)
  {
    if i < |log| - 1 {
      DeadAt(log[..|log| - 1], i);
    }
  }

  /** So no object is deleted twice, and no call reaches it after that. */
  lemma {:induction false} DeletedOnce(log: seq<HostOp>, i: nat, j: nat)
    requires LogOk(log) && i < j < |log| && (log[i].DeleteShader? || log[i].DeleteProgram?)
    ensures !Mentions(log[j], log[i].id)
    decreases |log|
  {
    var rest := log[..|log| - 1];
    if j == |log| - 1 {
      DeadAt(rest, i);
    } else {
      DeletedOnce(rest, i, j);
    }
  }

  // ---- what every call keeps ----

  /** `attached` is the number of programs that list the shader. */
  ghost predicate Counted(shaders: map<Name, Shader>, programs: map<Name, Program>) {
    forall sh {:trigger Users(programs, sh)} :: sh in shaders ==> shaders[sh].attached == |Users(programs, sh)|
  }

  /** Lists name live shaders, each once. */
  ghost predicate Listed(shaders: map<Name, Shader>, programs: map<Name, Program>) {
    forall p {:trigger ListOk(shaders, programs, p)} :: p in programs ==> ListOk(shaders, programs, p)
  }

  ghost predicate ListOk(shaders: map<Name, Shader>, programs: map<Name, Program>, p: Name)
    requires p in programs
  {
    NoDup(programs[p].list) && forall sh :: sh in programs[p].list ==> sh in shaders
  }

  /** A shader whose deletion is pending is still attached. */
  ghost predicate PendingOk(shaders: map<Name, Shader>) {
    forall sh {:trigger shaders[sh].pending} :: sh in shaders && shaders[sh].pending ==> shaders[sh].attached > 0
  }

  /** The namespace is the disjoint union of shaders and programs. */
  ghost predicate NamesOk(sp: map<Name, nat>, shaders: map<Name, Shader>, programs: map<Name, Program>) {
    forall n {:trigger NameOk(sp, shaders, programs, n)} :: NameOk(sp, shaders, programs, n)
  }

  ghost predicate NameOk(sp: map<Name, nat>, shaders: map<Name, Shader>, programs: map<Name, Program>, n: Name) {
    && (n in sp <==> n in shaders || n in programs)
    && (n in shaders ==> n !in programs && sp[n] == shaders[n].id)
    && (n in programs ==> sp[n] == programs[n].id)
  }

  ghost function Live(sp: map<Name, nat>): set<nat> {
    set n | n in sp :: sp[n]
  }

  /** No host object is lost: each one given out so far is live or was deleted. */
  ghost predicate NoneLost(sp: map<Name, nat>, nextId: nat, dead: set<nat>) {
    forall id {:trigger Accounted(sp, dead, id)} :: 0 < id <= nextId ==> Accounted(sp, dead, id)
  }

  ghost predicate Accounted(sp: map<Name, nat>, dead: set<nat>, id: nat) {
    id in Live(sp) || id in dead
  }

  /** Host ids of live objects are distinct and not among the deleted ones, and
      there are no others. */
  ghost predicate IdsOk(sp: map<Name, nat>, nextId: nat, log: seq<HostOp>) {
    && NoneLost(sp, nextId, Dead(log))
    && (forall n {:trigger IdOk(sp, nextId, Dead(log), n)} :: n in sp ==> IdOk(sp, nextId, Dead(log), n))
    && (forall n, m {:trigger Differ(sp, n, m)} :: n in sp && m in sp && n != m ==> Differ(sp, n, m))
    && (forall id :: id in Dead(log) ==> id <= nextId)
    && LogOk(log)
  }

  ghost predicate IdOk(sp: map<Name, nat>, nextId: nat, dead: set<nat>, n: Name)
    requires n in sp
  {
    0 < sp[n] <= nextId && sp[n] !in dead
  }

  ghost predicate Differ(sp: map<Name, nat>, n: Name, m: Name)
    requires n in sp && m in sp
  {
    sp[n] != sp[m]
  }

  /** An op on live objects. */
  lemma LogLive(sp: map<Name, nat>, nextId: nat, log: seq<HostOp>, op: HostOp, n: Name, m: Name)
    requires IdsOk(sp, nextId, log) && n in sp && m in sp
    requires (op.AttachShader? || op.DetachShader?) && op.id == sp[n] && op.program == sp[m]
    ensures IdsOk(sp, nextId, log + [op])
  {
    LogAppend(log, op);
    assert IdOk(sp, nextId, Dead(log), n) && IdOk(sp, nextId, Dead(log), m);
    assert Dead(log + [op]) == Dead(log);
  }

  lemma LogCreate(sp: map<Name, nat>, nextId: nat, log: seq<HostOp>, op: HostOp, n: Name)
    requires IdsOk(sp, nextId, log) && n !in sp && op.id == nextId + 1 && (op.CreateShader? || op.CreateProgram?)
    ensures IdsOk(sp[n := op.id], nextId + 1, log + [op])
  {
    LogAppend(log, op);
    assert Dead(log + [op]) == Dead(log);
    forall m | m in sp
      ensures sp[m] <= nextId && sp[m] > 0 && sp[m] !in Dead(log)
    {
      assert IdOk(sp, nextId, Dead(log), m);
    }
    forall k, m | k in sp && m in sp && k != m
      ensures sp[k] != sp[m]
    {
      assert Differ(sp, k, m);
    }
    LivePut(sp, n, op.id);
    var sp' := sp[n := op.id];
    forall id: nat | 0 < id <= nextId + 1
      ensures Accounted(sp', Dead(log), id)
    {
      assert id <= nextId ==> Accounted(sp, Dead(log), id);
    }
  }

  lemma LivePut(sp: map<Name, nat>, n: Name, id: nat)
    requires n !in sp
    ensures Live(sp[n := id]) == Live(sp) + {id}
  {
    var sp' := sp[n := id];
    assert sp'[n] in Live(sp');
    assert forall m :: m in sp ==> sp'[m] == sp[m] && sp'[m] in Live(sp');
  }

  lemma LiveDrop(sp: map<Name, nat>, n: Name)
    requires n in sp
    ensures Live(sp) <= Live(sp - {n}) + {sp[n]}
  {
    forall m | m in sp
      ensures sp[m] in Live(sp - {n}) + {sp[n]}
    {
      if m != n {
        assert (sp - {n})[m] == sp[m];
      }
    }
  }

  /** The name goes, and then its object. */
  lemma LogDelete(sp: map<Name, nat>, nextId: nat, log: seq<HostOp>, op: HostOp, n: Name)
    requires IdsOk(sp, nextId, log) && n in sp && op.id == sp[n] && (op.DeleteShader? || op.DeleteProgram?)
    ensures IdsOk(sp - {n}, nextId, log + [op])
  {
    LogAppend(log, op);
    LiveDrop(sp, n);
    assert IdOk(sp, nextId, Dead(log), n);
    var sp', dead := sp - {n}, Dead(log + [op]);
    forall id: nat | 0 < id <= nextId
      ensures Accounted(sp', dead, id)
    {
      assert Accounted(sp, Dead(log), id);
    }
    forall m | m in sp'
      ensures IdOk(sp', nextId, dead, m)
    {
      assert IdOk(sp, nextId, Dead(log), m) && Differ(sp, n, m);
    }
    forall k, m | k in sp' && m in sp' && k != m
      ensures Differ(sp', k, m)
    {
      assert Differ(sp, k, m);
    }
  }

  ghost predicate Tables(sp: map<Name, nat>, shaders: map<Name, Shader>, programs: map<Name, Program>) {
    Counted(shaders, programs) && Listed(shaders, programs) && PendingOk(shaders) && NamesOk(sp, shaders, programs)
  }

  lemma AddShader(sp: map<Name, nat>, shaders: map<Name, Shader>, programs: map<Name, Program>, n: Name, id: nat)
    requires Tables(sp, shaders, programs) && n !in sp
    ensures Tables(sp[n := id], shaders[n := Shader(id, 0, false)], programs)
  {
    var s', sp' := shaders[n := Shader(id, 0, false)], sp[n := id];
    assert NameOk(sp, shaders, programs, n);
    forall p | p in programs
      ensures ListOk(s', programs, p) && n !in programs[p].list
    {
      assert ListOk(shaders, programs, p);
    }
    assert Users(programs, n) == {};
    forall m: Name
      ensures NameOk(sp', s', programs, m)
    {
      assert NameOk(sp, shaders, programs, m);
    }
  }

  /** A new program lists nothing and is not to be deleted. */
  function NoShaders(id: nat): (p: Program)
    ensures p.id == id && p.list == [] && !p.pending
  {
    Program(id, [], false)
  }

  lemma AddProgram(sp: map<Name, nat>, shaders: map<Name, Shader>, programs: map<Name, Program>, n: Name, id: nat)
    requires Tables(sp, shaders, programs) && n !in sp
    ensures Tables(sp[n := id], shaders, programs[n := NoShaders(id)])
  {
    var x := NoShaders(id);
    var p', sp' := programs[n := x], sp[n := id];
    assert NameOk(sp, shaders, programs, n);
    forall sh | sh in shaders
      ensures Users(p', sh) == Users(programs, sh)
    {
      UsersPut(programs, n, x, sh);
    }
    forall p | p in p'
      ensures ListOk(shaders, p', p)
    {
      assert p != n ==> ListOk(shaders, programs, p);
    }
    forall m: Name
      ensures NameOk(sp', shaders, p', m)
    {
      assert NameOk(sp, shaders, programs, m);
    }
  }

  /** The count of each shader after program `p` got another list: the shader
      whose membership changed by `delta` and the others. */
  lemma Recounted(shaders: map<Name, Shader>, programs: map<Name, Program>, p: Name, x: Program, sh: Name, y: Shader)
    requires Counted(shaders, programs) && p in programs && sh in shaders
    requires forall k: Name :: k != sh ==> (k in x.list <==> k in programs[p].list)
    requires (sh in x.list) != (sh in programs[p].list)
    requires y.attached == if sh in x.list then shaders[sh].attached + 1 else shaders[sh].attached - 1
    ensures Counted(shaders[sh := y], programs[p := x])
  {
    var s' := shaders[sh := y];
    forall k | k in s'
      ensures s'[k].attached == |Users(programs[p := x], k)|
    {
      UsersPut(programs, p, x, k);
      if k != sh {
        assert Users(programs[p := x], k) == Users(programs, k);
      } else if sh in x.list {
        assert p !in Users(programs, sh);
      } else {
        assert p in Users(programs, sh);
      }
    }
  }

  /** Another list for program `p` and another record of shader `sh`. */
  lemma Relisted(sp: map<Name, nat>, shaders: map<Name, Shader>, programs: map<Name, Program>, p: Name, x: Program,
                 sh: Name, y: Shader)
    requires Listed(shaders, programs) && NamesOk(sp, shaders, programs) && p in programs && sh in shaders
    requires x.id == programs[p].id && y.id == shaders[sh].id && NoDup(x.list)
    requires forall k: Name :: k in x.list ==> k == sh || k in programs[p].list
    ensures Listed(shaders[sh := y], programs[p := x]) && NamesOk(sp, shaders[sh := y], programs[p := x])
  {
    var s', p' := shaders[sh := y], programs[p := x];
    assert ListOk(shaders, programs, p);
    forall q | q in p'
      ensures ListOk(s', p', q)
    {
      assert q != p ==> ListOk(shaders, programs, q);
    }
    forall m: Name
      ensures NameOk(sp, s', p', m)
    {
      assert NameOk(sp, shaders, programs, m);
    }
  }

  lemma AttachKeeps(sp: map<Name, nat>, shaders: map<Name, Shader>, programs: map<Name, Program>, p: Name, sh: Name)
    requires Tables(sp, shaders, programs) && p in programs && sh in shaders && sh !in programs[p].list
    ensures Tables(sp, shaders[sh := shaders[sh].(attached := shaders[sh].attached + 1)],
                   programs[p := programs[p].(list := programs[p].list + [sh])])
  {
    var x := programs[p].(list := programs[p].list + [sh]);
    var y := shaders[sh].(attached := shaders[sh].attached + 1);
    assert ListOk(shaders, programs, p);
    Recounted(shaders, programs, p, x, sh, y);
    Relisted(sp, shaders, programs, p, x, sh, y);
  }

  /** `position` and `remove`. */
  lemma Removed(list: seq<Name>, k: nat)
    requires NoDup(list) && k < |list|
    ensures NoDup(list[..k] + list[k + 1..]) && list[k] !in list[..k] + list[k + 1..]
    ensures forall n: Name :: n != list[k] ==> (n in list[..k] + list[k + 1..] <==> n in list)
  {
    var r := list[..k] + list[k + 1..];
    forall n: Name | n != list[k] && n in list
      ensures n in r
    {
      var i :| 0 <= i < |list| && list[i] == n;
      assert i < k ==> r[i] == n;
      assert i > k ==> r[i - 1] == n;
    }
  }

  /** The list without the first occurrence of `sh`. */
  function Without(list: seq<Name>, sh: Name): seq<Name> {
    if list == [] then []
    else if list[0] == sh then list[1..]
    else [list[0]] + Without(list[1..], sh)
  }

  lemma {:induction false} WithoutIs(list: seq<Name>, k: nat)
    requires NoDup(list) && k < |list|
    ensures Without(list, list[k]) == list[..k] + list[k + 1..]
    decreases |list|
  {
    if k == 0 {
      assert list[..0] + list[1..] == list[1..];
    } else {
      WithoutIs(list[1..], k - 1);
      assert list[..k] + list[k + 1..] == [list[0]] + (list[1..][..k - 1] + list[1..][k..]);
    }
  }

  /** `saturating_sub(1)`. */
  function Less(n: nat): nat {
    if n == 0 then 0 else n - 1
  }

  /** Detaching leaves the tables right, except that a pending shader may have
      lost its last program. */
  lemma DetachKeeps(sp: map<Name, nat>, shaders: map<Name, Shader>, programs: map<Name, Program>, p: Name, k: nat)
    requires Tables(sp, shaders, programs) && p in programs && k < |programs[p].list|
    ensures var sh := programs[p].list[k];
            var x := programs[p].(list := programs[p].list[..k] + programs[p].list[k + 1..]);
            && sh in shaders && shaders[sh].attached > 0
            && var y := shaders[sh].(attached := shaders[sh].attached - 1);
               && Counted(shaders[sh := y], programs[p := x]) && Listed(shaders[sh := y], programs[p := x])
               && NamesOk(sp, shaders[sh := y], programs[p := x])
               && (!(y.pending && y.attached == 0) ==> PendingOk(shaders[sh := y]))
               && (y.attached == 0 ==> Unused(programs[p := x], sh))
  {
    var list := programs[p].list;
    var sh := list[k];
    var x := programs[p].(list := list[..k] + list[k + 1..]);
    assert ListOk(shaders, programs, p);
    Removed(list, k);
    assert p in Users(programs, sh);
    var y := shaders[sh].(attached := shaders[sh].attached - 1);
    Recounted(shaders, programs, p, x, sh, y);
    Relisted(sp, shaders, programs, p, x, sh, y);
    Unlisted(programs[p := x], sh);
  }

  ghost predicate Unused(programs: map<Name, Program>, sh: Name) {
    forall q :: q in programs ==> sh !in programs[q].list
  }

  lemma Unlisted(programs: map<Name, Program>, sh: Name)
    ensures |Users(programs, sh)| == 0 ==> Unused(programs, sh)
  {
    if |Users(programs, sh)| == 0 {
      forall q | q in programs
        ensures sh !in programs[q].list
      {
        assert q !in Users(programs, sh);
      }
    }
  }

  /** A shader that no program lists can go. */
  lemma ForgetShader(sp: map<Name, nat>, shaders: map<Name, Shader>, programs: map<Name, Program>, sh: Name)
    requires Counted(shaders, programs) && Listed(shaders, programs) && NamesOk(sp, shaders, programs) && sh in shaders
    requires Unused(programs, sh)
    ensures Counted(shaders - {sh}, programs) && Listed(shaders - {sh}, programs)
    ensures NamesOk(sp - {sh}, shaders - {sh}, programs)
  {
    var s', sp' := shaders - {sh}, sp - {sh};
    forall q | q in programs
      ensures ListOk(s', programs, q)
    {
      assert ListOk(shaders, programs, q);
    }
    forall m: Name
      ensures NameOk(sp', s', programs, m)
    {
      assert NameOk(sp, shaders, programs, m) && NameOk(sp, shaders, programs, sh);
    }
  }

  ghost predicate Ok(sp: map<Name, nat>, shaders: map<Name, Shader>, programs: map<Name, Program>, nextId: nat,
                     log: seq<HostOp>) {
    Tables(sp, shaders, programs) && IdsOk(sp, nextId, log)
  }

  /** All but the promise about pending deletions. */
  ghost predicate Nearly(sp: map<Name, nat>, shaders: map<Name, Shader>, programs: map<Name, Program>, nextId: nat,
                         log: seq<HostOp>) {
    Counted(shaders, programs) && Listed(shaders, programs) && NamesOk(sp, shaders, programs) && IdsOk(sp, nextId, log)
  }

  lemma OkNewShader(sp: map<Name, nat>, shaders: map<Name, Shader>, programs: map<Name, Program>, nextId: nat,
                    log: seq<HostOp>, n: Name)
    requires Ok(sp, shaders, programs, nextId, log) && n !in sp
    ensures var id := nextId + 1;
            Ok(sp[n := id], shaders[n := Shader(id, 0, false)], programs, id, log + [CreateShader(id)])
  {
    LogCreate(sp, nextId, log, CreateShader(nextId + 1), n);
    AddShader(sp, shaders, programs, n, nextId + 1);
  }

  lemma OkNewProgram(sp: map<Name, nat>, shaders: map<Name, Shader>, programs: map<Name, Program>, nextId: nat,
                     log: seq<HostOp>, n: Name)
    requires Ok(sp, shaders, programs, nextId, log) && n !in sp
    ensures var id := nextId + 1;
            Ok(sp[n := id], shaders, programs[n := NoShaders(id)], id, log + [CreateProgram(id)])
  {
    LogCreate(sp, nextId, log, CreateProgram(nextId + 1), n);
    AddProgram(sp, shaders, programs, n, nextId + 1);
  }

  lemma OkTouch(sp: map<Name, nat>, shaders: map<Name, Shader>, programs: map<Name, Program>, nextId: nat,
                log: seq<HostOp>, op: HostOp, p: Name, sh: Name)
    requires Ok(sp, shaders, programs, nextId, log) && p in programs && sh in shaders
    requires (op.AttachShader? || op.DetachShader?) && op.program == programs[p].id && op.id == shaders[sh].id
    ensures Ok(sp, shaders, programs, nextId, log + [op])
  {
    assert NameOk(sp, shaders, programs, p) && NameOk(sp, shaders, programs, sh);
    LogLive(sp, nextId, log, op, sh, p);
  }

  lemma OkForget(sp: map<Name, nat>, shaders: map<Name, Shader>, programs: map<Name, Program>, nextId: nat,
                 log: seq<HostOp>, sh: Name, op: HostOp)
    requires Nearly(sp, shaders, programs, nextId, log) && sh in shaders && Unused(programs, sh)
    requires op == DeleteShader(shaders[sh].id)
    ensures Nearly(sp - {sh}, shaders - {sh}, programs, nextId, log + [op])
  {
    ForgetShader(sp, shaders, programs, sh);
    assert NameOk(sp, shaders, programs, sh);
    LogDelete(sp, nextId, log, op, sh);
  }

  lemma OkPending(sp: map<Name, nat>, shaders: map<Name, Shader>, programs: map<Name, Program>, sh: Name)
    requires Tables(sp, shaders, programs) && sh in shaders && shaders[sh].attached > 0
    ensures Tables(sp, shaders[sh := shaders[sh].(pending := true)], programs)
  {
    var s' := shaders[sh := shaders[sh].(pending := true)];
    forall q | q in programs
      ensures ListOk(s', programs, q)
    {
      assert ListOk(shaders, programs, q);
    }
    forall m: Name
      ensures NameOk(sp, s', programs, m)
    {
      assert NameOk(sp, shaders, programs, m);
    }
  }

  // ---- deleting a program ----

  /** A program that goes leaves its list owing: each shader on it is counted once
      too often from place `i` on. */
  ghost predicate Owing(shaders: map<Name, Shader>, programs: map<Name, Program>, list: seq<Name>, i: nat)
    requires i <= |list|
  {
    forall sh {:trigger Users(programs, sh)} :: sh in shaders ==>
      shaders[sh].attached == |Users(programs, sh)| + One(sh in list[i..])
  }

  /** Pending shaders without a program are on the list of those to free, and
      those are unused. */
  ghost predicate FreedOk(shaders: map<Name, Shader>, programs: map<Name, Program>, freed: seq<Name>) {
    && (forall sh {:trigger shaders[sh].pending} :: sh in shaders && shaders[sh].pending ==> shaders[sh].attached > 0 || sh in freed)
    && NoDup(freed)
    && (forall j :: 0 <= j < |freed| ==> freed[j] in shaders && Unused(programs, freed[j]))
  }

  function Released(s: Shader, listed: bool): Shader {
    if listed then s.(attached := Less(s.attached)) else s
  }

  /** The shader waits for its last program to be deleted. */
  ghost predicate Waits(shaders: map<Name, Shader>, sh: Name) {
    sh in shaders && shaders[sh].pending && shaders[sh].attached == 1
  }

  /** The same shaders, up to their counts. */
  ghost predicate SameShaders(a: map<Name, Shader>, b: map<Name, Shader>) {
    (forall sh :: sh in a <==> sh in b) && forall sh :: sh in a ==> b[sh] == a[sh].(attached := b[sh].attached)
  }

  /** The first `i` shaders of the list are counted down; `freed` are those of
      them that waited. */
  ghost predicate Down(was: map<Name, Shader>, shaders: map<Name, Shader>, list: seq<Name>, i: nat, freed: seq<Name>)
    requires i <= |list|
  {
    && (forall sh :: sh in was <==> sh in shaders)
    && (forall sh :: sh in shaders ==> shaders[sh] == Released(was[sh], sh in list[..i]))
    && freed == WaitingOf(was, list[..i])
  }

  /** The shaders of a list that wait, in its order. */
  ghost function WaitingOf(shaders: map<Name, Shader>, list: seq<Name>): (w: seq<Name>)
    ensures forall sh :: sh in w <==> sh in list && Waits(shaders, sh)
  {
    if list == [] then []
    else
      var n := |list| - 1;
      WaitingOf(shaders, list[..n]) + (if Waits(shaders, list[n]) then [list[n]] else [])
  }

  /** The deletions of some shaders. */
  ghost function Deletions(shaders: map<Name, Shader>, names: seq<Name>): seq<HostOp> {
    if names == [] then []
    else
      var n := |names| - 1;
      Deletions(shaders, names[..n]) + (if names[n] in shaders then [DeleteShader(shaders[names[n]].id)] else [])
  }

  /** `b` is `a` without `names`. */
  ghost predicate Gone(a: map<Name, Shader>, b: map<Name, Shader>, names: seq<Name>) {
    (forall sh :: sh in b <==> sh in a && sh !in names) && forall sh :: sh in b ==> b[sh] == a[sh]
  }

  lemma OneGone(a: map<Name, Shader>, b: map<Name, Shader>, names: seq<Name>, i: nat)
    requires i < |names| && Gone(a, b, names[..i]) && names[i] in b
    ensures Gone(a, b - {names[i]}, names[..i + 1])
    ensures Deletions(a, names[..i + 1]) == Deletions(a, names[..i]) + [DeleteShader(b[names[i]].id)]
  {
    assert names[..i + 1] == names[..i] + [names[i]] && names[..i + 1][..i] == names[..i];
  }

  lemma {:induction false} SameDeletions(a: map<Name, Shader>, b: map<Name, Shader>, names: seq<Name>)
    requires forall sh :: sh in names ==> (sh in a <==> sh in b) && (sh in a ==> a[sh].id == b[sh].id)
    ensures Deletions(a, names) == Deletions(b, names)
  {
    if names != [] {
      SameDeletions(a, b, names[..|names| - 1]);
    }
  }

  lemma DownSame(was: map<Name, Shader>, shaders: map<Name, Shader>, list: seq<Name>, i: nat, freed: seq<Name>)
    requires i <= |list| && Down(was, shaders, list, i, freed)
    ensures SameShaders(was, shaders)
  {
  }

  lemma DownOne(was: map<Name, Shader>, shaders: map<Name, Shader>, list: seq<Name>, i: nat, freed: seq<Name>)
    requires i < |list| && NoDup(list) && list[i] in shaders && shaders[list[i]].attached > 0
    requires Down(was, shaders, list, i, freed)
    ensures var y := shaders[list[i]].(attached := shaders[list[i]].attached - 1);
            Down(was, shaders[list[i] := y], list, i + 1, if y.attached == 0 && y.pending then freed + [list[i]] else freed)
  {
    var sh := list[i];
    assert sh !in list[..i];
    assert list[..i + 1] == list[..i] + [sh] && list[..i + 1][..i] == list[..i];
    assert shaders[sh] == was[sh];
  }

  lemma DropProgram(sp: map<Name, nat>, shaders: map<Name, Shader>, programs: map<Name, Program>, nextId: nat,
                    log: seq<HostOp>, p: Name)
    requires Ok(sp, shaders, programs, nextId, log) && p in programs
    ensures Owing(shaders, programs - {p}, programs[p].list, 0)
    ensures Listed(shaders, programs - {p}) && NamesOk(sp - {p}, shaders, programs - {p})
    ensures IdsOk(sp - {p}, nextId, log + [DeleteProgram(programs[p].id)])
    ensures FreedOk(shaders, programs - {p}, [])
    ensures NoDup(programs[p].list) && forall sh :: sh in programs[p].list ==> sh in shaders
  {
    var p', sp' := programs - {p}, sp - {p};
    assert ListOk(shaders, programs, p) && NameOk(sp, shaders, programs, p);
    LogDelete(sp, nextId, log, DeleteProgram(programs[p].id), p);
    forall sh | sh in shaders
      ensures shaders[sh].attached == |Users(p', sh)| + One(sh in programs[p].list[0..])
    {
      UsersDrop(programs, p, sh);
      assert programs[p].list[0..] == programs[p].list;
      if sh in programs[p].list {
        assert p in Users(programs, sh);
      } else {
        assert Users(programs, sh) - {p} == Users(programs, sh);
      }
    }
    forall q | q in p'
      ensures ListOk(shaders, p', q)
    {
      assert ListOk(shaders, programs, q);
    }
    forall m: Name
      ensures NameOk(sp', shaders, p', m)
    {
      assert NameOk(sp, shaders, programs, m);
    }
  }

  /** One place of the list is paid. */
  lemma Paid(shaders: map<Name, Shader>, programs: map<Name, Program>, list: seq<Name>, i: nat, freed: seq<Name>)
    requires i < |list| && NoDup(list) && list[i] in shaders
    requires Owing(shaders, programs, list, i) && FreedOk(shaders, programs, freed)
    requires forall x :: x in freed ==> x in list[..i]
    ensures shaders[list[i]].attached > 0
    ensures var y := shaders[list[i]].(attached := shaders[list[i]].attached - 1);
            var s' := shaders[list[i] := y];
            && Owing(s', programs, list, i + 1)
            && FreedOk(s', programs, if y.attached == 0 && y.pending then freed + [list[i]] else freed)
  {
    var sh := list[i];
    assert list[i..][0] == sh && list[i..] == [sh] + list[i + 1..];
    assert sh !in list[i + 1..] && sh !in list[..i];
    assert shaders[sh].attached == |Users(programs, sh)| + 1;
    var y := shaders[sh].(attached := shaders[sh].attached - 1);
    var s' := shaders[sh := y];
    forall k | k in s'
      ensures s'[k].attached == |Users(programs, k)| + One(k in list[i + 1..])
    {
      assert k != sh ==> (k in list[i..] <==> k in list[i + 1..]);
    }
    Unlisted(programs, sh);
  }

  class Share {
    var sp: map<Name, nat>
    var spNext: U32
    var shaders: map<Name, Shader>
    var programs: map<Name, Program>
    var nextId: nat
    /** What was sent to the executor about shaders and programs. */
    var log: seq<HostOp>

    ghost predicate Valid()
      reads this
    {
      Ok(sp, shaders, programs, nextId, log)
    }

    constructor ()
      ensures Valid() && shaders == map[] && programs == map[] && log == []
    {
      sp, spNext, shaders, programs, nextId, log := map[], 0, map[], map[], 0, [];
    }

    /** A name for a new object. */
    method FreshName() returns (name: Name)
      requires |sp| < LAST
      modifies this`spNext
      ensures name !in sp
    {
      name := Fresh(sp.Keys, spNext);
      spNext := name;
    }

    /** glCreateShader. */
    method NewShader() returns (name: Name)
      requires Valid() && |sp| < LAST
      modifies this`sp, this`spNext, this`shaders, this`nextId, this`log
      ensures Valid() && name !in old(sp) && nextId == old(nextId) + 1
      ensures shaders == old(shaders)[name := Shader(nextId, 0, false)] && log == old(log) + [CreateShader(nextId)]
      ensures sp == old(sp)[name := nextId]
    {
      name := FreshName();
      OkNewShader(sp, shaders, programs, nextId, log, name);
      var id := nextId + 1;
      nextId, log := id, log + [CreateShader(id)];
      sp, shaders := sp[name := id], shaders[name := Shader(id, 0, false)];
    }

    /** glCreateProgram. */
    method NewProgram() returns (name: Name)
      requires Valid() && |sp| < LAST
      modifies this`sp, this`spNext, this`programs, this`nextId, this`log
      ensures Valid() && name !in old(sp) && nextId == old(nextId) + 1
      ensures programs == old(programs)[name := NoShaders(nextId)] && log == old(log) + [CreateProgram(nextId)]
      ensures sp == old(sp)[name := nextId]
    {
      name := FreshName();
      OkNewProgram(sp, shaders, programs, nextId, log, name);
      var id := nextId + 1;
      nextId, log := id, log + [CreateProgram(id)];
      sp, programs := sp[name := id], programs[name := NoShaders(id)];
    }

    /** glAttachShader. */
    method Attach(p: Name, sh: Name)
      requires Valid()
      modifies this`shaders, this`programs, this`log
      ensures Valid()
      ensures p in old(programs) && sh in old(shaders) ==>
                log == old(log) + [AttachShader(old(programs)[p].id, old(shaders)[sh].id)]
      ensures p in old(programs) && sh in old(shaders) && sh !in old(programs)[p].list ==>
                var po, so := old(programs)[p], old(shaders)[sh];
                && programs == old(programs)[p := po.(list := po.list + [sh])]
                && shaders == old(shaders)[sh := so.(attached := so.attached + 1)]
      ensures p in old(programs) && sh in old(shaders) && sh in old(programs)[p].list ==>
                programs == old(programs) && shaders == old(shaders)
      ensures p !in old(programs) || sh !in old(shaders) ==> shaders == old(shaders) && programs == old(programs) && log == old(log)
    {
      if p !in programs || sh !in shaders {
        return;
      }
      var pid, sid := programs[p].id, shaders[sh].id;
      OkTouch(sp, shaders, programs, nextId, log, AttachShader(pid, sid), p, sh);
      if sh !in programs[p].list {
        AttachKeeps(sp, shaders, programs, p, sh);
        programs := programs[p := programs[p].(list := programs[p].list + [sh])];
        shaders := shaders[sh := shaders[sh].(attached := shaders[sh].attached + 1)];
      }
      log := log + [AttachShader(pid, sid)];
    }

    /** glDetachShader. A shader that waited for this to be deleted goes. */
    method Detach(p: Name, sh: Name)
      requires Valid()
      modifies this`shaders, this`programs, this`sp, this`log
      ensures Valid()
      ensures p in old(programs) && sh in old(shaders) && sh in old(programs)[p].list ==>
                var po, so, d := old(programs)[p], old(shaders)[sh], DetachShader(old(programs)[p].id, old(shaders)[sh].id);
                && programs == old(programs)[p := po.(list := Without(po.list, sh))]
                && shaders == (if Waits(old(shaders), sh) then old(shaders) - {sh}
                               else old(shaders)[sh := so.(attached := Less(so.attached))])
                && log == old(log) + (if Waits(old(shaders), sh) then [d, DeleteShader(so.id)] else [d])
      ensures p in old(programs) && sh in old(shaders) && sh !in old(programs)[p].list ==>
                && programs == old(programs) && shaders == old(shaders)
                && log == old(log) + [DetachShader(old(programs)[p].id, old(shaders)[sh].id)]
      ensures p !in old(programs) || sh !in old(shaders) ==> shaders == old(shaders) && programs == old(programs) && log == old(log)
    {
      if p !in programs || sh !in shaders {
        return;
      }
      var pid, sid := programs[p].id, shaders[sh].id;
      OkTouch(sp, shaders, programs, nextId, log, DetachShader(pid, sid), p, sh);
      log := log + [DetachShader(pid, sid)];
      if sh in programs[p].list {
        var k :| 0 <= k < |programs[p].list| && programs[p].list[k] == sh;
        Unlist(p, k);
      }
    }

    /** Takes the shader at place `k` off the list of `p`. */
    method Unlist(p: Name, k: nat)
      requires Valid() && p in programs && k < |programs[p].list|
      modifies this`shaders, this`programs, this`sp, this`log
      ensures Valid()
      ensures var po := old(programs)[p]; var sh := po.list[k];
              && sh in old(shaders) && sh in po.list
              && programs == old(programs)[p := po.(list := Without(po.list, sh))]
              && var so := old(shaders)[sh];
                 && shaders == (if Waits(old(shaders), sh) then old(shaders) - {sh}
                                else old(shaders)[sh := so.(attached := Less(so.attached))])
                 && log == old(log) + (if Waits(old(shaders), sh) then [DeleteShader(so.id)] else [])
    {
      var sh := programs[p].list[k];
      assert ListOk(shaders, programs, p);
      Removed(programs[p].list, k);
      DetachKeeps(sp, shaders, programs, p, k);
      WithoutIs(programs[p].list, k);
      ghost var left := shaders - {sh};
      programs := programs[p := programs[p].(list := programs[p].list[..k] + programs[p].list[k + 1..])];
      shaders := shaders[sh := shaders[sh].(attached := shaders[sh].attached - 1)];
      if shaders[sh].attached == 0 && shaders[sh].pending {
        assert shaders - {sh} == left;
        Forget(sh);
      }
    }

    /** Removes a shader that no program lists, and its host object. */
    method Forget(sh: Name)
      requires Nearly(sp, shaders, programs, nextId, log) && sh in shaders && Unused(programs, sh)
      modifies this`shaders, this`sp, this`log
      ensures Nearly(sp, shaders, programs, nextId, log)
      ensures shaders == old(shaders) - {sh} && log == old(log) + [DeleteShader(old(shaders)[sh].id)]
    {
      var op := DeleteShader(shaders[sh].id);
      OkForget(sp, shaders, programs, nextId, log, sh, op);
      shaders, sp, log := shaders - {sh}, sp - {sh}, log + [op];
    }

    /** glDeleteShader: at once, or when the last program lets it go. */
    method RemoveShader(sh: Name)
      requires Valid()
      modifies this`shaders, this`sp, this`log
      ensures Valid()
      ensures sh in old(shaders) && old(shaders)[sh].attached == 0 ==>
                shaders == old(shaders) - {sh} && log == old(log) + [DeleteShader(old(shaders)[sh].id)]
      ensures sh in old(shaders) && old(shaders)[sh].attached > 0 ==>
                shaders == old(shaders)[sh := old(shaders)[sh].(pending := true)] && log == old(log)
      ensures sh !in old(shaders) ==> shaders == old(shaders) && log == old(log)
    {
      if sh !in shaders {
        return;
      }
      if shaders[sh].attached > 0 {
        OkPending(sp, shaders, programs, sh);
        shaders := shaders[sh := shaders[sh].(pending := true)];
      } else {
        Unlisted(programs, sh);
        Forget(sh);
      }
    }

    /** glDeleteProgram. The current program only becomes pending. Shaders that
        waited for this program go with it. */
    method RemoveProgram(p: Name, current: nat)
      requires Valid()
      modifies this`shaders, this`programs, this`sp, this`log
      ensures Valid()
      ensures p in old(programs) && old(programs)[p].id != current ==>
                && programs == old(programs) - {p}
                && (forall sh :: sh in old(shaders) ==>
                     (sh !in shaders <==> sh in old(programs)[p].list && Waits(old(shaders), sh)))
                && (forall sh :: sh in shaders ==>
                     && sh in old(shaders)
                     && shaders[sh] == Released(old(shaders)[sh], sh in old(programs)[p].list))
                && log == old(log) + [DeleteProgram(old(programs)[p].id)]
                          + Deletions(old(shaders), WaitingOf(old(shaders), old(programs)[p].list))
      ensures p in old(programs) && old(programs)[p].id == current ==>
                programs == old(programs)[p := old(programs)[p].(pending := true)] && shaders == old(shaders) && log == old(log)
      ensures p !in old(programs) ==> programs == old(programs) && shaders == old(shaders) && log == old(log)
    {
      if p !in programs {
        return;
      }
      if programs[p].id == current {
        OkProgramPending(sp, shaders, programs, p);
        programs := programs[p := programs[p].(pending := true)];
        return;
      }
      var po := programs[p];
      DropProgram(sp, shaders, programs, nextId, log, p);
      programs, sp := programs - {p}, sp - {p};
      log := log + [DeleteProgram(po.id)];
      var freed := Release(po.list);
      assert po.list[..|po.list|] == po.list;
      SameDeletions(shaders, old(shaders), freed);
      FreeAll(freed);
    }

    /** Counts every shader of a list down; those that waited are returned. */
    method Release(list: seq<Name>) returns (freed: seq<Name>)
      requires NoDup(list) && (forall sh :: sh in list ==> sh in shaders)
      requires Owing(shaders, programs, list, 0) && FreedOk(shaders, programs, [])
      requires Listed(shaders, programs) && NamesOk(sp, shaders, programs)
      modifies this`shaders
      ensures Down(old(shaders), shaders, list, |list|, freed) && FreedOk(shaders, programs, freed)
      ensures Counted(shaders, programs) && Listed(shaders, programs) && NamesOk(sp, shaders, programs)
    {
      freed := CountDown(list);
      DownSame(old(shaders), shaders, list, |list|, freed);
      Settled(sp, old(shaders), shaders, programs, list);
    }

    method CountDown(list: seq<Name>) returns (freed: seq<Name>)
      requires NoDup(list) && (forall sh :: sh in list ==> sh in shaders)
      requires Owing(shaders, programs, list, 0) && FreedOk(shaders, programs, [])
      modifies this`shaders
      ensures Down(old(shaders), shaders, list, |list|, freed)
      ensures Owing(shaders, programs, list, |list|) && FreedOk(shaders, programs, freed)
    {
      freed := [];
      var i := 0;
      while i < |list|
        invariant 0 <= i <= |list| && Down(old(shaders), shaders, list, i, freed)
        invariant Owing(shaders, programs, list, i) && FreedOk(shaders, programs, freed)
      {
        freed := ReleaseOne(list, i, freed, old(shaders));
        i := i + 1;
      }
    }

    method ReleaseOne(list: seq<Name>, i: nat, freed: seq<Name>, ghost was: map<Name, Shader>) returns (freed': seq<Name>)
      requires i < |list| && NoDup(list) && list[i] in was && Down(was, shaders, list, i, freed)
      requires Owing(shaders, programs, list, i) && FreedOk(shaders, programs, freed)
      modifies this`shaders
      ensures Down(was, shaders, list, i + 1, freed')
      ensures Owing(shaders, programs, list, i + 1) && FreedOk(shaders, programs, freed')
    {
      var sh := list[i];
      Paid(shaders, programs, list, i, freed);
      DownOne(was, shaders, list, i, freed);
      shaders := shaders[sh := shaders[sh].(attached := shaders[sh].attached - 1)];
      freed' := freed;
      if shaders[sh].attached == 0 && shaders[sh].pending {
        freed' := freed + [sh];
      }
    }

    /** Deletes the shaders that waited. */
    method FreeAll(freed: seq<Name>)
      requires Nearly(sp, shaders, programs, nextId, log) && FreedOk(shaders, programs, freed)
      modifies this`shaders, this`sp, this`log
      ensures Valid() && Gone(old(shaders), shaders, freed)
      ensures log == old(log) + Deletions(old(shaders), freed)
    {
      var i := 0;
      while i < |freed|
        invariant 0 <= i <= |freed| && Nearly(sp, shaders, programs, nextId, log)
        invariant FreedOk(shaders, programs, freed[i..])
        invariant Gone(old(shaders), shaders, freed[..i])
        invariant log == old(log) + Deletions(old(shaders), freed[..i])
      {
        FreeAt(freed, i, old(shaders), old(log));
        i := i + 1;
      }
      assert freed[..i] == freed && freed[i..] == [];
    }

    method FreeAt(freed: seq<Name>, i: nat, ghost was: map<Name, Shader>, ghost sent: seq<HostOp>)
      requires Nearly(sp, shaders, programs, nextId, log) && i < |freed| && FreedOk(shaders, programs, freed[i..])
      requires Gone(was, shaders, freed[..i]) && log == sent + Deletions(was, freed[..i])
      modifies this`shaders, this`sp, this`log
      ensures Nearly(sp, shaders, programs, nextId, log) && FreedOk(shaders, programs, freed[i + 1..])
      ensures Gone(was, shaders, freed[..i + 1]) && log == sent + Deletions(was, freed[..i + 1])
    {
      FreedOne(shaders, programs, freed[i..]);
      OneGone(was, shaders, freed, i);
      assert freed[i..][0] == freed[i] && freed[i..][1..] == freed[i + 1..];
      Forget(freed[i]);
    }

    /** The end of the share group: its shaders and programs are deleted. */
    method Destroy()
      requires Valid()
      modifies this`shaders, this`programs, this`sp, this`log
      ensures LogOk(log) && shaders == map[] && programs == map[]
      ensures forall id :: 0 < id <= nextId ==> id in Dead(log)
      ensures forall sh :: sh in old(shaders) ==> old(shaders)[sh].id in Dead(log)
      ensures forall p :: p in old(programs) ==> old(programs)[p].id in Dead(log)
    {
      IdsInRange();
      NamesAll(sp, shaders, programs);
      DestroyShaders();
      DestroyPrograms();
      shaders := map[];
    }

    lemma IdsInRange()
      requires Valid()
      ensures forall sh :: sh in shaders ==> 0 < shaders[sh].id <= nextId
      ensures forall p :: p in programs ==> 0 < programs[p].id <= nextId
    {
      NamesAll(sp, shaders, programs);
      forall n | n in sp
        ensures 0 < sp[n] <= nextId
      {
        assert IdOk(sp, nextId, Dead(log), n);
      }
    }

    method DestroyShaders()
      requires IdsOk(sp, nextId, log) && (forall n :: n in sp <==> n in shaders || n in programs)
      requires forall n :: n in shaders ==> n !in programs && sp[n] == shaders[n].id
      modifies this`sp, this`log
      ensures IdsOk(sp, nextId, log) && sp.Keys == programs.Keys
      ensures forall n :: n in sp ==> n in old(sp) && sp[n] == old(sp)[n]
    {
      var todo: set<Name> := shaders.Keys;
      while todo != {}
        invariant todo <= shaders.Keys
        invariant IdsOk(sp, nextId, log) && (forall n :: n in sp <==> n in todo || n in programs)
        invariant forall n :: n in sp ==> n in old(sp) && sp[n] == old(sp)[n]
        decreases todo
      {
        ghost var some := Pick(todo);
        var sh :| sh in todo;
        LogDelete(sp, nextId, log, DeleteShader(shaders[sh].id), sh);
        log := log + [DeleteShader(shaders[sh].id)];
        sp := sp - {sh};
        todo := todo - {sh};
      }
      assert sp.Keys == programs.Keys;
    }

    method DestroyPrograms()
      requires IdsOk(sp, nextId, log) && sp.Keys == programs.Keys
      requires forall n :: n in programs ==> sp[n] == programs[n].id
      modifies this`programs, this`sp, this`log
      ensures LogOk(log) && programs == map[] && forall id :: 0 < id <= nextId ==> id in Dead(log)
    {
      while programs != map[]
        invariant IdsOk(sp, nextId, log) && sp.Keys == programs.Keys
        invariant forall n :: n in programs ==> sp[n] == programs[n].id
        decreases programs.Keys
      {
        assert programs.Keys != {};
        ghost var some := Pick(programs.Keys);
        var p :| p in programs;
        var d := DeleteProgram(programs[p].id);
        LogDelete(sp, nextId, log, d, p);
        LogAppend(log, d);
        log := log + [d];
        sp := sp - {p};
        assert (programs - {p}).Keys == programs.Keys - {p};
        programs := programs - {p};
      }
      forall id | 0 < id <= nextId
        ensures id in Dead(log)
      {
        assert Accounted(sp, Dead(log), id);
      }
    }
  }

  lemma NamesAll(sp: map<Name, nat>, shaders: map<Name, Shader>, programs: map<Name, Program>)
    requires NamesOk(sp, shaders, programs)
    ensures forall n :: n in sp <==> n in shaders || n in programs
    ensures forall n :: n in shaders ==> n !in programs && sp[n] == shaders[n].id
    ensures forall n :: n in programs ==> sp[n] == programs[n].id
  {
    forall n: Name
      ensures n in sp <==> n in shaders || n in programs
      ensures n in shaders ==> n !in programs && sp[n] == shaders[n].id
      ensures n in programs ==> sp[n] == programs[n].id
    {
      assert NameOk(sp, shaders, programs, n);
    }
  }

  lemma OkProgramPending(sp: map<Name, nat>, shaders: map<Name, Shader>, programs: map<Name, Program>, p: Name)
    requires Tables(sp, shaders, programs) && p in programs
    ensures Tables(sp, shaders, programs[p := programs[p].(pending := true)])
  {
    var x := programs[p].(pending := true);
    var p' := programs[p := x];
    forall sh | sh in shaders
      ensures Users(p', sh) == Users(programs, sh)
    {
      UsersPut(programs, p, x, sh);
    }
    forall q | q in p'
      ensures ListOk(shaders, p', q)
    {
      assert ListOk(shaders, programs, q) && ListOk(shaders, programs, p);
    }
    forall m: Name
      ensures NameOk(sp, shaders, p', m)
    {
      assert NameOk(sp, shaders, programs, m);
    }
  }

  lemma Settled(sp: map<Name, nat>, was: map<Name, Shader>, shaders: map<Name, Shader>, programs: map<Name,
                Program>, list: seq<Name>)
    requires SameShaders(was, shaders) && Listed(was, programs) && NamesOk(sp, was, programs)
    requires Owing(shaders, programs, list, |list|)
    ensures Counted(shaders, programs) && Listed(shaders, programs) && NamesOk(sp, shaders, programs)
  {
    forall sh | sh in shaders
      ensures shaders[sh].attached == |Users(programs, sh)|
    {
      assert sh !in list[|list|..];
    }
    forall q | q in programs
      ensures ListOk(shaders, programs, q)
    {
      assert ListOk(was, programs, q);
    }
    forall m: Name
      ensures NameOk(sp, shaders, programs, m)
    {
      assert NameOk(sp, was, programs, m);
    }
  }

  lemma FreedOne(shaders: map<Name, Shader>, programs: map<Name, Program>, freed: seq<Name>)
    requires FreedOk(shaders, programs, freed) && freed != []
    ensures freed[0] in shaders && Unused(programs, freed[0])
    ensures FreedOk(shaders - {freed[0]}, programs, freed[1..])
  {
    var s', rest := shaders - {freed[0]}, freed[1..];
    assert forall j :: 0 <= j < |rest| ==> rest[j] == freed[j + 1];
    forall sh | sh in s' && s'[sh].pending
      ensures s'[sh].attached > 0 || sh in rest
    {
      assert shaders[sh].pending;
      if sh in freed {
        var j :| 0 <= j < |freed| && freed[j] == sh;
        assert rest[j - 1] == sh;
      }
    }
  }
}
