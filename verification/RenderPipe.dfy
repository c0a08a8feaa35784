/** The decoder's loop over buffered calls, and the byte pipe that feeds it. What
    a call does is a parameter (`Host`). */
module RenderPipe {
  import opened AddressSpace
  import opened Flags
  import opened LeBytes
  import opened Wire

  const MAX_PIPE_INPUT: int := 0x1000_0000
  /** "pipe:opengles" and "pipe:GLProcessPipe". */
  const OPENGLES: Bytes := [112, 105, 112, 101, 58, 111, 112, 101, 110, 103, 108, 101, 115]
  const PROCESS: Bytes := [112, 105, 112, 101, 58, 71, 76, 80, 114, 111, 99, 101, 115, 115, 80, 105, 112, 101]

  /** The call tables, and what a call does to the renderer: its new state, the
      out buffers and the return value. */
  datatype Host<!G> = Host(table: U32 -> Option<Spec>, run: (G, U32, seq<Arg>) -> (G, seq<Bytes>, U64))

  datatype Call = Call(op: U32, args: seq<Arg>)

  /** The renderer after some calls, the bytes they took, their replies. */
  datatype Outcome<G> = Outcome(g: G, used: nat, reply: Bytes, calls: seq<Call>)

  function Flatten(bs: seq<Bytes>): Bytes {
    if bs == [] then [] else bs[0] + Flatten(bs[1..])
  }

  /** `Reply::encode`, if the call has a reply. */
  function ReplyOf(spec: Spec, outs: seq<Bytes>, ret: U64): Bytes {
    if spec.ret > 0 || Out in spec.params then Flatten(outs) + ToBytes(ret, spec.ret) else []
  }

  /** One packet: unknown opcodes and short packets are skipped. */
  function One<G>(h: Host<G>, g: G, op: U32, packet: Bytes): Outcome<G> {
    match h.table(op)
    case None => Outcome(g, |packet|, [], [])
    case Some(spec) =>
      match DecodeFrom(spec.params, packet, 8)
      case None => Outcome(g, |packet|, [], [])
      case Some(args) =>
        var (g', outs, ret) := h.run(g, op, args);
        Outcome(g', |packet|, ReplyOf(spec, outs, ret), [Call(op, args)])
  }

  function Then<G>(a: Outcome<G>, b: Outcome<G>): Outcome<G> {
    Outcome(b.g, a.used + b.used, a.reply + b.reply, a.calls + b.calls)
  }

  /** Length of the first packet if it is all there; a header with a length below
      8 takes everything. */
  datatype Front = Partial | Malformed | Whole(op: U32, len: nat)

  function FrontOf(buf: Bytes): (f: Front)
    ensures f.Whole? ==> 8 <= f.len <= |buf|
  {
    match Peek(buf)
    case None => Partial
    case Some((op, len)) => if len < 8 then Malformed else if |buf| < len then Partial else Whole(op, len)
  }

  /** All complete calls of a buffer. */
  function Consume<G>(h: Host<G>, g: G, buf: Bytes): (r: Outcome<G>)
    ensures r.used <= |buf|
    decreases |buf|
  {
    match FrontOf(buf)
    case Partial => Outcome(g, 0, [], [])
    case Malformed => Outcome(g, |buf|, [], [])
    case Whole(op, len) =>
      var first := One(h, g, op, buf[..len]);
      assert first.used == len;
      Then(first, Consume(h, first.g, buf[len..]))
  }

  /** `Gl::decode`. */
  method DecodeCalls<G>(h: Host<G>, g: G, buf: Bytes) returns (done: Outcome<G>)
    ensures done == Consume(h, g, buf)
  {
    done := Outcome(g, 0, [], []);
    var rest := buf;
    ThenNothing(g, Consume(h, g, buf));
    while true
      invariant done.used + |rest| == |buf|
      invariant Consume(h, g, buf) == Then(done, Consume(h, done.g, rest))
      decreases |rest|
    {
      var front := FrontOf(rest);
      if !front.Whole? {
        LastTurn(h, done, rest);
        return if front.Partial? then done else done.(used := |buf|);
      }
      var one := One(h, done.g, front.op, rest[..front.len]);
      NextTurn(h, done, rest, one);
      done, rest := Then(done, one), rest[front.len..];
    }
  }

  /** A complete packet with an unknown opcode, or one too short for its parameters,
      is passed over. */
  lemma PassesOver<G>(h: Host<G>, g: G, buf: Bytes)
    requires FrontOf(buf).Whole? && FrontOf(buf).len == |buf|
    requires var spec := h.table(FrontOf(buf).op); spec.None? || DecodeFrom(spec.value.params, buf, 8).None?
    ensures Consume(h, g, buf) == Outcome(g, |buf|, [], [])
  {
    ConsumeOne(h, g, buf);
  }

  /** Any other is performed once, with the decoded arguments. It has a reply exactly
      if it returns something or fills a buffer: the out buffers one after the other,
      then the low bytes of the return value. */
  lemma Performs<G>(h: Host<G>, g: G, buf: Bytes, spec: Spec, args: seq<Arg>)
    requires FrontOf(buf).Whole? && FrontOf(buf).len == |buf|
    requires h.table(FrontOf(buf).op) == Some(spec) && DecodeFrom(spec.params, buf, 8) == Some(args)
    ensures var r, op := Consume(h, g, buf), FrontOf(buf).op;
            var done := h.run(g, op, args);
            && r.g == done.0 && r.used == |buf| && r.calls == [Call(op, args)]
            && (spec.ret == 0 && Out !in spec.params ==> r.reply == [])
            && (spec.ret > 0 || Out in spec.params ==> IsReply(r.reply, done.1, done.2, spec.ret))
  {
    ConsumeOne(h, g, buf);
    var done := h.run(g, FrontOf(buf).op, args);
    assert Consume(h, g, buf).reply == ReplyOf(spec, done.1, done.2);
    if spec.ret > 0 || Out in spec.params {
      ReplyIs(spec, done.1, done.2);
    }
  }

  lemma ConsumeOne<G>(h: Host<G>, g: G, buf: Bytes)
    requires FrontOf(buf).Whole? && FrontOf(buf).len == |buf|
    ensures Consume(h, g, buf) == One(h, g, FrontOf(buf).op, buf) && Consume(h, g, buf).used == |buf|
  {
    assert buf[..|buf|] == buf && buf[|buf|..] == [];
    var first := One(h, g, FrontOf(buf).op, buf);
    assert Consume(h, first.g, []) == Outcome(first.g, 0, [], []);
    ThenEnd(first, 0);
  }

  /** `reply` is made of the buffers in order, then `n` bytes of `ret`, lowest
      first. */
  ghost predicate IsReply(reply: Bytes, outs: seq<Bytes>, ret: U64, n: nat) {
    if outs == [] then |reply| == n && Spells(reply, ret)
    else |outs[0]| <= |reply| && reply[..|outs[0]|] == outs[0] && IsReply(reply[|outs[0]|..], outs[1..], ret, n)
  }

  lemma ReplyIs(spec: Spec, outs: seq<Bytes>, ret: U64)
    requires spec.ret > 0 || Out in spec.params
    ensures IsReply(ReplyOf(spec, outs, ret), outs, ret, spec.ret)
  {
    ReplyParts(outs, ret, spec.ret);
  }

  lemma {:induction false} ReplyParts(outs: seq<Bytes>, ret: U64, n: nat)
    ensures IsReply(Flatten(outs) + ToBytes(ret, n), outs, ret, n)
  {
    var reply := Flatten(outs) + ToBytes(ret, n);
    if outs == [] {
      assert reply == ToBytes(ret, n);
      ToBytesSpells(ret, n);
    } else {
      ReplyParts(outs[1..], ret, n);
      assert reply == outs[0] + (Flatten(outs[1..]) + ToBytes(ret, n));
      assert reply[|outs[0]|..] == Flatten(outs[1..]) + ToBytes(ret, n);
    }
  }

  lemma NextTurn<G>(h: Host<G>, acc: Outcome<G>, rest: Bytes, one: Outcome<G>)
    requires FrontOf(rest).Whole? && one == One(h, acc.g, FrontOf(rest).op, rest[..FrontOf(rest).len])
    ensures one.used == FrontOf(rest).len
    ensures Then(acc, Consume(h, acc.g, rest)) == Then(Then(acc, one), Consume(h, one.g, rest[one.used..]))
  {
    ConsumeWhole(h, acc.g, rest, one);
    ThenAssoc(acc, one, Consume(h, one.g, rest[one.used..]));
  }

  lemma LastTurn<G>(h: Host<G>, acc: Outcome<G>, rest: Bytes)
    requires !FrontOf(rest).Whole?
    ensures Then(acc, Consume(h, acc.g, rest)) ==
            if FrontOf(rest).Partial? then acc else acc.(used := acc.used + |rest|)
  {
    ThenEnd(acc, 0);
    ThenEnd(acc, |rest|);
  }

  lemma ThenEnd<G>(a: Outcome<G>, n: nat)
    ensures Then(a, Outcome(a.g, n, [], [])) == a.(used := a.used + n)
  {
    assert a.reply + [] == a.reply && a.calls + [] == a.calls;
  }

  lemma ThenNothing<G>(g: G, r: Outcome<G>)
    ensures Then(Outcome(g, 0, [], []), r) == r
  {
    assert [] + r.reply == r.reply && [] + r.calls == r.calls;
  }

  lemma ThenAssoc<G>(a: Outcome<G>, b: Outcome<G>, c: Outcome<G>)
    ensures Then(Then(a, b), c) == Then(a, Then(b, c))
  {
    assert a.reply + b.reply + c.reply == a.reply + (b.reply + c.reply);
    assert a.calls + b.calls + c.calls == a.calls + (b.calls + c.calls);
  }

  // ---- cutting the stream ----

  /** No malformed header among the complete packets of the buffer, except as its
      last 8 bytes. */
  predicate Safe(buf: Bytes)
    decreases |buf|
  {
    match FrontOf(buf)
    case Partial => true
    case Malformed => |buf| == 8
    case Whole(_, len) => Safe(buf[len..])
  }

  /** More bytes do not change a packet that is already there. */
  lemma FrontStays(a: Bytes, b: Bytes)
    ensures !FrontOf(a).Partial? ==> FrontOf(a + b) == FrontOf(a)
  {
    if |a| >= 8 {
      assert (a + b)[0..4] == a[0..4] && (a + b)[4..8] == a[4..8];
    }
  }

  lemma ConsumeWhole<G>(h: Host<G>, g: G, buf: Bytes, first: Outcome<G>)
    requires FrontOf(buf).Whole? && first == One(h, g, FrontOf(buf).op, buf[..FrontOf(buf).len])
    ensures first.used == FrontOf(buf).len
    ensures Consume(h, g, buf) == Then(first, Consume(h, first.g, buf[first.used..]))
    ensures Safe(buf) == Safe(buf[first.used..])
  {
  }

  /** Decoding a first part, and then what it left with the second part, is
      decoding both at once. */
  lemma {:induction false} ConsumeSplit<G>(h: Host<G>, g: G, a: Bytes, b: Bytes)
    requires Safe(a + b)
    ensures Split(h, g, a, b, Consume(h, g, a))
    decreases |a|
  {
    FrontStays(a, b);
    if FrontOf(a).Whole? {
      var len := FrontOf(a).len;
      var first := One(h, g, FrontOf(a).op, a[..len]);
      assert (a + b)[..len] == a[..len] && (a + b)[len..] == a[len..] + b;
      ConsumeWhole(h, g, a, first);
      ConsumeWhole(h, g, a + b, first);
      ConsumeSplit(h, first.g, a[len..], b);
      SplitMore(h, g, a, b, first, Consume(h, first.g, a[len..]));
    } else if FrontOf(a).Partial? {
      assert a[0..] == a;
      ThenNothing(g, Consume(h, g, a + b));
    } else {
      assert b == [] && a + b == a && a[|a|..] + b == [];
      ThenEnd(Consume(h, g, a), 0);
    }
  }

  ghost predicate Split<G>(h: Host<G>, g: G, a: Bytes, b: Bytes, r: Outcome<G>) {
    r.used <= |a| && Safe(a[r.used..] + b) && Consume(h, g, a + b) == Then(r, Consume(h, r.g, a[r.used..] + b))
  }

  lemma SplitMore<G>(h: Host<G>, g: G, a: Bytes, b: Bytes, first: Outcome<G>, rest: Outcome<G>)
    requires first.used <= |a| && Split(h, first.g, a[first.used..], b, rest)
    requires Consume(h, g, a + b) == Then(first, Consume(h, first.g, a[first.used..] + b))
    ensures Split(h, g, a, b, Then(first, rest))
  {
    assert a[first.used..][rest.used..] == a[first.used + rest.used..];
    ThenAssoc(first, rest, Consume(h, rest.g, a[first.used + rest.used..] + b));
  }

  // ---- what the guest's encoder sends ----

  datatype Sent = Sent(op: U32, spec: Spec, args: seq<Arg>)

  ghost predicate Encodable<G>(h: Host<G>, c: Sent)
    requires AllMatch(c.spec.params, c.args)
  {
    |Body(c.spec.params, c.args)| + 8 < B32 && h.table(c.op) == Some(c.spec)
  }

  function EncodeAll(sent: seq<Sent>): Bytes
    requires forall i :: 0 <= i < |sent| ==> AllMatch(sent[i].spec.params, sent[i].args)
  {
    if sent == [] then []
    else Packet(sent[0].op, Body(sent[0].spec.params, sent[0].args)) + EncodeAll(sent[1..])
  }

  function Arrived(sent: seq<Sent>): seq<Call>
    requires forall i :: 0 <= i < |sent| ==> |sent[i].spec.params| == |sent[i].args|
  {
    seq(|sent|, i requires 0 <= i < |sent| => Call(sent[i].op, CutAll(sent[i].spec.params, sent[i].args)))
  }

  /** A stream of encoded calls is well-formed, and the decoder performs exactly
      these calls, in order, and takes every byte. */
  lemma {:induction false} SentArrive<G>(h: Host<G>, g: G, sent: seq<Sent>)
    requires forall i :: 0 <= i < |sent| ==> AllMatch(sent[i].spec.params, sent[i].args) && Encodable(h, sent[i])
    ensures var s := EncodeAll(sent);
            Safe(s) && Consume(h, g, s).used == |s| && Consume(h, g, s).calls == Arrived(sent)
    decreases |sent|
  {
    if sent != [] {
      var c, s := sent[0], EncodeAll(sent);
      var p, rest := Packet(c.op, Body(c.spec.params, c.args)), EncodeAll(sent[1..]);
      var first := SentOne(h, g, c, p, rest);
      SentArrive(h, first.g, sent[1..]);
      ArrivedFirst(sent);
    }
  }

  lemma ArrivedFirst(sent: seq<Sent>)
    requires sent != [] && forall i :: 0 <= i < |sent| ==> |sent[i].spec.params| == |sent[i].args|
    ensures Arrived(sent) == [Call(sent[0].op, CutAll(sent[0].spec.params, sent[0].args))] + Arrived(sent[1..])
  {
  }

  lemma SentOne<G>(h: Host<G>, g: G, c: Sent, p: Bytes, rest: Bytes) returns (first: Outcome<G>)
    requires AllMatch(c.spec.params, c.args) && Encodable(h, c) && p == Packet(c.op, Body(c.spec.params, c.args))
    ensures first.used == |p| && first.calls == [Call(c.op, CutAll(c.spec.params, c.args))]
    ensures Consume(h, g, p + rest) == Then(first, Consume(h, first.g, rest)) && Safe(p + rest) == Safe(rest)
  {
    var s := p + rest;
    RoundTrip(c.op, c.spec, c.args, rest);
    assert s[..|p|] == p && s[|p|..] == rest;
    first := One(h, g, c.op, p);
    ConsumeWhole(h, g, s, first);
  }

  /** A malformed header takes with it what was written together with it: a call
      that follows it is performed or not, depending on the cuts. */
  lemma MalformedDependsOnCuts<G>(h: Host<G>, g: G, packet: Bytes)
    requires FrontOf(packet).Whole? && FrontOf(packet).len == |packet|
    requires One(h, g, FrontOf(packet).op, packet).calls != []
    ensures var bad: Bytes := [0, 0, 0, 0, 0, 0, 0, 0];
            && Consume(h, g, bad + packet).calls == []
            && Consume(h, g, bad).used == |bad| && Consume(h, g, packet).calls != []
  {
    var bad: Bytes := [0, 0, 0, 0, 0, 0, 0, 0];
    assert bad[4..8] == [0, 0, 0, 0];
    assert FromBytes([0, 0, 0, 0]) == 0 by {
      assert [0, 0, 0, 0][1..] == [0, 0, 0] && [0, 0, 0][1..] == [0, 0] && [0, 0][1..] == [0] && [0][1..] == [];
    }
    FrontStays(bad, packet);
    assert packet[..|packet|] == packet;
  }

  // ---- the pipe ----

  datatype Pipe = Connecting(name: Bytes) | Render(input: Bytes, flagsRead: bool) | Process(puid: Option<nat>) | Unknown

  /** Position of the first zero byte. */
  function FirstZero(b: Bytes): (r: Option<nat>)
    ensures r.Some? ==> r.value < |b| && b[r.value] == 0
  {
    if b == [] then None
    else if b[0] == 0 then Some(0)
    else
      match FirstZero(b[1..])
      case None => None
      case Some(i) => Some(i + 1)
  }

  lemma {:induction false} FirstZeroAppend(a: Bytes, b: Bytes)
    ensures FirstZero(a).Some? ==> FirstZero(a + b) == FirstZero(a)
    ensures FirstZero(a).None? ==>
              FirstZero(a + b) == match FirstZero(b) case None => None case Some(i) => Some(|a| + i)
  {
    if a == [] {
      assert a + b == b;
    } else {
      assert (a + b)[1..] == a[1..] + b;
      FirstZeroAppend(a[1..], b);
    }
  }

  /** What the guest wrote after the name and the client flags. */
  function CallBytes(stream: Bytes): Bytes {
    match FirstZero(stream)
    case Some(n) => if |stream| >= n + 5 then stream[n + 5..] else []
    case None => []
  }

  /** Where a render pipe is after the bytes that follow the service name. */
  datatype Rendered<G> = Rendered(pipe: Pipe, g: G, out: Bytes, calls: seq<Call>)

  function After<G>(h: Host<G>, g0: G, rest: Bytes): Rendered<G> {
    if |rest| < 4 then Rendered(Render(rest, false), g0, [], [])
    else
      var r := Consume(h, g0, rest[4..]);
      Rendered(Render(rest[4..][r.used..], true), r.g, r.reply, r.calls)
  }

  /** One more write: the flags if they are still missing, then the calls. */
  function Received<G>(h: Host<G>, s: Rendered<G>, data: Bytes): Rendered<G>
    requires s.pipe.Render?
  {
    var input := s.pipe.input + data;
    if !s.pipe.flagsRead && |input| < 4 then s.(pipe := Render(input, false))
    else
      var calls := if s.pipe.flagsRead then input else input[4..];
      var r := Consume(h, s.g, calls);
      Rendered(Render(calls[r.used..], true), r.g, s.out + r.reply, s.calls + r.calls)
  }

  /** A write extends the stream. */
  lemma ReceivedAfter<G>(h: Host<G>, g0: G, rest: Bytes, data: Bytes)
    requires |rest + data| >= 4 ==> Safe((rest + data)[4..])
    ensures Received(h, After(h, g0, rest), data) == After(h, g0, rest + data)
  {
    if |rest| < 4 {
      FlagsArrive(h, g0, rest, data);
    } else {
      CallsArrive(h, g0, rest, data);
    }
  }

  lemma FlagsArrive<G>(h: Host<G>, g0: G, rest: Bytes, data: Bytes)
    requires |rest| < 4
    ensures Received(h, After(h, g0, rest), data) == After(h, g0, rest + data)
  {
    if |rest + data| >= 4 {
      var r := Consume(h, g0, (rest + data)[4..]);
      assert [] + r.reply == r.reply && [] + r.calls == r.calls;
    }
  }

  lemma CallsArrive<G>(h: Host<G>, g0: G, rest: Bytes, data: Bytes)
    requires |rest| >= 4 && Safe((rest + data)[4..])
    ensures Received(h, After(h, g0, rest), data) == After(h, g0, rest + data)
  {
    var a := rest[4..];
    assert (rest + data)[4..] == a + data;
    ConsumeSplit(h, g0, a, data);
    var r := Consume(h, g0, a);
    var more := Consume(h, r.g, a[r.used..] + data);
    Leftover(a, data, r.used, more.used);
  }

  lemma Leftover(a: Bytes, data: Bytes, i: nat, j: nat)
    requires i <= |a| && j <= |a[i..] + data|
    ensures (a + data)[i + j..] == (a[i..] + data)[j..]
  {
    assert a + data == a[..i] + (a[i..] + data);
  }

  function Concat(chunks: seq<Bytes>): Bytes {
    if chunks == [] then [] else Concat(chunks[..|chunks| - 1]) + chunks[|chunks| - 1]
  }

  function ReceiveAll<G>(h: Host<G>, g0: G, chunks: seq<Bytes>): (s: Rendered<G>)
    ensures s.pipe.Render?
  {
    if chunks == [] then Rendered(Render([], false), g0, [], [])
    else Received(h, ReceiveAll(h, g0, chunks[..|chunks| - 1]), chunks[|chunks| - 1])
  }

  lemma {:induction false} SafePrefix(a: Bytes, b: Bytes)
    requires Safe(a + b)
    ensures Safe(a)
    decreases |a|
  {
    FrontStays(a, b);
    if FrontOf(a).Whole? {
      var len := FrontOf(a).len;
      assert (a + b)[len..] == a[len..] + b;
      SafePrefix(a[len..], b);
    }
  }

  /** Any way of cutting a well-formed stream gives the same calls, replies and
      pending bytes as the stream in one piece. */
  lemma {:induction false} CutsDoNotMatter<G>(h: Host<G>, g0: G, chunks: seq<Bytes>)
    requires |Concat(chunks)| >= 4 ==> Safe(Concat(chunks)[4..])
    ensures ReceiveAll(h, g0, chunks) == After(h, g0, Concat(chunks))
  {
    if chunks != [] {
      var n := |chunks| - 1;
      var before, last := Concat(chunks[..n]), chunks[n];
      if |before| >= 4 {
        assert (before + last)[4..] == before[4..] + last;
        SafePrefix(before[4..], last);
      }
      CutsDoNotMatter(h, g0, chunks[..n]);
      ReceivedAfter(h, g0, before, last);
    }
  }

  /** A stream that is not safe loses its last byte if it comes in one piece, and
      keeps it if it comes alone. */
  lemma {:induction false} UnsafeLosesLast<G>(h: Host<G>, g: G, s: Bytes)
    requires !Safe(s)
    ensures s != [] && Consume(h, g, s).used == |s| && Consume(h, g, s[..|s| - 1]).used == |s| - 1
    decreases |s|
  {
    var a, b := s[..|s| - 1], s[|s| - 1..];
    assert a + b == s;
    match FrontOf(s)
    case Malformed =>
      assert a[0..4] == s[0..4] && a[4..8] == s[4..8];
    case Whole(op, len) =>
      var first := One(h, g, op, s[..len]);
      ConsumeWhole(h, g, s, first);
      UnsafeLosesLast(h, first.g, s[len..]);
      assert a[0..4] == s[0..4] && a[4..8] == s[4..8] && a[..len] == s[..len];
      assert a[len..] == s[len..][..|s[len..]| - 1];
      ConsumeWhole(h, g, a, first);
  }

  lemma LastByteAlone<G>(h: Host<G>, g0: G, flags: Bytes, s: Bytes)
    requires |flags| == 4 && !Safe(s)
    ensures var chunks := [flags + s[..|s| - 1], s[|s| - 1..]];
            Concat(chunks) == flags + s && ReceiveAll(h, g0, chunks) != After(h, g0, flags + s)
  {
    UnsafeLosesLast(h, g0, s);
    var n := |s| - 1;
    var a, b := flags + s[..n], s[n..];
    var chunks := [a, b];
    var one := chunks[..1];
    assert one == [a] && one[..0] == [];
    assert Concat(one) == [] + a == a && Concat(chunks) == a + b == flags + s;
    assert a[4..] == s[..n] && (flags + s)[4..] == s;
    FlagsArrive(h, g0, [], a);
    assert ReceiveAll(h, g0, one) == After(h, g0, a);
    assert After(h, g0, a).pipe == Render([], true) && After(h, g0, flags + s).pipe == Render([], true);
    assert [] + b == b && FrontOf(b).Partial? && b[0..] == b;
    assert ReceiveAll(h, g0, chunks).pipe == Render(b, true);
  }

  /** The cuts do not matter exactly for the safe streams. */
  lemma CutsMatterUnlessSafe<G>(h: Host<G>, g0: G, flags: Bytes, s: Bytes)
    requires |flags| == 4
    ensures Safe(s) <==>
            forall chunks :: Concat(chunks) == flags + s ==> ReceiveAll(h, g0, chunks) == After(h, g0, flags + s)
  {
    assert (flags + s)[4..] == s;
    if Safe(s) {
      forall chunks | Concat(chunks) == flags + s
        ensures ReceiveAll(h, g0, chunks) == After(h, g0, flags + s)
      {
        CutsDoNotMatter(h, g0, chunks);
      }
    } else {
      LastByteAlone(h, g0, flags, s);
    }
  }

  /** One virtio context's pipe. */
  class VCtx<!G> {
    const host: Host<G>
    const g0: G
    var pipe: Pipe
    var g: G
    var out: Bytes
    var calls: seq<Call>
    /** Everything written so far. */
    ghost var stream: Bytes

    ghost function Now(): Rendered<G>
      reads this
    {
      Rendered(pipe, g, out, calls)
    }

    /** Pipe, renderer, replies and calls are what the stream as a whole gives, for
        a render pipe. */
    ghost predicate Follows()
      reads this
    {
      match FirstZero(stream)
      case None => Now() == Rendered(Connecting(stream), g0, [], [])
      case Some(n) => Serves(stream[..n], stream[n + 1..])
    }

    ghost predicate Serves(name: Bytes, rest: Bytes)
      reads this
    {
      if name == OPENGLES then Now() == After(host, g0, rest)
      else if name == PROCESS then pipe.Process?
      else Now() == Rendered(Unknown, g0, [], [])
    }

    constructor (host: Host<G>, g0: G)
      ensures Follows() && stream == [] && this.host == host && this.g0 == g0
    {
      this.host, this.g0 := host, g0;
      pipe, g, out, calls, stream := Connecting([]), g0, [], [], [];
    }

    /** Bytes of a write that reach the input of a render pipe. */
    function Arriving(data: Bytes): Bytes
      reads this`pipe
    {
      if pipe.Connecting? && FirstZero(data).Some? then data[FirstZero(data).value + 1..] else data
    }

    /** The write exceeds the input limit: what is pending is dropped. */
    predicate Overflows(data: Bytes)
      reads this`pipe
    {
      (if pipe.Render? then |pipe.input| else 0) + |Arriving(data)| > MAX_PIPE_INPUT
    }

    /** `pipe_write`. However the guest cuts a well-formed stream into writes below
        the limit, the calls and the reply bytes so far are those of the stream. */
    method Write(data: Bytes)
      requires Follows()
      modifies this
      ensures stream == old(stream) + data
      ensures Safe(CallBytes(stream)) && !old(Overflows(data)) ==> Follows()
      ensures old(pipe).Render? && old(Overflows(data)) ==>
                Now() == old(Now()).(pipe := Render([], old(pipe).flagsRead))
    {
      if pipe.Connecting? {
        WriteName(data);
      } else {
        WriteMore(data);
      }
    }

    /** The service is not known yet. */
    method WriteName(data: Bytes)
      requires Follows() && pipe.Connecting?
      modifies this
      ensures stream == old(stream) + data
      ensures Safe(CallBytes(stream)) && !old(Overflows(data)) ==> Follows()
    {
      NotNamed();
      var zero := FirstZero(data);
      ghost var before := stream;
      FirstZeroAppend(stream, data);
      stream := stream + data;
      if zero.None? {
        pipe := Connecting(pipe.name + data);
        return;
      }
      var name, rest := pipe.name + data[..zero.value], data[zero.value + 1..];
      Named(before, data);
      CallsOf(stream);
      Connect(name, rest);
      ghost var n := FirstZero(stream).value;
      assert stream[..n] == name && stream[n + 1..] == rest;
    }

    /** While the name is incomplete there was no zero byte. */
    lemma NotNamed()
      requires Follows() && pipe.Connecting?
      ensures FirstZero(stream).None? && Now() == Rendered(Connecting(stream), g0, [], [])
    {
    }

    /** The service is known. */
    method WriteMore(data: Bytes)
      requires Follows() && !pipe.Connecting?
      modifies this
      ensures stream == old(stream) + data
      ensures Safe(CallBytes(stream)) && !old(Overflows(data)) ==> Follows()
      ensures old(pipe).Render? && old(Overflows(data)) ==>
                Now() == old(Now()).(pipe := Render([], old(pipe).flagsRead))
    {
      ghost var n := FirstZero(stream).value;
      ghost var name, rest := stream[..n], stream[n + 1..];
      Extended(stream, data);
      CallsOf(stream + data);
      stream := stream + data;
      if pipe.Render? {
        if Safe(CallBytes(stream)) {
          ReceivedAfter(host, g0, rest, data);
        }
        Receive(data);
      } else if pipe.Process? {
        Identify(data);
      }
    }

    static lemma Named(before: Bytes, data: Bytes)
      requires FirstZero(before).None? && FirstZero(data).Some?
      ensures var n := FirstZero(before + data); var z := FirstZero(data).value;
              && n == Some(|before| + z)
              && (before + data)[..n.value] == before + data[..z]
              && (before + data)[n.value + 1..] == data[z + 1..]
    {
      FirstZeroAppend(before, data);
    }

    static lemma Extended(before: Bytes, data: Bytes)
      requires FirstZero(before).Some?
      ensures var n := FirstZero(before).value; var s := before + data;
              FirstZero(s) == Some(n) && s[..n] == before[..n] && s[n + 1..] == before[n + 1..] + data
    {
      FirstZeroAppend(before, data);
    }

    /** The calls start four bytes after the name. */
    static lemma CallsOf(s: Bytes)
      requires FirstZero(s).Some?
      ensures var rest := s[FirstZero(s).value + 1..]; |rest| >= 4 ==> CallBytes(s) == rest[4..]
    {
      var n := FirstZero(s).value;
      if |s| >= n + 5 {
        assert s[n + 1..][4..] == s[n + 5..];
      }
    }

    /** The service name is complete; `rest` came with it. */
    method Connect(name: Bytes, rest: Bytes)
      requires Now() == Rendered(pipe, g0, [], [])
      modifies this`pipe, this`g, this`out, this`calls
      ensures |rest| <= MAX_PIPE_INPUT && (|rest| >= 4 ==> Safe(rest[4..])) ==> Serves(name, rest)
    {
      if name == OPENGLES {
        pipe := Render([], false);
        if rest != [] {
          assert [] + rest == rest;
          if |rest| <= MAX_PIPE_INPUT && (|rest| >= 4 ==> Safe(rest[4..])) {
            ReceivedAfter(host, g0, [], rest);
          }
          Receive(rest);
        }
      } else if name == PROCESS {
        pipe := Process(None);
        if rest != [] {
          Identify(rest);
        }
      } else {
        pipe := Unknown;
      }
    }

    /** The render branch. */
    method Receive(data: Bytes)
      requires pipe.Render?
      modifies this`pipe, this`g, this`out, this`calls
      ensures Now() == if old(|pipe.input|) + |data| > MAX_PIPE_INPUT
                       then old(Now()).(pipe := Render([], old(pipe).flagsRead))
                       else Received(host, old(Now()), data)
    {
      if |pipe.input| + |data| > MAX_PIPE_INPUT {
        pipe := Render([], pipe.flagsRead);
        return;
      }
      var input := pipe.input + data;
      if !pipe.flagsRead {
        if |input| < 4 {
          pipe := Render(input, false);
          return;
        }
        input := input[4..];
      }
      var done := DecodeCalls(host, g, input);
      pipe := Render(input[done.used..], true);
      g, out, calls := done.g, out + done.reply, calls + done.calls;
    }

    /** The process pipe: four bytes of one write make it answer with an id; other
        bytes are dropped. */
    method Identify(data: Bytes)
      requires pipe.Process?
      modifies this`pipe, this`out
      ensures pipe.Process? && (old(pipe).puid.Some? ==> pipe == old(pipe) && out == old(out))
    {
      if pipe.puid.None? && |data| >= 4 {
        var id: nat := *;
        pipe := Process(Some(id));
        out := out + ToBytes(id, 8);
      }
    }
  }
}
