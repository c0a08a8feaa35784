/** The wire format of guest calls: encoding, decoding, and the decoder's loop
    over a buffer of calls. */
module Wire {
  import opened AddressSpace
  import opened Flags
  import opened LeBytes

  type Bytes = seq<Byte>

  /** Kind of a parameter on the wire: scalars by their bytes, pointers sent by
      the guest, pointers filled by the host. */
  datatype Param = S1 | S2 | S4 | S8 | In | Out

  /** An entry of the call tables. */
  datatype Spec = Spec(params: seq<Param>, ret: nat)

  datatype Arg = Scalar(v: U64) | InBytes(bytes: Bytes) | OutSize(n: U32)

  predicate IsScalar(p: Param) {
    p.S1? || p.S2? || p.S4? || p.S8?
  }

  function ScalarBytes(p: Param): nat {
    match p
    case S1 => 1
    case S2 => 2
    case S4 => 4
    case _ => 8
  }

  /** The argument has the kind of its parameter, and its size fits. */
  predicate Matches(p: Param, a: Arg) {
    match p
    case In => a.InBytes? && |a.bytes| < B32
    case Out => a.OutSize?
    case _ => a.Scalar?
  }

  ghost predicate AllMatch(params: seq<Param>, args: seq<Arg>) {
    |params| == |args| && forall i :: 0 <= i < |params| ==> Matches(params[i], args[i])
  }

  // ---- encoding ----

  function EncodeArg(p: Param, a: Arg): Bytes
    requires Matches(p, a)
  {
    match p
    case In => ToBytes(|a.bytes|, 4) + a.bytes
    case Out => ToBytes(a.n, 4)
    case _ => ToBytes(a.v, ScalarBytes(p))
  }

  function Body(params: seq<Param>, args: seq<Arg>): Bytes
    requires AllMatch(params, args)
  {
    if params == [] then [] else EncodeArg(params[0], args[0]) + Body(params[1..], args[1..])
  }

  function Packet(op: U32, body: Bytes): Bytes {
    ToBytes(op, 4) + ToBytes(|body| + 8, 4) + body
  }

  /** `call`: one call encoded like the guest's encoders do. */
  method EncodeCall(op: U32, spec: Spec, args: seq<Arg>) returns (p: Bytes)
    requires AllMatch(spec.params, args)
    ensures p == Packet(op, Body(spec.params, args))
  {
    var params := spec.params;
    var body: Bytes := [];
    var i := 0;
    assert params[0..] == params && args[0..] == args;
    assert [] + Body(params, args) == Body(params, args);
    while i < |params|
      invariant 0 <= i <= |params| && AllMatch(params[i..], args[i..])
      invariant body + Body(params[i..], args[i..]) == Body(params, args)
    {
      BodyStep(params, args, i, body);
      body := body + EncodeArg(params[i], args[i]);
      i := i + 1;
    }
    assert body + [] == body;
    p := Packet(op, body);
  }

  lemma MatchRest(params: seq<Param>, args: seq<Arg>)
    requires AllMatch(params, args) && params != []
    ensures Matches(params[0], args[0]) && AllMatch(params[1..], args[1..])
  {
    forall k | 0 <= k < |params[1..]|
      ensures Matches(params[1..][k], args[1..][k])
    {
      assert Matches(params[k + 1], args[k + 1]);
    }
  }

  lemma BodyStep(params: seq<Param>, args: seq<Arg>, i: nat, body: Bytes)
    requires i < |params| == |args| && AllMatch(params[i..], args[i..])
    ensures Matches(params[i], args[i]) && AllMatch(params[i + 1..], args[i + 1..])
    ensures body + Body(params[i..], args[i..]) == body + EncodeArg(params[i], args[i]) + Body(params[i + 1..], args[i + 1..])
  {
    var ps, as_ := params[i..], args[i..];
    assert ps[0] == params[i] && as_[0] == args[i] && ps[1..] == params[i + 1..] && as_[1..] == args[i + 1..];
    MatchRest(ps, as_);
    Regroup(body, EncodeArg(params[i], args[i]), Body(params[i + 1..], args[i + 1..]));
  }

  // ---- the layout ----

  /** `e` is the number `v`, lowest byte first. */
  ghost predicate Spells(e: Bytes, v: nat) {
    forall k: nat {:trigger e[k]} :: k < |e| ==> e[k] == v / Pow256(k) % 256
  }

  lemma ToBytesSpells(v: nat, n: nat)
    ensures Spells(ToBytes(v, n), v)
  {
    forall k: nat | k < n
      ensures ToBytes(v, n)[k] == v / Pow256(k) % 256
    {
      ByteAt(v, n, k);
    }
  }

  /** Scalars take 1, 2, 4 or 8 bytes, lowest first; a pointer of the guest sends the
      length of its data in 4 bytes and then the data, a pointer for the host the
      size in 4 bytes. */
  lemma ArgLayout(p: Param, a: Arg)
    requires Matches(p, a)
    ensures var e := EncodeArg(p, a);
            match p
            case In => |e| == 4 + |a.bytes| && Spells(e[..4], |a.bytes|) && e[4..] == a.bytes
            case Out => |e| == 4 && Spells(e, a.n)
            case S1 => |e| == 1 && Spells(e, a.v)
            case S2 => |e| == 2 && Spells(e, a.v)
            case S4 => |e| == 4 && Spells(e, a.v)
            case S8 => |e| == 8 && Spells(e, a.v)
  {
    match p
    case In =>
      ToBytesSpells(|a.bytes|, 4);
      assert EncodeArg(p, a)[..4] == ToBytes(|a.bytes|, 4);
    case Out => ToBytesSpells(a.n, 4);
    case _ => ToBytesSpells(a.v, ScalarBytes(p));
  }

  lemma MatchSplit(params: seq<Param>, args: seq<Arg>, i: nat)
    requires AllMatch(params, args) && i <= |params|
    ensures AllMatch(params[..i], args[..i]) && AllMatch(params[i..], args[i..])
  {
    forall k | 0 <= k < |params[i..]|
      ensures Matches(params[i..][k], args[i..][k])
    {
      assert Matches(params[i + k], args[i + k]);
    }
  }

  lemma {:induction false} BodySplit(params: seq<Param>, args: seq<Arg>, i: nat)
    requires AllMatch(params, args) && i <= |params|
    requires AllMatch(params[..i], args[..i]) && AllMatch(params[i..], args[i..])
    ensures Body(params, args) == Body(params[..i], args[..i]) + Body(params[i..], args[i..])
    decreases i
  {
    if i == 0 {
      assert params[0..] == params && args[0..] == args;
      assert [] + Body(params, args) == Body(params, args);
    } else {
      var ps, as_ := params[1..], args[1..];
      var p, a := params[..i], args[..i];
      MatchRest(params, args);
      MatchSplit(ps, as_, i - 1);
      BodySplit(ps, as_, i - 1);
      assert p[1..] == ps[..i - 1] && a[1..] == as_[..i - 1];
      assert ps[i - 1..] == params[i..] && as_[i - 1..] == args[i..];
      Regroup(EncodeArg(params[0], args[0]), Body(p[1..], a[1..]), Body(params[i..], args[i..]));
    }
  }

  /** The arguments follow each other. */
  lemma BodyLayout(params: seq<Param>, args: seq<Arg>, i: nat)
    requires AllMatch(params, args) && i < |params|
    ensures AllMatch(params[..i], args[..i])
    ensures var at, e := |Body(params[..i], args[..i])|, EncodeArg(params[i], args[i]);
            at + |e| <= |Body(params, args)| && Body(params, args)[at..at + |e|] == e
    ensures i == |params| - 1 ==>
              |Body(params, args)| == |Body(params[..i], args[..i])| + |EncodeArg(params[i], args[i])|
  {
    MatchSplit(params, args, i);
    BodySplit(params, args, i);
    var ps, as_ := params[i..], args[i..];
    assert ps[0] == params[i] && as_[0] == args[i];
    var head, e, rest := Body(params[..i], args[..i]), EncodeArg(params[i], args[i]), Body(ps[1..], as_[1..]);
    assert Body(ps, as_) == e + rest;
    assert Body(params, args) == head + (e + rest);
    assert i == |params| - 1 ==> ps[1..] == [] && rest == [];
    Middle(head, e, rest);
  }

  lemma Middle(head: Bytes, e: Bytes, rest: Bytes)
    ensures (head + (e + rest))[|head|..|head| + |e|] == e
  {
  }

  /** A packet starts with its opcode and its whole length, 4 bytes each, lowest
      first. */
  lemma PacketLayout(op: U32, body: Bytes)
    ensures var p := Packet(op, body);
            |p| == 8 + |body| && Spells(p[..4], op) && Spells(p[4..8], |p|) && p[8..] == body
  {
    ToBytesSpells(op, 4);
    ToBytesSpells(|body| + 8, 4);
    var p := Packet(op, body);
    assert p[..4] == ToBytes(op, 4) && p[4..8] == ToBytes(|body| + 8, 4);
  }

  // ---- decoding ----

  /** `peek`. */
  function Peek(buf: Bytes): Option<(U32, nat)> {
    if |buf| < 8 then None else Some((Word4(buf[0..4]), Word4(buf[4..8])))
  }

  function Word4(b: Bytes): (w: U32)
    requires |b| == 4
  {
    FromBytesBound(b);
    assert Pow256(4) == B32;
    FromBytes(b)
  }

  lemma Word4RoundTrip(v: U32)
    ensures Word4(ToBytes(v, 4)) == v
  {
    assert Pow256(4) == B32;
    ValueRoundTrip(v, 4);
  }

  /** A parameter at offset `o`, and the offset after it. */
  function DecodeArg(p: Param, packet: Bytes, o: nat): Option<(Arg, nat)> {
    if IsScalar(p) then
      if o + ScalarBytes(p) <= |packet| then Some((Scalar(ScalarAt(p, packet, o)), o + ScalarBytes(p))) else None
    else if o + 4 > |packet| then None
    else
      var n := Word4(packet[o..o + 4]);
      if p.Out? then Some((OutSize(n), o + 4))
      else if o + 4 + n <= |packet| then Some((InBytes(packet[o + 4..o + 4 + n]), o + 4 + n)) else None
  }

  function ScalarAt(p: Param, packet: Bytes, o: nat): (v: U64)
    requires o + ScalarBytes(p) <= |packet|
  {
    var b := packet[o..o + ScalarBytes(p)];
    FromBytesBound(b);
    assert Pow256(1) == 256 && Pow256(2) == 0x1_0000 && Pow256(4) == B32 && Pow256(8) == B64;
    FromBytes(b)
  }

  function DecodeFrom(params: seq<Param>, packet: Bytes, o: nat): Option<seq<Arg>> {
    if params == [] then Some([])
    else
      match DecodeArg(params[0], packet, o)
      case None => None
      case Some((a, o')) =>
        Prepend([a], DecodeFrom(params[1..], packet, o'))
  }

  function Prepend(args: seq<Arg>, rest: Option<seq<Arg>>): Option<seq<Arg>> {
    match rest
    case None => None
    case Some(r) => Some(args + r)
  }

  lemma PrependNone(rest: Option<seq<Arg>>)
    ensures Prepend([], rest) == rest
  {
    if rest.Some? {
      assert [] + rest.value == rest.value;
    }
  }

  lemma PrependMore(args: seq<Arg>, a: Arg, rest: Option<seq<Arg>>)
    ensures Prepend(args, Prepend([a], rest)) == Prepend(args + [a], rest)
  {
    if rest.Some? {
      assert args + ([a] + rest.value) == (args + [a]) + rest.value;
    }
  }

  /** `decode`. */
  method Decode(spec: Spec, packet: Bytes) returns (out: Option<seq<Arg>>)
    ensures out == DecodeFrom(spec.params, packet, 8)
  {
    var params := spec.params;
    var args: seq<Arg> := [];
    var o := 8;
    var i := 0;
    assert params[0..] == params;
    PrependNone(DecodeFrom(params, packet, 8));
    while i < |params|
      invariant 0 <= i <= |params|
      invariant DecodeFrom(params, packet, 8) == Prepend(args, DecodeFrom(params[i..], packet, o))
    {
      assert params[i..][1..] == params[i + 1..];
      match DecodeArg(params[i], packet, o) {
        case None => return None;
        case Some((a, o')) =>
          PrependMore(args, a, DecodeFrom(params[i + 1..], packet, o'));
          args, o := args + [a], o';
      }
      i := i + 1;
    }
    assert args + [] == args;
    out := Some(args);
  }

  /** What arrives of an argument: scalars are cut to their width. */
  function Cut(p: Param, a: Arg): Arg {
    if IsScalar(p) && a.Scalar? then Scalar(CutTo(a.v, p)) else a
  }

  function CutTo(v: U64, p: Param): U64 {
    match p
    case S1 => v % 0x100
    case S2 => v % 0x1_0000
    case S4 => v % B32
    case _ => v
  }

  function CutAll(params: seq<Param>, args: seq<Arg>): seq<Arg>
    requires |params| == |args|
  {
    seq(|args|, i requires 0 <= i < |args| => Cut(params[i], args[i]))
  }

  lemma DecodeOne(p: Param, a: Arg, before: Bytes, after: Bytes)
    requires Matches(p, a)
    ensures DecodeArg(p, before + EncodeArg(p, a) + after, |before|) == Some((Cut(p, a), |before| + |EncodeArg(p, a)|))
  {
    var e := EncodeArg(p, a);
    var packet := before + e + after;
    var o := |before|;
    assert packet[o..o + |e|] == e;
    if IsScalar(p) {
      ValueRoundTrip(a.v, ScalarBytes(p));
      assert Pow256(1) == 256 && Pow256(2) == 0x1_0000 && Pow256(4) == B32 && Pow256(8) == B64;
    } else if p.Out? {
      Word4RoundTrip(a.n);
    } else {
      Word4RoundTrip(|a.bytes|);
      assert packet[o..o + 4] == ToBytes(|a.bytes|, 4);
      assert packet[o + 4..o + 4 + |a.bytes|] == a.bytes;
    }
  }

  lemma {:induction false} DecodeBody(params: seq<Param>, args: seq<Arg>, before: Bytes, packet: Bytes)
    requires AllMatch(params, args) && packet == before + Body(params, args)
    ensures DecodeFrom(params, packet, |before|) == Some(CutAll(params, args))
    decreases |params|
  {
    if params != [] {
      MatchRest(params, args);
      var e, rest := EncodeArg(params[0], args[0]), Body(params[1..], args[1..]);
      assert Body(params, args) == e + rest;
      Regroup(before, e, rest);
      DecodeOne(params[0], args[0], before, rest);
      DecodeBody(params[1..], args[1..], before + e, packet);
      CutFirst(params, args);
      assert DecodeArg(params[0], packet, |before|) == Some((Cut(params[0], args[0]), |before + e|));
    } else {
      assert CutAll(params, args) == [];
    }
  }

  lemma Regroup(a: Bytes, b: Bytes, c: Bytes)
    ensures a + (b + c) == a + b + c
  {
  }

  lemma CutFirst(params: seq<Param>, args: seq<Arg>)
    requires |params| == |args| > 0
    ensures CutAll(params, args) == [Cut(params[0], args[0])] + CutAll(params[1..], args[1..])
  {
  }

  /** Decoding an encoded call gives its opcode, its length and its arguments, for
      every table entry. */
  lemma RoundTrip(op: U32, spec: Spec, args: seq<Arg>, after: Bytes)
    requires AllMatch(spec.params, args) && |Body(spec.params, args)| + 8 < B32
    ensures var p := Packet(op, Body(spec.params, args));
            && Peek(p + after) == Some((op, |p|))
            && DecodeFrom(spec.params, p, 8) == Some(CutAll(spec.params, args))
  {
    var body := Body(spec.params, args);
    var p := Packet(op, body);
    var head := ToBytes(op, 4) + ToBytes(|body| + 8, 4);
    Word4RoundTrip(op);
    Word4RoundTrip(|body| + 8);
    assert (p + after)[0..4] == ToBytes(op, 4) && (p + after)[4..8] == ToBytes(|body| + 8, 4);
    assert p == head + body;
    DecodeBody(spec.params, args, head, p);
  }
}
