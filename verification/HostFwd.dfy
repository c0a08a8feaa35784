/** Host port forwarding: for each client a reader thread, a writer thread and a
    bridge; one channel to the main loop, which alternates channel inputs with
    exchanges between the bridges and the guest's network stack. Every atomic
    step of every thread is an action; runs are any interleaving. */
module HostFwd {
  import opened AddressSpace

  const READ_AHEAD: int := 0x10_0000
  const WRITE_BEHIND: int := 0x10_0000
  /** Bytes of one socket read, and of one `Recv` from the stack. */
  const CHUNK: int := 0x1_0000

  type Bytes = seq<Byte>

  /** Messages to the main loop. */
  datatype Msg = Accepted | Data(key: nat, data: Bytes) | Eof(key: nat) | Broken(key: nat) {
    predicate For(k: nat) {
      !Accepted? && key == k
    }
  }

  datatype WriterMsg = WData(data: Bytes) | WShutdown | WAbort

  /** Where a reader thread is: about to check `read_ahead`, about to read, with
      bytes not yet counted, with bytes counted, about to report, finished. */
  datatype Reader = Checking | Reading | Got(data: Bytes) | Counted(data: Bytes) | AtEof | AtError | Finished

  datatype Writer = Waiting | Holding(data: Bytes) | Gone

  datatype Bridge = Bridge(pending: Bytes, eof: bool, broken: bool, shutToGuest: bool, shutToClient: bool)

  /** One client. `read`, `given`, `taken`, `passed` and `written` are histories: the
      bytes read from the socket, accepted by the guest, received from the guest,
      finished with by the writer, and those of them written to the socket;
      `failed` says that a write failed. */
  datatype Conn = Conn(
    reader: Reader, readAhead: int, read: Bytes,
    bridge: Option<Bridge>, given: Bytes, shutdowns: nat,
    writer: Writer, writeBehind: int, queue: seq<WriterMsg>, taken: Bytes, passed: Bytes, written: Bytes, failed: bool)

  /** Where the main loop is in `exchange`. */
  datatype Stage = First | Offer | Subtract(n: nat) | Shut | Receive | Count(data: Bytes) | Send(data: Bytes) | Last

  /** Between inputs, or serving the bridge at a position of the list. */
  datatype MainLoop = Idle | Serving(at: nat, stage: Stage)

  datatype Sys = Sys(conns: map<nat, Conn>, channel: seq<Msg>, order: seq<nat>, main: MainLoop, nextKey: nat)

  datatype CloseReason = Normal | GuestReset | RemoteReset | Refused | Timeout | Inactive

  /** What the stack says about a connection at the end of an exchange: how many
      bytes of the guest it still holds, and how it was closed. */
  datatype Info = Info(readable: nat, guestEof: bool, closed: Option<CloseReason>)

  datatype Action =
    | Listen
    /** The next message; a new client is connected or not, its stream cloned or
        not. */
    | Input(connected: bool, cloned: bool)
    | Check(key: nat)
    | Read(key: nat, data: Option<Bytes>)
    | Interrupted(key: nat)
    | ReadError(key: nat)
    | AddAhead(key: nat)
    | Tell(key: nat)
    | Service
    | Begin
    /** The stack accepts `n` of the `offered` bytes. */
    | Offered(offered: nat, n: nat)
    | SubAhead
    | ShutGuest
    | Recv(chunk: Bytes)
    | AddBehind
    | Pass
    | Finish(info: Option<Info>)
    | Take(key: nat)
    | Written(key: nat)
    /** `write_all` fails after `n` bytes; the rest of the message is dropped. */
    | WriteFailed(key: nat, n: nat)

  // ---- single steps ----

  function FreshConn(cloned: bool): Conn {
    Conn(if cloned then Checking else Finished, 0, [], Some(Bridge([], false, false, false, false)), [], 0,
         Waiting, 0, [], [], [], [], false)
  }

  function Put(s: Sys, k: nat, c: Conn): Sys {
    s.(conns := s.conns[k := c])
  }

  /** `input`, for the first message of the channel. */
  function InputStep(s: Sys, connected: bool, cloned: bool): Sys
    requires s.channel != []
  {
    var s' := s.(channel := s.channel[1..]);
    match s.channel[0]
    case Accepted =>
      if connected then
        Put(s', s.nextKey, FreshConn(cloned)).(order := s.order + [s.nextKey], nextKey := s.nextKey + 1)
      else s'
    case Data(k, data) =>
      if HasBridge(s, k) then
        var b := s.conns[k].bridge.value;
        Put(s', k, s.conns[k].(bridge := Some(b.(pending := b.pending + data))))
      else s'
    case Eof(k) =>
      if HasBridge(s, k) then Put(s', k, s.conns[k].(bridge := Some(s.conns[k].bridge.value.(eof := true)))) else s'
    case Broken(k) =>
      if HasBridge(s, k) then Put(s', k, s.conns[k].(bridge := Some(s.conns[k].bridge.value.(broken := true)))) else s'
  }

  predicate HasBridge(s: Sys, k: nat) {
    k in s.conns && s.conns[k].bridge.Some?
  }

  /** The main loop is at `stage`, with a live bridge. */
  predicate AtStage(s: Sys) {
    s.main.Serving? && s.main.at < |s.order| && HasBridge(s, s.order[s.main.at])
  }

  function Key(s: Sys): nat
    requires AtStage(s)
  {
    s.order[s.main.at]
  }

  function Cur(s: Sys): Conn
    requires AtStage(s)
  {
    s.conns[Key(s)]
  }

  function Goto(s: Sys, stage: Stage, c: Conn): Sys
    requires AtStage(s)
  {
    Put(s, Key(s), c).(main := Serving(s.main.at, stage))
  }

  function NextBridge(s: Sys, at: nat): MainLoop {
    if at < |s.order| then Serving(at, First) else Idle
  }

  /** `exchange` returned true: on to the next bridge. */
  function Keep(s: Sys, c: Conn): Sys
    requires AtStage(s)
  {
    Put(s, Key(s), c).(main := NextBridge(s, s.main.at + 1))
  }

  /** `exchange` returned false: the bridge is dropped. */
  function Drop(s: Sys, c: Conn): Sys
    requires AtStage(s)
  {
    var i := s.main.at;
    var s' := Put(s, Key(s), c.(bridge := None)).(order := s.order[..i] + s.order[i + 1..]);
    s'.(main := NextBridge(s', i))
  }

  function Queue(c: Conn, m: WriterMsg): Conn {
    c.(queue := c.queue + [m])
  }

  /** The client is told once that the guest sends no more. */
  function Told(c: Conn, guestEof: bool): Conn
    requires c.bridge.Some?
  {
    if guestEof && !c.bridge.value.shutToClient
    then Queue(c.(bridge := Some(c.bridge.value.(shutToClient := true))), WShutdown) else c
  }

  /** A connection that the guest refused looks like one that ended in order. */
  function LastWord(reason: CloseReason): WriterMsg {
    match reason
    case Normal => WShutdown
    case Refused => WShutdown
    case _ => WAbort
  }

  /** The end of `exchange`. */
  function FinishStep(s: Sys, info: Option<Info>): Sys
    requires AtStage(s)
  {
    var c := Cur(s);
    if info.None? then Drop(s, Queue(c, WAbort)) else
    var c1 := Told(c, info.value.guestEof);
    if info.value.closed.None? || info.value.readable > 0 then Keep(s, c1)
    else Drop(s, Queue(c1, LastWord(info.value.closed.value)))
  }

  ghost predicate Enabled(s: Sys, a: Action) {
    match a
    case Listen => true
    case Input(_, _) => s.main == Idle && s.channel != []
    case Check(k) => k in s.conns && s.conns[k].reader == Checking
    case Read(k, data) => k in s.conns && s.conns[k].reader == Reading && (data.Some? ==> 0 < |data.value| <= CHUNK)
    case Interrupted(k) => k in s.conns && s.conns[k].reader == Reading
    case ReadError(k) => k in s.conns && s.conns[k].reader == Reading
    case AddAhead(k) => k in s.conns && s.conns[k].reader.Got?
    case Tell(k) => k in s.conns && (s.conns[k].reader.Counted? || s.conns[k].reader.AtEof? || s.conns[k].reader.AtError?)
    case Service => s.main == Idle
    case Begin => AtStage(s) && s.main.stage == First
    case Offered(offered, n) => AtStage(s) && s.main.stage == Offer && n <= offered <= |Cur(s).bridge.value.pending|
    case SubAhead => AtStage(s) && s.main.stage.Subtract?
    case ShutGuest => AtStage(s) && s.main.stage == Shut
    case Recv(data) => AtStage(s) && s.main.stage == Receive && |data| <= CHUNK
    case AddBehind => AtStage(s) && s.main.stage.Count?
    case Pass => AtStage(s) && s.main.stage.Send?
    case Finish(_) => AtStage(s) && s.main.stage == Last
    case Take(k) => k in s.conns && s.conns[k].writer == Waiting && s.conns[k].queue != []
    case Written(k) => k in s.conns && s.conns[k].writer.Holding?
    case WriteFailed(k, n) => k in s.conns && s.conns[k].writer.Holding? && n <= |s.conns[k].writer.data|
  }

  function ReaderStep(s: Sys, k: nat, r: Reader): Sys
    requires k in s.conns
  {
    Put(s, k, s.conns[k].(reader := r))
  }

  /** The bytes are sent, or the end of the stream is reported. */
  function TellStep(s: Sys, k: nat): Sys
    requires k in s.conns
  {
    match s.conns[k].reader
    case Counted(d) => ReaderStep(s, k, Checking).(channel := s.channel + [Data(k, d)])
    case AtEof => ReaderStep(s, k, Finished).(channel := s.channel + [Eof(k)])
    case _ => ReaderStep(s, k, Finished).(channel := s.channel + [Broken(k)])
  }

  function WriterStep(c: Conn): Conn
    requires c.queue != []
  {
    var c' := c.(queue := c.queue[1..]);
    match c.queue[0]
    case WData(d) => c'.(writer := Holding(d))
    case WShutdown => c'
    case WAbort => c'.(writer := Gone)
  }

  /** The writer is done with its message, of which it wrote `n` bytes. */
  function Wrote(c: Conn, n: nat): Conn
    requires c.writer.Holding? && n <= |c.writer.data|
  {
    var d := c.writer.data;
    c.(writer := Waiting, writeBehind := c.writeBehind - |d|, passed := c.passed + d, written := c.written + d[..n])
  }

  ghost function Apply(s: Sys, a: Action): (s': Sys)
    requires Enabled(s, a)
  {
    match a
    case Listen => s.(channel := s.channel + [Accepted])
    case Input(connected, cloned) => InputStep(s, connected, cloned)
    case Check(k) =>
      if s.conns[k].readAhead < READ_AHEAD then ReaderStep(s, k, Reading)
      else if s.conns[k].bridge.None? then ReaderStep(s, k, Finished)
      else s
    case Read(k, data) =>
      if data.None? then ReaderStep(s, k, AtEof)
      else Put(s, k, s.conns[k].(reader := Got(data.value), read := s.conns[k].read + data.value))
    case Interrupted(k) => ReaderStep(s, k, Checking)
    case ReadError(k) => ReaderStep(s, k, AtError)
    case AddAhead(k) =>
      var c := s.conns[k];
      Put(s, k, c.(reader := Counted(c.reader.data), readAhead := c.readAhead + |c.reader.data|))
    case Tell(k) => TellStep(s, k)
    case Service => s.(main := NextBridge(s, 0))
    case Begin => if Cur(s).bridge.value.broken then Drop(s, Queue(Cur(s), WAbort)) else Goto(s, Offer, Cur(s))
    case Offered(offered, n) =>
      var c, p := Cur(s), Cur(s).bridge.value.pending;
      if offered == 0 then Goto(s, Shut, c)
      else Goto(s, Subtract(n), c.(given := c.given + p[..n], bridge := Some(c.bridge.value.(pending := p[n..]))))
    case SubAhead => Goto(s, Shut, Cur(s).(readAhead := Cur(s).readAhead - s.main.stage.n))
    case ShutGuest =>
      var c, b := Cur(s), Cur(s).bridge.value;
      if b.eof && b.pending == [] && !b.shutToGuest
      then Goto(s, Receive, c.(shutdowns := c.shutdowns + 1, bridge := Some(b.(shutToGuest := true))))
      else Goto(s, Receive, c)
    case Recv(data) =>
      if Cur(s).writeBehind < WRITE_BEHIND && data != []
      then Goto(s, Count(data), Cur(s).(taken := Cur(s).taken + data))
      else Goto(s, Last, Cur(s))
    case AddBehind =>
      var d := s.main.stage.data;
      Goto(s, Send(d), Cur(s).(writeBehind := Cur(s).writeBehind + |d|))
    case Pass => Goto(s, Receive, Queue(Cur(s), WData(s.main.stage.data)))
    case Finish(info) => FinishStep(s, info)
    case Take(k) => Put(s, k, WriterStep(s.conns[k]))
    case Written(k) => Put(s, k, Wrote(s.conns[k], |s.conns[k].writer.data|))
    case WriteFailed(k, n) => Put(s, k, Wrote(s.conns[k], n).(failed := true))
  }

  // ---- what every step keeps ----

  /** Bytes of client `k` in the channel, in order. */
  ghost function Queued(ch: seq<Msg>, k: nat): Bytes {
    if ch == [] then []
    else (if ch[0].Data? && ch[0].key == k then ch[0].data else []) + Queued(ch[1..], k)
  }

  lemma {:induction false} QueuedAppend(ch: seq<Msg>, m: Msg, k: nat)
    ensures Queued(ch + [m], k) == Queued(ch, k) + (if m.Data? && m.key == k then m.data else [])
  {
    if ch != [] {
      QueuedAppend(ch[1..], m, k);
      assert (ch + [m])[1..] == ch[1..] + [m];
    }
  }

  ghost function Behind(q: seq<WriterMsg>): Bytes {
    if q == [] then [] else (if q[0].WData? then q[0].data else []) + Behind(q[1..])
  }

  lemma {:induction false} BehindAppend(q: seq<WriterMsg>, m: WriterMsg)
    ensures Behind(q + [m]) == Behind(q) + (if m.WData? then m.data else [])
  {
    if q != [] {
      BehindAppend(q[1..], m);
      assert (q + [m])[1..] == q[1..] + [m];
    }
  }

  /** Bytes the reader has read and not sent yet. */
  ghost function InHand(r: Reader): Bytes {
    if r.Got? || r.Counted? then r.data else []
  }

  ghost function WriterHand(w: Writer): Bytes {
    if w.Holding? then w.data else []
  }

  /** What the main loop holds for client `k`: accepted bytes not yet subtracted,
      and bytes of the guest not yet passed to the writer. */
  ghost function StageFor(s: Sys, k: nat): Stage {
    if s.main.Serving? && s.main.at < |s.order| && s.order[s.main.at] == k then s.main.stage else First
  }

  ghost function Unsubtracted(st: Stage): nat {
    if st.Subtract? then st.n else 0
  }

  ghost function MainHand(st: Stage): Bytes {
    if st.Count? || st.Send? then st.data else []
  }

  /** `a` is `b` without some of its bytes. */
  ghost predicate Within(a: Bytes, b: Bytes)
    decreases |b|
  {
    if b == [] then a == []
    else
      var n := |b| - 1;
      Within(a, b[..n]) || (a != [] && a[|a| - 1] == b[n] && Within(a[..|a| - 1], b[..n]))
  }

  lemma {:induction false} WithinMore(a: Bytes, b: Bytes, d: Bytes, n: nat)
    requires Within(a, b) && n <= |d|
    ensures Within(a + d[..n], b + d)
    decreases |d|
  {
    if d == [] {
      assert a + d[..n] == a && b + d == b;
    } else {
      var m := |d| - 1;
      assert (b + d)[..|b + d| - 1] == b + d[..m];
      if n <= m {
        WithinMore(a, b, d[..m], n);
        assert d[..m][..n] == d[..n];
      } else {
        WithinMore(a, b, d[..m], m);
        assert d[..m][..m] == d[..m] && (a + d[..n])[..|a + d[..n]| - 1] == a + d[..m];
      }
    }
  }

  /** In order, without loss or repetition: what the guest accepted, then what the
      bridge, the channel and the reader hold, is what was read. */
  ghost predicate Forwarded(c: Conn, ch: seq<Msg>, k: nat) {
    && c.given <= c.read
    && (c.bridge.Some? ==> c.given + c.bridge.value.pending + Queued(ch, k) + InHand(c.reader) == c.read)
  }

  /** `read_ahead` counts the bytes in the channel and the bridge, and those on
      the way in or out. */
  ghost predicate AheadOk(c: Conn, ch: seq<Msg>, k: nat, st: Stage) {
    && (c.bridge.Some? ==> c.readAhead == |c.bridge.value.pending| + |Queued(ch, k)| + Unsubtracted(st)
                                          + (if c.reader.Counted? then |c.reader.data| else 0))
    && (c.reader.Reading? || c.reader.Got? ==> c.readAhead < READ_AHEAD)
    && (c.reader.Got? || c.reader.Counted? ==> |c.reader.data| <= CHUNK)
    && 0 <= c.readAhead < READ_AHEAD + CHUNK
  }

  /** `write_behind` counts the bytes queued for the writer and those on the way
      in or out; the socket gets the guest's bytes in order, and all of them while
      no write fails. */
  ghost predicate BehindOk(c: Conn, st: Stage) {
    && Within(c.written, c.passed) && (!c.failed ==> c.written == c.passed)
    && c.taken == c.passed + WriterHand(c.writer) + Behind(c.queue) + MainHand(st)
    && c.writeBehind == |WriterHand(c.writer)| + |Behind(c.queue)| + (if st.Send? then |st.data| else 0)
    && (st.Count? ==> c.writeBehind < WRITE_BEHIND)
    && |MainHand(st)| <= CHUNK
    && c.writeBehind < WRITE_BEHIND + CHUNK
  }

  /** The end of the stream is reported once, after all its bytes; the guest is
      told after it accepted them. */
  ghost predicate EndOk(c: Conn, ch: seq<Msg>, k: nat) {
    && (forall i :: 0 <= i < |ch| && ch[i].For(k) && !ch[i].Data? ==>
         c.reader == Finished && forall j :: i < j < |ch| ==> !ch[j].For(k))
    && (c.bridge.Some? && (c.bridge.value.eof || c.bridge.value.broken) ==>
         c.reader == Finished && forall j :: 0 <= j < |ch| ==> !ch[j].For(k))
    && (c.shutdowns > 0 ==> c.shutdowns == 1 && c.reader == Finished && c.given == c.read)
    && (c.bridge.Some? ==> c.bridge.value.shutToGuest == (c.shutdowns == 1))
  }

  ghost predicate Ok(c: Conn, ch: seq<Msg>, k: nat, st: Stage) {
    Forwarded(c, ch, k) && AheadOk(c, ch, k, st) && BehindOk(c, st) && EndOk(c, ch, k)
  }

  ghost predicate ConnOk(s: Sys, k: nat)
    requires k in s.conns
  {
    Ok(s.conns[k], s.channel, k, StageFor(s, k))
  }

  /** The list holds exactly the live bridges, each once. */
  ghost predicate OrderOk(s: Sys) {
    && (forall i :: 0 <= i < |s.order| ==> HasBridge(s, s.order[i]))
    && (forall i, j :: 0 <= i < j < |s.order| ==> s.order[i] != s.order[j])
    && (s.main.Serving? ==> s.main.at < |s.order|)
    && (forall k :: k in s.conns ==> k < s.nextKey)
    && (forall i :: 0 <= i < |s.channel| && !s.channel[i].Accepted? ==> s.channel[i].key in s.conns)
  }

  ghost predicate Inv(s: Sys) {
    OrderOk(s) && forall k {:trigger ConnOk(s, k)} :: k in s.conns ==> ConnOk(s, k)
  }

  // ---- preservation, thread by thread ----

  lemma {:induction false} NoneQueued(ch: seq<Msg>, k: nat)
    requires forall j :: 0 <= j < |ch| ==> !ch[j].For(k)
    ensures Queued(ch, k) == []
  {
    if ch != [] {
      NoneQueued(ch[1..], k);
    }
  }

  lemma ReaderMoves(c: Conn, ch: seq<Msg>, k: nat, st: Stage, r: Reader)
    requires Ok(c, ch, k, st) && (c.reader == Checking || c.reader == Reading)
    requires r == Checking || r == AtEof || r == AtError || r == Finished || (r == Reading && c.readAhead < READ_AHEAD)
    ensures Ok(c.(reader := r), ch, k, st)
  {
  }

  lemma ReaderGets(c: Conn, ch: seq<Msg>, k: nat, st: Stage, d: Bytes)
    requires Ok(c, ch, k, st) && c.reader == Reading && 0 < |d| <= CHUNK
    ensures Ok(c.(reader := Got(d), read := c.read + d), ch, k, st)
  {
    if c.bridge.Some? {
      assert c.given + c.bridge.value.pending + Queued(ch, k) + [] == c.read;
    }
  }

  lemma ReaderCounts(c: Conn, ch: seq<Msg>, k: nat, st: Stage)
    requires Ok(c, ch, k, st) && c.reader.Got?
    ensures Ok(c.(reader := Counted(c.reader.data), readAhead := c.readAhead + |c.reader.data|), ch, k, st)
  {
  }

  lemma ReaderSends(c: Conn, ch: seq<Msg>, k: nat, st: Stage)
    requires Ok(c, ch, k, st) && c.reader.Counted?
    ensures Ok(c.(reader := Checking), ch + [Data(k, c.reader.data)], k, st)
  {
    var d := c.reader.data;
    QueuedAppend(ch, Data(k, d), k);
    if c.bridge.Some? {
      var p := c.given + c.bridge.value.pending;
      assert p + (Queued(ch, k) + d) + [] == p + Queued(ch, k) + d;
    }
  }

  lemma ReaderEnds(c: Conn, ch: seq<Msg>, k: nat, st: Stage, m: Msg)
    requires Ok(c, ch, k, st) && (c.reader == AtEof || c.reader == AtError) && (m == Eof(k) || m == Broken(k))
    ensures Ok(c.(reader := Finished), ch + [m], k, st)
  {
    QueuedAppend(ch, m, k);
  }

  lemma OthersMessage(c: Conn, ch: seq<Msg>, k: nat, st: Stage, m: Msg)
    requires Ok(c, ch, k, st) && !m.For(k)
    ensures Ok(c, ch + [m], k, st)
  {
    QueuedAppend(ch, m, k);
  }

  /** A change on the way to the socket does not touch the way from it. */
  lemma WriterSide(c: Conn, c': Conn, ch: seq<Msg>, k: nat, st: Stage)
    requires Ok(c, ch, k, st) && BehindOk(c', st)
    requires c' == c.(writer := c'.writer, writeBehind := c'.writeBehind, queue := c'.queue, passed := c'.passed,
                      written := c'.written, failed := c'.failed)
    ensures Ok(c', ch, k, st)
  {
  }

  lemma WriterTakes(c: Conn, ch: seq<Msg>, k: nat, st: Stage)
    requires Ok(c, ch, k, st) && c.writer == Waiting && c.queue != []
    ensures Ok(WriterStep(c), ch, k, st)
  {
    if c.queue[0].WData? {
      TakesData(c, st);
    } else {
      TakesOther(c, st);
    }
    WriterSide(c, WriterStep(c), ch, k, st);
  }

  lemma TakesData(c: Conn, st: Stage)
    requires BehindOk(c, st) && c.writer == Waiting && c.queue != [] && c.queue[0].WData?
    ensures BehindOk(WriterStep(c), st)
  {
    var d, rest := c.queue[0].data, Behind(c.queue[1..]);
    assert Behind(c.queue) == d + rest;
    Regroup(c.passed, [], d, rest, MainHand(st));
    assert [] + d == d;
  }

  lemma TakesOther(c: Conn, st: Stage)
    requires BehindOk(c, st) && c.writer == Waiting && c.queue != [] && !c.queue[0].WData?
    ensures BehindOk(WriterStep(c), st)
  {
    var rest := Behind(c.queue[1..]);
    assert Behind(c.queue) == [] + rest == rest;
  }

  lemma WriterWrites(c: Conn, ch: seq<Msg>, k: nat, st: Stage, n: nat, failed: bool)
    requires Ok(c, ch, k, st) && c.writer.Holding? && n <= |c.writer.data|
    requires n == |c.writer.data| || failed
    ensures Ok(Wrote(c, n).(failed := c.failed || failed), ch, k, st)
  {
    var d := c.writer.data;
    var c' := Wrote(c, n).(failed := c.failed || failed);
    WithinMore(c.written, c.passed, d, n);
    assert n == |d| ==> d[..n] == d;
    assert c.passed + d + [] + Behind(c.queue) + MainHand(st) == c.passed + d + Behind(c.queue) + MainHand(st);
    WriterSide(c, c', ch, k, st);
  }

  // ---- lifting to the whole system ----

  /** A step of a thread of client `k` that only changes that client. */
  lemma OneConn(s: Sys, k: nat, c: Conn)
    requires Inv(s) && k in s.conns && (c.bridge.Some? <==> s.conns[k].bridge.Some?)
    requires Ok(c, s.channel, k, StageFor(s, k))
    ensures Inv(Put(s, k, c))
  {
    var s' := Put(s, k, c);
    forall j | j in s'.conns
      ensures ConnOk(s', j)
    {
      assert j != k ==> ConnOk(s, j);
    }
  }

  /** The same, with a message of that client. */
  lemma OneMessage(s: Sys, k: nat, c: Conn, m: Msg)
    requires Inv(s) && k in s.conns && (c.bridge.Some? <==> s.conns[k].bridge.Some?) && m.For(k)
    requires Ok(c, s.channel + [m], k, StageFor(s, k))
    ensures Inv(Put(s, k, c).(channel := s.channel + [m]))
  {
    var s' := Put(s, k, c).(channel := s.channel + [m]);
    forall j | j in s'.conns
      ensures ConnOk(s', j)
    {
      if j != k {
        assert ConnOk(s, j);
        OthersMessage(s.conns[j], s.channel, j, StageFor(s, j), m);
      }
    }
  }

  lemma ReaderAction(s: Sys, a: Action)
    requires Inv(s) && Enabled(s, a) && (a.Check? || a.Read? || a.Interrupted? || a.ReadError? || a.AddAhead?)
    ensures Inv(Apply(s, a))
  {
    var k := a.key;
    var c := s.conns[k];
    assert ConnOk(s, k);
    if a.Read? && a.data.Some? {
      ReaderGets(c, s.channel, k, StageFor(s, k), a.data.value);
    } else if a.AddAhead? {
      ReaderCounts(c, s.channel, k, StageFor(s, k));
    } else {
      ReaderMoves(c, s.channel, k, StageFor(s, k), Apply(s, a).conns[k].reader);
    }
    OneConn(s, k, Apply(s, a).conns[k]);
  }

  lemma TellAction(s: Sys, k: nat)
    requires Inv(s) && Enabled(s, Tell(k))
    ensures Inv(Apply(s, Tell(k)))
  {
    var c := s.conns[k];
    assert ConnOk(s, k);
    var s' := Apply(s, Tell(k));
    var m := s'.channel[|s.channel|];
    if c.reader.Counted? {
      ReaderSends(c, s.channel, k, StageFor(s, k));
    } else {
      ReaderEnds(c, s.channel, k, StageFor(s, k), m);
    }
    OneMessage(s, k, s'.conns[k], m);
  }

  lemma WriterAction(s: Sys, a: Action)
    requires Inv(s) && Enabled(s, a) && (a.Take? || a.Written? || a.WriteFailed?)
    ensures Inv(Apply(s, a))
  {
    var k := a.key;
    assert ConnOk(s, k);
    if a.Take? {
      WriterTakes(s.conns[k], s.channel, k, StageFor(s, k));
    } else if a.Written? {
      WriterWrites(s.conns[k], s.channel, k, StageFor(s, k), |s.conns[k].writer.data|, false);
    } else {
      WriterWrites(s.conns[k], s.channel, k, StageFor(s, k), a.n, true);
    }
    OneConn(s, k, Apply(s, a).conns[k]);
  }

  lemma ListenAction(s: Sys)
    requires Inv(s)
    ensures Inv(Apply(s, Listen))
  {
    var s' := Apply(s, Listen);
    forall j | j in s'.conns
      ensures ConnOk(s', j)
    {
      assert ConnOk(s, j);
      OthersMessage(s.conns[j], s.channel, j, StageFor(s, j), Accepted);
    }
  }

  // ---- inputs ----

  lemma PopOther(c: Conn, ch: seq<Msg>, k: nat, st: Stage)
    requires Ok(c, ch, k, st) && ch != [] && (!ch[0].For(k) || c.bridge.None?)
    ensures Ok(c, ch[1..], k, st)
  {
    EndTail(c, ch, k);
    if !ch[0].For(k) {
      QueuedTail(ch, k);
    }
    SameQueue(c, ch, ch[1..], k, st);
  }

  lemma QueuedTail(ch: seq<Msg>, k: nat)
    requires ch != [] && !ch[0].For(k)
    ensures Queued(ch[1..], k) == Queued(ch, k)
  {
    assert [] + Queued(ch[1..], k) == Queued(ch[1..], k);
  }

  lemma SameQueue(c: Conn, ch: seq<Msg>, ch': seq<Msg>, k: nat, st: Stage)
    requires Ok(c, ch, k, st) && EndOk(c, ch', k) && (c.bridge.Some? ==> Queued(ch', k) == Queued(ch, k))
    ensures Ok(c, ch', k, st)
  {
  }

  lemma PopData(c: Conn, ch: seq<Msg>, k: nat, st: Stage)
    requires Ok(c, ch, k, st) && ch != [] && ch[0].Data? && ch[0].key == k && c.bridge.Some?
    ensures var b := c.bridge.value;
            Ok(c.(bridge := Some(b.(pending := b.pending + ch[0].data))), ch[1..], k, st)
  {
    var p, d, rest := c.bridge.value.pending, ch[0].data, Queued(ch[1..], k);
    assert Queued(ch, k) == d + rest;
    Regroup(c.given, p, d, rest, InHand(c.reader));
    EndTail(c, ch, k);
    Pended(c, ch[1..], k, st, d);
  }

  lemma Regroup(a: Bytes, p: Bytes, d: Bytes, rest: Bytes, z: Bytes)
    ensures a + (p + d) + rest + z == a + p + (d + rest) + z
  {
  }

  lemma EndTail(c: Conn, ch: seq<Msg>, k: nat)
    requires EndOk(c, ch, k) && ch != []
    ensures EndOk(c, ch[1..], k)
  {
    assert forall i :: 0 <= i < |ch[1..]| ==> ch[1..][i] == ch[i + 1];
  }

  lemma Pended(c: Conn, ch: seq<Msg>, k: nat, st: Stage, d: Bytes)
    requires c.bridge.Some? && EndOk(c, ch, k) && BehindOk(c, st) && c.given <= c.read
    requires var p := c.bridge.value.pending + d;
             && c.given + p + Queued(ch, k) + InHand(c.reader) == c.read
             && AheadOk(c.(bridge := Some(c.bridge.value.(pending := p))), ch, k, st)
    ensures Ok(c.(bridge := Some(c.bridge.value.(pending := c.bridge.value.pending + d))), ch, k, st)
  {
  }

  lemma PopEnd(c: Conn, ch: seq<Msg>, k: nat, st: Stage, b: Bridge)
    requires Ok(c, ch, k, st) && ch != [] && ch[0].For(k) && !ch[0].Data? && c.bridge.Some?
    requires b == c.bridge.value.(eof := true) || b == c.bridge.value.(broken := true)
    ensures Ok(c.(bridge := Some(b)), ch[1..], k, st)
  {
    LastMessage(c, ch, k);
    assert Queued(ch, k) == [] + Queued(ch[1..], k);
    NoneQueued(ch[1..], k);
    Reported(c, ch[1..], k, st, b);
  }

  lemma LastMessage(c: Conn, ch: seq<Msg>, k: nat)
    requires EndOk(c, ch, k) && ch != [] && ch[0].For(k) && !ch[0].Data?
    ensures c.reader == Finished && forall j :: 0 <= j < |ch[1..]| ==> !ch[1..][j].For(k)
  {
  }

  lemma Reported(c: Conn, ch: seq<Msg>, k: nat, st: Stage, b: Bridge)
    requires c.bridge.Some? && Forwarded(c, ch, k) && AheadOk(c, ch, k, st) && BehindOk(c, st)
    requires c.reader == Finished && forall j :: 0 <= j < |ch| ==> !ch[j].For(k)
    requires c.shutdowns > 0 ==> c.shutdowns == 1 && c.given == c.read
    requires c.bridge.value.shutToGuest == (c.shutdowns == 1)
    requires b == c.bridge.value.(eof := true) || b == c.bridge.value.(broken := true)
    ensures Ok(c.(bridge := Some(b)), ch, k, st)
  {
  }

  lemma NewClient(s: Sys, cloned: bool)
    requires Inv(s)
    ensures Ok(FreshConn(cloned), s.channel, s.nextKey, First)
  {
    NoneQueued(s.channel, s.nextKey);
  }

  /** One client takes the first message, the others do not mind. */
  lemma Popped(s: Sys, k: nat, c: Conn)
    requires Inv(s) && s.channel != [] && k in s.conns && (c.bridge.Some? <==> s.conns[k].bridge.Some?)
    requires forall j :: s.channel[0].For(j) ==> j == k
    requires Ok(c, s.channel[1..], k, StageFor(s, k))
    ensures Inv(Put(s.(channel := s.channel[1..]), k, c))
  {
    var s' := Put(s.(channel := s.channel[1..]), k, c);
    forall j | j in s'.conns
      ensures ConnOk(s', j)
    {
      if j != k {
        assert ConnOk(s, j);
        PopOther(s.conns[j], s.channel, j, StageFor(s, j));
      }
    }
  }

  lemma Skipped(s: Sys)
    requires Inv(s) && s.channel != []
    requires forall j :: j in s.conns && s.channel[0].For(j) ==> s.conns[j].bridge.None?
    ensures Inv(s.(channel := s.channel[1..]))
  {
    var s' := s.(channel := s.channel[1..]);
    forall j | j in s'.conns
      ensures ConnOk(s', j)
    {
      assert ConnOk(s, j);
      PopOther(s.conns[j], s.channel, j, StageFor(s, j));
    }
  }

  lemma Connected(s: Sys, cloned: bool)
    requires Inv(s) && s.main == Idle
    ensures Inv(Put(s, s.nextKey, FreshConn(cloned)).(order := s.order + [s.nextKey], nextKey := s.nextKey + 1))
  {
    var s' := Put(s, s.nextKey, FreshConn(cloned)).(order := s.order + [s.nextKey], nextKey := s.nextKey + 1);
    NewClient(s, cloned);
    assert OrderOk(s');
    forall j | j in s'.conns
      ensures ConnOk(s', j)
    {
      if j in s.conns {
        assert ConnOk(s, j) && s'.conns[j] == s.conns[j];
      }
    }
  }

  lemma InputAction(s: Sys, connected: bool, cloned: bool)
    requires Inv(s) && Enabled(s, Input(connected, cloned))
    ensures Inv(Apply(s, Input(connected, cloned)))
  {
    var m := s.channel[0];
    if m.Accepted? {
      Skipped(s);
      if connected {
        Connected(s.(channel := s.channel[1..]), cloned);
      }
    } else if !HasBridge(s, m.key) {
      Skipped(s);
    } else {
      MessageArrives(s, connected, cloned);
    }
  }

  lemma MessageArrives(s: Sys, connected: bool, cloned: bool)
    requires Inv(s) && s.channel != [] && !s.channel[0].Accepted? && HasBridge(s, s.channel[0].key)
    ensures Inv(InputStep(s, connected, cloned))
  {
    var m, k := s.channel[0], s.channel[0].key;
    var c, c' := s.conns[k], InputStep(s, connected, cloned).conns[k];
    assert ConnOk(s, k);
    if m.Data? {
      PopData(c, s.channel, k, StageFor(s, k));
    } else {
      PopEnd(c, s.channel, k, StageFor(s, k), c'.bridge.value);
    }
    Popped(s, k, c');
  }

  // ---- the exchange ----

  lemma GotoOk(s: Sys, stage: Stage, c: Conn)
    requires Inv(s) && AtStage(s) && c.bridge.Some? && Ok(c, s.channel, Key(s), stage)
    ensures Inv(Goto(s, stage, c))
  {
    var s' := Goto(s, stage, c);
    forall j | j in s'.conns
      ensures ConnOk(s', j)
    {
      assert j != Key(s) ==> ConnOk(s, j);
    }
  }

  lemma KeepOrder(s: Sys, c: Conn)
    requires OrderOk(s) && AtStage(s) && c.bridge.Some?
    ensures OrderOk(Keep(s, c))
  {
  }

  lemma KeepOk(s: Sys, c: Conn)
    requires Inv(s) && AtStage(s) && c.bridge.Some? && Ok(c, s.channel, Key(s), First)
    ensures Inv(Keep(s, c))
  {
    var s' := Keep(s, c);
    KeepOrder(s, c);
    forall j | j in s'.conns
      ensures ConnOk(s', j)
    {
      assert j != Key(s) ==> ConnOk(s, j);
    }
  }

  lemma DropOrder(s: Sys, c: Conn)
    requires OrderOk(s) && AtStage(s) && c.bridge.Some?
    ensures OrderOk(Drop(s, c)) && Key(s) !in Drop(s, c).order
  {
    var s' := Drop(s, c);
    var i := s.main.at;
    assert forall n :: 0 <= n < |s'.order| ==> s'.order[n] == if n < i then s.order[n] else s.order[n + 1];
  }

  lemma DropOk(s: Sys, c: Conn)
    requires Inv(s) && AtStage(s) && c.bridge.Some? && Ok(c, s.channel, Key(s), First)
    ensures Inv(Drop(s, c))
  {
    var s' := Drop(s, c);
    DropOrder(s, c);
    forall j | j in s'.conns
      ensures ConnOk(s', j)
    {
      assert j != Key(s) ==> ConnOk(s, j);
    }
  }

  lemma QueueOk(c: Conn, ch: seq<Msg>, k: nat, m: WriterMsg)
    requires Ok(c, ch, k, First) && !m.WData?
    ensures Ok(Queue(c, m), ch, k, First)
  {
    BehindAppend(c.queue, m);
  }

  /** Stages at which the main loop holds nothing. */
  lemma Empty(c: Conn, ch: seq<Msg>, k: nat, st: Stage, st': Stage)
    requires Ok(c, ch, k, st) && Unsubtracted(st) == 0 && MainHand(st) == [] && !st.Count? && !st.Send?
    requires Unsubtracted(st') == 0 && MainHand(st') == [] && !st'.Count? && !st'.Send?
    ensures Ok(c, ch, k, st')
  {
  }

  lemma GuestAccepts(c: Conn, ch: seq<Msg>, k: nat, n: nat)
    requires Ok(c, ch, k, Offer) && c.bridge.Some? && n <= |c.bridge.value.pending|
    ensures var p := c.bridge.value.pending;
            Ok(c.(given := c.given + p[..n], bridge := Some(c.bridge.value.(pending := p[n..]))), ch, k, Subtract(n))
  {
    var p := c.bridge.value.pending;
    var rest := Queued(ch, k) + InHand(c.reader);
    assert c.given + p[..n] + p[n..] + Queued(ch, k) + InHand(c.reader) == c.read by {
      assert p[..n] + p[n..] == p;
      assert c.given + p[..n] + p[n..] == c.given + p;
    }
    assert c.shutdowns > 0 ==> |c.given| + |p| <= |c.read| && p[..n] == [];
  }

  lemma Subtracted(c: Conn, ch: seq<Msg>, k: nat, n: nat)
    requires Ok(c, ch, k, Subtract(n)) && c.bridge.Some?
    ensures Ok(c.(readAhead := c.readAhead - n), ch, k, Shut)
  {
  }

  /** The guest is told only when it has everything. */
  lemma ShutOk(c: Conn, ch: seq<Msg>, k: nat)
    requires Ok(c, ch, k, Shut) && c.bridge.Some?
    requires c.bridge.value.eof && c.bridge.value.pending == [] && !c.bridge.value.shutToGuest
    ensures c.given == c.read
    ensures Ok(c.(shutdowns := c.shutdowns + 1, bridge := Some(c.bridge.value.(shutToGuest := true))), ch, k, Receive)
  {
    NoneQueued(ch, k);
    assert c.given + [] + [] + [] == c.given;
  }

  lemma Received(c: Conn, ch: seq<Msg>, k: nat, d: Bytes)
    requires Ok(c, ch, k, Receive) && c.writeBehind < WRITE_BEHIND && |d| <= CHUNK
    ensures Ok(c.(taken := c.taken + d), ch, k, Count(d))
  {
    assert c.passed + WriterHand(c.writer) + Behind(c.queue) + [] == c.taken;
  }

  lemma Added(c: Conn, ch: seq<Msg>, k: nat, d: Bytes)
    requires Ok(c, ch, k, Count(d))
    ensures Ok(c.(writeBehind := c.writeBehind + |d|), ch, k, Send(d))
  {
  }

  lemma Passed(c: Conn, ch: seq<Msg>, k: nat, d: Bytes)
    requires Ok(c, ch, k, Send(d))
    ensures Ok(Queue(c, WData(d)), ch, k, Receive)
  {
    BehindAppend(c.queue, WData(d));
    var p := c.passed + WriterHand(c.writer);
    assert p + (Behind(c.queue) + d) + [] == p + Behind(c.queue) + d;
  }

  lemma BeginAction(s: Sys)
    requires Inv(s) && Enabled(s, Begin)
    ensures Inv(Apply(s, Begin))
  {
    var c, k := Cur(s), Key(s);
    assert ConnOk(s, k);
    if c.bridge.value.broken {
      QueueOk(c, s.channel, k, WAbort);
      DropOk(s, Queue(c, WAbort));
    } else {
      Empty(c, s.channel, k, First, Offer);
      GotoOk(s, Offer, c);
    }
  }

  lemma OfferAction(s: Sys, offered: nat, n: nat)
    requires Inv(s) && Enabled(s, Offered(offered, n))
    ensures Inv(Apply(s, Offered(offered, n)))
  {
    var c, k, s' := Cur(s), Key(s), Apply(s, Offered(offered, n));
    assert ConnOk(s, k);
    if offered > 0 {
      GuestAccepts(c, s.channel, k, n);
    } else {
      Empty(c, s.channel, k, Offer, Shut);
    }
    GotoOk(s, s'.main.stage, s'.conns[k]);
  }

  lemma SubAheadAction(s: Sys)
    requires Inv(s) && Enabled(s, SubAhead)
    ensures Inv(Apply(s, SubAhead))
  {
    var c, k, s' := Cur(s), Key(s), Apply(s, SubAhead);
    assert ConnOk(s, k);
    Subtracted(c, s.channel, k, s.main.stage.n);
    GotoOk(s, Shut, s'.conns[k]);
  }

  lemma ShutGuestAction(s: Sys)
    requires Inv(s) && Enabled(s, ShutGuest)
    ensures Inv(Apply(s, ShutGuest))
  {
    var c, k, s' := Cur(s), Key(s), Apply(s, ShutGuest);
    assert ConnOk(s, k);
    if c.bridge.value.eof && c.bridge.value.pending == [] && !c.bridge.value.shutToGuest {
      ShutOk(c, s.channel, k);
    } else {
      Empty(c, s.channel, k, Shut, Receive);
    }
    GotoOk(s, Receive, s'.conns[k]);
  }

  lemma ClientAction(s: Sys, a: Action)
    requires Inv(s) && Enabled(s, a) && (a.Recv? || a.AddBehind? || a.Pass?)
    ensures Inv(Apply(s, a))
  {
    var c, k, s' := Cur(s), Key(s), Apply(s, a);
    assert ConnOk(s, k);
    if a.AddBehind? {
      Added(c, s.channel, k, s.main.stage.data);
    } else if a.Pass? {
      Passed(c, s.channel, k, s.main.stage.data);
    } else if s'.main.stage == Last {
      Empty(c, s.channel, k, Receive, Last);
    } else {
      Received(c, s.channel, k, a.chunk);
    }
    GotoOk(s, s'.main.stage, s'.conns[k]);
  }

  lemma FinishAction(s: Sys, info: Option<Info>)
    requires Inv(s) && Enabled(s, Finish(info))
    ensures Inv(Apply(s, Finish(info)))
  {
    var c, k := Cur(s), Key(s);
    assert ConnOk(s, k);
    Empty(c, s.channel, k, Last, First);
    if info.None? {
      QueueOk(c, s.channel, k, WAbort);
      DropOk(s, Queue(c, WAbort));
    } else {
      var c1 := Told(c, info.value.guestEof);
      ToldOk(c, s.channel, k, info.value.guestEof);
      if info.value.closed.None? || info.value.readable > 0 {
        KeepOk(s, c1);
      } else {
        var m := LastWord(info.value.closed.value);
        QueueOk(c1, s.channel, k, m);
        DropOk(s, Queue(c1, m));
      }
    }
  }

  lemma ToldOk(c: Conn, ch: seq<Msg>, k: nat, guestEof: bool)
    requires Ok(c, ch, k, First) && c.bridge.Some?
    ensures Told(c, guestEof).bridge.Some? && Ok(Told(c, guestEof), ch, k, First)
  {
    var told := c.(bridge := Some(c.bridge.value.(shutToClient := true)));
    assert Ok(told, ch, k, First);
    QueueOk(told, ch, k, WShutdown);
  }

  lemma ServiceAction(s: Sys)
    requires Inv(s) && Enabled(s, Service)
    ensures Inv(Apply(s, Service))
  {
    var s' := Apply(s, Service);
    forall j | j in s'.conns
      ensures ConnOk(s', j)
    {
      assert ConnOk(s, j);
    }
  }

  /** Every step of every thread keeps the invariant. */
  lemma StepKeeps(s: Sys, a: Action)
    requires Inv(s) && Enabled(s, a)
    ensures Inv(Apply(s, a))
  {
    match a
    case Listen => ListenAction(s);
    case Input(connected, cloned) => InputAction(s, connected, cloned);
    case Check(_) => ReaderAction(s, a);
    case Read(_, _) => ReaderAction(s, a);
    case Interrupted(_) => ReaderAction(s, a);
    case ReadError(_) => ReaderAction(s, a);
    case AddAhead(_) => ReaderAction(s, a);
    case Tell(k) => TellAction(s, k);
    case Service => ServiceAction(s);
    case Begin => BeginAction(s);
    case Offered(offered, n) => OfferAction(s, offered, n);
    case SubAhead => SubAheadAction(s);
    case ShutGuest => ShutGuestAction(s);
    case Recv(_) => ClientAction(s, a);
    case AddBehind => ClientAction(s, a);
    case Pass => ClientAction(s, a);
    case Finish(info) => FinishAction(s, info);
    case Take(_) => WriterAction(s, a);
    case Written(_) => WriterAction(s, a);
    case WriteFailed(_, _) => WriterAction(s, a);
  }

  // ---- whole runs ----

  ghost function Begun(): Sys {
    Sys(map[], [], [], Idle, 1)
  }

  ghost predicate IsRun(states: seq<Sys>, actions: seq<Action>) {
    && |states| == |actions| + 1 && states[0] == Begun()
    && forall i :: 0 <= i < |actions| ==> StepAt(states, actions, i)
  }

  ghost predicate StepAt(states: seq<Sys>, actions: seq<Action>, i: nat)
    requires i < |actions| < |states|
  {
    Enabled(states[i], actions[i]) && states[i + 1] == Apply(states[i], actions[i])
  }

  lemma {:induction false} RunKeeps(states: seq<Sys>, actions: seq<Action>, i: nat)
    requires IsRun(states, actions) && i <= |actions|
    ensures Inv(states[i])
  {
    if i > 0 {
      RunKeeps(states, actions, i - 1);
      assert StepAt(states, actions, i - 1);
      StepKeeps(states[i - 1], actions[i - 1]);
    }
  }

  /** In every run: the guest gets an in-order, loss-free and duplicate-free
      prefix of what was read from the socket, and what is missing is in the
      bridge, the channel and the reader. The socket gets bytes of the guest in
      order, and a prefix of them if no write failed. */
  lemma InOrder(states: seq<Sys>, actions: seq<Action>, i: nat, k: nat)
    requires IsRun(states, actions) && i <= |actions| && k in states[i].conns
    ensures var c := states[i].conns[k];
            && c.given <= c.read && Within(c.written, c.taken) && (!c.failed ==> c.written <= c.taken)
            && (c.bridge.Some? ==>
                 c.given + c.bridge.value.pending + Queued(states[i].channel, k) + InHand(c.reader) == c.read)
  {
    RunKeeps(states, actions, i);
    assert ConnOk(states[i], k);
    Delivered(states[i].conns[k], StageFor(states[i], k));
  }

  lemma Delivered(c: Conn, st: Stage)
    requires BehindOk(c, st)
    ensures Within(c.written, c.taken) && (!c.failed ==> c.written <= c.taken)
  {
    WithinPrefix(c.written, c.passed, WriterHand(c.writer), Behind(c.queue), MainHand(st));
  }

  lemma WithinPrefix(w: Bytes, p: Bytes, x: Bytes, y: Bytes, z: Bytes)
    requires Within(w, p)
    ensures Within(w, p + x + y + z) && p <= p + x + y + z
  {
    var rest := x + y + z;
    WithinMore(w, p, rest, 0);
    assert w + rest[..0] == w && p + rest == p + x + y + z;
  }

  /** The guest is told of the end at most once, and only after it accepted
      every byte that was or will be read. */
  lemma {:induction false} ShutdownOnceAtEnd(states: seq<Sys>, actions: seq<Action>, i: nat, j: nat, k: nat)
    requires IsRun(states, actions) && i <= j <= |actions| && k in states[i].conns && states[i].conns[k].shutdowns > 0
    ensures k in states[j].conns && states[j].conns[k].shutdowns == 1
    ensures states[i].conns[k].given == states[i].conns[k].read == states[j].conns[k].read == states[j].conns[k].given
    decreases j
  {
    RunKeeps(states, actions, j);
    if i < j {
      ShutdownOnceAtEnd(states, actions, i, j - 1, k);
      RunKeeps(states, actions, j - 1);
      AtEnd(states[j - 1], k);
      assert StepAt(states, actions, j - 1);
      FinishedStays(states[j - 1], actions[j - 1], k);
    }
    AtEnd(states[j], k);
  }

  lemma AtEnd(s: Sys, k: nat)
    requires Inv(s) && k in s.conns && s.conns[k].shutdowns > 0
    ensures s.conns[k].shutdowns == 1 && s.conns[k].reader == Finished && s.conns[k].given == s.conns[k].read
    ensures k < s.nextKey
  {
    assert ConnOk(s, k);
  }

  /** A reader that finished reads no more, and no shutdown is undone. */
  ghost predicate Over(s: Sys, s': Sys, k: nat)
    requires k in s.conns
  {
    && k in s'.conns && s'.conns[k].reader == Finished
    && s'.conns[k].read == s.conns[k].read && s'.conns[k].shutdowns >= s.conns[k].shutdowns
  }

  lemma FinishedStays(s: Sys, a: Action, k: nat)
    requires k < s.nextKey && Enabled(s, a) && k in s.conns && s.conns[k].reader == Finished
    ensures Over(s, Apply(s, a), k)
  {
    if a.Finish? {
      FinishedFinish(s, a.info, k);
    } else if a.Input? {
      FinishedInput(s, a.connected, a.cloned, k);
    } else if AtStage(s) && (a.Begin? || a.Offered? || a.SubAhead? || a.ShutGuest? || a.Recv? || a.AddBehind? || a.Pass?) {
      FinishedExchange(s, a, k);
    }
  }

  lemma FinishedExchange(s: Sys, a: Action, k: nat)
    requires Enabled(s, a) && k in s.conns && s.conns[k].reader == Finished
    requires a.Begin? || a.Offered? || a.SubAhead? || a.ShutGuest? || a.Recv? || a.AddBehind? || a.Pass?
    ensures Over(s, Apply(s, a), k)
  {
  }

  lemma FinishedFinish(s: Sys, info: Option<Info>, k: nat)
    requires AtStage(s) && k in s.conns && s.conns[k].reader == Finished
    ensures Over(s, FinishStep(s, info), k)
  {
  }

  lemma FinishedInput(s: Sys, connected: bool, cloned: bool, k: nat)
    requires k < s.nextKey && s.channel != [] && k in s.conns && s.conns[k].reader == Finished
    ensures Over(s, InputStep(s, connected, cloned), k)
  {
  }

  /** The counters are exact and bounded in every run, so neither wraps. */
  lemma CountersBounded(states: seq<Sys>, actions: seq<Action>, i: nat, k: nat)
    requires IsRun(states, actions) && i <= |actions| && k in states[i].conns
    ensures var s := states[i]; var c, st := s.conns[k], StageFor(s, k);
            && 0 <= c.readAhead < READ_AHEAD + CHUNK && 0 <= c.writeBehind < WRITE_BEHIND + CHUNK
            && (c.bridge.Some? && st == First && !c.reader.Counted? ==>
                 c.readAhead == |Queued(s.channel, k)| + |c.bridge.value.pending|)
            && (!st.Send? ==> c.writeBehind == |WriterHand(c.writer)| + |Behind(c.queue)|)
  {
    RunKeeps(states, actions, i);
    assert ConnOk(states[i], k);
  }

  // ---- what is told, and when ----

  /** The bridges of the list from `at` on are to be served. */
  function From(order: seq<nat>, at: nat): MainLoop {
    if at >= |order| then Idle else Serving(at, First)
  }

  /** The bridge being served is off the list, and the one behind it is next. */
  ghost predicate Removed(s: Sys, s': Sys)
    requires AtStage(s)
  {
    && |s'.order| == |s.order| - 1 && s'.main == From(s'.order, s.main.at)
    && (forall i :: 0 <= i < s.main.at ==> s'.order[i] == s.order[i])
    && (forall i :: s.main.at <= i < |s'.order| ==> s'.order[i] == s.order[i + 1])
  }

  /** A client that is accepted and connected gets a bridge at the end of the list,
      with nothing pending and nothing told, and a reader if its socket could be
      cloned. Nobody else notices. */
  lemma AcceptStarts(s: Sys, cloned: bool)
    requires Enabled(s, Input(true, cloned)) && s.channel[0] == Accepted
    ensures var s', k := Apply(s, Input(true, cloned)), s.nextKey;
            && s'.order == s.order + [k] && s'.nextKey == k + 1 && s'.main == Idle && s'.channel == s.channel[1..]
            && k in s'.conns && (forall j :: j in s.conns && j != k ==> j in s'.conns && s'.conns[j] == s.conns[j])
            && var c := s'.conns[k];
            && (c.reader == if cloned then Checking else Finished) && c.writer == Waiting && c.queue == []
            && c.readAhead == 0 && c.writeBehind == 0 && c.shutdowns == 0 && c.bridge.Some?
            && var b := c.bridge.value;
            b.pending == [] && !b.eof && !b.broken && !b.shutToGuest && !b.shutToClient
  {
  }

  /** Serving starts with the first bridge of the list. */
  lemma ServiceStarts(s: Sys)
    requires Enabled(s, Service)
    ensures Apply(s, Service) == s.(main := From(s.order, 0))
  {
  }

  /** An offer moves exactly the accepted bytes from the bridge to the guest. */
  lemma OfferMoves(s: Sys, offered: nat, n: nat)
    requires Enabled(s, Offered(offered, n))
    ensures var c, k, s1 := Cur(s), Key(s), Apply(s, Offered(offered, n));
            var b := c.bridge.value;
            && (offered > 0 ==> Enabled(s1, SubAhead))
            && var s' := if offered > 0 then Apply(s1, SubAhead) else s1;
            && s' == Put(s, k, s'.conns[k]).(main := Serving(s.main.at, Shut))
            && s'.conns[k] == c.(given := c.given + b.pending[..n], readAhead := c.readAhead - n,
                                 bridge := Some(b.(pending := b.pending[n..])))
  {
    var c, b, k := Cur(s), Cur(s).bridge.value, Key(s);
    var c1 := c.(given := c.given + b.pending[..n], bridge := Some(b.(pending := b.pending[n..])));
    if offered == 0 {
      assert c.given + b.pending[..n] == c.given && b.pending[n..] == b.pending;
    } else {
      PutTwice(s.conns, k, c1, c1.(readAhead := c.readAhead - n));
    }
  }

  lemma PutTwice(conns: map<nat, Conn>, k: nat, c: Conn, c': Conn)
    ensures conns[k := c][k := c'] == conns[k := c']
  {
  }

  /** A chunk that the guest sent, while the writer is not too far behind, is counted
      and queued, and the loop goes on; otherwise it ends. */
  lemma ChunkQueued(s: Sys, data: Bytes)
    requires Enabled(s, Recv(data))
    ensures var c, k, s1 := Cur(s), Key(s), Apply(s, Recv(data));
            if data == [] || c.writeBehind >= WRITE_BEHIND then s1 == s.(main := Serving(s.main.at, Last))
            else
              && Enabled(s1, AddBehind) && Enabled(Apply(s1, AddBehind), Pass)
              && var s' := Apply(Apply(s1, AddBehind), Pass);
              && s' == Put(s, k, s'.conns[k]).(main := Serving(s.main.at, Receive))
              && s'.conns[k] ==
                   c.(taken := c.taken + data, writeBehind := c.writeBehind + |data|, queue := c.queue + [WData(data)])
  {
    var c, k := Cur(s), Key(s);
    assert s.conns[k := c] == s.conns;
    var c1 := c.(taken := c.taken + data);
    var c2 := c1.(writeBehind := c.writeBehind + |data|);
    PutTwice(s.conns, k, c1, c2);
    PutTwice(s.conns, k, c2, Queue(c2, WData(data)));
  }

  /** An exchange that finds the end of the client's stream and nothing pending tells
      the guest, unless it did before; otherwise it does not. */
  lemma ShutTells(s: Sys)
    requires Enabled(s, ShutGuest)
    ensures var c, k, s' := Cur(s), Key(s), Apply(s, ShutGuest);
            var tells := c.bridge.value.eof && c.bridge.value.pending == [] && !c.bridge.value.shutToGuest;
            && s'.conns[k].shutdowns == (if tells then c.shutdowns + 1 else c.shutdowns)
            && s'.conns[k].bridge.Some? && (tells ==> s'.conns[k].bridge.value.shutToGuest)
            && s'.main == Serving(s.main.at, Receive)
  {
  }

  /** The end of an exchange: the client is told once that the guest sends no more,
      and again when the connection closed in order or was refused; it is cut off
      when the connection closed in another way or is unknown. The bridge stays
      exactly while the connection is open or holds bytes of the guest. */
  lemma FinishTells(s: Sys, info: Option<Info>)
    requires Enabled(s, Finish(info))
    ensures var c, k, s' := Cur(s), Key(s), Apply(s, Finish(info));
            && k in s'.conns
            && (s'.conns[k].bridge.Some? <==> info.Some? && (info.value.closed.None? || info.value.readable > 0))
            && (if s'.conns[k].bridge.None? then Removed(s, s')
                else
                  && s'.order == s.order && s'.main == From(s.order, s.main.at + 1)
                  && s'.conns[k].bridge.value ==
                       c.bridge.value.(shutToClient := c.bridge.value.shutToClient || info.value.guestEof))
            && s'.conns[k].queue == c.queue +
                 (if info.Some? && info.value.guestEof && !c.bridge.value.shutToClient then [WShutdown] else []) +
                 (if s'.conns[k].bridge.Some? then []
                  else if info.Some? && info.value.closed.value in {Normal, Refused} then [WShutdown] else [WAbort])
  {
    var c := Cur(s);
    assert c.queue + [] == c.queue;
  }

  /** A client that broke off is dropped and cut off at the next exchange. */
  lemma BrokenDrops(s: Sys)
    requires Enabled(s, Begin)
    ensures var c, k, s' := Cur(s), Key(s), Apply(s, Begin);
            if c.bridge.value.broken
            then s'.conns[k].bridge.None? && s'.conns[k].queue == c.queue + [WAbort] && Removed(s, s')
            else s'.conns[k] == c && s'.main == Serving(s.main.at, Offer)
  {
  }

  /** The end of the stream of client `k` is known somewhere. */
  ghost predicate EndKnown(s: Sys, k: nat) {
    || Eof(k) in s.channel
    || (k in s.conns && (s.conns[k].reader == AtEof || s.conns[k].shutdowns > 0
                         || (s.conns[k].bridge.Some? && s.conns[k].bridge.value.eof)))
  }

  /** A failed read of client `k` is known somewhere. */
  ghost predicate ErrorKnown(s: Sys, k: nat) {
    || Broken(k) in s.channel
    || (k in s.conns && (s.conns[k].reader == AtError
                         || (s.conns[k].bridge.Some? && s.conns[k].bridge.value.broken)))
  }

  lemma InChannel(s: Sys, a: Action, m: Msg)
    requires Enabled(s, a) && m in Apply(s, a).channel && (m.Eof? || m.Broken?)
    ensures m in s.channel || (a == Tell(m.key) && s.conns[m.key].reader == if m.Eof? then AtEof else AtError)
  {
    match a
    case Input(connected, cloned) =>
    case Tell(k) =>
    case Finish(info) => FinishChannel(s, info);
    case _ =>
  }

  lemma FinishChannel(s: Sys, info: Option<Info>)
    requires AtStage(s)
    ensures FinishStep(s, info).channel == s.channel
  {
  }

  /** Only an end of stream that was read makes one known, and only a failed read
      makes a failure known. */
  lemma KnownStep(s: Sys, a: Action, k: nat)
    requires Inv(s) && Enabled(s, a)
    ensures EndKnown(Apply(s, a), k) ==> EndKnown(s, k) || a == Action.Read(k, None)
    ensures ErrorKnown(Apply(s, a), k) ==> ErrorKnown(s, k) || a == ReadError(k)
  {
    var s' := Apply(s, a);
    if Eof(k) in s'.channel {
      InChannel(s, a, Eof(k));
    }
    if Broken(k) in s'.channel {
      InChannel(s, a, Broken(k));
    }
    if k in s'.conns {
      match a
      case Input(connected, cloned) => KnownInput(s, connected, cloned, k);
      case Finish(info) => KnownFinish(s, info, k);
      case _ => KnownOther(s, a, k);
    }
  }

  lemma KnownInput(s: Sys, connected: bool, cloned: bool, k: nat)
    requires Inv(s) && s.channel != [] && k in InputStep(s, connected, cloned).conns
    ensures var c := InputStep(s, connected, cloned).conns[k];
            && (c.reader == AtEof || c.shutdowns > 0 || (c.bridge.Some? && c.bridge.value.eof) ==> EndKnown(s, k))
            && (c.reader == AtError || (c.bridge.Some? && c.bridge.value.broken) ==> ErrorKnown(s, k))
  {
  }

  lemma KnownFinish(s: Sys, info: Option<Info>, k: nat)
    requires AtStage(s) && k in FinishStep(s, info).conns
    ensures var c := FinishStep(s, info).conns[k];
            && (c.reader == AtEof || c.shutdowns > 0 || (c.bridge.Some? && c.bridge.value.eof) ==> EndKnown(s, k))
            && (c.reader == AtError || (c.bridge.Some? && c.bridge.value.broken) ==> ErrorKnown(s, k))
  {
  }

  lemma KnownOther(s: Sys, a: Action, k: nat)
    requires Enabled(s, a) && k in Apply(s, a).conns
    requires !a.Input? && !a.Finish?
    ensures var c := Apply(s, a).conns[k];
            && (c.reader == AtEof || c.shutdowns > 0 || (c.bridge.Some? && c.bridge.value.eof) ==>
                 EndKnown(s, k) || a == Action.Read(k, None))
            && (c.reader == AtError || (c.bridge.Some? && c.bridge.value.broken) ==>
                 ErrorKnown(s, k) || a == ReadError(k))
  {
    if a.Begin? || a.Offered? || a.SubAhead? || a.ShutGuest? {
      KnownGuest(s, a, k);
    } else if a.Recv? || a.AddBehind? || a.Pass? {
      KnownClient(s, a, k);
    }
  }

  lemma KnownGuest(s: Sys, a: Action, k: nat)
    requires Enabled(s, a) && k in Apply(s, a).conns
    requires a.Begin? || a.Offered? || a.SubAhead? || a.ShutGuest?
    ensures var c := Apply(s, a).conns[k];
            && (c.reader == AtEof || c.shutdowns > 0 || (c.bridge.Some? && c.bridge.value.eof) ==>
                 EndKnown(s, k) || a == Action.Read(k, None))
            && (c.reader == AtError || (c.bridge.Some? && c.bridge.value.broken) ==>
                 ErrorKnown(s, k) || a == ReadError(k))
  {
  }

  lemma KnownClient(s: Sys, a: Action, k: nat)
    requires Enabled(s, a) && k in Apply(s, a).conns
    requires a.Recv? || a.AddBehind? || a.Pass?
    ensures var c := Apply(s, a).conns[k];
            && (c.reader == AtEof || c.shutdowns > 0 || (c.bridge.Some? && c.bridge.value.eof) ==>
                 EndKnown(s, k) || a == Action.Read(k, None))
            && (c.reader == AtError || (c.bridge.Some? && c.bridge.value.broken) ==>
                 ErrorKnown(s, k) || a == ReadError(k))
  {
  }

  /** In every run: the guest is told of the end only if the client's stream ended,
      and a client is taken for broken only if reading from it failed. */
  lemma {:induction false} EndIsReal(states: seq<Sys>, actions: seq<Action>, i: nat, k: nat)
    requires IsRun(states, actions) && i <= |actions|
    ensures EndKnown(states[i], k) ==> exists j :: 0 <= j < i && actions[j] == Action.Read(k, None)
    ensures ErrorKnown(states[i], k) ==> exists j :: 0 <= j < i && actions[j] == ReadError(k)
  {
    if i > 0 {
      EndIsReal(states, actions, i - 1, k);
      RunKeeps(states, actions, i - 1);
      assert StepAt(states, actions, i - 1);
      KnownStep(states[i - 1], actions[i - 1], k);
    }
  }
}
