/**
 The relay between a client and a server context: each step moves at most
 4096 bytes each way. Over any interleaving with sends and dequeues nothing is
 lost, added or reordered, and the server reads the messages the client sent.
 */
module Relay {
  import opened Wire
  import opened Messages
  import opened Parsers
  import opened Engine
  import opened Contexts
  import opened Streams
  import Replies
  import Runs

  const STEP_SIZE: nat := 4096

  // ---------- the step in place ----------

  class Mitm {
    const client: Context
    const server: Context

    ghost predicate Valid()
      reads this, client, server
    {
      && client.Valid() && server.Valid()
      && client.Repr() !! server.Repr()
    }

    constructor (client: Context, server: Context)
      requires client.Valid() && server.Valid() && client.Repr() !! server.Repr()
      ensures Valid() && this.client == client && this.server == server
    {
      this.client, this.server := client, server;
    }

    method Step()
      requires Valid()
      requires Accepts(server.Abs(), TakeOutput(client.Abs(), STEP_SIZE).0)
      requires var (c, s) := Passed(client.Abs(), server.Abs());
               Accepts(c, TakeOutput(s, STEP_SIZE).0)
      modifies client.Repr(), server.Repr()
      ensures Valid()
      ensures (client.Abs(), server.Abs()) == Moved(old(client.Abs()), old(server.Abs()))
    {
      hide Feed, Passed, Context.Abs, Context.Valid;
      var buf := new byte[STEP_SIZE];
      Pass(client, server, buf);
      Pass(server, client, buf);
    }

    static method Take(from: Context, buf: array<byte>) returns (n: nat)
      requires from.Valid() && buf.Length == STEP_SIZE && buf !in from.Repr()
      modifies from.Repr(), buf
      ensures from.Valid() && from.Repr() == old(from.Repr())
      ensures n <= STEP_SIZE && (buf[..n], from.Abs()) == TakeOutput(old(from.Abs()), STEP_SIZE)
    {
      hide TakeOutput, Context.Abs, Context.Valid;
      n := from.GetOutput(buf, STEP_SIZE);
    }

    static method Give(to: Context, data: Bytes)
      requires to.Valid() && NeverWraps(Append(to.Abs(), data))
      modifies to.Repr()
      ensures to.Valid() && fresh(to.Repr() - old(to.Repr()))
      ensures to.Abs() == Feed(old(to.Abs()), data)
    {
      FinalIsDrain(Append(to.Abs(), data));
      var _ := to.FeedInput(data);
    }

    static method Pass(from: Context, to: Context, buf: array<byte>)
      requires from.Valid() && to.Valid() && from.Repr() !! to.Repr()
      requires buf.Length == STEP_SIZE && buf !in from.Repr() && buf !in to.Repr()
      requires Accepts(to.Abs(), TakeOutput(from.Abs(), STEP_SIZE).0)
      modifies from.Repr(), to.Repr(), buf
      ensures from.Valid() && to.Valid() && from.Repr() !! to.Repr()
      ensures fresh(from.Repr() - old(from.Repr())) && fresh(to.Repr() - old(to.Repr()))
      ensures (from.Abs(), to.Abs()) == Passed(old(from.Abs()), old(to.Abs()))
    {
      hide Feed, TakeOutput, Context.Abs, Context.Valid;
      var n := Take(from, buf);
      if n > 0 {
        Give(to, buf[..n]);
      }
    }
  }

  /** Nothing is passed on, or the feed loop of the receiver ends on it. */
  predicate Accepts(to: State, data: Bytes)
    requires Valid(to)
  {
    data == [] || NeverWraps(Append(to, data))
  }

  /** Fewer than 4 GiB buffered at the receiver are always fine. */
  lemma SmallIsAccepted(to: State, data: Bytes)
    requires Valid(to) && |to.input| + |data| < TWO_TO_THE_32
    ensures Accepts(to, data)
  {
    SmallNeverWraps(Append(to, data));
  }

  /** What one direction of a step does to the two contexts. */
  function Passed(from: State, to: State): (r: (State, State))
    requires Valid(from) && Valid(to)
    ensures Valid(r.0) && Valid(r.1)
  {
    var (data, rest) := TakeOutput(from, STEP_SIZE);
    (rest, if data == [] then to else Feed(to, data))
  }

  function Moved(client: State, server: State): (r: (State, State))
    requires Valid(client) && Valid(server)
    ensures Valid(r.0) && Valid(r.1)
  {
    var (c, s) := Passed(client, server);
    var (s', c') := Passed(s, c);
    (c', s')
  }

  // ---------- runs ----------

  /** Both contexts, everything sent so far and the chunks that were moved. */
  datatype World = World(client: State, server: State, sentUp: Bytes, sentDown: Bytes,
                         up: seq<Bytes>, down: seq<Bytes>)

  datatype RelayOp =
    | Move
    | ClientSends(data: Bytes)
    | ServerSends(data: Bytes)
    | ClientNext
    | ServerNext
    | ClientReady
    | ServerReady

  predicate ValidWorld(w: World) { Valid(w.client) && Valid(w.server) }

  function MoveWorld(w: World): (r: World)
    requires ValidWorld(w)
    ensures ValidWorld(r)
  {
    var (c, s) := Moved(w.client, w.server);
    var a := TakeOutput(w.client, STEP_SIZE).0;
    var b := TakeOutput(Passed(w.client, w.server).1, STEP_SIZE).0;
    w.(client := c, server := s,
       up := if a == [] then w.up else w.up + [a],
       down := if b == [] then w.down else w.down + [b])
  }

  function StepWorld(w: World, op: RelayOp): (r: World)
    requires ValidWorld(w)
    ensures ValidWorld(r)
  {
    match op
    case Move => MoveWorld(w)
    case ClientSends(data) => w.(client := Output(w.client, data), sentUp := w.sentUp + data)
    case ServerSends(data) => w.(server := Output(w.server, data), sentDown := w.sentDown + data)
    case ClientNext => w.(client := Dequeue(w.client).1)
    case ServerNext => w.(server := Dequeue(w.server).1)
    case ClientReady => w.(client := NoteReady(w.client))
    case ServerReady => w.(server := NoteReady(w.server))
  }

  function RunWorld(w: World, ops: seq<RelayOp>): (r: World)
    requires ValidWorld(w)
    ensures ValidWorld(r)
    decreases |ops|
  {
    if ops == [] then w else RunWorld(StepWorld(w, ops[0]), ops[1..])
  }

  ghost predicate NewWorld(w: World) {
    && Initial(w.client) && Initial(w.server) && w.client.role == Client && w.server.role == Server
    && w.sentUp == [] && w.sentDown == [] && w.up == [] && w.down == []
  }

  // ---------- conservation ----------

  /** What was moved and what is still buffered is what was sent. */
  ghost predicate Conserved(w: World) {
    Concat(w.up) + w.client.output == w.sentUp && Concat(w.down) + w.server.output == w.sentDown
  }

  lemma {:induction false} ConcatSnoc(chunks: seq<Bytes>, c: Bytes)
    ensures Concat(chunks + [c]) == Concat(chunks) + c
    decreases |chunks|
  {
    if chunks == [] {
      assert chunks + [c] == [c] && [c][1..] == [];
      Neutral(c);
    } else {
      assert (chunks + [c])[1..] == chunks[1..] + [c];
      ConcatSnoc(chunks[1..], c);
      Assoc(chunks[0], Concat(chunks[1..]), c);
    }
  }

  /** Taking output in chunks keeps its concatenation. */
  lemma TakenIsKept(moved: seq<Bytes>, s: State)
    ensures var (a, r) := TakeOutput(s, STEP_SIZE);
            Concat(if a == [] then moved else moved + [a]) + r.output == Concat(moved) + s.output
  {
    var (a, r) := TakeOutput(s, STEP_SIZE);
    assert a + r.output == s.output;
    ConcatSnoc(moved, a);
    Assoc(Concat(moved), a, r.output);
    Neutral(r.output);
  }

  lemma {:induction false} DrainKeepsOutput(s: State)
    requires Valid(s)
    ensures Drain(s).output == s.output
    decreases |s.input|
  {
    if !Waits(s) && |Advance(s).input| < |s.input| {
      DrainKeepsOutput(Advance(s));
    }
  }

  lemma PassKeepsOutput(from: State, to: State)
    requires Valid(from) && Valid(to)
    ensures Passed(from, to).1.output == to.output
  {
    DrainKeepsOutput(Append(to, TakeOutput(from, STEP_SIZE).0));
  }

  lemma StepConserves(w: World, op: RelayOp)
    requires ValidWorld(w) && Conserved(w)
    ensures Conserved(StepWorld(w, op))
  {
    match op
    case Move =>
      var (c, s) := Passed(w.client, w.server);
      PassKeepsOutput(w.client, w.server);
      PassKeepsOutput(s, c);
      TakenIsKept(w.up, w.client);
      TakenIsKept(w.down, s);
    case ClientSends(data) => Assoc(Concat(w.up), w.client.output, data);
    case ServerSends(data) => Assoc(Concat(w.down), w.server.output, data);
    case _ =>
  }

  // ---------- what the server reads ----------

  /** Two servers that agree on everything their event log depends on. */
  ghost predicate SameReader(s: State, t: State) {
    && s.role == Server && t.role == Server && s.maxSize == t.maxSize
    && s.started == t.started && s.input == t.input && s.log == t.log
  }

  lemma SameReaderTurn(s: State, t: State)
    requires Valid(s) && Valid(t) && SameReader(s, t)
    ensures Waits(s) == Waits(t)
    ensures !Waits(s) ==> SameReader(Advance(s), Advance(t))
  {
  }

  lemma {:induction false} SameReaderDrain(s: State, t: State)
    requires Valid(s) && Valid(t) && SameReader(s, t)
    ensures SameReader(Drain(s), Drain(t))
    decreases |s.input|
  {
    SameReaderTurn(s, t);
    if !Waits(s) && |Advance(s).input| < |s.input| {
      SameReaderDrain(Advance(s), Advance(t));
    }
  }

  lemma {:induction false} FeedAllSnoc(s: State, chunks: seq<Bytes>, c: Bytes)
    requires Valid(s)
    ensures FeedAll(s, chunks + [c]) == Feed(FeedAll(s, chunks), c)
    decreases |chunks|
  {
    if chunks == [] {
      assert chunks + [c] == [c] && [c][1..] == [];
    } else {
      assert (chunks + [c])[1..] == chunks[1..] + [c];
      FeedAllSnoc(Feed(s, chunks[0]), chunks[1..], c);
    }
  }

  /** The server has read exactly the chunks that were moved to it. */
  ghost predicate HasRead(w: World, server0: State)
    requires Valid(server0)
  {
    SameReader(w.server, FeedAll(server0, w.up))
  }

  lemma StepReads(w: World, op: RelayOp, server0: State)
    requires ValidWorld(w) && Valid(server0) && HasRead(w, server0)
    ensures HasRead(StepWorld(w, op), server0)
  {
    if op.Move? {
      var a := TakeOutput(w.client, STEP_SIZE).0;
      if a != [] {
        var t := FeedAll(server0, w.up);
        FeedAllSnoc(server0, w.up, a);
        SameReaderDrain(Append(w.server, a), Append(t, a));
      }
    }
  }

  lemma {:induction false} RunKeeps(w: World, ops: seq<RelayOp>, server0: State)
    requires ValidWorld(w) && Valid(server0) && Conserved(w) && HasRead(w, server0)
    ensures Conserved(RunWorld(w, ops)) && HasRead(RunWorld(w, ops), server0)
    decreases |ops|
  {
    if ops != [] {
      StepConserves(w, ops[0]);
      StepReads(w, ops[0], server0);
      RunKeeps(StepWorld(w, ops[0]), ops[1..], server0);
    }
  }

  // ---------- end to end ----------

  /** Nothing is lost or invented in either direction, whatever the order of steps. */
  lemma RelayConserves(w: World, ops: seq<RelayOp>)
    requires NewWorld(w)
    ensures var r := RunWorld(w, ops);
            && Concat(r.up) + r.client.output == r.sentUp
            && Concat(r.down) + r.server.output == r.sentDown
            && Concat(r.up) <= r.sentUp && Concat(r.down) <= r.sentDown
  {
    RunKeeps(w, ops, w.server);
  }

  /**
   When all the client sent is a startup packet and messages the server can
   take, the log of the server is at any time a prefix of their events, and
   all of them once the client's output has been moved.
   */
  lemma RelayDelivers(w: World, ops: seq<RelayOp>, user: Bytes, database: Bytes, ms: seq<FrontendMsg>)
    requires NewWorld(w) && NulFree(user) && NulFree(database)
    requires |StartupPacket(user, database)| <= w.server.maxSize && |StartupPacket(user, database)| < TWO_TO_THE_32
    requires AllReceivable(ms, w.server.maxSize)
    requires RunWorld(w, ops).sentUp == StartupPacket(user, database) + EncodeAll(ms)
    ensures var r := RunWorld(w, ops);
            var events := [StartupEvent(user, database)] + EventsOf(ms);
            && r.server.log <= events
            && (r.client.output == [] ==> r.server.log == events && r.server.input == [])
  {
    RunKeeps(w, ops, w.server);
    var r := RunWorld(w, ops);
    var s0 := w.server;
    var out := r.client.output;
    var fed := FeedAll(s0, r.up);
    var all := r.sentUp;
    ConcatSnoc(r.up, out);
    Neutral(all);
    SessionIsRead(Append(s0, all), user, database, ms);
    ChunksInRange(s0, r.up + [out]);
    FeedAllSnoc(s0, r.up, out);
    var whole := Feed(s0, all);
    assert whole == Feed(fed, out);
    Runs.DrainGrowsLog(Append(fed, out));
    Neutral([StartupEvent(user, database)]);
    if out == [] {
      AllIsRead(r, s0);
    }
  }

  lemma AllIsRead(r: World, s0: State)
    requires Valid(s0) && Waits(s0) && s0.input == [] && Conserved(r) && r.client.output == []
    requires HeadersInRange(Append(s0, r.sentUp))
    ensures FeedAll(s0, r.up) == Feed(s0, r.sentUp)
  {
    Neutral(Concat(r.up));
    ChunksInRange(s0, r.up);
  }

  // ---------- what the client reads ----------

  /**
   The client has read as many messages of `ms` as its log is long and waits for
   the others; what was not moved to it yet is the end of `total`.
   */
  ghost predicate Answering(w: World, ms: seq<Replies.BackendMsg>, total: Bytes) {
    && |w.client.log| <= |ms| && Concat(w.down) <= total
    && Replies.AllReceivable(ms, w.client.maxSize)
    && Replies.Awaits(w.client, ms[|w.client.log|..], total[|Concat(w.down)|..]) && Waits(w.client)
  }

  /** The messages that the client read between two states. */
  function ReadBetween(c: State, c': State, ms: seq<Replies.BackendMsg>): (r: seq<Replies.BackendMsg>) {
    if |c.log| <= |c'.log| <= |ms| then ms[|c.log|..|c'.log|] else []
  }

  /** What the client logged is what was sent exactly when the rows fit its free arena. */
  ghost predicate ReadIff(c: State, c': State, ms: seq<Replies.BackendMsg>)
    requires Replies.AllReceivable(ms, c.maxSize)
  {
    var read := ReadBetween(c, c', ms);
    && c'.maxSize == c.maxSize && c.log <= c'.log && |c'.log| <= |ms|
    && (c'.log == c.log + Replies.EventsOf(read) <==> Replies.RowsFit(c, read))
    && (Replies.RowsFit(c, read) ==> c'.mem.used <= c.mem.used + Replies.RowBytes(read))
  }

  lemma AwaitsMore(c: State, ms: seq<Replies.BackendMsg>, data: Bytes, rest: Bytes)
    requires Replies.Awaits(c, ms, data + rest)
    ensures Replies.Awaits(Append(c, data), ms, rest)
  {
    Assoc(c.input, data, rest);
  }

  /** The next bytes of `total` are fed. */
  lemma FeedAnswers(c: State, ms: seq<Replies.BackendMsg>, data: Bytes, rest: Bytes)
    requires |c.log| <= |ms| && Replies.AllReceivable(ms, c.maxSize)
    requires Replies.Awaits(c, ms[|c.log|..], data + rest)
    ensures ReadIff(c, Feed(c, data), ms)
    ensures Replies.Awaits(Feed(c, data), ms[|Feed(c, data).log|..], rest) && Waits(Feed(c, data))
  {
    hide Replies.Awaits, Replies.EncodeAll, Replies.EventsOf, Replies.RowBytes, Replies.Fits, Drain, Waits;
    AwaitsMore(c, ms[|c.log|..], data, rest);
    var k := |c.log|;
    var j := Replies.RepliesAreReadIff(Append(c, data), ms[k..], rest);
    assert ms[k..][..j] == ms[k..k + j] && ms[k..][j..] == ms[k + j..];
  }

  /** A client that waits does so whatever it sends or dequeues, and reads nothing then. */
  lemma AwaitsKept(s: State, t: State, ms: seq<Replies.BackendMsg>, rest: Bytes)
    requires |s.log| <= |ms| && Replies.AllReceivable(ms, s.maxSize)
    requires Replies.Awaits(s, ms[|s.log|..], rest) && Waits(s) && Valid(t)
    requires t.role == s.role && t.maxSize == s.maxSize && t.input == s.input && t.log == s.log
    requires t.mem.used <= s.mem.used
    ensures Replies.Awaits(t, ms[|t.log|..], rest) && Waits(t) && ReadIff(s, t, ms)
  {
    assert ReadBetween(s, t, ms) == [];
    Neutral(s.log);
  }

  lemma MoveAnswers(w: World, ms: seq<Replies.BackendMsg>, total: Bytes)
    requires ValidWorld(w) && Conserved(w) && Answering(w, ms, total) && w.sentDown <= total
    ensures ReadIff(w.client, MoveWorld(w).client, ms) && Answering(MoveWorld(w), ms, total)
  {
    hide Feed, Replies.Awaits, Waits, Replies.EventsOf, Replies.RowBytes, Replies.Receivable;
    var (c, s) := Passed(w.client, w.server);
    var b := TakeOutput(s, STEP_SIZE).0;
    var n := |Concat(w.down)|;
    AwaitsKept(w.client, c, ms, total[n..]);
    if b != [] {
      StepConserves(w, Move);
      ConcatSnoc(w.down, b);
      assert Concat(w.down + [b]) <= w.sentDown;
      assert total[n..] == b + total[n + |b|..];
      FeedAnswers(c, ms, b, total[n + |b|..]);
    }
  }

  lemma StepAnswers(w: World, op: RelayOp, ms: seq<Replies.BackendMsg>, total: Bytes)
    requires ValidWorld(w) && Conserved(w) && Answering(w, ms, total) && w.sentDown <= total
    ensures ReadIff(w.client, StepWorld(w, op).client, ms) && Answering(StepWorld(w, op), ms, total)
  {
    hide MoveWorld, Replies.Awaits, Waits, Replies.EventsOf, Replies.RowBytes, Replies.Receivable;
    if op.Move? {
      MoveAnswers(w, ms, total);
    } else {
      AwaitsKept(w.client, StepWorld(w, op).client, ms, total[|Concat(w.down)|..]);
    }
  }

  lemma {:induction false} SentGrows(w: World, ops: seq<RelayOp>)
    requires ValidWorld(w)
    ensures w.sentDown <= RunWorld(w, ops).sentDown
    decreases |ops|
  {
    hide Moved, Passed, Feed, Drain, TakeOutput;
    if ops != [] {
      SentGrows(StepWorld(w, ops[0]), ops[1..]);
    }
  }

  lemma {:induction false} RunAwaits(w: World, ops: seq<RelayOp>, ms: seq<Replies.BackendMsg>, total: Bytes)
    requires ValidWorld(w) && Conserved(w) && Answering(w, ms, total) && RunWorld(w, ops).sentDown == total
    ensures Conserved(RunWorld(w, ops)) && Answering(RunWorld(w, ops), ms, total)
    ensures w.client.log <= RunWorld(w, ops).client.log
    decreases |ops|
  {
    hide StepWorld, Conserved, Answering, ReadBetween;
    if ops != [] {
      NextAwaits(w, ops, ms, total);
      RunAwaits(StepWorld(w, ops[0]), ops[1..], ms, total);
    }
  }

  lemma NextAwaits(w: World, ops: seq<RelayOp>, ms: seq<Replies.BackendMsg>, total: Bytes)
    requires ValidWorld(w) && Conserved(w) && Answering(w, ms, total) && ops != []
    requires RunWorld(w, ops).sentDown == total
    ensures var v := StepWorld(w, ops[0]);
            && Conserved(v) && Answering(v, ms, total) && RunWorld(v, ops[1..]).sentDown == total
            && Replies.AllReceivable(ms, w.client.maxSize) && ReadIff(w.client, v.client, ms)
            && |w.client.log| <= |ms|
  {
    hide StepWorld, Replies.Awaits, Waits, Replies.EventsOf, Replies.RowBytes, Replies.Receivable, ReadIff;
    SentGrows(w, ops);
    StepConserves(w, ops[0]);
    StepAnswers(w, ops[0], ms, total);
  }

  /** The messages whose last bytes a step moves down, by the numbers of bytes moved alone. */
  function MovedBetween(w: World, w': World, ms: seq<Replies.BackendMsg>): (r: seq<Replies.BackendMsg>)
    requires forall i :: 0 <= i < |ms| ==> Replies.Fits(ms[i])
  {
    var a, b := Replies.WholeIn(ms, |Concat(w.down)|), Replies.WholeIn(ms, |Concat(w'.down)|);
    if a <= b then ms[a..b] else []
  }

  /** Those are the messages that the client reads in it. */
  lemma MovedIsRead(w: World, w': World, ms: seq<Replies.BackendMsg>, total: Bytes)
    requires Answering(w, ms, total) && Answering(w', ms, total) && total == Replies.EncodeAll(ms)
    ensures MovedBetween(w, w', ms) == ReadBetween(w.client, w'.client, ms)
  {
    hide Replies.Awaits, Waits, Replies.WholeIn, Replies.EncodeAll;
    var n, n' := |Concat(w.down)|, |Concat(w'.down)|;
    Replies.AwaitingHasRead(w.client, ms, |w.client.log|, total[n..]);
    Replies.AwaitingHasRead(w'.client, ms, |w'.client.log|, total[n'..]);
  }

  /** The rows that each step of the run moves down fit the part of the arena that is free then. */
  predicate EveryRowFits(w: World, ops: seq<RelayOp>, ms: seq<Replies.BackendMsg>)
    requires ValidWorld(w) && forall i :: 0 <= i < |ms| ==> Replies.Fits(ms[i])
    decreases |ops|
  {
    ops == []
    || (var v := StepWorld(w, ops[0]);
        && Replies.RowsFit(w.client, MovedBetween(w, v, ms))
        && EveryRowFits(v, ops[1..], ms))
  }

  /** A log that is as sent so far stays so exactly when what it grew by is as sent. */
  lemma LogGrows(log: seq<Event>, log': seq<Event>, ms: seq<Replies.BackendMsg>)
    requires forall i :: 0 <= i < |ms| ==> Replies.Fits(ms[i])
    requires log <= log' && |log'| <= |ms| && log == Replies.EventsOf(ms[..|log|])
    ensures log' == Replies.EventsOf(ms[..|log'|])
            <==> log' == log + Replies.EventsOf(ms[|log|..|log'|])
    ensures log' == Replies.EventsOf(ms[..|log'|]) <==> log' <= Replies.EventsOf(ms)
  {
    hide Replies.EventsOf, Replies.Fits;
    var front := ms[..|log'|];
    assert front[..|log|] == ms[..|log|] && front[|log|..] == ms[|log|..|log'|];
    Replies.EventsOfParts(front, |log|);
    Replies.EventsOfParts(ms, |log'|);
  }

  lemma {:induction false} RunAnswersIff(w: World, ops: seq<RelayOp>, ms: seq<Replies.BackendMsg>, total: Bytes)
    requires ValidWorld(w) && Conserved(w) && Answering(w, ms, total) && RunWorld(w, ops).sentDown == total
    requires total == Replies.EncodeAll(ms)
    requires w.client.log == Replies.EventsOf(ms[..|w.client.log|])
    ensures RunWorld(w, ops).client.log <= Replies.EventsOf(ms) <==> EveryRowFits(w, ops, ms)
    decreases |ops|
  {
    hide StepWorld, Conserved, Replies.Awaits, Waits, Replies.EventsOf, Replies.RowBytes, Replies.Fits, Replies.EncodeAll, MovedBetween;
    LogGrows(w.client.log, w.client.log, ms);
    if ops != [] {
      NextAwaits(w, ops, ms, total);
      var v := StepWorld(w, ops[0]);
      LogGrows(w.client.log, v.client.log, ms);
      MovedIsRead(w, v, ms, total);
      if Replies.RowsFit(w.client, ReadBetween(w.client, v.client, ms)) {
        RunAnswersIff(v, ops[1..], ms, total);
      } else {
        RunAwaits(v, ops[1..], ms, total);
      }
    }
  }

  lemma NothingRead(w: World, ms: seq<Replies.BackendMsg>)
    requires NewWorld(w) && Replies.AllReceivable(ms, w.client.maxSize)
    ensures Conserved(w) && Answering(w, ms, Replies.EncodeAll(ms))
    ensures w.client.log == Replies.EventsOf(ms[..|w.client.log|])
  {
    var total := Replies.EncodeAll(ms);
    Neutral(total);
    assert ms[0..] == ms && total[0..] == total && ms[..0] == [];
  }

  lemma AllAnswered(w: World, ms: seq<Replies.BackendMsg>, total: Bytes)
    requires Conserved(w) && Answering(w, ms, total) && w.sentDown == total && w.server.output == []
    ensures |w.client.log| == |ms| && w.client.input == []
  {
    Neutral(Concat(w.down));
    assert total[|Concat(w.down)|..] == [];
    Replies.AwaitedIsRead(w.client, ms[|w.client.log|..]);
  }

  /**
   When all the server sent is messages the client can take, the log of the
   client is at any time a prefix of their events exactly when every row fitted
   the free arena when it came, whatever was dequeued in between; and every
   message is read once the server's output has been moved.
   */
  lemma RelayAnswersIff(w: World, ops: seq<RelayOp>, ms: seq<Replies.BackendMsg>)
    requires NewWorld(w) && Replies.AllReceivable(ms, w.client.maxSize)
    requires RunWorld(w, ops).sentDown == Replies.EncodeAll(ms)
    ensures var r := RunWorld(w, ops);
            && (r.client.log <= Replies.EventsOf(ms) <==> EveryRowFits(w, ops, ms))
            && |r.client.log| <= |ms|
            && (r.server.output == [] ==> |r.client.log| == |ms| && r.client.input == [])
  {
    hide Replies.EncodeAll, Replies.EventsOf, Replies.RowBytes, RunWorld, Waits, Replies.Awaits, EveryRowFits;
    var total := Replies.EncodeAll(ms);
    NothingRead(w, ms);
    RunAwaits(w, ops, ms, total);
    RunAnswersIff(w, ops, ms, total);
    if RunWorld(w, ops).server.output == [] {
      AllAnswered(RunWorld(w, ops), ms, total);
    }
  }

  lemma {:induction false} SmallRowsFit(w: World, ops: seq<RelayOp>, ms: seq<Replies.BackendMsg>, total: Bytes)
    requires ValidWorld(w) && Conserved(w) && Answering(w, ms, total) && RunWorld(w, ops).sentDown == total
    requires total == Replies.EncodeAll(ms)
    requires w.client.mem.used + Replies.RowBytes(ms[|w.client.log|..]) <= ROW_ARENA
    ensures EveryRowFits(w, ops, ms)
    decreases |ops|
  {
    hide StepWorld, Conserved, Replies.Awaits, Waits, Replies.EventsOf, Replies.RowBytes, Replies.Fits, Replies.EncodeAll, MovedBetween;
    if ops != [] {
      NextAwaits(w, ops, ms, total);
      var v := StepWorld(w, ops[0]);
      MovedIsRead(w, v, ms, total);
      var k, n := |w.client.log|, |v.client.log|;
      assert ms[k..][..n - k] == ms[k..n] && ms[k..][n - k..] == ms[n..];
      Replies.RowBytesParts(ms[k..], n - k);
      SmallRowsFit(v, ops[1..], ms, total);
    }
  }

  /** Rows that fit the arena all together are received as sent, however seldom the client dequeues. */
  lemma RelayAnswers(w: World, ops: seq<RelayOp>, ms: seq<Replies.BackendMsg>)
    requires NewWorld(w) && Replies.AllReceivable(ms, w.client.maxSize)
    requires Replies.RowBytes(ms) <= ROW_ARENA
    requires RunWorld(w, ops).sentDown == Replies.EncodeAll(ms)
    ensures var r := RunWorld(w, ops);
            && r.client.log <= Replies.EventsOf(ms)
            && (r.server.output == [] ==> r.client.log == Replies.EventsOf(ms) && r.client.input == [])
  {
    hide Replies.EncodeAll, Replies.EventsOf, Replies.RowBytes, RunWorld, Waits, Replies.Awaits, EveryRowFits;
    NothingRead(w, ms);
    assert ms[0..] == ms;
    SmallRowsFit(w, ops, ms, Replies.EncodeAll(ms));
    RelayAnswersIff(w, ops, ms);
  }

  // ---------- when the client keeps up ----------

  /** A queue that is empty has freed the arena. */
  ghost predicate FreeWhenEmpty(s: State) { s.ring == [] ==> s.mem.used == 0 }

  lemma {:induction false} DrainFreesWhenEmpty(s: State)
    requires Valid(s) && FreeWhenEmpty(s)
    ensures FreeWhenEmpty(Drain(s))
    decreases |s.input|
  {
    if !Waits(s) {
      TurnFreesWhenEmpty(s);
      if |Advance(s).input| < |s.input| {
        DrainFreesWhenEmpty(Advance(s));
      }
    }
  }

  lemma TurnFreesWhenEmpty(s: State)
    requires Valid(s) && !Waits(s) && FreeWhenEmpty(s)
    ensures FreeWhenEmpty(Advance(s))
  {
    if !NeedsStartup(s) && 4 <= Rd32(s.input, 1) <= s.maxSize {
      Runs.MessageEffectIsGood(s.role, s.mem, s.input[0], s.input[5..1 + Rd32(s.input, 1)]);
    }
  }

  lemma StepFreesWhenEmpty(w: World, op: RelayOp)
    requires ValidWorld(w) && FreeWhenEmpty(w.client)
    ensures FreeWhenEmpty(StepWorld(w, op).client)
  {
    hide Drain;
    if op.Move? {
      var (c, s) := Passed(w.client, w.server);
      DrainFreesWhenEmpty(Append(c, TakeOutput(s, STEP_SIZE).0));
    }
  }

  /** The client has taken all its events before each step. */
  predicate EmptiesBeforeMoves(w: World, ops: seq<RelayOp>)
    requires ValidWorld(w)
    decreases |ops|
  {
    ops == []
    || ((ops[0].Move? ==> w.client.ring == []) && EmptiesBeforeMoves(StepWorld(w, ops[0]), ops[1..]))
  }

  /** The rows that each step moves down fit the arena, each step for itself. */
  predicate RowsFitPerMove(w: World, ops: seq<RelayOp>, ms: seq<Replies.BackendMsg>)
    requires ValidWorld(w) && forall i :: 0 <= i < |ms| ==> Replies.Fits(ms[i])
    decreases |ops|
  {
    ops == []
    || (var v := StepWorld(w, ops[0]);
        Replies.RowBytes(MovedBetween(w, v, ms)) <= 65536 && RowsFitPerMove(v, ops[1..], ms))
  }

  lemma {:induction false} PerMoveIsEnough(w: World, ops: seq<RelayOp>, ms: seq<Replies.BackendMsg>)
    requires ValidWorld(w) && FreeWhenEmpty(w.client) && forall i :: 0 <= i < |ms| ==> Replies.Fits(ms[i])
    requires EmptiesBeforeMoves(w, ops) && RowsFitPerMove(w, ops, ms)
    ensures EveryRowFits(w, ops, ms)
    decreases |ops|
  {
    hide StepWorld, MovedBetween, Replies.Fits;
    if ops != [] {
      var v := StepWorld(w, ops[0]);
      StepFreesWhenEmpty(w, ops[0]);
      PerMoveIsEnough(v, ops[1..], ms);
      if !ops[0].Move? {
        NothingMoved(w, ops[0], ms);
      }
    }
  }

  lemma NothingMoved(w: World, op: RelayOp, ms: seq<Replies.BackendMsg>)
    requires ValidWorld(w) && !op.Move? && forall i :: 0 <= i < |ms| ==> Replies.Fits(ms[i])
    ensures MovedBetween(w, StepWorld(w, op), ms) == [] && Replies.RowsFit(w.client, [])
  {
  }

  /**
   A client that takes all its events before each step receives every row as
   sent, however many there are, when the rows of each step fit the arena.
   */
  lemma RelayAnswersPerMove(w: World, ops: seq<RelayOp>, ms: seq<Replies.BackendMsg>)
    requires NewWorld(w) && Replies.AllReceivable(ms, w.client.maxSize)
    requires RunWorld(w, ops).sentDown == Replies.EncodeAll(ms)
    requires EmptiesBeforeMoves(w, ops) && RowsFitPerMove(w, ops, ms)
    ensures var r := RunWorld(w, ops);
            && r.client.log <= Replies.EventsOf(ms)
            && (r.server.output == [] ==> r.client.log == Replies.EventsOf(ms) && r.client.input == [])
  {
    hide Replies.EncodeAll, Replies.EventsOf, RunWorld, EveryRowFits, EmptiesBeforeMoves, RowsFitPerMove;
    PerMoveIsEnough(w, ops, ms);
    RelayAnswersIff(w, ops, ms);
  }

  // ---------- progress ----------

  /** As much as is asked for, or all there is, from the front. */
  lemma TakesAllItCan(s: State, n: nat)
    ensures var (data, r) := TakeOutput(s, n);
            && |data| == (if n <= |s.output| then n else |s.output|)
            && s.output == data + r.output
  {
  }

  function Moves(k: nat): (r: seq<RelayOp>)
    ensures |r| == k
  {
    if k == 0 then [] else [Move] + Moves(k - 1)
  }

  function Least(a: nat, b: nat): (r: nat) { if a < b then a else b }

  /** From `w` to `r` the first `n` bytes of each output were moved, or all there were. */
  ghost predicate MovedBy(w: World, r: World, n: nat) {
    var (a, b) := (Least(n, |w.client.output|), Least(n, |w.server.output|));
    && Concat(r.up) == Concat(w.up) + w.client.output[..a] && r.client.output == w.client.output[a..]
    && Concat(r.down) == Concat(w.down) + w.server.output[..b] && r.server.output == w.server.output[b..]
    && r.sentUp == w.sentUp && r.sentDown == w.sentDown
  }

  lemma MovedTwice(w: World, v: World, r: World, m: nat, n: nat)
    requires MovedBy(w, v, m) && MovedBy(v, r, n)
    ensures MovedBy(w, r, m + n)
  {
    hide Concat;
    PartsJoin(w.client.output, m, n);
    PartsJoin(w.server.output, m, n);
    var a, b := w.client.output, w.server.output;
    var i, j := Least(m, |a|), Least(m, |b|);
    Assoc(Concat(w.up), a[..i], a[i..][..Least(n, |a| - i)]);
    Assoc(Concat(w.down), b[..j], b[j..][..Least(n, |b| - j)]);
  }

  /** One step moves 4096 bytes each way, or all there are. */
  lemma MoveMoves(w: World)
    requires ValidWorld(w)
    ensures MovedBy(w, MoveWorld(w), 4096)
  {
    hide Feed;
    var (c, s) := Passed(w.client, w.server);
    PassKeepsOutput(w.client, w.server);
    PassKeepsOutput(s, c);
    ConcatSnoc(w.up, TakeOutput(w.client, STEP_SIZE).0);
    ConcatSnoc(w.down, TakeOutput(s, STEP_SIZE).0);
    Neutral(Concat(w.up));
    Neutral(Concat(w.down));
  }

  lemma NoMoveMoves(w: World)
    ensures MovedBy(w, w, 0)
  {
    Neutral(Concat(w.up));
    Neutral(Concat(w.down));
  }

  lemma RunMoves(w: World, k: nat)
    requires ValidWorld(w)
    ensures RunWorld(w, Moves(0)) == w
    ensures RunWorld(w, Moves(k + 1)) == RunWorld(MoveWorld(w), Moves(k))
  {
    hide MoveWorld;
    assert Moves(k + 1)[1..] == Moves(k);
  }

  /** Steps in a row move exactly what they have room for, in order. */
  lemma {:induction false} MovesMove(w: World, k: nat)
    requires ValidWorld(w)
    ensures MovedBy(w, RunWorld(w, Moves(k)), 4096 * k)
    decreases k
  {
    hide MoveWorld, MovedBy, RunWorld, Moves;
    if k == 0 {
      RunMoves(w, 0);
      NoMoveMoves(w);
    } else {
      RunMoves(w, k - 1);
      MoveMoves(w);
      MovesMove(MoveWorld(w), k - 1);
      MovedTwice(w, MoveWorld(w), RunWorld(w, Moves(k)), 4096, 4096 * (k - 1));
    }
  }

  lemma PartsJoin(s: Bytes, m: nat, n: nat)
    ensures var i := Least(m, |s|);
            var j := Least(n, |s| - i);
            var k := Least(m + n, |s|);
            s[..i] + s[i..][..j] == s[..k] && s[i..][j..] == s[k..]
  {
  }

  lemma {:induction false} RunAppend(w: World, a: seq<RelayOp>, b: seq<RelayOp>)
    requires ValidWorld(w)
    ensures RunWorld(w, a + b) == RunWorld(RunWorld(w, a), b)
    decreases |a|
  {
    hide StepWorld;
    if a == [] {
      Neutral(b);
    } else {
      assert (a + b)[0] == a[0] && (a + b)[1..] == a[1..] + b;
      RunAppend(StepWorld(w, a[0]), a[1..], b);
    }
  }

  /** After any run, enough steps deliver everything that was sent to the server. */
  lemma RelayDeliversAtLast(w: World, ops: seq<RelayOp>, k: nat, user: Bytes, database: Bytes, ms: seq<FrontendMsg>)
    requires NewWorld(w) && NulFree(user) && NulFree(database)
    requires |StartupPacket(user, database)| <= w.server.maxSize && |StartupPacket(user, database)| < TWO_TO_THE_32
    requires AllReceivable(ms, w.server.maxSize)
    requires RunWorld(w, ops).sentUp == StartupPacket(user, database) + EncodeAll(ms)
    requires |RunWorld(w, ops).client.output| <= 4096 * k
    ensures var r := RunWorld(w, ops + Moves(k));
            r.server.log == [StartupEvent(user, database)] + EventsOf(ms) && r.server.input == [] && r.client.output == []
  {
    hide RunWorld, StartupPacket, EncodeAll, EventsOf, AllReceivable, Moves;
    RunAppend(w, ops, Moves(k));
    MovesMove(RunWorld(w, ops), k);
    RelayDelivers(w, ops + Moves(k), user, database, ms);
  }

  /** And everything that was sent to the client, as sent when its rows fitted. */
  lemma RelayAnswersAtLast(w: World, ops: seq<RelayOp>, k: nat, ms: seq<Replies.BackendMsg>)
    requires NewWorld(w) && Replies.AllReceivable(ms, w.client.maxSize)
    requires RunWorld(w, ops).sentDown == Replies.EncodeAll(ms)
    requires |RunWorld(w, ops).server.output| <= 4096 * k
    ensures var r := RunWorld(w, ops + Moves(k));
            && r.server.output == [] && r.client.input == [] && |r.client.log| == |ms|
            && (r.client.log == Replies.EventsOf(ms) <==> EveryRowFits(w, ops + Moves(k), ms))
            && (Replies.RowBytes(ms) <= 65536 ==> r.client.log == Replies.EventsOf(ms))
  {
    hide RunWorld, Replies.EncodeAll, Replies.EventsOf, Moves, EveryRowFits, Replies.RowBytes;
    RunAppend(w, ops, Moves(k));
    MovesMove(RunWorld(w, ops), k);
    RelayAnswersIff(w, ops + Moves(k), ms);
    if Replies.RowBytes(ms) <= ROW_ARENA {
      RelayAnswers(w, ops + Moves(k), ms);
    }
  }
}
