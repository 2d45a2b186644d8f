/** Whole messages through the engine: what was sent is what is received. */
module Streams {
  import opened Wire
  import opened Messages
  import opened Parsers
  import opened Engine

  // ---------- one message ----------

  /** The event a frontend message becomes; long strings are cut to the event fields. */
  function EventOf(m: FrontendMsg): (r: Event)
    requires Encodable(m)
  {
    match m
    case QueryMsg(sql) => Query(Truncated(sql, MAX_QUERY))
    case ParseMsg(p) =>
      ParseEvent(Parse(Truncated(p.statement, MAX_NAME), Truncated(p.query, MAX_QUERY),
                       p.paramTypes[..Min(|p.paramTypes|, MAX_PARAM_TYPES)]))
    case BindMsg(portal, statement, fs, ps, rs) => BindEvent(BindMeaning(portal, statement, fs, ps, rs))
    case DescribeMsg(target, name) => Describe(target, Truncated(name, MAX_NAME))
    case ExecuteMsg(portal, maxRows) => Execute(Truncated(portal, MAX_NAME), maxRows)
    case CloseMsg(target, name) => Close(target, Truncated(name, MAX_NAME))
    case SyncMsg => Sync
    case FlushMsg => Flush
    case TerminateMsg => Terminate
  }

  /** A message the receiver takes as a whole: not oversized, no array beyond the fixed limits. */
  predicate Receivable(m: FrontendMsg, maxSize: nat) {
    && Encodable(m)
    && |Body(m)| + 4 <= maxSize && |Body(m)| + 4 < TWO_TO_THE_32
    && (m.BindMsg? ==> |m.formats| <= MAX_BIND_PARAMS && |m.params| <= MAX_BIND_PARAMS
                       && |m.resultFormats| <= MAX_BIND_PARAMS)
  }

  lemma ParseIsRead(p: Parse)
    requires Encodable(ParseMsg(p))
    ensures FrontendEmission(PARSE, Body(ParseMsg(p))) == Plainly(EventOf(ParseMsg(p)))
  {
    ParseRoundTrip(p);
  }

  lemma BindIsRead(m: FrontendMsg, maxSize: nat)
    requires m.BindMsg? && Receivable(m, maxSize)
    ensures FrontendEmission(BIND, Body(m)) == Plainly(EventOf(m))
  {
    BindRoundTrip(m.portal, m.statement, m.formats, m.params, m.resultFormats);
  }

  lemma NamedIsRead(target: byte, name: Bytes)
    requires NulFree(name)
    ensures FrontendEmission(DESCRIBE, NamedBody(target, name)) == Plainly(Describe(target, Truncated(name, MAX_NAME)))
    ensures FrontendEmission(CLOSE, NamedBody(target, name)) == Plainly(Close(target, Truncated(name, MAX_NAME)))
  {
    NamedRoundTrip(target, name);
  }

  lemma ExecuteIsRead(portal: Bytes, maxRows: u32)
    requires NulFree(portal)
    ensures FrontendEmission(EXECUTE, ExecuteBody(portal, maxRows))
            == Plainly(Execute(Truncated(portal, MAX_NAME), maxRows))
  {
    ExecuteRoundTrip(portal, maxRows);
  }

  lemma FrontendRoundTrip(mem: Memory, m: FrontendMsg, maxSize: nat)
    requires Receivable(m, maxSize)
    ensures var e := FrontendEffect(mem, Tag(m), Body(m)).0;
            e.Some? && e.value.event == EventOf(m)
  {
    match m
    case QueryMsg(sql) => CstrRoundTrip(sql);
    case ParseMsg(p) => ParseIsRead(p);
    case BindMsg(_, _, _, _, _) => BindIsRead(m, maxSize);
    case DescribeMsg(target, name) => NamedIsRead(target, name);
    case ExecuteMsg(portal, maxRows) => ExecuteIsRead(portal, maxRows);
    case CloseMsg(target, name) => NamedIsRead(target, name);
    case SyncMsg =>
    case FlushMsg =>
    case TerminateMsg =>
  }

  /**
   A row of at most 16 columns is received whole, NULL apart from empty, exactly
   when it fits the free arena; otherwise some value turns into NULL.
   */
  lemma DataRowRoundTripIff(mem: Memory, ps: seq<Param>)
    requires ValidMemory(mem) && |ps| <= MAX_ROW_COLUMNS && AllPresent(ps)
    ensures var (e, mem') := BackendEffect(mem, DATA_ROW, DataRowBody(ps));
            var fits := mem.used + TotalSize(ColumnValues(ps)) <= ROW_ARENA;
            && e.Some? && e.value.event.DataRow?
            && (e.value.event == DataRow(ColumnValues(ps)) <==> fits)
            && (fits ==> mem'.used == mem.used + TotalSize(ColumnValues(ps)))
  {
    var body, values := DataRowBody(ps), ColumnValues(ps);
    SentRowIsTaken(ps);
    PlaceKeepsAllIff(values, mem.arena, mem.used);
    RowIsPlaced(mem, body);
    hide BackendEffect, DataRowBody, ColumnValues, Place, TakeValues, Rd16;
  }

  lemma SentRowIsTaken(ps: seq<Param>)
    requires |ps| <= MAX_ROW_COLUMNS && AllPresent(ps)
    ensures var body := DataRowBody(ps);
            |body| >= 2 && TakeValues(body[2..], Min(Rd16(body, 0), MAX_ROW_COLUMNS)) == ColumnValues(ps)
  {
    hide TakeValues, ColumnValues, PutParams;
    RdWr16(|ps|, PutParams(ps));
    TakePutValues(ps);
  }

  lemma RowIsPlaced(mem: Memory, body: Bytes)
    requires ValidMemory(mem) && |body| >= 2
    ensures var row := Place(TakeValues(body[2..], Min(Rd16(body, 0), MAX_ROW_COLUMNS)), mem.arena, mem.used);
            var (e, mem') := BackendEffect(mem, DATA_ROW, body);
            e == Some(Emission(RowSlot(row.slices), DataRow(row.values))) && mem'.used == row.used
  {
    hide Place, TakeValues, Rd16;
  }

  lemma RowDescriptionRoundTrip(mem: Memory, cs: seq<Column>)
    requires ValidMemory(mem) && |cs| <= MAX_ROW_COLUMNS
    requires forall j :: 0 <= j < |cs| ==> |cs[j].name| < MAX_NAME && NulFree(cs[j].name)
    ensures var e := BackendEffect(mem, ROW_DESCRIPTION, RowDescriptionBody(cs)).0;
            e.Some? && e.value.event == RowDescription(cs)
  {
    RdWr16(|cs|, PutColumns(cs));
    TakePutColumns(cs);
  }

  /** Of more than 16 columns the first 16 arrive, with names of at most 63 bytes. */
  lemma LongRowDescriptionIsCut(mem: Memory, cs: seq<Column>)
    requires ValidMemory(mem) && |cs| < 0x1_0000 && NamesAreStrings(cs)
    ensures var e := BackendEffect(mem, 84, RowDescriptionBody(cs)).0;
            e.Some? && e.value.event == RowDescription(AllReceived(cs[..if |cs| <= 16 then |cs| else 16]))
  {
    hide PutColumns, TakeColumns, AllReceived;
    RdWr16(|cs|, PutColumns(cs));
    TakePutSomeColumns(cs, Min(|cs|, 16));
  }

  /** Of more than 16 values the first 16 are taken from the row. */
  lemma LongRowIsCut(mem: Memory, ps: seq<Param>)
    requires ValidMemory(mem) && |ps| < 0x1_0000 && AllPresent(ps)
    ensures var n := if |ps| <= 16 then |ps| else 16;
            var e := BackendEffect(mem, 68, DataRowBody(ps)).0;
            && e.Some? && e.value.event.DataRow? && |e.value.event.values| == n
            && (mem.used + TotalSize(ColumnValues(ps)[..n]) <= 65536 ==>
                  e.value.event == DataRow(ColumnValues(ps)[..n]))
  {
    var body, n := DataRowBody(ps), Min(|ps|, 16);
    SomeOfRowIsTaken(ps);
    PlaceKeepsAllIff(ColumnValues(ps)[..n], mem.arena, mem.used);
    RowIsPlaced(mem, body);
    hide BackendEffect, DataRowBody, ColumnValues, Place, TakeValues, Rd16;
  }

  lemma SomeOfRowIsTaken(ps: seq<Param>)
    requires |ps| < 0x1_0000 && AllPresent(ps)
    ensures var body := DataRowBody(ps);
            |body| >= 2 && TakeValues(body[2..], Min(Rd16(body, 0), MAX_ROW_COLUMNS)) == ColumnValues(ps)[..Min(|ps|, 16)]
  {
    hide TakeValues, ColumnValues, PutParams;
    RdWr16(|ps|, PutParams(ps));
    TakePutSomeValues(ps, Min(|ps|, 16));
  }

  lemma ErrorResponseRoundTrip(mem: Memory, severity: Bytes, code: Bytes, message: Bytes)
    requires ValidMemory(mem) && NulFree(severity) && NulFree(code) && NulFree(message)
    ensures BackendEffect(mem, ERROR_RESPONSE, ErrorBody(severity, code, message)).0
            == Plainly(ErrorResponse(PqError(if |severity| <= 31 then severity else severity[..31],
                                             if |code| <= 7 then code else code[..7],
                                             if |message| <= 255 then message else message[..255], [], [])))
  {
    ErrorRoundTrip(severity, code, message);
  }

  // ---------- one frame at the front of the input ----------

  lemma FrameParts(tag: byte, body: Bytes, rest: Bytes)
    requires |body| + 4 < TWO_TO_THE_32
    ensures var b := Frame(tag, body) + rest;
            && |b| == 5 + |body| + |rest| && b[0] == tag && Rd32(b, 1) == |body| + 4
            && b[5..5 + |body|] == body && b[5 + |body|..] == rest
  {
    hide Wr32;
    var word := Wr32(|body| + 4);
    var b := Frame(tag, body) + rest;
    assert b == [tag] + (word + (body + rest));
    RdWr32(|body| + 4, body + rest);
    assert b[1..] == word + (body + rest);
    assert Rd32(b, 1) == Rd32(b[1..], 0);
  }

  lemma FrameIsTaken(s: State, tag: byte, body: Bytes, rest: Bytes)
    requires Valid(s) && !NeedsStartup(s) && s.input == Frame(tag, body) + rest
    requires |body| + 4 <= s.maxSize && |body| + 4 < TWO_TO_THE_32
    ensures !Waits(s) && HeaderInRange(s)
    ensures Advance(s) == Handle(s, tag, body).(input := rest)
  {
    hide Handle, HandleStartup;
    FrameParts(tag, body, rest);
  }

  /** One row is fed to a client that has nothing buffered: it is logged as sent exactly when it fits. */
  lemma FedRowIff(s: State, ps: seq<Param>)
    requires Valid(s) && s.role == Client && s.input == []
    requires |ps| <= MAX_ROW_COLUMNS && AllPresent(ps)
    requires |DataRowBody(ps)| + 4 <= s.maxSize && |DataRowBody(ps)| + 4 < TWO_TO_THE_32
    ensures Feed(s, Frame(68, DataRowBody(ps))).log == s.log + [DataRow(ColumnValues(ps))]
            <==> s.mem.used + TotalSize(ColumnValues(ps)) <= 65536
  {
    hide MessageEffect, BackendEffect, DataRowBody, ColumnValues;
    var body := DataRowBody(ps);
    var t := Append(s, Frame(68, body));
    Neutral(Frame(68, body));
    FrameIsTaken(t, 68, body, []);
    DataRowRoundTripIff(s.mem, ps);
    var u := Advance(t);
    RowLogged(s, body);
    assert Waits(u) && Drain(t) == u;
    var e := BackendEffect(s.mem, DATA_ROW, body).0.value.event;
    assert (s.log + [e])[|s.log|] == e;
    assert (s.log + [DataRow(ColumnValues(ps))])[|s.log|] == DataRow(ColumnValues(ps));
  }

  lemma RowLogged(s: State, body: Bytes)
    requires Valid(s) && s.role == Client && BackendEffect(s.mem, DATA_ROW, body).0.Some?
    ensures forall input :: Handle(s.(input := input), 68, body).log
                            == s.log + [BackendEffect(s.mem, DATA_ROW, body).0.value.event]
  {
    hide BackendEffect;
  }

  /** Dequeuing the last event makes room for a row of the whole arena, in any state. */
  lemma RowAfterEmptying(s: State, ps: seq<Param>)
    requires Valid(s) && s.role == Client && s.input == [] && |s.ring| == 1
    requires |ps| <= MAX_ROW_COLUMNS && AllPresent(ps) && TotalSize(ColumnValues(ps)) <= 65536
    requires |DataRowBody(ps)| + 4 <= s.maxSize && |DataRowBody(ps)| + 4 < TWO_TO_THE_32
    ensures Feed(Dequeue(s).1, Frame(68, DataRowBody(ps))).log == s.log + [DataRow(ColumnValues(ps))]
  {
    hide DataRowBody, ColumnValues, Feed;
    FedRowIff(Dequeue(s).1, ps);
  }

  /** A reset does not: what the arena had in use before it is still missing. */
  lemma RowAfterResetIff(s: State, ps: seq<Param>)
    requires Valid(s) && s.role == Client
    requires |ps| <= MAX_ROW_COLUMNS && AllPresent(ps)
    requires |DataRowBody(ps)| + 4 <= s.maxSize && |DataRowBody(ps)| + 4 < TWO_TO_THE_32
    ensures Feed(Reset(s), Frame(68, DataRowBody(ps))).log == s.log + [DataRow(ColumnValues(ps))]
            <==> s.mem.used + TotalSize(ColumnValues(ps)) <= 65536
  {
    hide DataRowBody, ColumnValues, Feed;
    FedRowIff(Reset(s), ps);
  }

  lemma PacketParts(body: Bytes, rest: Bytes)
    requires |body| + 4 < TWO_TO_THE_32
    ensures var b := Wr32(|body| + 4) + body + rest;
            && |b| == 4 + |body| + |rest| && Rd32(b, 0) == 4 + |body|
            && b[4..4 + |body|] == body && b[4 + |body|..] == rest
  {
    hide Wr32;
    var b := Wr32(|body| + 4) + body + rest;
    Assoc(Wr32(|body| + 4), body, rest);
    RdWr32(|body| + 4, body + rest);
    assert b[4..4 + |body|] == b[4..][..|body|];
    assert b[4 + |body|..] == b[4..][|body|..];
  }

  lemma PacketIsTaken(s: State, body: Bytes, rest: Bytes)
    requires Valid(s) && NeedsStartup(s) && 4 <= |body| && |body| + 4 < TWO_TO_THE_32
    requires |body| + 4 <= s.maxSize && s.input == Wr32(|body| + 4) + body + rest
    ensures !Waits(s) && HeaderInRange(s)
    ensures Advance(s) == HandleStartup(s, body).(input := rest)
  {
    hide HandleStartup, Handle;
    PacketParts(body, rest);
  }

  lemma BodyHasVersion(user: Bytes, database: Bytes)
    ensures |StartupBody(user, database)| >= 4
  {
  }

  lemma PacketShape(user: Bytes, database: Bytes)
    requires |StartupPacket(user, database)| < TWO_TO_THE_32
    ensures var body := StartupBody(user, database);
            && |body| >= 4 && |StartupPacket(user, database)| == |body| + 4
            && StartupPacket(user, database) == Wr32(|body| + 4) + body
  {
    BodyHasVersion(user, database);
    hide StartupBody, Wr32;
  }

  lemma StartupIsTaken(s: State, user: Bytes, database: Bytes, rest: Bytes)
    requires Valid(s) && NeedsStartup(s) && s.input == StartupPacket(user, database) + rest
    requires |StartupPacket(user, database)| <= s.maxSize && |StartupPacket(user, database)| < TWO_TO_THE_32
    ensures !Waits(s) && HeaderInRange(s)
    ensures Advance(s) == HandleStartup(s, StartupBody(user, database)).(input := rest)
  {
    hide HandleStartup, Advance, Waits, StartupBody, StartupPacket, HeaderInRange;
    PacketShape(user, database);
    PacketIsTaken(s, StartupBody(user, database), rest);
  }

  // ---------- streams of frontend messages ----------

  predicate AllReceivable(ms: seq<FrontendMsg>, maxSize: nat) {
    forall i :: 0 <= i < |ms| ==> Receivable(ms[i], maxSize)
  }

  function EncodeAll(ms: seq<FrontendMsg>): (r: Bytes)
    requires forall i :: 0 <= i < |ms| ==> Encodable(ms[i])
  {
    if ms == [] then [] else Encode(ms[0]) + EncodeAll(ms[1..])
  }

  function EventsOf(ms: seq<FrontendMsg>): (r: seq<Event>)
    requires forall i :: 0 <= i < |ms| ==> Encodable(ms[i])
  {
    if ms == [] then [] else [EventOf(ms[0])] + EventsOf(ms[1..])
  }

  lemma MessageIsTaken(s: State, m: FrontendMsg, rest: Bytes)
    requires Valid(s) && s.role == Server && s.started
    requires Receivable(m, s.maxSize) && s.input == Encode(m) + rest
    ensures !Waits(s) && HeaderInRange(s)
    ensures Advance(s).input == rest && Advance(s).log == s.log + [EventOf(m)]
    ensures Advance(s).started && Advance(s).role == Server && Advance(s).maxSize == s.maxSize
  {
    FrameIsTaken(s, Tag(m), Body(m), rest);
    FrontendRoundTrip(s.mem, m, s.maxSize);
  }

  /** A started server reads a stream of messages as their events, one for one. */
  lemma {:induction false} StreamIsRead(s: State, ms: seq<FrontendMsg>)
    requires Valid(s) && s.role == Server && s.started
    requires AllReceivable(ms, s.maxSize) && s.input == EncodeAll(ms)
    ensures HeadersInRange(s)
    ensures Drain(s).log == s.log + EventsOf(ms) && Drain(s).input == []
    decreases |ms|
  {
    if ms == [] {
      Neutral(s.log);
    } else {
      var rest := EncodeAll(ms[1..]);
      MessageIsTaken(s, ms[0], rest);
      var t := Advance(s);
      assert |t.input| < |s.input|;
      StreamIsRead(t, ms[1..]);
      Assoc(s.log, [EventOf(ms[0])], EventsOf(ms[1..]));
    }
  }

  /** User and database as they arrive, at most 127 bytes of each. */
  function StartupEvent(user: Bytes, database: Bytes): (r: Event) {
    Startup(if |user| <= 127 then user else user[..127], if |database| <= 127 then database else database[..127])
  }

  /** A new server reads the startup packet and then the messages. */
  lemma SessionIsRead(s: State, user: Bytes, database: Bytes, ms: seq<FrontendMsg>)
    requires Valid(s) && NeedsStartup(s) && NulFree(user) && NulFree(database)
    requires |StartupPacket(user, database)| <= s.maxSize && |StartupPacket(user, database)| < TWO_TO_THE_32
    requires AllReceivable(ms, s.maxSize)
    requires s.input == StartupPacket(user, database) + EncodeAll(ms)
    ensures HeadersInRange(s)
    ensures Drain(s).log == s.log + [StartupEvent(user, database)] + EventsOf(ms) && Drain(s).input == []
  {
    StartupIsTaken(s, user, database, EncodeAll(ms));
    StartupIsLogged(s, user, database);
    var t := Advance(s);
    hide HandleStartup, StartupBody, StartupPacket, StartupEvent, Waits, EncodeAll, EventsOf, Receivable, Advance;
    StreamIsRead(t, ms);
  }

  lemma StartupIsLogged(s: State, user: Bytes, database: Bytes)
    requires Valid(s) && NulFree(user) && NulFree(database)
    ensures var r := HandleStartup(s, StartupBody(user, database));
            && r.log == s.log + [StartupEvent(user, database)] && r.started
            && r.role == s.role && r.maxSize == s.maxSize
  {
    hide ParseStartup, StartupBody;
    StartupRoundTrip(user, database);
  }

  // ---------- the unnamed pipeline at its receiver ----------

  lemma UnnamedPipelineIsRead(s: State, parse: FrontendMsg, bind: FrontendMsg, maxRows: u32)
    requires Valid(s) && s.role == Server && s.started && s.input == [] && s.maxSize >= 9
    requires parse.ParseMsg? && bind.BindMsg? && Receivable(parse, s.maxSize) && Receivable(bind, s.maxSize)
    ensures var r := Feed(s, Encode(parse) + Encode(bind) + Encode(ExecuteMsg([], maxRows)) + Encode(SyncMsg));
            && r.input == []
            && r.log == s.log + [EventOf(parse), EventOf(bind), Execute([], maxRows), Sync]
  {
    var execute := ExecuteMsg([], maxRows);
    assert Receivable(execute, s.maxSize) && Receivable(SyncMsg, s.maxSize);
    hide Encode, EncodeAll, EventsOf, Receivable;
    var ms := [parse, bind, execute, SyncMsg];
    AllFour(parse, bind, execute, SyncMsg, s.maxSize);
    FourMessages(parse, bind, execute, SyncMsg);
    Neutral(EncodeAll(ms));
    StreamIsRead(Append(s, EncodeAll(ms)), ms);
  }

  lemma OneMore(m: FrontendMsg, ms: seq<FrontendMsg>)
    requires Encodable(m) && forall i :: 0 <= i < |ms| ==> Encodable(ms[i])
    ensures EncodeAll([m] + ms) == Encode(m) + EncodeAll(ms)
    ensures EventsOf([m] + ms) == [EventOf(m)] + EventsOf(ms)
  {
    assert ([m] + ms)[1..] == ms;
  }

  lemma AllFour(m1: FrontendMsg, m2: FrontendMsg, m3: FrontendMsg, m4: FrontendMsg, maxSize: nat)
    requires Receivable(m1, maxSize) && Receivable(m2, maxSize)
    requires Receivable(m3, maxSize) && Receivable(m4, maxSize)
    ensures AllReceivable([m1, m2, m3, m4], maxSize)
  {
    hide Receivable;
  }

  lemma FourMessages(m1: FrontendMsg, m2: FrontendMsg, m3: FrontendMsg, m4: FrontendMsg)
    requires Encodable(m1) && Encodable(m2) && Encodable(m3) && Encodable(m4)
    ensures EncodeAll([m1, m2, m3, m4]) == Encode(m1) + Encode(m2) + Encode(m3) + Encode(m4)
    ensures EventsOf([m1, m2, m3, m4]) == [EventOf(m1), EventOf(m2), EventOf(m3), EventOf(m4)]
  {
    hide Encode, EventOf;
    var a, b, c, d := Encode(m1), Encode(m2), Encode(m3), Encode(m4);
    assert [m1] + ([m2] + ([m3] + ([m4] + []))) == [m1, m2, m3, m4];
    OneMore(m4, []);
    OneMore(m3, [m4] + []);
    OneMore(m2, [m3] + ([m4] + []));
    OneMore(m1, [m2] + ([m3] + ([m4] + [])));
    Neutral(d);
    Assoc(b, c, d);
    Assoc(a, b + c, d);
    Assoc(a, b, c);
  }

  // ---------- the statement cache entry of a Parse event ----------

  datatype PreparedStmt = PreparedStmt(name: Bytes, query: Bytes, paramTypes: seq<u32>, identitySlot: int)

  function PreparedFromParse(p: Parse): (r: PreparedStmt) {
    PreparedStmt(Truncated(p.statement, MAX_NAME), Truncated(p.query, MAX_QUERY),
                 p.paramTypes[..Min(|p.paramTypes|, MAX_PARAM_TYPES)], -1)
  }

  /** An entry made from a received Parse keeps all that was received. */
  lemma PreparedKeepsParsed(body: Bytes)
    requires ParseParse(body).Some?
    ensures var p := ParseParse(body).value;
            PreparedFromParse(p) == PreparedStmt(p.statement, p.query, p.paramTypes, -1)
  {
    var p := ParseParse(body).value;
    assert p.paramTypes[..|p.paramTypes|] == p.paramTypes;
  }
}
