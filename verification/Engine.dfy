/**
 The context as a value, and what feeding bytes to it means: peel one frame
 off the front of the buffered input, let the handler of its type record at
 most one event, go on until no whole frame is left.
 */
module Engine {
  import opened Wire
  import opened Messages
  import opened Parsers

  // ---------- the state ----------

  datatype Role = Client | Server
  datatype Phase = StartupPhase | Authenticating | Ready | Querying | ErrorPhase
  datatype Auth = NotAuthenticated | AuthDone

  /**
   What a queue entry holds. Startup, Query, CommandComplete and RowDescription
   entries only point at the scratch areas of the context, DataRow entries only
   at its row arena.
   */
  datatype Slot =
    | Plain(event: Event)
    | StartupSlot
    | QuerySlot
    | TagSlot
    | ColumnsSlot(count: nat)
    | RowSlot(slices: seq<Option<Slice>>)

  datatype Emission = Emission(slot: Slot, event: Event)

  /** What one RowDescription wrote: complete columns, and the name of one that was cut off. */
  datatype ColumnWrite = ColumnWrite(columns: seq<Column>, cut: Option<Bytes>)

  /** `writes` is every write ever made to the columns. */
  datatype Scratch = Scratch(user: Bytes, database: Bytes, sql: Bytes, tag: Bytes, columns: seq<Column>,
                             writes: seq<ColumnWrite>)

  /** The part of the context that message handlers write. */
  datatype Memory = Memory(scratch: Scratch, arena: Bytes, used: nat, auth: Auth, phase: Phase)

  predicate ValidMemory(m: Memory) {
    m.used <= |m.arena| == ROW_ARENA && |m.scratch.columns| == MAX_ROW_COLUMNS
  }

  /**
   `log` is every event ever queued, with the payload parsed for it, and
   `epoch` is how many of them are older than the last reset.
   */
  datatype State = State(role: Role, queueSize: nat, maxSize: nat, input: Bytes, output: Bytes,
                         ring: seq<Slot>, started: bool, mem: Memory, log: seq<Event>, epoch: nat)

  predicate Valid(s: State) {
    && s.queueSize > 0
    && |s.ring| <= s.queueSize
    && s.epoch + |s.ring| <= |s.log|
    && ValidMemory(s.mem)
  }

  const EmptyColumn := Column([], 0, 0)

  ghost predicate Cleared(cols: seq<Column>) {
    forall c :: 0 <= c < |cols| ==> cols[c] == EmptyColumn
  }

  ghost predicate Initial(s: State) {
    && Valid(s) && s.input == [] && s.output == [] && s.ring == [] && !s.started && s.log == []
    && Cleared(s.mem.scratch.columns) && s.mem.scratch.writes == []
    && s.epoch == 0 && s.mem.used == 0 && s.mem.auth == NotAuthenticated && s.mem.phase == StartupPhase
  }

  // ---------- the queue ----------

  /** A full queue gives up its oldest entry. */
  function Push<T>(ring: seq<T>, size: nat, x: T): (r: seq<T>)
    requires size > 0
  {
    (if |ring| >= size then ring[1..] else ring) + [x]
  }

  function Emit(s: State, e: Emission): (r: State)
    requires Valid(s)
    ensures Valid(r)
  {
    s.(ring := Push(s.ring, s.queueSize, e.slot), log := s.log + [e.event])
  }

  function Apply(s: State, effect: (Option<Emission>, Memory)): (r: State)
    requires Valid(s) && ValidMemory(effect.1)
    ensures Valid(r)
  {
    var s' := s.(mem := effect.1);
    match effect.0
    case None => s'
    case Some(e) => Emit(s', e)
  }

  // ---------- the handlers ----------

  function Plainly(ev: Event): (r: Option<Emission>) { Some(Emission(Plain(ev), ev)) }

  function StartupEffect(role: Role, m: Memory, body: Bytes): (r: (Option<Emission>, Memory)) {
    var (user, database) := ParseStartup(body);
    (Some(Emission(StartupSlot, Startup(user, database))),
     m.(scratch := m.scratch.(user := user, database := database),
        phase := if role == Server then Authenticating else m.phase))
  }

  function QueryEffect(m: Memory, body: Bytes): (r: (Option<Emission>, Memory)) {
    var sql := Truncated(CstrOrEmpty(body), MAX_QUERY);
    (Some(Emission(QuerySlot, Query(sql))), m.(scratch := m.scratch.(sql := sql), phase := Querying))
  }

  function FrontendEmission(tag: byte, body: Bytes): (r: Option<Emission>)
    requires tag != QUERY
  {
    if tag == PARSE then
      match ParseParse(body) case None => None case Some(p) => Plainly(ParseEvent(p))
    else if tag == BIND then
      match ParseBind(body) case None => None case Some(b) => Plainly(BindEvent(b))
    else if tag == DESCRIBE then
      match ParseNamed(body) case None => None case Some((t, name)) => Plainly(Describe(t, name))
    else if tag == EXECUTE then
      match ParseExecute(body) case None => None case Some((portal, n)) => Plainly(Execute(portal, n))
    else if tag == CLOSE then
      match ParseNamed(body) case None => None case Some((t, name)) => Plainly(Close(t, name))
    else if tag == SYNC then Plainly(Sync)
    else if tag == FLUSH then Plainly(Flush)
    else if tag == TERMINATE then Plainly(Terminate)
    else None
  }

  function FrontendEffect(m: Memory, tag: byte, body: Bytes): (r: (Option<Emission>, Memory)) {
    if tag == QUERY then QueryEffect(m, body) else (FrontendEmission(tag, body), m)
  }

  function RowDescriptionEffect(m: Memory, body: Bytes): (r: (Option<Emission>, Memory))
    requires ValidMemory(m)
    ensures ValidMemory(r.1)
  {
    if |body| < 2 then (None, m)
    else
      var (cs, cut) := TakeColumns(body[2..], Min(Rd16(body, 0), MAX_ROW_COLUMNS));
      (Some(Emission(ColumnsSlot(|cs|), RowDescription(cs))),
       m.(scratch := m.scratch.(columns := Overwritten(m.scratch.columns, cs, cut),
                                writes := m.scratch.writes + [ColumnWrite(cs, cut)])))
  }

  function DataRowEffect(m: Memory, body: Bytes): (r: (Option<Emission>, Memory))
    requires ValidMemory(m)
    ensures ValidMemory(r.1)
  {
    if |body| < 2 then (None, m)
    else
      var row := Place(TakeValues(body[2..], Min(Rd16(body, 0), MAX_ROW_COLUMNS)), m.arena, m.used);
      (Some(Emission(RowSlot(row.slices), DataRow(row.values))), m.(arena := row.arena, used := row.used))
  }

  function CommandCompleteEffect(m: Memory, body: Bytes): (r: (Option<Emission>, Memory)) {
    var tag := Truncated(CstrOrEmpty(body), MAX_TAG);
    (Some(Emission(TagSlot, CommandComplete(tag))), m.(scratch := m.scratch.(tag := tag), phase := Ready))
  }

  function BackendEmission(tag: byte, body: Bytes): (r: Option<Emission>) {
    if tag == READY_FOR_QUERY then Plainly(ReadyForQuery)
    else if tag == ERROR_RESPONSE then Plainly(ErrorResponse(ParseErrorFields(body, NoError)))
    else if tag == PARSE_COMPLETE then Plainly(ParseComplete)
    else if tag == BIND_COMPLETE then Plainly(BindComplete)
    else if tag == CLOSE_COMPLETE then Plainly(CloseComplete)
    else if tag == NO_DATA then Plainly(NoData)
    else if tag == PORTAL_SUSPENDED then Plainly(PortalSuspended)
    else if tag == PARAMETER_STATUS then Plainly(ParameterStatus(body))
    else if tag == NOTICE_RESPONSE then Plainly(NoticeResponse)
    else if tag == NOTIFICATION then
      match ParseNotification(body)
      case None => None
      case Some((pid, channel, payload)) => Plainly(Notification(pid, channel, payload))
    else None
  }

  function BackendEffect(m: Memory, tag: byte, body: Bytes): (r: (Option<Emission>, Memory))
    requires ValidMemory(m)
    ensures ValidMemory(r.1)
  {
    if tag == AUTHENTICATION then
      if |body| >= 4 && Rd32(body, 0) == 0
      then (Plainly(AuthenticationOk), m.(auth := AuthDone))
      else (None, m)
    else if tag == ROW_DESCRIPTION then RowDescriptionEffect(m, body)
    else if tag == DATA_ROW then DataRowEffect(m, body)
    else if tag == COMMAND_COMPLETE then CommandCompleteEffect(m, body)
    else (BackendEmission(tag, body), if tag == READY_FOR_QUERY then m.(phase := Ready) else m)
  }

  function MessageEffect(role: Role, m: Memory, tag: byte, body: Bytes): (r: (Option<Emission>, Memory))
    requires ValidMemory(m)
    ensures ValidMemory(r.1)
  {
    if role == Server then FrontendEffect(m, tag, body) else BackendEffect(m, tag, body)
  }

  function Handle(s: State, tag: byte, body: Bytes): (r: State)
    requires Valid(s)
    ensures Valid(r)
  {
    Apply(s, MessageEffect(s.role, s.mem, tag, body))
  }

  function HandleStartup(s: State, body: Bytes): (r: State)
    requires Valid(s)
    ensures Valid(r)
  {
    Apply(s, StartupEffect(s.role, s.mem, body)).(started := true)
  }

  function HandleBadHeader(s: State): (r: State)
    requires Valid(s)
    ensures Valid(r)
  {
    Emit(s, Emission(Plain(ProtocolError), ProtocolError))
  }

  // ---------- one turn of the feed loop ----------

  predicate NeedsStartup(s: State) { s.role == Server && !s.started }

  /** The loop stops here: the header or the frame behind it is not complete. */
  predicate Waits(s: State) {
    if NeedsStartup(s) then
      |s.input| < 4
      || (8 <= Rd32(s.input, 0) <= s.maxSize && |s.input| < Rd32(s.input, 0))
    else
      |s.input| < 5
      || (4 <= Rd32(s.input, 1) <= s.maxSize && |s.input| < 1 + Rd32(s.input, 1))
  }

  /** The number of bytes skipped behind a bad header is added up in 32 bits. */
  function Skip32(mlen: u32): (r: nat) { (1 + mlen) % TWO_TO_THE_32 }

  /**
   The buffer after its bytes from `1 + mlen` on were moved to its front and
   the length was lowered by the 32-bit skip.
   */
  function SkipBody(b: Bytes, mlen: u32): (r: Bytes)
    requires |b| >= 1 + mlen
  {
    var moved := b[1 + mlen..] + b[|b| - 1 - mlen..];
    moved[..|b| - Skip32(mlen)]
  }

  function Advance(s: State): (r: State)
    requires Valid(s) && !Waits(s)
    ensures Valid(r)
  {
    if NeedsStartup(s) then
      var mlen := Rd32(s.input, 0);
      if mlen < 8 || mlen > s.maxSize then HandleBadHeader(s).(input := [])
      else HandleStartup(s, s.input[4..mlen]).(input := s.input[mlen..])
    else
      var mlen := Rd32(s.input, 1);
      if mlen < 4 || mlen > s.maxSize then
        HandleBadHeader(s).(input :=
          if mlen > 0 && |s.input| >= 1 + mlen then SkipBody(s.input, mlen) else [])
      else Handle(s, s.input[0], s.input[5..1 + mlen]).(input := s.input[1 + mlen..])
  }

  /**
   Where the loop ends as long as every turn shortens the input. The loop itself
   goes on after the one turn that does not, see `Turns` and `HaltsIff`.
   */
  function Drain(s: State): (r: State)
    requires Valid(s)
    ensures Valid(r)
    decreases |s.input|
  {
    if Waits(s) then s
    else
      var s' := Advance(s);
      if |s'.input| < |s.input| then Drain(s') else s'
  }

  function Append(s: State, data: Bytes): (r: State)
    ensures Valid(s) ==> Valid(r)
  {
    s.(input := s.input + data)
  }

  function Feed(s: State, data: Bytes): (r: State)
    requires Valid(s)
    ensures Valid(r)
  {
    Drain(Append(s, data))
  }

  // ---------- the other operations ----------

  /** Draining the queue makes the row arena free again. */
  function Dequeue(s: State): (r: (Option<Slot>, State))
    requires Valid(s)
    ensures Valid(r.1)
  {
    if s.ring == [] then (None, s)
    else (Some(s.ring[0]),
          s.(ring := s.ring[1..], mem := if |s.ring| == 1 then s.mem.(used := 0) else s.mem))
  }

  function TakeOutput(s: State, n: nat): (r: (Bytes, State))
    ensures Valid(s) ==> Valid(r.1)
  {
    var k := Min(|s.output|, n);
    (s.output[..k], s.(output := s.output[k..]))
  }

  function Output(s: State, data: Bytes): (r: State)
    ensures Valid(s) ==> Valid(r)
  {
    s.(output := s.output + data)
  }

  function NoteReady(s: State): (r: State)
    ensures Valid(s) ==> Valid(r)
  {
    s.(mem := s.mem.(phase := Ready))
  }

  /** The used part of the row arena and the scratch areas survive a reset. */
  function Reset(s: State): (r: State)
    ensures Valid(s) ==> Valid(r)
  {
    s.(ring := [], output := [], input := [], started := false,
       mem := s.mem.(auth := NotAuthenticated, phase := StartupPhase), epoch := |s.log|)
  }

  // ---------- termination ----------

  /** The one header on which a turn leaves the length as it was. */
  predicate Wraps(s: State) {
    && !NeedsStartup(s) && |s.input| >= 5
    && Rd32(s.input, 1) == TWO_TO_THE_32 - 1 > s.maxSize
    && |s.input| >= TWO_TO_THE_32
  }

  /** A turn shortens the input exactly when its 32-bit skip does not wrap. */
  lemma TurnShrinksIff(s: State)
    requires Valid(s) && !Waits(s)
    ensures |Advance(s).input| < |s.input| <==> !Wraps(s)
  {
  }

  /** The loop after `n` turns, or where it stopped before. */
  function Turns(s: State, n: nat): (r: State)
    requires Valid(s)
    ensures Valid(r)
    decreases n
  {
    if n == 0 || Waits(s) then s else Turns(Advance(s), n - 1)
  }

  ghost predicate Halts(s: State)
    requires Valid(s)
  {
    exists n: nat :: Waits(Turns(s, n))
  }

  /** No turn up to the end of the loop wraps. */
  predicate NeverWraps(s: State)
    requires Valid(s)
    decreases |s.input|
  {
    Waits(s) || (|Advance(s).input| < |s.input| && NeverWraps(Advance(s)))
  }

  lemma {:induction false} SmallNeverWraps(s: State)
    requires Valid(s) && |s.input| < TWO_TO_THE_32
    ensures NeverWraps(s)
    decreases |s.input|
  {
    if !Waits(s) {
      TurnShrinksIff(s);
      SmallNeverWraps(Advance(s));
    }
  }

  /** Then the loop ends, and `Drain` is where. */
  lemma {:induction false} DrainIsLoop(s: State) returns (n: nat)
    requires Valid(s) && NeverWraps(s)
    ensures Waits(Turns(s, n)) && Drain(s) == Turns(s, n)
    decreases |s.input|
  {
    n := 0;
    if !Waits(s) {
      n := DrainIsLoop(Advance(s));
      n := n + 1;
    }
  }

  lemma {:induction false} HaltsAfterTurn(s: State)
    requires Valid(s) && !Waits(s)
    ensures Halts(s) <==> Halts(Advance(s))
  {
    if Halts(s) {
      var n: nat :| Waits(Turns(s, n));
      assert n > 0;
      assert Waits(Turns(Advance(s), n - 1));
    }
    if Halts(Advance(s)) {
      var n: nat :| Waits(Turns(Advance(s), n));
      assert Waits(Turns(s, n + 1));
    }
  }

  lemma {:induction false} TurnsSettle(s: State, n: nat, m: nat)
    requires Valid(s) && Waits(Turns(s, n)) && Waits(Turns(s, m))
    ensures Turns(s, n) == Turns(s, m)
    decreases n
  {
    hide Advance, Waits;
    if !Waits(s) {
      TurnsSettle(Advance(s), n - 1, m - 1);
    }
  }

  /** Where the loop ends, if it does. */
  ghost function Final(s: State): (r: State)
    requires Valid(s) && Halts(s)
    ensures Valid(r) && Waits(r)
  {
    var n: nat :| Waits(Turns(s, n));
    Turns(s, n)
  }

  lemma FinalIsTurns(s: State, n: nat)
    requires Valid(s) && Waits(Turns(s, n))
    ensures Halts(s) && Final(s) == Turns(s, n)
  {
    var m: nat :| Waits(Turns(s, m)) && Final(s) == Turns(s, m);
    TurnsSettle(s, n, m);
  }

  lemma FinalIsDrain(s: State)
    requires Valid(s) && NeverWraps(s)
    ensures Halts(s) && Final(s) == Drain(s)
  {
    var n := DrainIsLoop(s);
    FinalIsTurns(s, n);
  }

  /** A turn that leaves the input as it is. */
  predicate Stuck(s: State)
    requires Valid(s)
  {
    !Waits(s) && Advance(s).input == s.input
  }

  function Errors(n: nat): (r: seq<Event>)
    ensures |r| == n
  {
    if n == 0 then [] else [ProtocolError] + Errors(n - 1)
  }

  /** From such a turn on the loop queues protocol errors without end. */
  lemma {:induction false} StuckSpins(s: State, n: nat)
    requires Valid(s) && Stuck(s)
    ensures !Waits(Turns(s, n)) && Stuck(Turns(s, n))
    ensures Turns(s, n).input == s.input && Turns(s, n).log == s.log + Errors(n)
    decreases n
  {
    hide Stuck, Advance, Waits;
    StuckStays(s);
    if n == 0 {
      Neutral(s.log);
    } else {
      StuckSpins(Advance(s), n - 1);
      Assoc(s.log, [ProtocolError], Errors(n - 1));
    }
  }

  lemma StuckStays(s: State)
    requires Valid(s) && Stuck(s)
    ensures !Waits(s) && Stuck(Advance(s))
    ensures Advance(s).input == s.input && Advance(s).log == s.log + [ProtocolError]
  {
    TurnShrinksIff(s);
  }

  /** Bytes from `q` on repeat those 4 GiB before them. */
  ghost predicate Periodic(b: Bytes, q: nat) {
    forall i :: q <= i < |b| - TWO_TO_THE_32 ==> b[i] == b[i + TWO_TO_THE_32]
  }

  /** A wrapping turn moves the bytes 4 GiB down and shortens nothing. */
  lemma WrapShifts(s: State, q: nat)
    requires Valid(s) && Wraps(s) && !Waits(s) && Periodic(s.input, q)
    ensures |Advance(s).input| == |s.input|
    ensures Periodic(Advance(s).input, if q < TWO_TO_THE_32 then 0 else q - TWO_TO_THE_32)
    ensures q == 0 ==> Advance(s).input == s.input
  {
    var b, b' := s.input, Advance(s).input;
    var k := |b| - TWO_TO_THE_32;
    assert b' == b[TWO_TO_THE_32..] + b[k..];
    assert forall i :: 0 <= i < k ==> b'[i] == b[i + TWO_TO_THE_32];
    assert forall i :: k <= i < |b| ==> b'[i] == b[i];
  }

  ghost predicate NeverStuck(s: State)
    requires Valid(s)
  {
    forall n: nat :: !Stuck(Turns(s, n))
  }

  lemma NeverStuckNext(s: State)
    requires Valid(s) && !Waits(s) && NeverStuck(s)
    ensures !Stuck(s) && NeverStuck(Advance(s))
  {
    hide Stuck, Advance, Waits;
    assert Turns(s, 0) == s;
    forall n: nat
      ensures !Stuck(Turns(Advance(s), n))
    {
      assert Turns(s, n + 1) == Turns(Advance(s), n);
    }
  }

  /** Wrapping turns in a row reach a turn that changes nothing. */
  lemma {:induction false} NeverStuckHalts(s: State, q: nat)
    requires Valid(s) && Periodic(s.input, q) && NeverStuck(s)
    ensures Halts(s)
    decreases |s.input|, q
  {
    hide NeverStuck, Turns, Halts;
    if Waits(s) {
      WaitingHalts(s);
    } else {
      NeverStuckNext(s);
      TurnShrinksIff(s);
      if Wraps(s) {
        WrapShifts(s, q);
        NeverStuckHalts(Advance(s), if q < TWO_TO_THE_32 then 0 else q - TWO_TO_THE_32);
      } else {
        NeverStuckHalts(Advance(s), |Advance(s).input|);
      }
      HaltsAfterTurn(s);
    }
  }

  lemma WaitingHalts(s: State)
    requires Valid(s) && Waits(s)
    ensures Halts(s)
  {
    assert Waits(Turns(s, 0));
  }

  lemma StuckNeverHalts(s: State)
    requires Valid(s) && Stuck(s)
    ensures !Halts(s)
  {
    forall n: nat
      ensures !Waits(Turns(s, n))
    {
      StuckSpins(s, n);
    }
  }

  lemma {:induction false} HaltingIsNotStuck(s: State, n: nat)
    requires Valid(s) && Halts(s)
    ensures !Stuck(Turns(s, n))
    decreases n
  {
    hide Halts, Stuck, Waits, Advance;
    if n > 0 && !Waits(s) {
      HaltsAfterTurn(s);
      HaltingIsNotStuck(Advance(s), n - 1);
    } else if Stuck(s) {
      StuckNeverHalts(s);
    }
  }

  /** The loop ends exactly when it never meets a turn that changes nothing. */
  lemma HaltsIffNeverStuck(s: State)
    requires Valid(s)
    ensures Halts(s) <==> NeverStuck(s)
  {
    hide Halts, Stuck, Turns;
    if Halts(s) {
      forall n: nat
        ensures !Stuck(Turns(s, n))
      {
        HaltingIsNotStuck(s, n);
      }
    }
    if NeverStuck(s) {
      assert Periodic(s.input, |s.input|);
      NeverStuckHalts(s, |s.input|);
    }
  }

  /**
   Read off the bytes alone: where each length word leads, and what 4 GiB of
   bytes move down over a wrapping header. More than `shifts` such moves in a
   row change nothing any more.
   */
  predicate Ends(startup: bool, maxSize: nat, b: Bytes, shifts: nat)
    decreases |b|, shifts
  {
    if startup then
      || |b| < 4
      || Rd32(b, 0) < 8 || Rd32(b, 0) > maxSize || |b| < Rd32(b, 0)
      || Ends(false, maxSize, b[Rd32(b, 0)..], Shifts(|b| - Rd32(b, 0)))
    else
      || |b| < 5
      || (var mlen := Rd32(b, 1);
          if mlen == 0 || |b| < 1 + mlen then true
          else if maxSize < mlen == TWO_TO_THE_32 - 1 then
            shifts > 0 && Ends(false, maxSize, b[TWO_TO_THE_32..] + b[|b| - TWO_TO_THE_32..], shifts - 1)
          else Ends(false, maxSize, b[1 + mlen..], Shifts(|b| - 1 - mlen)))
  }

  function Shifts(n: nat): (r: nat)
    ensures r * TWO_TO_THE_32 > n
  {
    n / TWO_TO_THE_32 + 1
  }

  lemma ManyShifts(b: Bytes)
    ensures Periodic(b, Shifts(|b|) * TWO_TO_THE_32)
  {
  }

  /** A turn that flushes everything leaves nothing to go on with. */
  lemma EmptyHalts(s: State)
    requires Valid(s) && s.input == []
    ensures Halts(s)
  {
    WaitingHalts(s);
  }

  /** What a turn that does not wrap leaves, read off the bytes. */
  lemma TurnLeaves(s: State)
    requires Valid(s) && !Waits(s) && !Wraps(s)
    ensures Advance(s).maxSize == s.maxSize && |Advance(s).input| < |s.input|
    ensures Flushes(s) ==> Advance(s).input == []
    ensures !Flushes(s) ==>
              && !NeedsStartup(Advance(s))
              && var mlen := Rd32(s.input, if NeedsStartup(s) then 0 else 1);
                 var total := if NeedsStartup(s) then mlen else 1 + mlen;
                 0 < total <= |s.input| && Advance(s).input == s.input[total..]
  {
    if !Flushes(s) {
      TurnIsLocal(s, []);
      TurnCuts(s);
    } else {
      TurnShrinksIff(s);
    }
  }

  lemma WrapLeaves(s: State)
    requires Valid(s) && !Waits(s) && Wraps(s)
    ensures !NeedsStartup(Advance(s)) && Advance(s).maxSize == s.maxSize
    ensures Advance(s).input == s.input[TWO_TO_THE_32..] + s.input[|s.input| - TWO_TO_THE_32..]
  {
  }

  lemma EndsAtWrap(s: State, shifts: nat)
    requires Valid(s) && !Waits(s) && Wraps(s)
    ensures Ends(NeedsStartup(s), s.maxSize, s.input, shifts) <==>
            shifts > 0 && Ends(NeedsStartup(Advance(s)), Advance(s).maxSize, Advance(s).input, shifts - 1)
  {
    WrapLeaves(s);
  }

  lemma EndsAtTurn(s: State, shifts: nat)
    requires Valid(s) && !Waits(s) && !Wraps(s)
    ensures Ends(NeedsStartup(s), s.maxSize, s.input, shifts) <==>
            Advance(s).input == []
            || Ends(NeedsStartup(Advance(s)), Advance(s).maxSize, Advance(s).input, Shifts(|Advance(s).input|))
  {
    TurnLeaves(s);
    hide Advance, Valid, Shifts;
    if NeedsStartup(s) {
      assert Flushes(s) ==> Ends(true, s.maxSize, s.input, shifts);
    } else {
      assert Flushes(s) ==> Ends(false, s.maxSize, s.input, shifts);
    }
  }

  lemma {:induction false} EndsIff(s: State, shifts: nat)
    requires Valid(s) && Periodic(s.input, shifts * TWO_TO_THE_32)
    ensures Halts(s) <==> Ends(NeedsStartup(s), s.maxSize, s.input, shifts)
    decreases |s.input|, shifts
  {
    if Waits(s) {
      WaitingHalts(s);
    } else {
      hide Halts, Advance, Periodic, Ends, Waits;
      HaltsAfterTurn(s);
      if Wraps(s) {
        EndsAtWrap(s, shifts);
        WrapShifts(s, shifts * TWO_TO_THE_32);
        if shifts == 0 {
          StuckNeverHalts(s);
        } else {
          EndsIff(Advance(s), shifts - 1);
        }
      } else {
        EndsAtTurn(s, shifts);
        TurnLeaves(s);
        if Advance(s).input == [] {
          EmptyHalts(Advance(s));
        } else {
          ManyShifts(Advance(s).input);
          EndsIff(Advance(s), Shifts(|Advance(s).input|));
        }
      }
    }
  }

  /** Whether the loop ends is told by the bytes alone, however many there are. */
  lemma HaltsIff(s: State)
    requires Valid(s)
    ensures Halts(s) <==> Ends(NeedsStartup(s), s.maxSize, s.input, Shifts(|s.input|))
  {
    ManyShifts(s.input);
    EndsIff(s, Shifts(|s.input|));
  }

  /** Up to 4 GiB the header in front tells: only the wrapping one hangs the loop. */
  lemma HaltsBelowIff(s: State)
    requires Valid(s) && |s.input| <= TWO_TO_THE_32
    ensures Halts(s) <==> !Wraps(s)
  {
    if Waits(s) {
      WaitingHalts(s);
    } else if Wraps(s) {
      WrapShifts(s, 0);
      StuckNeverHalts(s);
    } else {
      TurnShrinksIff(s);
      SmallNeverWraps(Advance(s));
      var n := DrainIsLoop(Advance(s));
      HaltsAfterTurn(s);
    }
  }

  /** Such an input: a header that declares 2^32 - 1 with all of its body behind it. */
  lemma FullFrameHangs(s: State)
    requires Valid(s) && s.role == Client && s.maxSize < TWO_TO_THE_32 - 1 && s.input == []
    ensures var frame := [QUERY, 255, 255, 255, 255] + seq(TWO_TO_THE_32 - 5, _ => 0);
            |frame| == TWO_TO_THE_32 && !Halts(Append(s, frame))
  {
    var frame: Bytes := [QUERY, 255, 255, 255, 255] + seq(TWO_TO_THE_32 - 5, _ => 0);
    var t := Append(s, frame);
    Neutral(frame);
    assert Rd32(t.input, 1) == TWO_TO_THE_32 - 1;
    HaltsBelowIff(t);
  }

  // ---------- protocol violations ----------

  /** A turn logs a protocol error exactly for a length out of range. */
  lemma ProtocolErrorIff(s: State)
    requires Valid(s) && !Waits(s)
    ensures Advance(s).log == s.log + [ProtocolError]
            <==> if NeedsStartup(s) then Rd32(s.input, 0) < 8 || Rd32(s.input, 0) > s.maxSize
                 else Rd32(s.input, 1) < 4 || Rd32(s.input, 1) > s.maxSize
  {
    hide ParseStartup, MessageEffect;
    if !NeedsStartup(s) && 4 <= Rd32(s.input, 1) <= s.maxSize {
      NoErrorFromMessage(s.role, s.mem, s.input[0], s.input[5..1 + Rd32(s.input, 1)]);
    }
    forall e: Event
      ensures s.log + [e] == s.log + [ProtocolError] <==> e == ProtocolError
    {
      assert (s.log + [e])[|s.log|] == e && (s.log + [ProtocolError])[|s.log|] == ProtocolError;
    }
  }

  lemma NoErrorFromMessage(role: Role, m: Memory, tag: byte, body: Bytes)
    requires ValidMemory(m)
    ensures var e := MessageEffect(role, m, tag, body).0;
            e.Some? ==> e.value.event != ProtocolError
  {
  }

  /** The events of a message do not depend on the phase it comes in. */
  lemma PhaseIsIgnored(role: Role, m: Memory, p: Phase, tag: byte, body: Bytes)
    requires ValidMemory(m)
    ensures MessageEffect(role, m.(phase := p), tag, body).0 == MessageEffect(role, m, tag, body).0
  {
  }

  /** A query before authentication has ended is an ordinary query. */
  lemma QueryWhileAuthenticating(s: State)
    requires Valid(s) && s.role == Server && s.started && s.mem.phase == Authenticating
    requires s.input == [] && s.maxSize >= 5
    ensures var r := Feed(s, [QUERY, 0, 0, 0, 5, 0]);
            r.log == s.log + [Query([])] && r.mem.phase == Querying
  {
    hide FrontendEmission, BackendEffect, HandleStartup, HandleBadHeader, SkipBody;
    var frame: Bytes := [QUERY, 0, 0, 0, 5, 0];
    var t := Append(s, frame);
    Neutral(frame);
    assert t.input == frame && Rd32(t.input, 1) == 5;
    assert t.input[5..6] == [0] && t.input[6..] == [];
    assert CstrOrEmpty([0]) == [] by {
      CstrRoundTrip([]);
      assert [] + [0] == [0];
    }
    var u := Advance(t);
    assert u == Handle(t, QUERY, [0]).(input := []);
    assert MessageEffect(Server, t.mem, QUERY, [0]).0 == Some(Emission(QuerySlot, Query([])));
    assert u.log == s.log + [Query([])];
    assert Waits(u) && Drain(u) == u && Drain(t) == Drain(u);
  }

  // ---------- what each message type does to the state ----------

  /** Types that are not listed are ignored. */
  lemma OtherTypesAreIgnored(m: Memory, tag: byte, body: Bytes)
    requires ValidMemory(m)
    ensures tag !in {81, 80, 66, 68, 69, 67, 83, 72, 88} ==> MessageEffect(Server, m, tag, body) == (None, m)
    ensures tag !in {82, 90, 84, 68, 67, 69, 49, 50, 51, 110, 115, 83, 78, 65} ==>
              MessageEffect(Client, m, tag, body) == (None, m)
  {
  }

  /** The messages whose type is all there is to them. */
  lemma BareTypesAre(m: Memory, body: Bytes)
    requires ValidMemory(m)
    ensures MessageEffect(Client, m, 90, body) == (Plainly(ReadyForQuery), m.(phase := Ready))
    ensures MessageEffect(Client, m, 49, body) == (Plainly(ParseComplete), m)
    ensures MessageEffect(Client, m, 50, body) == (Plainly(BindComplete), m)
    ensures MessageEffect(Client, m, 51, body) == (Plainly(CloseComplete), m)
    ensures MessageEffect(Client, m, 110, body) == (Plainly(NoData), m)
    ensures MessageEffect(Client, m, 115, body) == (Plainly(PortalSuspended), m)
    ensures MessageEffect(Client, m, 78, body) == (Plainly(NoticeResponse), m)
    ensures MessageEffect(Client, m, 83, body) == (Plainly(ParameterStatus(body)), m)
  {
    hide FrontendEffect, RowDescriptionEffect, DataRowEffect, CommandCompleteEffect;
  }

  lemma BareFrontendTypesAre(m: Memory, body: Bytes)
    requires ValidMemory(m)
    ensures MessageEffect(Server, m, 83, body) == (Plainly(Sync), m)
    ensures MessageEffect(Server, m, 72, body) == (Plainly(Flush), m)
    ensures MessageEffect(Server, m, 88, body) == (Plainly(Terminate), m)
  {
    hide BackendEffect, QueryEffect;
  }

  /** Only authentication code zero ends the authentication. */
  lemma AuthenticationIs(m: Memory, code: u32, rest: Bytes, short: Bytes)
    requires ValidMemory(m) && |short| < 4
    ensures MessageEffect(Client, m, 82, short) == (None, m)
    ensures code != 0 ==> MessageEffect(Client, m, 82, Wr32(code) + rest) == (None, m)
    ensures MessageEffect(Client, m, 82, [0, 0, 0, 0] + rest) == (Plainly(AuthenticationOk), m.(auth := AuthDone))
  {
    RdWr32(code, rest);
  }

  /** The phase after a message: a query starts QUERYING, ReadyForQuery and CommandComplete end it. */
  lemma PhaseAfter(m: Memory, tag: byte, body: Bytes)
    requires ValidMemory(m)
    ensures MessageEffect(Server, m, tag, body).1.phase == if tag == 81 then Querying else m.phase
    ensures MessageEffect(Client, m, tag, body).1.phase == if tag == 90 || tag == 67 then Ready else m.phase
    ensures MessageEffect(Server, m, tag, body).1.auth == m.auth
    ensures tag != 82 ==> MessageEffect(Client, m, tag, body).1.auth == m.auth
  {
  }

  /** A startup packet is seen once; a server authenticates then. */
  lemma StartupIs(s: State, body: Bytes)
    requires Valid(s)
    ensures var r := HandleStartup(s, body);
            var (user, database) := ParseStartup(body);
            && r.started && r.log == s.log + [Startup(user, database)]
            && r.mem.scratch.user == user && r.mem.scratch.database == database
            && r.mem.phase == (if s.role == Server then Authenticating else s.mem.phase)
            && r.mem.auth == s.mem.auth && r.input == s.input && r.output == s.output
  {
  }

  /** Too short for a count, a row or its description is ignored. */
  lemma ShortBodiesAreIgnored(m: Memory, body: Bytes)
    requires ValidMemory(m) && |body| < 2
    ensures MessageEffect(Client, m, 84, body) == (None, m) && MessageEffect(Client, m, 68, body) == (None, m)
  {
  }

  /** A tag without a terminator is empty, a query too. */
  lemma UnterminatedIsEmpty(m: Memory, text: Bytes)
    requires ValidMemory(m) && NulFree(text)
    ensures MessageEffect(Client, m, 67, text).0 == Some(Emission(TagSlot, CommandComplete([])))
    ensures MessageEffect(Server, m, 81, text).0 == Some(Emission(QuerySlot, Query([])))
  {
    TakeCstrIff(text);
  }

  // ---------- locality and chunk independence ----------

  /**
   The bad headers after which the loop throws away whatever is buffered:
   a startup length out of range, a zero length, and a length above the
   limit whose body is not there yet (or whose skip wraps).
   */
  predicate Flushes(s: State) {
    && !Waits(s)
    && if NeedsStartup(s) then Rd32(s.input, 0) < 8 || Rd32(s.input, 0) > s.maxSize
       else
         var mlen := Rd32(s.input, 1);
         mlen == 0 || (mlen > s.maxSize && (|s.input| < 1 + mlen || mlen == TWO_TO_THE_32 - 1))
  }

  lemma HeaderOfPrefix(a: Bytes, b: Bytes, off: nat)
    requires off + 4 <= |a|
    ensures Rd32(a + b, off) == Rd32(a, off)
  {
  }

  /** The skip behind a bad header that does not wrap drops a prefix. */
  lemma SkipBodyIsSuffix(b: Bytes, mlen: u32)
    requires |b| >= 1 + mlen && mlen != TWO_TO_THE_32 - 1
    ensures SkipBody(b, mlen) == b[1 + mlen..]
  {
  }

  /** A turn that does not flush sees only the frame it takes. */
  lemma TurnIsLocal(s: State, more: Bytes)
    requires Valid(s) && !Waits(s) && !Flushes(s)
    ensures !Waits(Append(s, more)) && !Flushes(Append(s, more))
    ensures Advance(Append(s, more)) == Append(Advance(s), more)
    ensures |Advance(s).input| < |s.input|
  {
    var t := Append(s, more);
    if NeedsStartup(s) {
      HeaderOfPrefix(s.input, more, 0);
      LocalStartup(s, more);
    } else {
      HeaderOfPrefix(s.input, more, 1);
      if Rd32(s.input, 1) < 4 || Rd32(s.input, 1) > s.maxSize {
        LocalSkip(s, more);
      } else {
        LocalFrame(s, more);
      }
    }
  }

  lemma LocalStartup(s: State, more: Bytes)
    requires Valid(s) && NeedsStartup(s) && !Waits(s) && !Flushes(s)
    requires Rd32(s.input + more, 0) == Rd32(s.input, 0)
    ensures Advance(Append(s, more)) == Append(Advance(s), more) && |Advance(s).input| < |s.input|
    ensures !Waits(Append(s, more)) && !Flushes(Append(s, more))
  {
    SliceOfAppended(s.input, more, 4, Rd32(s.input, 0));
  }

  lemma LocalSkip(s: State, more: Bytes)
    requires Valid(s) && !NeedsStartup(s) && !Waits(s) && !Flushes(s)
    requires Rd32(s.input + more, 1) == Rd32(s.input, 1)
    requires Rd32(s.input, 1) < 4 || Rd32(s.input, 1) > s.maxSize
    ensures Advance(Append(s, more)) == Append(Advance(s), more) && |Advance(s).input| < |s.input|
    ensures !Waits(Append(s, more)) && !Flushes(Append(s, more))
  {
    var mlen := Rd32(s.input, 1);
    SliceOfAppended(s.input, more, 0, 1 + mlen);
    SkipBodyIsSuffix(s.input, mlen);
    SkipBodyIsSuffix(s.input + more, mlen);
  }

  lemma LocalFrame(s: State, more: Bytes)
    requires Valid(s) && !NeedsStartup(s) && !Waits(s) && 4 <= Rd32(s.input, 1) <= s.maxSize
    requires Rd32(s.input + more, 1) == Rd32(s.input, 1)
    ensures Advance(Append(s, more)) == Append(Advance(s), more) && |Advance(s).input| < |s.input|
    ensures !Waits(Append(s, more)) && !Flushes(Append(s, more))
  {
    hide MessageEffect, HandleStartup, HandleBadHeader, SkipBody;
    SliceOfAppended(s.input, more, 5, 1 + Rd32(s.input, 1));
  }

  /** No turn of the loop flushes. */
  predicate NeverFlushes(s: State)
    requires Valid(s)
    decreases |s.input|
  {
    Waits(s) ||
    (!Flushes(s) && |Advance(s).input| < |s.input| && NeverFlushes(Advance(s)))
  }

  lemma {:induction false} DrainAppend(s: State, more: Bytes)
    requires Valid(s) && NeverFlushes(s)
    ensures Drain(Append(Drain(s), more)) == Drain(Append(s, more))
    decreases |s.input|
  {
    if !Waits(s) {
      TurnIsLocal(s, more);
      DrainAppend(Advance(s), more);
    }
  }

  /** A flushing turn empties the buffer, with or without one more byte in it. */
  lemma FlushEmpties(s: State)
    requires Valid(s) && Flushes(s) && |s.input| < TWO_TO_THE_32 - 1
    ensures Advance(s).input == []
    ensures !Waits(Append(s, [0]))
    ensures Wraps(Append(s, [0])) || Advance(Append(s, [0])).input == []
  {
    var t := Append(s, [0]);
    HeaderOfPrefix(s.input, [0], if NeedsStartup(s) then 0 else 1);
    if !NeedsStartup(s) && 0 < Rd32(s.input, 1) == |s.input| && !Wraps(t) {
      SkipBodyIsSuffix(t.input, Rd32(t.input, 1));
    }
  }

  lemma FlushShowsNow(s: State)
    requires Valid(s) && Flushes(s) && |s.input| < TWO_TO_THE_32 - 1
    ensures Drain(Append(Drain(s), [0])).input != Drain(Append(s, [0])).input
  {
    FlushEmpties(s);
    var u, t := Append(Advance(s), [0]), Append(s, [0]);
    assert !Waits(s) && |s.input| > 0;
    hide Advance, Flushes;
    assert u.input == [0] && Waits(u) && Waits(Advance(s));
    TurnShrinksIff(t);
    if !Wraps(t) {
      assert Waits(Advance(t));
    }
  }

  /** The first flush shows when one more byte arrives after it. */
  lemma {:induction false} FlushShows(s: State)
    requires Valid(s) && !NeverFlushes(s) && |s.input| < TWO_TO_THE_32 - 1
    ensures Drain(Append(Drain(s), [0])).input != Drain(Append(s, [0])).input
    decreases |s.input|
  {
    if Flushes(s) {
      FlushShowsNow(s);
    } else {
      TurnIsLocal(s, [0]);
      FlushShows(Advance(s));
    }
  }

  /** Read off the bytes alone: no length word up to their end makes the loop flush. */
  predicate FlushFree(startup: bool, maxSize: nat, b: Bytes)
    decreases |b|
  {
    if startup then
      |b| < 4
      || (8 <= Rd32(b, 0) <= maxSize
          && (|b| < Rd32(b, 0) || FlushFree(false, maxSize, b[Rd32(b, 0)..])))
    else
      |b| < 5
      || (var mlen := Rd32(b, 1);
          if mlen <= maxSize && |b| < 1 + mlen then true
          else
            && 0 < mlen && (mlen <= maxSize || (|b| >= 1 + mlen && mlen != TWO_TO_THE_32 - 1))
            && FlushFree(false, maxSize, b[1 + mlen..]))
  }

  lemma {:induction false} FlushFreeIff(s: State)
    requires Valid(s)
    ensures NeverFlushes(s) <==> FlushFree(NeedsStartup(s), s.maxSize, s.input)
    decreases |s.input|
  {
    if !Waits(s) && !Flushes(s) {
      TurnIsLocal(s, []);
      TurnCuts(s);
      FlushFreeIff(Advance(s));
    }
  }

  /** A turn that does not flush drops the frame in front. */
  lemma TurnCuts(s: State)
    requires Valid(s) && !Waits(s) && !Flushes(s)
    ensures !NeedsStartup(Advance(s)) && Advance(s).maxSize == s.maxSize
    ensures var mlen := Rd32(s.input, if NeedsStartup(s) then 0 else 1);
            var total := if NeedsStartup(s) then mlen else 1 + mlen;
            total <= |s.input| && Advance(s).input == s.input[total..]
  {
    if !NeedsStartup(s) && (Rd32(s.input, 1) < 4 || Rd32(s.input, 1) > s.maxSize) {
      SkipBodyIsSuffix(s.input, Rd32(s.input, 1));
    }
  }

  /**
   A stream may be cut after `a` without any effect, whatever comes next (as
   long as the loop ends on it), exactly when no length word up to there makes
   the loop flush.
   */
  lemma CutIsInvisibleIff(s: State, a: Bytes)
    requires Valid(s) && |s.input| + |a| < TWO_TO_THE_32 - 1
    ensures FlushFree(NeedsStartup(s), s.maxSize, s.input + a)
            <==> forall b: Bytes :: NeverWraps(Append(s, a + b)) ==> Feed(Feed(s, a), b) == Feed(s, a + b)
  {
    hide FlushFree, NeverWraps, NeverFlushes, Drain, Waits;
    FlushFreeIff(Append(s, a));
    forall b: Bytes
      ensures Append(s, a + b) == Append(Append(s, a), b)
    {
      Assoc(s.input, a, b);
    }
    if NeverFlushes(Append(s, a)) {
      forall b: Bytes
        ensures Feed(Feed(s, a), b) == Feed(s, a + b)
      {
        DrainAppend(Append(s, a), b);
      }
    } else {
      FlushShows(Append(s, a));
      var b: Bytes := [0];
      SmallNeverWraps(Append(s, a + b));
      assert Feed(Feed(s, a), b) != Feed(s, a + b);
    }
  }

  /** A zero length drops the bytes after it only when they are already there. */
  lemma ZeroLengthIsNotChunkIndependent(s: State)
    requires Valid(s) && s.role == Client && s.input == []
    ensures Feed(s, [QUERY, 0, 0, 0, 0] + [SYNC]).input == []
    ensures Feed(Feed(s, [QUERY, 0, 0, 0, 0]), [SYNC]).input == [SYNC]
  {
    var header := [QUERY, 0, 0, 0, 0];
    var t := Append(s, header);
    assert t.input == header && Rd32(t.input, 1) == 0;
    assert Drain(t) == Advance(t);
    var u := Append(s, header + [SYNC]);
    assert u.input == header + [SYNC] && Rd32(u.input, 1) == 0;
  }

  // ---------- many chunks ----------

  function FeedAll(s: State, chunks: seq<Bytes>): (r: State)
    requires Valid(s)
    ensures Valid(r)
    decreases |chunks|
  {
    if chunks == [] then s else FeedAll(Feed(s, chunks[0]), chunks[1..])
  }

  function Concat(chunks: seq<Bytes>): (r: Bytes) {
    if chunks == [] then [] else chunks[0] + Concat(chunks[1..])
  }

  /** A length the loop accepts or, for a typed frame, skips deterministically. */
  predicate HeaderInRange(s: State)
    requires !Waits(s)
  {
    if NeedsStartup(s) then 8 <= Rd32(s.input, 0) <= s.maxSize
    else 0 < Rd32(s.input, 1) <= s.maxSize
  }

  predicate HeadersInRange(s: State)
    requires Valid(s)
    decreases |s.input|
  {
    Waits(s) || (HeaderInRange(s) && |Advance(s).input| < |s.input| && HeadersInRange(Advance(s)))
  }

  /** Read off the bytes alone: every length word met is in range. */
  predicate LengthsInRange(startup: bool, maxSize: nat, b: Bytes)
    decreases |b|
  {
    if startup then
      |b| < 4
      || (8 <= Rd32(b, 0) <= maxSize
          && (|b| < Rd32(b, 0) || LengthsInRange(false, maxSize, b[Rd32(b, 0)..])))
    else
      |b| < 5
      || (0 < Rd32(b, 1) <= maxSize
          && (|b| < 1 + Rd32(b, 1) || LengthsInRange(false, maxSize, b[1 + Rd32(b, 1)..])))
  }

  lemma {:induction false} LengthsInRangeIff(s: State)
    requires Valid(s)
    ensures HeadersInRange(s) <==> LengthsInRange(NeedsStartup(s), s.maxSize, s.input)
    decreases |s.input|
  {
    if !Waits(s) && HeaderInRange(s) {
      TurnIsLocal(s, []);
      TurnCuts(s);
      LengthsInRangeIff(Advance(s));
    }
  }

  lemma {:induction false} PrefixNeverFlushes(s: State, more: Bytes)
    requires Valid(s) && HeadersInRange(Append(s, more))
    ensures NeverFlushes(s)
    decreases |s.input|
  {
    if !Waits(s) {
      HeaderOfPrefix(s.input, more, if NeedsStartup(s) then 0 else 1);
      assert HeaderInRange(Append(s, more));
      TurnIsLocal(s, more);
      PrefixNeverFlushes(Advance(s), more);
    }
  }

  lemma {:induction false} InRangeAfterPrefix(s: State, more: Bytes)
    requires Valid(s) && HeadersInRange(Append(s, more))
    ensures HeadersInRange(Append(Drain(s), more))
    decreases |s.input|
  {
    if !Waits(s) {
      HeaderOfPrefix(s.input, more, if NeedsStartup(s) then 0 else 1);
      TurnIsLocal(s, more);
      InRangeAfterPrefix(Advance(s), more);
    }
  }

  /** Any split of a stream whose headers are in range is fed like the whole of it. */
  lemma ChunkIndependence(s: State, chunks: seq<Bytes>)
    requires Valid(s) && Waits(s)
    requires LengthsInRange(NeedsStartup(s), s.maxSize, s.input + Concat(chunks))
    ensures FeedAll(s, chunks) == Feed(s, Concat(chunks))
  {
    LengthsInRangeIff(Append(s, Concat(chunks)));
    ChunksInRange(s, chunks);
  }

  lemma {:induction false} ChunksInRange(s: State, chunks: seq<Bytes>)
    requires Valid(s) && Waits(s) && HeadersInRange(Append(s, Concat(chunks)))
    ensures FeedAll(s, chunks) == Feed(s, Concat(chunks))
    decreases |chunks|
  {
    if chunks == [] {
      assert Append(s, []) == s by { assert s.input + [] == s.input; }
    } else {
      var a, rest := chunks[0], Concat(chunks[1..]);
      var t := Append(s, a);
      assert Append(s, Concat(chunks)) == Append(t, rest) by {
        assert s.input + (a + rest) == s.input + a + rest;
      }
      PrefixNeverFlushes(t, rest);
      InRangeAfterPrefix(t, rest);
      DrainWaits(t);
      DrainAppend(t, rest);
      ChunksInRange(Drain(t), chunks[1..]);
    }
  }

  lemma {:induction false} DrainWaits(s: State)
    requires Valid(s) && NeverFlushes(s)
    ensures Waits(Drain(s))
    decreases |s.input|
  {
    if !Waits(s) {
      DrainWaits(Advance(s));
    }
  }

  // ---------- retention ----------

  /** What a feed leaves behind is the start of one frame. */
  lemma {:induction false} Retention(s: State)
    requires Valid(s) && |s.input| < TWO_TO_THE_32
    ensures Waits(Drain(s))
    ensures |Drain(s).input| <= if s.maxSize < 4 then 4 else s.maxSize
    decreases |s.input|
  {
    if !Waits(s) {
      TurnShrinksIff(s);
      TurnLeaves(s);
      hide Advance;
      Retention(Advance(s));
    }
  }

  // ---------- the loop as a fold over a frame split ----------

  datatype Frm = StartupFrm(body: Bytes) | TypedFrm(tag: byte, body: Bytes) | BadFrm

  /** Cuts a stream into frames by its length words alone. */
  function Split(startup: bool, maxSize: nat, b: Bytes): (r: (seq<Frm>, Bytes))
    decreases |b|
  {
    if startup then
      if |b| < 4 then ([], b)
      else
        var mlen := Rd32(b, 0);
        if mlen < 4 || |b| < mlen then ([], b)
        else
          var (fs, rest) := Split(false, maxSize, b[mlen..]);
          ([StartupFrm(b[4..mlen])] + fs, rest)
    else if |b| < 5 then ([], b)
    else
      var mlen := Rd32(b, 1);
      if mlen >= 4 && |b| < 1 + mlen then ([], b)
      else
        var f := if mlen < 4 then BadFrm else TypedFrm(b[0], b[5..1 + mlen]);
        var (fs, rest) := Split(false, maxSize, b[1 + mlen..]);
        ([f] + fs, rest)
  }

  function HandleFrame(s: State, f: Frm): (r: State)
    requires Valid(s)
    ensures Valid(r)
  {
    match f
    case StartupFrm(body) => HandleStartup(s, body)
    case TypedFrm(tag, body) => Handle(s, tag, body)
    case BadFrm => HandleBadHeader(s)
  }

  function HandleFrames(s: State, fs: seq<Frm>): (r: State)
    requires Valid(s)
    ensures Valid(r)
    decreases |fs|
  {
    if fs == [] then s else HandleFrames(HandleFrame(s, fs[0]), fs[1..])
  }

  /** Handling a frame neither looks at the buffered input nor changes it. */
  lemma {:induction false} FramesIgnoreInput(s: State, fs: seq<Frm>, input: Bytes)
    requires Valid(s)
    ensures HandleFrames(s.(input := input), fs) == HandleFrames(s, fs).(input := input)
    decreases |fs|
  {
    if fs != [] {
      assert HandleFrame(s.(input := input), fs[0]) == HandleFrame(s, fs[0]).(input := input);
      FramesIgnoreInput(HandleFrame(s, fs[0]), fs[1..], input);
    }
  }

  /** One turn handles the frame at the front of the split. */
  lemma TurnIsFrame(s: State)
    requires Valid(s) && !Waits(s) && HeaderInRange(s)
    ensures var (fs, rest) := Split(NeedsStartup(s), s.maxSize, s.input);
            var s' := Advance(s);
            && fs != []
            && s' == HandleFrame(s, fs[0]).(input := s'.input)
            && Split(NeedsStartup(s'), s'.maxSize, s'.input) == (fs[1..], rest)
  {
    if !NeedsStartup(s) && Rd32(s.input, 1) < 4 {
      SkipBodyIsSuffix(s.input, Rd32(s.input, 1));
    }
  }

  lemma NothingToSplit(s: State)
    requires Waits(s)
    ensures Split(NeedsStartup(s), s.maxSize, s.input) == ([], s.input)
  {
  }

  /** Feeding equals folding the handlers over the frames of the stream. */
  lemma DrainIsFold(s: State)
    requires Valid(s) && LengthsInRange(NeedsStartup(s), s.maxSize, s.input)
    ensures var (fs, rest) := Split(NeedsStartup(s), s.maxSize, s.input);
            Drain(s) == HandleFrames(s, fs).(input := rest)
  {
    LengthsInRangeIff(s);
    FoldInRange(s);
  }

  lemma {:induction false} FoldInRange(s: State)
    requires Valid(s) && HeadersInRange(s)
    ensures var (fs, rest) := Split(NeedsStartup(s), s.maxSize, s.input);
            Drain(s) == HandleFrames(s, fs).(input := rest)
    decreases |s.input|
  {
    hide Split, Advance, Waits, HandleFrame, HeaderInRange;
    if Waits(s) {
      NothingToSplit(s);
    } else {
      var s' := Advance(s);
      var fs := Split(NeedsStartup(s), s.maxSize, s.input).0;
      TurnIsFrame(s);
      FoldInRange(s');
      FramesIgnoreInput(HandleFrame(s, fs[0]), fs[1..], s'.input);
    }
  }
}
