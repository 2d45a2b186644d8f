/**
 Streams of backend messages at the client: each one becomes its event as soon
 as its last byte is there, as it was sent exactly when its row fits the arena.
 */
module Replies {
  import opened Wire
  import opened Messages
  import opened Parsers
  import opened Engine
  import Streams

  datatype BackendMsg =
    | AuthOkMsg
    | ReadyMsg
    | RowDescriptionMsg(columns: seq<Column>)
    | DataRowMsg(values: seq<Param>)
    | CommandCompleteMsg(tag: Bytes)
    | ErrorMsg(severity: Bytes, code: Bytes, message: Bytes)
    | ParseCompleteMsg
    | BindCompleteMsg
    | CloseCompleteMsg
    | NoDataMsg

  /** Strings, columns and rows are within the limits of the event structures. */
  predicate Fits(m: BackendMsg) {
    match m
    case RowDescriptionMsg(cs) =>
      && |cs| <= MAX_ROW_COLUMNS
      && forall j :: 0 <= j < |cs| ==> |cs[j].name| < MAX_NAME && NulFree(cs[j].name)
    case DataRowMsg(vs) => |vs| <= MAX_ROW_COLUMNS && AllPresent(vs)
    case CommandCompleteMsg(tag) => NulFree(tag)
    case ErrorMsg(severity, code, message) =>
      && |severity| < 32 && |code| < 8 && |message| < 256
      && NulFree(severity) && NulFree(code) && NulFree(message)
    case _ => true
  }

  function TagOf(m: BackendMsg): (r: byte) {
    match m
    case AuthOkMsg => AUTHENTICATION
    case ReadyMsg => READY_FOR_QUERY
    case RowDescriptionMsg(_) => ROW_DESCRIPTION
    case DataRowMsg(_) => DATA_ROW
    case CommandCompleteMsg(_) => COMMAND_COMPLETE
    case ErrorMsg(_, _, _) => ERROR_RESPONSE
    case ParseCompleteMsg => PARSE_COMPLETE
    case BindCompleteMsg => BIND_COMPLETE
    case CloseCompleteMsg => CLOSE_COMPLETE
    case NoDataMsg => NO_DATA
  }

  function BodyOf(m: BackendMsg): (r: Bytes)
    requires Fits(m)
  {
    match m
    case AuthOkMsg => Wr32(0)
    case ReadyMsg => [73]
    case RowDescriptionMsg(cs) => RowDescriptionBody(cs)
    case DataRowMsg(vs) => DataRowBody(vs)
    case CommandCompleteMsg(tag) => tag + [0]
    case ErrorMsg(severity, code, message) => ErrorBody(severity, code, message)
    case _ => []
  }

  function EventOf(m: BackendMsg): (r: Event)
    requires Fits(m)
  {
    match m
    case AuthOkMsg => AuthenticationOk
    case ReadyMsg => ReadyForQuery
    case RowDescriptionMsg(cs) => RowDescription(cs)
    case DataRowMsg(vs) => DataRow(ColumnValues(vs))
    case CommandCompleteMsg(tag) => CommandComplete(Truncated(tag, MAX_TAG))
    case ErrorMsg(severity, code, message) => ErrorResponse(PqError(severity, code, message, [], []))
    case ParseCompleteMsg => ParseComplete
    case BindCompleteMsg => BindComplete
    case CloseCompleteMsg => CloseComplete
    case NoDataMsg => NoData
  }

  /** The arena space that the row takes. */
  function RowSize(m: BackendMsg): (r: nat)
    requires Fits(m)
  {
    if m.DataRowMsg? then TotalSize(ColumnValues(m.values)) else 0
  }

  predicate Receivable(m: BackendMsg, maxSize: nat) {
    Fits(m) && |BodyOf(m)| + 4 <= maxSize && |BodyOf(m)| + 4 < TWO_TO_THE_32
  }

  predicate AllReceivable(ms: seq<BackendMsg>, maxSize: nat) {
    forall i :: 0 <= i < |ms| ==> Receivable(ms[i], maxSize)
  }

  function Encode(m: BackendMsg): (r: Bytes)
    requires Fits(m)
  {
    Frame(TagOf(m), BodyOf(m))
  }

  function EncodeAll(ms: seq<BackendMsg>): (r: Bytes)
    requires forall i :: 0 <= i < |ms| ==> Fits(ms[i])
  {
    if ms == [] then [] else Encode(ms[0]) + EncodeAll(ms[1..])
  }

  function EventsOf(ms: seq<BackendMsg>): (r: seq<Event>)
    requires forall i :: 0 <= i < |ms| ==> Fits(ms[i])
    ensures |r| == |ms|
  {
    if ms == [] then [] else [EventOf(ms[0])] + EventsOf(ms[1..])
  }

  function RowBytes(ms: seq<BackendMsg>): (r: nat)
    requires forall i :: 0 <= i < |ms| ==> Fits(ms[i])
  {
    if ms == [] then 0 else RowSize(ms[0]) + RowBytes(ms[1..])
  }

  // ---------- one message ----------

  /** A message is received as sent exactly when its row fits the free arena. */
  lemma ReplyRoundTripIff(mem: Memory, m: BackendMsg)
    requires ValidMemory(mem) && Fits(m)
    ensures var (e, mem') := BackendEffect(mem, TagOf(m), BodyOf(m));
            var fits := mem.used + RowSize(m) <= ROW_ARENA;
            && e.Some? && (e.value.event == EventOf(m) <==> fits)
            && (fits ==> mem'.used == mem.used + RowSize(m))
  {
    match m
    case AuthOkMsg =>
      RdWr32(0, []);
      Neutral(Wr32(0));
    case RowDescriptionMsg(cs) => Streams.RowDescriptionRoundTrip(mem, cs);
    case DataRowMsg(vs) => Streams.DataRowRoundTripIff(mem, vs);
    case CommandCompleteMsg(tag) => CstrRoundTrip(tag);
    case ErrorMsg(severity, code, message) => Streams.ErrorResponseRoundTrip(mem, severity, code, message);
    case _ =>
  }

  /** A client that waits for the messages `ms`, of which only `rest` is not buffered yet. */
  ghost predicate Awaits(s: State, ms: seq<BackendMsg>, rest: Bytes) {
    && Valid(s) && s.role == Client && AllReceivable(ms, s.maxSize)
    && s.input + rest == EncodeAll(ms)
  }

  lemma SplitAtFrame(input: Bytes, rest: Bytes, frame: Bytes, more: Bytes)
    requires input + rest == frame + more && |input| >= |frame|
    ensures input == frame + input[|frame|..] && input[|frame|..] + rest == more
  {
    var tail := input[|frame|..];
    assert frame == (input + rest)[..|frame|] == input[..|frame|];
    assert more == (input + rest)[|frame|..] == tail + rest;
  }

  /** The rows of `ms` fit the free part of the arena. */
  predicate RowsFit(s: State, ms: seq<BackendMsg>)
    requires forall i :: 0 <= i < |ms| ==> Fits(ms[i])
  {
    s.mem.used + RowBytes(ms) <= ROW_ARENA
  }

  lemma ReplyIsTaken(s: State, ms: seq<BackendMsg>, rest: Bytes)
    requires ms != [] && Awaits(s, ms, rest) && |s.input| >= |Encode(ms[0])|
    ensures !Waits(s) && |Advance(s).input| < |s.input|
    ensures Awaits(Advance(s), ms[1..], rest)
    ensures Advance(s).maxSize == s.maxSize
    ensures |Advance(s).log| == |s.log| + 1 && s.log <= Advance(s).log
    ensures var fits := s.mem.used + RowSize(ms[0]) <= ROW_ARENA;
            && (Advance(s).log[|s.log|] == EventOf(ms[0]) <==> fits)
            && (fits ==> Advance(s).mem.used == s.mem.used + RowSize(ms[0]))
  {
    var m := ms[0];
    SplitAtFrame(s.input, rest, Encode(m), EncodeAll(ms[1..]));
    Streams.FrameIsTaken(s, TagOf(m), BodyOf(m), s.input[|Encode(m)|..]);
    ReplyRoundTripIff(s.mem, m);
  }

  lemma PartialReplyWaits(s: State, ms: seq<BackendMsg>, rest: Bytes)
    requires ms != [] && Awaits(s, ms, rest) && |s.input| < |Encode(ms[0])|
    ensures Waits(s)
  {
    if |s.input| >= 5 {
      HeaderOfPrefix(s.input, rest, 1);
      Streams.FrameParts(TagOf(ms[0]), BodyOf(ms[0]), EncodeAll(ms[1..]));
    }
  }

  /**
   Draining reads some of the messages and waits for the others. Those read are
   received as sent exactly when their rows fit the free arena.
   */
  lemma {:induction false} RepliesAreReadIff(s: State, ms: seq<BackendMsg>, rest: Bytes) returns (k: nat)
    requires Awaits(s, ms, rest)
    ensures k <= |ms| && |Drain(s).log| == |s.log| + k && s.log <= Drain(s).log
    ensures Drain(s).log == s.log + EventsOf(ms[..k]) <==> RowsFit(s, ms[..k])
    ensures RowsFit(s, ms[..k]) ==> Drain(s).mem.used == s.mem.used + RowBytes(ms[..k])
    ensures Awaits(Drain(s), ms[k..], rest) && Waits(Drain(s)) && Drain(s).maxSize == s.maxSize
    decreases |s.input|
  {
    hide Waits, Advance, Fits, Encode, EventOf, RowSize, EncodeAll;
    if ms == [] || |s.input| < |Encode(ms[0])| {
      NothingIsRead(s, ms, rest);
      k := 0;
    } else {
      ReplyIsTaken(s, ms, rest);
      var t := Advance(s);
      var j := RepliesAreReadIff(t, ms[1..], rest);
      k := j + 1;
      assert ms[..k][0] == ms[0] && ms[..k][1..] == ms[1..][..j] && ms[k..] == ms[1..][j..];
      LogsCompare(s.log, t.log, Drain(t).log, EventOf(ms[0]), EventsOf(ms[1..][..j]));
    }
  }

  lemma NothingIsRead(s: State, ms: seq<BackendMsg>, rest: Bytes)
    requires Awaits(s, ms, rest) && (ms == [] || |s.input| < |Encode(ms[0])|)
    ensures Waits(s) && Drain(s) == s && s.log == s.log + EventsOf(ms[..0])
    ensures RowsFit(s, ms[..0]) && RowBytes(ms[..0]) == 0 && ms[0..] == ms
  {
    if ms != [] {
      PartialReplyWaits(s, ms, rest);
    }
  }

  lemma LogsCompare(log: seq<Event>, one: seq<Event>, all: seq<Event>, e: Event, es: seq<Event>)
    requires |one| == |log| + 1 && log <= one <= all
    ensures all == log + ([e] + es) <==> one[|log|] == e && all == one + es
  {
    assert one == log + [one[|log|]];
    Assoc(log, [e], es);
    if all == log + ([e] + es) {
      assert all[|log|] == e;
    }
  }

  /** When every byte is there, every message is read. */
  lemma AwaitedIsRead(s: State, ms: seq<BackendMsg>)
    requires Awaits(s, ms, []) && Waits(s)
    ensures ms == [] && s.input == []
  {
    Neutral(s.input);
    if ms != [] {
      ReplyIsTaken(s, ms, []);
    }
  }

  /** How many whole messages the first `n` bytes hold. */
  function WholeIn(ms: seq<BackendMsg>, n: nat): (r: nat)
    requires forall i :: 0 <= i < |ms| ==> Fits(ms[i])
    ensures r <= |ms|
    decreases |ms|
  {
    if ms == [] || n < |Encode(ms[0])| then 0 else 1 + WholeIn(ms[1..], n - |Encode(ms[0])|)
  }

  /** A client that waits has read just those. */
  lemma {:induction false} ReadIsWholeIn(ms: seq<BackendMsg>, k: nat, n: nat)
    requires k <= |ms| && forall i :: 0 <= i < |ms| ==> Fits(ms[i])
    requires |EncodeAll(ms)| - |EncodeAll(ms[k..])| <= n
    requires k < |ms| ==> n < |EncodeAll(ms)| - |EncodeAll(ms[k..])| + |Encode(ms[k])|
    ensures WholeIn(ms, n) == k
    decreases k
  {
    hide Encode, Fits;
    if k == 0 {
      assert ms[0..] == ms;
    } else {
      assert ms[1..][k - 1..] == ms[k..];
      EncodeAllShrinks(ms[1..], k - 1);
      ReadIsWholeIn(ms[1..], k - 1, n - |Encode(ms[0])|);
    }
  }

  lemma {:induction false} EncodeAllShrinks(ms: seq<BackendMsg>, k: nat)
    requires k <= |ms| && forall i :: 0 <= i < |ms| ==> Fits(ms[i])
    ensures |EncodeAll(ms[k..])| <= |EncodeAll(ms)|
    decreases k
  {
    if k == 0 {
      assert ms[0..] == ms;
    } else {
      assert ms[1..][k - 1..] == ms[k..];
      EncodeAllShrinks(ms[1..], k - 1);
    }
  }

  /** A client that waits has less than a whole message buffered. */
  lemma WaitingIsPartial(s: State, ms: seq<BackendMsg>, rest: Bytes)
    requires Awaits(s, ms, rest) && Waits(s)
    ensures |s.input| + |rest| == |EncodeAll(ms)|
    ensures ms != [] ==> |s.input| < |Encode(ms[0])|
  {
    assert |s.input + rest| == |EncodeAll(ms)|;
    if ms != [] && |s.input| >= |Encode(ms[0])| {
      ReplyIsTaken(s, ms, rest);
    }
  }

  /** So the number of bytes that reached it tells how many messages it read. */
  lemma AwaitingHasRead(s: State, ms: seq<BackendMsg>, k: nat, rest: Bytes)
    requires k <= |ms| && forall i :: 0 <= i < |ms| ==> Fits(ms[i])
    requires Awaits(s, ms[k..], rest) && Waits(s) && |rest| <= |EncodeAll(ms)|
    ensures WholeIn(ms, |EncodeAll(ms)| - |rest|) == k
  {
    hide *;
    EncodeAllShrinks(ms, k);
    WaitingIsPartial(s, ms[k..], rest);
    assert k < |ms| ==> ms[k..] != [] && ms[k..][0] == ms[k];
    ReadIsWholeIn(ms, k, |EncodeAll(ms)| - |rest|);
  }

  lemma {:induction false} RowBytesParts(ms: seq<BackendMsg>, k: nat)
    requires k <= |ms| && forall i :: 0 <= i < |ms| ==> Fits(ms[i])
    ensures RowBytes(ms) == RowBytes(ms[..k]) + RowBytes(ms[k..])
    decreases k
  {
    if k == 0 {
      assert ms[0..] == ms;
    } else {
      RowBytesParts(ms[1..], k - 1);
      assert ms[..k][1..] == ms[1..][..k - 1] && ms[1..][k - 1..] == ms[k..];
    }
  }

  lemma {:induction false} EventsOfParts(ms: seq<BackendMsg>, k: nat)
    requires k <= |ms| && forall i :: 0 <= i < |ms| ==> Fits(ms[i])
    ensures EventsOf(ms) == EventsOf(ms[..k]) + EventsOf(ms[k..])
    decreases k
  {
    if k == 0 {
      Neutral(EventsOf(ms));
      assert ms[0..] == ms;
    } else {
      EventsOfParts(ms[1..], k - 1);
      assert ms[..k][1..] == ms[1..][..k - 1] && ms[1..][k - 1..] == ms[k..];
    }
  }
}
