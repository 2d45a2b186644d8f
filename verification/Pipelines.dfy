/**
 Recovery after a failed pipeline: every backend message is observed, fed to
 the client context and its events drained, until ReadyForQuery.
 */
module Pipelines {
  import opened Wire
  import opened Messages
  import opened Parsers
  import opened ParserLoops
  import opened Engine
  import opened Contexts
  import Replies
  import Streams

  // ---------- observing one message ----------

  datatype Status = Status(sawError: bool, sawRfq: bool, complete: bool, count: nat, lastError: PqError)

  const NewStatus := Status(false, false, false, 0, NoError)

  /** Type and size of the frame at the front, when it is whole. */
  function Peek(buf: Bytes): (r: Option<(byte, nat)>) {
    if |buf| < 5 || Rd32(buf, 1) < 4 || 1 + Rd32(buf, 1) > |buf| then None
    else Some((buf[0], 1 + Rd32(buf, 1)))
  }

  /** The message is one whole frame and nothing more. */
  predicate WholeFrame(msg: Bytes) {
    Peek(msg).Some? && Peek(msg).value.1 == |msg|
  }

  ghost predicate FrameInFront(buf: Bytes, tag: byte, body: Bytes, rest: Bytes) {
    |body| + 4 < TWO_TO_THE_32 && buf == Frame(tag, body) + rest
  }

  /** What is peeked is the frame in front, and there is one exactly when it is whole. */
  lemma PeekIff(buf: Bytes, tag: byte, total: nat)
    ensures Peek(buf) == Some((tag, total))
            <==> exists body, rest :: FrameInFront(buf, tag, body, rest) && total == 5 + |body|
  {
    if body, rest :| FrameInFront(buf, tag, body, rest) && total == 5 + |body| {
      Streams.FrameParts(tag, body, rest);
    }
    if Peek(buf) == Some((tag, total)) {
      PeekedIsFrame(buf);
      assert FrameInFront(buf, tag, buf[5..total], buf[total..]);
    }
  }

  lemma PeekedIsFrame(buf: Bytes)
    requires Peek(buf).Some?
    ensures var (tag, total) := Peek(buf).value;
            5 <= total <= |buf| && FrameInFront(buf, tag, buf[5..total], buf[total..])
  {
    WrRd32(buf, 1);
    FrameOfLength(buf[0], buf[5..1 + Rd32(buf, 1)], Rd32(buf, 1));
    FourParts(buf, 1 + Rd32(buf, 1));
    hide Frame, Rd32, Wr32;
  }

  lemma FrameOfLength(tag: byte, body: Bytes, len: u32)
    requires |body| + 4 == len
    ensures Frame(tag, body) == [tag] + Wr32(len) + body
  {
    hide Wr32;
  }

  lemma FourParts(buf: Bytes, total: nat)
    requires 5 <= total <= |buf|
    ensures buf == [buf[0]] + buf[1..5] + buf[5..total] + buf[total..]
  {
  }

  /** One whole frame is exactly what the sender of a frame writes. */
  lemma WholeFrameIff(msg: Bytes)
    ensures WholeFrame(msg) <==> exists tag, body :: |body| + 4 < TWO_TO_THE_32 && msg == Frame(tag, body)
  {
    if tag, body :| |body| + 4 < TWO_TO_THE_32 && msg == Frame(tag, body) {
      Streams.FrameParts(tag, body, []);
      Neutral(msg);
    }
    if WholeFrame(msg) {
      PeekedIsFrame(msg);
      Neutral(Frame(msg[0], msg[5..]));
      assert msg[|msg|..] == [] && msg == Frame(msg[0], msg[5..]);
    }
  }

  /** So every message that a server sends is accepted, the ones without a body too. */
  lemma RepliesAreWhole(m: Replies.BackendMsg, maxSize: nat)
    requires Replies.Receivable(m, maxSize)
    ensures WholeFrame(Replies.Encode(m))
  {
    WholeFrameIff(Replies.Encode(m));
  }

  function Observed(st: Status, msg: Bytes): (r: Status)
    requires WholeFrame(msg)
  {
    var st' := st.(count := st.count + 1);
    if msg[0] == ERROR_RESPONSE then st'.(sawError := true, lastError := ParseErrorFields(msg[5..], NoError))
    else if msg[0] == READY_FOR_QUERY then st'.(sawRfq := true, complete := true)
    else st'
  }

  method ObserveMsg(st: Status, msg: Bytes) returns (rc: int, st': Status)
    ensures rc == -1 <==> !WholeFrame(msg)
    ensures rc == -1 ==> st' == st
    ensures rc != -1 ==> st' == Observed(st, msg) && rc == if msg[0] == READY_FOR_QUERY then 1 else 0
  {
    st' := st;
    var peeked := Peek(msg);
    if peeked.None? || peeked.value.1 != |msg| {
      return -1, st';
    }
    var tag := peeked.value.0;
    st' := st'.(count := st'.count + 1);
    if tag == ERROR_RESPONSE {
      var error := ReadErrorFields(msg[5..]);
      st' := st'.(sawError := true, lastError := error);
    } else if tag == READY_FOR_QUERY {
      st' := st'.(sawRfq := true, complete := true);
      return 1, st';
    }
    rc := 0;
  }

  // ---------- feeding one message ----------

  /** Dequeues until nothing is queued. */
  function Emptied(s: State): (r: State)
    requires Valid(s)
    ensures Valid(r)
    decreases |s.ring|
  {
    if s.ring == [] then s else Emptied(Dequeue(s).1)
  }

  function Fed(s: State, msg: Bytes): (r: State)
    requires Valid(s) && WholeFrame(msg)
    ensures Valid(r)
  {
    var t := Emptied(Feed(s, msg));
    if msg[0] == READY_FOR_QUERY then NoteReady(t) else t
  }

  method FeedBackendMsg(ctx: Context, st: Status, msg: Bytes) returns (rc: int, st': Status)
    requires ctx.Valid() && (WholeFrame(msg) ==> NeverWraps(Append(ctx.Abs(), msg)))
    modifies ctx.Repr()
    ensures ctx.Valid() && fresh(ctx.Repr() - old(ctx.Repr()))
    ensures rc == 0 || rc == -1
    ensures rc == 0 <==> WholeFrame(msg)
    ensures rc == -1 ==> st' == st && ctx.Abs() == old(ctx.Abs())
    ensures rc == 0 ==> st' == Observed(st, msg) && ctx.Abs() == Fed(old(ctx.Abs()), msg)
  {
    var rfq;
    rfq, st' := ObserveMsg(st, msg);
    if rfq < 0 {
      return -1, st';
    }
    FinalIsDrain(Append(ctx.Abs(), msg));
    var _ := ctx.FeedInput(msg);
    DrainEvents(ctx);
    if rfq == 1 {
      ctx.NoteReady();
    }
    rc := 0;
  }

  method DrainEvents(ctx: Context)
    requires ctx.Valid()
    modifies ctx`head, ctx`count, ctx`rowArenaUsed
    ensures ctx.Valid() && ctx.Abs() == Emptied(old(ctx.Abs()))
  {
    var more := true;
    while more
      invariant ctx.Valid()
      invariant Emptied(ctx.Abs()) == Emptied(old(ctx.Abs()))
      invariant !more ==> ctx.Abs().ring == []
      decreases more, ctx.count
    {
      var ev := ctx.NextEvent();
      more := ev.Some?;
    }
  }

  // ---------- a list of messages ----------

  function FedAll(s: State, msgs: seq<Bytes>): (r: State)
    requires Valid(s) && forall i :: 0 <= i < |msgs| ==> WholeFrame(msgs[i])
    ensures Valid(r)
    decreases |msgs|
  {
    if msgs == [] then s else FedAll(Fed(s, msgs[0]), msgs[1..])
  }

  function ObservedAll(st: Status, msgs: seq<Bytes>): (r: Status)
    requires forall i :: 0 <= i < |msgs| ==> WholeFrame(msgs[i])
    decreases |msgs|
  {
    if msgs == [] then st else ObservedAll(Observed(st, msgs[0]), msgs[1..])
  }

  predicate HasTag(msgs: seq<Bytes>, tag: byte) {
    exists i :: 0 <= i < |msgs| && |msgs[i]| > 0 && msgs[i][0] == tag
  }

  lemma HasTagFront(msgs: seq<Bytes>, tag: byte)
    requires msgs != [] && |msgs[0]| > 0
    ensures HasTag(msgs, tag) <==> msgs[0][0] == tag || HasTag(msgs[1..], tag)
  {
    if HasTag(msgs[1..], tag) {
      var i :| 0 <= i < |msgs[1..]| && |msgs[1..][i]| > 0 && msgs[1..][i][0] == tag;
      assert msgs[i + 1][0] == tag;
    }
    if HasTag(msgs, tag) && msgs[0][0] != tag {
      var i :| 0 <= i < |msgs| && |msgs[i]| > 0 && msgs[i][0] == tag;
      assert msgs[1..][i - 1][0] == tag;
    }
  }

  /** The body of the last ErrorResponse. */
  function LastErrorBody(msgs: seq<Bytes>): (r: Option<Bytes>)
  {
    if msgs == [] then None
    else
      var last := msgs[|msgs| - 1];
      if |last| >= 5 && last[0] == ERROR_RESPONSE then Some(last[5..]) else LastErrorBody(msgs[..|msgs| - 1])
  }

  lemma {:induction false} LastErrorFront(msgs: seq<Bytes>)
    requires msgs != []
    ensures LastErrorBody(msgs) == if LastErrorBody(msgs[1..]).Some? then LastErrorBody(msgs[1..])
                                   else LastErrorBody([msgs[0]])
    decreases |msgs|
  {
    if |msgs| == 1 {
      assert msgs == [msgs[0]] && msgs[1..] == [];
    } else {
      var n := |msgs| - 1;
      LastErrorFront(msgs[..n]);
      assert msgs[1..][..n - 1] == msgs[..n][1..];
    }
  }

  /** The status is told by which types of message there were, and the last error. */
  lemma {:induction false} StatusIsFold(st: Status, msgs: seq<Bytes>)
    requires forall i :: 0 <= i < |msgs| ==> WholeFrame(msgs[i])
    ensures var r := ObservedAll(st, msgs);
            && r.count == st.count + |msgs|
            && (r.sawError <==> st.sawError || HasTag(msgs, ERROR_RESPONSE))
            && (r.sawRfq <==> st.sawRfq || HasTag(msgs, READY_FOR_QUERY))
            && (r.complete <==> st.complete || HasTag(msgs, READY_FOR_QUERY))
            && r.lastError == (match LastErrorBody(msgs)
                               case None => st.lastError
                               case Some(body) => ParseErrorFields(body, NoError))
    decreases |msgs|
  {
    if msgs != [] {
      StatusIsFold(Observed(st, msgs[0]), msgs[1..]);
      HasTagFront(msgs, ERROR_RESPONSE);
      HasTagFront(msgs, READY_FOR_QUERY);
      LastErrorFront(msgs);
      OneError(msgs[0]);
    }
  }

  /** From a new status on: failed iff some ErrorResponse, complete iff some ReadyForQuery. */
  lemma NewStatusTells(msgs: seq<Bytes>)
    requires forall i :: 0 <= i < |msgs| ==> WholeFrame(msgs[i])
    ensures var r := ObservedAll(NewStatus, msgs);
            && r.count == |msgs|
            && (r.sawError <==> HasTag(msgs, ERROR_RESPONSE))
            && (r.complete <==> r.sawRfq) && (r.complete <==> HasTag(msgs, READY_FOR_QUERY))
            && (!r.sawError ==> r.lastError == NoError)
  {
    StatusIsFold(NewStatus, msgs);
    if LastErrorBody(msgs).Some? {
      LastErrorHasTag(msgs);
    }
  }

  lemma {:induction false} LastErrorHasTag(msgs: seq<Bytes>)
    requires LastErrorBody(msgs).Some?
    ensures HasTag(msgs, ERROR_RESPONSE)
  {
    var n := |msgs| - 1;
    if !(|msgs[n]| >= 5 && msgs[n][0] == ERROR_RESPONSE) {
      LastErrorHasTag(msgs[..n]);
      var i :| 0 <= i < n && |msgs[..n][i]| > 0 && msgs[..n][i][0] == ERROR_RESPONSE;
      assert msgs[i][0] == ERROR_RESPONSE;
    }
  }

  lemma OneError(msg: Bytes)
    requires WholeFrame(msg)
    ensures LastErrorBody([msg]) == if msg[0] == ERROR_RESPONSE then Some(msg[5..]) else None
  {
    assert [msg][..0] == [];
  }

  // ---------- what is left in the client ----------

  lemma {:induction false} EmptiedLeaves(s: State)
    requires Valid(s)
    ensures var r := Emptied(s);
            && r.ring == [] && r.input == s.input && r.output == s.output
            && r.mem.phase == s.mem.phase && r.mem.auth == s.mem.auth
            && r.role == s.role && r.maxSize == s.maxSize
    decreases |s.ring|
  {
    if s.ring != [] {
      EmptiedLeaves(Dequeue(s).1);
    }
  }

  lemma ClientTurn(s: State)
    requires Valid(s) && s.role == Client && !Waits(s)
    ensures var r := Advance(s);
            && r.output == s.output && r.role == Client && r.maxSize == s.maxSize
            && (r.mem.phase == s.mem.phase || r.mem.phase == Ready)
            && (r.mem.auth == s.mem.auth || r.mem.auth == AuthDone)
  {
  }

  /** All frames but one of exactly 4 GiB at a client that takes less. */
  predicate Skippable(maxSize: nat, msg: Bytes) {
    WholeFrame(msg) && (|msg| < TWO_TO_THE_32 || maxSize >= TWO_TO_THE_32 - 1)
  }

  lemma FrameIsOneTurn(s: State)
    requires Valid(s) && s.role == Client && Skippable(s.maxSize, s.input)
    ensures !Waits(s) && Advance(s).input == []
  {
    hide Advance;
    TurnLeaves(s);
    assert s.input[|s.input|..] == [];
  }

  /** The one frame that a client with nothing buffered never gets through. */
  lemma FrameHaltsIff(s: State, msg: Bytes)
    requires Valid(s) && s.role == Client && s.input == [] && WholeFrame(msg)
    ensures Halts(Append(s, msg)) <==> Skippable(s.maxSize, msg)
  {
    var t := Append(s, msg);
    Neutral(msg);
    HaltsBelowIff(t);
  }

  lemma OneTurnDrains(s: State)
    requires Valid(s) && s.role == Client && !Waits(s) && Advance(s).input == [] && Advance(s).role == Client
    ensures Drain(s) == Advance(s)
  {
    assert Waits(Advance(s));
  }

  /** One whole frame is used up in one turn, even when it is oversized. */
  lemma FrameIsUsedUp(s: State, msg: Bytes)
    requires Valid(s) && s.role == Client && s.input == [] && Skippable(s.maxSize, msg)
    ensures NeverWraps(Append(s, msg))
    ensures var r := Feed(s, msg);
            && r.input == [] && r.output == s.output && r.role == Client && r.maxSize == s.maxSize
            && (r.mem.phase == s.mem.phase || r.mem.phase == Ready)
            && (r.mem.auth == s.mem.auth || r.mem.auth == AuthDone)
  {
    var t := Append(s, msg);
    Neutral(msg);
    FrameIsOneTurn(t);
    ClientTurn(t);
    OneTurnDrains(t);
  }

  lemma FedLeaves(s: State, msg: Bytes)
    requires Valid(s) && s.role == Client && s.input == [] && Skippable(s.maxSize, msg)
    ensures var r := Fed(s, msg);
            && r.input == [] && r.ring == [] && r.output == s.output && r.role == Client && r.maxSize == s.maxSize
            && (s.mem.phase == Ready || msg[0] == READY_FOR_QUERY ==> r.mem.phase == Ready)
            && (s.mem.auth == AuthDone ==> r.mem.auth == AuthDone)
  {
    FrameIsUsedUp(s, msg);
    EmptiedLeaves(Feed(s, msg));
  }

  /**
   Feeding whole frames, oversized ones included, leaves nothing buffered or
   queued, sends nothing, keeps the authentication, and the client is ready
   after any ReadyForQuery.
   */
  lemma {:induction false} PipelineRecovers(s: State, msgs: seq<Bytes>)
    requires Valid(s) && s.role == Client && s.input == []
    requires forall i :: 0 <= i < |msgs| ==> WholeFrame(msgs[i]) && Skippable(s.maxSize, msgs[i])
    ensures var r := FedAll(s, msgs);
            && r.input == [] && r.output == s.output
            && (msgs != [] ==> r.ring == [])
            && (s.mem.phase == Ready || HasTag(msgs, READY_FOR_QUERY) ==> r.mem.phase == Ready)
            && (s.mem.auth == AuthDone ==> r.mem.auth == AuthDone)
    decreases |msgs|
  {
    if msgs != [] {
      FedLeaves(s, msgs[0]);
      HasTagFront(msgs, READY_FOR_QUERY);
      PipelineRecovers(Fed(s, msgs[0]), msgs[1..]);
    }
  }
}
