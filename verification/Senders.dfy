/**
 The functions that build a message in a buffer of their own and append it to
 the output of a context. Each says exactly when it succeeds, what it appends,
 and that nothing else of the context changes.
 */
module Senders {
  import opened Wire
  import opened Messages
  import opened Parsers
  import opened Buffers
  import opened Engine
  import opened Contexts
  import opened BindRewrite
  import opened BindRewriters

  // ---------- StartupMessage ----------

  const STARTUP_BUFFER: nat := 512

  /** A key and its value, each with its terminator; the value is checked against the buffer first. */
  method PutPair(buf: array<byte>, p: nat, key: Bytes, value: Bytes, slack: nat) returns (ok: bool, q: nat)
    requires p + |key| + 1 <= buf.Length
    modifies buf
    ensures ok <==> p + |key| + 1 + |value| + 1 + slack < buf.Length
    ensures ok ==> q == p + |key| + 1 + |value| + 1
    ensures ok ==> buf[..q] == old(buf[..p]) + ((key + [0]) + (value + [0]))
  {
    ghost var was := buf[..p];
    MemCpy(buf, p, key + [0]);
    q := p + |key| + 1;
    ok := q + |value| + 1 + slack < buf.Length;
    if ok {
      MemCpy(buf, q, value + [0]);
      q := q + |value| + 1;
      Assoc(was, key + [0], value + [0]);
    }
  }

  /** Where the copy of the second key ends; None when the user name was refused before it. */
  function SecondKeyEnd(user: Bytes): (r: Option<nat>) {
    var p := 8 + |USER_KEY| + 1 + |user| + 1;
    if p >= STARTUP_BUFFER then None else Some(p + |DATABASE_KEY| + 1)
  }

  predicate SecondKeyFits(user: Bytes) {
    SecondKeyEnd(user).Some? ==> SecondKeyEnd(user).value <= STARTUP_BUFFER
  }

  /** The key is copied without a check of its own, so not every accepted user name leaves room for it. */
  lemma SecondKeyFitsIff(user: Bytes)
    ensures SecondKeyFits(user) <==> |user| < 490 || |user| >= 498
  {
    assert |USER_KEY| == 4 && |DATABASE_KEY| == 8;
  }

  lemma SecondKeyOverruns(user: Bytes)
    requires |user| == 490
    ensures SecondKeyEnd(user) == Some(STARTUP_BUFFER + 1) && !SecondKeyFits(user)
  {
    assert |USER_KEY| == 4 && |DATABASE_KEY| == 8;
  }

  /** The fields of the message, behind the room for its length word. */
  /** Both pairs and the empty key behind the version, the room for the second key left to the caller. */
  method BuildPairs(buf: array<byte>, at: nat, user: Bytes, database: Bytes) returns (ok: bool, p: nat)
    requires at == 8 && buf.Length == STARTUP_BUFFER && SecondKeyFits(user)
    modifies buf
    ensures ok <==> |user| < 498 && |user| + |database| + 25 < STARTUP_BUFFER
    ensures ok ==> p == at + |user| + |database| + 17
                   && buf[..p] == old(buf[..at]) + ((USER_KEY + [0]) + (user + [0]))
                                  + ((DATABASE_KEY + [0]) + (database + [0])) + [0]
  {
    assert |USER_KEY| == 4 && |DATABASE_KEY| == 8;
    ok, p := PutPair(buf, at, USER_KEY, user, 0);
    if !ok { return; }
    assert SecondKeyEnd(user) == Some(p + |DATABASE_KEY| + 1);
    ok, p := PutPair(buf, p, DATABASE_KEY, database, 1);
    if !ok { return; }
    MemCpy(buf, p, [0]);
    p := p + 1;
  }

  method BuildStartup(buf: array<byte>, user: Bytes, database: Bytes) returns (ok: bool, p: nat)
    requires buf.Length == STARTUP_BUFFER && SecondKeyFits(user)
    modifies buf
    ensures ok <==> |user| < 498 && |StartupPacket(user, database)| < STARTUP_BUFFER
    ensures ok ==> 4 <= p <= buf.Length && buf[4..p] == StartupBody(user, database)
  {
    StartupParts(user, database);
    assert |StartupPacket(user, database)| == |user| + |database| + 25;
    hide *;
    MemCpy(buf, 4, Wr32(PROTOCOL_3_0));
    ghost var head := buf[..8];
    assert head[4..] == Wr32(PROTOCOL_3_0);
    ok, p := BuildPairs(buf, 8, user, database);
    if ok {
      ghost var pairs := ((USER_KEY + [0]) + (user + [0]));
      ghost var more := ((DATABASE_KEY + [0]) + (database + [0]));
      assert buf[4..p] == buf[..p][4..];
      assert (head + pairs + more + [0])[4..] == head[4..] + pairs + more + [0];
    }
  }

  /** The length word counts itself and what is behind it. */
  method FinishLength(buf: array<byte>, p: nat)
    requires 4 <= p <= buf.Length < TWO_TO_THE_32
    modifies buf
    ensures buf[..p] == Wr32(p) + old(buf[4..p])
  {
    ghost var body := buf[4..p];
    MemCpy(buf, 0, Wr32(p));
    assert buf[4..p] == buf[4..][..p - 4];
    assert buf[..p] == buf[..4] + buf[4..p];
  }

  method BuildPacket(buf: array<byte>, user: Bytes, database: Bytes) returns (ok: bool, p: nat)
    requires buf.Length == STARTUP_BUFFER && SecondKeyFits(user)
    modifies buf
    ensures ok <==> |user| < 498 && |StartupPacket(user, database)| < STARTUP_BUFFER
    ensures ok ==> p <= buf.Length && buf[..p] == StartupPacket(user, database)
  {
    ok, p := BuildStartup(buf, user, database);
    if ok {
      FinishLength(buf, p);
    }
  }

  lemma StartupParts(user: Bytes, database: Bytes)
    ensures StartupBody(user, database)
            == Wr32(PROTOCOL_3_0) + ((USER_KEY + [0]) + (user + [0]))
               + ((DATABASE_KEY + [0]) + (database + [0])) + [0]
  {
  }

  /**
   The buffer is checked before the user name goes in, but not again before
   the key behind it: that it fits is left to the caller.
   */
  method SendStartup(ctx: Context, user: Bytes, database: Bytes) returns (rc: int)
    requires ctx.Valid() && NulFree(user) && NulFree(database)
    requires SecondKeyFits(user)
    modifies ctx`outputBuf, ctx`outputLen, ctx.outputBuf
    ensures ctx.Valid() && (ctx.outputBuf == old(ctx.outputBuf) || fresh(ctx.outputBuf))
    ensures rc == 0 || rc == -1
    ensures rc == 0 <==> ctx.role == Client && |user| < 498 && |StartupPacket(user, database)| < STARTUP_BUFFER
    ensures ctx.Abs() == if rc == 0 then Output(old(ctx.Abs()), StartupPacket(user, database)) else old(ctx.Abs())
  {
    if ctx.role != Client {
      return -1;
    }
    var buf := new byte[STARTUP_BUFFER];
    var ok, p := BuildPacket(buf, user, database);
    if !ok {
      return -1;
    }
    ctx.AppendOutput(buf[..p]);
    rc := 0;
  }

  // ---------- small messages ----------

  method SendQuery(ctx: Context, sql: Bytes) returns (rc: int)
    requires ctx.Valid() && NulFree(sql)
    modifies ctx`outputBuf, ctx`outputLen, ctx.outputBuf
    ensures ctx.Valid() && (ctx.outputBuf == old(ctx.outputBuf) || fresh(ctx.outputBuf))
    ensures rc == 0 && ctx.Abs() == Output(old(ctx.Abs()), Encode(QueryMsg(sql)))
  {
    ctx.EmitMsg(QUERY, sql + [0]);
    rc := 0;
  }

  method SendNamed(ctx: Context, tag: byte, target: byte, name: Bytes) returns (rc: int)
    requires ctx.Valid() && NulFree(name)
    modifies ctx`outputBuf, ctx`outputLen, ctx.outputBuf
    ensures ctx.Valid() && (ctx.outputBuf == old(ctx.outputBuf) || fresh(ctx.outputBuf))
    ensures rc == 0 || rc == -1
    ensures rc == 0 <==> |name| <= MAX_NAME
    ensures ctx.Abs() == if rc == 0 then Output(old(ctx.Abs()), Frame(tag, NamedBody(target, name)))
                         else old(ctx.Abs())
  {
    var buf := new byte[MAX_NAME + 2];
    if 1 + |name| + 1 > buf.Length {
      return -1;
    }
    MemCpy(buf, 0, [target]);
    MemCpy(buf, 1, name + [0]);
    assert buf[..1 + |name| + 1] == NamedBody(target, name);
    ctx.EmitMsg(tag, buf[..1 + |name| + 1]);
    rc := 0;
  }

  method SendExecute(ctx: Context, portal: Bytes, maxRows: u32) returns (rc: int)
    requires ctx.Valid() && NulFree(portal)
    modifies ctx`outputBuf, ctx`outputLen, ctx.outputBuf
    ensures ctx.Valid() && (ctx.outputBuf == old(ctx.outputBuf) || fresh(ctx.outputBuf))
    ensures rc == 0 || rc == -1
    ensures rc == 0 <==> |portal| + 5 <= MAX_NAME + 8
    ensures ctx.Abs() == if rc == 0 then Output(old(ctx.Abs()), Encode(ExecuteMsg(portal, maxRows)))
                         else old(ctx.Abs())
  {
    var buf := new byte[MAX_NAME + 8];
    if |portal| + 1 + 4 > buf.Length {
      return -1;
    }
    MemCpy(buf, 0, portal + [0]);
    MemCpy(buf, |portal| + 1, Wr32(maxRows));
    assert buf[..|portal| + 5] == ExecuteBody(portal, maxRows);
    ctx.EmitMsg(EXECUTE, buf[..|portal| + 5]);
    rc := 0;
  }

  method SendBare(ctx: Context, tag: byte) returns (rc: int)
    requires ctx.Valid()
    modifies ctx`outputBuf, ctx`outputLen, ctx.outputBuf
    ensures ctx.Valid() && (ctx.outputBuf == old(ctx.outputBuf) || fresh(ctx.outputBuf))
    ensures rc == 0 && ctx.Abs() == Output(old(ctx.Abs()), Frame(tag, []))
  {
    ctx.EmitMsg(tag, []);
    rc := 0;
  }

  method SendReadyForQuery(ctx: Context) returns (rc: int)
    requires ctx.Valid()
    modifies ctx`outputBuf, ctx`outputLen, ctx.outputBuf, ctx`phase
    ensures ctx.Valid() && (ctx.outputBuf == old(ctx.outputBuf) || fresh(ctx.outputBuf))
    ensures rc == 0 && ctx.Abs() == Output(Engine.NoteReady(old(ctx.Abs())), Frame(READY_FOR_QUERY, [73]))
    ensures ctx.phase == Ready
  {
    ctx.NoteReady();
    ctx.EmitMsg(READY_FOR_QUERY, [73]);
    rc := 0;
  }

  // ---------- Parse ----------

  const PARSE_BUFFER: nat := MAX_QUERY + 256

  method WriteU32s(dst: array<byte>, at: nat, vs: seq<u32>) returns (p: nat)
    requires at + 4 * |vs| <= dst.Length
    modifies dst
    ensures p == at + 4 * |vs|
    ensures dst[..p] == old(dst[..at]) + PutU32s(vs)
  {
    p := at;
    for i := 0 to |vs|
      invariant p == at + 4 * i
      invariant dst[..p] == old(dst[..at]) + PutU32s(vs[..i])
    {
      MemCpy(dst, p, Wr32(vs[i]));
      p := p + 4;
      assert vs[..i + 1][..i] == vs[..i];
    }
    assert vs[..|vs|] == vs;
  }

  method BuildParse(buf: array<byte>, p: Parse) returns (at: nat)
    requires Encodable(ParseMsg(p)) && |ParseBody(p)| <= buf.Length
    modifies buf
    ensures at == |ParseBody(p)| && buf[..at] == ParseBody(p)
  {
    hide PutU32s;
    var n1, n2 := |p.statement| + 1, |p.query| + 1;
    MemCpy(buf, 0, p.statement + [0]);
    MemCpy(buf, n1, p.query + [0]);
    MemCpy(buf, n1 + n2, Wr16(|p.paramTypes|));
    at := WriteU32s(buf, n1 + n2 + 2, p.paramTypes);
    assert buf[..at] == (p.statement + [0]) + (p.query + [0]) + Wr16(|p.paramTypes|) + PutU32s(p.paramTypes);
  }

  method SendParse(ctx: Context, p: Parse) returns (rc: int)
    requires ctx.Valid() && Encodable(ParseMsg(p))
    modifies ctx`outputBuf, ctx`outputLen, ctx.outputBuf
    ensures ctx.Valid() && (ctx.outputBuf == old(ctx.outputBuf) || fresh(ctx.outputBuf))
    ensures rc == 0 || rc == -1
    ensures rc == 0 <==> |ParseBody(p)| <= PARSE_BUFFER
    ensures ctx.Abs() == if rc == 0 then Output(old(ctx.Abs()), Encode(ParseMsg(p))) else old(ctx.Abs())
  {
    var buf := new byte[PARSE_BUFFER];
    if |p.statement| + 1 + (|p.query| + 1) + 2 + |p.paramTypes| * 4 > buf.Length {
      return -1;
    }
    var at := BuildParse(buf, p);
    ctx.EmitMsg(PARSE, buf[..at]);
    rc := 0;
  }

  // ---------- Bind ----------

  /** Where the writer stands and how big its buffer is after the parameters; None when it gives up. */
  function Room(ps: seq<Param>, p: nat, cap: nat): (r: Option<(nat, nat)>)
    requires p <= cap
    ensures r.Some? ==> p <= r.value.0 <= r.value.1
  {
    if ps == [] then Some((p, cap))
    else if p + 4 > cap then None
    else if ps[0].length <= 0 then Room(ps[1..], p + 4, cap)
    else
      var q := p + 4 + ps[0].length;
      Room(ps[1..], q, if q > cap then q + 1024 else cap)
  }

  /** The buffer is sized for 256 bytes a parameter and grown only for a value that does not fit. */
  predicate BindFits(portal: Bytes, statement: Bytes, formats: nat, params: seq<Param>, resultFormats: nat) {
    var cap := 64 + |params| * 256;
    var head := |portal| + 1 + |statement| + 1 + 2 + formats * 2 + 2;
    && head <= cap
    && Room(params, head, cap).Some?
    && Room(params, head, cap).value.0 + 2 + resultFormats * 2 <= Room(params, head, cap).value.1
  }

  lemma {:induction false} RoomWithin(ps: seq<Param>, p: nat, cap: nat)
    requires AllPresent(ps) && p + |PutParams(ps)| <= cap
    ensures Room(ps, p, cap) == Some((p + |PutParams(ps)|, cap))
    decreases |ps|
  {
    if ps != [] {
      PutParamsFront(ps);
      hide PutParams, ParamBytes;
      assert Present(ps[0]);
      RoomWithin(ps[1..], p + |ParamBytes(ps[0])|, cap);
    }
  }

  /** A Bind whose whole body fits the first buffer is never refused. */
  lemma SmallBindFits(portal: Bytes, statement: Bytes, formats: seq<i16>, params: seq<Param>, resultFormats: seq<i16>)
    requires |formats| < 0x1_0000 && |params| < 0x1_0000 && |resultFormats| < 0x1_0000 && AllPresent(params)
    requires |BindBody(portal, statement, formats, params, resultFormats)| <= 64 + |params| * 256
    ensures BindFits(portal, statement, |formats|, params, |resultFormats|)
  {
    hide PutParams, PutI16s, Room;
    RoomWithin(params, |portal| + 1 + |statement| + 1 + 2 + |formats| * 2 + 2, 64 + |params| * 256);
  }

  /** Another one may be: here the first value leaves three bytes for the length word of the second. */
  lemma FullBufferIsRefused(v: Bytes)
    requires |v| == 563
    ensures var ps := [Param(563, Some(v), 0), Param(-1, None, 0)];
            AllPresent(ps) && |BindBody([], [], [], ps, [])| == 579 && !BindFits([], [], 0, ps, 0)
  {
    var p, q := Param(563, Some(v), 0), Param(-1, None, 0);
    var ps, qs := [p, q], [q];
    assert ps[1..] == qs && qs[1..] == [];
    assert |ParamBytes(p)| == 567 && |ParamBytes(q)| == 4 && PutParams([]) == [] && PutI16s([]) == [];
    PutParamsFront(ps);
    PutParamsFront(qs);
    hide PutParams, ParamBytes, PutI16s;
    assert |PutParams(ps)| == 571;
    assert Room(qs, 573, 576) == None;
    assert Room(ps, 6, 576) == Room(qs, 573, 576);
  }

  /** A value that does not fit leaves 1024 bytes behind it, enough for all that fit those. */
  lemma GrownBufferHolds(p: Param, ps: seq<Param>, at: nat, cap: nat)
    requires AllPresent(ps) && p.length > 0 && at + 4 <= cap < at + 4 + p.length
    requires |PutParams(ps)| <= 1024
    ensures Room([p] + ps, at, cap) == Some((at + 4 + p.length + |PutParams(ps)|, at + 4 + p.length + 1024))
  {
    assert ([p] + ps)[1..] == ps && ([p] + ps)[0] == p;
    RoomWithin(ps, at + 4 + p.length, at + 4 + p.length + 1024);
  }

  /** A first value that leaves less than a length word of the first buffer makes any other be refused. */
  lemma LeftoverIsRefused(portal: Bytes, statement: Bytes, formats: nat, p: Param, ps: seq<Param>, results: nat)
    requires ps != [] && p.length > 0
    requires var at := |portal| + |statement| + 6 + formats * 2;
             at + 4 + p.length <= 64 + (1 + |ps|) * 256 < at + 4 + p.length + 4
    ensures !BindFits(portal, statement, formats, [p] + ps, results)
  {
    var all := [p] + ps;
    assert all[1..] == ps && all[0] == p && |all| == 1 + |ps|;
    var at, cap := |portal| + |statement| + 6 + formats * 2, 64 + |all| * 256;
    assert Room(ps, at + 4 + p.length, cap) == None;
    assert Room(all, at, cap) == Room(ps, at + 4 + p.length, cap);
  }

  /** Values that are given are as long as their length says. */
  predicate Sized(ps: seq<Param>) {
    forall i :: 0 <= i < |ps| && ps[i].length > 0 && ps[i].data.Some? ==> ps[i].length <= |ps[i].data.value|
  }

  method BuildNames(buf: array<byte>, portal: Bytes, statement: Bytes) returns (p: nat)
    requires |portal| + 1 + |statement| + 1 <= buf.Length
    modifies buf
    ensures p == |portal| + 1 + |statement| + 1
    ensures buf[..p] == portal + [0] + (statement + [0])
  {
    MemCpy(buf, 0, portal + [0]);
    p := |portal| + 1;
    assert buf[..p] == portal + [0];
    MemCpy(buf, p, statement + [0]);
    p := p + |statement| + 1;
  }

  /** Portal, statement, format codes and the parameter count; the caller checked the room. */
  method BuildBindHead(buf: array<byte>, portal: Bytes, statement: Bytes, formats: seq<i16>, n: u16)
    returns (p: nat)
    requires |formats| < 0x1_0000
    requires |portal| + 1 + |statement| + 1 + 2 + |formats| * 2 + 2 <= buf.Length
    modifies buf
    ensures p == |portal| + 1 + |statement| + 1 + 2 + |formats| * 2 + 2
    ensures buf[..p] == portal + [0] + (statement + [0]) + Wr16(|formats|) + PutI16s(formats) + Wr16(n)
  {
    hide PutI16s, Wr16;
    p := BuildNames(buf, portal, statement);
    MemCpy(buf, p, Wr16(|formats|));
    p := WriteI16s(buf, p + 2, formats);
    MemCpy(buf, p, Wr16(n));
    p := p + 2;
  }

  /** `q` is `p` with some bytes for a value that was not given. */
  predicate Completes(p: Param, q: Param) {
    q.length == p.length && q.format == p.format && Present(q) && (Present(p) ==> q == p)
  }

  predicate AllComplete(ps: seq<Param>, qs: seq<Param>) {
    |qs| == |ps| && forall i :: 0 <= i < |ps| ==> Completes(ps[i], qs[i])
  }

  lemma CompleteIsPresent(ps: seq<Param>, qs: seq<Param>)
    requires AllComplete(ps, qs)
    ensures AllPresent(qs) && (AllPresent(ps) ==> qs == ps)
  {
    forall i | 0 <= i < |ps|
      ensures Present(qs[i]) && (AllPresent(ps) ==> qs[i] == ps[i])
    {
      assert Completes(ps[i], qs[i]);
    }
  }

  /** Room for a value, and the value when it was given; else the bytes are those of the fresh buffer. */
  method BuildValue(buf: array<byte>, p: nat, len: nat, data: Option<Bytes>)
    returns (r: array<byte>, q: nat, ghost v: Bytes)
    requires p <= buf.Length && (data.Some? ==> len <= |data.value|)
    modifies buf
    ensures r == buf || fresh(r)
    ensures q == p + len <= r.Length && r.Length == if q > buf.Length then q + 1024 else buf.Length
    ensures |v| == len && (data.Some? ==> v == data.value[..len])
    ensures r[..q] == old(buf[..p]) + v
  {
    r, q := buf, p + len;
    if q > buf.Length {
      r := Grown(buf, p, q + 1024);
    }
    if data.Some? {
      MemCpy(r, p, data.value[..len]);
      v := data.value[..len];
    } else {
      v := r[p..q];
    }
  }

  lemma BytesOfSent(was: Bytes, param: Param, sent: Param, v: Bytes)
    requires Completes(param, sent) && v == if param.length > 0 then sent.data.value[..param.length] else []
    ensures was + Wr32(ToU32(param.length)) + v == was + ParamBytes(sent)
  {
    Assoc(was, Wr32(ToU32(param.length)), v);
  }

  /** One parameter: its length word and, when that is positive, a value. */
  method BuildParam(buf: array<byte>, p: nat, param: Param) returns (r: array<byte>, q: nat, ghost sent: Param)
    requires p + 4 <= buf.Length && Sized([param])
    modifies buf
    ensures r == buf || fresh(r)
    ensures q == p + 4 + (if param.length > 0 then param.length else 0) <= r.Length
    ensures Some((q, r.Length)) == Room([param], p, buf.Length)
    ensures Completes(param, sent) && r[..q] == old(buf[..p]) + ParamBytes(sent)
  {
    assert param == [param][0];
    ghost var was := buf[..p];
    ghost var v: Bytes := [];
    hide Wr32, ToU32, ParamBytes;
    MemCpy(buf, p, Wr32(ToU32(param.length)));
    r, q, sent := buf, p + 4, param;
    if param.length > 0 {
      r, q, v := BuildValue(buf, q, param.length, param.data);
      sent := if param.data.Some? then param else param.(data := Some(v));
    } else {
      Neutral(was + Wr32(ToU32(param.length)));
    }
    BytesOfSent(was, param, sent, v);
  }

  lemma {:induction false} RoomOfPrefix(ps: seq<Param>, i: nat, p: nat, cap: nat)
    requires i <= |ps| && p <= cap && Room(ps[..i], p, cap).Some?
    ensures var (q, room) := Room(ps[..i], p, cap).value;
            Room(ps, p, cap) == Room(ps[i..], q, room)
    decreases i
  {
    if i == 0 {
      assert ps[0..] == ps;
    } else {
      var q := p + 4 + (if ps[0].length > 0 then ps[0].length else 0);
      assert ps[..i][0] == ps[0] && ps[..i][1..] == ps[1..][..i - 1];
      assert ps[1..][i - 1..] == ps[i..];
      RoomOfPrefix(ps[1..], i - 1, q, if q > cap then q + 1024 else cap);
    }
  }

  lemma OneMoreSent(ps: seq<Param>, i: nat, sent: seq<Param>, one: Param)
    requires i < |ps| && AllComplete(ps[..i], sent) && AllPresent(sent) && Completes(ps[i], one)
    ensures AllComplete(ps[..i + 1], sent + [one]) && AllPresent(sent + [one])
    ensures PutParams(sent + [one]) == PutParams(sent) + ParamBytes(one)
  {
    assert ps[..i + 1] == ps[..i] + [ps[i]] && (sent + [one])[..i] == sent;
  }

  /** The loop over the parameters; the buffer may be replaced on the way. */
  method BuildParams(buf: array<byte>, p: nat, ps: seq<Param>)
    returns (ok: bool, r: array<byte>, q: nat, ghost sent: seq<Param>)
    requires p <= buf.Length && Sized(ps)
    modifies buf
    ensures r == buf || fresh(r)
    ensures ok <==> Room(ps, p, buf.Length).Some?
    ensures ok ==> p <= q <= r.Length && Room(ps, p, buf.Length) == Some((q, r.Length))
    ensures ok ==> AllComplete(ps, sent) && AllPresent(sent) && r[..q] == old(buf[..p]) + PutParams(sent)
  {
    ghost var was := buf[..p];
    ghost var cap := buf.Length;
    r, q, sent := buf, p, [];
    assert PutParams([]) == [] && AllComplete(ps[..0], []) && Room(ps[..0], p, cap) == Some((p, cap));
    Neutral(was);
    hide Room, PutParams, ParamBytes, AllComplete, Completes;
    for i := 0 to |ps|
      invariant r == buf || fresh(r)
      invariant p <= q <= r.Length && Room(ps[..i], p, cap) == Some((q, r.Length))
      invariant AllComplete(ps[..i], sent) && AllPresent(sent) && r[..q] == was + PutParams(sent)
    {
      RoomOfPrefix(ps, i, p, cap);
      assert ps[i..][0] == ps[i];
      if q + 4 > r.Length {
        return false, r, q, sent;
      }
      NextRoom(ps, i, p, cap);
      ghost var one;
      ghost var before := sent;
      r, q, one := BuildParam(r, q, ps[i]);
      OneMoreSent(ps, i, before, one);
      sent := before + [one];
      Assoc(was, PutParams(before), ParamBytes(one));
    }
    assert ps[..|ps|] == ps;
    ok := true;
  }

  lemma NextRoom(ps: seq<Param>, i: nat, p: nat, cap: nat)
    requires i < |ps| && p <= cap && Room(ps[..i], p, cap).Some?
    ensures var (q, room) := Room(ps[..i], p, cap).value;
            Room(ps[..i + 1], p, cap) == Room([ps[i]], q, room)
  {
    var qs := ps[..i + 1];
    assert qs[..i] == ps[..i] && qs[i..] == [ps[i]];
    RoomOfPrefix(qs, i, p, cap);
  }

  method BuildResultFormats(buf: array<byte>, p: nat, vs: seq<i16>) returns (q: nat)
    requires |vs| < 0x1_0000 && p + 2 + 2 * |vs| <= buf.Length
    modifies buf
    ensures q == p + 2 + 2 * |vs| && buf[..q] == old(buf[..p]) + Wr16(|vs|) + PutI16s(vs)
  {
    MemCpy(buf, p, Wr16(|vs|));
    q := WriteI16s(buf, p + 2, vs);
  }

  /** The whole body, in a buffer whose size decides whether there is room. */
  method BuildBind(portal: Bytes, statement: Bytes, formats: seq<i16>, params: seq<Param>, resultFormats: seq<i16>)
    returns (ok: bool, body: Bytes, ghost sent: seq<Param>)
    requires |formats| < 0x1_0000 && |params| < 0x1_0000 && |resultFormats| < 0x1_0000 && Sized(params)
    ensures ok <==> BindFits(portal, statement, |formats|, params, |resultFormats|)
    ensures ok ==> AllComplete(params, sent) && AllPresent(sent)
                   && body == BindBody(portal, statement, formats, sent, resultFormats)
  {
    hide Room, BindBody, PutParams, PutI16s, Completes;
    ok, body, sent := false, [], [];
    var buf := new byte[64 + |params| * 256];
    if |portal| + 1 + |statement| + 1 > buf.Length
       || |portal| + 1 + |statement| + 1 + 2 + |formats| * 2 > buf.Length
       || |portal| + 1 + |statement| + 1 + 2 + |formats| * 2 + 2 > buf.Length {
      return;
    }
    var p := BuildBindHead(buf, portal, statement, formats, |params|);
    var room, r, q;
    room, r, q, sent := BuildParams(buf, p, params);
    if !room || q + 2 + |resultFormats| * 2 > r.Length {
      return;
    }
    q := BuildResultFormats(r, q, resultFormats);
    ok, body := true, r[..q];
    ghost var p2, p3, p4, p5, p6, p7 := BodyParts(portal, statement, formats, sent, resultFormats);
  }

  /** `sent` is what was given, with whatever the fresh buffer held for values that were not. */
  method SendBind(ctx: Context, portal: Bytes, statement: Bytes, formats: seq<i16>, params: seq<Param>,
                  resultFormats: seq<i16>)
    returns (rc: int, ghost sent: seq<Param>)
    requires ctx.Valid() && NulFree(portal) && NulFree(statement)
    requires |formats| < 0x1_0000 && |params| < 0x1_0000 && |resultFormats| < 0x1_0000 && Sized(params)
    modifies ctx`outputBuf, ctx`outputLen, ctx.outputBuf
    ensures ctx.Valid() && (ctx.outputBuf == old(ctx.outputBuf) || fresh(ctx.outputBuf))
    ensures rc == 0 || rc == -1
    ensures rc == 0 <==> BindFits(portal, statement, |formats|, params, |resultFormats|)
    ensures rc == 0 ==>
              && AllComplete(params, sent) && AllPresent(sent) && (AllPresent(params) ==> sent == params)
              && ctx.Abs() == Output(old(ctx.Abs()), Encode(BindMsg(portal, statement, formats, sent, resultFormats)))
    ensures rc != 0 ==> ctx.Abs() == old(ctx.Abs())
  {
    var ok, bytes;
    ok, bytes, sent := BuildBind(portal, statement, formats, params, resultFormats);
    if !ok {
      return -1, sent;
    }
    CompleteIsPresent(params, sent);
    ctx.EmitMsg(BIND, bytes);
    rc := 0;
  }

  // ---------- Bind from owned parameters, and the direct rewrite ----------

  method SendBindParams(ctx: Context, portal: Bytes, statement: Bytes, params: seq<Param>, resultFormats: seq<i16>)
    returns (rc: int, ghost sent: seq<Param>)
    requires ctx.Valid() && NulFree(portal) && NulFree(statement)
    requires |params| < 0x1_0000 && |resultFormats| < 0x1_0000 && Sized(params)
    modifies ctx`outputBuf, ctx`outputLen, ctx.outputBuf
    ensures ctx.Valid() && (ctx.outputBuf == old(ctx.outputBuf) || fresh(ctx.outputBuf))
    ensures rc == 0 || rc == -1
    ensures rc == 0 <==> |params| <= MAX_BIND_PARAMS
                         && BindFits(portal, statement, |params|, params, |resultFormats|)
    ensures rc == 0 ==>
              && AllComplete(params, sent) && AllPresent(sent) && (AllPresent(params) ==> sent == params)
              && ctx.Abs() == Output(old(ctx.Abs()), Frame(BIND, ParamsBody(portal, statement, sent, resultFormats)))
    ensures rc != 0 ==> ctx.Abs() == old(ctx.Abs())
  {
    if |params| > MAX_BIND_PARAMS {
      return -1, [];
    }
    var formats: seq<i16> := [];
    for i := 0 to |params|
      invariant |formats| == i
      invariant forall j :: 0 <= j < i ==> formats[j] == params[j].format
    {
      formats := formats + [params[i].format];
    }
    rc, sent := SendBind(ctx, portal, statement, formats, params, resultFormats);
    if rc == 0 {
      forall i | 0 <= i < |params|
        ensures sent[i].format == formats[i]
      {
        assert Completes(params[i], sent[i]);
      }
      assert formats == FormatsOf(sent);
    }
  }

  const REWRITE_BUFFER: nat := 8192

  method SendBindRewriteIdentity(ctx: Context, b: Bind, portal: Bytes, statement: Bytes, slot: nat,
                                 identity: Bytes, asBinary: bool)
    returns (rc: int)
    requires ctx.Valid()
    requires AllPresent(b.params) && |b.params| <= MAX_BIND_PARAMS && |b.resultFormats| < 0x1_0000
    requires NulFree(identity) && |identity| < 0x8000_0000
    modifies ctx`outputBuf, ctx`outputLen, ctx.outputBuf
    ensures ctx.Valid() && (ctx.outputBuf == old(ctx.outputBuf) || fresh(ctx.outputBuf))
    ensures rc == 0 || rc == -1
    ensures rc == 0 <==> slot < |b.params|
                         && 5 + |RewrittenBody(b, portal, statement, slot, identity, asBinary)| <= REWRITE_BUFFER
    ensures ctx.Abs() == if rc == 0
                         then Output(old(ctx.Abs()),
                                     Frame(BIND, RewrittenBody(b, portal, statement, slot, identity, asBinary)))
                         else old(ctx.Abs())
  {
    var buf := new byte[REWRITE_BUFFER];
    var ok, n := RewriteZerocopy(b, portal, statement, slot, identity, asBinary, buf);
    if ok != 0 {
      return -1;
    }
    ctx.AppendOutput(buf[..n]);
    rc := 0;
  }

  /** Both ways append the same bytes exactly when every other parameter is copied faithfully. */
  lemma SameFramesIff(b: Bind, portal: Bytes, statement: Bytes, slot: nat, identity: Bytes, asBinary: bool)
    requires Rewritable(b, slot, identity)
    ensures Frame(BIND, InjectedBody(b, portal, statement, slot, identity, asBinary))
            == Frame(BIND, RewrittenBody(b, portal, statement, slot, identity, asBinary))
            <==> forall i :: 0 <= i < |b.params| && i != slot ==> CopiesFaithfully(b, i)
  {
    RewritersAgreeIff(b, portal, statement, slot, identity, asBinary);
    var x := InjectedBody(b, portal, statement, slot, identity, asBinary);
    var y := RewrittenBody(b, portal, statement, slot, identity, asBinary);
    assert Frame(BIND, x)[5..] == x && Frame(BIND, y)[5..] == y;
  }

  // ---------- the unnamed pipeline ----------

  method SendUnnamedPipeline(ctx: Context, query: Bytes, paramTypes: seq<u32>, formats: seq<i16>,
                             params: seq<Param>, resultFormats: seq<i16>, maxRows: u32)
    returns (rc: int, ghost sent: seq<Param>)
    requires ctx.Valid() && NulFree(query) && |paramTypes| < 0x1_0000
    requires |formats| < 0x1_0000 && |params| < 0x1_0000 && |resultFormats| < 0x1_0000 && Sized(params)
    modifies ctx`outputBuf, ctx`outputLen, ctx.outputBuf
    ensures ctx.Valid() && (ctx.outputBuf == old(ctx.outputBuf) || fresh(ctx.outputBuf))
    ensures rc == 0 || rc == -1
    ensures rc == 0 <==> |ParseBody(Parse([], query, paramTypes))| <= PARSE_BUFFER
                         && BindFits([], [], |formats|, params, |resultFormats|)
    ensures rc == 0 ==>
              && AllComplete(params, sent) && AllPresent(sent) && (AllPresent(params) ==> sent == params)
              && ctx.Abs() == Output(old(ctx.Abs()),
                                     Encode(ParseMsg(Parse([], query, paramTypes)))
                                     + Encode(BindMsg([], [], formats, sent, resultFormats))
                                     + Encode(ExecuteMsg([], maxRows)) + Encode(SyncMsg))
    ensures rc != 0 ==>
              ctx.Abs() == if |ParseBody(Parse([], query, paramTypes))| <= PARSE_BUFFER
                           then Output(old(ctx.Abs()), Encode(ParseMsg(Parse([], query, paramTypes))))
                           else old(ctx.Abs())
  {
    hide Context.Abs, Context.Valid, Frame, BindFits, BindBody;
    ghost var s := ctx.Abs();
    sent := [];
    rc := SendParse(ctx, Parse([], query, paramTypes));
    if rc != 0 {
      return;
    }
    ghost var parse := Encode(ParseMsg(Parse([], query, paramTypes)));
    assert ctx.Abs() == Output(s, parse);
    rc, sent := SendBind(ctx, [], [], formats, params, resultFormats);
    if rc != 0 {
      return;
    }
    ghost var bind := Encode(BindMsg([], [], formats, sent, resultFormats));
    OutputTwice(s, parse, bind);
    rc := SendExecuteAndSync(ctx, maxRows);
    ghost var execute := Encode(ExecuteMsg([], maxRows));
    OutputTwice(s, parse + bind, execute + Encode(SyncMsg));
    Assoc(parse + bind, execute, Encode(SyncMsg));
  }

  /** The unnamed portal always fits. */
  method SendExecuteAndSync(ctx: Context, maxRows: u32) returns (rc: int)
    requires ctx.Valid()
    modifies ctx`outputBuf, ctx`outputLen, ctx.outputBuf
    ensures ctx.Valid() && (ctx.outputBuf == old(ctx.outputBuf) || fresh(ctx.outputBuf))
    ensures rc == 0
    ensures ctx.Abs() == Output(old(ctx.Abs()), Encode(ExecuteMsg([], maxRows)) + Encode(SyncMsg))
  {
    hide Context.Abs, Context.Valid;
    ghost var s := ctx.Abs();
    rc := SendExecute(ctx, [], maxRows);
    rc := SendBare(ctx, SYNC);
    OutputTwice(s, Encode(ExecuteMsg([], maxRows)), Encode(SyncMsg));
  }

  lemma OutputTwice(s: State, a: Bytes, b: Bytes)
    ensures Output(Output(s, a), b) == Output(s, a + b)
  {
    Assoc(s.output, a, b);
  }

  // ---------- backend messages ----------

  const ROW_DESCRIPTION_BUFFER: nat := 2048

  lemma {:induction false} ColumnsPrefix(cs: seq<Column>, i: nat)
    requires i < |cs|
    ensures PutColumns(cs[..i + 1]) == PutColumns(cs[..i]) + ColumnBytes(cs[i])
    ensures |PutColumns(cs[..i + 1])| <= |PutColumns(cs)|
    decreases |cs| - i
  {
    assert cs[..i + 1][..i] == cs[..i];
    if i + 1 < |cs| {
      ColumnsPrefix(cs, i + 1);
    } else {
      assert cs[..i + 1] == cs;
    }
  }

  method BuildRowDescription(buf: array<byte>, cs: seq<Column>) returns (ok: bool, p: nat)
    requires |cs| <= MAX_ROW_COLUMNS && buf.Length == ROW_DESCRIPTION_BUFFER
    modifies buf
    ensures ok <==> |RowDescriptionBody(cs)| <= ROW_DESCRIPTION_BUFFER
    ensures ok ==> p <= buf.Length && buf[..p] == RowDescriptionBody(cs)
  {
    MemCpy(buf, 0, Wr16(|cs|));
    p := 2;
    for i := 0 to |cs|
      invariant 2 <= p <= buf.Length && buf[..p] == Wr16(|cs|) + PutColumns(cs[..i])
    {
      ColumnsPrefix(cs, i);
      if p + |cs[i].name| + 1 + COLUMN_FIXED > buf.Length {
        return false, p;
      }
      Assoc(Wr16(|cs|), PutColumns(cs[..i]), ColumnBytes(cs[i]));
      MemCpy(buf, p, ColumnBytes(cs[i]));
      p := p + |cs[i].name| + 1 + COLUMN_FIXED;
    }
    assert cs[..|cs|] == cs;
    ok := true;
  }

  /** At most 16 columns are described; the rest is left away. */
  method SendRowDescription(ctx: Context, cs: seq<Column>) returns (rc: int)
    requires ctx.Valid()
    modifies ctx`outputBuf, ctx`outputLen, ctx.outputBuf
    ensures ctx.Valid() && (ctx.outputBuf == old(ctx.outputBuf) || fresh(ctx.outputBuf))
    ensures rc == 0 || rc == -1
    ensures rc == 0 <==> |RowDescriptionBody(cs[..Min(|cs|, MAX_ROW_COLUMNS)])| <= ROW_DESCRIPTION_BUFFER
    ensures ctx.Abs() == if rc == 0
                         then Output(old(ctx.Abs()), Frame(ROW_DESCRIPTION,
                                     RowDescriptionBody(cs[..Min(|cs|, MAX_ROW_COLUMNS)])))
                         else old(ctx.Abs())
  {
    var buf := new byte[ROW_DESCRIPTION_BUFFER];
    var ok, p := BuildRowDescription(buf, cs[..Min(|cs|, MAX_ROW_COLUMNS)]);
    if !ok {
      return -1;
    }
    ctx.EmitMsg(ROW_DESCRIPTION, buf[..p]);
    rc := 0;
  }

  const ERROR_BUFFER: nat := 512

  method PutField(buf: array<byte>, p: nat, code: byte, v: Bytes) returns (ok: bool, q: nat)
    requires p < buf.Length == ERROR_BUFFER
    modifies buf
    ensures ok <==> p + 1 + |v| + 1 < buf.Length
    ensures ok ==> q == p + 1 + |v| + 1 && buf[..q] == old(buf[..p]) + ([code] + (v + [0]))
  {
    if p + 1 + |v| + 1 >= buf.Length {
      return false, p;
    }
    MemCpy(buf, p, [code]);
    MemCpy(buf, p + 1, v + [0]);
    ok, q := true, p + 1 + |v| + 1;
  }

  lemma ErrorParts(severity: Bytes, code: Bytes, message: Bytes)
    ensures ErrorBody(severity, code, message)
            == ([] + ([83] + (severity + [0]))) + ([67] + (code + [0])) + ([77] + (message + [0])) + [0]
    ensures |ErrorBody(severity, code, message)| == |severity| + |code| + |message| + 7
  {
  }

  method BuildError(buf: array<byte>, severity: Bytes, code: Bytes, message: Bytes) returns (ok: bool, p: nat)
    requires buf.Length == ERROR_BUFFER
    modifies buf
    ensures ok <==> |ErrorBody(severity, code, message)| < ERROR_BUFFER
    ensures ok ==> p <= buf.Length && buf[..p] == ErrorBody(severity, code, message)
  {
    ErrorParts(severity, code, message);
    hide ErrorBody;
    assert buf[..0] == [];
    ok, p := PutField(buf, 0, 83, severity);
    if !ok { return; }
    ok, p := PutField(buf, p, 67, code);
    if !ok { return; }
    ok, p := PutField(buf, p, 77, message);
    if !ok { return; }
    if p + 1 >= buf.Length {
      return false, p;
    }
    MemCpy(buf, p, [0]);
    p := p + 1;
  }

  method SendErrorResponse(ctx: Context, severity: Bytes, code: Bytes, message: Bytes) returns (rc: int)
    requires ctx.Valid()
    modifies ctx`outputBuf, ctx`outputLen, ctx.outputBuf
    ensures ctx.Valid() && (ctx.outputBuf == old(ctx.outputBuf) || fresh(ctx.outputBuf))
    ensures rc == 0 || rc == -1
    ensures rc == 0 <==> |ErrorBody(severity, code, message)| < ERROR_BUFFER
    ensures ctx.Abs() == if rc == 0
                         then Output(old(ctx.Abs()), Frame(ERROR_RESPONSE, ErrorBody(severity, code, message)))
                         else old(ctx.Abs())
  {
    var buf := new byte[ERROR_BUFFER];
    var ok, p := BuildError(buf, severity, code, message);
    if !ok {
      return -1;
    }
    ctx.EmitMsg(ERROR_RESPONSE, buf[..p]);
    rc := 0;
  }

  // ---------- DataRow ----------

  /** The bytes a row carries for a value; none for one that was not given. */
  function RowValue(p: Param): (r: Bytes)
    requires Sized([p])
  {
    assert p == [p][0];
    if p.length > 0 && p.data.Some? then p.data.value[..p.length] else []
  }

  /** The length word is written even when the value was not given. */
  function RowValueBytes(p: Param): (r: Bytes)
    requires Sized([p])
    ensures |r| == 4 + |RowValue(p)|
  {
    Wr32(ToU32(p.length)) + RowValue(p)
  }

  function PutRow(ps: seq<Param>): (r: Bytes)
    requires Sized(ps)
  {
    if ps == [] then [] else PutRow(ps[..|ps| - 1]) + RowValueBytes(ps[|ps| - 1])
  }

  /** A row whose values were all given is laid out like the parameters of a Bind. */
  lemma {:induction false} PutRowIsPutParams(ps: seq<Param>)
    requires AllPresent(ps)
    ensures Sized(ps) && PutRow(ps) == PutParams(ps)
  {
    if ps != [] {
      PutRowIsPutParams(ps[..|ps| - 1]);
      assert Present(ps[|ps| - 1]);
    }
  }

  /** A value that was not given swallows what is behind it: here a NULL becomes its bytes. */
  lemma MissingValueSwallows()
    ensures var ps := [Param(4, None, 0), Param(-1, None, 0)];
            Sized(ps) && TakeValues(PutRow(ps), 2) == [Some([255, 255, 255, 255])]
  {
    var ps := [Param(4, None, 0), Param(-1, None, 0)];
    assert ps[..1] == [ps[0]] && ps[..1][..0] == [];
    assert PutRow(ps[..1]) == RowValueBytes(ps[0]) == [0, 0, 0, 4];
    assert RowValueBytes(ps[1]) == [255, 255, 255, 255];
    var b: Bytes := [0, 0, 0, 4, 255, 255, 255, 255];
    assert PutRow(ps) == b;
    assert Rd32(b, 0) == 4 && b[4..][..4] == [255, 255, 255, 255] && b[4..][4..] == [];
    assert TakeValues([], 1) == [];
  }

  /** The bytes that values and their length words take. */
  function Spent(vs: seq<Option<Bytes>>): (r: nat) {
    if vs == [] then 0
    else Spent(vs[..|vs| - 1]) + 4 + match vs[|vs| - 1] case None => 0 case Some(v) => |v|
  }

  lemma {:induction false} SpentFront(v: Option<Bytes>, vs: seq<Option<Bytes>>)
    ensures Spent([v] + vs) == Spent([v]) + Spent(vs)
    decreases |vs|
  {
    if vs == [] {
      Neutral([v]);
    } else {
      var n := |vs| - 1;
      assert ([v] + vs)[..n + 1] == [v] + vs[..n];
      SpentFront(v, vs[..n]);
    }
  }

  lemma TakeValuesFront(b: Bytes, n: nat) returns (v: Option<Bytes>, later: Bytes)
    requires TakeValues(b, n) != []
    ensures n > 0 && TakeValues(b, n) == [v] + TakeValues(later, n - 1)
    ensures Spent([v]) + |later| == |b|
  {
    hide Rd32;
    var plen, rest := ToI32(Rd32(b, 0)), b[4..];
    v := if plen < 0 then None else Some(rest[..plen]);
    later := if plen < 0 then rest else rest[plen..];
    assert [v][..0] == [];
  }

  /** No more is read than is there. */
  lemma {:induction false} TakenIsThere(b: Bytes, n: nat)
    ensures Spent(TakeValues(b, n)) <= |b|
    decreases n
  {
    if TakeValues(b, n) != [] {
      var v, later := TakeValuesFront(b, n);
      hide TakeValues;
      TakenIsThere(later, n - 1);
      SpentFront(v, TakeValues(later, n - 1));
    }
  }

  /** NULL, or a value as long as was declared. */
  predicate AsDeclared(p: Param, v: Option<Bytes>) {
    if p.length < 0 then v.None? else v.Some? && |v.value| == p.length
  }

  predicate RowArrives(ps: seq<Param>, vs: seq<Option<Bytes>>) {
    |vs| == |ps| && forall i :: 0 <= i < |ps| ==> AsDeclared(ps[i], vs[i])
  }

  /** Values as long as declared take more than was written when one was not given. */
  lemma {:induction false} DeclaredIsWritten(ps: seq<Param>, vs: seq<Option<Bytes>>)
    requires Sized(ps) && RowArrives(ps, vs)
    ensures |PutRow(ps)| <= Spent(vs)
    ensures |PutRow(ps)| == Spent(vs) ==> AllPresent(ps)
    decreases |ps|
  {
    if ps != [] {
      var n := |ps| - 1;
      DeclaredIsWritten(ps[..n], vs[..n]);
      assert AsDeclared(ps[n], vs[n]);
      assert |RowValue(ps[n])| <= if ps[n].length < 0 then 0 else ps[n].length;
      if |PutRow(ps)| == Spent(vs) {
        assert Present(ps[n]);
        assert forall i :: 0 <= i < n ==> ps[i] == ps[..n][i];
      }
    }
  }

  lemma {:induction false} ColumnValuesAsDeclared(ps: seq<Param>)
    requires AllPresent(ps)
    ensures RowArrives(ps, ColumnValues(ps))
  {
    if ps != [] {
      ColumnValuesAsDeclared(ps[1..]);
      assert Present(ps[0]);
      forall i | 0 <= i < |ps|
        ensures AsDeclared(ps[i], ColumnValues(ps)[i])
      {
        if i > 0 {
          assert AsDeclared(ps[1..][i - 1], ColumnValues(ps[1..])[i - 1]);
        }
      }
    }
  }

  /** The row is read with the lengths declared exactly when every value was given. */
  lemma RowArrivesIff(ps: seq<Param>)
    requires Sized(ps)
    ensures RowArrives(ps, TakeValues(PutRow(ps), |ps|)) <==> AllPresent(ps)
  {
    if AllPresent(ps) {
      PutRowIsPutParams(ps);
      TakePutValues(ps);
      ColumnValuesAsDeclared(ps);
    }
    var vs := TakeValues(PutRow(ps), |ps|);
    if RowArrives(ps, vs) {
      TakenIsThere(PutRow(ps), |ps|);
      DeclaredIsWritten(ps, vs);
    }
  }

  /** How much room a value takes in the row. */
  function Shape(p: Param): (r: Param) {
    if p.length > 0 && p.data.None? then p.(length := 0) else p
  }

  function Shapes(ps: seq<Param>): (r: seq<Param>)
    ensures |r| == |ps|
  {
    seq(|ps|, i requires 0 <= i < |ps| => Shape(ps[i]))
  }

  method BuildRowValue(buf: array<byte>, p: nat, param: Param) returns (r: array<byte>, q: nat)
    requires p + 4 <= buf.Length && Sized([param])
    modifies buf
    ensures r == buf || fresh(r)
    ensures q == p + |RowValueBytes(param)| <= r.Length && r[..q] == old(buf[..p]) + RowValueBytes(param)
    ensures Some((q, r.Length)) == Room([Shape(param)], p, buf.Length)
  {
    assert param == [param][0];
    ghost var was := buf[..p];
    MemCpy(buf, p, Wr32(ToU32(param.length)));
    r, q := buf, p + 4;
    if param.length > 0 && param.data.Some? {
      ghost var v;
      r, q, v := BuildValue(buf, q, param.length, param.data);
    }
    Assoc(was, Wr32(ToU32(param.length)), RowValue(param));
    Neutral(was + Wr32(ToU32(param.length)));
  }

  method BuildRow(buf: array<byte>, p: nat, ps: seq<Param>) returns (ok: bool, r: array<byte>, q: nat)
    requires p <= buf.Length && Sized(ps)
    modifies buf
    ensures ok <==> Room(Shapes(ps), p, buf.Length).Some?
    ensures ok ==> p <= q <= r.Length && r[..q] == old(buf[..p]) + PutRow(ps)
  {
    ghost var was := buf[..p];
    ghost var cap := buf.Length;
    ghost var shapes := Shapes(ps);
    r, q := buf, p;
    for i := 0 to |ps|
      invariant r == buf || fresh(r)
      invariant p <= q <= r.Length && Room(shapes[..i], p, cap) == Some((q, r.Length))
      invariant r[..q] == was + PutRow(ps[..i])
    {
      RoomOfPrefix(shapes, i, p, cap);
      assert shapes[i..][0] == shapes[i];
      if q + 4 > r.Length {
        return false, r, q;
      }
      NextRoom(shapes, i, p, cap);
      r, q := BuildRowValue(r, q, ps[i]);
      assert ps[..i + 1][..i] == ps[..i];
      Assoc(was, PutRow(ps[..i]), RowValueBytes(ps[i]));
    }
    assert ps[..|ps|] == ps && shapes[..|ps|] == shapes;
    ok := true;
  }

  /** A row whose whole body fits the first buffer is never refused. */
  lemma SmallRowFits(ps: seq<Param>)
    requires |ps| < 0x1_0000 && AllPresent(ps) && |DataRowBody(ps)| <= 64 + |ps| * 256
    ensures Room(Shapes(ps), 2, 64 + |ps| * 256).Some?
  {
    forall i | 0 <= i < |ps|
      ensures Shape(ps[i]) == ps[i]
    {
      assert Present(ps[i]);
    }
    assert Shapes(ps) == ps;
    RoomWithin(ps, 2, 64 + |ps| * 256);
  }

  /** The row writer grows its buffer by the same rule as the Bind writer, but only for values given. */
  method SendDataRowMulti(ctx: Context, ps: seq<Param>) returns (rc: int)
    requires ctx.Valid() && |ps| < 0x1_0000 && Sized(ps)
    modifies ctx`outputBuf, ctx`outputLen, ctx.outputBuf
    ensures ctx.Valid() && (ctx.outputBuf == old(ctx.outputBuf) || fresh(ctx.outputBuf))
    ensures rc == 0 || rc == -1
    ensures rc == 0 <==> Room(Shapes(ps), 2, 64 + |ps| * 256).Some?
    ensures ctx.Abs() == if rc == 0 then Output(old(ctx.Abs()), Frame(DATA_ROW, Wr16(|ps|) + PutRow(ps)))
                         else old(ctx.Abs())
    ensures rc == 0 && AllPresent(ps) ==> ctx.Abs() == Output(old(ctx.Abs()), Frame(DATA_ROW, DataRowBody(ps)))
  {
    var buf := new byte[64 + |ps| * 256];
    MemCpy(buf, 0, Wr16(|ps|));
    assert buf[..2] == Wr16(|ps|);
    var ok, r, p := BuildRow(buf, 2, ps);
    if !ok {
      return -1;
    }
    if AllPresent(ps) {
      PutRowIsPutParams(ps);
    }
    ctx.EmitMsg(DATA_ROW, r[..p]);
    rc := 0;
  }

  method SendCommandComplete(ctx: Context, tag: Bytes) returns (rc: int)
    requires ctx.Valid() && NulFree(tag)
    modifies ctx`outputBuf, ctx`outputLen, ctx.outputBuf
    ensures ctx.Valid() && (ctx.outputBuf == old(ctx.outputBuf) || fresh(ctx.outputBuf))
    ensures rc == 0 && ctx.Abs() == Output(old(ctx.Abs()), Frame(COMMAND_COMPLETE, tag + [0]))
  {
    ctx.EmitMsg(COMMAND_COMPLETE, tag + [0]);
    rc := 0;
  }
}
