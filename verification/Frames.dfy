/**
 The wire format in literal bytes: one frame of each type, what its receiver
 logs for it, and the sizes of all fixed fields and buffers.
 */
module Frames {
  import opened Wire
  import opened Messages
  import opened Parsers
  import opened Engine
  import Contexts
  import Senders
  import Streams
  import Relay
  import Replies

  // ---------- what is written ----------

  /** A short frame: its type, a length that counts itself, the body. */
  lemma ShortFrame(tag: byte, body: Bytes)
    requires |body| + 4 < 256
    ensures Frame(tag, body) == [tag, 0, 0, 0, |body| + 4] + body
  {
    SmallWords(|body| + 4);
    hide Wr32;
    assert (|body| + 4) % TWO_TO_THE_32 == |body| + 4;
    assert [tag] + [0, 0, 0, |body| + 4] == [tag, 0, 0, 0, |body| + 4];
  }

  lemma SmallWords(v: byte)
    ensures Wr16(v) == [0, v] && Wr32(v) == [0, 0, 0, v]
    ensures Wr16(ToU16(-2)) == [255, 254] && Wr32(ToU32(-1)) == [255, 255, 255, 255]
  {
  }

  lemma StartupDatabase()
    ensures DATABASE_KEY + [0] + ([100] + [0] + [0]) == [100, 97, 116, 97, 98, 97, 115, 101, 0, 100, 0, 0]
  {
  }

  lemma StartupUser(rest: Bytes)
    ensures USER_KEY + [0] + ([117] + [0] + rest) == [117, 115, 101, 114, 0, 117, 0] + rest
  {
  }

  lemma StartupVersion(rest: Bytes)
    ensures Wr32(PROTOCOL_3_0) + rest == [0, 3, 0, 0] + rest
  {
  }

  /** Protocol version 3.0, then user and database as keys and values, then an empty key. */
  lemma StartupBytes()
    ensures StartupPacket([117], [100])
            == [0, 0, 0, 27] + ([0, 3, 0, 0] + ([117, 115, 101, 114, 0, 117, 0]
               + [100, 97, 116, 97, 98, 97, 115, 101, 0, 100, 0, 0]))
  {
    StartupDatabase();
    StartupUser(DATABASE_KEY + [0] + ([100] + [0] + [0]));
    StartupVersion(USER_KEY + [0] + ([117] + [0] + (DATABASE_KEY + [0] + ([100] + [0] + [0]))));
    SmallWords(27);
    hide Wr32;
  }

  lemma QueryBytes()
    ensures Encode(QueryMsg([59])) == [81, 0, 0, 0, 6, 59, 0]
  {
    ShortFrame(81, [59, 0]);
    hide Frame;
    assert Body(QueryMsg([59])) == [59, 0];
  }

  lemma OidList()
    ensures Wr16(2) + PutU32s([23, 24]) == [0, 2, 0, 0, 0, 23, 0, 0, 0, 24]
  {
    SmallWords(2);
    SmallWords(23);
    SmallWords(24);
    TwoWords([23, 24]);
    hide PutU32s, Wr16, Wr32;
  }

  lemma ParseBytes()
    ensures Encode(ParseMsg(Parse([115], [113], [23, 24])))
            == [80, 0, 0, 0, 18] + ([115, 0, 113, 0] + [0, 2, 0, 0, 0, 23, 0, 0, 0, 24])
  {
    OidList();
    hide Frame, PutU32s, Wr16;
    var body := ParseBody(Parse([115], [113], [23, 24]));
    assert body == [115, 0, 113, 0] + (Wr16(2) + PutU32s([23, 24]));
    ShortFrame(80, body);
  }

  lemma TwoWords(vs: seq<u32>)
    requires |vs| == 2
    ensures PutU32s(vs) == Wr32(vs[0]) + Wr32(vs[1])
  {
    hide Wr32;
    assert vs[..1] == [vs[0]] && vs[..1][..0] == [];
    Neutral(Wr32(vs[0]));
  }

  lemma TwoCodes(vs: seq<i16>)
    requires |vs| == 2
    ensures PutI16s(vs) == Wr16(ToU16(vs[0])) + Wr16(ToU16(vs[1]))
  {
    hide Wr16;
    assert vs[..1] == [vs[0]] && vs[..1][..0] == [];
    Neutral(Wr16(ToU16(vs[0])));
  }

  lemma TwoParams(ps: seq<Param>)
    requires |ps| == 2 && AllPresent(ps)
    ensures PutParams(ps) == ParamBytes(ps[0]) + ParamBytes(ps[1])
  {
    hide ParamBytes;
    var one := ps[..1];
    assert one == [ps[0]] && one[..0] == [] && PutParams([]) == [];
    Neutral(ParamBytes(ps[0]));
    assert PutParams(one) == ParamBytes(ps[0]);
  }

  lemma BindParts(rest: Bytes)
    ensures Wr16(2) + (PutI16s([1, -2]) + rest) == [0, 2, 0, 1, 255, 254] + rest
    ensures Wr16(0) + PutI16s([]) == [0, 0]
    ensures [112] + [0] + ([115] + [0] + rest) == [112, 0, 115, 0] + rest
  {
    SmallWords(0);
    SmallWords(1);
    SmallWords(2);
    TwoCodes([1, -2]);
    hide PutI16s, Wr16;
    EmptyLists();
  }

  lemma EmptyLists()
    ensures PutI16s([]) == [] && PutU32s([]) == [] && PutParams([]) == []
  {
  }

  lemma BindValues(ps: seq<Param>, rest: Bytes)
    requires ps == [Param(2, Some([7, 8]), 1), Param(-1, None, 0)]
    ensures AllPresent(ps)
    ensures Wr16(2) + (PutParams(ps) + rest) == [0, 2, 0, 0, 0, 2, 7, 8, 255, 255, 255, 255] + rest
  {
    assert ps[0].data.value[..2] == [7, 8];
    TwoParams(ps);
    ParamLiterals(ps[0], ps[1]);
    SmallWords(2);
    hide PutParams, ParamBytes, Wr16;
  }

  /** Names, format codes, parameter values and result formats, each list with its count. */
  lemma BindBytes(ps: seq<Param>)
    requires ps == [Param(2, Some([7, 8]), 1), Param(-1, None, 0)]
    ensures AllPresent(ps)
            && Encode(BindMsg([112], [115], [1, -2], ps, []))
               == [66, 0, 0, 0, 28] + ([112, 0, 115, 0] + ([0, 2, 0, 1, 255, 254]
                  + ([0, 2, 0, 0, 0, 2, 7, 8, 255, 255, 255, 255] + [0, 0])))
  {
    BindBodyBytes(ps);
    hide Frame, BindBody;
    ShortFrame(66, BindBody([112], [115], [1, -2], ps, []));
  }

  lemma BindBodyBytes(ps: seq<Param>)
    requires ps == [Param(2, Some([7, 8]), 1), Param(-1, None, 0)]
    ensures AllPresent(ps)
    ensures BindBody([112], [115], [1, -2], ps, [])
            == [112, 0, 115, 0] + ([0, 2, 0, 1, 255, 254]
               + ([0, 2, 0, 0, 0, 2, 7, 8, 255, 255, 255, 255] + [0, 0]))
  {
    var results := Wr16(0) + PutI16s([]);
    BindValues(ps, results);
    var values := Wr16(2) + (PutParams(ps) + results);
    BindParts(values);
    var formats := Wr16(2) + (PutI16s([1, -2]) + values);
    BindParts(formats);
    assert BindBody([112], [115], [1, -2], ps, []) == [112] + [0] + ([115] + [0] + formats);
    hide *;
  }

  lemma ParamLiterals(p: Param, q: Param)
    requires p == Param(2, Some([7, 8]), 1) && q == Param(-1, None, 0)
    ensures ParamBytes(p) == [0, 0, 0, 2, 7, 8] && ParamBytes(q) == [255, 255, 255, 255]
  {
    SmallWords(2);
    hide Wr32;
    assert p.data.value[..2] == [7, 8];
    Neutral(Wr32(ToU32(-1)));
  }

  lemma NamedBytes()
    ensures Encode(DescribeMsg(83, [110])) == [68, 0, 0, 0, 7, 83, 110, 0]
    ensures Encode(CloseMsg(80, [110])) == [67, 0, 0, 0, 7, 80, 110, 0]
    ensures Encode(ExecuteMsg([112], 5)) == [69, 0, 0, 0, 10, 112, 0, 0, 0, 0, 5]
  {
    SmallWords(5);
    ShortFrame(68, [83, 110, 0]);
    ShortFrame(67, [80, 110, 0]);
    ShortFrame(69, [112, 0, 0, 0, 0, 5]);
    hide Frame, Wr32;
    assert NamedBody(83, [110]) == [83, 110, 0] && NamedBody(80, [110]) == [80, 110, 0];
    assert ExecuteBody([112], 5) == [112, 0, 0, 0, 0, 5];
  }

  lemma BareBytes()
    ensures Encode(SyncMsg) == [83, 0, 0, 0, 4]
    ensures Encode(FlushMsg) == [72, 0, 0, 0, 4]
    ensures Encode(TerminateMsg) == [88, 0, 0, 0, 4]
  {
    ShortFrame(83, []);
    ShortFrame(72, []);
    ShortFrame(88, []);
    hide Frame;
  }

  lemma BareReplyBytes()
    ensures Replies.Encode(Replies.AuthOkMsg) == [82, 0, 0, 0, 8, 0, 0, 0, 0]
    ensures Replies.Encode(Replies.ReadyMsg) == [90, 0, 0, 0, 5, 73]
    ensures Replies.Encode(Replies.ParseCompleteMsg) == [49, 0, 0, 0, 4]
    ensures Replies.Encode(Replies.BindCompleteMsg) == [50, 0, 0, 0, 4]
    ensures Replies.Encode(Replies.CloseCompleteMsg) == [51, 0, 0, 0, 4]
    ensures Replies.Encode(Replies.NoDataMsg) == [110, 0, 0, 0, 4]
  {
    SmallWords(0);
    ShortFrame(82, [0, 0, 0, 0]);
    ShortFrame(90, [73]);
    ShortFrame(49, []);
    ShortFrame(50, []);
    ShortFrame(51, []);
    ShortFrame(110, []);
    hide Frame, Wr32;
  }

  lemma DataRowBytes(ps: seq<Param>)
    requires ps == [Param(2, Some([7, 8]), 1), Param(-1, None, 0)]
    ensures Replies.Fits(Replies.DataRowMsg(ps))
            && Replies.Encode(Replies.DataRowMsg(ps))
               == [68, 0, 0, 0, 16] + [0, 2, 0, 0, 0, 2, 7, 8, 255, 255, 255, 255]
  {
    BindValues(ps, []);
    hide Frame, PutParams, Wr16;
    Neutral(PutParams(ps));
    Neutral([0, 2, 0, 0, 0, 2, 7, 8, 255, 255, 255, 255]);
    ShortFrame(68, DataRowBody(ps));
  }

  lemma FixedPart(c: Column)
    requires c.oid == 23 && c.format == 1
    ensures ColumnFixed(c) == [0, 0, 0, 0, 0, 0] + [0, 0, 0, 23] + [0, 4] + [255, 255, 255, 255] + [0, 1]
  {
    SmallWords(0);
    SmallWords(1);
    SmallWords(4);
    SmallWords(23);
    assert Wr32(0xFFFF_FFFF) == [255, 255, 255, 255];
    hide Wr16, Wr32;
  }

  lemma OneColumn(c: Column)
    ensures RowDescriptionBody([c]) == Wr16(1) + (c.name + [0] + ColumnFixed(c))
  {
    hide Wr16, ColumnFixed;
    var one := [c];
    assert one[..|one| - 1] == [] && PutColumns([]) == [];
    Neutral(ColumnBytes(c));
    assert PutColumns(one) == ColumnBytes(c);
  }

  /** No table, type OID 23, a type length of 4, no type modifier, format 1. */
  lemma DescriptionBytes(c: Column)
    requires c == Column([110], 23, 1)
    ensures Replies.Fits(Replies.RowDescriptionMsg([c]))
            && Replies.Encode(Replies.RowDescriptionMsg([c]))
               == [84, 0, 0, 0, 26] + ([0, 1] + ([110] + [0] + ([0, 0, 0, 0, 0, 0] + [0, 0, 0, 23] + [0, 4]
                  + [255, 255, 255, 255] + [0, 1])))
  {
    OneColumn(c);
    FixedPart(c);
    SmallWords(1);
    hide Frame, RowDescriptionBody, ColumnFixed, Wr16;
    ShortFrame(84, RowDescriptionBody([c]));
  }

  lemma TagBytes()
    ensures Replies.Encode(Replies.CommandCompleteMsg([79])) == [67, 0, 0, 0, 6, 79, 0]
  {
    ShortFrame(67, [79, 0]);
    hide Frame;
    assert Replies.BodyOf(Replies.CommandCompleteMsg([79])) == [79, 0];
  }

  lemma ErrorBytes()
    ensures Replies.Encode(Replies.ErrorMsg([1], [2], [3]))
            == [69, 0, 0, 0, 14] + [83, 1, 0, 67, 2, 0, 77, 3, 0, 0]
  {
    ShortFrame(69, [83, 1, 0, 67, 2, 0, 77, 3, 0, 0]);
    SmallError();
    hide Frame, ErrorBody;
  }

  // ---------- what is logged for them ----------

  /** Each type byte with a literal body at a server, and the event logged. */
  lemma ServerEvents(m: Memory)
    requires ValidMemory(m)
    ensures var at := (tag: byte, body: Bytes) => MessageEffect(Server, m, tag, body).0;
            && at(81, [59, 0]) == Some(Emission(QuerySlot, Query([59])))
            && at(68, [83, 110, 0]) == Plainly(Describe(83, [110]))
            && at(67, [80, 110, 0]) == Plainly(Close(80, [110]))
            && at(69, [112, 0, 0, 0, 0, 5]) == Plainly(Execute([112], 5))
            && at(80, [115, 0, 113, 0, 0, 0]) == Plainly(ParseEvent(Parse([115], [113], [])))
            && at(66, [112, 0, 115, 0, 0, 0, 0, 0, 0, 0]) == Plainly(BindEvent(Bind([112], [115], [], [], [])))
  {
    EventQuery(m);
    EventNamed(m);
    EventExecute(m);
    EventParse(m);
    EventBind(m);
  }

  lemma EventQuery(m: Memory)
    requires ValidMemory(m)
    ensures MessageEffect(Server, m, 81, [59, 0]).0 == Some(Emission(QuerySlot, Query([59])))
  {
    CstrRoundTrip([59]);
    assert [59] + [0] == [59, 0];
    hide CstrOrEmpty, BackendEffect, FrontendEmission;
  }

  lemma NamedLiteral(target: byte)
    ensures ParseNamed([target, 110, 0]) == Some((target, [110]))
  {
    NamedRoundTrip(target, [110]);
    hide ParseNamed;
    assert NamedBody(target, [110]) == [target, 110, 0];
  }

  lemma EventNamed(m: Memory)
    requires ValidMemory(m)
    ensures MessageEffect(Server, m, 68, [83, 110, 0]).0 == Plainly(Describe(83, [110]))
    ensures MessageEffect(Server, m, 67, [80, 110, 0]).0 == Plainly(Close(80, [110]))
  {
    NamedLiteral(83);
    NamedLiteral(80);
    hide ParseNamed, BackendEffect, ParseParse, ParseBind, ParseExecute, QueryEffect;
  }

  lemma EventExecute(m: Memory)
    requires ValidMemory(m)
    ensures MessageEffect(Server, m, 69, [112, 0, 0, 0, 0, 5]).0 == Plainly(Execute([112], 5))
  {
    SmallWords(5);
    ExecuteRoundTrip([112], 5);
    hide Wr32, BackendEffect, ParseParse, ParseBind, ParseNamed, ParseExecute;
    assert ExecuteBody([112], 5) == [112, 0, 0, 0, 0, 5];
  }

  lemma EmptyParse()
    ensures ParseBody(Parse([115], [113], [])) == [115, 0, 113, 0, 0, 0]
  {
    SmallWords(0);
    EmptyLists();
    hide Wr16, PutU32s;
    Neutral([0, 0]);
  }

  lemma EventParse(m: Memory)
    requires ValidMemory(m)
    ensures MessageEffect(Server, m, 80, [115, 0, 113, 0, 0, 0]).0 == Plainly(ParseEvent(Parse([115], [113], [])))
  {
    var p := Parse([115], [113], []);
    EmptyParse();
    ParseRoundTrip(p);
    assert p.paramTypes[..0] == [];
    hide ParseBody, ParseParse, BackendEffect, ParseBind, ParseNamed, ParseExecute;
  }

  lemma EmptyBind()
    ensures BindBody([112], [115], [], [], []) == [112, 0, 115, 0, 0, 0, 0, 0, 0, 0]
  {
    SmallWords(0);
    EmptyLists();
    hide Wr16, PutI16s, PutParams;
    Neutral([0, 0]);
  }

  lemma BindLiteral()
    ensures ParseBind([112, 0, 115, 0, 0, 0, 0, 0, 0, 0]) == Some(Bind([112], [115], [], [], []))
  {
    EmptyBind();
    BindRoundTrip([112], [115], [], [], []);
    hide BindBody, ParseBind;
  }

  lemma EventBind(m: Memory)
    requires ValidMemory(m)
    ensures MessageEffect(Server, m, 66, [112, 0, 115, 0, 0, 0, 0, 0, 0, 0]).0
            == Plainly(BindEvent(Bind([112], [115], [], [], [])))
  {
    BindLiteral();
    hide ParseBind, BackendEffect, ParseParse, ParseNamed, ParseExecute, QueryEffect;
  }

  /** The same at a client; types without a payload are listed in `Engine.BareTypesAre`. */
  lemma ClientTag(m: Memory)
    requires ValidMemory(m)
    ensures MessageEffect(Client, m, 67, [79, 0]).0 == Some(Emission(TagSlot, CommandComplete([79])))
  {
    CstrRoundTrip([79]);
    assert [79] + [0] == [79, 0];
    hide CstrOrEmpty;
  }

  lemma SmallError()
    ensures ErrorBody([1], [2], [3]) == [83, 1, 0, 67, 2, 0, 77, 3, 0, 0]
  {
  }

  lemma ClientError(m: Memory)
    requires ValidMemory(m)
    ensures MessageEffect(Client, m, 69, [83, 1, 0, 67, 2, 0, 77, 3, 0, 0]).0
            == Plainly(ErrorResponse(PqError([1], [2], [3], [], [])))
  {
    SmallError();
    Streams.ErrorResponseRoundTrip(m, [1], [2], [3]);
    hide BackendEffect, ErrorBody;
  }

  lemma SmallRow(ps: seq<Param>)
    requires ps == [Param(2, Some([7, 8]), 1), Param(-1, None, 0)]
    ensures AllPresent(ps) && DataRowBody(ps) == [0, 2, 0, 0, 0, 2, 7, 8, 255, 255, 255, 255]
  {
    BindValues(ps, []);
    hide PutParams, Wr16;
    Neutral(PutParams(ps));
    Neutral([0, 2, 0, 0, 0, 2, 7, 8, 255, 255, 255, 255]);
  }

  lemma ClientRows(m: Memory)
    requires ValidMemory(m) && m.used + 2 <= 65536
    ensures var e := MessageEffect(Client, m, 68, [0, 2, 0, 0, 0, 2, 7, 8, 255, 255, 255, 255]).0;
            e.Some? && e.value.event == DataRow([Some([7, 8]), None])
  {
    var p, q := Param(2, Some([7, 8]), 1), Param(-1, None, 0);
    SmallRow([p, q]);
    TwoValues(p, q);
    Streams.DataRowRoundTripIff(m, [p, q]);
    hide BackendEffect, ColumnValues, TotalSize, DataRowBody;
  }

  lemma TwoValues(p: Param, q: Param)
    requires p == Param(2, Some([7, 8]), 1) && q == Param(-1, None, 0)
    ensures ColumnValues([p, q]) == [Some([7, 8]), None] && TotalSize(ColumnValues([p, q])) == 2
  {
    assert p.data.value[..2] == [7, 8];
    assert [p, q][1..] == [q] && [q][1..] == [];
    var vs: seq<Option<Bytes>> := [Some([7, 8]), None];
    assert vs[1..] == [None] && vs[1..][1..] == [];
  }

  // ---------- sizes ----------

  /** Names 63 bytes, queries 4095, tags 63, startup values 127, 16 columns and type OIDs, 32 parameters. */
  lemma Limits()
    ensures MAX_NAME == 64 && MAX_QUERY == 4096 && MAX_TAG == 64 && MAX_STARTUP_VALUE == 128
    ensures MAX_BIND_PARAMS == 32 && MAX_PARAM_TYPES == 16 && MAX_ROW_COLUMNS == 16
    ensures MAX_NOTIFY_PAYLOAD == 8000 && ROW_ARENA == 65536 && COLUMN_FIXED == 18
    ensures Contexts.DEFAULT_MAX_SIZE == 16777216 && Relay.STEP_SIZE == 4096
    ensures Senders.STARTUP_BUFFER == 512 && Senders.PARSE_BUFFER == 4352 && Senders.REWRITE_BUFFER == 8192
    ensures Senders.ROW_DESCRIPTION_BUFFER == 2048 && Senders.ERROR_BUFFER == 512
  {
  }
}
