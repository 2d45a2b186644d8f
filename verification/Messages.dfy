/**
 What the messages of the PostgreSQL protocol carry, the events the context
 reports, and the body layout of every message that is written.
 */
module Messages {
  import opened Wire

  // ---------- limits of the event structures ----------

  const MAX_NAME: nat := 64
  const MAX_QUERY: nat := 4096
  const MAX_BIND_PARAMS: nat := 32
  const MAX_PARAM_TYPES: nat := 16
  const MAX_ROW_COLUMNS: nat := 16
  const MAX_STARTUP_VALUE: nat := 128
  const MAX_TAG: nat := 64
  const MAX_NOTIFY_PAYLOAD: nat := 8000

  // ---------- type bytes (frontend and backend share some) ----------

  const QUERY: byte := 81               // 'Q'
  const PARSE: byte := 80               // 'P'
  const BIND: byte := 66                // 'B'
  const DESCRIBE: byte := 68            // 'D'
  const EXECUTE: byte := 69             // 'E'
  const CLOSE: byte := 67               // 'C'
  const SYNC: byte := 83                // 'S'
  const FLUSH: byte := 72               // 'H'
  const TERMINATE: byte := 88           // 'X'
  const AUTHENTICATION: byte := 82      // 'R'
  const READY_FOR_QUERY: byte := 90     // 'Z'
  const ROW_DESCRIPTION: byte := 84     // 'T'
  const DATA_ROW: byte := 68            // 'D'
  const COMMAND_COMPLETE: byte := 67    // 'C'
  const ERROR_RESPONSE: byte := 69      // 'E'
  const PARSE_COMPLETE: byte := 49      // '1'
  const BIND_COMPLETE: byte := 50       // '2'
  const CLOSE_COMPLETE: byte := 51      // '3'
  const NO_DATA: byte := 110            // 'n'
  const PORTAL_SUSPENDED: byte := 115   // 's'
  const PARAMETER_STATUS: byte := 83    // 'S'
  const NOTICE_RESPONSE: byte := 78     // 'N'
  const NOTIFICATION: byte := 65        // 'A'

  // ---------- payloads ----------

  /** A parameter or column value: negative length for NULL, data absent for a null pointer. */
  datatype Param = Param(length: i32, data: Option<Bytes>, format: i16)

  datatype Bind = Bind(portal: Bytes, statement: Bytes, formats: seq<i16>,
                       params: seq<Param>, resultFormats: seq<i16>)

  datatype Parse = Parse(statement: Bytes, query: Bytes, paramTypes: seq<u32>)

  datatype Column = Column(name: Bytes, oid: u32, format: i16)

  datatype PqError = PqError(severity: Bytes, code: Bytes, message: Bytes, detail: Bytes, hint: Bytes)

  const NoError := PqError([], [], [], [], [])

  /** An event together with the payload that was parsed for it. */
  datatype Event =
    | Startup(user: Bytes, database: Bytes)
    | AuthenticationOk
    | ReadyForQuery
    | Query(sql: Bytes)
    | RowDescription(columns: seq<Column>)
    | DataRow(values: seq<Option<Bytes>>)
    | CommandComplete(tag: Bytes)
    | ProtocolError
    | ErrorResponse(error: PqError)
    | NoticeResponse
    | ParseEvent(parse: Parse)
    | BindEvent(bind: Bind)
    | Describe(target: byte, name: Bytes)
    | Execute(portal: Bytes, maxRows: u32)
    | Close(target: byte, name: Bytes)
    | Sync
    | Flush
    | Terminate
    | ParseComplete
    | BindComplete
    | NoData
    | PortalSuspended
    | CloseComplete
    | ParameterStatus(raw: Bytes)
    | Notification(pid: i32, channel: Bytes, payload: Bytes)

  // ---------- parameter values on the wire ----------

  /** A value of positive length is there to be copied. */
  predicate Present(p: Param) {
    p.length > 0 ==> p.data.Some? && p.length <= |p.data.value|
  }

  predicate AllPresent(ps: seq<Param>) {
    forall i :: 0 <= i < |ps| ==> Present(ps[i])
  }

  function ParamBytes(p: Param): (r: Bytes)
    requires Present(p)
    ensures |r| == 4 + if p.length > 0 then p.length else 0
  {
    Wr32(ToU32(p.length)) + if p.length > 0 then p.data.value[..p.length] else []
  }

  function PutParams(ps: seq<Param>): (r: Bytes)
    requires AllPresent(ps)
  {
    if ps == [] then [] else PutParams(ps[..|ps| - 1]) + ParamBytes(ps[|ps| - 1])
  }

  lemma {:induction false} PutParamsFront(ps: seq<Param>)
    requires ps != [] && AllPresent(ps)
    ensures PutParams(ps) == ParamBytes(ps[0]) + PutParams(ps[1..])
  {
    hide ParamBytes;
    if |ps| == 1 {
      assert ps[..0] == [] && ps[1..] == [];
    } else {
      var init, last := ps[..|ps| - 1], ParamBytes(ps[|ps| - 1]);
      PutParamsFront(init);
      var mid := PutParams(init[1..]);
      assert PutParams(ps[1..]) == mid + last by {
        assert ps[1..][..|ps| - 2] == init[1..];
      }
      assert PutParams(ps) == ParamBytes(ps[0]) + mid + last;
    }
  }

  // ---------- message bodies ----------

  function ParseBody(p: Parse): (r: Bytes)
    requires |p.paramTypes| < 0x1_0000
  {
    p.statement + [0] + (p.query + [0] + (Wr16(|p.paramTypes|) + PutU32s(p.paramTypes)))
  }

  function BindBody(portal: Bytes, statement: Bytes, formats: seq<i16>, params: seq<Param>,
                    resultFormats: seq<i16>): (r: Bytes)
    requires |formats| < 0x1_0000 && |params| < 0x1_0000 && |resultFormats| < 0x1_0000
    requires AllPresent(params)
  {
    portal + [0] + (statement + [0] + (Wr16(|formats|) + (PutI16s(formats)
    + (Wr16(|params|) + (PutParams(params)
    + (Wr16(|resultFormats|) + PutI16s(resultFormats)))))))
  }

  function NamedBody(target: byte, name: Bytes): (r: Bytes) { [target] + (name + [0]) }

  function ExecuteBody(portal: Bytes, maxRows: u32): (r: Bytes) { portal + [0] + Wr32(maxRows) }

  function ErrorBody(severity: Bytes, code: Bytes, message: Bytes): (r: Bytes) {
    [83] + (severity + [0] + ([67] + (code + [0] + ([77] + (message + [0] + [0])))))
  }

  const TYPLEN_PLACEHOLDER: u16 := 4

  /** Table OID, column number, type OID, type length, type modifier, format. */
  function ColumnFixed(c: Column): (r: Bytes)
    ensures |r| == 18
  {
    Wr32(0) + Wr16(0) + Wr32(c.oid) + Wr16(TYPLEN_PLACEHOLDER) + Wr32(0xFFFF_FFFF) + Wr16(ToU16(c.format))
  }

  function ColumnBytes(c: Column): (r: Bytes) { c.name + [0] + ColumnFixed(c) }

  function PutColumns(cs: seq<Column>): (r: Bytes) {
    if cs == [] then [] else PutColumns(cs[..|cs| - 1]) + ColumnBytes(cs[|cs| - 1])
  }

  lemma {:induction false} PutColumnsFront(cs: seq<Column>)
    requires cs != []
    ensures PutColumns(cs) == ColumnBytes(cs[0]) + PutColumns(cs[1..])
  {
    hide ColumnBytes;
    if |cs| == 1 {
      assert cs[..0] == [] && cs[1..] == [];
    } else {
      var init, last := cs[..|cs| - 1], ColumnBytes(cs[|cs| - 1]);
      PutColumnsFront(init);
      var mid := PutColumns(init[1..]);
      assert PutColumns(cs[1..]) == mid + last by {
        assert cs[1..][..|cs| - 2] == init[1..];
      }
      assert PutColumns(cs) == ColumnBytes(cs[0]) + mid + last;
    }
  }

  function RowDescriptionBody(cs: seq<Column>): (r: Bytes)
    requires |cs| < 0x1_0000
  {
    Wr16(|cs|) + PutColumns(cs)
  }

  function DataRowBody(ps: seq<Param>): (r: Bytes)
    requires |ps| < 0x1_0000 && AllPresent(ps)
  {
    Wr16(|ps|) + PutParams(ps)
  }

  const PROTOCOL_3_0: u32 := 0x0003_0000
  const USER_KEY: Bytes := [117, 115, 101, 114]
  const DATABASE_KEY: Bytes := [100, 97, 116, 97, 98, 97, 115, 101]

  /** The part of a StartupMessage after its length word. */
  function StartupBody(user: Bytes, database: Bytes): (r: Bytes) {
    Wr32(PROTOCOL_3_0) + (USER_KEY + [0] + (user + [0] + (DATABASE_KEY + [0] + (database + [0] + [0]))))
  }

  function StartupPacket(user: Bytes, database: Bytes): (r: Bytes)
  {
    var body := StartupBody(user, database);
    Wr32((|body| + 4) % TWO_TO_THE_32) + body
  }

  // ---------- frontend messages as values ----------

  datatype FrontendMsg =
    | QueryMsg(sql: Bytes)
    | ParseMsg(parse: Parse)
    | BindMsg(portal: Bytes, statement: Bytes, formats: seq<i16>, params: seq<Param>,
              resultFormats: seq<i16>)
    | DescribeMsg(target: byte, name: Bytes)
    | ExecuteMsg(portal: Bytes, maxRows: u32)
    | CloseMsg(target: byte, name: Bytes)
    | SyncMsg
    | FlushMsg
    | TerminateMsg

  /** Strings are C strings, counts fit their 16-bit words, every value is there. */
  predicate Encodable(m: FrontendMsg) {
    match m
    case QueryMsg(sql) => NulFree(sql)
    case ParseMsg(p) => NulFree(p.statement) && NulFree(p.query) && |p.paramTypes| < 0x1_0000
    case BindMsg(portal, statement, fs, ps, rs) =>
      && NulFree(portal) && NulFree(statement)
      && |fs| < 0x1_0000 && |ps| < 0x1_0000 && |rs| < 0x1_0000 && AllPresent(ps)
    case DescribeMsg(_, name) => NulFree(name)
    case ExecuteMsg(portal, _) => NulFree(portal)
    case CloseMsg(_, name) => NulFree(name)
    case _ => true
  }

  function Tag(m: FrontendMsg): (r: byte) {
    match m
    case QueryMsg(_) => QUERY
    case ParseMsg(_) => PARSE
    case BindMsg(_, _, _, _, _) => BIND
    case DescribeMsg(_, _) => DESCRIBE
    case ExecuteMsg(_, _) => EXECUTE
    case CloseMsg(_, _) => CLOSE
    case SyncMsg => SYNC
    case FlushMsg => FLUSH
    case TerminateMsg => TERMINATE
  }

  function Body(m: FrontendMsg): (r: Bytes)
    requires Encodable(m)
  {
    match m
    case QueryMsg(sql) => sql + [0]
    case ParseMsg(p) => ParseBody(p)
    case BindMsg(portal, statement, fs, ps, rs) => BindBody(portal, statement, fs, ps, rs)
    case DescribeMsg(target, name) => NamedBody(target, name)
    case ExecuteMsg(portal, maxRows) => ExecuteBody(portal, maxRows)
    case CloseMsg(target, name) => NamedBody(target, name)
    case SyncMsg => []
    case FlushMsg => []
    case TerminateMsg => []
  }

  function Encode(m: FrontendMsg): (r: Bytes)
    requires Encodable(m)
  {
    Frame(Tag(m), Body(m))
  }
}
