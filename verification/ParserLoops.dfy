/** The loops that read message bodies by a running offset. */
module ParserLoops {
  import opened Wire
  import opened Messages
  import opened Parsers

  /** Looks for the terminator of the string at `off`; `next` is behind it. */
  method ReadCstr(b: Bytes, off: nat) returns (s: Option<Bytes>, next: nat)
    requires off <= |b|
    ensures s.Some? ==> off < next <= |b|
    ensures TakeCstr(b[off..]) == if s.Some? then Some((s.value, b[next..])) else None
  {
    ghost var rest := b[off..];
    for i := off to |b|
      invariant NulFree(rest[..i - off])
    {
      assert b[i] == rest[i - off];
      if b[i] == 0 {
        FindNulIs(rest, i - off);
        assert rest[..i - off] == b[off..i] && rest[i - off + 1..] == b[i + 1..];
        return Some(b[off..i]), i + 1;
      }
    }
    FindNulIs(rest, |rest|);
    s, next := None, 0;
  }

  method ReadI16s(b: Bytes, off: nat, n: nat) returns (vs: seq<i16>, next: nat)
    requires off <= |b|
    ensures next <= |b| && |vs| <= n
    ensures TakeI16s(b[off..], n) == (vs, b[next..])
  {
    vs, next := [], off;
    var i := 0;
    ghost var all := TakeI16s(b[off..], n);
    assert [] + all.0 == all.0;
    while i < n && next + 2 <= |b|
      invariant i == |vs| <= n && off <= next <= |b|
      invariant all
                == (vs + TakeI16s(b[next..], n - i).0, TakeI16s(b[next..], n - i).1)
    {
      var v := ToI16(Rd16(b, next));
      ghost var rest := b[next..];
      assert Rd16(b, next) == Rd16(rest, 0) && rest[2..] == b[next + 2..];
      ghost var later := TakeI16s(b[next + 2..], n - i - 1).0;
      assert vs + ([v] + later) == vs + [v] + later;
      vs, next, i := vs + [v], next + 2, i + 1;
    }
    assert vs + [] == vs;
  }

  method ReadU32s(b: Bytes, off: nat, n: nat) returns (vs: seq<u32>, next: nat)
    requires off <= |b|
    ensures next <= |b| && |vs| <= n
    ensures TakeU32s(b[off..], n) == (vs, b[next..])
  {
    vs, next := [], off;
    var i := 0;
    ghost var all := TakeU32s(b[off..], n);
    assert [] + all.0 == all.0;
    while i < n && next + 4 <= |b|
      invariant i == |vs| <= n && off <= next <= |b|
      invariant all
                == (vs + TakeU32s(b[next..], n - i).0, TakeU32s(b[next..], n - i).1)
    {
      var v := Rd32(b, next);
      ghost var rest := b[next..];
      assert Rd32(b, next) == Rd32(rest, 0) && rest[4..] == b[next + 4..];
      ghost var later := TakeU32s(b[next + 4..], n - i - 1).0;
      assert vs + ([v] + later) == vs + [v] + later;
      vs, next, i := vs + [v], next + 4, i + 1;
    }
    assert vs + [] == vs;
  }

  method ReadOids(b: Bytes, off: nat) returns (r: seq<u32>)
    requires off <= |b|
    ensures r == ParseOids(b[off..])
  {
    r := [];
    if off + 2 <= |b| {
      ghost var rest := b[off..];
      assert Rd16(b, off) == Rd16(rest, 0) && rest[2..] == b[off + 2..];
      var n := Rd16(b, off);
      if n > MAX_PARAM_TYPES {
        n := MAX_PARAM_TYPES;
      }
      var vs, _ := ReadU32s(b, off + 2, n);
      r := Padded(vs, n, 0);
    }
  }

  method ReadParse(body: Bytes) returns (r: Option<Parse>)
    ensures r == ParseParse(body)
  {
    assert body[0..] == body;
    var statement, off := ReadCstr(body, 0);
    if statement.None? {
      return None;
    }
    var query, off2 := ReadCstr(body, off);
    if query.None? {
      return None;
    }
    var oids := ReadOids(body, off2);
    r := Some(Parse(Truncated(statement.value, MAX_NAME), Truncated(query.value, MAX_QUERY), oids));
  }

  /** The part of `TakeParams` that is still to be read after some parameters. */
  ghost predicate ParamsSoFar(b: Bytes, off: nat, n: nat, ps: seq<Param>, next: nat)
    requires off <= |b| && next <= |b| && |ps| <= n
  {
    TakeParams(b[off..], n) == match TakeParams(b[next..], n - |ps|)
                               case None => None
                               case Some((qs, last)) => Some((ps + qs, last))
  }

  lemma NoParamsYet(b: Bytes, off: nat, n: nat)
    requires off <= |b|
    ensures ParamsSoFar(b, off, n, [], off)
  {
    match TakeParams(b[off..], n)
    case None =>
    case Some((qs, last)) => assert [] + qs == qs;
  }

  lemma ParamsOneMore(b: Bytes, off: nat, n: nat, ps: seq<Param>, next: nat, p: Param, next': nat)
    requires off <= |b| && next + 4 <= next' <= |b| && |ps| < n && ParamsSoFar(b, off, n, ps, next)
    requires p.length == ToI32(Rd32(b, next)) && p.format == 0
    requires p.length < 0 ==> p.data == None && next' == next + 4
    requires p.length >= 0 ==> next' == next + 4 + p.length && p.data == Some(b[next + 4..next'])
    ensures ParamsSoFar(b, off, n, ps + [p], next')
  {
    var rest := b[next..];
    assert Rd32(b, next) == Rd32(rest, 0) && rest[4..] == b[next + 4..];
    if p.length >= 0 {
      assert rest[4..][..p.length] == b[next + 4..next'] && rest[4..][p.length..] == b[next'..];
    }
    match TakeParams(b[next'..], n - |ps| - 1)
    case None =>
    case Some((qs, last)) => assert ps + ([p] + qs) == ps + [p] + qs;
  }

  lemma ParamCutOff(b: Bytes, off: nat, n: nat, ps: seq<Param>, next: nat)
    requires off <= |b| && next + 4 <= |b| && |ps| < n && ParamsSoFar(b, off, n, ps, next)
    requires next + 4 + ToI32(Rd32(b, next)) > |b|
    ensures TakeParams(b[off..], n).None?
  {
    var rest := b[next..];
    assert Rd32(b, next) == Rd32(rest, 0);
  }

  lemma ParamsDone(b: Bytes, off: nat, n: nat, ps: seq<Param>, next: nat)
    requires off <= |b| && next <= |b| && |ps| <= n && ParamsSoFar(b, off, n, ps, next)
    requires |ps| == n || next + 4 > |b|
    ensures TakeParams(b[off..], n) == Some((ps, b[next..]))
  {
    assert ps + [] == ps;
  }

  /** Reads the parameter values, each with its format code at once. */
  method ReadParams(b: Bytes, off: nat, formats: seq<i16>, n: nat) returns (r: Option<seq<Param>>, next: nat)
    requires off <= |b|
    ensures next <= |b|
    ensures r.None? ==> TakeParams(b[off..], n).None?
    ensures r.Some? ==> TakeParams(b[off..], n).Some?
                        && r.value == WithFormats(TakeParams(b[off..], n).value.0, formats)
                        && b[next..] == TakeParams(b[off..], n).value.1
  {
    var ps: seq<Param> := [];
    ghost var raw: seq<Param> := [];
    next := off;
    var i := 0;
    NoParamsYet(b, off, n);
    while i < n && next + 4 <= |b|
      invariant i == |ps| == |raw| <= n && off <= next <= |b|
      invariant ps == WithFormats(raw, formats)
      invariant ParamsSoFar(b, off, n, raw, next)
    {
      var plen := ToI32(Rd32(b, next));
      var value := None;
      var behind := next + 4;
      if plen >= 0 {
        if behind + plen > |b| {
          ParamCutOff(b, off, n, raw, next);
          return None, next;
        }
        value := Some(b[behind..behind + plen]);
        behind := behind + plen;
      }
      ParamsOneMore(b, off, n, raw, next, Param(plen, value, 0), behind);
      raw := raw + [Param(plen, value, 0)];
      ps := ps + [Param(plen, value, FormatFor(formats, i))];
      next, i := behind, i + 1;
    }
    ParamsDone(b, off, n, raw, next);
    r := Some(ps);
  }

  method ReadResultFormats(b: Bytes, off: nat) returns (r: seq<i16>)
    requires off <= |b|
    ensures r == ParseResultFormats(b[off..])
  {
    r := [];
    if off + 2 <= |b| {
      ghost var rest := b[off..];
      assert Rd16(b, off) == Rd16(rest, 0) && rest[2..] == b[off + 2..];
      var n := Rd16(b, off);
      if n > MAX_BIND_PARAMS {
        n := MAX_BIND_PARAMS;
      }
      var vs, _ := ReadI16s(b, off + 2, n);
      r := Padded(vs, n, 0);
    }
  }

  method ReadBindArrays(body: Bytes, off: nat, portal: Bytes, statement: Bytes) returns (r: Option<Bind>)
    requires off <= |body|
    ensures r == ParseBindArrays(portal, statement, body[off..])
  {
    ghost var b := body[off..];
    if off + 2 > |body| {
      return None;
    }
    assert Rd16(body, off) == Rd16(b, 0) && b[2..] == body[off + 2..];
    var nf := Rd16(body, off);
    if nf > MAX_BIND_PARAMS {
      nf := MAX_BIND_PARAMS;
    }
    var fs, off3 := ReadI16s(body, off + 2, nf);
    var formats := Padded(fs, nf, 0);
    ghost var b3 := body[off3..];
    if off3 + 2 > |body| {
      return None;
    }
    assert Rd16(body, off3) == Rd16(b3, 0) && b3[2..] == body[off3 + 2..];
    var np := Rd16(body, off3);
    if np > MAX_BIND_PARAMS {
      np := MAX_BIND_PARAMS;
    }
    var ps, off4 := ReadParams(body, off3 + 2, formats, np);
    if ps.None? {
      return None;
    }
    var resultFormats := ReadResultFormats(body, off4);
    r := Some(Bind(Truncated(portal, MAX_NAME), Truncated(statement, MAX_NAME), formats,
                   Padded(ps.value, np, ClearedParam), resultFormats));
  }

  method ReadBind(body: Bytes) returns (r: Option<Bind>)
    ensures r == ParseBind(body)
  {
    assert body[0..] == body;
    var portal, off := ReadCstr(body, 0);
    if portal.None? {
      return None;
    }
    var statement, off2 := ReadCstr(body, off);
    if statement.None? {
      return None;
    }
    r := ReadBindArrays(body, off2, portal.value, statement.value);
  }

  /** The reader of the context: the fields go into the event one by one. */
  method ReadErrorResponse(body: Bytes) returns (ev: Event)
    ensures ev == ErrorResponse(ParseErrorFields(body, NoError))
  {
    var severity: Bytes, code: Bytes, message: Bytes, detail: Bytes, hint: Bytes := [], [], [], [], [];
    var off := 0;
    assert body[0..] == body;
    while off < |body| && body[off] != 0
      invariant off <= |body|
      invariant ParseErrorFields(body, NoError)
                == ParseErrorFields(body[off..], PqError(severity, code, message, detail, hint))
    {
      ghost var rest := body[off..];
      assert rest[0] == body[off] && rest[1..] == body[off + 1..];
      var field := body[off];
      var v, next := ReadCstr(body, off + 1);
      if v.None? {
        break;
      }
      off := next;
      if field == 83 {
        severity := Truncated(v.value, 32);
      } else if field == 67 {
        code := Truncated(v.value, 8);
      } else if field == 77 {
        message := Truncated(v.value, 256);
      } else if field == 68 {
        detail := Truncated(v.value, 256);
      } else if field == 72 {
        hint := Truncated(v.value, 256);
      }
    }
    ev := ErrorResponse(PqError(severity, code, message, detail, hint));
  }

  /** The reader of the pipeline status, over an error of its own. */
  method ReadErrorFields(body: Bytes) returns (e: PqError)
    ensures e == ParseErrorFields(body, NoError)
  {
    e := NoError;
    var off := 0;
    assert body[0..] == body;
    while off < |body| && body[off] != 0
      invariant off <= |body|
      invariant ParseErrorFields(body, NoError) == ParseErrorFields(body[off..], e)
    {
      ghost var rest := body[off..];
      assert rest[0] == body[off] && rest[1..] == body[off + 1..];
      var field := body[off];
      var v, next := ReadCstr(body, off + 1);
      if v.None? {
        return;
      }
      e := SetField(e, field, v.value);
      off := next;
    }
  }

  method ReadStartup(body: Bytes) returns (user: Bytes, database: Bytes)
    ensures (user, database) == ParseStartup(body)
  {
    user, database := [], [];
    var off := 4;
    while off + 1 < |body|
      invariant 4 <= off && (|body| >= 4 ==> off <= |body|)
      invariant |body| >= 4 ==> ParseStartup(body) == TakeStartup(body[off..], user, database)
      invariant |body| < 4 ==> off == 4 && user == [] && database == []
    {
      var key, off1 := ReadCstr(body, off);
      if key.None? || key.value == [] {
        return;
      }
      var v, off2 := ReadCstr(body, off1);
      if v.None? {
        return;
      }
      off := off2;
      if key.value == USER_KEY {
        user := Truncated(v.value, MAX_STARTUP_VALUE);
      } else if key.value == DATABASE_KEY {
        database := Truncated(v.value, MAX_STARTUP_VALUE);
      }
    }
  }
}
