/**
 What each message body means to the receiver, as functions that take the
 fields off the front of the body, and the round trips with the layouts of
 module Messages.
 */
module Parsers {
  import opened Wire
  import opened Messages

  function Min(a: nat, b: nat): (r: nat) { if a < b then a else b }

  // ---------- Parse ----------

  function ParseParse(body: Bytes): (r: Option<Parse>) {
    match TakeCstr(body)
    case None => None
    case Some((statement, b1)) =>
      match TakeCstr(b1)
      case None => None
      case Some((query, b2)) =>
        Some(Parse(Truncated(statement, MAX_NAME), Truncated(query, MAX_QUERY), ParseOids(b2)))
  }

  function ParseOids(b: Bytes): (r: seq<u32>)
    ensures |r| <= MAX_PARAM_TYPES
  {
    if |b| < 2 then []
    else
      var n := Min(Rd16(b, 0), MAX_PARAM_TYPES);
      Padded(TakeU32s(b[2..], n).0, n, 0)
  }

  lemma ParseRoundTrip(p: Parse)
    requires NulFree(p.statement) && NulFree(p.query) && |p.paramTypes| < 0x1_0000
    ensures ParseParse(ParseBody(p)) ==
            Some(Parse(Truncated(p.statement, MAX_NAME), Truncated(p.query, MAX_QUERY),
                       p.paramTypes[..Min(|p.paramTypes|, MAX_PARAM_TYPES)]))
  {
    var n := Min(|p.paramTypes|, MAX_PARAM_TYPES);
    var tail := PutU32s(p.paramTypes);
    var b2 := Wr16(|p.paramTypes|) + tail;
    TakePutCstr(p.statement, p.query + [0] + b2);
    TakePutCstr(p.query, b2);
    RdWr16(|p.paramTypes|, tail);
    TakePrefixU32s(p.paramTypes, n);
    assert Padded(p.paramTypes[..n], n, 0) == p.paramTypes[..n];
  }

  /** What a Parse holds whose strings are terminated, whatever is behind them. */
  lemma ParseParseIs(statement: Bytes, query: Bytes, rest: Bytes)
    requires NulFree(statement) && NulFree(query)
    ensures ParseParse(statement + [0] + (query + [0] + rest))
            == Some(Parse(Truncated(statement, 64), Truncated(query, 4096), ParseOids(rest)))
  {
    TakePutCstr(statement, query + [0] + rest);
    TakePutCstr(query, rest);
  }

  ghost predicate TwoStrings(body: Bytes, s1: Bytes, s2: Bytes, rest: Bytes) {
    NulFree(s1) && NulFree(s2) && body == s1 + [0] + (s2 + [0] + rest)
  }

  /** A Parse is refused exactly when its two strings are not both terminated. */
  lemma ParseParseIff(body: Bytes)
    ensures ParseParse(body).Some? <==> exists s1, s2, rest :: TwoStrings(body, s1, s2, rest)
  {
    hide TakeCstr, ParseOids;
    TakeCstrIff(body);
    if s1, s2, rest :| TwoStrings(body, s1, s2, rest) {
      ParseParseIs(s1, s2, rest);
    }
    if ParseParse(body).Some? {
      var (s1, b1) := TakeCstr(body).value;
      TakeCstrIff(b1);
      var (s2, rest) := TakeCstr(b1).value;
      assert TwoStrings(body, s1, s2, rest);
    }
  }

  /** At most 16 type OIDs as counted, zero where the body ends before them. */
  lemma ParseOidsAre(b: Bytes)
    ensures |b| < 2 ==> ParseOids(b) == []
    ensures |b| >= 2 ==>
              && |ParseOids(b)| == (if Rd16(b, 0) <= 16 then Rd16(b, 0) else 16)
              && forall i :: 0 <= i < |ParseOids(b)| ==>
                   ParseOids(b)[i] == if 6 + 4 * i <= |b| then Rd32(b, 2 + 4 * i) else 0
  {
    if |b| >= 2 {
      TakeU32sIs(b[2..], Min(Rd16(b, 0), 16));
      var r := ParseOids(b);
      forall i | 0 <= i < |r|
        ensures r[i] == if 6 + 4 * i <= |b| then Rd32(b, 2 + 4 * i) else 0
      {
        if 6 + 4 * i <= |b| {
          assert Rd32(b[2..], 4 * i) == Rd32(b, 2 + 4 * i);
        }
      }
    }
  }

  /** Taking fewer entries than were written yields a prefix of them. */
  lemma {:induction false} TakePrefixU32s(vs: seq<u32>, n: nat)
    requires n <= |vs|
    ensures TakeU32s(PutU32s(vs), n).0 == vs[..n]
  {
    if n > 0 {
      PutU32sFront(vs);
      var tail := PutU32s(vs[1..]);
      RdWr32(vs[0], tail);
      TakeU32sFront(PutU32s(vs), n);
      hide TakeU32s, PutU32s, Wr32, Rd32;
      TakePrefixU32s(vs[1..], n - 1);
      assert vs[..n] == [vs[0]] + vs[1..][..n - 1];
    }
  }

  // ---------- Bind ----------

  /** The rule for format codes: none means text, one covers all, else one each. */
  function FormatFor(formats: seq<i16>, i: nat): (r: i16) {
    if |formats| == 0 then 0
    else if |formats| == 1 then formats[0]
    else if i < |formats| then formats[i] else 0
  }

  /** The next `n` parameter values; None when one runs past the end of the body. */
  function TakeParams(b: Bytes, n: nat): (r: Option<(seq<Param>, Bytes)>)
    ensures r.Some? ==> |r.value.0| <= n
  {
    if n == 0 || |b| < 4 then Some(([], b))
    else
      var plen := ToI32(Rd32(b, 0));
      var rest := b[4..];
      if plen > |rest| then None
      else
        var p := Param(plen, if plen < 0 then None else Some(rest[..plen]), 0);
        match TakeParams(if plen < 0 then rest else rest[plen..], n - 1)
        case None => None
        case Some((ps, last)) => Some(([p] + ps, last))
  }

  /** Every parameter with the format code that the list gives it. */
  function WithFormats(ps: seq<Param>, formats: seq<i16>): (r: seq<Param>)
    ensures |r| == |ps|
  {
    seq(|ps|, i requires 0 <= i < |ps| => ps[i].(format := FormatFor(formats, i)))
  }

  const ClearedParam := Param(0, None, 0)

  function ParseBind(body: Bytes): (r: Option<Bind>) {
    match TakeCstr(body)
    case None => None
    case Some((portal, b1)) =>
      match TakeCstr(b1)
      case None => None
      case Some((statement, b2)) => ParseBindArrays(portal, statement, b2)
  }

  function ParseBindArrays(portal: Bytes, statement: Bytes, b: Bytes): (r: Option<Bind>) {
    if |b| < 2 then None
    else
      var nf := Min(Rd16(b, 0), MAX_BIND_PARAMS);
      var (fs, b3) := TakeI16s(b[2..], nf);
      var formats := Padded(fs, nf, 0);
      if |b3| < 2 then None
      else
        var np := Min(Rd16(b3, 0), MAX_BIND_PARAMS);
        match TakeParams(b3[2..], np)
        case None => None
        case Some((ps, b4)) =>
          Some(Bind(Truncated(portal, MAX_NAME), Truncated(statement, MAX_NAME), formats,
                    Padded(WithFormats(ps, formats), np, ClearedParam), ParseResultFormats(b4)))
  }

  function ParseResultFormats(b: Bytes): (r: seq<i16>)
    ensures |r| <= MAX_BIND_PARAMS
  {
    if |b| < 2 then []
    else
      var n := Min(Rd16(b, 0), MAX_BIND_PARAMS);
      Padded(TakeI16s(b[2..], n).0, n, 0)
  }

  /** A Bind without two terminated strings is refused; with them, the arrays decide. */
  lemma ParseBindStrings(body: Bytes)
    ensures ParseBind(body).Some? ==> exists s1, s2, rest :: TwoStrings(body, s1, s2, rest)
  {
    hide TakeCstr, ParseBindArrays;
    TakeCstrIff(body);
    if ParseBind(body).Some? {
      var (portal, b1) := TakeCstr(body).value;
      TakeCstrIff(b1);
      var (statement, rest) := TakeCstr(b1).value;
      assert TwoStrings(body, portal, statement, rest);
    }
  }

  lemma ParseBindIs(portal: Bytes, statement: Bytes, rest: Bytes)
    requires NulFree(portal) && NulFree(statement)
    ensures ParseBind(portal + [0] + (statement + [0] + rest)) == ParseBindArrays(portal, statement, rest)
  {
    TakePutCstr(portal, statement + [0] + rest);
    TakePutCstr(statement, rest);
  }

  /** Where the formats are read from, and that the body must reach to the parameter count. */
  lemma BindArraysFormats(portal: Bytes, statement: Bytes, b: Bytes)
    ensures |b| < 4 ==> ParseBindArrays(portal, statement, b).None?
    ensures ParseBindArrays(portal, statement, b).Some? ==>
              var r := ParseBindArrays(portal, statement, b).value;
              && r.portal == Truncated(portal, 64) && r.statement == Truncated(statement, 64)
              && |r.formats| == (if Rd16(b, 0) <= 32 then Rd16(b, 0) else 32)
              && 4 + 2 * |r.formats| <= |b|
              && (forall i :: 0 <= i < |r.formats| ==> r.formats[i] == ToI16(Rd16(b, 2 + 2 * i)))
              && var at := 2 + 2 * |r.formats|;
                 |r.params| == if Rd16(b, at) <= 32 then Rd16(b, at) else 32
  {
    if |b| >= 2 {
      var nf := Min(Rd16(b, 0), 32);
      TakeI16sIs(b[2..], nf);
      var (fs, b3) := TakeI16s(b[2..], nf);
      assert b3 == b[2 + 2 * |fs|..];
      forall i | 0 <= i < |fs|
        ensures fs[i] == ToI16(Rd16(b, 2 + 2 * i))
      {
        assert Rd16(b[2..], 2 * i) == Rd16(b, 2 + 2 * i);
      }
    }
  }

  /** Without a value that runs past the body, what is there is taken and the rest is cleared. */
  lemma TakeParamsEnds(b: Bytes, n: nat)
    ensures n == 0 || |b| < 4 ==> TakeParams(b, n) == Some(([], b))
    ensures n > 0 && |b| >= 4 && ToI32(Rd32(b, 0)) > |b| - 4 ==> TakeParams(b, n) == None
  {
  }

  /** Parameters that are counted but not there are of length zero, without data, in text. */
  lemma MissingParamsAreCleared(portal: Bytes, statement: Bytes, n: nat, tail: Bytes)
    requires n < 0x1_0000 && |tail| < 4
    ensures var r := ParseBindArrays(portal, statement, Wr16(0) + (Wr16(n) + tail));
            && r.Some? && r.value.formats == [] && |r.value.params| == (if n <= 32 then n else 32)
            && forall i :: 0 <= i < |r.value.params| ==> r.value.params[i] == Param(0, None, 0)
  {
    var b3 := Wr16(n) + tail;
    RdWr16(0, b3);
    RdWr16(n, tail);
    assert TakeI16s(b3, 0) == ([], b3);
    TakeParamsEnds(tail, Min(n, 32));
  }

  /** At most 32 result formats as counted, zero where the body ends before them. */
  lemma ParseResultFormatsAre(b: Bytes)
    ensures |b| < 2 ==> ParseResultFormats(b) == []
    ensures |b| >= 2 ==>
              && |ParseResultFormats(b)| == (if Rd16(b, 0) <= 32 then Rd16(b, 0) else 32)
              && forall i :: 0 <= i < |ParseResultFormats(b)| ==>
                   ParseResultFormats(b)[i] == if 4 + 2 * i <= |b| then ToI16(Rd16(b, 2 + 2 * i)) else 0
  {
    if |b| >= 2 {
      TakeI16sIs(b[2..], Min(Rd16(b, 0), 32));
      var r := ParseResultFormats(b);
      forall i | 0 <= i < |r|
        ensures r[i] == if 4 + 2 * i <= |b| then ToI16(Rd16(b, 2 + 2 * i)) else 0
      {
        if 4 + 2 * i <= |b| {
          assert Rd16(b[2..], 2 * i) == Rd16(b, 2 + 2 * i);
        }
      }
    }
  }

  /** How a sent parameter looks to the receiver, before its format is known. */
  function View(p: Param): (r: Param)
    requires Present(p)
  {
    Param(p.length, if p.length < 0 then None else Some(if p.length > 0 then p.data.value[..p.length] else []), 0)
  }

  function Views(ps: seq<Param>): (r: seq<Param>)
    requires AllPresent(ps)
    ensures |r| == |ps|
  {
    if ps == [] then [] else [View(ps[0])] + Views(ps[1..])
  }

  /** A length word and its value, seen from the front. */
  lemma ParamBytesFront(p: Param, tail: Bytes)
    requires Present(p)
    ensures var value := if p.length > 0 then p.data.value[..p.length] else [];
            && |ParamBytes(p) + tail| == 4 + |value| + |tail|
            && Rd32(ParamBytes(p) + tail, 0) == ToU32(p.length)
            && (ParamBytes(p) + tail)[4..] == value + tail
            && (value + tail)[..|value|] == value
            && (value + tail)[|value|..] == tail
  {
    var value := if p.length > 0 then p.data.value[..p.length] else [];
    assert ParamBytes(p) + tail == Wr32(ToU32(p.length)) + (value + tail);
    RdWr32(ToU32(p.length), value + tail);
  }

  lemma TakeParamsStep(p: Param, tail: Bytes, n: nat)
    requires Present(p)
    ensures TakeParams(ParamBytes(p) + tail, n + 1)
            == match TakeParams(tail, n)
               case None => None
               case Some((ps, last)) => Some(([View(p)] + ps, last))
  {
    ParamBytesFront(p, tail);
    if p.length <= 0 {
      assert [] + tail == tail;
    }
  }

  lemma {:induction false} TakePutParams(ps: seq<Param>, rest: Bytes)
    requires AllPresent(ps)
    ensures TakeParams(PutParams(ps) + rest, |ps|) == Some((Views(ps), rest))
  {
    if ps == [] {
      assert PutParams(ps) + rest == rest;
    } else {
      var tail := PutParams(ps[1..]) + rest;
      assert PutParams(ps) + rest == ParamBytes(ps[0]) + tail by { PutParamsFront(ps); }
      TakeParamsStep(ps[0], tail, |ps| - 1);
      TakePutParams(ps[1..], rest);
    }
  }

  /** What a Bind means to its receiver. */
  function BindMeaning(portal: Bytes, statement: Bytes, formats: seq<i16>, params: seq<Param>,
                       resultFormats: seq<i16>): (r: Bind)
    requires AllPresent(params)
  {
    Bind(Truncated(portal, MAX_NAME), Truncated(statement, MAX_NAME), formats,
         WithFormats(Views(params), formats), resultFormats)
  }

  lemma ResultFormatsRoundTrip(resultFormats: seq<i16>)
    requires |resultFormats| <= MAX_BIND_PARAMS
    ensures ParseResultFormats(Wr16(|resultFormats|) + PutI16s(resultFormats)) == resultFormats
  {
    hide TakeI16s, PutI16s;
    var list, n := PutI16s(resultFormats), |resultFormats|;
    RdWr16(n, list);
    TakePutAllI16s(resultFormats);
    assert Padded(resultFormats, n, 0) == resultFormats;
  }

  lemma TakePutAllI16s(vs: seq<i16>)
    ensures TakeI16s(PutI16s(vs), |vs|) == (vs, [])
  {
    assert PutI16s(vs) + [] == PutI16s(vs);
    TakePutI16s(vs, []);
  }

  lemma BindArraysRoundTrip(portal: Bytes, statement: Bytes, formats: seq<i16>, params: seq<Param>, b6: Bytes)
    requires |formats| <= MAX_BIND_PARAMS && |params| <= MAX_BIND_PARAMS && AllPresent(params)
    ensures ParseBindArrays(portal, statement,
              Wr16(|formats|) + (PutI16s(formats) + (Wr16(|params|) + (PutParams(params) + b6))))
            == Some(BindMeaning(portal, statement, formats, params, ParseResultFormats(b6)))
  {
    hide TakeI16s, PutI16s, TakeParams, PutParams, Views, ParseResultFormats;
    var b4 := PutParams(params) + b6;
    var b3 := Wr16(|params|) + b4;
    var views := WithFormats(Views(params), formats);
    RdWr16(|formats|, PutI16s(formats) + b3);
    TakePutI16s(formats, b3);
    assert Padded(formats, |formats|, 0) == formats;
    RdWr16(|params|, b4);
    TakePutParams(params, b6);
    assert Padded(views, |params|, ClearedParam) == views;
  }

  lemma BindRoundTrip(portal: Bytes, statement: Bytes, formats: seq<i16>, params: seq<Param>,
                      resultFormats: seq<i16>)
    requires |formats| <= MAX_BIND_PARAMS && |params| <= MAX_BIND_PARAMS
    requires |resultFormats| <= MAX_BIND_PARAMS && AllPresent(params)
    requires NulFree(portal) && NulFree(statement)
    ensures ParseBind(BindBody(portal, statement, formats, params, resultFormats))
            == Some(BindMeaning(portal, statement, formats, params, resultFormats))
  {
    var b6 := Wr16(|resultFormats|) + PutI16s(resultFormats);
    var b2 := Wr16(|formats|) + (PutI16s(formats) + (Wr16(|params|) + (PutParams(params) + b6)));
    TakePutCstr(portal, statement + [0] + b2);
    TakePutCstr(statement, b2);
    BindArraysRoundTrip(portal, statement, formats, params, b6);
    ResultFormatsRoundTrip(resultFormats);
  }

  /** No code means text for all parameters, one code is that of all, more are one each and text behind them. */
  lemma BindFormatsAre(portal: Bytes, statement: Bytes, formats: seq<i16>, params: seq<Param>, resultFormats: seq<i16>)
    requires |formats| <= MAX_BIND_PARAMS && |params| <= MAX_BIND_PARAMS
    requires |resultFormats| <= MAX_BIND_PARAMS && AllPresent(params)
    requires NulFree(portal) && NulFree(statement)
    ensures var r := ParseBind(BindBody(portal, statement, formats, params, resultFormats));
            && r.Some? && |r.value.params| == |params|
            && forall i :: 0 <= i < |params| ==>
                 && (formats == [] ==> r.value.params[i].format == 0)
                 && (|formats| == 1 ==> r.value.params[i].format == formats[0])
                 && (|formats| >= 2 && i < |formats| ==> r.value.params[i].format == formats[i])
                 && (|formats| >= 2 && i >= |formats| ==> r.value.params[i].format == 0)
  {
    BindRoundTrip(portal, statement, formats, params, resultFormats);
  }

  /** Lengths and bytes of the parameters, NULL apart from empty, whatever was behind the length given. */
  lemma {:induction false} ViewsAre(ps: seq<Param>, i: nat)
    requires AllPresent(ps) && i < |ps|
    ensures var v := Views(ps)[i];
            && v.length == ps[i].length
            && (ps[i].length < 0 ==> v.data == None)
            && (ps[i].length == 0 ==> v.data == Some([]))
            && (ps[i].length > 0 ==> v.data == Some(ps[i].data.value[..ps[i].length]))
    decreases |ps|
  {
    if i > 0 {
      ViewsAre(ps[1..], i - 1);
    }
  }

  /** The values that a received Bind has for those sent. */
  lemma BindValuesAre(portal: Bytes, statement: Bytes, formats: seq<i16>, params: seq<Param>, resultFormats: seq<i16>)
    requires |formats| <= MAX_BIND_PARAMS && |params| <= MAX_BIND_PARAMS
    requires |resultFormats| <= MAX_BIND_PARAMS && AllPresent(params)
    requires NulFree(portal) && NulFree(statement)
    ensures var r := ParseBind(BindBody(portal, statement, formats, params, resultFormats));
            && r.Some? && |r.value.params| == |params|
            && r.value.portal == (if |portal| <= 63 then portal else portal[..63])
            && r.value.statement == (if |statement| <= 63 then statement else statement[..63])
            && r.value.formats == formats && r.value.resultFormats == resultFormats
            && forall i :: 0 <= i < |params| ==>
                 && r.value.params[i].length == params[i].length
                 && (params[i].length < 0 ==> r.value.params[i].data == None)
                 && (params[i].length == 0 ==> r.value.params[i].data == Some([]))
                 && (params[i].length > 0 ==>
                       r.value.params[i].data == Some(params[i].data.value[..params[i].length]))
  {
    BindRoundTrip(portal, statement, formats, params, resultFormats);
    forall i | 0 <= i < |params|
      ensures Views(params)[i].length == params[i].length
      ensures params[i].length < 0 ==> Views(params)[i].data == None
      ensures params[i].length == 0 ==> Views(params)[i].data == Some([])
      ensures params[i].length > 0 ==> Views(params)[i].data == Some(params[i].data.value[..params[i].length])
    {
      ViewsAre(params, i);
    }
  }

  // ---------- Describe, Close, Execute, Query ----------

  function CstrOrEmpty(b: Bytes): (r: Bytes) {
    match TakeCstr(b)
    case None => []
    case Some((s, _)) => s
  }

  function ParseNamed(body: Bytes): (r: Option<(byte, Bytes)>) {
    if |body| < 1 then None
    else Some((body[0], Truncated(CstrOrEmpty(body[1..]), MAX_NAME)))
  }

  lemma NamedRoundTrip(target: byte, name: Bytes)
    requires NulFree(name)
    ensures ParseNamed(NamedBody(target, name)) == Some((target, Truncated(name, MAX_NAME)))
  {
    assert NamedBody(target, name)[1..] == name + [0] + [];
    TakePutCstr(name, []);
  }

  /** An empty body is refused, a name without a terminator is empty. */
  lemma ParseNamedEdges(target: byte, name: Bytes)
    requires NulFree(name)
    ensures ParseNamed([]) == None && ParseNamed([target] + name) == Some((target, []))
  {
    assert ([target] + name)[1..] == name;
    TakeCstrIff(name);
  }

  function ParseExecute(body: Bytes): (r: Option<(Bytes, u32)>) {
    match TakeCstr(body)
    case None => None
    case Some((portal, rest)) =>
      Some((Truncated(portal, MAX_NAME), if |rest| < 4 then 0 else Rd32(rest, 0)))
  }

  lemma ExecuteRoundTrip(portal: Bytes, maxRows: u32)
    requires NulFree(portal)
    ensures ParseExecute(ExecuteBody(portal, maxRows)) == Some((Truncated(portal, MAX_NAME), maxRows))
  {
    TakePutCstr(portal, Wr32(maxRows));
    RdWr32(maxRows, []);
    assert Wr32(maxRows) + [] == Wr32(maxRows);
  }

  /** A portal without a terminator is refused, a cut-off row limit is none. */
  lemma ParseExecuteEdges(portal: Bytes, rest: Bytes)
    requires NulFree(portal)
    ensures ParseExecute(portal) == None
    ensures |rest| < 4 ==> ParseExecute(portal + [0] + rest) == Some((Truncated(portal, 64), 0))
    ensures |rest| >= 4 ==> ParseExecute(portal + [0] + rest) == Some((Truncated(portal, 64), Rd32(rest, 0)))
  {
    TakeCstrIff(portal);
    TakePutCstr(portal, rest);
  }

  lemma CstrRoundTrip(s: Bytes)
    requires NulFree(s)
    ensures CstrOrEmpty(s + [0]) == s
  {
    assert s + [0] + [] == s + [0];
    TakePutCstr(s, []);
  }

  // ---------- ErrorResponse ----------

  function SetField(e: PqError, code: byte, v: Bytes): (r: PqError) {
    if code == 83 then e.(severity := Truncated(v, 32))
    else if code == 67 then e.(code := Truncated(v, 8))
    else if code == 77 then e.(message := Truncated(v, 256))
    else if code == 68 then e.(detail := Truncated(v, 256))
    else if code == 72 then e.(hint := Truncated(v, 256))
    else e
  }

  function ParseErrorFields(b: Bytes, e: PqError): (r: PqError)
    decreases |b|
  {
    if |b| == 0 || b[0] == 0 then e
    else
      match TakeCstr(b[1..])
      case None => e
      case Some((v, rest)) => ParseErrorFields(rest, SetField(e, b[0], v))
  }

  lemma ErrorFieldStep(code: byte, v: Bytes, rest: Bytes, e: PqError)
    requires code != 0 && NulFree(v)
    ensures ParseErrorFields([code] + (v + [0] + rest), e) == ParseErrorFields(rest, SetField(e, code, v))
  {
    var b := [code] + (v + [0] + rest);
    assert b[1..] == v + [0] + rest;
    TakePutCstr(v, rest);
  }

  /** A field of an ErrorResponse or NoticeResponse: its code and its text. */
  datatype ErrorField = ErrorField(code: byte, text: Bytes)

  function PutErrorFields(fields: seq<ErrorField>): (r: Bytes) {
    if fields == [] then [0]
    else [fields[0].code] + (fields[0].text + [0] + PutErrorFields(fields[1..]))
  }

  /** The text of the last field of this code, cut to the room there is for it. */
  function LastText(fields: seq<ErrorField>, code: byte, size: nat): (r: Bytes)
    requires size > 0
  {
    if fields == [] then []
    else
      var last := fields[|fields| - 1];
      if last.code == code then (if |last.text| < size then last.text else last.text[..size - 1])
      else LastText(fields[..|fields| - 1], code, size)
  }

  /** The last text of this code, or what was there before. */
  function LastOr(fields: seq<ErrorField>, code: byte, size: nat, before: Bytes): (r: Bytes)
    requires size > 0
  {
    if exists i :: 0 <= i < |fields| && fields[i].code == code then LastText(fields, code, size) else before
  }

  lemma {:induction false} LastTextSkips(fields: seq<ErrorField>, code: byte, size: nat)
    requires fields != [] && size > 0
    requires exists i :: 0 < i < |fields| && fields[i].code == code
    ensures LastText(fields, code, size) == LastText(fields[1..], code, size)
    decreases |fields|
  {
    var n := |fields| - 1;
    if fields[n].code != code {
      assert fields[1..][..n - 1] == fields[..n][1..];
      var i :| 0 < i < |fields| && fields[i].code == code;
      assert fields[..n][i].code == code;
      LastTextSkips(fields[..n], code, size);
    }
  }

  lemma {:induction false} LastTextNone(fields: seq<ErrorField>, code: byte, size: nat)
    requires size > 0 && forall i :: 0 <= i < |fields| ==> fields[i].code != code
    ensures LastText(fields, code, size) == []
    decreases |fields|
  {
    if fields != [] {
      LastTextNone(fields[..|fields| - 1], code, size);
    }
  }

  lemma {:induction false} LastTextFirst(fields: seq<ErrorField>, code: byte, size: nat)
    requires fields != [] && size > 0 && fields[0].code == code
    requires forall i :: 0 < i < |fields| ==> fields[i].code != code
    ensures LastText(fields, code, size) == Truncated(fields[0].text, size)
    decreases |fields|
  {
    if |fields| > 1 {
      LastTextFirst(fields[..|fields| - 1], code, size);
    }
  }

  /** One field in front: its text stands unless a later field has the same code. */
  lemma LastOrFront(fields: seq<ErrorField>, code: byte, size: nat, before: Bytes)
    requires fields != [] && size > 0
    ensures LastOr(fields, code, size, before)
            == LastOr(fields[1..], code, size,
                      if fields[0].code == code then Truncated(fields[0].text, size) else before)
  {
    var rest := fields[1..];
    if i :| 0 <= i < |rest| && rest[i].code == code {
      assert fields[i + 1].code == code;
      LastTextSkips(fields, code, size);
    } else if fields[0].code == code {
      forall i | 0 < i < |fields|
        ensures fields[i].code != code
      {
        assert rest[i - 1] == fields[i];
      }
      LastTextFirst(fields, code, size);
    } else {
      forall i | 0 <= i < |fields|
        ensures fields[i].code != code
      {
        assert i > 0 ==> rest[i - 1] == fields[i];
      }
    }
  }

  predicate ValidFields(fields: seq<ErrorField>) {
    forall i :: 0 <= i < |fields| ==> fields[i].code != 0 && NulFree(fields[i].text)
  }

  lemma {:induction false} FieldsFrom(fields: seq<ErrorField>, e: PqError)
    requires ValidFields(fields)
    ensures ParseErrorFields(PutErrorFields(fields), e)
            == PqError(LastOr(fields, 83, 32, e.severity), LastOr(fields, 67, 8, e.code),
                       LastOr(fields, 77, 256, e.message), LastOr(fields, 68, 256, e.detail),
                       LastOr(fields, 72, 256, e.hint))
    decreases |fields|
  {
    if fields != [] {
      ErrorFieldStep(fields[0].code, fields[0].text, PutErrorFields(fields[1..]), e);
      FieldsFrom(fields[1..], SetField(e, fields[0].code, fields[0].text));
      LastOrFront(fields, 83, 32, e.severity);
      LastOrFront(fields, 67, 8, e.code);
      LastOrFront(fields, 77, 256, e.message);
      LastOrFront(fields, 68, 256, e.detail);
      LastOrFront(fields, 72, 256, e.hint);
    }
  }

  /**
   Any list of fields: S, C, M, D and H give severity, code, message, detail
   and hint, the last of each code cut to 31, 7 and 255 bytes; others are skipped.
   */
  lemma ErrorFieldsRoundTrip(fields: seq<ErrorField>)
    requires ValidFields(fields)
    ensures ParseErrorFields(PutErrorFields(fields), NoError)
            == PqError(LastText(fields, 83, 32), LastText(fields, 67, 8), LastText(fields, 77, 256),
                       LastText(fields, 68, 256), LastText(fields, 72, 256))
  {
    FieldsFrom(fields, NoError);
    LastOrNone(fields, 83, 32);
    LastOrNone(fields, 67, 8);
    LastOrNone(fields, 77, 256);
    LastOrNone(fields, 68, 256);
    LastOrNone(fields, 72, 256);
  }

  lemma LastOrNone(fields: seq<ErrorField>, code: byte, size: nat)
    requires size > 0
    ensures LastOr(fields, code, size, []) == LastText(fields, code, size)
  {
    if forall i :: 0 <= i < |fields| ==> fields[i].code != code {
      LastTextNone(fields, code, size);
    }
  }

  /** The body that the library sends is such a list. */
  lemma ErrorRoundTrip(severity: Bytes, code: Bytes, message: Bytes)
    requires NulFree(severity) && NulFree(code) && NulFree(message)
    ensures ParseErrorFields(ErrorBody(severity, code, message), NoError)
            == PqError(Truncated(severity, 32), Truncated(code, 8), Truncated(message, 256), [], [])
  {
    var b3: Bytes := [77] + (message + [0] + [0]);
    var b2: Bytes := [67] + (code + [0] + b3);
    var e1 := NoError.(severity := Truncated(severity, 32));
    var e2 := e1.(code := Truncated(code, 8));
    ErrorFieldStep(83, severity, b2, NoError);
    ErrorFieldStep(67, code, b3, e1);
    ErrorFieldStep(77, message, [0], e2);
  }

  /** A field without a terminator ends the reading; what came before it stays. */
  lemma UnterminatedFieldEnds(code: byte, text: Bytes, e: PqError)
    requires code != 0 && NulFree(text)
    ensures ParseErrorFields([code] + text, e) == e
  {
    assert ([code] + text)[1..] == text;
    FindNulIs(text, |text|);
  }

  // ---------- RowDescription ----------

  const COLUMN_FIXED: nat := 18

  /** At most `n` complete columns, and the name of one that was cut off after its name. */
  function TakeColumns(b: Bytes, n: nat): (r: (seq<Column>, Option<Bytes>))
    ensures |r.0| <= n && (r.1.Some? ==> |r.0| < n)
  {
    if n == 0 || |b| == 0 then ([], None)
    else
      match TakeCstr(b)
      case None => ([], None)
      case Some((name, rest)) =>
        if |rest| < COLUMN_FIXED then ([], Some(Truncated(name, MAX_NAME)))
        else
          var c := Column(Truncated(name, MAX_NAME), Rd32(rest, 6), ToI16(Rd16(rest, 16)));
          var (cs, cut) := TakeColumns(rest[COLUMN_FIXED..], n - 1);
          ([c] + cs, cut)
  }

  /** The scratch array after the columns were written over its front. */
  function Overwritten(scratch: seq<Column>, cs: seq<Column>, cut: Option<Bytes>): (r: seq<Column>)
    requires |cs| <= |scratch| && (cut.Some? ==> |cs| < |scratch|)
    ensures |r| == |scratch|
  {
    var r := cs + scratch[|cs|..];
    if cut.Some? then r[|cs| := r[|cs|].(name := cut.value)] else r
  }

  lemma ColumnFixedPart(c: Column, tail: Bytes)
    ensures var rest := ColumnFixed(c) + tail;
            && Rd32(rest, 6) == c.oid && ToI16(Rd16(rest, 16)) == c.format
            && rest[COLUMN_FIXED..] == tail
  {
    var after := Wr16(TYPLEN_PLACEHOLDER) + Wr32(0xFFFF_FFFF) + Wr16(ToU16(c.format)) + tail;
    var rest := ColumnFixed(c) + tail;
    assert rest[6..] == Wr32(c.oid) + after;
    assert rest[16..] == Wr16(ToU16(c.format)) + tail;
    RdWr32(c.oid, after);
    RdWr16(ToU16(c.format), tail);
    assert Rd32(rest, 6) == Rd32(rest[6..], 0);
    assert Rd16(rest, 16) == Rd16(rest[16..], 0);
  }

  lemma TakeColumnsStep(c: Column, tail: Bytes, n: nat)
    requires NulFree(c.name)
    ensures TakeColumns(ColumnBytes(c) + tail, n + 1)
            == ([c.(name := Truncated(c.name, MAX_NAME))] + TakeColumns(tail, n).0, TakeColumns(tail, n).1)
  {
    var rest := ColumnFixed(c) + tail;
    assert ColumnBytes(c) + tail == c.name + [0] + rest;
    TakePutCstr(c.name, rest);
    ColumnFixedPart(c, tail);
  }

  /** How a column looks to the receiver: its name may be cut. */
  function Received(c: Column): (r: Column) { c.(name := Truncated(c.name, MAX_NAME)) }

  function AllReceived(cs: seq<Column>): (r: seq<Column>)
    ensures |r| == |cs|
  {
    seq(|cs|, i requires 0 <= i < |cs| => Received(cs[i]))
  }

  lemma ReceivedFront(cs: seq<Column>, n: nat)
    requires 0 < n <= |cs|
    ensures AllReceived(cs[..n]) == [Received(cs[0])] + AllReceived(cs[1..][..n - 1])
  {
  }

  lemma TakeSomeMore(cs: seq<Column>, n: nat)
    requires 0 < n <= |cs| && NulFree(cs[0].name)
    requires TakeColumns(PutColumns(cs[1..]), n - 1) == (AllReceived(cs[1..][..n - 1]), None)
    ensures TakeColumns(PutColumns(cs), n) == (AllReceived(cs[..n]), None)
  {
    hide TakeColumns, PutColumns, ColumnBytes, Truncated, AllReceived;
    PutColumnsFront(cs);
    TakeColumnsStep(cs[0], PutColumns(cs[1..]), n - 1);
    ReceivedFront(cs, n);
  }

  predicate NamesAreStrings(cs: seq<Column>) {
    forall j :: 0 <= j < |cs| ==> NulFree(cs[j].name)
  }

  /** No more columns are taken than asked for, with names cut to 63 bytes. */
  lemma {:induction false} TakePutSomeColumns(cs: seq<Column>, n: nat)
    requires n <= |cs| && NamesAreStrings(cs)
    ensures TakeColumns(PutColumns(cs), n) == (AllReceived(cs[..n]), None)
    decreases n
  {
    hide TakeColumns, PutColumns, AllReceived, NulFree;
    if n == 0 {
      TakeNoColumns(cs);
    } else {
      TakePutSomeColumns(cs[1..], n - 1);
      TakeSomeMore(cs, n);
    }
  }

  lemma TakeNoColumns(cs: seq<Column>)
    ensures TakeColumns(PutColumns(cs), 0) == (AllReceived(cs[..0]), None)
  {
    hide PutColumns;
  }

  lemma {:induction false} TakePutColumns(cs: seq<Column>)
    requires forall j :: 0 <= j < |cs| ==> |cs[j].name| < MAX_NAME && NulFree(cs[j].name)
    ensures TakeColumns(PutColumns(cs), |cs|) == (cs, None)
  {
    if cs == [] {
    } else {
      PutColumnsFront(cs);
      TakeColumnsStep(cs[0], PutColumns(cs[1..]), |cs| - 1);
      TakePutColumns(cs[1..]);
      assert [cs[0]] + cs[1..] == cs;
    }
  }

  /** A column is cut off when its name has no terminator or less than 18 bytes are behind it. */
  lemma TakeColumnsEdges(name: Bytes, rest: Bytes, n: nat)
    requires NulFree(name) && |rest| < 18
    ensures TakeColumns([], n) == ([], None)
    ensures TakeColumns(name, n) == ([], None)
    ensures TakeColumns(name + [0] + rest, n + 1) == ([], Some(Truncated(name, 64)))
  {
    TakeCstrIff(name);
    TakePutCstr(name, rest);
  }

  // ---------- DataRow ----------

  const ROW_ARENA: nat := 65536

  /** The column values of a row; a value that runs past the body ends the row. */
  function TakeValues(b: Bytes, n: nat): (r: seq<Option<Bytes>>)
    ensures |r| <= n
  {
    if n == 0 || |b| < 4 then []
    else
      var plen := ToI32(Rd32(b, 0));
      var rest := b[4..];
      if plen < 0 then [None] + TakeValues(rest, n - 1)
      else if plen > |rest| then []
      else [Some(rest[..plen])] + TakeValues(rest[plen..], n - 1)
  }

  /** A run of bytes in the row arena. */
  datatype Slice = Slice(off: nat, len: nat)

  /** The column pointers, the values they keep, and the arena after copying. */
  datatype Row = Row(slices: seq<Option<Slice>>, values: seq<Option<Bytes>>, arena: Bytes, used: nat)

  /** The arena after a column was copied behind its used part. */
  function Stored(arena: Bytes, used: nat, value: Bytes): (r: Bytes)
    requires used + |value| <= |arena|
    ensures |r| == |arena|
  {
    arena[..used] + value + arena[used + |value|..]
  }

  /** Each value goes behind the used part of the arena; one that does not fit is dropped. */
  function Place(values: seq<Option<Bytes>>, arena: Bytes, used: nat): (r: Row)
    requires used <= |arena|
    ensures |r.slices| == |r.values| == |values|
    ensures used <= r.used <= |r.arena| == |arena|
  {
    if values == [] then Row([], [], arena, used)
    else
      match values[0]
      case Some(v) =>
        if used + |v| <= |arena| then
          var r := Place(values[1..], Stored(arena, used, v), used + |v|);
          r.(slices := [Some(Slice(used, |v|))] + r.slices, values := [Some(v)] + r.values)
        else
          var r := Place(values[1..], arena, used);
          r.(slices := [None] + r.slices, values := [None] + r.values)
      case None =>
        var r := Place(values[1..], arena, used);
        r.(slices := [None] + r.slices, values := [None] + r.values)
  }

  lemma PlaceNothing(arena: Bytes, used: nat)
    requires used <= |arena|
    ensures Place([], arena, used) == Row([], [], arena, used)
  {
  }

  function TotalSize(values: seq<Option<Bytes>>): (r: nat) {
    if values == [] then 0
    else (if values[0].Some? then |values[0].value| else 0) + TotalSize(values[1..])
  }

  /** Every value is kept exactly when all together fit the free part of the arena. */
  lemma {:induction false} PlaceKeepsAllIff(values: seq<Option<Bytes>>, arena: Bytes, used: nat)
    requires used <= |arena|
    ensures Place(values, arena, used).values == values <==> used + TotalSize(values) <= |arena|
    ensures used + TotalSize(values) <= |arena| ==> Place(values, arena, used).used == used + TotalSize(values)
    decreases |values|
  {
    if values == [] {
    } else {
      var fits := values[0].Some? && used + |values[0].value| <= |arena|;
      var arena', used' := if fits then Stored(arena, used, values[0].value) else arena,
                           if fits then used + |values[0].value| else used;
      PlaceKeepsAllIff(values[1..], arena', used');
      var r := Place(values, arena, used).values;
      assert r[1..] == Place(values[1..], arena', used').values;
      assert r == values <==> r[0] == values[0] && r[1..] == values[1..] by {
        assert r == [r[0]] + r[1..] && values == [values[0]] + values[1..];
      }
    }
  }

  /** A value is kept exactly when it fits behind the ones kept before it, however many were dropped. */
  lemma {:induction false} PlaceKeepsIff(values: seq<Option<Bytes>>, arena: Bytes, used: nat, i: nat)
    requires used <= |arena| && i < |values|
    ensures var kept := Place(values, arena, used).values;
            kept[i] == if values[i].Some? && used + TotalSize(kept[..i]) + |values[i].value| <= |arena|
                       then values[i] else None
    decreases i
  {
    if i > 0 {
      var fits := values[0].Some? && used + |values[0].value| <= |arena|;
      var arena', used' := if fits then Stored(arena, used, values[0].value) else arena,
                           if fits then used + |values[0].value| else used;
      PlaceKeepsIff(values[1..], arena', used', i - 1);
      var kept, rest := Place(values, arena, used).values, Place(values[1..], arena', used').values;
      assert kept == [if fits then values[0] else None] + rest;
      hide Place, Stored;
      assert kept[..i] == [kept[0]] + rest[..i - 1];
    }
  }

  /** Only the kept values take room. */
  lemma {:induction false} PlaceSpends(values: seq<Option<Bytes>>, arena: Bytes, used: nat)
    requires used <= |arena|
    ensures Place(values, arena, used).used == used + TotalSize(Place(values, arena, used).values)
    decreases |values|
  {
    if values != [] {
      var fits := values[0].Some? && used + |values[0].value| <= |arena|;
      var arena', used' := if fits then Stored(arena, used, values[0].value) else arena,
                           if fits then used + |values[0].value| else used;
      PlaceSpends(values[1..], arena', used');
      assert Place(values, arena, used).values[1..] == Place(values[1..], arena', used').values;
    }
  }

  /** NULL columns are told apart from empty ones. */
  function ColumnValue(p: Param): (r: Option<Bytes>)
    requires Present(p)
  {
    if p.length < 0 then None
    else if p.length == 0 then Some([])
    else Some(p.data.value[..p.length])
  }

  function ColumnValues(ps: seq<Param>): (r: seq<Option<Bytes>>)
    requires AllPresent(ps)
    ensures |r| == |ps|
  {
    if ps == [] then [] else [ColumnValue(ps[0])] + ColumnValues(ps[1..])
  }

  lemma TakeValuesStep(p: Param, tail: Bytes, n: nat)
    requires Present(p)
    ensures TakeValues(ParamBytes(p) + tail, n + 1) == [ColumnValue(p)] + TakeValues(tail, n)
  {
    ParamBytesFront(p, tail);
    if p.length <= 0 {
      assert [] + tail == tail;
    }
  }

  lemma {:induction false} TakePutValues(ps: seq<Param>)
    requires AllPresent(ps)
    ensures TakeValues(PutParams(ps), |ps|) == ColumnValues(ps)
  {
    if ps == [] {
    } else {
      PutParamsFront(ps);
      TakeValuesStep(ps[0], PutParams(ps[1..]), |ps| - 1);
      TakePutValues(ps[1..]);
    }
  }

  lemma ColumnValuesFront(ps: seq<Param>, n: nat)
    requires 0 < n <= |ps| && AllPresent(ps)
    ensures ColumnValues(ps)[..n] == [ColumnValue(ps[0])] + ColumnValues(ps[1..])[..n - 1]
  {
    hide ColumnValue;
  }

  lemma TakeMoreValues(ps: seq<Param>, n: nat)
    requires 0 < n <= |ps| && AllPresent(ps)
    requires TakeValues(PutParams(ps[1..]), n - 1) == ColumnValues(ps[1..])[..n - 1]
    ensures TakeValues(PutParams(ps), n) == ColumnValues(ps)[..n]
  {
    hide TakeValues, PutParams, ParamBytes, ColumnValue, ColumnValues;
    ColumnValuesFront(ps, n);
    PutParamsFront(ps);
    TakeValuesStep(ps[0], PutParams(ps[1..]), n - 1);
  }

  /** No more values are taken than asked for. */
  lemma {:induction false} TakePutSomeValues(ps: seq<Param>, n: nat)
    requires n <= |ps| && AllPresent(ps)
    ensures TakeValues(PutParams(ps), n) == ColumnValues(ps)[..n]
    decreases n
  {
    hide PutParams, ColumnValues;
    if n > 0 {
      hide TakeValues;
      TakePutSomeValues(ps[1..], n - 1);
      TakeMoreValues(ps, n);
    }
  }

  /** A value that runs past the body, or a length word cut off, ends the row. */
  lemma TakeValuesEnds(b: Bytes, n: nat)
    ensures n == 0 || |b| < 4 ==> TakeValues(b, n) == []
    ensures |b| >= 4 && ToI32(Rd32(b, 0)) > |b| - 4 ==> TakeValues(b, n) == []
  {
  }

  // ---------- NotificationResponse ----------

  function ParseNotification(body: Bytes): (r: Option<(i32, Bytes, Bytes)>) {
    if |body| < 4 then None
    else
      match TakeCstr(body[4..])
      case None => None
      case Some((channel, rest)) =>
        Some((ToI32(Rd32(body, 0)), Truncated(channel, MAX_NAME),
              Truncated(CstrOrEmpty(rest), MAX_NOTIFY_PAYLOAD + 1)))
  }

  lemma NotificationRoundTrip(pid: i32, channel: Bytes, payload: Bytes, rest: Bytes)
    requires NulFree(channel) && NulFree(payload)
    ensures ParseNotification(Wr32(ToU32(pid)) + (channel + [0] + (payload + [0] + rest)))
            == Some((pid, Truncated(channel, 64), if |payload| <= 8000 then payload else payload[..8000]))
  {
    hide TakeCstr, Rd32, Wr32;
    var b := channel + [0] + (payload + [0] + rest);
    RdWr32(ToU32(pid), b);
    TakePutCstr(channel, payload + [0] + rest);
    TakePutCstr(payload, rest);
  }

  /** Without a whole process number or a terminated channel nothing is reported; a payload may be cut off. */
  lemma NotificationEdges(b: Bytes, pid: i32, channel: Bytes, payload: Bytes)
    requires |b| < 4 && NulFree(channel) && NulFree(payload)
    ensures ParseNotification(b) == None
    ensures ParseNotification(Wr32(ToU32(pid)) + channel) == None
    ensures ParseNotification(Wr32(ToU32(pid)) + (channel + [0] + payload)) == Some((pid, Truncated(channel, 64), []))
  {
    RdWr32(ToU32(pid), channel);
    RdWr32(ToU32(pid), channel + [0] + payload);
    TakeCstrIff(channel);
    TakeCstrIff(payload);
    TakePutCstr(channel, payload);
  }

  // ---------- StartupMessage ----------

  /** Keys and values up to an empty key, a missing terminator or the last byte. */
  function TakeStartup(b: Bytes, user: Bytes, database: Bytes): (r: (Bytes, Bytes))
    decreases |b|
  {
    if |b| < 2 then (user, database)
    else
      match TakeCstr(b)
      case None => (user, database)
      case Some((key, b1)) =>
        if key == [] then (user, database)
        else
          match TakeCstr(b1)
          case None => (user, database)
          case Some((v, b2)) =>
            var s := Truncated(v, MAX_STARTUP_VALUE);
            if key == USER_KEY then TakeStartup(b2, s, database)
            else if key == DATABASE_KEY then TakeStartup(b2, user, s)
            else TakeStartup(b2, user, database)
  }

  /** The body starts with the protocol version, which is not looked at. */
  function ParseStartup(body: Bytes): (r: (Bytes, Bytes)) {
    if |body| < 4 then ([], []) else TakeStartup(body[4..], [], [])
  }

  lemma TakeStartupStep(key: Bytes, v: Bytes, rest: Bytes, user: Bytes, database: Bytes)
    requires key != [] && NulFree(key) && NulFree(v)
    ensures TakeStartup(key + [0] + (v + [0] + rest), user, database)
            == var s := Truncated(v, MAX_STARTUP_VALUE);
               if key == USER_KEY then TakeStartup(rest, s, database)
               else if key == DATABASE_KEY then TakeStartup(rest, user, s)
               else TakeStartup(rest, user, database)
  {
    hide TakeCstr, Truncated;
    TakePutCstr(key, v + [0] + rest);
    TakePutCstr(v, rest);
  }

  lemma StartupFields(user: Bytes, database: Bytes)
    ensures |StartupBody(user, database)| >= 4
    ensures StartupBody(user, database)[4..]
            == USER_KEY + [0] + (user + [0] + (DATABASE_KEY + [0] + (database + [0] + [0])))
  {
  }

  lemma StartupKeys()
    ensures NulFree(USER_KEY) && NulFree(DATABASE_KEY) && USER_KEY != [] && DATABASE_KEY != []
    ensures USER_KEY != DATABASE_KEY
  {
    assert |DATABASE_KEY| != |USER_KEY|;
  }

  lemma StartupRoundTrip(user: Bytes, database: Bytes)
    requires NulFree(user) && NulFree(database)
    ensures ParseStartup(StartupBody(user, database))
            == (if |user| <= 127 then user else user[..127], if |database| <= 127 then database else database[..127])
  {
    var body := StartupBody(user, database);
    StartupFields(user, database);
    StartupKeys();
    assert ParseStartup(body) == TakeStartup(body[4..], [], []);
    var u, d := Truncated(user, MAX_STARTUP_VALUE), Truncated(database, MAX_STARTUP_VALUE);
    assert TakeStartup([0], u, d) == (u, d);
    hide *;
    TakeStartupStep(USER_KEY, user, DATABASE_KEY + [0] + (database + [0] + [0]), [], []);
    TakeStartupStep(DATABASE_KEY, database, [0], u, []);
  }

  /** An empty key ends the reading, and so do a missing terminator and a last single byte. */
  lemma StartupEnds(rest: Bytes, text: Bytes, user: Bytes, database: Bytes)
    requires NulFree(text)
    ensures TakeStartup([0] + rest, user, database) == (user, database)
    ensures TakeStartup(text, user, database) == (user, database)
    ensures TakeStartup(text + [0], user, database) == (user, database)
  {
    assert [] + [0] + rest == [0] + rest;
    TakePutCstr([], rest);
    TakeCstrIff(text);
    assert text + [0] + [] == text + [0];
    TakePutCstr(text, []);
  }

  lemma ShortStartupIsEmpty(body: Bytes)
    requires |body| < 6
    ensures ParseStartup(body) == ([], [])
  {
  }
}
