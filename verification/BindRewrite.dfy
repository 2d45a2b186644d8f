/**
 The two ways of forcing one parameter of a parsed Bind to an identity: copy
 the parameters into an owned array and send a fresh Bind, or write the
 rewritten frame straight from the parsed views.
 */
module BindRewrite {
  import opened Wire
  import opened Messages
  import opened Parsers

  // ---------- what the two ways write ----------

  function DataOf(p: Param): (r: Bytes)
    requires Present(p)
  {
    if p.length > 0 then p.data.value[..p.length] else []
  }

  function IdentityParam(identity: Bytes, asBinary: bool): (r: Param)
    requires |identity| < 0x8000_0000
  {
    Param(|identity|, Some(identity), if asBinary then 1 else 0)
  }

  function NullParam(format: i16): (r: Param) { Param(-1, None, format) }

  function BinaryParam(data: Bytes): (r: Param)
    requires |data| < 0x8000_0000
  {
    Param(|data|, if data == [] then None else Some(data), 1)
  }

  /** A text parameter goes through a C string, so it ends at its first zero byte. */
  function TextParam(text: Bytes): (r: Param)
    requires |text| < 0x8000_0000
  {
    Param(FindNul(text), Some(text[..FindNul(text)]), 0)
  }

  /** The owned copy of parameter `p`. */
  function Copied(p: Param): (r: Param)
    requires Present(p)
    ensures Present(r)
  {
    if p.length < 0 then NullParam(p.format)
    else if p.format == 1 then BinaryParam(DataOf(p))
    else TextParam(DataOf(p))
  }

  /** Parameter `i` as the second way writes it. */
  function Forwarded(b: Bind, i: nat): (r: Param)
    requires i < |b.params| && Present(b.params[i])
    ensures Present(r)
  {
    var p := b.params[i];
    if p.length < 0 then NullParam(FormatFor(b.formats, i))
    else Param(p.length, Some(DataOf(p)), FormatFor(b.formats, i))
  }

  predicate Rewritable(b: Bind, slot: nat, identity: Bytes) {
    && slot < |b.params| <= MAX_BIND_PARAMS
    && AllPresent(b.params) && |b.resultFormats| < 0x1_0000
    && NulFree(identity) && |identity| < 0x8000_0000
  }

  function InjectedAt(b: Bind, i: nat, slot: nat, identity: Bytes, asBinary: bool): (r: Param)
    requires i < |b.params| && Present(b.params[i]) && |identity| < 0x8000_0000
    ensures Present(r)
  {
    if i != slot then Copied(b.params[i])
    else if asBinary then BinaryParam(identity)
    else TextParam(identity)
  }

  function RewrittenAt(b: Bind, i: nat, slot: nat, identity: Bytes, asBinary: bool): (r: Param)
    requires i < |b.params| && Present(b.params[i]) && |identity| < 0x8000_0000
    ensures Present(r)
  {
    if i == slot then IdentityParam(identity, asBinary) else Forwarded(b, i)
  }

  function Injected(b: Bind, slot: nat, identity: Bytes, asBinary: bool): (r: seq<Param>)
    requires AllPresent(b.params) && |identity| < 0x8000_0000
    ensures |r| == |b.params| && AllPresent(r)
  {
    seq(|b.params|, i requires 0 <= i < |b.params| => InjectedAt(b, i, slot, identity, asBinary))
  }

  function Rewritten(b: Bind, slot: nat, identity: Bytes, asBinary: bool): (r: seq<Param>)
    requires AllPresent(b.params) && |identity| < 0x8000_0000
    ensures |r| == |b.params| && AllPresent(r)
  {
    seq(|b.params|, i requires 0 <= i < |b.params| => RewrittenAt(b, i, slot, identity, asBinary))
  }

  /** One format code for each parameter. */
  function FormatsOf(ps: seq<Param>): (r: seq<i16>)
    ensures |r| == |ps|
  {
    seq(|ps|, i requires 0 <= i < |ps| => ps[i].format)
  }

  function ParamsBody(portal: Bytes, statement: Bytes, ps: seq<Param>, resultFormats: seq<i16>): (r: Bytes)
    requires |ps| < 0x1_0000 && |resultFormats| < 0x1_0000 && AllPresent(ps)
  {
    BindBody(portal, statement, FormatsOf(ps), ps, resultFormats)
  }

  function InjectedBody(b: Bind, portal: Bytes, statement: Bytes, slot: nat, identity: Bytes, asBinary: bool): (r: Bytes)
    requires Rewritable(b, slot, identity)
  {
    ParamsBody(portal, statement, Injected(b, slot, identity, asBinary), b.resultFormats)
  }

  function RewrittenBody(b: Bind, portal: Bytes, statement: Bytes, slot: nat, identity: Bytes, asBinary: bool): (r: Bytes)
    requires Rewritable(b, slot, identity)
  {
    ParamsBody(portal, statement, Rewritten(b, slot, identity, asBinary), b.resultFormats)
  }

  // ---------- when the two ways agree ----------

  /** The format of the parameter is the one the list gives it, and text has no zero byte. */
  predicate CopiesFaithfully(b: Bind, i: nat)
    requires i < |b.params| && Present(b.params[i])
  {
    var p := b.params[i];
    if p.length < 0 then p.format == FormatFor(b.formats, i)
    else
      && FormatFor(b.formats, i) == (if p.format == 1 then 1 else 0)
      && (p.format != 1 ==> NulFree(DataOf(p)))
  }

  lemma CopiedIsForwardedIff(b: Bind, i: nat)
    requires i < |b.params| && Present(b.params[i])
    ensures CopiesFaithfully(b, i) <==>
            && Copied(b.params[i]).format == Forwarded(b, i).format
            && View(Copied(b.params[i])) == View(Forwarded(b, i))
  {
    var p := b.params[i];
    if p.length >= 0 && p.format != 1 {
      var text := DataOf(p);
      assert text[..|text|] == text;
      FindNulStops(text);
      if NulFree(text) {
        FindNulIs(text, |text|);
      }
    }
  }

  lemma SlotIsWrittenAlike(identity: Bytes, asBinary: bool)
    requires NulFree(identity) && |identity| < 0x8000_0000
    ensures var p := if asBinary then BinaryParam(identity) else TextParam(identity);
            && p.format == IdentityParam(identity, asBinary).format
            && View(p) == View(IdentityParam(identity, asBinary))
            && DataOf(IdentityParam(identity, asBinary)) == identity
  {
    assert identity[..|identity|] == identity;
    FindNulIs(identity, |identity|);
  }

  lemma {:induction false} ViewsAt(ps: seq<Param>, i: nat)
    requires AllPresent(ps) && i < |ps|
    ensures Views(ps)[i] == View(ps[i])
    decreases |ps|
  {
    if i > 0 {
      ViewsAt(ps[1..], i - 1);
    }
  }

  /** Parameters are written by what their receiver will see of them. */
  lemma {:induction false} PutParamsByView(ps: seq<Param>, qs: seq<Param>)
    requires AllPresent(ps) && AllPresent(qs) && |ps| == |qs|
    requires forall i :: 0 <= i < |ps| ==> View(ps[i]) == View(qs[i])
    ensures PutParams(ps) == PutParams(qs)
    decreases |ps|
  {
    if ps == [] {
    } else {
      var n := |ps| - 1;
      PutParamsByView(ps[..n], qs[..n]);
      assert View(ps[n]) == View(qs[n]);
      assert ParamBytes(ps[n]) == ParamBytes(qs[n]);
    }
  }

  lemma SameTail(x: Bytes, a: Bytes, b: Bytes)
    requires x + a == x + b
    ensures a == b
  {
    assert (x + a)[|x|..] == a && (x + b)[|x|..] == b;
  }

  lemma SameParts(a: Bytes, b: Bytes, c: Bytes, d: Bytes)
    requires a + b == c + d && |a| == |c|
    ensures a == c && b == d
  {
    assert (a + b)[..|a|] == a && (c + d)[..|a|] == c;
    assert (a + b)[|a|..] == b && (c + d)[|a|..] == d;
  }

  /** The bytes determine format codes and parameter values. */
  lemma ParamsBodyInjective(portal: Bytes, statement: Bytes, ps: seq<Param>, qs: seq<Param>, rs: seq<i16>)
    requires |ps| == |qs| < 0x1_0000 && |rs| < 0x1_0000 && AllPresent(ps) && AllPresent(qs)
    requires ParamsBody(portal, statement, ps, rs) == ParamsBody(portal, statement, qs, rs)
    ensures FormatsOf(ps) == FormatsOf(qs) && Views(ps) == Views(qs)
  {
    var n := |ps|;
    var last := Wr16(|rs|) + PutI16s(rs);
    var p4, q4 := Wr16(n) + (PutParams(ps) + last), Wr16(n) + (PutParams(qs) + last);
    var p3, q3 := PutI16s(FormatsOf(ps)) + p4, PutI16s(FormatsOf(qs)) + q4;
    SameTail(portal + [0], statement + [0] + (Wr16(n) + p3), statement + [0] + (Wr16(n) + q3));
    SameTail(statement + [0], Wr16(n) + p3, Wr16(n) + q3);
    SameTail(Wr16(n), p3, q3);
    SameParts(PutI16s(FormatsOf(ps)), p4, PutI16s(FormatsOf(qs)), q4);
    TakePutAllI16s(FormatsOf(ps));
    TakePutAllI16s(FormatsOf(qs));
    SameTail(Wr16(n), PutParams(ps) + last, PutParams(qs) + last);
    TakePutParams(ps, last);
    TakePutParams(qs, last);
  }

  /** Both ways write the same bytes exactly when every other parameter is copied faithfully. */
  lemma RewritersAgreeIff(b: Bind, portal: Bytes, statement: Bytes, slot: nat, identity: Bytes, asBinary: bool)
    requires Rewritable(b, slot, identity)
    ensures InjectedBody(b, portal, statement, slot, identity, asBinary)
            == RewrittenBody(b, portal, statement, slot, identity, asBinary)
            <==> forall i :: 0 <= i < |b.params| && i != slot ==> CopiesFaithfully(b, i)
  {
    var ps, qs := Injected(b, slot, identity, asBinary), Rewritten(b, slot, identity, asBinary);
    if forall i :: 0 <= i < |ps| && i != slot ==> CopiesFaithfully(b, i) {
      forall i | 0 <= i < |ps|
        ensures ps[i].format == qs[i].format && View(ps[i]) == View(qs[i])
      {
        if i == slot {
          SlotIsWrittenAlike(identity, asBinary);
        } else {
          CopiedIsForwardedIff(b, i);
        }
      }
      assert FormatsOf(ps) == FormatsOf(qs);
      PutParamsByView(ps, qs);
    }
    if ParamsBody(portal, statement, ps, b.resultFormats) == ParamsBody(portal, statement, qs, b.resultFormats) {
      ParamsBodyInjective(portal, statement, ps, qs, b.resultFormats);
      forall i | 0 <= i < |ps| && i != slot
        ensures CopiesFaithfully(b, i)
      {
        assert FormatsOf(ps)[i] == FormatsOf(qs)[i];
        ViewsAt(ps, i);
        ViewsAt(qs, i);
        CopiedIsForwardedIff(b, i);
      }
    }
  }

  // ---------- received Binds ----------

  lemma {:induction false} TakenAreSound(b: Bytes, n: nat)
    requires TakeParams(b, n).Some?
    ensures AllPresent(TakeParams(b, n).value.0)
  {
    if n > 0 && |b| >= 4 {
      var plen := ToI32(Rd32(b, 0));
      TakenAreSound(if plen < 0 then b[4..] else b[4..][plen..], n - 1);
    }
  }

  /**
   Whatever body it came from, a received Bind is within the limits, its values
   are there, and a format that is not the one of the list is that of a
   parameter the body ended before.
   */
  lemma ReceivedIsSound(body: Bytes)
    requires ParseBind(body).Some?
    ensures var b := ParseBind(body).value;
            && |b.params| <= MAX_BIND_PARAMS && |b.formats| <= MAX_BIND_PARAMS
            && |b.resultFormats| <= MAX_BIND_PARAMS && AllPresent(b.params)
            && forall i :: 0 <= i < |b.params| ==>
                 b.params[i].format == FormatFor(b.formats, i) || b.params[i] == ClearedParam
  {
    var b2 := TakeCstr(TakeCstr(body).value.1).value.1;
    var nf := Min(Rd16(b2, 0), MAX_BIND_PARAMS);
    var b3 := TakeI16s(b2[2..], nf).1;
    var np := Min(Rd16(b3, 0), MAX_BIND_PARAMS);
    TakenAreSound(b3[2..], np);
    var ps, b := TakeParams(b3[2..], np).value.0, ParseBind(body).value;
    assert b.params == Padded(WithFormats(ps, b.formats), np, ClearedParam);
    forall i | 0 <= i < |b.params|
      ensures Present(b.params[i])
      ensures b.params[i].format == FormatFor(b.formats, i) || b.params[i] == ClearedParam
    {
      if i < |ps| {
        assert Present(ps[i]);
      }
    }
  }

  /** The value is NULL, or binary, or text that a C string can carry, under the code of its format list. */
  predicate PlainValue(b: Bind, i: nat)
    requires i < |b.params| && Present(b.params[i])
  {
    var p := b.params[i];
    p.length >= 0 ==>
      && p.format == FormatFor(b.formats, i)
      && (p.format == 1 || (p.format == 0 && NulFree(DataOf(p))))
  }

  /** On a received Bind both ways write the same bytes exactly when every other parameter is plain. */
  lemma ReceivedRewritersAgreeIff(body: Bytes, portal: Bytes, statement: Bytes, slot: nat, identity: Bytes,
                                  asBinary: bool)
    requires ParseBind(body).Some? && slot < |ParseBind(body).value.params|
    requires NulFree(identity) && |identity| < 0x8000_0000
    ensures var b := ParseBind(body).value;
            && Rewritable(b, slot, identity)
            && (InjectedBody(b, portal, statement, slot, identity, asBinary)
                == RewrittenBody(b, portal, statement, slot, identity, asBinary)
                <==> forall i :: 0 <= i < |b.params| && i != slot ==> PlainValue(b, i))
  {
    var b := ParseBind(body).value;
    ReceivedIsSound(body);
    RewritersAgreeIff(b, portal, statement, slot, identity, asBinary);
    forall i | 0 <= i < |b.params| && i != slot
      ensures CopiesFaithfully(b, i) <==> PlainValue(b, i)
    {
    }
  }

  /** What a receiver has of the first of two parameters, the second one NULL. */
  lemma FirstOfTwo(formats: seq<i16>, p: Param)
    requires |formats| <= 1 && p.length > 0 && Present(p) && p.length == |p.data.value|
    ensures var b := ParseBind(BindBody([], [], formats, [p, Param(-1, None, 0)], []));
            && b.Some? && |b.value.params| == 2 && b.value.formats == formats
            && b.value.params[0] == p.(format := FormatFor(formats, 0))
  {
    var ps := [p, Param(-1, None, 0)];
    BindRoundTrip([], [], formats, ps, []);
    ViewsAt(ps, 0);
    assert p.data.value[..p.length] == p.data.value;
  }

  /** A received Bind on which the two ways differ: a text value that holds a zero byte. */
  lemma ZeroByteIsCut(portal: Bytes, statement: Bytes, identity: Bytes, asBinary: bool)
    requires NulFree(identity) && |identity| < 0x8000_0000
    ensures var body := BindBody([], [], [], [Param(1, Some([0]), 0), Param(-1, None, 0)], []);
            && ParseBind(body).Some? && Rewritable(ParseBind(body).value, 1, identity)
            && InjectedBody(ParseBind(body).value, portal, statement, 1, identity, asBinary)
               != RewrittenBody(ParseBind(body).value, portal, statement, 1, identity, asBinary)
  {
    var body := BindBody([], [], [], [Param(1, Some([0]), 0), Param(-1, None, 0)], []);
    FirstOfTwo([], Param(1, Some([0]), 0));
    var b := ParseBind(body).value;
    assert DataOf(b.params[0])[0] == 0;
    assert !PlainValue(b, 0);
    ReceivedRewritersAgreeIff(body, portal, statement, 1, identity, asBinary);
  }

  /** Another one: a format code that is neither 0 nor 1. */
  lemma OtherFormatIsLost(portal: Bytes, statement: Bytes, identity: Bytes, asBinary: bool)
    requires NulFree(identity) && |identity| < 0x8000_0000
    ensures var body := BindBody([], [], [2], [Param(1, Some([65]), 0), Param(-1, None, 0)], []);
            && ParseBind(body).Some? && Rewritable(ParseBind(body).value, 1, identity)
            && InjectedBody(ParseBind(body).value, portal, statement, 1, identity, asBinary)
               != RewrittenBody(ParseBind(body).value, portal, statement, 1, identity, asBinary)
  {
    var body := BindBody([], [], [2], [Param(1, Some([65]), 0), Param(-1, None, 0)], []);
    FirstOfTwo([2], Param(1, Some([65]), 0));
    var b := ParseBind(body).value;
    assert !PlainValue(b, 0);
    ReceivedRewritersAgreeIff(body, portal, statement, 1, identity, asBinary);
  }

  // ---------- what the rewritten Bind means ----------

  /** Parameter `i` as a receiver of the original sees it, all NULLs alike. */
  function Original(b: Bind, i: nat): (r: Param)
    requires i < |b.params| && Present(b.params[i])
  {
    var p := b.params[i];
    Param(if p.length < 0 then -1 else p.length,
          if p.length < 0 then None else Some(DataOf(p)),
          FormatFor(b.formats, i))
  }

  lemma ViewRewritten(b: Bind, i: nat, slot: nat, identity: Bytes, asBinary: bool)
    requires i < |b.params| && Present(b.params[i]) && NulFree(identity) && |identity| < 0x8000_0000
    ensures var p := RewrittenAt(b, i, slot, identity, asBinary);
            View(p).(format := p.format)
            == if i == slot then IdentityParam(identity, asBinary) else Original(b, i)
  {
    SlotIsWrittenAlike(identity, asBinary);
    if i != slot {
      assert DataOf(Forwarded(b, i)) == DataOf(b.params[i]);
    }
  }

  lemma RewriteMeaning(b: Bind, portal: Bytes, statement: Bytes, slot: nat, identity: Bytes, asBinary: bool)
    requires Rewritable(b, slot, identity) && |b.resultFormats| <= MAX_BIND_PARAMS
    requires NulFree(portal) && NulFree(statement)
    ensures var r := ParseBind(RewrittenBody(b, portal, statement, slot, identity, asBinary));
            && r.Some?
            && r.value.portal == Truncated(portal, MAX_NAME)
            && r.value.statement == Truncated(statement, MAX_NAME)
            && |r.value.params| == |r.value.formats| == |b.params|
            && (forall i :: 0 <= i < |b.params| ==>
                  r.value.params[i] == if i == slot then IdentityParam(identity, asBinary) else Original(b, i))
            && (forall i :: 0 <= i < |b.params| ==> r.value.formats[i] == r.value.params[i].format)
            && r.value.resultFormats == b.resultFormats
  {
    var qs := Rewritten(b, slot, identity, asBinary);
    BindRoundTrip(portal, statement, FormatsOf(qs), qs, b.resultFormats);
    var params := WithFormats(Views(qs), FormatsOf(qs));
    forall i | 0 <= i < |b.params|
      ensures params[i] == if i == slot then IdentityParam(identity, asBinary) else Original(b, i)
      ensures FormatsOf(qs)[i] == params[i].format
    {
      ViewsAt(qs, i);
      assert qs[i] == RewrittenAt(b, i, slot, identity, asBinary);
      assert FormatFor(FormatsOf(qs), i) == qs[i].format;
      ViewRewritten(b, i, slot, identity, asBinary);
    }
  }

  /** The same field by field: nothing here is said through what the rewriters are made of. */
  lemma RewriteSpelledOut(b: Bind, portal: Bytes, statement: Bytes, slot: nat, identity: Bytes, asBinary: bool)
    requires Rewritable(b, slot, identity) && |b.resultFormats| <= MAX_BIND_PARAMS
    requires NulFree(portal) && NulFree(statement)
    ensures var r := ParseBind(RewrittenBody(b, portal, statement, slot, identity, asBinary));
            && r.Some? && |r.value.params| == |r.value.formats| == |b.params|
            && r.value.portal == (if |portal| <= 63 then portal else portal[..63])
            && r.value.statement == (if |statement| <= 63 then statement else statement[..63])
            && r.value.resultFormats == b.resultFormats
            && r.value.params[slot] == Param(|identity|, Some(identity), if asBinary then 1 else 0)
            && r.value.formats[slot] == (if asBinary then 1 else 0)
            && forall i :: 0 <= i < |b.params| && i != slot ==>
                 && r.value.formats[i] == r.value.params[i].format
                 && (b.formats == [] ==> r.value.formats[i] == 0)
                 && (|b.formats| == 1 ==> r.value.formats[i] == b.formats[0])
                 && (|b.formats| >= 2 && i < |b.formats| ==> r.value.formats[i] == b.formats[i])
                 && (|b.formats| >= 2 && i >= |b.formats| ==> r.value.formats[i] == 0)
                 && (b.params[i].length < 0 ==> r.value.params[i].length == -1 && r.value.params[i].data == None)
                 && (b.params[i].length == 0 ==> r.value.params[i].length == 0 && r.value.params[i].data == Some([]))
                 && (b.params[i].length > 0 ==>
                       && r.value.params[i].length == b.params[i].length
                       && r.value.params[i].data == Some(b.params[i].data.value[..b.params[i].length]))
  {
    hide RewrittenBody, ParseBind;
    RewriteMeaning(b, portal, statement, slot, identity, asBinary);
    var r := ParseBind(RewrittenBody(b, portal, statement, slot, identity, asBinary)).value;
    assert r.params[slot] == IdentityParam(identity, asBinary);
    assert forall i :: 0 <= i < |b.params| && i != slot ==> r.params[i] == Original(b, i);
  }

  /** The owned copy field by field: text ends at its first zero byte and has format 0. */
  lemma CopySpelledOut(p: Param)
    requires Present(p)
    ensures p.length < 0 ==> Copied(p).length == -1 && Copied(p).data == None && Copied(p).format == p.format
    ensures p.length >= 0 && p.format == 1 ==>
              && Copied(p).length == p.length && Copied(p).format == 1
              && (p.length > 0 ==> Copied(p).data == Some(p.data.value[..p.length]))
    ensures p.length > 0 && p.format != 1 ==>
              var n := Copied(p).length;
              && 0 <= n <= p.length && Copied(p).format == 0
              && Copied(p).data == Some(p.data.value[..n])
              && NulFree(p.data.value[..n]) && (n < p.length ==> p.data.value[n] == 0)
    ensures p.length == 0 && p.format != 1 ==> Copied(p).length == 0 && Copied(p).format == 0
  {
    if p.length > 0 && p.format != 1 {
      var text := p.data.value[..p.length];
      FindNulStops(text);
      assert text[..FindNul(text)] == p.data.value[..FindNul(text)];
    }
  }

  /** The rewritten Bind, received again. */
  function Reparsed(b: Bind, portal: Bytes, statement: Bytes, slot: nat, identity: Bytes, asBinary: bool): (r: Option<Bind>)
    requires Rewritable(b, slot, identity)
  {
    ParseBind(RewrittenBody(b, portal, statement, slot, identity, asBinary))
  }

  /** What a second rewrite of another slot forwards of the reparsed Bind. */
  lemma ForwardsReparsed(b: Bind, portal: Bytes, statement: Bytes, slot: nat, identity: Bytes, asBinary: bool)
    requires Rewritable(b, slot, identity) && |b.resultFormats| <= MAX_BIND_PARAMS
    requires NulFree(portal) && NulFree(statement)
    ensures var r := Reparsed(b, portal, statement, slot, identity, asBinary);
            && r.Some? && |r.value.params| == |b.params| && AllPresent(r.value.params)
            && r.value.resultFormats == b.resultFormats
            && forall i :: 0 <= i < |b.params| ==>
                 Forwarded(r.value, i) == if i == slot then IdentityParam(identity, asBinary) else Forwarded(b, i)
  {
    RewriteMeaning(b, portal, statement, slot, identity, asBinary);
    var r := Reparsed(b, portal, statement, slot, identity, asBinary).value;
    forall i | 0 <= i < |b.params|
      ensures Present(r.params[i])
      ensures Forwarded(r, i) == if i == slot then IdentityParam(identity, asBinary) else Forwarded(b, i)
    {
      assert r.params[i] == if i == slot then IdentityParam(identity, asBinary) else Original(b, i);
      assert r.formats[i] == r.params[i].format;
      assert FormatFor(r.formats, i) == r.formats[i];
      assert Present(r.params[i]);
      assert r.params[i].data.Some? ==> DataOf(r.params[i]) == r.params[i].data.value;
    }
  }

  /** A rewrite of `slot2` on top of one of `slot1`. */
  function RewrittenBoth(b: Bind, slot1: nat, id1: Bytes, bin1: bool, slot2: nat, id2: Bytes, bin2: bool): (r: seq<Param>)
    requires AllPresent(b.params) && |id1| < 0x8000_0000 && |id2| < 0x8000_0000
    ensures |r| == |b.params|
  {
    seq(|b.params|, i requires 0 <= i < |b.params| =>
      if i == slot2 then IdentityParam(id2, bin2) else RewrittenAt(b, i, slot1, id1, bin1))
  }

  lemma RewriteAgain(b: Bind, p1: Bytes, s1: Bytes, slot1: nat, id1: Bytes, bin1: bool,
                     slot2: nat, id2: Bytes, bin2: bool)
    requires Rewritable(b, slot1, id1) && Rewritable(b, slot2, id2)
    requires |b.resultFormats| <= MAX_BIND_PARAMS && NulFree(p1) && NulFree(s1)
    ensures var r := Reparsed(b, p1, s1, slot1, id1, bin1);
            && r.Some? && Rewritable(r.value, slot2, id2) && r.value.resultFormats == b.resultFormats
            && Rewritten(r.value, slot2, id2, bin2) == RewrittenBoth(b, slot1, id1, bin1, slot2, id2, bin2)
  {
    ForwardsReparsed(b, p1, s1, slot1, id1, bin1);
    var r := Reparsed(b, p1, s1, slot1, id1, bin1).value;
    var both := RewrittenBoth(b, slot1, id1, bin1, slot2, id2, bin2);
    forall i | 0 <= i < |b.params|
      ensures Rewritten(r, slot2, id2, bin2)[i] == both[i]
    {
      assert Rewritten(r, slot2, id2, bin2)[i] == RewrittenAt(r, i, slot2, id2, bin2);
    }
  }

  /** Rewriting a slot twice is rewriting it once with the last identity. */
  lemma RewriteTwice(b: Bind, p1: Bytes, s1: Bytes, p2: Bytes, s2: Bytes, slot: nat,
                     id1: Bytes, bin1: bool, id2: Bytes, bin2: bool)
    requires Rewritable(b, slot, id1) && Rewritable(b, slot, id2)
    requires |b.resultFormats| <= MAX_BIND_PARAMS && NulFree(p1) && NulFree(s1)
    ensures var r := Reparsed(b, p1, s1, slot, id1, bin1);
            && r.Some? && Rewritable(r.value, slot, id2)
            && RewrittenBody(r.value, p2, s2, slot, id2, bin2) == RewrittenBody(b, p2, s2, slot, id2, bin2)
  {
    RewriteAgain(b, p1, s1, slot, id1, bin1, slot, id2, bin2);
    assert RewrittenBoth(b, slot, id1, bin1, slot, id2, bin2) == Rewritten(b, slot, id2, bin2);
  }

  /** Rewrites of two different slots commute. */
  lemma RewritesCommute(b: Bind, p1: Bytes, s1: Bytes, p2: Bytes, s2: Bytes, slot1: nat, slot2: nat,
                        id1: Bytes, bin1: bool, id2: Bytes, bin2: bool)
    requires Rewritable(b, slot1, id1) && Rewritable(b, slot2, id2) && slot1 != slot2
    requires |b.resultFormats| <= MAX_BIND_PARAMS && NulFree(p1) && NulFree(s1)
    ensures var r1 := Reparsed(b, p1, s1, slot1, id1, bin1);
            var r2 := Reparsed(b, p1, s1, slot2, id2, bin2);
            && r1.Some? && r2.Some? && Rewritable(r1.value, slot2, id2) && Rewritable(r2.value, slot1, id1)
            && RewrittenBody(r1.value, p2, s2, slot2, id2, bin2)
               == RewrittenBody(r2.value, p2, s2, slot1, id1, bin1)
  {
    hide Reparsed, Rewritten, BindBody;
    RewriteAgain(b, p1, s1, slot1, id1, bin1, slot2, id2, bin2);
    RewriteAgain(b, p1, s1, slot2, id2, bin2, slot1, id1, bin1);
    assert RewrittenBoth(b, slot1, id1, bin1, slot2, id2, bin2)
        == RewrittenBoth(b, slot2, id2, bin2, slot1, id1, bin1);
  }
}
