/** The loops behind the two ways of rewriting a Bind. */
module BindRewriters {
  import opened Wire
  import opened Messages
  import opened Parsers
  import opened Buffers
  import opened BindRewrite

  /** Overwrites the owned parameters with copies, the chosen one with the identity. */
  method InjectIdentity(b: Bind, params: array<Param>, slot: nat, identity: Bytes, asBinary: bool)
    returns (rc: int)
    requires AllPresent(b.params) && |b.params| <= params.Length
    requires NulFree(identity) && |identity| < 0x8000_0000
    modifies params
    ensures rc == 0 || rc == -1
    ensures rc == 0 <==> slot < |b.params|
    ensures rc == 0 ==> params[..|b.params|] == Injected(b, slot, identity, asBinary)
    ensures params[|b.params|..] == old(params[|b.params|..])
    ensures rc != 0 ==> params[..] == old(params[..])
  {
    if slot >= |b.params| {
      return -1;
    }
    for i := 0 to |b.params|
      invariant forall j :: 0 <= j < i ==> params[j] == InjectedAt(b, j, slot, identity, asBinary)
      invariant params[|b.params|..] == old(params[|b.params|..])
    {
      var p := b.params[i];
      if i == slot {
        if asBinary {
          params[i] := BinaryParam(identity);
        } else {
          params[i] := TextParam(identity);
        }
      } else if p.length < 0 {
        params[i] := NullParam(p.format);
      } else if p.format == 1 {
        params[i] := BinaryParam(DataOf(p));
      } else {
        params[i] := TextParam(DataOf(p));
      }
    }
    rc := 0;
  }

  /**
   Appends `src` behind the part of the message body written so far. The body
   does not fit the buffer when a part of it does not.
   */
  method Put(out: array<byte>, p: nat, src: Bytes, ghost body: Bytes) returns (ok: bool, q: nat)
    requires 5 <= p <= out.Length && out[5..p] + src <= body
    modifies out
    ensures ok ==> q == p + |src| <= out.Length && out[5..q] == old(out[5..p]) + src
    ensures !ok ==> 5 + |body| > out.Length
  {
    if p + |src| > out.Length {
      return false, p;
    }
    ghost var was := out[5..p];
    MemCpy(out, p, src);
    q := p + |src|;
    assert out[5..q] == out[..q][5..];
    assert out[..q][5..] == was + src;
    ok := true;
  }

  method PutFormats(out: array<byte>, p: nat, vs: seq<i16>, ghost body: Bytes) returns (ok: bool, q: nat)
    requires 5 <= p <= out.Length && out[5..p] + PutI16s(vs) <= body
    modifies out
    ensures ok ==> q == p + 2 * |vs| <= out.Length && out[5..q] == old(out[5..p]) + PutI16s(vs)
    ensures !ok ==> 5 + |body| > out.Length
  {
    q := p;
    ghost var was := out[5..p];
    for i := 0 to |vs|
      invariant q == p + 2 * i <= out.Length
      invariant out[5..q] == was + PutI16s(vs[..i])
    {
      I16sPrefix(vs, i);
      assert out[5..q] + Wr16(ToU16(vs[i])) == was + PutI16s(vs[..i + 1]);
      ok, q := Put(out, q, Wr16(ToU16(vs[i])), body);
      if !ok {
        return;
      }
    }
    assert vs[..|vs|] == vs;
    ok := true;
  }

  lemma {:induction false} I16sPrefix(vs: seq<i16>, i: nat)
    requires i < |vs|
    ensures PutI16s(vs[..i + 1]) == PutI16s(vs[..i]) + Wr16(ToU16(vs[i]))
    ensures PutI16s(vs[..i + 1]) <= PutI16s(vs)
    decreases |vs| - i
  {
    assert vs[..i + 1][..i] == vs[..i];
    if i + 1 < |vs| {
      I16sPrefix(vs, i + 1);
    } else {
      assert vs[..i + 1] == vs;
    }
  }

  lemma {:induction false} ParamsPrefix(ps: seq<Param>, i: nat)
    requires i < |ps| && AllPresent(ps)
    ensures PutParams(ps[..i + 1]) == PutParams(ps[..i]) + ParamBytes(ps[i])
    ensures PutParams(ps[..i + 1]) <= PutParams(ps)
    decreases |ps| - i
  {
    assert ps[..i + 1][..i] == ps[..i];
    if i + 1 < |ps| {
      ParamsPrefix(ps, i + 1);
    } else {
      assert ps[..i + 1] == ps;
    }
  }

  /** A length word and, unless it is negative, the bytes behind it. */
  method PutParam(out: array<byte>, p: nat, param: Param, ghost body: Bytes) returns (ok: bool, q: nat)
    requires Present(param) && 5 <= p <= out.Length && out[5..p] + ParamBytes(param) <= body
    modifies out
    ensures ok ==> q == p + |ParamBytes(param)| <= out.Length
    ensures ok ==> out[5..q] == old(out[5..p]) + ParamBytes(param)
    ensures !ok ==> 5 + |body| > out.Length
  {
    ghost var was := out[5..p];
    var word := Wr32(ToU32(param.length));
    assert ParamBytes(param) == word + DataOf(param);
    assert was + ParamBytes(param) == was + word + DataOf(param);
    ok, q := Put(out, p, word, body);
    if ok && param.length >= 0 {
      ok, q := Put(out, q, DataOf(param), body);
    }
  }

  method PutNext(out: array<byte>, p: nat, param: Param, ghost was: Bytes, ghost ps: seq<Param>, ghost i: nat,
                 ghost body: Bytes)
    returns (ok: bool, q: nat)
    requires i < |ps| && AllPresent(ps) && param == ps[i]
    requires 5 <= p <= out.Length && out[5..p] == was + PutParams(ps[..i]) && was + PutParams(ps) <= body
    modifies out
    ensures ok ==> p <= q <= out.Length && out[5..q] == was + PutParams(ps[..i + 1])
    ensures !ok ==> 5 + |body| > out.Length
  {
    ParamsPrefix(ps, i);
    assert out[5..p] + ParamBytes(param) == was + PutParams(ps[..i + 1]);
    assert was + PutParams(ps[..i + 1]) <= was + PutParams(ps);
    ok, q := PutParam(out, p, param, body);
  }

  method PutRewritten(out: array<byte>, p: nat, b: Bind, slot: nat, identity: Bytes, asBinary: bool,
                      ghost body: Bytes)
    returns (ok: bool, q: nat)
    requires Rewritable(b, slot, identity)
    requires 5 <= p <= out.Length
    requires out[5..p] + PutParams(Rewritten(b, slot, identity, asBinary)) <= body
    modifies out
    ensures ok ==> p <= q <= out.Length
    ensures ok ==> out[5..q] == old(out[5..p]) + PutParams(Rewritten(b, slot, identity, asBinary))
    ensures !ok ==> 5 + |body| > out.Length
  {
    q := p;
    ghost var was := out[5..p];
    ghost var ps := Rewritten(b, slot, identity, asBinary);
    for i := 0 to |b.params|
      invariant p <= q <= out.Length
      invariant out[5..q] == was + PutParams(ps[..i])
    {
      var param := if i == slot then IdentityParam(identity, asBinary) else Forwarded(b, i);
      ok, q := PutNext(out, q, param, was, ps, i, body);
      if !ok {
        return;
      }
    }
    assert ps[..|ps|] == ps;
    ok := true;
  }

  /** The body cut where the writer stands after each of its parts. */
  lemma BodyParts(portal: Bytes, statement: Bytes, formats: seq<i16>, ps: seq<Param>, rs: seq<i16>)
    returns (p2: Bytes, p3: Bytes, p4: Bytes, p5: Bytes, p6: Bytes, p7: Bytes)
    requires |formats| < 0x1_0000 && |ps| < 0x1_0000 && |rs| < 0x1_0000 && AllPresent(ps)
    ensures portal + [0] + (statement + [0]) == p2
    ensures p2 + Wr16(|formats|) == p3 && p3 + PutI16s(formats) == p4
    ensures p4 + Wr16(|ps|) == p5 && p5 + PutParams(ps) == p6
    ensures p6 + Wr16(|rs|) == p7 && p7 + PutI16s(rs) == BindBody(portal, statement, formats, ps, rs)
    ensures portal + [0] <= p2 <= p3 <= p4 <= p5 <= p6 <= p7 <= BindBody(portal, statement, formats, ps, rs)
  {
    var p1 := portal + [0];
    p2 := p1 + (statement + [0]);
    p3 := p2 + Wr16(|formats|);
    p4 := p3 + PutI16s(formats);
    p5 := p4 + Wr16(|ps|);
    p6 := p5 + PutParams(ps);
    p7 := p6 + Wr16(|rs|);
    var r7 := PutI16s(rs);
    var r6 := Wr16(|rs|) + r7;
    var r5 := PutParams(ps) + r6;
    var r4 := Wr16(|ps|) + r5;
    var r3 := PutI16s(formats) + r4;
    var r2 := Wr16(|formats|) + r3;
    assert BindBody(portal, statement, formats, ps, rs) == p1 + (statement + [0] + r2);
    Assoc(p1, statement + [0], r2);
    Assoc(p2, Wr16(|formats|), r3);
    Assoc(p3, PutI16s(formats), r4);
    Assoc(p4, Wr16(|ps|), r5);
    Assoc(p5, PutParams(ps), r6);
    Assoc(p6, Wr16(|rs|), r7);
  }

  /** Writes the whole frame, or fails when the bind has no such slot or the frame does not fit. */
  method RewriteZerocopy(b: Bind, portal: Bytes, statement: Bytes, slot: nat, identity: Bytes, asBinary: bool,
                         out: array<byte>)
    returns (rc: int, len: nat)
    requires AllPresent(b.params) && |b.params| <= MAX_BIND_PARAMS && |b.resultFormats| < 0x1_0000
    requires NulFree(identity) && |identity| < 0x8000_0000
    modifies out
    ensures rc == 0 || rc == -1
    ensures rc == 0 <==> slot < |b.params|
                         && 5 + |RewrittenBody(b, portal, statement, slot, identity, asBinary)| <= out.Length
    ensures rc == 0 ==> len <= out.Length
                        && out[..len] == Frame(BIND, RewrittenBody(b, portal, statement, slot, identity, asBinary))
  {
    rc, len := -1, 0;
    if slot >= |b.params| {
      return;
    }
    var ok, p := PutBody(b, portal, statement, slot, identity, asBinary, out);
    if ok {
      FinishHeader(out, p);
      rc, len := 0, p;
    }
  }

  /** One format code for each parameter, the one of the identity forced. */
  method ResolveFormats(b: Bind, slot: nat, identity: Bytes, asBinary: bool) returns (formats: seq<i16>)
    requires Rewritable(b, slot, identity)
    ensures formats == FormatsOf(Rewritten(b, slot, identity, asBinary))
  {
    ghost var ps := Rewritten(b, slot, identity, asBinary);
    formats := [];
    for i := 0 to |b.params|
      invariant |formats| == i
      invariant forall j :: 0 <= j < i ==> formats[j] == ps[j].format
    {
      var code := if i == slot then (if asBinary then 1 else 0) else FormatFor(b.formats, i);
      formats := formats + [code];
    }
  }

  method PutNames(out: array<byte>, portal: Bytes, statement: Bytes, ghost body: Bytes) returns (ok: bool, p: nat)
    requires 5 <= out.Length && portal + [0] + (statement + [0]) <= body
    modifies out
    ensures ok ==> 5 <= p <= out.Length && out[5..p] == portal + [0] + (statement + [0])
    ensures !ok ==> 5 + |body| > out.Length
  {
    assert out[5..5] + (portal + [0]) == portal + [0];
    ok, p := Put(out, 5, portal + [0], body);
    if ok {
      assert out[5..p] == portal + [0];
      ok, p := Put(out, p, statement + [0], body);
    }
  }

  method PutFormatList(out: array<byte>, p: nat, vs: seq<i16>, ghost body: Bytes) returns (ok: bool, q: nat)
    requires |vs| < 0x1_0000
    requires 5 <= p <= out.Length && out[5..p] + Wr16(|vs|) + PutI16s(vs) <= body
    modifies out
    ensures ok ==> p <= q <= out.Length && out[5..q] == old(out[5..p]) + Wr16(|vs|) + PutI16s(vs)
    ensures !ok ==> 5 + |body| > out.Length
  {
    ghost var was := out[5..p];
    assert was + Wr16(|vs|) <= was + Wr16(|vs|) + PutI16s(vs);
    ok, q := Put(out, p, Wr16(|vs|), body);
    if ok {
      ok, q := PutFormats(out, q, vs, body);
    }
  }

  /** The body goes behind the room left for the header. */
  method PutBody(b: Bind, portal: Bytes, statement: Bytes, slot: nat, identity: Bytes, asBinary: bool,
                 out: array<byte>)
    returns (ok: bool, p: nat)
    requires Rewritable(b, slot, identity)
    modifies out
    ensures ok <==> 5 + |RewrittenBody(b, portal, statement, slot, identity, asBinary)| <= out.Length
    ensures ok ==> 5 <= p <= out.Length
                   && out[5..p] == RewrittenBody(b, portal, statement, slot, identity, asBinary)
  {
    ghost var body := RewrittenBody(b, portal, statement, slot, identity, asBinary);
    ghost var ps := Rewritten(b, slot, identity, asBinary);
    ghost var p2, p3, p4, p5, p6, p7 := BodyParts(portal, statement, FormatsOf(ps), ps, b.resultFormats);
    ok, p := false, 5;
    if out.Length < 5 { return; }
    ok, p := PutNames(out, portal, statement, body);
    if !ok { return; }
    var formats := ResolveFormats(b, slot, identity, asBinary);
    ok, p := PutFormatList(out, p, formats, body);
    if !ok { return; }
    ok, p := Put(out, p, Wr16(|b.params|), body);
    if !ok { return; }
    ok, p := PutRewritten(out, p, b, slot, identity, asBinary, body);
    if !ok { return; }
    ok, p := PutFormatList(out, p, b.resultFormats, body);
  }

  /** The type byte and the length word go into the room left for them. */
  method FinishHeader(out: array<byte>, p: nat)
    requires 5 <= p <= out.Length
    modifies out
    ensures out[..p] == Frame(BIND, old(out[5..p]))
  {
    ghost var rest := out[5..];
    MemCpy(out, 0, [BIND]);
    assert out[5..] == out[1..][4..] == rest;
    MemCpy(out, 1, Wr32((p - 1) % TWO_TO_THE_32));
    assert out[5..] == rest;
    assert out[5..p] == out[5..][..p - 5];
    assert out[..5] == [BIND] + Wr32((p - 1) % TWO_TO_THE_32);
    assert out[..p] == out[..5] + out[5..p];
  }
}
