/**
 The byte level of the wire format: big-endian words, counted lists and
 C strings, each as a pair of a writer and a reader that takes the value off
 the front of a byte sequence.
 */
module Wire {

  datatype Option<+T> = None | Some(value: T)

  type byte = x: int | 0 <= x < 0x100
  type u16 = x: int | 0 <= x < 0x1_0000
  type u32 = x: int | 0 <= x < 0x1_0000_0000
  type i16 = x: int | -0x8000 <= x < 0x8000
  type i32 = x: int | -0x8000_0000 <= x < 0x8000_0000

  type Bytes = seq<byte>

  const TWO_TO_THE_32: int := 0x1_0000_0000

  lemma Assoc<T>(a: seq<T>, b: seq<T>, c: seq<T>)
    ensures a + (b + c) == a + b + c
  {
  }

  lemma SliceOfAppended<T>(a: seq<T>, b: seq<T>, lo: nat, hi: nat)
    requires lo <= hi <= |a|
    ensures (a + b)[lo..hi] == a[lo..hi]
    ensures (a + b)[hi..] == a[hi..] + b
  {
  }

  lemma Neutral<T>(a: seq<T>)
    ensures a + [] == a && [] + a == a
  {
  }

  // ---------- words ----------

  function Rd16(b: Bytes, off: nat): (r: u16)
    requires off + 2 <= |b|
  {
    b[off] as int * 0x100 + b[off + 1]
  }

  function Rd32(b: Bytes, off: nat): (r: u32)
    requires off + 4 <= |b|
  {
    b[off] as int * 0x100_0000 + b[off + 1] as int * 0x1_0000 + b[off + 2] as int * 0x100 + b[off + 3]
  }

  function Wr16(v: u16): (r: Bytes)
    ensures |r| == 2
  {
    [v / 0x100, v % 0x100]
  }

  function Wr32(v: u32): (r: Bytes)
    ensures |r| == 4
  {
    [v / 0x100_0000, v / 0x1_0000 % 0x100, v / 0x100 % 0x100, v % 0x100]
  }

  lemma RdWr16(v: u16, rest: Bytes)
    ensures Rd16(Wr16(v) + rest, 0) == v
    ensures (Wr16(v) + rest)[2..] == rest
  {
  }

  lemma Base256(v: u32)
    ensures v / 0x100_0000 * 0x100_0000 + v / 0x1_0000 % 0x100 * 0x1_0000 + v / 0x100 % 0x100 * 0x100
            + v % 0x100 == v
  {
    assert v / 0x100 == v / 0x1_0000 * 0x100 + v / 0x100 % 0x100;
    assert v / 0x1_0000 == v / 0x100_0000 * 0x100 + v / 0x1_0000 % 0x100;
  }

  lemma RdWr32(v: u32, rest: Bytes)
    ensures Rd32(Wr32(v) + rest, 0) == v
    ensures (Wr32(v) + rest)[4..] == rest
  {
    Base256(v);
    var w := Wr32(v);
    var b := w + rest;
    assert b[0] == w[0] && b[1] == w[1] && b[2] == w[2] && b[3] == w[3];
    assert b[4..] == rest;
  }

  /** Network byte order: the first byte weighs most. */
  lemma WordsAreBigEndian()
    ensures Wr16(0x0102) == [1, 2] && Wr32(0x0102_0304) == [1, 2, 3, 4]
    ensures forall b: Bytes :: |b| >= 2 ==> Rd16(b, 0) == b[0] as int * 0x100 + b[1]
    ensures forall b: Bytes :: |b| >= 4 ==>
              Rd32(b, 0) == ((b[0] as int * 0x100 + b[1]) * 0x100 + b[2]) * 0x100 + b[3]
    ensures Wr16(ToU16(-1)) == [255, 255] && Wr32(ToU32(-1)) == [255, 255, 255, 255]
  {
  }

  lemma WordOf(a: byte, b: byte, c: byte, d: byte)
    ensures var v := a as int * 0x100_0000 + b as int * 0x1_0000 + c as int * 0x100 + d;
            v / 0x100_0000 == a && v / 0x1_0000 % 0x100 == b && v / 0x100 % 0x100 == c && v % 0x100 == d
  {
    var v := a as int * 0x100_0000 + b as int * 0x1_0000 + c as int * 0x100 + d;
    assert v / 0x1_0000 == a as int * 0x100 + b;
    assert v / 0x100 == (a as int * 0x100 + b) * 0x100 + c;
  }

  lemma WrRd32(b: Bytes, off: nat)
    requires off + 4 <= |b|
    ensures Wr32(Rd32(b, off)) == b[off..off + 4]
  {
    WordOf(b[off], b[off + 1], b[off + 2], b[off + 3]);
  }

  /** The C casts between signed and unsigned words of one width. */
  function ToU16(v: i16): (r: u16) { if v < 0 then v + 0x1_0000 else v }
  function ToI16(v: u16): (r: i16) { if v < 0x8000 then v else v - 0x1_0000 }
  function ToU32(v: i32): (r: u32) { if v < 0 then v + 0x1_0000_0000 else v }
  function ToI32(v: u32): (r: i32) { if v < 0x8000_0000 then v else v - 0x1_0000_0000 }

  // ---------- lists of words ----------

  /** Written back to front so that a loop appending one entry unfolds it once. */
  function PutI16s(vs: seq<i16>): (r: Bytes)
    ensures |r| == 2 * |vs|
  {
    if vs == [] then [] else PutI16s(vs[..|vs| - 1]) + Wr16(ToU16(vs[|vs| - 1]))
  }

  function PutU32s(vs: seq<u32>): (r: Bytes)
    ensures |r| == 4 * |vs|
  {
    if vs == [] then [] else PutU32s(vs[..|vs| - 1]) + Wr32(vs[|vs| - 1])
  }

  /** At most `n` entries, fewer when the bytes run out. */
  function TakeI16s(b: Bytes, n: nat): (r: (seq<i16>, Bytes))
    ensures |r.0| <= n
    ensures n == 0 ==> r == ([], b)
  {
    if n == 0 || |b| < 2 then ([], b)
    else
      var (vs, rest) := TakeI16s(b[2..], n - 1);
      ([ToI16(Rd16(b, 0))] + vs, rest)
  }

  function TakeU32s(b: Bytes, n: nat): (r: (seq<u32>, Bytes))
    ensures |r.0| <= n
  {
    if n == 0 || |b| < 4 then ([], b)
    else
      var (vs, rest) := TakeU32s(b[4..], n - 1);
      ([Rd32(b, 0)] + vs, rest)
  }

  lemma {:induction false} PutI16sFront(vs: seq<i16>)
    requires vs != []
    ensures PutI16s(vs) == Wr16(ToU16(vs[0])) + PutI16s(vs[1..])
  {
    if |vs| == 1 {
      assert vs[..0] == [] && vs[1..] == [];
    } else {
      var init := vs[..|vs| - 1];
      PutI16sFront(init);
      assert vs[1..][..|vs| - 2] == init[1..];
    }
  }

  lemma {:induction false} PutU32sFront(vs: seq<u32>)
    requires vs != []
    ensures PutU32s(vs) == Wr32(vs[0]) + PutU32s(vs[1..])
  {
    if |vs| == 1 {
      assert vs[..0] == [] && vs[1..] == [];
    } else {
      var init := vs[..|vs| - 1];
      PutU32sFront(init);
      assert vs[1..][..|vs| - 2] == init[1..];
    }
  }

  lemma {:induction false} TakePutI16s(vs: seq<i16>, rest: Bytes)
    ensures TakeI16s(PutI16s(vs) + rest, |vs|) == (vs, rest)
  {
    if vs == [] {
      assert PutI16s(vs) + rest == rest;
    } else {
      PutI16sFront(vs);
      var tail := PutI16s(vs[1..]) + rest;
      assert PutI16s(vs) + rest == Wr16(ToU16(vs[0])) + tail;
      RdWr16(ToU16(vs[0]), tail);
      TakePutI16s(vs[1..], rest);
      assert [vs[0]] + vs[1..] == vs;
    }
  }

  lemma {:induction false} TakePutU32s(vs: seq<u32>, rest: Bytes)
    ensures TakeU32s(PutU32s(vs) + rest, |vs|) == (vs, rest)
  {
    if vs == [] {
      assert PutU32s(vs) + rest == rest;
    } else {
      PutU32sFront(vs);
      var tail := PutU32s(vs[1..]) + rest;
      assert PutU32s(vs) + rest == Wr32(vs[0]) + tail;
      RdWr32(vs[0], tail);
      TakePutU32s(vs[1..], rest);
      assert [vs[0]] + vs[1..] == vs;
    }
  }

  lemma TakeI16sFront(b: Bytes, n: nat)
    requires n > 0 && |b| >= 2
    ensures var (vs, rest) := TakeI16s(b[2..], n - 1);
            TakeI16s(b, n) == ([ToI16(Rd16(b, 0))] + vs, rest)
  {
  }

  lemma TakeI16sNone(b: Bytes, n: nat)
    requires n == 0 || |b| < 2
    ensures TakeI16s(b, n) == ([], b)
  {
  }

  /** As many as there are bytes for, and the bytes behind them. */
  lemma {:induction false} TakeI16sMany(b: Bytes, n: nat)
    ensures var (vs, rest) := TakeI16s(b, n);
            |vs| == (if n <= |b| / 2 then n else |b| / 2) && rest == b[2 * |vs|..]
    decreases n
  {
    hide *;
    if n > 0 && |b| >= 2 {
      TakeI16sMany(b[2..], n - 1);
      TakeI16sFront(b, n);
      var k := |TakeI16s(b[2..], n - 1).0|;
      assert b[2..][2 * k..] == b[2 * (1 + k)..];
    } else {
      TakeI16sNone(b, n);
    }
  }

  ghost predicate AreI16s(b: Bytes, vs: seq<i16>) {
    2 * |vs| <= |b| && forall i :: 0 <= i < |vs| ==> vs[i] == ToI16(Rd16(b, 2 * i))
  }

  lemma AreI16sMore(b: Bytes, vs: seq<i16>)
    requires |b| >= 2 && AreI16s(b[2..], vs)
    ensures AreI16s(b, [ToI16(Rd16(b, 0))] + vs)
  {
    var c, all := b[2..], [ToI16(Rd16(b, 0))] + vs;
    forall i | 0 <= i < |all|
      ensures all[i] == ToI16(Rd16(b, 2 * i))
    {
      if i > 0 {
        assert all[i] == vs[i - 1] && Rd16(c, 2 * (i - 1)) == Rd16(b, 2 * i);
      }
    }
  }

  /** Each of them is read where it stands. */
  lemma {:induction false} TakeI16sAre(b: Bytes, n: nat)
    ensures AreI16s(b, TakeI16s(b, n).0)
    decreases n
  {
    if n > 0 && |b| >= 2 {
      TakeI16sFront(b, n);
      hide *;
      TakeI16sAre(b[2..], n - 1);
      AreI16sMore(b, TakeI16s(b[2..], n - 1).0);
    } else {
      TakeI16sNone(b, n);
    }
  }

  /** Entry by entry what is read, however few bytes there are. */
  lemma TakeI16sIs(b: Bytes, n: nat)
    ensures var (vs, rest) := TakeI16s(b, n);
            && |vs| == (if n <= |b| / 2 then n else |b| / 2) && rest == b[2 * |vs|..]
            && forall i :: 0 <= i < |vs| ==> vs[i] == ToI16(Rd16(b, 2 * i))
  {
    hide TakeI16s;
    TakeI16sMany(b, n);
    TakeI16sAre(b, n);
  }

  lemma TakeU32sFront(b: Bytes, n: nat)
    requires n > 0 && |b| >= 4
    ensures var (vs, rest) := TakeU32s(b[4..], n - 1);
            TakeU32s(b, n) == ([Rd32(b, 0)] + vs, rest)
  {
  }

  lemma TakeU32sNone(b: Bytes, n: nat)
    requires n == 0 || |b| < 4
    ensures TakeU32s(b, n) == ([], b)
  {
  }

  /** As many as there are bytes for, and the bytes behind them. */
  lemma {:induction false} TakeU32sMany(b: Bytes, n: nat)
    ensures var (vs, rest) := TakeU32s(b, n);
            |vs| == (if n <= |b| / 4 then n else |b| / 4) && rest == b[4 * |vs|..]
    decreases n
  {
    hide *;
    if n > 0 && |b| >= 4 {
      TakeU32sMany(b[4..], n - 1);
      TakeU32sFront(b, n);
      var k := |TakeU32s(b[4..], n - 1).0|;
      assert b[4..][4 * k..] == b[4 * (1 + k)..];
    } else {
      TakeU32sNone(b, n);
    }
  }

  ghost predicate AreU32s(b: Bytes, vs: seq<u32>) {
    4 * |vs| <= |b| && forall i :: 0 <= i < |vs| ==> vs[i] == Rd32(b, 4 * i)
  }

  lemma AreU32sMore(b: Bytes, vs: seq<u32>)
    requires |b| >= 4 && AreU32s(b[4..], vs)
    ensures AreU32s(b, [Rd32(b, 0)] + vs)
  {
    var c, all := b[4..], [Rd32(b, 0)] + vs;
    forall i | 0 <= i < |all|
      ensures all[i] == Rd32(b, 4 * i)
    {
      if i > 0 {
        assert all[i] == vs[i - 1] && Rd32(c, 4 * (i - 1)) == Rd32(b, 4 * i);
      }
    }
  }

  /** Each of them is read where it stands. */
  lemma {:induction false} TakeU32sAre(b: Bytes, n: nat)
    ensures AreU32s(b, TakeU32s(b, n).0)
    decreases n
  {
    if n > 0 && |b| >= 4 {
      TakeU32sFront(b, n);
      hide *;
      TakeU32sAre(b[4..], n - 1);
      AreU32sMore(b, TakeU32s(b[4..], n - 1).0);
    } else {
      TakeU32sNone(b, n);
    }
  }

  /** Entry by entry what is read, however few bytes there are. */
  lemma TakeU32sIs(b: Bytes, n: nat)
    ensures var (vs, rest) := TakeU32s(b, n);
            && |vs| == (if n <= |b| / 4 then n else |b| / 4) && rest == b[4 * |vs|..]
            && forall i :: 0 <= i < |vs| ==> vs[i] == Rd32(b, 4 * i)
  {
    hide TakeU32s;
    TakeU32sMany(b, n);
    TakeU32sAre(b, n);
  }

  lemma Rd32Behind(b: Bytes, at: nat, off: nat)
    requires at + off + 4 <= |b|
    ensures Rd32(b[at..], off) == Rd32(b, at + off)
  {
  }

  // ---------- C strings ----------

  /** A C string is kept without its terminator, so it holds no zero byte. */
  predicate NulFree(s: Bytes) { forall i :: 0 <= i < |s| ==> s[i] != 0 }

  /** Where the first zero byte is, or the length when there is none. */
  function FindNul(b: Bytes): (k: nat)
    ensures k <= |b|
  {
    if |b| == 0 || b[0] == 0 then 0 else 1 + FindNul(b[1..])
  }

  lemma {:induction false} FindNulIs(b: Bytes, k: nat)
    requires k <= |b| && NulFree(b[..k])
    requires k < |b| ==> b[k] == 0
    ensures FindNul(b) == k
  {
    if k > 0 {
      assert b[0] == b[..k][0];
      assert b[1..][..k - 1] == b[..k][1..];
      FindNulIs(b[1..], k - 1);
    }
  }

  lemma {:induction false} FindNulStops(b: Bytes)
    ensures NulFree(b[..FindNul(b)])
    ensures FindNul(b) < |b| ==> b[FindNul(b)] == 0
  {
    if |b| == 0 || b[0] == 0 {
    } else {
      FindNulStops(b[1..]);
      var k := FindNul(b[1..]);
      assert b[..k + 1] == [b[0]] + b[1..][..k];
    }
  }

  /** The string at the front and the bytes after its terminator. */
  function TakeCstr(b: Bytes): (r: Option<(Bytes, Bytes)>)
    ensures r.Some? ==> |r.value.0| + 1 + |r.value.1| == |b|
  {
    var k := FindNul(b);
    if k == |b| then None else Some((b[..k], b[k + 1..]))
  }

  lemma TakePutCstr(s: Bytes, rest: Bytes)
    requires NulFree(s)
    ensures TakeCstr(s + [0] + rest) == Some((s, rest))
  {
    var b := s + [0] + rest;
    assert b[..|s|] == s;
    FindNulIs(b, |s|);
    assert b[|s| + 1..] == rest;
  }

  /** A string is taken exactly when there is a terminator, and it ends before the first. */
  lemma TakeCstrIff(b: Bytes)
    ensures TakeCstr(b).None? <==> NulFree(b)
    ensures TakeCstr(b).Some? ==>
              var (s, rest) := TakeCstr(b).value;
              NulFree(s) && b == s + [0] + rest
  {
    FindNulStops(b);
    if NulFree(b) {
      FindNulIs(b, |b|);
    } else {
      assert b[..|b|] == b;
    }
  }

  /** What a bounded string copy leaves in a field of `size` bytes. */
  function Truncated(s: Bytes, size: nat): (r: Bytes)
    requires size > 0
    ensures |r| < size && r <= s
    ensures |s| < size ==> r == s
    ensures |s| >= size ==> |r| == size - 1
  {
    if |s| < size then s else s[..size - 1]
  }

  /** Array entries that were never written keep the value of a cleared struct. */
  function Padded<T>(vs: seq<T>, n: nat, zero: T): (r: seq<T>)
    requires |vs| <= n
    ensures |r| == n && vs <= r && forall i :: |vs| <= i < n ==> r[i] == zero
  {
    vs + seq(n - |vs|, _ => zero)
  }

  // ---------- frames ----------

  /** A typed message: type byte, 32-bit length counting itself and the body, body. */
  function Frame(tag: byte, body: Bytes): (r: Bytes)
    ensures |r| == 5 + |body|
  {
    [tag] + Wr32((|body| + 4) % TWO_TO_THE_32) + body
  }
}
