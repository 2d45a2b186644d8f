/**
 The hash stack under SCRAM: the streaming hash over a 64-byte block buffer,
 HMAC and PBKDF2. The block function is a parameter, so all that is proved
 here holds whatever the compression does.
 */
module Scram {
  import opened Wire
  import opened Buffers

  /** The eight chaining words. */
  type Words = s: seq<u32> | |s| == 8 witness [0, 0, 0, 0, 0, 0, 0, 0]
  type BlockFn = (Words, Bytes) -> Words

  const BLOCK: nat := 64
  const DIGEST: nat := 32
  const TWO_TO_THE_64: nat := 0x1_0000_0000_0000_0000

  const H0: Words := [0x6a09e667, 0xbb67ae85, 0x3c6ef372, 0xa54ff53a, 0x510e527f, 0x9b05688c, 0x1f83d9ab, 0x5be0cd19]

  // ---------- the one-shot definition ----------

  function Zeros(n: nat): (r: Bytes)
    ensures |r| == n
  {
    seq(n, _ => 0)
  }

  function Wr64(v: nat): (r: Bytes)
    requires v < TWO_TO_THE_64
    ensures |r| == 8
  {
    [v / 0x100_0000_0000_0000, v / 0x1_0000_0000_0000 % 0x100, v / 0x100_0000_0000 % 0x100,
     v / 0x1_0000_0000 % 0x100, v / 0x100_0000 % 0x100, v / 0x1_0000 % 0x100, v / 0x100 % 0x100, v % 0x100]
  }

  /** The chaining words after whole blocks, first to last. */
  function Blocks(f: BlockFn, blocks: Bytes): (r: Words)
    requires |blocks| % BLOCK == 0
  {
    if |blocks| == 0 then H0
    else f(Blocks(f, blocks[..|blocks| - BLOCK]), blocks[|blocks| - BLOCK..])
  }

  /** Zero bytes between the 0x80 and the length, as few as make whole blocks. */
  function PadZeros(n: nat): (r: nat) { (119 - n % BLOCK) % BLOCK }

  /** The bit length is kept in 64 bits. */
  function BitLength(n: nat): (r: nat)
    ensures r < TWO_TO_THE_64
  {
    (n * 8) % TWO_TO_THE_64
  }

  /** Section 5.1.1 of FIPS 180-4. */
  function Pad(m: Bytes): (r: Bytes)
    ensures |r| == |m| + 1 + PadZeros(|m|) + 8
  {
    m + ([0x80] + Zeros(PadZeros(|m|))) + Wr64(BitLength(|m|))
  }

  /** The padding is the shortest that ends a block. */
  lemma PaddingIsShortest(n: nat, k: nat)
    requires (n + 1 + k + 8) % BLOCK == 0
    ensures PadZeros(n) <= k
  {
  }

  lemma PaddedIsWhole(n: nat)
    ensures (n + 1 + PadZeros(n) + 8) % BLOCK == 0
  {
  }

  function Digest(h: Words): (r: Bytes)
    ensures |r| == DIGEST
  {
    seq(DIGEST, k requires 0 <= k < DIGEST => Wr32(h[k / 4])[k % 4])
  }

  function Sha256(f: BlockFn, m: Bytes): (r: Bytes)
    ensures |r| == DIGEST
  {
    PaddedIsWhole(|m|);
    Digest(Blocks(f, Pad(m)))
  }

  /** Both halves of the length are big-endian, the upper one first. */
  lemma Wr64IsBigEndian(v: nat)
    requires v < TWO_TO_THE_64
    ensures Rd32(Wr64(v), 0) == v / TWO_TO_THE_32 && Rd32(Wr64(v), 4) == v % TWO_TO_THE_32
  {
    var hi, lo := v / TWO_TO_THE_32, v % TWO_TO_THE_32;
    Base256(hi);
    Base256(lo);
    LowBytes(v);
  }

  lemma LowBytes(v: nat)
    ensures v / 0x100_0000 % 0x100 == v % TWO_TO_THE_32 / 0x100_0000
    ensures v / 0x1_0000 % 0x100 == v % TWO_TO_THE_32 / 0x1_0000 % 0x100
    ensures v / 0x100 % 0x100 == v % TWO_TO_THE_32 / 0x100 % 0x100
    ensures v % 0x100 == v % TWO_TO_THE_32 % 0x100
    ensures v / 0x100_0000_0000_0000 == v / TWO_TO_THE_32 / 0x100_0000
    ensures v / 0x1_0000_0000_0000 == v / TWO_TO_THE_32 / 0x1_0000
    ensures v / 0x100_0000_0000 == v / TWO_TO_THE_32 / 0x100
  {
    var hi, lo := v / TWO_TO_THE_32, v % TWO_TO_THE_32;
    assert v == TWO_TO_THE_32 * hi + lo;
    QuotientIs(v, 0x100_0000, 0x100 * hi + lo / 0x100_0000, lo % 0x100_0000);
    QuotientIs(v, 0x1_0000, 0x1_0000 * hi + lo / 0x1_0000, lo % 0x1_0000);
    QuotientIs(v, 0x100, 0x100_0000 * hi + lo / 0x100, lo % 0x100);
    QuotientIs(v, 0x100_0000_0000_0000, hi / 0x100_0000, hi % 0x100_0000 * TWO_TO_THE_32 + lo);
    QuotientIs(v, 0x1_0000_0000_0000, hi / 0x1_0000, hi % 0x1_0000 * TWO_TO_THE_32 + lo);
    QuotientIs(v, 0x100_0000_0000, hi / 0x100, hi % 0x100 * TWO_TO_THE_32 + lo);
    RestOf(lo / 0x100_0000, hi, 0x100);
    RestOf(lo / 0x1_0000, 0x100 * hi, 0x100);
    RestOf(lo / 0x100, 0x1_0000 * hi, 0x100);
    RestOf(lo, 0x100_0000 * hi, 0x100);
  }

  lemma RestOf(r: nat, q: nat, d: nat)
    requires d > 0
    ensures (d * q + r) % d == r % d
  {
    QuotientIs(d * q + r, d, q + r / d, r % d);
  }

  lemma QuotientIs(a: nat, d: nat, q: nat, r: nat)
    requires a == d * q + r && r < d
    ensures a / d == q
  {
    var e: int := a / d - q;
    assert d * e == r - a % d;
    assert e == 0 by {
      assert e >= 1 ==> d * e >= d;
      assert e <= -1 ==> d * e + d <= 0;
    }
  }

  /** The digest is the eight words, big-endian, first to last. */
  lemma DigestIsBigEndian(h: Words, i: nat)
    requires i < 8
    ensures Rd32(Digest(h), 4 * i) == h[i]
  {
    assert |Digest(h)| == 32;
    hide *;
    DigestBytes(h, i, 0);
    DigestBytes(h, i, 1);
    DigestBytes(h, i, 2);
    DigestBytes(h, i, 3);
    RdWr32(h[i], []);
    Neutral(Wr32(h[i]));
    SameWord(Digest(h), 4 * i, Wr32(h[i]));
  }

  lemma DigestBytes(h: Words, i: nat, k: nat)
    requires i < 8 && k < 4
    ensures Digest(h)[4 * i + k] == Wr32(h[i])[k]
  {
    hide Wr32;
    assert (4 * i + k) / 4 == i && (4 * i + k) % 4 == k;
  }

  lemma SameWord(d: Bytes, at: nat, w: Bytes)
    requires |w| == 4 && at + 4 <= |d|
    requires d[at] == w[0] && d[at + 1] == w[1] && d[at + 2] == w[2] && d[at + 3] == w[3]
    ensures Rd32(d, at) == Rd32(w, 0)
  {
  }

  /** Where each part of a padded message is, byte for byte. */
  lemma PadLayout(m: Bytes)
    ensures var p := Pad(m);
            && |p| % 64 == 0 && |m| + 9 <= |p| < |m| + 73
            && p[..|m|] == m && p[|m|] == 0x80
            && (forall i :: |m| < i < |p| - 8 ==> p[i] == 0)
            && Rd32(p, |p| - 8) == |m| * 8 % 0x1_0000_0000_0000_0000 / 0x1_0000_0000
            && Rd32(p, |p| - 4) == |m| * 8 % 0x1_0000_0000
  {
    PaddedIsWhole(|m|);
    PadParts(m);
    Wr64IsBigEndian(BitLength(|m|));
    Halves(|m| * 8);
    assert PadZeros(|m|) < 64;
    var p := Pad(m);
    hide *;
    Rd32Behind(p, |p| - 8, 0);
    Rd32Behind(p, |p| - 8, 4);
  }

  lemma PadParts(m: Bytes)
    ensures var p := Pad(m);
            && |p| == |m| + 1 + PadZeros(|m|) + 8
            && p[..|m|] == m && p[|m|] == 0x80
            && (forall i :: |m| < i < |p| - 8 ==> p[i] == 0)
            && p[|p| - 8..] == Wr64(BitLength(|m|))
  {
    hide Wr64, BitLength, PadZeros;
  }

  lemma Halves(b: nat)
    ensures b % TWO_TO_THE_64 % TWO_TO_THE_32 == b % TWO_TO_THE_32
  {
  }

  /** The initial chaining words, and that each block is compressed into the words before it. */
  lemma BlocksFromFront(f: BlockFn, b1: Bytes, b2: Bytes)
    requires |b1| == 64 && |b2| == 64
    ensures Blocks(f, []) == [0x6a09e667, 0xbb67ae85, 0x3c6ef372, 0xa54ff53a,
                              0x510e527f, 0x9b05688c, 0x1f83d9ab, 0x5be0cd19]
    ensures Blocks(f, b1 + b2) == f(f(Blocks(f, []), b1), b2)
  {
    Neutral(b1);
    BlocksSnoc(f, [], b1);
    BlocksSnoc(f, b1, b2);
  }

  /** Messages shorter than 2^61 bytes carry their exact bit length. */
  lemma LengthIsExactIff(n: nat)
    ensures BitLength(n) == n * 8 <==> n < 0x2000_0000_0000_0000
  {
  }

  // ---------- the streaming form ----------

  lemma BlocksSnoc(f: BlockFn, blocks: Bytes, block: Bytes)
    requires |blocks| % BLOCK == 0 && |block| == BLOCK
    ensures Blocks(f, blocks + block) == f(Blocks(f, blocks), block)
  {
    assert (blocks + block)[..|blocks|] == blocks;
    assert (blocks + block)[|blocks|..] == block;
  }

  class Hash {
    const f: BlockFn
    const data: array<byte>
    var datalen: nat
    var bitlen: nat
    var state: Words

    // Everything hashed so far, and its whole blocks.
    ghost var message: Bytes
    ghost var done: Bytes

    ghost predicate Valid()
      reads this, data
    {
      && data.Length == BLOCK && datalen < BLOCK
      && |done| % BLOCK == 0 && message == done + data[..datalen]
      && bitlen == BitLength(|done|)
      && state == Blocks(f, done)
    }

    constructor (f: BlockFn)
      ensures Valid() && message == [] && this.f == f && fresh(data)
    {
      this.f := f;
      data := new byte[BLOCK];
      datalen, bitlen := 0, 0;
      state := H0;
      message, done := [], [];
    }

    /** A block buffer that may have become full. */
    ghost predicate Filled()
      reads this, data
    {
      && data.Length == BLOCK && datalen <= BLOCK
      && |done| % BLOCK == 0 && message == done + data[..datalen]
      && bitlen == BitLength(|done|)
      && state == Blocks(f, done)
    }

    method Store(b: byte)
      requires Valid()
      modifies this`datalen, this`message, data
      ensures Filled() && message == old(message) + [b]
    {
      ghost var was := data[..datalen];
      data[datalen] := b;
      datalen := datalen + 1;
      assert data[..datalen] == was + [b];
      Assoc(done, was, [b]);
      message := message + [b];
    }

    method CompressBlock()
      requires Filled() && datalen == BLOCK
      modifies this`datalen, this`bitlen, this`state, this`done
      ensures Valid()
    {
      hide Blocks, BitLength;
      ghost var block := data[..BLOCK];
      NextBitLength(|done|);
      CompressPadded();
      bitlen := (bitlen + 512) % TWO_TO_THE_64;
      done := done + block;
      datalen := 0;
      Neutral(done);
    }

    method Update(src: array<byte>, len: nat)
      requires Valid() && len <= src.Length && src != data
      modifies this, data
      ensures Valid() && message == old(message) + src[..len]
    {
      for i := 0 to len
        invariant Valid() && message == old(message) + src[..i]
      {
        Assoc(old(message), src[..i], [src[i]]);
        assert src[..i] + [src[i]] == src[..i + 1];
        Store(src[i]);
        if datalen == BLOCK {
          CompressBlock();
        }
      }
    }

    /** 0x80 and zeros up to position `to` of the buffer. */
    method Mark(to: nat)
      requires datalen < to <= data.Length == BLOCK
      modifies data
      ensures data[..to] == old(data[..datalen]) + ([0x80] + Zeros(to - 1 - datalen))
    {
      ghost var rest := data[..datalen];
      data[datalen] := 0x80;
      assert data[..datalen + 1] == rest + [0x80];
      ZeroFill(datalen + 1, to);
      Assoc(rest, [0x80], Zeros(to - 1 - datalen));
    }

    /** Room for the length is left behind the 0x80 and zeros. */
    method PadInOneBlock()
      requires Valid() && datalen < 56
      modifies data
      ensures done + data[..56] == message + ([0x80] + Zeros(PadZeros(|message|)))
    {
      ghost var rest := data[..datalen];
      PadZerosOf(|done|, datalen);
      Mark(56);
      Assoc(done, rest, [0x80] + Zeros(55 - datalen));
    }

    /** No room for the length: the block is filled up and compressed, another one follows. */
    method PadInTwoBlocks() returns (ghost whole: Bytes)
      requires Valid() && datalen >= 56
      modifies data, this`state
      ensures |whole| % BLOCK == 0 && state == Blocks(f, whole)
      ensures whole + data[..56] == message + ([0x80] + Zeros(PadZeros(|message|)))
    {
      hide Blocks, PadZeros, Zeros;
      ghost var rest := data[..datalen];
      PadZerosOf(|done|, datalen);
      Mark(BLOCK);
      whole := done + data[..BLOCK];
      TwoBlocks(done, rest, 63 - datalen);
      CompressPadded();
      ClearFront();
    }

    method ClearFront()
      requires data.Length == BLOCK
      modifies data
      ensures data[..56] == Zeros(56)
    {
      ZeroFill(0, 56);
      Neutral(Zeros(56));
    }

    method CompressPadded()
      requires data.Length == BLOCK && |done| % BLOCK == 0 && state == Blocks(f, done)
      modifies this`state
      ensures state == Blocks(f, done + data[..BLOCK])
    {
      BlocksSnoc(f, done, data[..BLOCK]);
      assert data[..] == data[..BLOCK];
      state := f(state, data[..]);
    }

    method PadTail() returns (ghost whole: Bytes)
      requires Valid()
      modifies data, this`state
      ensures |whole| % BLOCK == 0 && state == Blocks(f, whole)
      ensures whole + data[..56] == message + ([0x80] + Zeros(PadZeros(|message|)))
    {
      if datalen < 56 {
        PadInOneBlock();
        whole := done;
      } else {
        whole := PadInTwoBlocks();
      }
    }

    method ZeroFill(from: nat, to: nat)
      requires from <= to <= data.Length
      modifies data
      ensures data[..to] == old(data[..from]) + Zeros(to - from)
    {
      for i := from to to
        invariant data[..i] == old(data[..from]) + Zeros(i - from)
      {
        data[i] := 0;
        assert Zeros(i + 1 - from) == Zeros(i - from) + [0];
        Assoc(old(data[..from]), Zeros(i - from), [0]);
        assert data[..i + 1] == data[..i] + [0];
      }
    }

    /** The length goes in from its last byte to its first. */
    method PutLength()
      requires data.Length == BLOCK && bitlen < TWO_TO_THE_64
      modifies data
      ensures data[..] == old(data[..56]) + Wr64(bitlen)
    {
      var w := Wr64(bitlen);
      data[63] := w[7];
      data[62] := w[6];
      data[61] := w[5];
      data[60] := w[4];
      data[59] := w[3];
      data[58] := w[2];
      data[57] := w[1];
      data[56] := w[0];
      assert data[56..] == w;
      assert data[..] == data[..56] + data[56..];
    }

    /** Byte `i` of every word, for `i` from first to last. */
    method PutDigest(hash: array<byte>)
      requires hash.Length >= DIGEST
      modifies hash
      ensures hash[..DIGEST] == Digest(state) && hash[DIGEST..] == old(hash[DIGEST..])
    {
      for i := 0 to 4
        invariant forall k :: 0 <= k < DIGEST && k % 4 < i ==> hash[k] == Wr32(state[k / 4])[k % 4]
        invariant hash[DIGEST..] == old(hash[DIGEST..])
      {
        forall k | 0 <= k < DIGEST && k % 4 == i {
          hash[k] := Wr32(state[k / 4])[k % 4];
        }
      }
    }

    /** The length goes behind the padding and the last block is compressed. */
    method CompressLast(ghost whole: Bytes)
      requires data.Length == BLOCK && bitlen == BitLength(|message|)
      requires |whole| % BLOCK == 0 && state == Blocks(f, whole)
      requires whole + data[..56] == message + ([0x80] + Zeros(PadZeros(|message|)))
      modifies data, this`state
      ensures |Pad(message)| % BLOCK == 0 && state == Blocks(f, Pad(message))
    {
      PaddedIsWhole(|message|);
      hide Blocks, BitLength, PadZeros, Zeros, Wr64;
      ghost var tail := data[..56];
      PutLength();
      ghost var block := data[..];
      Assoc(whole, tail, Wr64(bitlen));
      assert whole + block == Pad(message);
      BlocksSnoc(f, whole, block);
      state := f(state, data[..]);
    }

    method Final(hash: array<byte>)
      requires Valid() && hash.Length >= DIGEST && hash != data
      modifies this, data, hash
      ensures hash[..DIGEST] == Sha256(f, old(message))
      ensures hash[DIGEST..] == old(hash[DIGEST..])
    {
      LengthAdds(|done|, datalen);
      assert |message| == |done| + datalen && bitlen == BitLength(|done|);
      ShaIs(f, message);
      hide *;
      ghost var whole := PadTail();
      bitlen := (bitlen + datalen * 8) % TWO_TO_THE_64;
      CompressLast(whole);
      PutDigest(hash);
    }
  }

  lemma ShaIs(f: BlockFn, m: Bytes)
    ensures |Pad(m)| % BLOCK == 0 && Sha256(f, m) == Digest(Blocks(f, Pad(m)))
  {
    PaddedIsWhole(|m|);
  }

  lemma LengthAdds(n: nat, d: nat)
    ensures BitLength(n + d) == (BitLength(n) + d * 8) % TWO_TO_THE_64
    ensures BitLength(n + d) < TWO_TO_THE_64
  {
    AddedModulo(n * 8, d * 8);
  }

  lemma NextBitLength(n: nat)
    ensures BitLength(n + BLOCK) == (BitLength(n) + 512) % TWO_TO_THE_64
  {
    AddedModulo(n * 8, 512);
  }

  lemma AddedModulo(a: nat, b: nat)
    ensures (a % TWO_TO_THE_64 + b) % TWO_TO_THE_64 == (a + b) % TWO_TO_THE_64
  {
  }

  lemma PadZerosOf(whole: nat, d: nat)
    requires whole % BLOCK == 0 && d < BLOCK
    ensures PadZeros(whole + d) == if d < 56 then 55 - d else 119 - d
  {
    assert (whole + d) % BLOCK == d;
  }

  lemma TwoBlocks(done: Bytes, rest: Bytes, n: nat)
    ensures done + (rest + ([0x80] + Zeros(n))) + Zeros(56) == done + rest + ([0x80] + Zeros(n + 56))
  {
    assert Zeros(n) + Zeros(56) == Zeros(n + 56);
  }

  // ---------- HMAC ----------

  function Pow2(n: nat): (r: nat)
    ensures r > 0
  {
    if n == 0 then 1 else 2 * Pow2(n - 1)
  }

  /** The lowest `n` bits, one where the two differ. */
  function XorBits(a: nat, b: nat, n: nat): (r: nat)
    ensures r < Pow2(n)
  {
    if n == 0 then 0 else 2 * XorBits(a / 2, b / 2, n - 1) + if a % 2 == b % 2 then 0 else 1
  }

  function Xor(a: byte, b: byte): (r: byte) {
    assert Pow2(8) == 0x100;
    XorBits(a, b, 8)
  }

  lemma {:induction false} XorZeroBits(a: nat, n: nat)
    requires a < Pow2(n)
    ensures XorBits(a, 0, n) == a
    decreases n
  {
    if n > 0 {
      XorZeroBits(a / 2, n - 1);
    }
  }

  lemma XorZero(a: byte)
    ensures Xor(a, 0) == a
  {
    assert Pow2(8) == 0x100;
    XorZeroBits(a, 8);
  }

  /** What is added twice cancels out. */
  lemma {:induction false} XorBitsTwice(a: nat, b: nat, n: nat)
    requires a < Pow2(n)
    ensures XorBits(XorBits(a, b, n), b, n) == a
    decreases n
  {
    if n > 0 {
      XorBitsTwice(a / 2, b / 2, n - 1);
      assert XorBits(a, b, n) / 2 == XorBits(a / 2, b / 2, n - 1);
    }
  }

  lemma {:induction false} HalvesOf(a: nat, x: nat)
    requires x > 0
    ensures a / (2 * x) == a / 2 / x
  {
    var q, r := a / 2 / x, a / 2 % x;
    assert a / 2 == q * x + r;
    assert a == 2 * x * q + (2 * r + a % 2);
    QuotientIs(a, 2 * x, q, 2 * r + a % 2);
  }

  /** The bit of weight 2^j. */
  function Bit(x: nat, j: nat): (r: nat)
    ensures r < 2
  {
    x / Pow2(j) % 2
  }

  lemma BitOfHalf(x: nat, j: nat)
    ensures Bit(x, 0) == x % 2 && Bit(x, j + 1) == Bit(x / 2, j)
  {
    HalvesOf(x, Pow2(j));
  }

  lemma XorBitsSplit(a: nat, b: nat, n: nat)
    requires n > 0
    ensures XorBits(a, b, n) / 2 == XorBits(a / 2, b / 2, n - 1)
    ensures XorBits(a, b, n) % 2 == (a % 2 + b % 2) % 2
  {
  }

  /** Every bit of the result is the sum of the two bits without carry. */
  lemma {:induction false} XorBitsAdd(a: nat, b: nat, n: nat, j: nat)
    requires j < n
    ensures Bit(XorBits(a, b, n), j) == (Bit(a, j) + Bit(b, j)) % 2
    decreases j
  {
    hide *;
    XorBitsSplit(a, b, n);
    var i := if j == 0 then 0 else j - 1;
    BitOfHalf(XorBits(a, b, n), i);
    BitOfHalf(a, i);
    BitOfHalf(b, i);
    if j > 0 {
      XorBitsAdd(a / 2, b / 2, n - 1, i);
    }
  }

  /** Exclusive or of two bytes, each of the eight bits by its weight 1, 2, 4 to 128. */
  lemma XorIff(a: byte, b: byte, w: nat)
    requires w in {1, 2, 4, 8, 16, 32, 64, 128}
    ensures Xor(a, b) / w % 2 == 0 <==> a / w % 2 == b / w % 2
  {
    SmallPowers();
    var k := if w == 1 then 0 else if w == 2 then 1 else if w == 4 then 2 else if w == 8 then 3
             else if w == 16 then 4 else if w == 32 then 5 else if w == 64 then 6 else 7;
    assert Pow2(k) == w;
    hide XorBits, Xor, Pow2;
    BitOfXor(a, b, k);
  }

  lemma BitOfXor(a: byte, b: byte, j: nat)
    requires j < 8
    ensures Bit(Xor(a, b), j) == (Bit(a, j) + Bit(b, j)) % 2
  {
    XorIsBits(a, b);
    hide *;
    XorBitsAdd(a, b, 8, j);
  }

  lemma XorIsBits(a: byte, b: byte)
    ensures Xor(a, b) == XorBits(a, b, 8)
  {
    hide XorBits, Pow2;
  }

  lemma SmallPowers()
    ensures Pow2(0) == 1 && Pow2(1) == 2 && Pow2(2) == 4 && Pow2(3) == 8 && Pow2(4) == 16 && Pow2(5) == 32
    ensures Pow2(6) == 64 && Pow2(7) == 128
  {
  }

  lemma {:induction false} XorBitsCommute(a: nat, b: nat, n: nat)
    ensures XorBits(a, b, n) == XorBits(b, a, n)
    decreases n
  {
    if n > 0 {
      XorBitsCommute(a / 2, b / 2, n - 1);
    }
  }

  /** The same byte added to different bytes leaves them different. */
  lemma XorInjective(a: byte, b: byte, c: byte)
    requires Xor(c, a) == Xor(c, b)
    ensures a == b
  {
    assert Pow2(8) == 0x100;
    XorBitsCommute(c, a, 8);
    XorBitsCommute(c, b, 8);
    XorBitsTwice(a, c, 8);
    XorBitsTwice(b, c, 8);
  }

  const IPAD: byte := 0x36
  const OPAD: byte := 0x5c

  /** Keys longer than a block are hashed first; then zeros fill the block. */
  function BlockKey(f: BlockFn, key: Bytes): (r: Bytes)
    ensures |r| == BLOCK
  {
    var k := if |key| > BLOCK then Sha256(f, key) else key;
    k + Zeros(BLOCK - |k|)
  }

  function XorAll(a: Bytes, b: Bytes): (r: Bytes)
    requires |a| == |b|
    ensures |r| == |a|
  {
    seq(|a|, i requires 0 <= i < |a| => Xor(a[i], b[i]))
  }

  function Repeated(b: byte, n: nat): (r: Bytes)
    ensures |r| == n
  {
    seq(n, _ => b)
  }

  /** Section 2 of RFC 2104. */
  function Hmac(f: BlockFn, key: Bytes, text: Bytes): (r: Bytes)
    ensures |r| == DIGEST
  {
    var k := BlockKey(f, key);
    Sha256(f, XorAll(Repeated(OPAD, BLOCK), k) + Sha256(f, XorAll(Repeated(IPAD, BLOCK), k) + text))
  }

  /** A short key is itself with zeros behind it, a long one its hash with zeros behind it. */
  lemma BlockKeyIs(f: BlockFn, key: Bytes)
    ensures |key| <= 64 ==> BlockKey(f, key) == key + seq(64 - |key|, _ => 0)
    ensures |key| > 64 ==> BlockKey(f, key) == Sha256(f, key) + seq(32, _ => 0)
  {
  }

  /** Different keys of one length up to a block, and all whose block keys differ, give different pads. */
  lemma PadsDiffer(f: BlockFn, pad: byte, key: Bytes, key': Bytes)
    requires BlockKey(f, key) != BlockKey(f, key') || (|key| == |key'| <= 64 && key != key')
    ensures XorAll(Repeated(pad, 64), BlockKey(f, key)) != XorAll(Repeated(pad, 64), BlockKey(f, key'))
  {
    var k, k' := BlockKey(f, key), BlockKey(f, key');
    if XorAll(Repeated(pad, 64), k) == XorAll(Repeated(pad, 64), k') {
      PadInjective(pad, k, k');
      if |key| == |key'| <= 64 {
        BlockKeyInjective(f, key, key');
      }
    }
  }

  lemma PadInjective(pad: byte, k: Bytes, k': Bytes)
    requires |k| == |k'| == 64 && XorAll(Repeated(pad, 64), k) == XorAll(Repeated(pad, 64), k')
    ensures k == k'
  {
    forall i | 0 <= i < 64
      ensures k[i] == k'[i]
    {
      assert Xor(pad, k[i]) == XorAll(Repeated(pad, 64), k)[i];
      assert Xor(pad, k'[i]) == XorAll(Repeated(pad, 64), k')[i];
      XorInjective(k[i], k'[i], pad);
    }
  }

  lemma BlockKeyInjective(f: BlockFn, key: Bytes, key': Bytes)
    requires |key| == |key'| <= 64 && BlockKey(f, key) == BlockKey(f, key')
    ensures key == key'
  {
    assert BlockKey(f, key)[..|key|] == key && BlockKey(f, key')[..|key|] == key';
  }

  /** The bytes of both pads, and the nesting, without a key to hide them. */
  lemma EmptyKeyHmac(f: BlockFn, text: Bytes)
    ensures Hmac(f, [], text) == Sha256(f, seq(64, _ => 0x5c) + Sha256(f, seq(64, _ => 0x36) + text))
  {
    XorZero(0x36);
    XorZero(0x5c);
    var k := BlockKey(f, []);
    assert XorAll(Repeated(IPAD, BLOCK), k) == seq(64, _ => 0x36);
    assert XorAll(Repeated(OPAD, BLOCK), k) == seq(64, _ => 0x5c);
  }

  /** The pad with the key bytes added, the rest of the block left alone. */
  method KeyedPad(pad: byte, key: array<byte>, keyLen: nat) returns (r: array<byte>)
    requires keyLen <= BLOCK && keyLen <= key.Length
    ensures fresh(r) && r.Length == BLOCK
    ensures r[..] == XorAll(Repeated(pad, BLOCK), key[..keyLen] + Zeros(BLOCK - keyLen))
  {
    r := new byte[BLOCK](_ => pad);
    for i := 0 to keyLen
      invariant forall j :: 0 <= j < i ==> r[j] == Xor(pad, key[j])
      invariant forall j :: i <= j < BLOCK ==> r[j] == pad
    {
      r[i] := Xor(r[i], key[i]);
    }
    XorZero(pad);
    ghost var k := key[..keyLen] + Zeros(BLOCK - keyLen);
    forall j | 0 <= j < BLOCK
      ensures r[j] == Xor(Repeated(pad, BLOCK)[j], k[j])
    {
    }
  }

  /** One hash over a pad and the text behind it. */
  method HashBehind(f: BlockFn, pad: array<byte>, text: array<byte>, textLen: nat, out: array<byte>)
    requires pad.Length == BLOCK && textLen <= text.Length && out.Length >= DIGEST
    modifies out
    ensures out[..DIGEST] == Sha256(f, old(pad[..]) + old(text[..textLen]))
    ensures out[DIGEST..] == old(out[DIGEST..])
  {
    var h := new Hash(f);
    h.Update(pad, BLOCK);
    Neutral(pad[..BLOCK]);
    assert pad[..BLOCK] == pad[..];
    h.Update(text, textLen);
    h.Final(out);
  }

  /** The output array may be the one that holds the text. */
  method HmacSha256(f: BlockFn, key: array<byte>, keyLen: nat, text: array<byte>, textLen: nat, out: array<byte>)
    requires keyLen <= key.Length && textLen <= text.Length && out.Length >= DIGEST
    modifies out
    ensures out[..DIGEST] == Hmac(f, old(key[..keyLen]), old(text[..textLen]))
    ensures out[DIGEST..] == old(out[DIGEST..])
  {
    ghost var k := key[..keyLen];
    var key', len := key, keyLen;
    if keyLen > BLOCK {
      key' := new byte[DIGEST];
      len := DIGEST;
      var h := new Hash(f);
      h.Update(key, keyLen);
      Neutral(k);
      h.Final(key');
    }
    assert key'[..len] + Zeros(BLOCK - len) == BlockKey(f, k);
    var ipad := KeyedPad(IPAD, key', len);
    var opad := KeyedPad(OPAD, key', len);
    HashBehind(f, ipad, text, textLen, out);
    HashBehind(f, opad, out, DIGEST, out);
  }

  // ---------- PBKDF2 ----------

  const FIRST_BLOCK: Bytes := [0, 0, 0, 1]

  /** U_1, U_2, ... of section 5.2 of RFC 8018, for the first block. */
  function U(f: BlockFn, password: Bytes, salt: Bytes, j: nat): (r: Bytes)
    requires j >= 1
    ensures |r| == DIGEST
  {
    if j == 1 then Hmac(f, password, salt + FIRST_BLOCK)
    else Hmac(f, password, U(f, password, salt, j - 1))
  }

  /** U_1 xor ... xor U_c. */
  function T(f: BlockFn, password: Bytes, salt: Bytes, c: nat): (r: Bytes)
    requires c >= 1
    ensures |r| == DIGEST
  {
    if c == 1 then U(f, password, salt, 1)
    else XorAll(T(f, password, salt, c - 1), U(f, password, salt, c))
  }

  /** How many of U_1 to U_c have bit `j` of byte `k`. */
  function BitCount(f: BlockFn, password: Bytes, salt: Bytes, c: nat, k: nat, j: nat): (r: nat)
    requires c >= 1 && k < 32
  {
    (if c == 1 then 0 else BitCount(f, password, salt, c - 1, k, j)) + Bit(U(f, password, salt, c)[k], j)
  }

  /** Every bit of the sum is the parity of that bit over all iterations. */
  lemma {:induction false} SumIsParity(f: BlockFn, password: Bytes, salt: Bytes, c: nat, k: nat, j: nat)
    requires c >= 1 && k < 32 && j < 8
    ensures Bit(T(f, password, salt, c)[k], j) == BitCount(f, password, salt, c, k, j) % 2
    decreases c
  {
    hide Bit, U, Xor;
    if c > 1 {
      SumIsParity(f, password, salt, c - 1, k, j);
      BitOfXor(T(f, password, salt, c - 1)[k], U(f, password, salt, c)[k], j);
    }
  }

  /** The first two iterations: the block index is big-endian one, each U is the MAC of the one before. */
  lemma FirstIterations(f: BlockFn, password: Bytes, salt: Bytes)
    ensures U(f, password, salt, 1) == Hmac(f, password, salt + [0, 0, 0, 1])
    ensures U(f, password, salt, 2) == Hmac(f, password, U(f, password, salt, 1))
  {
  }

  /** Adds `u` into `t` byte by byte. */
  method XorInto(t: array<byte>, u: array<byte>)
    requires t.Length == DIGEST && u.Length == DIGEST && t != u
    modifies t
    ensures t[..] == XorAll(old(t[..]), u[..])
  {
    for j := 0 to DIGEST
      invariant forall k :: 0 <= k < j ==> t[k] == Xor(old(t[k]), u[k])
      invariant forall k :: j <= k < DIGEST ==> t[k] == old(t[k])
    {
      t[j] := Xor(t[j], u[j]);
    }
  }

  const SALT_BUFFER: nat := 64

  /** Where the block index that goes behind the salt ends. */
  function SaltEnd(salt: Bytes): (r: nat) { |salt| + |FIRST_BLOCK| }

  predicate SaltFits(salt: Bytes) { SaltEnd(salt) <= SALT_BUFFER }

  const COMMA: byte := 44
  const SCANNED_SALT: nat := 63

  /** Where the first comma is, or the length when there is none. */
  function CommaAt(field: Bytes): (k: nat)
    ensures k <= |field|
  {
    if field == [] || field[0] == COMMA then 0 else 1 + CommaAt(field[1..])
  }

  /** A field of the server's message: at most `n` bytes, up to a comma. */
  function Scanned(field: Bytes, n: nat): (r: Bytes)
    ensures |r| <= n && r <= field
  {
    if CommaAt(field) < n then field[..CommaAt(field)] else field[..n]
  }

  lemma {:induction false} CommaAtStops(field: Bytes)
    ensures forall i :: 0 <= i < CommaAt(field) ==> field[i] != COMMA
    ensures CommaAt(field) < |field| ==> field[CommaAt(field)] == COMMA
  {
    if field == [] || field[0] == COMMA {
    } else {
      CommaAtStops(field[1..]);
      forall i | 0 <= i < CommaAt(field)
        ensures field[i] != COMMA
      {
        assert i > 0 ==> field[i] == field[1..][i - 1];
      }
    }
  }

  lemma ScannedReaches(field: Bytes, n: nat, k: nat)
    requires k < n
    ensures |Scanned(field, n)| > k <==> |field| > k && COMMA !in field[..k + 1]
  {
    CommaAtStops(field);
    hide CommaAt;
    var c := CommaAt(field);
    if c <= k && k < |field| {
      assert field[..k + 1][c] == COMMA;
    }
  }

  /** The longest fields that are scanned do not leave room for the index behind them. */
  lemma ScannedSaltFitsIff(field: Bytes)
    ensures SaltFits(Scanned(field, SCANNED_SALT)) <==> |field| <= 60 || COMMA in field[..61]
  {
    assert |FIRST_BLOCK| == 4;
    ScannedReaches(field, SCANNED_SALT, 60);
  }

  /** 61 bytes of salt lead one byte past the buffer. */
  lemma LongSaltOverruns(field: Bytes)
    requires |field| == 61 && COMMA !in field
    ensures SaltEnd(Scanned(field, SCANNED_SALT)) == SALT_BUFFER + 1 && !SaltFits(Scanned(field, SCANNED_SALT))
  {
    ScannedReaches(field, SCANNED_SALT, 60);
    assert |FIRST_BLOCK| == 4;
  }

  /** The salt with the index of the first block behind it. */
  method SaltBuffer(salt: Bytes) returns (buf: array<byte>)
    requires SaltFits(salt)
    ensures fresh(buf) && buf.Length == SALT_BUFFER && buf[..|salt| + 4] == salt + FIRST_BLOCK
  {
    buf := new byte[SALT_BUFFER];
    MemCpy(buf, 0, salt);
    assert buf[..|salt|] == salt;
    MemCpy(buf, |salt|, FIRST_BLOCK);
  }

  /** U_1, into both arrays. */
  method FirstBlock(f: BlockFn, password: array<byte>, salt: Bytes, u: array<byte>, t: array<byte>)
    requires SaltFits(salt) && u.Length == DIGEST && t.Length == DIGEST
    requires password != u && password != t && u != t
    modifies u, t
    ensures u[..] == t[..] == U(f, password[..], salt, 1)
  {
    var saltBuf := SaltBuffer(salt);
    WholeHmac(f, password, saltBuf, |salt| + 4, t);
    MemCpy(u, 0, t[..]);
    assert u[..] == u[..DIGEST] == t[..];
  }

  method WholeHmac(f: BlockFn, password: array<byte>, text: array<byte>, textLen: nat, out: array<byte>)
    requires textLen <= text.Length && out.Length == DIGEST && out != password
    modifies out
    ensures out[..] == Hmac(f, password[..], old(text[..textLen]))
  {
    assert password[..password.Length] == password[..];
    HmacSha256(f, password, password.Length, text, textLen, out);
    assert out[..] == out[..DIGEST];
  }

  /** The next U, in place, and the sum with it. */
  method NextBlock(f: BlockFn, password: array<byte>, u: array<byte>, t: array<byte>)
    requires u.Length == DIGEST && t.Length == DIGEST && password != u && password != t && u != t
    modifies u, t
    ensures u[..] == Hmac(f, password[..], old(u[..]))
    ensures t[..] == XorAll(old(t[..]), u[..])
  {
    assert u[..DIGEST] == u[..];
    WholeHmac(f, password, u, DIGEST, u);
    XorInto(t, u);
  }

  lemma NextSum(f: BlockFn, password: Bytes, salt: Bytes, i: nat)
    requires i >= 1
    ensures U(f, password, salt, i + 1) == Hmac(f, password, U(f, password, salt, i))
    ensures T(f, password, salt, i + 1) == XorAll(T(f, password, salt, i), U(f, password, salt, i + 1))
  {
  }

  /** One more iteration on the arrays that hold U_i and the sum so far. */
  method Iterate(f: BlockFn, password: array<byte>, ghost salt: Bytes, ghost i: nat, u: array<byte>, t: array<byte>)
    requires u.Length == DIGEST && t.Length == DIGEST && password != u && password != t && u != t && i >= 1
    requires u[..] == U(f, password[..], salt, i) && t[..] == T(f, password[..], salt, i)
    modifies u, t
    ensures u[..] == U(f, password[..], salt, i + 1) && t[..] == T(f, password[..], salt, i + 1)
  {
    NextSum(f, password[..], salt, i);
    NextBlock(f, password, u, t);
  }

  method IterateTo(f: BlockFn, password: array<byte>, ghost salt: Bytes, iterations: nat, u: array<byte>, t: array<byte>)
    requires u.Length == DIGEST && t.Length == DIGEST && password != u && password != t && u != t
    requires u[..] == U(f, password[..], salt, 1) && t[..] == T(f, password[..], salt, 1)
    modifies u, t
    ensures t[..] == T(f, password[..], salt, if iterations == 0 then 1 else iterations)
  {
    hide *;
    var i := 1;
    while i < iterations
      invariant 1 <= i && (i == 1 || i <= iterations)
      invariant u[..] == U(f, password[..], salt, i)
      invariant t[..] == T(f, password[..], salt, i)
    {
      Iterate(f, password, salt, i, u, t);
      i := i + 1;
    }
  }

  /** The sum of all U up to the last iteration; no iteration counts as one. */
  method SumBlocks(f: BlockFn, password: array<byte>, salt: Bytes, iterations: nat) returns (t: array<byte>)
    requires SaltFits(salt)
    ensures fresh(t) && t.Length == DIGEST
    ensures t[..] == T(f, password[..], salt, if iterations == 0 then 1 else iterations)
  {
    var u := new byte[DIGEST];
    t := new byte[DIGEST];
    FirstBlock(f, password, salt, u, t);
    IterateTo(f, password, salt, iterations, u, t);
  }

  /** At most one block of output is written. */
  method Pbkdf2Sha256(f: BlockFn, password: array<byte>, salt: Bytes, iterations: nat,
                      out: array<byte>, outLen: nat)
    requires SaltFits(salt) && outLen <= out.Length
    modifies out
    ensures var c := if iterations == 0 then 1 else iterations;
            var n := if outLen > DIGEST then DIGEST else outLen;
            out[..n] == T(f, old(password[..]), salt, c)[..n] && out[n..] == old(out[n..])
  {
    var t := SumBlocks(f, password, salt, iterations);
    var n := if outLen > DIGEST then DIGEST else outLen;
    MemCpy(out, 0, t[..n]);
    assert out[..n] == t[..n];
  }
}
