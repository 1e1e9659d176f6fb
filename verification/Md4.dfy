/** The blocks that the old protocols' MD4 compresses (checksum/md4.rs). The compression itself is a parameter. */
module Md4 {
  import opened Bytes

  datatype Chain = Chain(a: u32, b: u32, c: u32, d: u32)

  const INITIAL := Chain(0x67452301, 0xefcdab89, 0x98badcfe, 0x10325476)

  type Compress = (Chain, seq<byte>) -> Chain

  /** Compress data block by block. */
  function Absorb(compress: Compress, chain: Chain, data: seq<byte>): Chain
    requires |data| % 64 == 0
    decreases |data|
  {
    if data == [] then chain else Absorb(compress, compress(chain, data[..64]), data[64..])
  }

  lemma {:induction false} AbsorbAppend(compress: Compress, chain: Chain, a: seq<byte>, b: seq<byte>)
    requires |a| % 64 == 0 && |b| % 64 == 0
    ensures (|a| + |b|) % 64 == 0
    ensures Absorb(compress, chain, a + b) == Absorb(compress, Absorb(compress, chain, a), b)
    decreases |a|
  {
    if a == [] {
      assert a + b == b;
    } else {
      assert |a| >= 64;
      assert (a + b)[..64] == a[..64] && (a + b)[64..] == a[64..] + b;
      AbsorbAppend(compress, compress(chain, a[..64]), a[64..], b);
    }
  }

  function Digest(chain: Chain): seq<byte> {
    LeBytes(chain.a, 4) + LeBytes(chain.b, 4) + LeBytes(chain.c, 4) + LeBytes(chain.d, 4)
  }

  function Zeros(n: nat): (z: seq<byte>)
    ensures |z| == n
  {
    seq(n, i => 0)
  }

  /** The number of zero bytes after the first padding byte. */
  function Gap(n: nat): (k: nat)
    ensures k < 64 && (n + 1 + k) % 64 == 56
  {
    (119 - n % 64) % 64
  }

  /** The digest of the state that nothing has gone into: the bytes 01 23 45 67 89 ab cd ef and back, lowest byte of
      each word first. */
  lemma InitialDigest(compress: Compress)
    ensures Digest(Absorb(compress, INITIAL, []))
            == [0x01, 0x23, 0x45, 0x67, 0x89, 0xab, 0xcd, 0xef, 0xfe, 0xdc, 0xba, 0x98, 0x76, 0x54, 0x32, 0x10]
  {
    WordBytes(0x67452301);
    WordBytes(0xefcdab89);
    WordBytes(0x98badcfe);
    WordBytes(0x10325476);
    hide LeBytes;
  }

  lemma WordBytes(u: u32)
    ensures LeBytes(u, 4) == [u % 0x100, u / 0x100 % 0x100, u / 0x100 / 0x100 % 0x100, u / 0x100 / 0x100 / 0x100]
  {
    assert LeBytes(u / 0x100 / 0x100, 2) == [u / 0x100 / 0x100 % 0x100] + LeBytes(u / 0x100 / 0x100 / 0x100, 1);
    assert LeBytes(u / 0x100 / 0x100 / 0x100, 1) == [u / 0x100 / 0x100 / 0x100 % 0x100];
  }

  /** One block is compressed once. */
  lemma AbsorbOne(compress: Compress, chain: Chain, block: seq<byte>)
    requires |block| == 64
    ensures Absorb(compress, chain, block) == compress(chain, block)
  {
    assert block[..64] == block && block[64..] == [];
  }

  const TWO32 := 0x1_0000_0000

  /** Padding as in sections 3.1 and 3.2 of RFC 1320: a one bit, zeros, and the bit count as two words, low word first;
      without `full` the high word is zero. `n` is the length of the whole message. */
  function Padding(n: nat, full: bool): seq<byte> {
    [0x80] + Zeros(Gap(n)) + LeBytes(8 * n % TWO32, 4) + LeBytes(if full then 8 * n / TWO32 % TWO32 else 0, 4)
  }

  lemma PaddingLength(n: nat, full: bool)
    ensures |Padding(n, full)| == Gap(n) + 9 && (n + |Padding(n, full)|) % 64 == 0
  {
    hide LeBytes, Gap, Zeros;
    PartsLength(Gap(n), 8 * n % TWO32, if full then 8 * n / TWO32 % TWO32 else 0);
    EightMore(n + 1 + Gap(n));
  }

  lemma PartsLength(k: nat, low: nat, high: nat)
    ensures |[0x80] + Zeros(k) + LeBytes(low, 4) + LeBytes(high, 4)| == k + 9
  {
    hide LeBytes, Zeros;
  }

  lemma EightMore(x: nat)
    requires x % 64 == 56
    ensures (x + 8) % 64 == 0
  {
    assert x + 8 == 64 * (x / 64 + 1);
  }

  /** The full padding carries the bit count as one 64-bit number. */
  lemma FullPadding(n: nat)
    ensures Padding(n, true) == [0x80] + Zeros(Gap(n)) + LeBytes(8 * n % (TWO32 * TWO32), 8)
  {
    hide Zeros, Gap, LeBytes;
    SplitWords(8 * n);
    var m := 8 * n % (TWO32 * TWO32);
    SplitLe(m, m / TWO32, m % TWO32, 4, 4);
    Pow256Values();
  }

  lemma SplitWords(x: nat)
    ensures x % (TWO32 * TWO32) % TWO32 == x % TWO32
    ensures x % (TWO32 * TWO32) / TWO32 == x / TWO32 % TWO32
  {
  }

  /** The low and the high part of a number are written one after the other. */
  lemma {:induction false} SplitLe(m: nat, high: nat, low: nat, a: nat, b: nat)
    requires low < Pow256(a) && m == high * Pow256(a) + low
    ensures LeBytes(m, a + b) == LeBytes(low, a) + LeBytes(high, b)
  {
    if a > 0 {
      SplitStep(m, high, low, Pow256(a - 1));
      SplitLe(m / 256, high, low / 256, a - 1, b);
    }
  }

  lemma SplitStep(m: nat, high: nat, low: nat, p: nat)
    requires m == high * (256 * p) + low
    ensures m / 256 == high * p + low / 256 && m % 256 == low % 256
  {
    var q := high * p;
    assert high * (256 * p) == 256 * q;
    SplitByte(q, low);
  }

  lemma SplitByte(q: nat, low: nat)
    ensures (256 * q + low) / 256 == q + low / 256 && (256 * q + low) % 256 == low % 256
  {
  }

  // ---- the digest ----

  /** The bit counter: two words that count modulo 2^64. */
  predicate Counts(low: u32, high: u32, bytes: nat) { high * TWO32 + low == 8 * bytes % (TWO32 * TWO32) }

  /** Adding the bits of a few more bytes, with the carry into the high word. */
  lemma CountMore(low: u32, high: u32, bytes: nat, more: nat)
    requires Counts(low, high, bytes) && more <= 64
    ensures var n := (low + 8 * more) % TWO32;
            Counts(n, if n < 8 * more then (high + 1) % TWO32 else high, bytes + more)
  {
    var k := 8 * bytes / (TWO32 * TWO32);
    var r := high * TWO32 + low + 8 * more;
    CountWords(low, high, 8 * more);
    if r < TWO32 * TWO32 {
      Residue(8 * (bytes + more), k, r);
    } else {
      Residue(8 * (bytes + more), k + 1, r - TWO32 * TWO32);
    }
  }

  lemma Residue(x: nat, k: nat, r: nat)
    requires x == k * (TWO32 * TWO32) + r && r < TWO32 * TWO32
    ensures x % (TWO32 * TWO32) == r
  {
  }

  lemma CountWords(low: u32, high: u32, bits: nat)
    requires bits < TWO32
    ensures var n, r := (low + bits) % TWO32, high * TWO32 + low + bits;
            (if n < bits then (high + 1) % TWO32 else high) * TWO32 + n
            == if r < TWO32 * TWO32 then r else r - TWO32 * TWO32
  {
    if low + bits < TWO32 {
      assert (low + bits) % TWO32 == low + bits;
    } else {
      assert (low + bits) % TWO32 == low + bits - TWO32;
    }
  }

  class Md4State {
    const compress: Compress
    var chain: Chain
    var totalN: u32
    var totalN2: u32
    ghost var done: seq<byte>  // all bytes compressed so far

    ghost predicate Valid()
      reads this
    {
      |done| % 64 == 0 && chain == Absorb(compress, INITIAL, done)
    }

    constructor (compress: Compress)
      ensures Valid() && done == [] && this.compress == compress && Counts(totalN, totalN2, 0)
    {
      this.compress := compress;
      chain, totalN, totalN2, done := INITIAL, 0, 0, [];
    }

    method CompressBlock(block: seq<byte>)
      requires Valid() && |block| == 64
      modifies `chain, `done
      ensures Valid() && done == old(done) + block
    {
      AbsorbAppend(compress, INITIAL, done, block);
      assert block[..64] == block && block[64..] == [];
      chain := compress(chain, block);
      done := done + block;
    }

    method UpdateBlock(block: seq<byte>)
      requires Valid() && |block| == 64 && Counts(totalN, totalN2, |done|)
      modifies this
      ensures Valid() && done == old(done) + block && Counts(totalN, totalN2, |done|)
    {
      hide Counts, Absorb;
      CompressBlock(block);
      CountMore(totalN, totalN2, |old(done)|, 64);
      var newN := (totalN + 512) % TWO32;
      if newN < 512 {
        totalN2 := (totalN2 + 1) % TWO32;
      }
      totalN := newN;
    }

    /** Pad what is left of the message, compress it, and give the digest. */
    method FinalizeTail(remaining: seq<byte>, use64BitCount: bool) returns (digest: seq<byte>)
      requires Valid() && |remaining| < 64 && Counts(totalN, totalN2, |done|)
      modifies this
      ensures Valid() && digest == Digest(chain)
      ensures done == old(done) + (remaining + Padding(|old(done)| + |remaining|, use64BitCount))
      ensures Counts(totalN, totalN2, |old(done)| + |remaining|)
    {
      hide Counts, Absorb, Padding, Digest;
      var length := |remaining|;
      CountTail(length);
      ghost var n := |done| + length;
      var low, high := LeBytes(totalN, 4), LeBytes(if use64BitCount then totalN2 else 0, 4);
      TailIsPadded(remaining, |done|, totalN, totalN2, use64BitCount);
      ghost var before := done;
      var buf := BuildTail(remaining, low + high);
      CompressBlock(buf[..64]);
      if length > 55 {
        CompressBlock(buf[64..]);
        assert done == before + (buf[..64] + buf[64..]);
      }
      digest := Digest(chain);
    }

    /** Add the bits of the last bytes to the counter. */
    method CountTail(length: nat)
      requires length < 64 && Counts(totalN, totalN2, |done|)
      modifies `totalN, `totalN2
      ensures Counts(totalN, totalN2, |done| + length)
    {
      hide Counts;
      CountMore(totalN, totalN2, |done|, length);
      var bits := length * 8;
      var newN := (totalN + bits) % TWO32;
      if newN < bits {
        totalN2 := (totalN2 + 1) % TWO32;
      }
      totalN := newN;
      totalN2 := (totalN2 + length / 0x2000_0000) % TWO32;
    }
  }

  /** Copy a sequence into a buffer. */
  method Copy(buf: array<byte>, at: nat, s: seq<byte>)
    requires at + |s| <= buf.Length
    modifies buf
    ensures forall k :: 0 <= k < buf.Length ==> buf[k] == if at <= k < at + |s| then s[k - at] else old(buf[k])
  {
    for i := 0 to |s|
      invariant forall k :: 0 <= k < buf.Length ==> buf[k] == if at <= k < at + i then s[k - at] else old(buf[k])
    {
      buf[at + i] := s[i];
    }
  }

  /** The last block, or the last two: the rest of the message, the one bit, zeros, the count. */
  method BuildTail(remaining: seq<byte>, count: seq<byte>) returns (buf: array<byte>)
    requires |remaining| < 64 && |count| == 8
    ensures fresh(buf) && buf.Length == 128
    ensures |remaining| <= 55 ==> buf[..64] == remaining + ([0x80] + Zeros(55 - |remaining|) + count)
    ensures |remaining| > 55 ==> buf[..64] + buf[64..] == remaining + ([0x80] + Zeros(119 - |remaining|) + count)
  {
    buf := new byte[128](_ => 0);
    Copy(buf, 0, remaining);
    buf[|remaining|] := 0x80;
    Copy(buf, if |remaining| <= 55 then 56 else 120, count);
    assert buf[..64] + buf[64..] == buf[..];
  }

  /** The two words of the counter are those of the padding. */
  lemma TailIsPadded(remaining: seq<byte>, before: nat, low: u32, high: u32, full: bool)
    requires before % 64 == 0 && |remaining| < 64 && Counts(low, high, before + |remaining|)
    ensures var n, len := before + |remaining|, |remaining|;
            Padding(n, full) == [0x80] + Zeros(if len <= 55 then 55 - len else 119 - len)
                                + (LeBytes(low, 4) + LeBytes(if full then high else 0, 4))
  {
    hide LeBytes, Zeros, Gap;
    var n := before + |remaining|;
    GapOf(before, |remaining|);
    SplitWords(8 * n);
    Words(low, high);
    var k := Gap(n);
    assert Padding(n, full) == [0x80] + Zeros(k) + LeBytes(low, 4) + LeBytes(if full then high else 0, 4);
  }

  lemma GapOf(before: nat, len: nat)
    requires before % 64 == 0 && len < 64
    ensures Gap(before + len) == if len <= 55 then 55 - len else 119 - len
  {
    assert (before + len) % 64 == len;
  }

  lemma Words(low: u32, high: u32)
    ensures (high * TWO32 + low) % TWO32 == low && (high * TWO32 + low) / TWO32 == high
  {
  }

  /** The message as it is compressed: padded with a 32-bit count, but left bare when it fills its last block. */
  function ClassicBlocks(data: seq<byte>): (r: seq<byte>)
    ensures |r| % 64 == 0
  {
    if |data| % 64 == 0 then data
    else
      PaddingLength(|data|, false);
      data + Padding(|data|, false)
  }

  /** The old digest is that of RFC 1320 exactly for messages that leave their last block unfilled and whose bit count
      has no high word: below 2^29 bytes, or in the first 2^29 bytes after a multiple of 2^61. */
  lemma ClassicIsStandard(data: seq<byte>)
    ensures ClassicBlocks(data) == data + Padding(|data|, true) <==> |data| % 64 != 0 && 8 * |data| / TWO32 % TWO32 == 0
  {
    hide LeBytes, LeValue, Zeros, Gap, Pow256;
    var n := |data|;
    var high := 8 * n / TWO32 % TWO32;
    PaddingLength(n, true);
    Pow256Values();
    LeValueOfBytes(0, 4);
    LeValueOfBytes(high, 4);
    if n % 64 != 0 {
      var p, q := Padding(n, false), Padding(n, true);
      PaddingLength(n, false);
      assert p[|p| - 4..] == LeBytes(0, 4) && q[|q| - 4..] == LeBytes(high, 4);
      assert (data + p)[n..] == p && (data + q)[n..] == q;
    }
  }

  method Md4Classic(compress: Compress, data: seq<byte>) returns (digest: seq<byte>)
    ensures |data| % 64 == 0 ==> digest == Digest(Absorb(compress, INITIAL, data))
    ensures |data| % 64 != 0 ==>
              && |data + Padding(|data|, false)| % 64 == 0
              && digest == Digest(Absorb(compress, INITIAL, data + Padding(|data|, false)))
    ensures digest == Digest(Absorb(compress, INITIAL, ClassicBlocks(data)))
  {
    hide Absorb, Counts, Digest, Padding;
    var len := |data|;
    var state := new Md4State(compress);
    var i := 0;
    while i + 64 <= len
      invariant i <= len && fresh(state) && state.compress == compress
      invariant state.Valid() && state.done == data[..i] && Counts(state.totalN, state.totalN2, i)
    {
      state.UpdateBlock(data[i..i + 64]);
      assert data[..i] + data[i..i + 64] == data[..i + 64];
      i := i + 64;
    }
    var remainder := data[i..];
    assert data[..i] + remainder == data;
    if remainder != [] {
      digest := state.FinalizeTail(remainder, false);
      assert state.done == data + Padding(len, false);
      assert i % 64 == 0 && i < len < i + 64 && len % 64 == len - i;
      assert ClassicBlocks(data) == state.done;
    } else {
      assert i == len && data[..i] == data && |state.done| % 64 == 0;
      assert ClassicBlocks(data) == data;
      digest := Digest(state.chain);
    }
  }
}
