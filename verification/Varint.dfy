/** Variable-length integers on the wire (io/varint.rs). */
module Varint {
  import opened Bytes

  function Run(n: nat, v: nat): seq<nat> { seq(n, i => v) }

  /** The number of extra bytes that a marker byte announces, indexed by a quarter of the marker: the 64-entry
      table, row by row. */
  const INT_BYTE_EXTRA: seq<nat> := Run(32, 0) + Run(16, 1) + Run(8, 2) + Run(4, 3) + [4, 4, 5, 6]

  function Extra(ch: byte): (r: nat)
    ensures r == if ch < 128 then 0 else if ch < 192 then 1 else if ch < 224 then 2 else if ch < 240 then 3
                 else if ch < 248 then 4 else if ch < 252 then 5 else 6
  {
    INT_BYTE_EXTRA[ch / 4]
  }

  /** `1 << k` for a byte. */
  function Bit(k: nat): (b: nat)
    requires k <= 8
    ensures 1 <= b <= 256
  {
    if k == 0 then 1 else if k == 1 then 2 else if k == 2 then 4 else if k == 3 then 8
    else if k == 4 then 16 else if k == 5 then 32 else if k == 6 then 64 else if k == 7 then 128 else 256
  }

  lemma BitBound(k: nat)
    requires k <= 7
    ensures Bit(k) <= 128 && Bit(k + 1) == 2 * Bit(k)
  {
  }

  // ---- writing: x holds the little-endian bytes of the number, mb is the least number of bytes sent ----

  /** The number of bytes that must be kept: those up to the highest non-zero one, but at least mb. */
  function Kept(x: seq<byte>, mb: nat, cnt: nat): (r: nat)
    requires 1 <= mb <= cnt <= |x|
    ensures mb <= r <= cnt
    ensures r == mb || x[r - 1] != 0
    ensures forall i :: r <= i < cnt ==> x[i] == 0
    decreases cnt
  {
    if cnt > mb && x[cnt - 1] == 0 then Kept(x, mb, cnt - 1) else cnt
  }

  /** The encoding of the kept bytes: the highest one moves into the marker when it fits there. */
  function Encoding(x: seq<byte>, mb: nat, cnt: nat): (e: seq<byte>)
    requires 1 <= mb <= cnt <= |x| && cnt <= mb + 7
  {
    var bit := Bit(7 + mb - cnt);
    BitBound(7 + mb - cnt);
    if x[cnt - 1] >= bit then [256 - bit] + x[..cnt]
    else if cnt > mb then [x[cnt - 1] + 256 - 2 * bit] + x[..cnt - 1]
    else [x[cnt - 1]] + x[..cnt - 1]
  }

  function VarBytes(x: seq<byte>, mb: nat): seq<byte>
    requires 1 <= mb <= |x| <= mb + 7
  {
    Encoding(x, mb, Kept(x, mb, |x|))
  }

  /** The loop of write_varint and write_varlong over the byte array. */
  method WriteVar(x: seq<byte>, mb: nat) returns (w: seq<byte>)
    requires 1 <= mb <= |x| <= mb + 7
    ensures w == VarBytes(x, mb)
  {
    hide Bit;
    var b := [0] + x;
    var cnt := |x|;
    while cnt > mb && b[cnt] == 0
      invariant mb <= cnt <= |x|
      invariant Kept(x, mb, |x|) == Kept(x, mb, cnt)
    {
      cnt := cnt - 1;
    }
    assert cnt == Kept(x, mb, |x|) && b[cnt] == x[cnt - 1];
    w := Assemble(x, b, mb, cnt);
  }

  /** Placing the marker in front of the kept bytes. */
  method Assemble(x: seq<byte>, b0: seq<byte>, mb: nat, cnt0: nat) returns (w: seq<byte>)
    requires 1 <= mb <= cnt0 <= |x| && cnt0 <= mb + 7 && b0 == [0] + x
    ensures w == Encoding(x, mb, cnt0)
  {
    hide Bit;
    var b, cnt := b0, cnt0;
    var bit := Bit(7 + mb - cnt);
    BitBound(7 + mb - cnt);
    var marker: byte;
    if b[cnt] >= bit {
      marker := 256 - bit;
      cnt := cnt + 1;
    } else if cnt > mb {
      marker := b[cnt] + 256 - 2 * bit;
    } else {
      marker := b[cnt];
    }
    b := b[0 := marker];
    assert b[..cnt] == [marker] + x[..cnt - 1];
    w := b[..cnt];
  }

  // ---- reading ----

  /** The low bytes, the middle bytes and the masked marker, lowest first; the stream after them. The reader's
      buffer has room for `cap` bytes, and overrunning it is an error. */
  function ReadVar(s: seq<byte>, mb: nat, cap: nat): Read<seq<byte>>
    requires mb >= 1
  {
    var (b2, s1) :- ReadExact(s, mb);
    var ch := b2[0];
    var extra := Extra(ch);
    assert extra <= 6;
    if extra == 0 then Got(b2[1..] + [ch], s1)
    else if mb + extra > cap then Failed
    else
      var (middle, s2) :- ReadExact(s1, extra);
      Got(b2[1..] + middle + [ch % Bit(8 - extra)], s2)
  }

  /** Padding with zeros, or dropping what lies beyond the integer's width. */
  function Fit(b: seq<byte>, width: nat): (r: seq<byte>)
    ensures |r| == width
  {
    seq(width, i requires 0 <= i < width => if i < |b| then b[i] else 0)
  }

  /** The marker written for the kept bytes announces exactly the extra bytes that follow, up to six. */
  lemma MarkerExtra(v: byte, e: nat)
    requires e <= 6
    ensures e <= 5 ==> Extra(256 - Bit(7 - e)) == e + 1 && (256 - Bit(7 - e)) % Bit(7 - e) == 0
    ensures 1 <= e && v < Bit(7 - e) ==>
              && 0 <= v + 256 - 2 * Bit(7 - e) < 256
              && Extra(v + 256 - 2 * Bit(7 - e)) == e && (v + 256 - 2 * Bit(7 - e)) % Bit(8 - e) == v
  {
    hide Extra, Bit;
    if e <= 5 {
      BareMarker(e);
    }
    if 1 <= e && v < Bit(7 - e) {
      MarkerFits(v, e);
      MarkerKeeps(v, e);
    }
  }

  lemma BareMarker(e: nat)
    requires e <= 5
    ensures Extra(256 - Bit(7 - e)) == e + 1 && (256 - Bit(7 - e)) % Bit(7 - e) == 0
  {
    hide Extra;
    if e == 0 {} else if e == 1 {} else if e == 2 {} else if e == 3 {} else if e == 4 {} else {}
  }

  lemma MarkerFits(v: byte, e: nat)
    requires 1 <= e <= 6 && v < Bit(7 - e)
    ensures 0 <= v + 256 - 2 * Bit(7 - e) < 256 && Extra(v + 256 - 2 * Bit(7 - e)) == e
  {
    hide Extra;
    if e == 1 {} else if e == 2 {} else if e == 3 {} else if e == 4 {} else if e == 5 {} else {}
  }

  lemma MarkerKeeps(v: byte, e: nat)
    requires 1 <= e <= 6 && v < Bit(7 - e)
    ensures (v + 256 - 2 * Bit(7 - e)) % Bit(8 - e) == v
  {
    if e == 1 {} else if e == 2 {} else if e == 3 {} else if e == 4 {} else if e == 5 {} else {}
  }

  /** A marker followed by the low and middle bytes reads back as those bytes with the marker's own bits on top. */
  lemma ReadVarParts(ch: byte, body: seq<byte>, mb: nat, cap: nat, rest: seq<byte>)
    requires mb >= 1 && |body| == mb - 1 + Extra(ch)
    requires mb + Extra(ch) <= cap
    ensures ReadVar([ch] + body + rest, mb, cap)
         == Got(body + [if Extra(ch) == 0 then ch else ch % Bit(8 - Extra(ch))], rest)
  {
    hide Extra, Bit;
    var s := [ch] + body + rest;
    var low, middle := body[..mb - 1], body[mb - 1..];
    assert s == ([ch] + low) + (middle + rest);
    ReadExactPrefix([ch] + low, middle + rest);
    assert ([ch] + low)[1..] == low;
    ReadExactPrefix(middle, rest);
    assert body == low + middle;
    if Extra(ch) == 0 {
      assert middle == [] && middle + rest == rest && low == body;
    }
  }

  lemma FitRestores(x: seq<byte>, v: seq<byte>, k: nat)
    requires k <= |x| && forall i :: k <= i < |x| ==> x[i] == 0
    requires v == x[..k] || v == x[..k] + [0]
    ensures Fit(v, |x|) == x
  {
  }

  /** Decoding inverts encoding, on every continuation, exactly when at most six extra bytes are needed. */
  lemma VarRoundTrip(x: seq<byte>, mb: nat, cap: nat, rest: seq<byte>)
    requires 1 <= mb <= |x| <= mb + 7 && |x| < cap
    ensures var e := VarBytes(x, mb); var r := ReadVar(e + rest, mb, cap);
            && mb <= |e| <= |x| + 1
            && ((r.Got? && Fit(r.value, |x|) == x && r.rest == rest) <==> |e| <= mb + 6)
  {
    hide Extra, Bit, Fit, ReadVar;
    var k := Kept(x, mb, |x|);
    var e := k - mb;
    var bit := Bit(7 - e);
    BitBound(7 - e);
    var top: int := x[k - 1];
    if |VarBytes(x, mb)| > mb + 6 {
      ConsumedAtMost(VarBytes(x, mb) + rest, mb, cap);
    } else if top >= bit {
      MarkerExtra(top, e);
      ReadVarParts(256 - bit, x[..k], mb, cap, rest);
      FitRestores(x, x[..k] + [0], k);
    } else if k > mb {
      MarkerExtra(top, e);
      var marker: int := top + 256 - 2 * bit;
      ReadVarParts(marker, x[..k - 1], mb, cap, rest);
      assert x[..k - 1] + [top] == x[..k];
      FitRestores(x, x[..k], k);
    } else {
      SmallMarker(top);
      ReadVarParts(top, x[..k - 1], mb, cap, rest);
      assert x[..k - 1] + [top] == x[..k];
      FitRestores(x, x[..k], k);
    }
  }

  lemma SmallMarker(v: byte)
    requires v < Bit(7)
    ensures Extra(v) == 0
  {
  }

  lemma ConsumedAtMost(s: seq<byte>, mb: nat, cap: nat)
    requires mb >= 1
    ensures ReadVar(s, mb, cap).Got? ==> |ReadVar(s, mb, cap).rest| + mb + 6 >= |s|
  {
  }

  // ---- length ----

  lemma Pow256Zero()
    ensures Pow256(0) == 1
  {
  }

  lemma Scale(x: nat, p: nat, v: nat)
    ensures 256 * (x + p * v) == 256 * x + (256 * p) * v
  {
  }

  lemma {:induction false} LeValueAppend(a: seq<byte>, b: seq<byte>)
    ensures LeValue(a + b) == LeValue(a) + Pow256(|a|) * LeValue(b)
  {
    hide Pow256;
    if a == [] {
      assert a + b == b;
      assert Pow256(0) == 1 by { Pow256Zero(); }
    } else {
      assert (a + b)[1..] == a[1..] + b;
      LeValueAppend(a[1..], b);
      Pow256Step(|a|);
      Scale(LeValue(a[1..]), Pow256(|a| - 1), LeValue(b));
    }
  }

  lemma {:induction false} LeValueZeros(b: seq<byte>)
    requires forall i :: 0 <= i < |b| ==> b[i] == 0
    ensures LeValue(b) == 0
  {
    if b != [] {
      LeValueZeros(b[1..]);
    }
  }

  lemma {:induction false} Pow256Mono(m: nat, n: nat)
    requires m <= n
    ensures Pow256(m) <= Pow256(n)
  {
    if m < n {
      Pow256Mono(m, n - 1);
    }
  }

  /** The value by its highest kept byte. */
  lemma ValueByTop(x: seq<byte>, k: nat)
    requires 1 <= k <= |x| && forall i :: k <= i < |x| ==> x[i] == 0
    ensures LeValue(x[..k - 1]) < Pow256(k - 1)
    ensures LeValue(x) == LeValue(x[..k - 1]) + Pow256(k - 1) * x[k - 1]
  {
    assert x == x[..k - 1] + ([x[k - 1]] + x[k..]);
    LeValueAppend(x[..k - 1], [x[k - 1]] + x[k..]);
    LeBytesOfValue(x[..k - 1]);
    LeValueZeros(x[k..]);
    assert ([x[k - 1]] + x[k..])[1..] == x[k..];
  }

  /** The encoding has at most n bytes exactly when the number fits in n - 1 bytes and the free marker bits. */
  lemma VarLength(x: seq<byte>, mb: nat, n: nat)
    requires 1 <= mb <= n <= |x| <= mb + 7
    ensures |VarBytes(x, mb)| <= n <==> LeValue(x) < Pow256(n - 1) * Bit(7 + mb - n)
  {
    hide LeValue, Pow256, Bit;
    var k := Kept(x, mb, |x|);
    BitBound(7 + mb - k);
    BitBound(7 + mb - n);
    ValueByTop(x, k);
    LessByTop(LeValue(x[..k - 1]), x[k - 1], Pow256(k - 1), Bit(7 + mb - n));
    if n > k {
      FewBytes(LeValue(x[..k - 1]), x[k - 1], k, n, Bit(7 + mb - n));
    } else if n < k {
      ManyBytes(LeValue(x[..k - 1]), x[k - 1], k, n, Bit(7 + mb - n));
    }
  }

  lemma FewBytes(low: nat, top: nat, k: nat, n: nat, bit: nat)
    requires 1 <= k < n && low < Pow256(k - 1) && top < 256 && bit >= 1
    ensures low + Pow256(k - 1) * top < Pow256(n - 1) * bit
  {
    hide Pow256;
    Pow256Mono(k, n - 1);
    Pow256Step(k);
    LessByTop(low, top, Pow256(k - 1), 256);
    assert Pow256(n - 1) <= Pow256(n - 1) * bit;
  }

  lemma ManyBytes(low: nat, top: nat, k: nat, n: nat, bit: nat)
    requires 1 <= n < k && top >= 1 && bit <= 256
    ensures low + Pow256(k - 1) * top >= Pow256(n - 1) * bit
  {
    hide Pow256;
    Pow256Mono(n, k - 1);
    Pow256Step(n);
    assert Pow256(n - 1) * bit <= Pow256(n - 1) * 256;
    assert Pow256(k - 1) <= Pow256(k - 1) * top;
  }

  lemma Pow256Step(k: nat)
    requires k > 0
    ensures Pow256(k) == 256 * Pow256(k - 1)
  {
  }

  lemma LessByTop(low: nat, top: nat, p: nat, bit: nat)
    requires low < p
    ensures low + p * top < p * bit <==> top < bit
  {
    if top < bit {
      Scaled(p, top + 1, bit);
      assert p * (top + 1) == p * top + p;
    } else {
      Scaled(p, bit, top);
    }
  }

  lemma Scaled(p: nat, x: nat, y: nat)
    requires x <= y
    ensures p * x <= p * y
  {
    assert p * y == p * x + p * (y - x);
  }

  // ---- no shorter encoding ----

  /** What the reader assembles from n bytes is below the bound of n bytes. */
  lemma AssembledBelow(s: seq<byte>, mb: nat, cap: nat)
    requires mb >= 1 && ReadVar(s, mb, cap).Got?
    ensures var b := ReadVar(s, mb, cap).value;
            && |b| == |s| - |ReadVar(s, mb, cap).rest| && mb <= |b|
            && (|b| > mb ==> |b| <= cap)
            && (|b| <= mb + 5 ==> LeValue(b) < Pow256(|b| - 1) * Bit(7 + mb - |b|))
  {
    hide LeValue, Pow256, Extra;
    var b := ReadVar(s, mb, cap).value;
    TopBelow(s[0]);
    if |b| <= mb + 5 {
      var e := |b| - mb;
      var low, top := b[..|b| - 1], b[|b| - 1];
      assert b == low + [top];
      LeValueAppend(low, [top]);
      LeValueOne(top);
      LeBytesOfValue(low);
      assert e == Extra(s[0]);
      LessByTop(LeValue(low), top, Pow256(|b| - 1), Bit(7 - e));
    }
  }

  /** The marker's own bits stay below its free bits. */
  lemma TopBelow(ch: byte)
    ensures Extra(ch) <= 5 ==> ch % Bit(8 - Extra(ch)) < Bit(7 - Extra(ch))
    ensures ch < 128 ==> Extra(ch) == 0
  {
  }

  lemma LeValueOne(top: byte)
    ensures LeValue([top]) == top
  {
    assert [top][1..] == [];
    assert LeValue([]) == 0;
  }

  /** No bytes that read back as a number are fewer than those the writer uses for it. */
  lemma VarLeast(s: seq<byte>, mb: nat, cap: nat, width: nat)
    requires (mb == 1 && width == 4 && cap == 5) || (3 <= mb <= 4 && width == 8 && cap == 9)
    requires ReadVar(s, mb, cap).Got?
    ensures |VarBytes(Fit(ReadVar(s, mb, cap).value, width), mb)| <= |s| - |ReadVar(s, mb, cap).rest|
  {
    hide LeValue, Pow256, ReadVar, VarBytes, Bit;
    var b := ReadVar(s, mb, cap).value;
    var x := Fit(b, width);
    AssembledBelow(s, mb, cap);
    VarRoundTrip(x, mb, cap, []);
    if |b| <= width {
      LeValueAppend(b, x[|b|..]);
      assert x == b + x[|b|..];
      LeValueZeros(x[|b|..]);
      VarLength(x, mb, |b|);
    }
  }

  // ---- varint and varlong ----

  const TWO64 := 0x1_0000_0000_0000_0000

  function AsU64(x: int): nat { x % TWO64 }

  function AsI64(x: int): i64 {
    var u := x % TWO64;
    if u < 0x8000_0000_0000_0000 then u else u - TWO64
  }

  function VarintBytes(x: i32): seq<byte> { VarBytes(LeBytes(AsU32(x), 4), 1) }

  function ReadVarint(s: seq<byte>): Read<i32> {
    var (b, rest) :- ReadVar(s, 1, 5);
    Got(AsI32(LeValue(Fit(b, 4))), rest)
  }

  function VarlongBytes(x: i64, mb: nat): seq<byte>
    requires 1 <= mb <= 8
  {
    VarBytes(LeBytes(AsU64(x), 8), mb)
  }

  function ReadVarlong(s: seq<byte>, mb: nat): Read<i64>
    requires 1 <= mb <= 8
  {
    var (b, rest) :- ReadVar(s, mb, 9);
    Got(AsI64(LeValue(Fit(b, 8))), rest)
  }

  method WriteVarint(x: i32) returns (w: seq<byte>)
    ensures w == VarintBytes(x)
  {
    w := WriteVar(LeBytes(AsU32(x), 4), 1);
  }

  method WriteVarlong(x: i64, mb: nat) returns (w: seq<byte>)
    requires 1 <= mb <= 8
    ensures w == VarlongBytes(x, mb)
  {
    w := WriteVar(LeBytes(AsU64(x), 8), mb);
  }

  /** No other bytes for a varint are fewer than the writer's. */
  lemma VarintLeast(s: seq<byte>)
    requires ReadVarint(s).Got?
    ensures 1 <= |VarintBytes(ReadVarint(s).value)| <= |s| - |ReadVarint(s).rest|
  {
    hide ReadVar, VarBytes, LeBytes, LeValue, Fit, AsU32, AsI32, Pow256;
    var b := Fit(ReadVar(s, 1, 5).value, 4);
    Pow256Values();
    LeBytesOfValue(b);
    UnsignedReturns(LeValue(b));
    VarLeast(s, 1, 5, 4);
    VarintRoundTrip(ReadVarint(s).value, []);
  }

  lemma UnsignedReturns(n: nat)
    requires n < 0x1_0000_0000
    ensures AsU32(AsI32(n)) == n
  {
  }

  lemma VarlongLeast(s: seq<byte>, mb: nat)
    requires 3 <= mb <= 4 && ReadVarlong(s, mb).Got?
    ensures mb <= |VarlongBytes(ReadVarlong(s, mb).value, mb)| <= |s| - |ReadVarlong(s, mb).rest|
  {
    hide ReadVar, VarBytes, LeBytes, LeValue, Fit, AsU64, AsI64, Pow256;
    var b := Fit(ReadVar(s, mb, 9).value, 8);
    Pow256Values();
    LeBytesOfValue(b);
    U64RoundTrip(LeValue(b));
    VarLeast(s, mb, 9, 8);
    VarlongRoundTrip(ReadVarlong(s, mb).value, mb, []);
  }

  lemma VarintMonotone(x: i32, y: i32)
    requires 0 <= x <= y
    ensures |VarintBytes(x)| <= |VarintBytes(y)|
  {
    hide VarintBytes;
    VarintRoundTrip(x, []);
    VarintRoundTrip(y, []);
    if |VarintBytes(y)| <= 4 {
      VarintLength(x, |VarintBytes(y)|);
      VarintLength(y, |VarintBytes(y)|);
    }
  }

  lemma VarintRoundTrip(x: i32, rest: seq<byte>)
    ensures ReadVarint(VarintBytes(x) + rest) == Got(x, rest)
    ensures 1 <= |VarintBytes(x)| <= 5
  {
    hide VarBytes, ReadVar, LeBytes, LeValue, Fit, AsU32, AsI32, Pow256;
    Pow256Values();
    LeValueOfBytes(AsU32(x), 4);
    VarRoundTrip(LeBytes(AsU32(x), 4), 1, 5, rest);
    CastRoundTrip(x);
  }

  /** The encoding of a varint is the shortest that holds it: n bytes hold 7n bits, up to four bytes. */
  lemma VarintLength(x: i32, n: nat)
    requires 1 <= n <= 4
    ensures |VarintBytes(x)| <= n <==> AsU32(x) < Pow256(n - 1) * Bit(8 - n)
    ensures Pow256(n - 1) * Bit(8 - n) == [0x80, 0x4000, 0x20_0000, 0x1000_0000][n - 1]
  {
    hide VarBytes, LeBytes, LeValue, AsU32;
    Pow256Values();
    LeValueOfBytes(AsU32(x), 4);
    VarLength(LeBytes(AsU32(x), 4), 1, n);
  }

  lemma I64RoundTrip(x: i64)
    ensures AsU64(x) < TWO64 && AsI64(AsU64(x)) == x
  {
  }

  /** A 64-bit number survives exactly when its encoding needs no more than six extra bytes. */
  lemma VarlongByLength(x: i64, mb: nat, rest: seq<byte>)
    requires 1 <= mb <= 8
    ensures ReadVarlong(VarlongBytes(x, mb) + rest, mb) == Got(x, rest) <==> |VarlongBytes(x, mb)| <= mb + 6
    ensures mb <= |VarlongBytes(x, mb)| <= 9
  {
    hide VarBytes, ReadVar, LeBytes, LeValue, Fit, AsU64, AsI64, Pow256;
    Pow256Values();
    I64RoundTrip(x);
    LeValueOfBytes(AsU64(x), 8);
    VarRoundTrip(LeBytes(AsU64(x), 8), mb, 9, rest);
    var r := ReadVarlong(VarlongBytes(x, mb) + rest, mb);
    if r.Got? && r.value == x {
      I64BytesInjective(VarlongBytes(x, mb) + rest, mb, x);
    }
  }

  /** A 64-bit number survives at every width from 3 to 8, which the protocol uses (3 for sizes, 4 for times), and at
      width 1 or 2 exactly when, seen as unsigned, it is below 2^49 or 2^57. */
  lemma VarlongRoundTrip(x: i64, mb: nat, rest: seq<byte>)
    requires 1 <= mb <= 8
    ensures mb <= |VarlongBytes(x, mb)| <= 9
    ensures ReadVarlong(VarlongBytes(x, mb) + rest, mb) == Got(x, rest)
            <==> mb >= 3 || AsU64(x) < if mb == 1 then 0x2_0000_0000_0000 else 0x200_0000_0000_0000
  {
    hide VarBytes, ReadVarlong, LeBytes, LeValue, AsU64, Pow256;
    VarlongByLength(x, mb, rest);
    if mb < 3 {
      Pow256Values();
      I64RoundTrip(x);
      NarrowBounds();
      LeValueOfBytes(AsU64(x), 8);
      VarLength(LeBytes(AsU64(x), 8), mb, mb + 6);
    }
  }

  lemma NarrowBounds()
    ensures Pow256(6) * Bit(1) == 0x2_0000_0000_0000 && Pow256(7) * Bit(1) == 0x200_0000_0000_0000
  {
    Pow256Values();
    assert Pow256(7) == 0x100_0000_0000_0000 && Pow256(6) == 0x1_0000_0000_0000;
    assert Bit(1) == 2 * Bit(0);
  }

  /** If the reader returns x then it assembled the bytes of x. */
  lemma I64BytesInjective(s: seq<byte>, mb: nat, x: i64)
    requires 1 <= mb <= 8 && ReadVarlong(s, mb).Got? && ReadVarlong(s, mb).value == x
    ensures Fit(ReadVar(s, mb, 9).value, 8) == LeBytes(AsU64(x), 8)
  {
    hide ReadVar, LeBytes, LeValue, Fit, AsU64, AsI64, Pow256;
    var b := Fit(ReadVar(s, mb, 9).value, 8);
    Pow256Values();
    LeBytesOfValue(b);
    U64RoundTrip(LeValue(b));
  }

  lemma U64RoundTrip(n: nat)
    requires n < TWO64
    ensures AsU64(AsI64(n)) == n
  {
  }

  /** The widths 1 and 2 do lose numbers. */
  lemma VarlongNarrowFails(rest: seq<byte>)
    ensures ReadVarlong(VarlongBytes(-1, 2) + rest, 2) != Got(-1, rest)
    ensures ReadVarlong(VarlongBytes(0x2_0000_0000_0000, 1) + rest, 1) != Got(0x2_0000_0000_0000, rest)
  {
    hide ReadVarlong, VarlongBytes;
    VarlongRoundTrip(-1, 2, rest);
    VarlongRoundTrip(0x2_0000_0000_0000, 1, rest);
  }
}
