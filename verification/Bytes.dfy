/** Bytes, machine integers, and the byte stream that every codec reads from. */
module Bytes {

  type byte = b: int | 0 <= b < 256
  type i32 = x: int | -0x8000_0000 <= x < 0x8000_0000
  type u32 = x: int | 0 <= x < 0x1_0000_0000
  type i64 = x: int | -0x8000_0000_0000_0000 <= x < 0x8000_0000_0000_0000

  datatype Option<+T> = None | Some(value: T)

  /** The result of a read: a value and the bytes left, or an error (end of stream, malformed data). */
  datatype Read<+T> = Got(value: T, rest: seq<byte>) | Failed {
    predicate IsFailure() { Failed? }

    function PropagateFailure<U>(): Read<U>
      requires Failed?
    {
      Failed
    }

    function Extract(): (T, seq<byte>)
      requires Got?
    {
      (value, rest)
    }
  }

  /** The `as u32` cast. */
  function AsU32(x: int): u32 { x % 0x1_0000_0000 }

  /** The `as i32` cast. */
  function AsI32(x: int): i32 {
    var u := x % 0x1_0000_0000;
    if u < 0x8000_0000 then u else u - 0x1_0000_0000
  }

  // ---- little-endian numbers ----

  function Pow256(k: nat): (p: nat)
    ensures p > 0
  {
    if k == 0 then 1 else 256 * Pow256(k - 1)
  }

  function LeBytes(n: nat, width: nat): (b: seq<byte>)
    ensures |b| == width
  {
    if width == 0 then [] else [n % 256] + LeBytes(n / 256, width - 1)
  }

  function LeValue(b: seq<byte>): nat {
    if b == [] then 0 else b[0] + 256 * LeValue(b[1..])
  }

  lemma {:induction false} LeValueOfBytes(n: nat, width: nat)
    requires n < Pow256(width)
    ensures LeValue(LeBytes(n, width)) == n
  {
    if width > 0 {
      var b := LeBytes(n, width);
      assert b[1..] == LeBytes(n / 256, width - 1);
      LeValueOfBytes(n / 256, width - 1);
    }
  }

  lemma Split256(low: byte, high: nat)
    ensures (low + 256 * high) % 256 == low && (low + 256 * high) / 256 == high
  {
  }

  lemma {:induction false} LeBytesOfValue(b: seq<byte>)
    ensures LeValue(b) < Pow256(|b|)
    ensures LeBytes(LeValue(b), |b|) == b
  {
    if b != [] {
      LeBytesOfValue(b[1..]);
      Split256(b[0], LeValue(b[1..]));
      assert b == [b[0]] + b[1..];
    }
  }

  // ---- fixed-width integers on the wire ----

  /** Exactly `n` bytes from the front of the stream. */
  function ReadExact(s: seq<byte>, n: nat): (r: Read<seq<byte>>)
    ensures r.Got? <==> n <= |s|
    ensures r.Got? ==> r.value + r.rest == s && |r.value| == n
  {
    if n <= |s| then Got(s[..n], s[n..]) else Failed
  }

  function ReadByte(s: seq<byte>): (r: Read<byte>)
    ensures r.Got? <==> s != []
    ensures r.Got? ==> [r.value] + r.rest == s
  {
    if s == [] then Failed else Got(s[0], s[1..])
  }

  function ShortintBytes(x: nat): (b: seq<byte>)
    requires x < 0x1_0000
  {
    LeBytes(x, 2)
  }

  function ReadShortint(s: seq<byte>): Read<nat> {
    var (b, rest) :- ReadExact(s, 2);
    Got(LeValue(b), rest)
  }

  function IntBytes(x: i32): (b: seq<byte>)
    ensures |b| == 4
  {
    LeBytes(AsU32(x), 4)
  }

  function ReadInt(s: seq<byte>): Read<i32> {
    var (b, rest) :- ReadExact(s, 4);
    Got(AsI32(LeValue(b)), rest)
  }

  lemma Pow256Values()
    ensures Pow256(1) == 0x100 && Pow256(2) == 0x1_0000 && Pow256(3) == 0x100_0000
    ensures Pow256(4) == 0x1_0000_0000 && Pow256(8) == 0x1_0000_0000_0000_0000
  {
    assert Pow256(4) == 256 * 256 * 256 * 256 * Pow256(0);
    assert Pow256(8) == 256 * 256 * 256 * 256 * Pow256(4);
  }

  lemma ReadExactPrefix(a: seq<byte>, rest: seq<byte>)
    ensures ReadExact(a + rest, |a|) == Got(a, rest)
  {
    assert (a + rest)[..|a|] == a && (a + rest)[|a|..] == rest;
  }

  lemma CastRoundTrip(x: int)
    ensures AsI32(AsU32(x)) == AsI32(x)
    ensures -0x8000_0000 <= x < 0x8000_0000 ==> AsI32(x) == x
  {
  }

  lemma IntRoundTrip(x: i32, rest: seq<byte>)
    ensures ReadInt(IntBytes(x) + rest) == Got(x, rest)
  {
    hide LeBytes, LeValue, AsU32, AsI32, Pow256;
    ReadExactPrefix(IntBytes(x), rest);
    Pow256Values();
    LeValueOfBytes(AsU32(x), 4);
    CastRoundTrip(x);
  }

  /** The other direction: whatever ReadInt accepts is what IntBytes writes. */
  lemma IntParses(s: seq<byte>)
    requires ReadInt(s).Got?
    ensures IntBytes(ReadInt(s).value) + ReadInt(s).rest == s
  {
    hide LeBytes, LeValue, Pow256;
    Pow256Values();
    LeBytesOfValue(s[..4]);
  }

  lemma ShortintRoundTrip(x: nat, rest: seq<byte>)
    requires x < 0x1_0000
    ensures ReadShortint(ShortintBytes(x) + rest) == Got(x, rest)
  {
    ReadExactPrefix(ShortintBytes(x), rest);
    Pow256Values();
    LeValueOfBytes(x, 2);
  }
}
