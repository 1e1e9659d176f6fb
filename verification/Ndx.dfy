/** Stateful delta coding of file indices (io/varint.rs, read_ndx and write_ndx). 32-bit arithmetic wraps. */
module Ndx {
  import opened Bytes

  const NDX_DONE: i32 := -1
  const I32_MIN: i32 := -0x8000_0000

  /** The last non-negative index and the last negated negative index seen by one direction. */
  datatype Prev = Prev(pos: i32, neg: i32)

  const INITIAL := Prev(-1, 1)

  /** The states that writing indices can reach. */
  predicate Reachable(p: Prev) { p.pos >= -1 && (p.neg >= 1 || p.neg == I32_MIN) }

  /** Negation, which wraps for the least number. */
  function Neg(x: i32): i32 { AsI32(0 - x) }

  // ---- writing ----

  /** The bytes for a number sent as the difference from the previous one, or absolutely. */
  function NumberBytes(diff: i32, num: i32): seq<byte> {
    if 1 <= diff < 0xFE then [diff]
    else if diff < 0 || diff > 0x7FFF then
      var u := AsU32(num);
      var hi := u / 0x100_0000;
      [0xFE, if hi < 0x80 then hi + 0x80 else hi, u % 0x100, u / 0x100 % 0x100, u / 0x1_0000 % 0x100]
    else [0xFE, diff / 0x100, diff % 0x100]
  }

  function NdxBytes(p: Prev, ndx: i32): seq<byte> {
    if ndx == NDX_DONE then [0x00]
    else if ndx >= 0 then NumberBytes(AsI32(ndx - p.pos), ndx)
    else [0xFF] + NumberBytes(AsI32(Neg(ndx) - p.neg), Neg(ndx))
  }

  function Written(p: Prev, ndx: i32): Prev {
    if ndx == NDX_DONE then p
    else if ndx >= 0 then p.(pos := ndx)
    else p.(neg := Neg(ndx))
  }

  // ---- reading ----

  datatype Number = Absolute(n: i32) | Relative(d: i32)

  function ReadNumber(first: byte, s: seq<byte>): Read<Number> {
    if first == 0xFE then
      var (hi, s1) :- ReadByte(s);
      var (lo, s2) :- ReadByte(s1);
      if hi >= 0x80 then
        var (b1, s3) :- ReadByte(s2);
        var (b2, s4) :- ReadByte(s3);
        Got(Absolute(AsI32((hi - 0x80) * 0x100_0000 + lo + b1 * 0x100 + b2 * 0x1_0000)), s4)
      else
        Got(Relative(hi * 0x100 + lo), s2)
    else Got(Relative(first), s)
  }

  function ReadNdx(p: Prev, s: seq<byte>): Read<(i32, Prev)> {
    var (b0, s1) :- ReadByte(s);
    if b0 == 0x00 then Got((NDX_DONE, p), s1)
    else
      var negative := b0 == 0xFF;
      var (first, s2) :- if negative then ReadByte(s1) else Got(b0, s1);
      var (number, s3) :- ReadNumber(first, s2);
      var prev := if negative then p.neg else p.pos;
      var num := match number case Absolute(n) => n case Relative(d) => AsI32(prev + d);
      if negative then Got((Neg(num), p.(neg := num)), s3)
      else Got((num, p.(pos := num)), s3)
  }

  // ---- one index ----

  lemma ReadLong(hi: byte, lo: byte, b1: byte, b2: byte, rest: seq<byte>)
    requires hi >= 0x80
    ensures ReadNumber(0xFE, [hi, lo, b1, b2] + rest)
         == Got(Absolute(AsI32((hi - 0x80) * 0x100_0000 + lo + b1 * 0x100 + b2 * 0x1_0000)), rest)
  {
    var s := [hi, lo, b1, b2] + rest;
    assert s[1..] == [lo, b1, b2] + rest && s[1..][1..] == [b1, b2] + rest
        && s[1..][1..][1..] == [b2] + rest && s[1..][1..][1..][1..] == rest;
  }

  lemma ReadShort(hi: byte, lo: byte, rest: seq<byte>)
    requires hi < 0x80
    ensures ReadNumber(0xFE, [hi, lo] + rest) == Got(Relative(hi * 0x100 + lo), rest)
  {
    var s := [hi, lo] + rest;
    assert s[1..] == [lo] + rest && s[1..][1..] == rest;
  }

  /** Splitting a 32-bit number into its four bytes and back. */
  lemma FourBytes(u: u32)
    ensures u == u / 0x100_0000 * 0x100_0000 + u / 0x1_0000 % 0x100 * 0x1_0000 + u / 0x100 % 0x100 * 0x100 + u % 0x100
    ensures u / 0x100_0000 < 0x100
  {
    assert u / 0x100 / 0x100 == u / 0x1_0000 && u / 0x1_0000 / 0x100 == u / 0x100_0000;
  }

  /** How the reader sees the bytes of a number: relative whenever they were, else with the top bit dropped. */
  lemma NumberParses(diff: i32, num: i32, rest: seq<byte>)
    ensures var b := NumberBytes(diff, num);
            b != [] && b[0] != 0 && b[0] != 0xFF
            && ReadNumber(b[0], b[1..] + rest)
               == Got(if 0 <= diff <= 0x7FFF then Relative(diff) else Absolute(AsI32(AsU32(num) % 0x8000_0000)), rest)
  {
    hide ReadNumber, AsU32, AsI32;
    var b := NumberBytes(diff, num);
    if 1 <= diff < 0xFE {
      ReadTiny(diff, rest);
      assert b[1..] + rest == rest;
    } else if 0 <= diff <= 0x7FFF {
      ReadShort(diff / 0x100, diff % 0x100, rest);
      assert b[1..] == [diff / 0x100, diff % 0x100];
    } else {
      var u := AsU32(num);
      FourBytes(u);
      ReadLong(b[1], b[2], b[3], b[4], rest);
      assert b[1..] == [b[1], b[2], b[3], b[4]];
      TopBitDropped(u);
    }
  }

  lemma ReadTiny(first: byte, rest: seq<byte>)
    requires first != 0xFE
    ensures ReadNumber(first, rest) == Got(Relative(first), rest)
  {
  }

  lemma TopBitDropped(u: u32)
    ensures var hi := u / 0x100_0000;
            (if hi < 0x80 then hi else hi - 0x80) * 0x100_0000 + u % 0x100 + u / 0x100 % 0x100 * 0x100
              + u / 0x1_0000 % 0x100 * 0x1_0000
            == u % 0x8000_0000
  {
    FourBytes(u);
  }

  /** The previous value plus the difference, both wrapped, is the number again. */
  lemma DifferenceReturns(num: i32, prev: i32)
    ensures AsI32(prev + AsI32(num - prev)) == num
  {
  }

  lemma DropSign(num: i32)
    ensures num >= 0 ==> AsI32(AsU32(num) % 0x8000_0000) == num
    ensures num == I32_MIN ==> AsI32(AsU32(num) % 0x8000_0000) == 0
  {
  }

  lemma Negated(num: i32)
    ensures num == I32_MIN ==> Neg(num) == I32_MIN
    ensures num != I32_MIN && num < 0 ==> Neg(num) > 0
    ensures Neg(Neg(num)) == num && Neg(0) == 0
  {
  }

  /** Reading back one index, from the state the writer had, on any continuation: it works, and leaves the state
      the writer is left with, for every index except the least one, and for that one exactly when the previous
      negative index was near enough. */
  lemma NdxRoundTrip(p: Prev, ndx: i32, rest: seq<byte>)
    requires Reachable(p)
    ensures ReadNdx(p, NdxBytes(p, ndx) + rest) == Got((ndx, Written(p, ndx)), rest)
            <==> (ndx != I32_MIN || 0 <= AsI32(I32_MIN - p.neg) <= 0x7FFF)
  {
    hide AsI32, Neg, ReadNumber, NumberBytes;
    if ndx == NDX_DONE {
      assert ([0x00] + rest)[1..] == rest;
    } else if ndx >= 0 {
      UpReturns(p, ndx, rest);
    } else {
      DownReturns(p, ndx, rest);
    }
  }

  lemma UpReturns(p: Prev, ndx: i32, rest: seq<byte>)
    requires Reachable(p) && ndx >= 0
    ensures ReadNdx(p, NdxBytes(p, ndx) + rest) == Got((ndx, Written(p, ndx)), rest)
  {
    hide AsI32, Neg, ReadNumber, NumberBytes;
    DropSign(ndx);
    var b := NumberBytes(AsI32(ndx - p.pos), ndx);
    NumberParses(AsI32(ndx - p.pos), ndx, rest);
    assert (b + rest)[1..] == b[1..] + rest;
    DifferenceReturns(ndx, p.pos);
  }

  lemma DownReturns(p: Prev, ndx: i32, rest: seq<byte>)
    requires Reachable(p) && ndx < 0 && ndx != NDX_DONE
    ensures ReadNdx(p, NdxBytes(p, ndx) + rest) == Got((ndx, Written(p, ndx)), rest)
            <==> (ndx != I32_MIN || 0 <= AsI32(I32_MIN - p.neg) <= 0x7FFF)
  {
    hide AsI32, Neg, ReadNumber, NumberBytes;
    var num := Neg(ndx);
    DropSign(num);
    Negated(ndx);
    var b := NumberBytes(AsI32(num - p.neg), num);
    NumberParses(AsI32(num - p.neg), num, rest);
    var s := [0xFF] + b + rest;
    assert s[1..] == b + rest && (b + rest)[1..] == b[1..] + rest;
    DifferenceReturns(num, p.neg);
  }

  // ---- whole runs ----

  function AllBytes(p: Prev, ndxs: seq<i32>): seq<byte>
    decreases |ndxs|
  {
    if ndxs == [] then [] else NdxBytes(p, ndxs[0]) + AllBytes(Written(p, ndxs[0]), ndxs[1..])
  }

  function AllWritten(p: Prev, ndxs: seq<i32>): Prev
    decreases |ndxs|
  {
    if ndxs == [] then p else AllWritten(Written(p, ndxs[0]), ndxs[1..])
  }

  function ReadMany(p: Prev, s: seq<byte>, n: nat): Read<(seq<i32>, Prev)>
    decreases n
  {
    if n == 0 then Got(([], p), s)
    else
      var (item, s1) :- ReadNdx(p, s);
      var (tail, s2) :- ReadMany(item.1, s1, n - 1);
      Got(([item.0] + tail.0, tail.1), s2)
  }

  /** Any run of indices written by one side is read back by the other, and at its end, as after every item,
      the two sides' states are equal. */
  lemma {:induction false} NdxRunRoundTrip(p: Prev, ndxs: seq<i32>, rest: seq<byte>)
    requires Reachable(p) && I32_MIN !in ndxs
    ensures ReadMany(p, AllBytes(p, ndxs) + rest, |ndxs|) == Got((ndxs, AllWritten(p, ndxs)), rest)
    decreases |ndxs|
  {
    hide NdxBytes, ReadNdx;
    if ndxs != [] {
      var tail := AllBytes(Written(p, ndxs[0]), ndxs[1..]) + rest;
      assert AllBytes(p, ndxs) + rest == NdxBytes(p, ndxs[0]) + tail;
      NdxRoundTrip(p, ndxs[0], tail);
      Negated(ndxs[0]);
      NdxRunRoundTrip(Written(p, ndxs[0]), ndxs[1..], rest);
      assert [ndxs[0]] + ndxs[1..] == ndxs;
    } else {
      assert [] + rest == rest;
    }
  }

  // ---- the four cells ----

  /** The process-wide state: one pair of cells for each direction. */
  class NdxState {
    var readPrevPos: i32
    var readPrevNeg: i32
    var writePrevPos: i32
    var writePrevNeg: i32

    function Reading(): Prev reads this`readPrevPos, this`readPrevNeg { Prev(readPrevPos, readPrevNeg) }
    function Writing(): Prev reads this`writePrevPos, this`writePrevNeg { Prev(writePrevPos, writePrevNeg) }

    constructor ()
      ensures Reading() == INITIAL && Writing() == INITIAL
      ensures readPrevPos == -1 && readPrevNeg == 1 && writePrevPos == -1 && writePrevNeg == 1
    {
      readPrevPos, readPrevNeg, writePrevPos, writePrevNeg := -1, 1, -1, 1;
    }

    /** Writing touches the write cells only. */
    method WriteNdx(ndx: i32) returns (w: seq<byte>)
      modifies this`writePrevPos, this`writePrevNeg
      ensures w == NdxBytes(old(Writing()), ndx) && Writing() == Written(old(Writing()), ndx)
    {
      hide AsI32, AsU32;
      if ndx == NDX_DONE {
        return [0x00];
      }
      w := [];
      var diff, absNdx;
      if ndx >= 0 {
        diff, absNdx := AsI32(ndx - writePrevPos), ndx;
        writePrevPos := ndx;
      } else {
        w := w + [0xFF];
        absNdx := Neg(ndx);
        diff := AsI32(absNdx - writePrevNeg);
        writePrevNeg := absNdx;
      }
      if diff >= 1 && diff < 0xFE {
        w := w + [diff];
      } else if diff < 0 || diff > 0x7FFF {
        var u := AsU32(absNdx);
        var hi := u / 0x100_0000;
        w := w + [0xFE, if hi < 0x80 then hi + 0x80 else hi, u % 0x100, u / 0x100 % 0x100, u / 0x1_0000 % 0x100];
      } else {
        w := w + [0xFE, diff / 0x100, diff % 0x100];
      }
    }

    /** Reading touches the read cells only. */
    method Read(s: seq<byte>) returns (ok: bool, ndx: i32, rest: seq<byte>)
      modifies this`readPrevPos, this`readPrevNeg
      ensures ok <==> ReadNdx(old(Reading()), s).Got?
      ensures ok ==> ReadNdx(old(Reading()), s) == Got((ndx, Reading()), rest)
    {
      hide AsI32;
      ok, ndx, rest := false, 0, s;
      var b0 := ReadByte(s);
      if b0.Failed? {
        return;
      }
      if b0.value == 0x00 {
        return true, NDX_DONE, b0.rest;
      }
      var negative := b0.value == 0xFF;
      var first := if negative then ReadByte(b0.rest) else b0;
      if first.Failed? {
        return;
      }
      var number := ReadNumber(first.value, first.rest);
      if number.Failed? {
        return;
      }
      var num;
      if number.value.Absolute? {
        num := number.value.n;
      } else {
        num := AsI32((if negative then readPrevNeg else readPrevPos) + number.value.d);
      }
      if negative {
        readPrevNeg := num;
        return true, Neg(num), number.rest;
      } else {
        readPrevPos := num;
        return true, num, number.rest;
      }
    }
  }

  // ---- the bytes themselves ----

  /** A number n after prev: one byte for a small step up, three for a step of up to 15 bits, five for n itself. */
  function StepBytes(n: nat, prev: int): seq<byte>
    requires n < 0x8000_0000
  {
    var step := n - prev;
    if 1 <= step <= 253 then [step]
    else if step == 0 || 254 <= step <= 0x7FFF then [0xFE, step / 256, step % 256]
    else [0xFE, 0x80 + n / 0x100_0000, n % 256, n / 256 % 256, n / 0x1_0000 % 256]
  }

  /** The bytes from any state: the end marker is one zero byte, and the absolute value of another negative index goes
      behind 0xFF. */
  lemma NdxForms(p: Prev, n: i32)
    requires Reachable(p)
    ensures n == -1 ==> NdxBytes(p, n) == [0]
    ensures n >= 0 ==> NdxBytes(p, n) == StepBytes(n, p.pos)
    ensures I32_MIN < n < -1 && p.neg >= 1 ==> NdxBytes(p, n) == [0xFF] + StepBytes(-n, p.neg)
  {
    hide NumberBytes, StepBytes, AsI32;
    if n >= 0 {
      StepForm(n, p.pos);
    } else if I32_MIN < n < -1 && p.neg >= 1 {
      Opposite(n);
      StepForm(-n, p.neg);
    }
  }

  lemma Opposite(n: i32)
    requires n > I32_MIN
    ensures Neg(n) == -n
  {
  }

  lemma StepForm(n: i32, prev: i32)
    requires n >= 0 && prev >= -1
    ensures NumberBytes(AsI32(n - prev), n) == StepBytes(n, prev)
  {
    hide AsI32, AsU32;
    StepWraps(n - prev);
    assert AsU32(n) == n by { NoWrap(n); }
  }

  lemma StepWraps(step: int)
    requires -0x8000_0000 < step <= 0x8000_0000
    ensures AsI32(step) == if step == 0x8000_0000 then -0x8000_0000 else step
  {
  }

  lemma NoWrap(n: nat)
    requires n < 0x8000_0000
    ensures AsU32(n) == n
  {
  }

  /** The first index of a connection: from 0 to 252 it goes out as the next number, and from -2 to -254 as one less
      than its absolute value behind 0xFF. */
  method FirstIndex(n: i32) returns (w: seq<byte>)
    ensures n == -1 ==> w == [0]
    ensures 0 <= n <= 252 ==> w == [n + 1]
    ensures -254 <= n <= -2 ==> w == [0xFF, -n - 1]
  {
    var s := new NdxState();
    w := s.WriteNdx(n);
    NdxForms(Prev(-1, 1), n);
  }

  /** And it is the index of such bytes that a fresh reader returns. */
  method ReadFirst(b: byte, rest: seq<byte>) returns (ok: bool, n: i32, left: seq<byte>)
    requires 1 <= b <= 253
    ensures ok && n == b - 1 && left == rest
  {
    var s := new NdxState();
    NdxForms(Prev(-1, 1), b - 1);
    NdxRoundTrip(Prev(-1, 1), b - 1, rest);
    ok, n, left := s.Read([b] + rest);
  }
}
