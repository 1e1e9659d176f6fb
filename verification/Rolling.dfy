/** The weak checksum of a block and its incremental, one-byte-at-a-time form (checksum/rolling.rs). */
module Rolling {
  import opened Bytes

  // ---- what the checksum means: two sums of signed bytes, kept modulo 2^16 ----

  /** The `as i8` cast. */
  function Signed(b: byte): int { if b < 128 then b else b - 256 }

  /** The sum of the bytes. */
  function Plain(d: seq<byte>): int {
    if d == [] then 0 else Signed(d[0]) + Plain(d[1..])
  }

  /** The sum of the bytes, each weighted by the number of bytes from it to the end. */
  function Weighted(d: seq<byte>): int {
    if d == [] then 0 else |d| * Signed(d[0]) + Weighted(d[1..])
  }

  /** `(s1 & 0xffff) | (s2 << 16)` in 32-bit arithmetic. */
  function Pack(s1: int, s2: int): u32 { s1 % 0x1_0000 + 0x1_0000 * (s2 % 0x1_0000) }

  function WeakSum(d: seq<byte>): u32 { Pack(Plain(d), Weighted(d)) }

  // ---- 32-bit wrapping arithmetic ----

  function SignExtend(b: byte): u32 { AsU32(Signed(b)) }
  function Add(x: u32, y: u32): u32 { AsU32(x + y) }
  function Sub(x: u32, y: u32): u32 { AsU32(x - y) }
  function Mul(x: u32, y: u32): u32 { AsU32(x * y) }

  /** x and y differ by q times 2^16. */
  predicate Apart(x: int, y: int, q: int) { x == y + 0x1_0000 * q }

  /** x and y agree modulo 2^16, the only part of the accumulators that is ever read. */
  ghost predicate Agree(x: int, y: int) { exists q :: Apart(x, y, q) }

  lemma Witness(x: int, y: int) returns (q: int)
    requires Agree(x, y)
    ensures x == y + 0x1_0000 * q
  {
    q :| Apart(x, y, q);
  }

  lemma AgreeBy(x: int, y: int, q: int)
    requires x == y + 0x1_0000 * q
    ensures Agree(x, y)
  {
    assert Apart(x, y, q);
  }

  lemma Reflexive(x: int)
    ensures Agree(x, x)
  {
    AgreeBy(x, x, 0);
  }

  lemma SignAgrees(b: byte)
    ensures Agree(SignExtend(b), Signed(b))
  {
    Reflexive(Signed(b));
    WrapAgrees(Signed(b), Signed(b));
  }

  /** Both halves of a packed checksum, unpacked again. */
  lemma UnpackAgrees(x1: int, x2: int)
    ensures Agree(Pack(x1, x2) % 0x1_0000, x1) && Agree(Pack(x1, x2) / 0x1_0000, x2)
  {
    AgreeBy(x1 % 0x1_0000, x1, -(x1 / 0x1_0000));
    AgreeBy(x2 % 0x1_0000, x2, -(x2 / 0x1_0000));
  }

  lemma WrapAgrees(x: int, y: int)
    requires Agree(x, y)
    ensures Agree(AsU32(x), y)
  {
    var q := Witness(x, y);
    AgreeBy(AsU32(x), y, q - 0x1_0000 * (x / 0x1_0000_0000));
  }

  lemma SameResidue(x: int, y: int)
    requires Agree(x, y)
    ensures x % 0x1_0000 == y % 0x1_0000
  {
    var q := Witness(x, y);
  }

  lemma PackAgree(x1: int, y1: int, x2: int, y2: int)
    requires Agree(x1, y1) && Agree(x2, y2)
    ensures Pack(x1, x2) == Pack(y1, y2)
  {
    SameResidue(x1, y1);
    SameResidue(x2, y2);
  }

  lemma AddAgrees(x: u32, x': int, y: u32, y': int)
    requires Agree(x, x') && Agree(y, y')
    ensures Agree(Add(x, y), x' + y') && Agree(Sub(x, y), x' - y')
  {
    hide Agree, AsU32;
    var p := Witness(x, x');
    var q := Witness(y, y');
    AgreeBy(x + y, x' + y', p + q);
    AgreeBy(x - y, x' - y', p - q);
    WrapAgrees(x + y, x' + y');
    WrapAgrees(x - y, x' - y');
  }

  lemma MulAgrees(k: u32, k': int, b: u32, b': int)
    requires Agree(k, k') && Agree(b, b')
    ensures Agree(Mul(k, b), k' * b')
  {
    var p := Witness(k, k');
    var q := Witness(b, b');
    assert k * b - k' * b' == 0x1_0000 * (p * b + k' * q) by {
      assert k * b == (k' + 0x1_0000 * p) * b == k' * b + 0x1_0000 * (p * b);
      assert k' * b == k' * (b' + 0x1_0000 * q) == k' * b' + 0x1_0000 * (k' * q);
    }
    AgreeBy(k * b, k' * b', p * b + k' * q);
    WrapAgrees(k * b, k' * b');
  }

  // ---- how the sums change when a byte enters or leaves ----

  lemma {:induction false} PlainAppend(d: seq<byte>, b: byte)
    ensures Plain(d + [b]) == Plain(d) + Signed(b)
  {
    if d != [] {
      assert (d + [b])[1..] == d[1..] + [b];
      PlainAppend(d[1..], b);
    } else {
      assert (d + [b])[1..] == [];
    }
  }

  lemma {:induction false} WeightedAppend(d: seq<byte>, b: byte)
    ensures Weighted(d + [b]) == Weighted(d) + Plain(d + [b])
  {
    if d != [] {
      assert (d + [b])[1..] == d[1..] + [b];
      WeightedAppend(d[1..], b);
      assert (|d| + 1) * Signed(d[0]) == |d| * Signed(d[0]) + Signed(d[0]);
    } else {
      assert (d + [b])[1..] == [];
    }
  }

  // ---- one whole block ----

  /** A weighted byte added to an accumulator. */
  lemma AddWeighted(x: u32, x': int, k: u32, b: byte)
    requires Agree(x, x')
    ensures Agree(Add(x, Mul(k, SignExtend(b))), x' + k * Signed(b))
    ensures Agree(Add(x, SignExtend(b)), x' + Signed(b))
  {
    SignAgrees(b);
    Reflexive(k);
    MulAgrees(k, k, SignExtend(b), Signed(b));
    AddAgrees(x, x', Mul(k, SignExtend(b)), k * Signed(b));
    AddAgrees(x, x', SignExtend(b), Signed(b));
  }

  /** The fast path's update of the second sum. */
  lemma FastSecond(s1: u32, p: int, s2: u32, w: int, b0: byte, b1: byte, b2: byte, b3: byte)
    requires Agree(s1, p) && Agree(s2, w)
    ensures var e0, e1, e2, e3 := SignExtend(b0), SignExtend(b1), SignExtend(b2), SignExtend(b3);
            Agree(Add(s2, Add(Add(Add(Mul(4, Add(s1, e0)), Mul(3, e1)), Mul(2, e2)), e3)),
                  w + (4 * (p + Signed(b0)) + 3 * Signed(b1) + 2 * Signed(b2) + Signed(b3)))
  {
    hide Add, Mul, SignExtend, Agree;
    var t0 := Mul(4, Add(s1, SignExtend(b0)));
    var v0 := 4 * (p + Signed(b0));
    assert Agree(t0, v0) by {
      AddWeighted(s1, p, 1, b0);
      Reflexive(4);
      MulAgrees(4, 4, Add(s1, SignExtend(b0)), p + Signed(b0));
    }
    FastTail(t0, v0, s2, w, b1, b2, b3);
  }

  lemma FastTail(t0: u32, v0: int, s2: u32, w: int, b1: byte, b2: byte, b3: byte)
    requires Agree(t0, v0) && Agree(s2, w)
    ensures Agree(Add(s2, Add(Add(Add(t0, Mul(3, SignExtend(b1))), Mul(2, SignExtend(b2))), SignExtend(b3))),
                  w + (v0 + 3 * Signed(b1) + 2 * Signed(b2) + Signed(b3)))
  {
    hide Add, Mul, SignExtend, Agree;
    AddWeighted(t0, v0, 3, b1);
    var t1, v1 := Add(t0, Mul(3, SignExtend(b1))), v0 + 3 * Signed(b1);
    AddWeighted(t1, v1, 2, b2);
    var t2, v2 := Add(t1, Mul(2, SignExtend(b2))), v1 + 2 * Signed(b2);
    AddWeighted(t2, v2, 1, b3);
    AddAgrees(s2, w, Add(t2, SignExtend(b3)), v2 + Signed(b3));
  }

  lemma FastFirst(s1: u32, p: int, b0: byte, b1: byte, b2: byte, b3: byte)
    requires Agree(s1, p)
    ensures Agree(Add(Add(Add(Add(s1, SignExtend(b0)), SignExtend(b1)), SignExtend(b2)), SignExtend(b3)),
                  p + Signed(b0) + Signed(b1) + Signed(b2) + Signed(b3))
  {
    hide Add, Mul, SignExtend, Agree;
    var t0 := Add(s1, SignExtend(b0));
    var t1 := Add(t0, SignExtend(b1));
    AddWeighted(s1, p, 1, b0);
    AddWeighted(t0, p + Signed(b0), 1, b1);
    AddWeighted(t1, p + Signed(b0) + Signed(b1), 1, b2);
    AddWeighted(Add(t1, SignExtend(b2)), p + Signed(b0) + Signed(b1) + Signed(b2), 1, b3);
  }

  /** The sums of a sequence grown by four bytes. */
  lemma FourMore(d: seq<byte>, b0: byte, b1: byte, b2: byte, b3: byte)
    ensures Plain(d + [b0] + [b1] + [b2] + [b3]) == Plain(d) + Signed(b0) + Signed(b1) + Signed(b2) + Signed(b3)
    ensures Weighted(d + [b0] + [b1] + [b2] + [b3])
         == Weighted(d) + (4 * (Plain(d) + Signed(b0)) + 3 * Signed(b1) + 2 * Signed(b2) + Signed(b3))
  {
    PlainAppend(d, b0);
    PlainAppend(d + [b0], b1);
    PlainAppend(d + [b0] + [b1], b2);
    PlainAppend(d + [b0] + [b1] + [b2], b3);
    WeightedAppend(d, b0);
    WeightedAppend(d + [b0], b1);
    WeightedAppend(d + [b0] + [b1], b2);
    WeightedAppend(d + [b0] + [b1] + [b2], b3);
  }

  lemma FastStep(d: seq<byte>, s1: u32, s2: u32, b0: byte, b1: byte, b2: byte, b3: byte)
    requires Agree(s1, Plain(d)) && Agree(s2, Weighted(d))
    ensures var e0, e1, e2, e3 := SignExtend(b0), SignExtend(b1), SignExtend(b2), SignExtend(b3);
            Agree(Add(s2, Add(Add(Add(Mul(4, Add(s1, e0)), Mul(3, e1)), Mul(2, e2)), e3)),
                  Weighted(d + [b0] + [b1] + [b2] + [b3]))
            && Agree(Add(Add(Add(Add(s1, e0), e1), e2), e3), Plain(d + [b0] + [b1] + [b2] + [b3]))
  {
    hide Add, Mul, SignExtend, Agree;
    FourMore(d, b0, b1, b2, b3);
    FastFirst(s1, Plain(d), b0, b1, b2, b3);
    FastSecond(s1, Plain(d), s2, Weighted(d), b0, b1, b2, b3);
  }

  lemma SlowStep(d: seq<byte>, s1: u32, s2: u32, b: byte)
    requires Agree(s1, Plain(d)) && Agree(s2, Weighted(d))
    ensures Agree(Add(s1, SignExtend(b)), Plain(d + [b]))
    ensures Agree(Add(s2, Add(s1, SignExtend(b))), Weighted(d + [b]))
  {
    PlainAppend(d, b);
    WeightedAppend(d, b);
    AddWeighted(s1, Plain(d), 1, b);
    AddAgrees(s2, Weighted(d), Add(s1, SignExtend(b)), Plain(d + [b]));
  }

  method Checksum1(data: seq<byte>) returns (sum: u32)
    ensures sum == WeakSum(data)
  {
    hide Add, Mul, SignExtend, Agree, Plain, Weighted;
    var len := |data|;
    var s1: u32, s2: u32 := 0, 0;
    Reflexive(0);
    NoSums();
    var i := 0;
    var fastEnd := if len < 4 then 0 else len - 4;
    while i < fastEnd
      invariant 0 <= i <= len
      invariant Agree(s1, Plain(data[..i])) && Agree(s2, Weighted(data[..i]))
    {
      var b0, b1 := SignExtend(data[i]), SignExtend(data[i + 1]);
      var b2, b3 := SignExtend(data[i + 2]), SignExtend(data[i + 3]);
      FastStep(data[..i], s1, s2, data[i], data[i + 1], data[i + 2], data[i + 3]);
      FourTaken(data, i);
      s2 := Add(s2, Add(Add(Add(Mul(4, Add(s1, b0)), Mul(3, b1)), Mul(2, b2)), b3));
      s1 := Add(Add(Add(Add(s1, b0), b1), b2), b3);
      i := i + 4;
    }
    while i < len
      invariant 0 <= i <= len
      invariant Agree(s1, Plain(data[..i])) && Agree(s2, Weighted(data[..i]))
    {
      SlowStep(data[..i], s1, s2, data[i]);
      assert data[..i] + [data[i]] == data[..i + 1];
      s1 := Add(s1, SignExtend(data[i]));
      s2 := Add(s2, s1);
      i := i + 1;
    }
    assert data[..i] == data;
    PackAgree(s1, Plain(data), s2, Weighted(data));
    sum := Pack(s1, s2);
  }

  lemma NoSums()
    ensures Plain([]) == 0 && Weighted([]) == 0
  {
  }

  lemma FourTaken(data: seq<byte>, i: nat)
    requires i + 4 <= |data|
    ensures data[..i] + [data[i]] + [data[i + 1]] + [data[i + 2]] + [data[i + 3]] == data[..i + 4]
  {
  }

  // ---- the sliding window ----

  /** Removing the first byte and appending another, on the two sums. */
  lemma SlideSums(d: seq<byte>, b: byte)
    requires d != []
    ensures Plain(d[1..] + [b]) == Plain(d) - Signed(d[0]) + Signed(b)
    ensures Weighted(d[1..] + [b]) == Weighted(d) - |d| * Signed(d[0]) + Plain(d[1..] + [b])
  {
    PlainAppend(d[1..], b);
    WeightedAppend(d[1..], b);
  }

  lemma SlideAgrees(s1: u32, p: int, s2: u32, w: int, k: u32, n: int, b: byte, b': byte)
    requires Agree(s1, p) && Agree(s2, w) && Agree(k, n)
    ensures var t := Add(Sub(s1, SignExtend(b)), SignExtend(b'));
            Agree(t, p - Signed(b) + Signed(b'))
            && Agree(Add(Sub(s2, Mul(k, SignExtend(b))), t), w - n * Signed(b) + (p - Signed(b) + Signed(b')))
  {
    SignAgrees(b);
    SignAgrees(b');
    MulAgrees(k, n, SignExtend(b), Signed(b));
    AddAgrees(s1, p, SignExtend(b), Signed(b));
    AddAgrees(Sub(s1, SignExtend(b)), p - Signed(b), SignExtend(b'), Signed(b'));
    AddAgrees(s2, w, Mul(k, SignExtend(b)), n * Signed(b));
    AddAgrees(Sub(s2, Mul(k, SignExtend(b))), w - n * Signed(b),
              Add(Sub(s1, SignExtend(b)), SignExtend(b')), p - Signed(b) + Signed(b'));
  }

  class RollingChecksum {
    var s1: u32
    var s2: u32
    var count: u32
    ghost var window: seq<byte>  // the bytes currently summed

    /** The accumulators may differ from the sums of the window above bit 16, never below it. */
    ghost predicate Valid()
      reads this
    {
      Agree(s1, Plain(window)) && Agree(s2, Weighted(window)) && Agree(count, |window|)
    }

    constructor ()
      ensures Valid() && window == []
    {
      Reflexive(0);
      s1, s2, count := 0, 0, 0;
      window := [];
    }

    method Init(data: seq<byte>)
      modifies this
      ensures Valid() && window == data
    {
      var sum := Checksum1(data);
      UnpackAgrees(Plain(data), Weighted(data));
      Reflexive(|data|);
      WrapAgrees(|data|, |data|);
      s1 := sum % 0x1_0000;
      s2 := sum / 0x1_0000;
      count := AsU32(|data|);
      window := data;
    }

    /** Slide the window: `oldByte` leaves at the front, `newByte` enters at the back. */
    method Roll(oldByte: byte, newByte: byte)
      requires Valid() && window != [] && window[0] == oldByte
      modifies this
      ensures Valid() && window == old(window)[1..] + [newByte]
    {
      var leaving, entering := SignExtend(oldByte), SignExtend(newByte);
      SlideSums(window, newByte);
      SlideAgrees(s1, Plain(window), s2, Weighted(window), count, |window|, oldByte, newByte);
      s1 := Sub(s1, leaving);
      s2 := Sub(s2, Mul(count, leaving));
      s1 := Add(s1, entering);
      s2 := Add(s2, s1);
      window := window[1..] + [newByte];
    }

    /** The packed checksum is that of the window, however it was reached. */
    function Value(): (v: u32)
      requires Valid()
      reads this
      ensures v == WeakSum(window)
    {
      PackAgree(s1, Plain(window), s2, Weighted(window));
      Pack(s1, s2)
    }
  }

  /** The `& 0xffff` mask. */
  function Low16(x: int): int { x % 0x1_0000 }

  /** The checksum byte by byte: of nothing it is zero, and one more byte is added, as a signed number, to both halves,
      the high half taking the low one along. */
  lemma WeakSumStep(d: seq<byte>, b: byte, low: int, high: int)
    requires 0 <= low < 0x1_0000 && WeakSum(d) == low + 0x1_0000 * high
    ensures WeakSum([]) == 0
    ensures b < 128 ==> WeakSum(d + [b]) == Low16(low + b) + 0x1_0000 * Low16(high + low + b)
    ensures b >= 128 ==> WeakSum(d + [b]) == Low16(low + b - 256) + 0x1_0000 * Low16(high + low + b - 256)
  {
    hide Plain, Weighted, WeakSum, Pack, Low16;
    PlainAppend(d, b);
    WeightedAppend(d, b);
    NoSum();
    Packed(d);
    Packed(d + [b]);
    Low16Bounds(Plain(d));
    SameHalves(low, high, Low16(Plain(d)), Low16(Weighted(d)));
    Low16Add(Plain(d), Signed(b));
    Low16Add(Plain(d), Signed(b) + high);
    Low16Add(Weighted(d), Plain(d) + Signed(b));
  }

  lemma Packed(d: seq<byte>)
    ensures WeakSum(d) == Low16(Plain(d)) + 0x1_0000 * Low16(Weighted(d))
  {
    hide Plain, Weighted;
  }

  lemma NoSum()
    ensures WeakSum([]) == 0
  {
    NoSums();
  }

  lemma SameHalves(x1: int, x2: int, y1: int, y2: int)
    requires 0 <= x1 < 0x1_0000 && 0 <= y1 < 0x1_0000 && x1 + 0x1_0000 * x2 == y1 + 0x1_0000 * y2
    ensures x1 == y1 && x2 == y2
  {
  }

  lemma Low16Bounds(x: int)
    ensures 0 <= Low16(x) < 0x1_0000
  {
  }

  lemma Low16Add(x: int, y: int)
    ensures Low16(Low16(x) + y) == Low16(x + y)
  {
  }
}
