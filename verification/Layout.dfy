/** How a file is cut into blocks (util.rs, and the block bounds that every stage recomputes). */
module Layout {
  import opened Bytes

  const BLOCK_SIZE := 700
  const MAX_BLOCK_SIZE := 0x2_0000

  datatype SumHead = SumHead(count: i32, blength: i32, s2length: i32, remainder: i32)

  function BlockLenForFile(size: nat): i32 {
    var blength := if BLOCK_SIZE >= size / 10000 then BLOCK_SIZE else size / 10000;
    if blength <= MAX_BLOCK_SIZE then blength else MAX_BLOCK_SIZE
  }

  function SumCountForFile(size: int, blength: i32): i32 {
    if blength <= 0 || size <= 0 then 0 else AsI32((size + blength - 1) / blength)
  }

  function RemainderForFile(size: int, blength: i32): i32 {
    if blength <= 0 || size <= 0 then 0 else
      assert 0 <= size % blength < blength;
      size % blength
  }

  /** The header for an existing basis file. */
  function MakeSumHead(size: nat, s2length: i32): SumHead {
    var blength := BlockLenForFile(size);
    SumHead(SumCountForFile(size, blength), blength, s2length, RemainderForFile(size, blength))
  }

  /** The header for a missing basis file. */
  function NoBasisHead(s2length: i32): SumHead { SumHead(0, 0, s2length, 0) }

  /** The length of block i as every stage computes it. */
  function BlockLenAt(head: SumHead, i: nat): i32 {
    if i == head.count - 1 && head.remainder != 0 then head.remainder else head.blength
  }

  /** The header cuts `size` bytes into `count` non-empty consecutive blocks with nothing left over. */
  predicate Describes(head: SumHead, size: nat) {
    && head.count >= 0 && head.blength >= 0 && 0 <= head.remainder <= head.blength
    && (head.count == 0 ==> size == 0)
    && (head.count > 0 ==>
          && head.blength > 0
          && (head.count - 1) * head.blength + BlockLenAt(head, head.count - 1) == size)
  }

  /** The bytes of block i. */
  function Block(data: seq<byte>, head: SumHead, i: nat): (b: seq<byte>)
    requires Describes(head, |data|) && i < head.count
    ensures |b| == BlockLenAt(head, i)
  {
    BlockBounds(head, |data|, i);
    data[i * head.blength..i * head.blength + BlockLenAt(head, i)]
  }

  lemma BlockBounds(head: SumHead, size: nat, i: nat)
    requires Describes(head, size) && i < head.count
    ensures 0 <= i * head.blength
    ensures i * head.blength + BlockLenAt(head, i) <= size
    ensures i < head.count - 1 ==> BlockLenAt(head, i) == head.blength
  {
    var b := head.blength;
    MulMono(0, i, b);
    if i < head.count - 1 {
      MulMono(i + 1, head.count - 1, b);
      assert (i + 1) * b == i * b + b;
    } else {
      assert i * b == (head.count - 1) * b;
    }
  }

  /** The block count survives its cast to 32 bits exactly for files up to (2^31 - 1) * 2^17 bytes,
      and exactly then the header describes the file. */
  lemma HeadDescribesFile(size: nat, s2length: i32)
    ensures Describes(MakeSumHead(size, s2length), size) <==> size <= 0x7fff_ffff * MAX_BLOCK_SIZE
  {
    var b := BlockLenForFile(size);
    var n := (size + b - 1) / b;
    var h := MakeSumHead(size, s2length);
    if size > 0 {
      CeilingBounds(size, b);
      if size <= 0x7fff_ffff * MAX_BLOCK_SIZE {
        assert n < 0x8000_0000 by {
          if size <= 10000 * MAX_BLOCK_SIZE {
            assert n <= (10000 * MAX_BLOCK_SIZE + MAX_BLOCK_SIZE) / 700 by { CeilingMonotone(size, b); }
          }
        }
        assert h.count == n;
      } else {
        assert b == MAX_BLOCK_SIZE;
        assert n >= 0x8000_0000;
      }
    }
  }

  /** The length of a block for every size of file: 700 bytes, then a ten-thousandth of the file, at most 128 KiB. */
  lemma HeadBlockLength(size: nat, s2length: i32)
    ensures var b := MakeSumHead(size, s2length).blength;
            && (size < 7_010_000 ==> b == 700)
            && (7_010_000 <= size < 1_310_720_000 ==> 10_000 * b <= size < 10_000 * (b + 1))
            && (1_310_720_000 <= size ==> b == 131_072)
    ensures MakeSumHead(size, s2length).s2length == s2length
  {
    var q := size / 10_000;
    assert 10_000 * q <= size < 10_000 * (q + 1);
  }

  /** Below 1,310,720,000 bytes a file has at most 10015 blocks; number and remainder are those of a division. */
  lemma HeadBlockCount(size: nat, s2length: i32)
    requires size <= 0x7fff_ffff * 131_072
    ensures var h := MakeSumHead(size, s2length);
            && (h.count - 1) * h.blength < size <= h.count * h.blength
            && h.blength > 0 && h.remainder == size % h.blength
    ensures size < 1_310_720_000 ==> MakeSumHead(size, s2length).count <= 10_015
  {
    var h := MakeSumHead(size, s2length);
    RemainderIs(size, s2length);
    HeadDescribesFile(size, s2length);
    HeadBlockLength(size, s2length);
    hide MakeSumHead;
    MulSucc(h.count - 1, h.blength);
    if size < 1_310_720_000 && h.count > 10_015 {
      MulMono(10_015, h.count - 1, h.blength);
    }
  }

  lemma RemainderIs(size: nat, s2length: i32)
    ensures var h := MakeSumHead(size, s2length); h.blength > 0 && h.remainder == size % h.blength
  {
  }

  lemma CeilingMonotone(size: nat, b: nat)
    requires 700 <= b <= MAX_BLOCK_SIZE && size <= 10000 * MAX_BLOCK_SIZE
    ensures (size + b - 1) / b <= (10000 * MAX_BLOCK_SIZE + MAX_BLOCK_SIZE) / 700
  {
    var n := (size + b - 1) / b;
    MulMono(700, b, n);
    assert 700 * n <= b * n;
    assert size + b - 1 == b * n + (size + b - 1) % b;
  }

  /** The ceiling division and the remainder fit together. */
  lemma CeilingBounds(size: nat, b: nat)
    requires size > 0 && b > 0
    ensures var n := (size + b - 1) / b;
            n > 0 && (n - 1) * b + (if size % b == 0 then b else size % b) == size
  {
    var q, r := size / b, size % b;
    assert size == q * b + r;
    CeilingIs(size, b, q, r);
    MulSucc(q - 1, b);
    if q == 0 {
      assert r == size;
    }
  }

  lemma CeilingIs(size: nat, b: nat, q: nat, r: nat)
    requires size > 0 && b > 0 && size == q * b + r && r < b
    ensures (size + b - 1) / b == if r == 0 then q else q + 1
  {
    MulSucc(q, b);
    if r == 0 {
      QuotientUnique(size + b - 1, b, q, b - 1);
    } else {
      QuotientUnique(size + b - 1, b, q + 1, r - 1);
    }
  }

  lemma MulSucc(x: int, b: nat)
    ensures (x + 1) * b == x * b + b
  {
  }

  lemma QuotientUnique(n: nat, b: nat, q: nat, r: nat)
    requires b > 0 && r < b && n == q * b + r
    ensures n / b == q && n % b == r
  {
    var p := n / b;
    assert n == p * b + n % b;
    MulSucc(p, b);
    MulSucc(q, b);
    MulMono(p + 1, q, b);
    MulMono(q + 1, p, b);
  }

  lemma MulMono(x: int, y: int, b: nat)
    ensures x <= y ==> x * b <= y * b
  {
  }
}
