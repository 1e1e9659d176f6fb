/** What the sliding-window search promises: its result is the one greedy tiling of the source. */
module Greedy {
  import opened Bytes
  import opened Layout
  import opened Rolling
  import opened MatchBlocks

  /** The window at p starts a full block that some basis block agrees with. */
  function HitAt(data: seq<byte>, head: SumHead, sums: seq<SumBuf>, strong: Strong, p: nat): Option<nat>
    requires 0 <= head.s2length <= 16 && 0 <= head.blength && p + head.blength <= |data|
  {
    FirstHit(data[p..p + head.blength], sums, 0, head.s2length, strong)
  }

  /** No window starting in [from, to) that fits in the source is a hit. */
  ghost predicate Quiet(data: seq<byte>, head: SumHead, sums: seq<SumBuf>, strong: Strong, from: nat, to: nat)
    requires 0 <= head.s2length <= 16 && 0 <= head.blength
  {
    forall p :: from <= p < to && p + head.blength <= |data| ==> HitAt(data, head, sums, strong, p).None?
  }

  /** `ops` covers the source from `from` to its end, in order, without gap or overlap: a match is the first
      agreeing block, a literal runs up to the next match or the end, and no window inside it has a match. */
  ghost predicate IsGreedy(ops: seq<DeltaOp>, data: seq<byte>, head: SumHead, sums: seq<SumBuf>, strong: Strong,
                           from: nat)
    requires 0 <= head.s2length <= 16 && 0 < head.blength
  {
    if ops == [] then from == |data|
    else match ops[0]
      case Literal(offset, len) =>
        && offset == from && len > 0 && from + len <= |data|
        && Quiet(data, head, sums, strong, from, from + len)
        && (|ops| > 1 ==> ops[1].Match?)
        && IsGreedy(ops[1..], data, head, sums, strong, from + len)
      case Match(blockIdx, offset) =>
        && offset == from && from + head.blength <= |data|
        && HitAt(data, head, sums, strong, from) == Some(blockIdx)
        && IsGreedy(ops[1..], data, head, sums, strong, from + head.blength)
  }

  lemma MatchFirst(rest: seq<DeltaOp>, k: nat, data: seq<byte>, head: SumHead, sums: seq<SumBuf>, strong: Strong,
                   offset: nat, last: nat)
    requires 0 <= head.s2length <= 16 && 0 < head.blength
    requires last <= offset && offset + head.blength <= |data| && offset - last < 0x1_0000_0000
    requires Quiet(data, head, sums, strong, last, offset) && HitAt(data, head, sums, strong, offset) == Some(k)
    requires IsGreedy(rest, data, head, sums, strong, offset + head.blength)
    ensures IsGreedy(Pending(last, offset) + [Match(k, offset)] + rest, data, head, sums, strong, last)
  {
    hide HitAt, IsGreedy, Quiet;
    var tail := [Match(k, offset)] + rest;
    GreedyMatch(rest, k, data, head, sums, strong, offset);
    if last < offset {
      assert AsU32(offset - last) == offset - last by { FitsU32(offset - last); }
      GreedyLiteral(tail, data, head, sums, strong, last, offset);
      assert Pending(last, offset) + [Match(k, offset)] + rest == [Literal(last, offset - last)] + tail;
    } else {
      assert Pending(last, offset) + [Match(k, offset)] + rest == tail;
    }
  }

  lemma FitsU32(n: nat)
    requires n < 0x1_0000_0000
    ensures AsU32(n) == n
  {
  }

  lemma GreedyMatch(rest: seq<DeltaOp>, k: nat, data: seq<byte>, head: SumHead, sums: seq<SumBuf>, strong: Strong,
                    offset: nat)
    requires 0 <= head.s2length <= 16 && 0 < head.blength && offset + head.blength <= |data|
    requires HitAt(data, head, sums, strong, offset) == Some(k)
    requires IsGreedy(rest, data, head, sums, strong, offset + head.blength)
    ensures IsGreedy([Match(k, offset)] + rest, data, head, sums, strong, offset)
  {
    hide HitAt;
    assert ([Match(k, offset)] + rest)[1..] == rest;
  }

  lemma GreedyLiteral(tail: seq<DeltaOp>, data: seq<byte>, head: SumHead, sums: seq<SumBuf>, strong: Strong, last: nat,
                      offset: nat)
    requires 0 <= head.s2length <= 16 && 0 < head.blength && last < offset <= |data| && offset - last < 0x1_0000_0000
    requires Quiet(data, head, sums, strong, last, offset) && tail != [] && tail[0].Match?
    requires IsGreedy(tail, data, head, sums, strong, offset)
    ensures IsGreedy([Literal(last, offset - last)] + tail, data, head, sums, strong, last)
  {
    hide HitAt, Quiet;
    var ops := [Literal(last, offset - last)] + tail;
    assert ops[1..] == tail && ops[1] == tail[0];
  }

  lemma TailOnly(data: seq<byte>, head: SumHead, sums: seq<SumBuf>, strong: Strong, last: nat)
    requires 0 <= head.s2length <= 16 && 0 < head.blength && last <= |data| && |data| - last < 0x1_0000_0000
    requires Quiet(data, head, sums, strong, last, |data|)
    ensures IsGreedy(Pending(last, |data|), data, head, sums, strong, last)
  {
    hide FirstHit;
  }

  /** Along the search from `offset`, with the bytes from `last` not yet covered, no run of literal bytes reaches 2^32,
      where its 32-bit length would be cut. */
  ghost predicate RunsFit(data: seq<byte>, head: SumHead, sums: seq<SumBuf>, strong: Strong, offset: nat, last: nat)
    requires 0 <= head.s2length <= 16 && 0 < head.blength && last <= offset
    decreases |data| - offset
  {
    var b := head.blength;
    if offset + b > |data| then |data| - last < 0x1_0000_0000
    else if HitAt(data, head, sums, strong, offset).Some? then
      offset - last < 0x1_0000_0000 && RunsFit(data, head, sums, strong, offset + b, offset + b)
    else RunsFit(data, head, sums, strong, offset + 1, last)
  }

  lemma {:induction false} SmallRunsFit(data: seq<byte>, head: SumHead, sums: seq<SumBuf>, strong: Strong, offset: nat,
                                        last: nat)
    requires 0 <= head.s2length <= 16 && 0 < head.blength && last <= offset && |data| < 0x1_0000_0000
    ensures RunsFit(data, head, sums, strong, offset, last)
    decreases |data| - offset
  {
    hide HitAt;
    var b := head.blength;
    if offset + b <= |data| {
      SmallRunsFit(data, head, sums, strong, offset + b, offset + b);
      SmallRunsFit(data, head, sums, strong, offset + 1, last);
    }
  }

  lemma {:induction false} ScanIsGreedy(data: seq<byte>, head: SumHead, sums: seq<SumBuf>, strong: Strong, offset: nat,
                                        last: nat)
    requires 0 <= head.s2length <= 16 && 0 < head.blength
    requires last <= offset && last <= |data| && RunsFit(data, head, sums, strong, offset, last)
    requires Quiet(data, head, sums, strong, last, offset)
    ensures IsGreedy(Scan(data, sums, head.blength, head.s2length, strong, offset, last), data, head, sums, strong,
            last)
    decreases |data| - offset
  {
    hide FirstHit, IsGreedy, Pending;
    var b := head.blength;
    if offset + b > |data| {
      TailOnly(data, head, sums, strong, last);
    } else {
      var hit := HitAt(data, head, sums, strong, offset);
      if hit.Some? {
        ScanIsGreedy(data, head, sums, strong, offset + b, offset + b);
        MatchFirst(Scan(data, sums, b, head.s2length, strong, offset + b, offset + b), hit.value,
                   data, head, sums, strong, offset, last);
      } else {
        ScanIsGreedy(data, head, sums, strong, offset + 1, last);
      }
    }
  }

  /** Where a greedy tiling goes on behind quiet windows: at the first hit, or nowhere. */
  lemma NextHit(ops: seq<DeltaOp>, data: seq<byte>, head: SumHead, sums: seq<SumBuf>, strong: Strong, offset: nat,
                last: nat)
      returns (rest: seq<DeltaOp>)
    requires 0 <= head.s2length <= 16 && 0 < head.blength && last <= offset
    requires IsGreedy(ops, data, head, sums, strong, last) && Quiet(data, head, sums, strong, last, offset)
    requires offset + head.blength <= |data| && HitAt(data, head, sums, strong, offset).Some?
    ensures offset - last < 0x1_0000_0000 && IsGreedy(rest, data, head, sums, strong, offset + head.blength)
  {
    hide HitAt;
    if ops[0].Literal? {
      assert ops[1].Match? && ops[1].offset == offset;
      rest := ops[1..][1..];
    } else {
      rest := ops[1..];
    }
  }

  /** Only a source whose runs fit has a greedy tiling at all. */
  lemma {:induction false} GreedyRunsFit(ops: seq<DeltaOp>, data: seq<byte>, head: SumHead, sums: seq<SumBuf>,
                                         strong: Strong, offset: nat, last: nat)
    requires 0 <= head.s2length <= 16 && 0 < head.blength && last <= offset
    requires IsGreedy(ops, data, head, sums, strong, last) && Quiet(data, head, sums, strong, last, offset)
    ensures RunsFit(data, head, sums, strong, offset, last)
    decreases |data| - offset
  {
    hide HitAt, IsGreedy;
    var b := head.blength;
    if offset + b > |data| {
      LastRun(ops, data, head, sums, strong, offset, last);
    } else if HitAt(data, head, sums, strong, offset).Some? {
      var rest := NextHit(ops, data, head, sums, strong, offset, last);
      GreedyRunsFit(rest, data, head, sums, strong, offset + b, offset + b);
    } else {
      GreedyRunsFit(ops, data, head, sums, strong, offset + 1, last);
    }
  }

  lemma LastRun(ops: seq<DeltaOp>, data: seq<byte>, head: SumHead, sums: seq<SumBuf>, strong: Strong, offset: nat,
                last: nat)
    requires 0 <= head.s2length <= 16 && 0 < head.blength && last <= offset
    requires IsGreedy(ops, data, head, sums, strong, last) && Quiet(data, head, sums, strong, last, offset)
    requires offset + head.blength > |data|
    ensures |data| - last < 0x1_0000_0000
  {
    hide HitAt;
  }

  /** There is only one greedy tiling. */
  lemma {:induction false} GreedyUnique(ops: seq<DeltaOp>, ops': seq<DeltaOp>, data: seq<byte>, head: SumHead,
                                        sums: seq<SumBuf>, strong: Strong, from: nat)
    requires 0 <= head.s2length <= 16 && 0 < head.blength
    requires IsGreedy(ops, data, head, sums, strong, from) && IsGreedy(ops', data, head, sums, strong, from)
    ensures ops == ops'
  {
    hide FirstHit;
    if ops != [] && ops' != [] {
      SameHead(ops, ops', data, head, sums, strong, from);
      SameHead(ops', ops, data, head, sums, strong, from);
      var step := if ops[0].Literal? then ops[0].len else head.blength;
      GreedyUnique(ops[1..], ops'[1..], data, head, sums, strong, from + step);
      assert ops == [ops[0]] + ops[1..] && ops' == [ops'[0]] + ops'[1..];
    }
  }

  lemma SameHead(ops: seq<DeltaOp>, ops': seq<DeltaOp>, data: seq<byte>, head: SumHead, sums: seq<SumBuf>,
                 strong: Strong, from: nat)
    requires 0 <= head.s2length <= 16 && 0 < head.blength && ops != [] && ops' != []
    requires IsGreedy(ops, data, head, sums, strong, from) && IsGreedy(ops', data, head, sums, strong, from)
    ensures ops[0].Match? ==> ops'[0] == ops[0]
    ensures ops[0].Literal? && ops'[0].Literal? ==> ops'[0].len <= ops[0].len
  {
    hide FirstHit;
  }

  /** For every source: the greedy tiling is what the search computes, and it exists exactly when no run of literal
      bytes reaches 2^32, as below 4 GiB none can. */
  lemma DeltaIsTheGreedyTiling(ops: seq<DeltaOp>, data: seq<byte>, head: SumHead, sums: seq<SumBuf>, strong: Strong)
    requires 0 <= head.s2length <= 16 && 0 < head.blength
    ensures IsGreedy(ops, data, head, sums, strong, 0)
            <==> ops == Delta(data, head, sums, strong) && RunsFit(data, head, sums, strong, 0, 0)
    ensures |data| < 0x1_0000_0000 ==> RunsFit(data, head, sums, strong, 0, 0)
  {
    hide HitAt, IsGreedy, Scan, RunsFit;
    if |data| < 0x1_0000_0000 {
      SmallRunsFit(data, head, sums, strong, 0, 0);
    }
    if RunsFit(data, head, sums, strong, 0, 0) {
      ScanIsGreedy(data, head, sums, strong, 0, 0);
    }
    if IsGreedy(ops, data, head, sums, strong, 0) {
      GreedyRunsFit(ops, data, head, sums, strong, 0, 0);
      GreedyUnique(ops, Delta(data, head, sums, strong), data, head, sums, strong, 0);
    }
  }

  // ---- an unchanged file ----

  /** The delta of an unchanged file from byte i * blength on: one match per remaining full block, then the
      bytes that do not fill a block. */
  ghost predicate AllMatched(ops: seq<DeltaOp>, size: nat, b: nat, from: nat)
    requires b > 0
  {
    if from + b <= size then
      ops != [] && ops[0].Match? && ops[0].offset == from && AllMatched(ops[1..], size, b, from + b)
    else
      ops == (if from < size then [Literal(from, AsU32(size - from))] else [])
  }

  lemma AlignedBlockIsFull(head: SumHead, size: nat, k: nat)
    requires Describes(head, size) && 0 < head.blength && k * head.blength + head.blength <= size
    ensures k < head.count && BlockLenAt(head, k) == head.blength
  {
    var b := head.blength;
    assert k * b + b == (k + 1) * b;
    MulMono(head.count, k, b);
    if k == head.count - 1 {
      assert (head.count - 1) * b == k * b;
    }
  }

  lemma UnchangedBlockHits(data: seq<byte>, head: SumHead, sums: seq<SumBuf>, strong: Strong, k: nat)
    requires Summarises(sums, data, head, strong) && 0 < head.blength && k * head.blength + head.blength <= |data|
    ensures HitAt(data, head, sums, strong, k * head.blength).Some?
  {
    hide WeakSum;
    AlignedBlockIsFull(head, |data|, k);
    assert sums[k] == SumBufOf(data, head, strong, k);
    assert Hit(data[k * head.blength..k * head.blength + head.blength], sums[k], head.s2length, strong);
  }

  lemma {:induction false} UnchangedScan(data: seq<byte>, head: SumHead, sums: seq<SumBuf>, strong: Strong, k: nat)
    requires Summarises(sums, data, head, strong) && 0 < head.blength
    requires k * head.blength <= |data|
    ensures AllMatched(Scan(data, sums, head.blength, head.s2length, strong, k * head.blength, k * head.blength),
                       |data|, head.blength, k * head.blength)
    decreases |data| - k * head.blength
  {
    hide WeakSum, FirstHit, Hit, Block, BlockLenAt, SumBufOf;
    var b := head.blength;
    if k * b + b <= |data| {
      UnchangedBlockHits(data, head, sums, strong, k);
      assert k * b + b == (k + 1) * b;
      UnchangedScan(data, head, sums, strong, k + 1);
      ScanStep(data, sums, b, head.s2length, strong, k * b, k * b, []);
      var hit := HitAt(data, head, sums, strong, k * b);
      var rest := Scan(data, sums, b, head.s2length, strong, k * b + b, k * b + b);
      assert ([Match(hit.value, k * b)] + rest)[1..] == rest;
      assert Pending(k * b, k * b) + [Match(hit.value, k * b)] + rest == [Match(hit.value, k * b)] + rest;
    }
  }

  /** Sending a file to a receiver that already has it sends no full block, whatever the checksums do. */
  lemma UnchangedFileIsAllMatches(data: seq<byte>, head: SumHead, sums: seq<SumBuf>, strong: Strong)
    requires Summarises(sums, data, head, strong) && 0 < head.blength
    ensures AllMatched(Delta(data, head, sums, strong), |data|, head.blength, 0)
    ensures |Delta(data, head, sums, strong)| == |data| / head.blength + (if |data| % head.blength == 0 then 0 else 1)
  {
    UnchangedScan(data, head, sums, strong, 0);
    CountMatches(Delta(data, head, sums, strong), |data|, head.blength, 0);
  }

  lemma OneMoreBlock(n: nat, b: nat)
    requires 0 < b <= n
    ensures n / b == (n - b) / b + 1 && n % b == (n - b) % b
  {
    var q, r := (n - b) / b, (n - b) % b;
    assert (q + 1) * b == q * b + b;
    QuotientUnique(n, b, q + 1, r);
  }

  lemma {:induction false} CountMatches(ops: seq<DeltaOp>, size: nat, b: nat, from: nat)
    requires b > 0 && from <= size && AllMatched(ops, size, b, from)
    ensures |ops| == (size - from) / b + (if (size - from) % b == 0 then 0 else 1)
    decreases size - from
  {
    var left := size - from;
    if left >= b {
      CountMatches(ops[1..], size, b, from + b);
      OneMoreBlock(left, b);
    } else {
      QuotientUnique(left, b, 0, left);
    }
  }
}
