/** Block checksums and the sliding-window search (delta/match_blocks.rs, compute_sum_bufs). */
module MatchBlocks {
  import opened Bytes
  import opened Layout
  import opened Rolling

  type Digest = d: seq<byte> | |d| == 16 witness seq(16, i => 0)

  /** The strong checksum (MD5 of a block and the session seed), taken as an arbitrary function. */
  type Strong = seq<byte> -> Digest

  datatype SumBuf = SumBuf(offset: nat, len: i32, sum1: u32, sum2: seq<byte>)

  datatype DeltaOp =
    | Literal(offset: nat, len: u32)
    | Match(blockIdx: nat, offset: nat)

  function Min(x: nat, y: nat): nat { if x <= y then x else y }

  // ---- block checksums ----

  /** The entry describing block i of `data`. */
  function SumBufOf(data: seq<byte>, head: SumHead, strong: Strong, i: nat): SumBuf
    requires Describes(head, |data|) && i < head.count && 0 <= head.s2length <= 16
  {
    BlockBounds(head, |data|, i);
    var block := Block(data, head, i);
    SumBuf(i * head.blength, BlockLenAt(head, i), WeakSum(block), strong(block)[..head.s2length])
  }

  /** `sums` describes `data` block by block. */
  ghost predicate Summarises(sums: seq<SumBuf>, data: seq<byte>, head: SumHead, strong: Strong) {
    && Describes(head, |data|) && 0 <= head.s2length <= 16
    && |sums| == head.count
    && forall i :: 0 <= i < |sums| ==> sums[i] == SumBufOf(data, head, strong, i)
  }

  method ComputeSumBufs(data: seq<byte>, head: SumHead, strong: Strong) returns (sums: seq<SumBuf>)
    requires Describes(head, |data|) && 0 <= head.s2length <= 16
    ensures Summarises(sums, data, head, strong)
  {
    hide WeakSum;
    sums := [];
    if head.count == 0 || head.blength == 0 {
      return;
    }
    for i := 0 to head.count
      invariant |sums| == i
      invariant forall k :: 0 <= k < i ==> sums[k] == SumBufOf(data, head, strong, k)
    {
      var isLast := i == head.count - 1;
      var blockLen := if isLast && head.remainder != 0 then head.remainder else head.blength;
      var offset := i * head.blength;
      BlockBounds(head, |data|, i);
      var end := Min(offset + blockLen, |data|);
      var block := data[offset..end];
      var sum1 := Checksum1(block);
      var sum2 := strong(block);
      sums := sums + [SumBuf(offset, blockLen, sum1, sum2[..Min(head.s2length, |sum2|)])];
    }
  }

  // ---- the hash table ----

  datatype BlockHashTable = BlockHashTable(table: map<u32, seq<nat>>, sums: seq<SumBuf>) {
    /** All candidates for a weak checksum, none when it is not in the table. */
    function FindRolling(w: u32): seq<nat> { if w in table then table[w] else [] }
  }

  /** The indices below n whose weak checksum is w, in increasing order. */
  function Candidates(sums: seq<SumBuf>, n: nat, w: u32): (c: seq<nat>)
    requires n <= |sums|
  {
    if n == 0 then []
    else if sums[n - 1].sum1 == w then Candidates(sums, n - 1, w) + [n - 1]
    else Candidates(sums, n - 1, w)
  }

  ghost predicate TableFor(t: BlockHashTable, sums: seq<SumBuf>, n: nat)
    requires n <= |sums|
  {
    && t.sums == sums
    && forall w: u32 :: t.FindRolling(w) == Candidates(sums, n, w)
  }

  method BuildTable(sums: seq<SumBuf>) returns (t: BlockHashTable)
    ensures TableFor(t, sums, |sums|)
  {
    var table: map<u32, seq<nat>> := map[];
    for idx := 0 to |sums|
      invariant TableFor(BlockHashTable(table, sums), sums, idx)
    {
      var w := sums[idx].sum1;
      table := table[w := BlockHashTable(table, sums).FindRolling(w) + [idx]];
    }
    t := BlockHashTable(table, sums);
  }

  // ---- when a window matches a block ----

  /** The strong comparison on a candidate, skipped when no strong checksum is asked for. */
  predicate StrongAgrees(window: seq<byte>, s: SumBuf, strongLen: nat, strong: Strong)
    requires strongLen <= 16
  {
    strongLen > 0 ==>
      var cmp := Min(strongLen, |s.sum2|);
      strong(window)[..cmp] == s.sum2[..cmp]
  }

  /** A block of the window's length whose weak and strong checksums are those of the window. */
  predicate Hit(window: seq<byte>, s: SumBuf, strongLen: nat, strong: Strong)
    requires strongLen <= 16
  {
    s.sum1 == WeakSum(window) && s.len == |window| && StrongAgrees(window, s, strongLen, strong)
  }

  /** The first block that the window hits. */
  function FirstHit(window: seq<byte>, sums: seq<SumBuf>, from: nat, strongLen: nat, strong: Strong): (r: Option<nat>)
    requires from <= |sums| && strongLen <= 16
    ensures r.Some? ==> from <= r.value < |sums| && Hit(window, sums[r.value], strongLen, strong)
    ensures forall k :: from <= k < (if r.Some? then r.value else |sums|) ==> !Hit(window, sums[k], strongLen, strong)
    decreases |sums| - from
  {
    if from == |sums| then None
    else if Hit(window, sums[from], strongLen, strong) then Some(from)
    else FirstHit(window, sums, from + 1, strongLen, strong)
  }

  lemma {:induction false} CandidatesExact(sums: seq<SumBuf>, n: nat, w: u32)
    requires n <= |sums|
    ensures var c := Candidates(sums, n, w);
            && (forall j :: 0 <= j < |c| ==> c[j] < n && sums[c[j]].sum1 == w)
            && (forall j, k :: 0 <= j < k < |c| ==> c[j] < c[k])
            && (forall k :: 0 <= k < n && sums[k].sum1 == w ==> k in c)
  {
    if n > 0 {
      CandidatesExact(sums, n - 1, w);
    }
  }

  /** The candidate list is searched in order, so the hit found is the first of all blocks. */
  method FindHit(t: BlockHashTable, sum: u32, window: seq<byte>, strongLen: nat, strong: Strong)
      returns (r: Option<nat>)
    requires TableFor(t, t.sums, |t.sums|) && strongLen <= 16
    requires sum == WeakSum(window)
    ensures r == FirstHit(window, t.sums, 0, strongLen, strong)
  {
    hide WeakSum;
    var candidates := t.FindRolling(sum);
    assert candidates == Candidates(t.sums, |t.sums|, sum);
    CandidatesExact(t.sums, |t.sums|, sum);
    var digest := strong(window);
    for j := 0 to |candidates|
      invariant forall k :: 0 <= k < j ==> !Hit(window, t.sums[candidates[k]], strongLen, strong)
    {
      var idx := candidates[j];
      var s := t.sums[idx];
      if s.len == |window| {
        var cmp := Min(strongLen, |s.sum2|);
        if strongLen == 0 || digest[..cmp] == s.sum2[..cmp] {
          return Some(idx);
        }
      }
    }
    return None;
  }

  // ---- the search ----

  /** The pending bytes from `last` up to `offset`, as a literal. */
  function Pending(last: nat, offset: nat): seq<DeltaOp>
    requires last <= offset
  {
    if last < offset then [Literal(last, AsU32(offset - last))] else []
  }

  /** The operations for `data` from `offset` on, when the bytes from `last` are not yet covered. */
  function Scan(data: seq<byte>, sums: seq<SumBuf>, b: nat, strongLen: nat, strong: Strong, offset: nat, last: nat)
    : seq<DeltaOp>
    requires b > 0 && last <= offset && last <= |data| && strongLen <= 16
    decreases |data| - offset
  {
    if offset + b > |data| then Pending(last, |data|)
    else
      var hit := FirstHit(data[offset..offset + b], sums, 0, strongLen, strong);
      if hit.Some? then
        Pending(last, offset) + [Match(hit.value, offset)]
        + Scan(data, sums, b, strongLen, strong, offset + b, offset + b)
      else
        Scan(data, sums, b, strongLen, strong, offset + 1, last)
  }

  /** One turn of the search: what `ops` has grown to, plus what remains, stays the same. */
  lemma ScanStep(data: seq<byte>, sums: seq<SumBuf>, b: nat, strongLen: nat, strong: Strong, offset: nat, last: nat,
                 ops: seq<DeltaOp>)
    requires b > 0 && last <= offset && offset + b <= |data| && strongLen <= 16
    ensures var hit := FirstHit(data[offset..offset + b], sums, 0, strongLen, strong);
            ops + Scan(data, sums, b, strongLen, strong, offset, last)
            == if hit.Some? then
                 ops + Pending(last, offset) + [Match(hit.value, offset)]
                 + Scan(data, sums, b, strongLen, strong, offset + b, offset + b)
               else
                 ops + Scan(data, sums, b, strongLen, strong, offset + 1, last)
  {
    var hit := FirstHit(data[offset..offset + b], sums, 0, strongLen, strong);
    if hit.Some? {
      var rest := Scan(data, sums, b, strongLen, strong, offset + b, offset + b);
      assert ops + (Pending(last, offset) + [Match(hit.value, offset)] + rest)
          == ops + Pending(last, offset) + [Match(hit.value, offset)] + rest;
    }
  }

  lemma ScanEnd(data: seq<byte>, sums: seq<SumBuf>, b: nat, strongLen: nat, strong: Strong, offset: nat, last: nat)
    requires b > 0 && last <= offset && last <= |data| && offset + b > |data| && strongLen <= 16
    ensures Scan(data, sums, b, strongLen, strong, offset, last) == Pending(last, |data|)
  {
  }

  function Delta(data: seq<byte>, head: SumHead, sums: seq<SumBuf>, strong: Strong): seq<DeltaOp>
    requires head.blength >= 0 && 0 <= head.s2length <= 16
  {
    if head.blength == 0 then Pending(0, |data|)
    else Scan(data, sums, head.blength, head.s2length, strong, 0, 0)
  }

  lemma SlideWindow(data: seq<byte>, offset: nat, b: nat)
    requires 0 < b && offset + b < |data|
    ensures data[offset..offset + b][0] == data[offset]
    ensures data[offset..offset + b][1..] + [data[offset + b]] == data[offset + 1..offset + 1 + b]
  {
  }

  method PushLiteral(ops: seq<DeltaOp>, last: nat, offset: nat) returns (ops': seq<DeltaOp>)
    requires last <= offset
    ensures ops' == ops + Pending(last, offset)
  {
    ops' := ops;
    if last < offset {
      ops' := ops' + [Literal(last, AsU32(offset - last))];
    }
  }

  method FindMatchesSeeded(data: seq<byte>, head: SumHead, t: BlockHashTable, strong: Strong)
      returns (ops: seq<DeltaOp>)
    requires TableFor(t, t.sums, |t.sums|)
    requires head.blength >= 0 && 0 <= head.s2length <= 16
    ensures ops == Delta(data, head, t.sums, strong)
  {
    hide TableFor, Candidates, StrongAgrees, Pending, WeakSum, FirstHit, Hit, Scan, Agree, RollingChecksum.Valid, AsU32;
    ops := [];
    var b, strongLen := head.blength, head.s2length;
    if b == 0 || |data| < b {
      if b > 0 {
        ScanEnd(data, t.sums, b, strongLen, strong, 0, 0);
      }
      ops := PushLiteral(ops, 0, |data|);
      return;
    }
    var len := |data|;
    var lastMatch := 0;
    var rc := new RollingChecksum();
    rc.Init(data[0..b]);
    var end := len - b;
    var offset := 0;
    while true
      invariant lastMatch <= offset <= end
      invariant fresh(rc)
      invariant rc.Valid() && rc.window == data[offset..offset + b]
      invariant ops + Scan(data, t.sums, b, strongLen, strong, offset, lastMatch) == Delta(data, head, t.sums, strong)
      decreases len - offset
    {
      var sum := rc.Value();
      var window := data[offset..offset + b];
      var matched := FindHit(t, sum, window, strongLen, strong);
      ScanStep(data, t.sums, b, strongLen, strong, offset, lastMatch, ops);
      if matched.Some? {
        ops := PushLiteral(ops, lastMatch, offset);
        ops := ops + [Match(matched.value, offset)];
        lastMatch := offset + b;
        offset := lastMatch;
        if offset + b <= len {
          rc.Init(data[offset..offset + b]);
        } else {
          ScanEnd(data, t.sums, b, strongLen, strong, offset, lastMatch);
          break;
        }
        continue;
      }
      if offset >= end {
        ScanEnd(data, t.sums, b, strongLen, strong, offset + 1, lastMatch);
        break;
      }
      SlideWindow(data, offset, b);
      var oldByte, newByte := data[offset], data[offset + b];
      rc.Roll(oldByte, newByte);
      offset := offset + 1;
    }
    ops := PushLiteral(ops, lastMatch, len);
  }
}
