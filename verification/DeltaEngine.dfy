/** A file's delta from the sender's search to the receiver's rebuilt file (pipeline/sender.rs,
    pipeline/generator.rs, pipeline/receiver.rs). */
module DeltaEngine {
  import opened Bytes
  import opened Layout
  import opened Rolling
  import opened MatchBlocks
  import T = Tokens

  // ---- the receiver: applying tokens ----

  /** The bytes a block reference copies out of the basis. */
  function CopyBlock(basis: seq<byte>, head: SumHead, i: nat): seq<byte>
    requires head.blength >= 0 && head.remainder >= 0
  {
    var offset := i * head.blength;
    var end := Min(offset + BlockLenAt(head, i), |basis|);
    if 0 <= offset < |basis| then basis[offset..end] else []
  }

  /** A block reference copies a block's length, of the last block only the remainder, and never past the end of the
      basis. */
  lemma CopiedBytes(basis: seq<byte>, head: SumHead, i: nat)
    requires head.blength >= 0 && head.remainder >= 0
    ensures var start := i * head.blength;
            var len := if i + 1 == head.count && head.remainder > 0 then head.remainder else head.blength;
            var left := |basis| - start;
            && |CopyBlock(basis, head, i)| == (if left <= 0 then 0 else if left < len then left else len)
            && forall k :: 0 <= k < |CopyBlock(basis, head, i)| ==> CopyBlock(basis, head, i)[k] == basis[start + k]
  {
    MulMono(0, i, head.blength);
    var start, len := i * head.blength, BlockLenAt(head, i);
    CutOut(basis, start, len);
    assert CopyBlock(basis, head, i) == if start < |basis| then basis[start..Min(start + len, |basis|)] else [];
  }

  lemma CutOut(basis: seq<byte>, start: nat, len: nat)
    ensures var cut := if start < |basis| then basis[start..Min(start + len, |basis|)] else [];
            && |cut| == (if start >= |basis| then 0 else if |basis| - start < len then |basis| - start else len)
            && forall k :: 0 <= k < |cut| ==> cut[k] == basis[start + k]
  {
  }

  function RebuildItem(item: T.Item, basis: seq<byte>, head: SumHead): seq<byte>
    requires head.blength >= 0 && head.remainder >= 0
  {
    match item
    case LiteralByte(b) => [b]
    case Reference(idx) => if idx < 0 then [] else CopyBlock(basis, head, idx)
  }

  /** The file that a stream of literal bytes and block references describes. */
  function Rebuild(items: seq<T.Item>, basis: seq<byte>, head: SumHead): seq<byte>
    requires head.blength >= 0 && head.remainder >= 0
  {
    if items == [] then [] else RebuildItem(items[0], basis, head) + Rebuild(items[1..], basis, head)
  }

  lemma {:induction false} RebuildAppend(a: seq<T.Item>, b: seq<T.Item>, basis: seq<byte>, head: SumHead)
    requires head.blength >= 0 && head.remainder >= 0
    ensures Rebuild(a + b, basis, head) == Rebuild(a, basis, head) + Rebuild(b, basis, head)
  {
    hide RebuildItem;
    if a == [] {
      assert a + b == b;
    } else {
      assert (a + b)[1..] == a[1..] + b;
      RebuildAppend(a[1..], b, basis, head);
    }
  }

  lemma {:induction false} RebuildLiteral(data: seq<byte>, basis: seq<byte>, head: SumHead)
    requires head.blength >= 0 && head.remainder >= 0
    ensures Rebuild(T.Items(data), basis, head) == data
  {
    if data != [] {
      assert T.Items(data)[1..] == T.Items(data[1..]);
      RebuildLiteral(data[1..], basis, head);
    }
  }

  lemma RebuildReference(idx: i32, basis: seq<byte>, head: SumHead)
    requires head.blength >= 0 && head.remainder >= 0 && idx >= 0
    ensures Rebuild([T.Reference(idx)], basis, head) == CopyBlock(basis, head, idx)
  {
    assert [T.Reference(idx)][1..] == [];
  }

  method ApplyDelta(tokens: seq<T.Token>, basis: seq<byte>, head: SumHead) returns (out: seq<byte>)
    requires head.blength >= 0 && head.remainder >= 0 && T.AllSendable(tokens)
    ensures out == Rebuild(T.Flat(tokens), basis, head)
  {
    hide CopyBlock;
    out := [];
    for n := 0 to |tokens|
      invariant out == Rebuild(T.Flat(tokens[..n]), basis, head)
    {
      ApplyOne(tokens, n, basis, head);
      match tokens[n] {
        case Literal(data) =>
          out := out + data;
        case BlockMatch(idx) =>
          var copied := CopyRange(idx, basis, head);
          out := out + copied;
      }
    }
    assert tokens[..|tokens|] == tokens;
  }

  method CopyRange(idx: nat, basis: seq<byte>, head: SumHead) returns (copied: seq<byte>)
    requires head.blength >= 0 && head.remainder >= 0
    ensures copied == CopyBlock(basis, head, idx)
  {
    MulMono(0, idx, head.blength);
    var offset := idx * head.blength;
    var isLast := head.count > 0 && idx == head.count - 1;
    var blockLen := if isLast && head.remainder != 0 then head.remainder else head.blength;
    var end := Min(offset + blockLen, |basis|);
    copied := [];
    if offset < |basis| {
      copied := basis[offset..end];
    }
  }

  /** The bytes one token appends to the output. */
  function TokenEffect(t: T.Token, basis: seq<byte>, head: SumHead): seq<byte>
    requires head.blength >= 0 && head.remainder >= 0 && T.Sendable(t)
  {
    match t
    case Literal(data) => data
    case BlockMatch(idx) => CopyBlock(basis, head, idx)
  }

  lemma ApplyOne(tokens: seq<T.Token>, n: nat, basis: seq<byte>, head: SumHead)
    requires n < |tokens| && T.AllSendable(tokens) && head.blength >= 0 && head.remainder >= 0
    ensures Rebuild(T.Flat(tokens[..n + 1]), basis, head)
         == Rebuild(T.Flat(tokens[..n]), basis, head)
            + TokenEffect(tokens[n], basis, head)
  {
    hide CopyBlock, T.Items;
    assert tokens[..n + 1] == tokens[..n] + [tokens[n]];
    T.FlatAppend(tokens[..n], [tokens[n]]);
    T.FlatOne(tokens[n]);
    RebuildAppend(T.Flat(tokens[..n]), T.TokenItems(tokens[n]), basis, head);
    match tokens[n] {
      case Literal(data) => RebuildLiteral(data, basis, head);
      case BlockMatch(idx) => RebuildReference(idx, basis, head);
    }
  }

  // ---- the sender: operations to tokens ----

  predicate OpFits(op: DeltaOp, size: nat) {
    match op
    case Literal(offset, len) => offset + len <= size
    case Match(blockIdx, _) => blockIdx < 0x7fff_ffff
  }

  function OpItems(op: DeltaOp, data: seq<byte>): seq<T.Item>
    requires OpFits(op, |data|)
  {
    match op
    case Literal(offset, len) => T.Items(data[offset..offset + len])
    case Match(blockIdx, _) => [T.Reference(blockIdx)]
  }

  predicate AllFit(ops: seq<DeltaOp>, size: nat) { forall i :: 0 <= i < |ops| ==> OpFits(ops[i], size) }

  /** What the operations say about `data`. */
  function OpsItems(ops: seq<DeltaOp>, data: seq<byte>): seq<T.Item>
    requires AllFit(ops, |data|)
  {
    if ops == [] then [] else OpItems(ops[0], data) + OpsItems(ops[1..], data)
  }

  lemma {:induction false} OpsItemsAppend(a: seq<DeltaOp>, b: seq<DeltaOp>, data: seq<byte>)
    requires AllFit(a, |data|) && AllFit(b, |data|)
    ensures AllFit(a + b, |data|) && OpsItems(a + b, data) == OpsItems(a, data) + OpsItems(b, data)
  {
    hide OpItems, OpFits;
    if a == [] {
      assert a + b == b;
    } else {
      assert (a + b)[1..] == a[1..] + b;
      OpsItemsAppend(a[1..], b, data);
    }
  }

  lemma OpsItemsOne(op: DeltaOp, data: seq<byte>)
    requires OpFits(op, |data|)
    ensures OpsItems([op], data) == OpItems(op, data)
  {
    assert [op][1..] == [];
  }

  method SendOp(op: DeltaOp, data: seq<byte>, tw: T.TokenWriter)
    requires OpFits(op, |data|) && tw.Valid() && |tw.literalBuf| < T.CHUNK_SIZE
    modifies tw
    ensures tw.Valid() && |tw.literalBuf| < T.CHUNK_SIZE && tw.start == old(tw.start)
    ensures tw.Accepted() == old(tw.Accepted()) + OpItems(op, data)
  {
    hide T.TokenWriter.Valid, T.TokenWriter.Accepted, T.Items;
    match op {
      case Literal(offset, len) =>
        tw.SendLiteral(data[offset..offset + len]);
      case Match(blockIdx, _) =>
        tw.SendBlockMatch(blockIdx);
    }
  }

  /** The sender's loop over the operations. */
  method SendOps(ops: seq<DeltaOp>, data: seq<byte>, tw: T.TokenWriter)
    requires AllFit(ops, |data|) && tw.Valid() && |tw.literalBuf| < T.CHUNK_SIZE
    modifies tw
    ensures tw.Valid() && |tw.literalBuf| < T.CHUNK_SIZE && tw.start == old(tw.start)
    ensures tw.Accepted() == old(tw.Accepted()) + OpsItems(ops, data)
  {
    hide T.TokenWriter.Valid, T.TokenWriter.Accepted, OpItems, OpFits;
    for n := 0 to |ops|
      invariant tw.Valid() && |tw.literalBuf| < T.CHUNK_SIZE && tw.start == old(tw.start)
      invariant tw.Accepted() == old(tw.Accepted()) + OpsItems(ops[..n], data)
    {
      assert ops[..n + 1] == ops[..n] + [ops[n]];
      OpsItemsAppend(ops[..n], [ops[n]], data);
      OpsItemsOne(ops[n], data);
      SendOp(ops[n], data, tw);
    }
    assert ops[..|ops|] == ops;
  }

  lemma {:induction false} ScanFits(data: seq<byte>, sums: seq<SumBuf>, b: nat, strongLen: nat, strong: Strong,
                                    offset: nat, last: nat)
    requires b > 0 && last <= offset && last <= |data| && strongLen <= 16 && |sums| < 0x8000_0000
    ensures AllFit(Scan(data, sums, b, strongLen, strong, offset, last), |data|)
    decreases |data| - offset
  {
    hide Hit;
    if offset + b <= |data| {
      if FirstHit(data[offset..offset + b], sums, 0, strongLen, strong).Some? {
        ScanFits(data, sums, b, strongLen, strong, offset + b, offset + b);
      } else {
        ScanFits(data, sums, b, strongLen, strong, offset + 1, last);
      }
    }
  }

  // ---- when the rebuilt file is the source ----

  /** Along the search from `offset`, every literal fits its 32-bit length and every block chosen for a window
      holds the bytes of that window. */
  ghost predicate Faithful(data: seq<byte>, basis: seq<byte>, head: SumHead, sums: seq<SumBuf>, strong: Strong,
                           offset: nat, last: nat)
    requires 0 <= head.s2length <= 16 && 0 < head.blength && 0 <= head.remainder && last <= offset
    decreases |data| - offset
  {
    var b := head.blength;
    if offset + b > |data| then |data| - last < 0x1_0000_0000
    else
      match FirstHit(data[offset..offset + b], sums, 0, head.s2length, strong)
      case Some(k) =>
        && offset - last < 0x1_0000_0000
        && CopyBlock(basis, head, k) == data[offset..offset + b]
        && Faithful(data, basis, head, sums, strong, offset + b, offset + b)
      case None => Faithful(data, basis, head, sums, strong, offset + 1, last)
  }

  /** The file the receiver rebuilds from the operations. */
  function RebuiltFrom(ops: seq<DeltaOp>, data: seq<byte>, basis: seq<byte>, head: SumHead): seq<byte>
    requires AllFit(ops, |data|) && head.blength >= 0 && head.remainder >= 0
  {
    Rebuild(OpsItems(ops, data), basis, head)
  }

  lemma RebuiltAppend(a: seq<DeltaOp>, b: seq<DeltaOp>, data: seq<byte>, basis: seq<byte>, head: SumHead)
    requires AllFit(a, |data|) && AllFit(b, |data|) && head.blength >= 0 && head.remainder >= 0
    ensures AllFit(a + b, |data|)
    ensures RebuiltFrom(a + b, data, basis, head)
            == RebuiltFrom(a, data, basis, head) + RebuiltFrom(b, data, basis, head)
  {
    OpsItemsAppend(a, b, data);
    RebuildAppend(OpsItems(a, data), OpsItems(b, data), basis, head);
  }

  lemma CutShort(n: nat)
    ensures AsU32(n) <= n
  {
  }

  /** The bytes of a run that its 32-bit length leaves. */
  function CutRun(data: seq<byte>, last: nat, offset: nat): (r: seq<byte>)
    requires last <= offset <= |data|
    ensures |r| <= offset - last
  {
    CutShort(offset - last);
    data[last..last + AsU32(offset - last)]
  }

  lemma RebuiltLiteral(offset: nat, len: u32, data: seq<byte>, basis: seq<byte>, head: SumHead)
    requires offset + len <= |data| && head.blength >= 0 && head.remainder >= 0
    ensures AllFit([Literal(offset, len)], |data|)
    ensures RebuiltFrom([Literal(offset, len)], data, basis, head) == data[offset..offset + len]
  {
    hide T.Items, OpsItems, Rebuild;
    OpsItemsOne(Literal(offset, len), data);
    RebuildLiteral(data[offset..offset + len], basis, head);
  }

  lemma RebuiltPending(last: nat, offset: nat, data: seq<byte>, basis: seq<byte>, head: SumHead)
    requires last <= offset <= |data| && head.blength >= 0 && head.remainder >= 0
    ensures AllFit(Pending(last, offset), |data|)
    ensures RebuiltFrom(Pending(last, offset), data, basis, head) == CutRun(data, last, offset)
  {
    hide AsU32, T.Items;
    if last < offset {
      hide RebuiltFrom;
      CutShort(offset - last);
      RebuiltLiteral(last, AsU32(offset - last), data, basis, head);
    }
  }

  lemma RebuiltMatch(k: nat, offset: nat, data: seq<byte>, basis: seq<byte>, head: SumHead)
    requires k < 0x7fff_ffff && head.blength >= 0 && head.remainder >= 0
    ensures AllFit([Match(k, offset)], |data|)
    ensures RebuiltFrom([Match(k, offset)], data, basis, head) == CopyBlock(basis, head, k)
  {
    OpsItemsOne(Match(k, offset), data);
    RebuildReference(k, basis, head);
  }

  /** A block that a window hits is a full block of the basis. */
  lemma HitBlockIsFull(basis: seq<byte>, head: SumHead, sums: seq<SumBuf>, strong: Strong, window: seq<byte>, k: nat)
    requires Summarises(sums, basis, head, strong) && 0 < head.blength && |window| == head.blength
    requires k < |sums| && Hit(window, sums[k], head.s2length, strong)
    ensures CopyBlock(basis, head, k) == Block(basis, head, k) && |CopyBlock(basis, head, k)| == head.blength
    ensures WeakSum(window) == WeakSum(Block(basis, head, k))
    ensures strong(window)[..head.s2length] == strong(Block(basis, head, k))[..head.s2length]
  {
    hide WeakSum;
    assert sums[k] == SumBufOf(basis, head, strong, k);
    BlockBounds(head, |basis|, k);
  }

  /** Three pieces laid end to end are a segment of `data`, none longer than its place, only if each is its place. */
  lemma PiecesInPlace(data: seq<byte>, last: nat, offset: nat, next: nat, x: seq<byte>, y: seq<byte>, z: seq<byte>)
    requires last <= offset <= next <= |data|
    requires |x| <= offset - last && |y| == next - offset && |z| <= |data| - next
    ensures |x + y + z| <= |data| - last
    ensures x + y + z == data[last..] <==> x == data[last..offset] && y == data[offset..next] && z == data[next..]
  {
    if x + y + z == data[last..] {
      assert |x| == offset - last && |z| == |data| - next;
      assert x == (x + y + z)[..|x|] && y == (x + y + z)[|x|..|x| + |y|] && z == (x + y + z)[|x| + |y|..];
    }
  }

  lemma {:induction false} ScanRebuilds(data: seq<byte>, basis: seq<byte>, head: SumHead, sums: seq<SumBuf>,
                                        strong: Strong, offset: nat, last: nat)
    requires Summarises(sums, basis, head, strong) && 0 < head.blength
    requires last <= offset && last <= |data|
    ensures var ops := Scan(data, sums, head.blength, head.s2length, strong, offset, last);
            && AllFit(ops, |data|)
            && |RebuiltFrom(ops, data, basis, head)| <= |data| - last
            && (RebuiltFrom(ops, data, basis, head) == data[last..]
                <==> Faithful(data, basis, head, sums, strong, offset, last))
    decreases |data| - offset
  {
    hide Hit, AllFit, RebuiltFrom, CopyBlock, Summarises, Pending, Scan, FirstHit, Faithful, CutRun;
    var b := head.blength;
    SummaryFacts(sums, basis, head, strong);
    ScanFits(data, sums, b, head.s2length, strong, offset, last);
    FaithfulStep(data, basis, head, sums, strong, offset, last);
    if offset + b > |data| {
      ScanEnd(data, sums, b, head.s2length, strong, offset, last);
      RebuiltPending(last, |data|, data, basis, head);
      PendingExact(data, last, |data|);
    } else {
      var hit := FirstHit(data[offset..offset + b], sums, 0, head.s2length, strong);
      if hit.Some? {
        MatchRebuilds(data, basis, head, sums, strong, offset, last, hit.value);
        ScanRebuilds(data, basis, head, sums, strong, offset + b, offset + b);
        var z := RebuiltFrom(Scan(data, sums, b, head.s2length, strong, offset + b, offset + b), data, basis, head);
        PendingExact(data, last, offset);
        PiecesInPlace(data, last, offset, offset + b, CutRun(data, last, offset),
          CopyBlock(basis, head, hit.value), z);
      } else {
        ScanRebuilds(data, basis, head, sums, strong, offset + 1, last);
        ScanOn(data, sums, b, head.s2length, strong, offset, last);
      }
    }
  }

  lemma ScanOn(data: seq<byte>, sums: seq<SumBuf>, b: nat, strongLen: nat, strong: Strong, offset: nat, last: nat)
    requires b > 0 && last <= offset && offset + b <= |data| && strongLen <= 16
    requires FirstHit(data[offset..offset + b], sums, 0, strongLen, strong).None?
    ensures Scan(data, sums, b, strongLen, strong, offset, last)
            == Scan(data, sums, b, strongLen, strong, offset + 1, last)
  {
    hide FirstHit;
  }

  lemma FaithfulStep(data: seq<byte>, basis: seq<byte>, head: SumHead, sums: seq<SumBuf>, strong: Strong, offset: nat,
                     last: nat)
    requires 0 <= head.s2length <= 16 && 0 < head.blength && 0 <= head.remainder && last <= offset
    ensures var b := head.blength;
            Faithful(data, basis, head, sums, strong, offset, last) <==>
            if offset + b > |data| then |data| - last < 0x1_0000_0000
            else
              var hit := FirstHit(data[offset..offset + b], sums, 0, head.s2length, strong);
              if hit.Some? then
                && offset - last < 0x1_0000_0000
                && CopyBlock(basis, head, hit.value) == data[offset..offset + b]
                && Faithful(data, basis, head, sums, strong, offset + b, offset + b)
              else Faithful(data, basis, head, sums, strong, offset + 1, last)
  {
    hide FirstHit, CopyBlock;
  }

  lemma SummaryFacts(sums: seq<SumBuf>, basis: seq<byte>, head: SumHead, strong: Strong)
    requires Summarises(sums, basis, head, strong)
    ensures |sums| < 0x7fff_ffff + 1 && 0 <= head.s2length <= 16 && 0 <= head.remainder
    ensures 0 <= head.blength
  {
  }

  lemma PendingExact(data: seq<byte>, last: nat, offset: nat)
    requires last <= offset <= |data|
    ensures CutRun(data, last, offset) == data[last..offset] <==> offset - last < 0x1_0000_0000
  {
  }

  lemma MatchRebuilds(data: seq<byte>, basis: seq<byte>, head: SumHead, sums: seq<SumBuf>, strong: Strong,
                      offset: nat, last: nat, k: nat)
    requires 0 < head.blength && 0 <= head.s2length <= 16 && 0 <= head.remainder
    requires Summarises(sums, basis, head, strong)
    requires last <= offset && offset + head.blength <= |data|
    requires FirstHit(data[offset..offset + head.blength], sums, 0, head.s2length, strong) == Some(k)
    ensures var next := offset + head.blength;
            var rest := Scan(data, sums, head.blength, head.s2length, strong, next, next);
            var ops := Scan(data, sums, head.blength, head.s2length, strong, offset, last);
            && AllFit(ops, |data|) && AllFit(rest, |data|)
            && |CopyBlock(basis, head, k)| == head.blength
            && RebuiltFrom(ops, data, basis, head)
               == CutRun(data, last, offset) + CopyBlock(basis, head, k)
                 + RebuiltFrom(rest, data, basis, head)
  {
    hide Hit, AllFit, RebuiltFrom, CopyBlock, Pending, Summarises, Scan, CutRun;
    SummaryFacts(sums, basis, head, strong);
    var b := head.blength;
    var rest := Scan(data, sums, b, head.s2length, strong, offset + b, offset + b);
    ScanFits(data, sums, b, head.s2length, strong, offset + b, offset + b);
    HitBlockIsFull(basis, head, sums, strong, data[offset..offset + b], k);
    RebuiltPending(last, offset, data, basis, head);
    RebuiltMatch(k, offset, data, basis, head);
    RebuiltAppend(Pending(last, offset), [Match(k, offset)], data, basis, head);
    RebuiltAppend(Pending(last, offset) + [Match(k, offset)], rest, data, basis, head);
    ScanStep(data, sums, b, head.s2length, strong, offset, last, []);
    assert [] + Scan(data, sums, b, head.s2length, strong, offset, last)
           == Scan(data, sums, b, head.s2length, strong, offset, last);
    assert [] + Pending(last, offset) == Pending(last, offset);
  }

  /** The receiver rebuilds the source: with no basis blocks only the literal length matters, otherwise every
      block chosen must also be the window it stands for. */
  ghost predicate Reconstructs(data: seq<byte>, basis: seq<byte>, head: SumHead, sums: seq<SumBuf>, strong: Strong)
    requires 0 <= head.s2length <= 16 && 0 <= head.blength && 0 <= head.remainder
  {
    if head.blength == 0 then |data| < 0x1_0000_0000
    else Faithful(data, basis, head, sums, strong, 0, 0)
  }

  /** The exact condition, for every source and basis: the rebuilt file is the source if and only if every
      literal run fits 32 bits and no chosen block is a checksum collision. */
  lemma DeltaRebuildsExactly(data: seq<byte>, basis: seq<byte>, head: SumHead, sums: seq<SumBuf>, strong: Strong)
    requires Summarises(sums, basis, head, strong)
    ensures AllFit(Delta(data, head, sums, strong), |data|)
    ensures RebuiltFrom(Delta(data, head, sums, strong), data, basis, head) == data
            <==> Reconstructs(data, basis, head, sums, strong)
  {
    hide Scan, Summarises, RebuiltFrom, AllFit, Pending;
    SummaryFacts(sums, basis, head, strong);
    if head.blength == 0 {
      RebuiltPending(0, |data|, data, basis, head);
      PendingExact(data, 0, |data|);
    } else {
      ScanRebuilds(data, basis, head, sums, strong, 0, 0);
    }
    assert data[0..] == data;
  }

  /** The window at p and the full block i differ but have equal weak and (truncated) strong checksums. */
  predicate Collision(data: seq<byte>, basis: seq<byte>, head: SumHead, strong: Strong, p: nat, i: nat)
    requires Describes(head, |basis|) && 0 <= head.s2length <= 16 && p + head.blength <= |data| && i < head.count
  {
    var window, block := data[p..p + head.blength], Block(basis, head, i);
    && |block| == |window|
    && WeakSum(window) == WeakSum(block)
    && strong(window)[..head.s2length] == strong(block)[..head.s2length]
    && window != block
  }

  /** No full window of the source agrees on both checksums with a different full block of the basis. */
  ghost predicate CollisionFree(data: seq<byte>, basis: seq<byte>, head: SumHead, strong: Strong)
    requires Describes(head, |basis|) && 0 <= head.s2length <= 16
  {
    forall p: nat, i: nat :: p + head.blength <= |data| && i < head.count ==>
      !Collision(data, basis, head, strong, p, i)
  }

  lemma {:induction false} CollisionFreeIsFaithful(data: seq<byte>, basis: seq<byte>, head: SumHead, sums: seq<SumBuf>,
                                                   strong: Strong, offset: nat, last: nat)
    requires Summarises(sums, basis, head, strong) && 0 < head.blength
    requires CollisionFree(data, basis, head, strong) && |data| < 0x1_0000_0000 && last <= offset
    ensures Faithful(data, basis, head, sums, strong, offset, last)
    decreases |data| - offset
  {
    hide Hit, WeakSum, CopyBlock, Block, SumBufOf;
    var b := head.blength;
    if offset + b <= |data| {
      var window := data[offset..offset + b];
      var hit := FirstHit(window, sums, 0, head.s2length, strong);
      if hit.Some? {
        HitBlockIsFull(basis, head, sums, strong, window, hit.value);
        assert !Collision(data, basis, head, strong, offset, hit.value);
        CollisionFreeIsFaithful(data, basis, head, sums, strong, offset + b, offset + b);
      } else {
        CollisionFreeIsFaithful(data, basis, head, sums, strong, offset + 1, last);
      }
    }
  }

  /** Without collisions, and below 4 GiB, the delta always rebuilds the source. */
  lemma DeltaRebuilds(data: seq<byte>, basis: seq<byte>, head: SumHead, sums: seq<SumBuf>, strong: Strong)
    requires Summarises(sums, basis, head, strong)
    requires CollisionFree(data, basis, head, strong) && |data| < 0x1_0000_0000
    ensures AllFit(Delta(data, head, sums, strong), |data|)
    ensures RebuiltFrom(Delta(data, head, sums, strong), data, basis, head) == data
  {
    DeltaRebuildsExactly(data, basis, head, sums, strong);
    if head.blength > 0 {
      CollisionFreeIsFaithful(data, basis, head, sums, strong, 0, 0);
    }
  }

  // ---- headers and block checksums on the wire ----

  function HeadBytes(h: SumHead): seq<byte> {
    IntBytes(h.count) + IntBytes(h.blength) + IntBytes(h.s2length) + IntBytes(h.remainder)
  }

  function ReadSumHead(s: seq<byte>): Read<SumHead> {
    var (count, s1) :- ReadInt(s);
    var (blength, s2) :- ReadInt(s1);
    var (s2length, s3) :- ReadInt(s2);
    var (remainder, s4) :- ReadInt(s3);
    Got(SumHead(count, blength, s2length, remainder), s4)
  }

  lemma HeadRoundTrip(h: SumHead, rest: seq<byte>)
    ensures ReadSumHead(HeadBytes(h) + rest) == Got(h, rest)
  {
    hide IntBytes, ReadInt;
    var r3 := IntBytes(h.remainder) + rest;
    var r2 := IntBytes(h.s2length) + r3;
    var r1 := IntBytes(h.blength) + r2;
    assert HeadBytes(h) + rest == IntBytes(h.count) + r1;
    IntRoundTrip(h.count, r1);
    IntRoundTrip(h.blength, r2);
    IntRoundTrip(h.s2length, r3);
    IntRoundTrip(h.remainder, rest);
  }

  function SumsBytes(sums: seq<SumBuf>): seq<byte> {
    if sums == [] then [] else EntryBytes(sums[0]) + SumsBytes(sums[1..])
  }

  function EntryBytes(e: SumBuf): seq<byte> { IntBytes(AsI32(e.sum1)) + e.sum2 }

  method WriteSumBufs(sums: seq<SumBuf>) returns (w: seq<byte>)
    ensures w == SumsBytes(sums)
  {
    hide IntBytes, AsI32, SumsBytes;
    w := [];
    assert sums[0..] == sums;
    for i := 0 to |sums|
      invariant w + SumsBytes(sums[i..]) == SumsBytes(sums)
    {
      SumsBytesFrom(sums, i);
      var e := EntryBytes(sums[i]);
      assert w + (e + SumsBytes(sums[i + 1..])) == (w + e) + SumsBytes(sums[i + 1..]);
      assert w + IntBytes(AsI32(sums[i].sum1)) + sums[i].sum2 == w + e;
      w := w + IntBytes(AsI32(sums[i].sum1)) + sums[i].sum2;
    }
    SumsBytesEnd(sums);
    assert w + [] == w;
  }

  lemma SumsBytesFrom(sums: seq<SumBuf>, i: nat)
    requires i < |sums|
    ensures SumsBytes(sums[i..]) == EntryBytes(sums[i]) + SumsBytes(sums[i + 1..])
  {
    hide EntryBytes;
    assert sums[i..][1..] == sums[i + 1..];
  }

  lemma SumsBytesEnd(sums: seq<SumBuf>)
    ensures SumsBytes(sums[|sums|..]) == []
  {
  }

  /** Entries i, i + 1, ... of the table that `head` announces, the first of them starting at `offset`. */
  function SumsFrom(s: seq<byte>, head: SumHead, i: nat, offset: nat): Read<seq<SumBuf>>
    requires i <= head.count && head.s2length >= 0 && head.blength >= 0 && head.remainder >= 0
    decreases head.count - i
  {
    if i == head.count then Got([], s)
    else
      var (sum1, s1) :- ReadInt(s);
      var (sum2, s2) :- ReadExact(s1, head.s2length);
      var len := BlockLenAt(head, i);
      var (tail, s3) :- SumsFrom(s2, head, i + 1, offset + len);
      Got([SumBuf(offset, len, AsU32(sum1), sum2)] + tail, s3)
  }

  method ReadSumBufs(s: seq<byte>, head: SumHead) returns (r: Read<seq<SumBuf>>)
    requires head.count >= 0 && head.s2length >= 0 && head.blength >= 0 && head.remainder >= 0
    ensures r == SumsFrom(s, head, 0, 0)
  {
    hide ReadInt, ReadExact, AsU32;
    var sums: seq<SumBuf>, offset: nat, left := [], 0, s;
    assert forall t: seq<SumBuf> :: [] + t == t;
    for i := 0 to head.count
      invariant var rest := SumsFrom(left, head, i, offset);
                SumsFrom(s, head, 0, 0) == if rest.Got? then Got(sums + rest.value, rest.rest) else Failed
    {
      var sum1 := ReadInt(left);
      if sum1.Failed? {
        return Failed;
      }
      var sum2 := ReadExact(sum1.rest, head.s2length);
      if sum2.Failed? {
        return Failed;
      }
      var len := if i == head.count - 1 && head.remainder != 0 then head.remainder else head.blength;
      var entry := SumBuf(offset, len, AsU32(sum1.value), sum2.value);
      ghost var rest := SumsFrom(sum2.rest, head, i + 1, offset + len);
      assert rest.Got? ==> sums + ([entry] + rest.value) == sums + [entry] + rest.value;
      sums := sums + [entry];
      offset := offset + len;
      left := sum2.rest;
    }
    assert sums + [] == sums;
    r := Got(sums, left);
  }

  /** Where block i starts; the end of the file for the block after the last. */
  function OffsetOf(head: SumHead, size: nat, i: nat): int { if i == head.count then size else i * head.blength }

  lemma {:induction false} SumsRoundTrip(sums: seq<SumBuf>, basis: seq<byte>, head: SumHead, strong: Strong, i: nat,
                                         rest: seq<byte>)
    requires Summarises(sums, basis, head, strong) && i <= head.count
    ensures 0 <= OffsetOf(head, |basis|, i)
    ensures SumsFrom(SumsBytes(sums[i..]) + rest, head, i, OffsetOf(head, |basis|, i)) == Got(sums[i..], rest)
    decreases head.count - i
  {
    hide EntryBytes, SumBufOf, BlockLenAt, OffsetOf;
    if i < head.count {
      SumsRoundTrip(sums, basis, head, strong, i + 1, rest);
      EntryFacts(sums, basis, head, strong, i);
      PrependEntry(sums, head, i, SumsBytes(sums[i + 1..]) + rest, rest);
    } else {
      assert OffsetOf(head, |basis|, i) == |basis| by { LastOffset(head, |basis|); }
      assert sums[i..] == [] && SumsBytes([]) + rest == rest;
    }
  }

  lemma LastOffset(head: SumHead, size: nat)
    requires head.count >= 0
    ensures OffsetOf(head, size, head.count) == size
  {
  }

  lemma PrependEntry(sums: seq<SumBuf>, head: SumHead, i: nat, tail: seq<byte>, rest: seq<byte>)
    requires i < head.count == |sums| && head.s2length >= 0 && head.blength >= 0 && head.remainder >= 0
    requires tail == SumsBytes(sums[i + 1..]) + rest
    requires |sums[i].sum2| == head.s2length && sums[i].len == BlockLenAt(head, i)
    requires SumsFrom(tail, head, i + 1, sums[i].offset + BlockLenAt(head, i)) == Got(sums[i + 1..], rest)
    ensures SumsFrom(SumsBytes(sums[i..]) + rest, head, i, sums[i].offset) == Got(sums[i..], rest)
  {
    hide EntryBytes, SumsFrom, BlockLenAt;
    assert sums[i..][1..] == sums[i + 1..];
    assert SumsBytes(sums[i..]) + rest == EntryBytes(sums[i]) + tail;
    OneEntry(sums[i], head, i, tail);
    assert [sums[i]] + sums[i + 1..] == sums[i..];
  }

  lemma EntryFacts(sums: seq<SumBuf>, basis: seq<byte>, head: SumHead, strong: Strong, i: nat)
    requires Summarises(sums, basis, head, strong) && i < head.count
    ensures sums[i].offset == OffsetOf(head, |basis|, i) && sums[i].len == BlockLenAt(head, i)
    ensures |sums[i].sum2| == head.s2length
    ensures sums[i].offset + BlockLenAt(head, i) == OffsetOf(head, |basis|, i + 1)
  {
    hide WeakSum;
    assert sums[i] == SumBufOf(basis, head, strong, i);
    BlockBounds(head, |basis|, i);
    assert (i + 1) * head.blength == i * head.blength + head.blength;
  }

  lemma OneEntry(e: SumBuf, head: SumHead, i: nat, tail: seq<byte>)
    requires i < head.count && head.s2length >= 0 && head.blength >= 0 && head.remainder >= 0
    requires |e.sum2| == head.s2length && e.len == BlockLenAt(head, i)
    ensures SumsFrom(EntryBytes(e) + tail, head, i, e.offset)
         == var r := SumsFrom(tail, head, i + 1, e.offset + BlockLenAt(head, i));
            if r.Got? then Got([e] + r.value, r.rest) else Failed
  {
    hide IntBytes, ReadInt, ReadExact;
    assert EntryBytes(e) + tail == IntBytes(AsI32(e.sum1)) + (e.sum2 + tail);
    IntRoundTrip(AsI32(e.sum1), e.sum2 + tail);
    ReadExactPrefix(e.sum2, tail);
    assert AsU32(AsI32(e.sum1)) == e.sum1;
  }
}
