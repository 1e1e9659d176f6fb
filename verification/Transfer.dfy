/** One file's exchange, from the receiver's basis to the receiver's rebuilt file, over two byte streams. */
module Transfer {
  import opened Bytes
  import opened Layout
  import opened MatchBlocks
  import opened DeltaEngine
  import T = Tokens

  /** What the receiver has: no file, or an old version of it. */
  type Basis = Option<seq<byte>>

  function BasisBytes(basis: Basis): seq<byte> { if basis.Some? then basis.value else [] }

  function BasisHead(basis: Basis, s2length: i32): SumHead {
    if basis.Some? then MakeSumHead(|basis.value|, s2length) else NoBasisHead(s2length)
  }

  /** The largest basis whose block count survives the cast to 32 bits. */
  predicate BasisFits(basis: Basis) { |BasisBytes(basis)| <= 0x7fff_ffff * MAX_BLOCK_SIZE }

  lemma BasisHeadDescribes(basis: Basis, s2length: i32)
    requires BasisFits(basis)
    ensures Describes(BasisHead(basis, s2length), |BasisBytes(basis)|)
    ensures BasisHead(basis, s2length).s2length == s2length
  {
    hide BlockLenForFile;
    if basis.Some? {
      HeadDescribesFile(|basis.value|, s2length);
    }
  }

  /** The block checksums of a basis file, all of them. */
  function SumsOf(data: seq<byte>, head: SumHead, strong: Strong): (sums: seq<SumBuf>)
    requires Describes(head, |data|) && 0 <= head.s2length <= 16
    ensures Summarises(sums, data, head, strong)
  {
    seq(head.count, i requires 0 <= i < head.count => SumBufOf(data, head, strong, i))
  }

  lemma SummaryUnique(sums: seq<SumBuf>, data: seq<byte>, head: SumHead, strong: Strong)
    requires Summarises(sums, data, head, strong)
    ensures sums == SumsOf(data, head, strong)
  {
    hide SumBufOf;
  }

  /** Receiver: the request for a file, header then block checksums. */
  method WriteRequest(basis: Basis, s2length: i32, strong: Strong) returns (up: seq<byte>)
    requires 0 <= s2length <= 16 && BasisFits(basis)
    ensures var head := BasisHead(basis, s2length);
            Describes(head, |BasisBytes(basis)|)
            && up == HeadBytes(head) + SumsBytes(SumsOf(BasisBytes(basis), head, strong))
  {
    hide HeadBytes, SumsBytes, Describes, MakeSumHead, SumsOf;
    BasisHeadDescribes(basis, s2length);
    var head := BasisHead(basis, s2length);
    var sums := ComputeSumBufs(BasisBytes(basis), head, strong);
    SummaryUnique(sums, BasisBytes(basis), head, strong);
    var w := WriteSumBufs(sums);
    up := HeadBytes(head) + w;
  }

  /** The bytes of a reply: a header, tokens that say `items`, a checksum. */
  ghost predicate Says(down: seq<byte>, head: SumHead, items: seq<T.Item>, fileSum: Digest) {
    && ReadSumHead(down).Got? && ReadSumHead(down).value == head
    && var tokens := T.ParseTokens(ReadSumHead(down).rest);
    tokens.Got? && T.Flat(tokens.value) == items && tokens.rest == fileSum
  }

  lemma ReplySays(head: SumHead, tokens: seq<T.Token>, fileSum: Digest)
    requires T.AllSendable(tokens)
    ensures Says(HeadBytes(head) + (T.TokensBytes(tokens) + T.EofBytes()) + fileSum, head, T.Flat(tokens), fileSum)
  {
    hide HeadBytes, T.TokensBytes, T.EofBytes, T.Flat, T.ParseTokens, ReadSumHead;
    var tail := T.TokensBytes(tokens) + T.EofBytes() + fileSum;
    assert HeadBytes(head) + (T.TokensBytes(tokens) + T.EofBytes()) + fileSum == HeadBytes(head) + tail;
    HeadRoundTrip(head, tail);
    T.TokensRoundTrip(tokens, fileSum);
  }

  /** Sender: the header echoed, the token stream, and the checksum of the whole file. */
  method WriteReply(up: seq<byte>, source: seq<byte>, ghost basis: Basis, ghost s2length: i32, strong: Strong,
                    fileSum: Digest)
    returns (down: seq<byte>)
    requires 0 <= s2length <= 16 && BasisFits(basis)
    requires var head := BasisHead(basis, s2length);
             Describes(head, |BasisBytes(basis)|)
             && up == HeadBytes(head) + SumsBytes(SumsOf(BasisBytes(basis), head, strong))
    ensures var ops := Delta(source, BasisHead(basis, s2length),
            SumsOf(BasisBytes(basis), BasisHead(basis, s2length), strong), strong);
            AllFit(ops, |source|) && Says(down, BasisHead(basis, s2length), OpsItems(ops, source), fileSum)
  {
    hide HeadBytes, SumsBytes, Describes, MakeSumHead, SumsOf, AllFit, Delta, BasisHead, Says,
      T.TokenWriter.Accepted, T.TokensBytes, T.EofBytes, T.Items;
    BasisHeadDescribes(basis, s2length);
    ghost var head0 := BasisHead(basis, s2length);
    ghost var sums0 := SumsOf(BasisBytes(basis), head0, strong);
    HeadRoundTrip(head0, SumsBytes(sums0));
    var readHead := ReadSumHead(up);
    var head := readHead.value;
    SummaryFacts(sums0, BasisBytes(basis), head, strong);
    assert sums0[0..] == sums0 && SumsBytes(sums0) + [] == SumsBytes(sums0);
    StartOffset(head, |BasisBytes(basis)|);
    SumsRoundTrip(sums0, BasisBytes(basis), head, strong, 0, []);
    var readSums := ReadSumBufs(readHead.rest, head);
    var sums := readSums.value;
    var table := BuildTable(sums);
    var ops := FindMatchesSeeded(source, head, table, strong);
    DeltaRebuildsExactly(source, BasisBytes(basis), head, sums, strong);
    down := HeadBytes(head);
    var tw := new T.TokenWriter(down);
    NothingAccepted(tw);
    SendOps(ops, source, tw);
    tw.Finish();
    assert [] + OpsItems(ops, source) == OpsItems(ops, source);
    down := tw.inner + fileSum;
    ReplySays(head, tw.sent, fileSum);
    assert down == HeadBytes(head) + (T.TokensBytes(tw.sent) + T.EofBytes()) + fileSum;
  }

  lemma StartOffset(head: SumHead, size: nat)
    requires Describes(head, size)
    ensures head.count >= 0 && OffsetOf(head, size, 0) == 0
  {
  }

  lemma NothingAccepted(tw: T.TokenWriter)
    requires tw.sent == [] && tw.literalBuf == []
    ensures tw.Accepted() == []
  {
  }

  lemma SaidReply(down: seq<byte>, head: SumHead, items: seq<T.Item>, fileSum: Digest)
    requires Says(down, head, items, fileSum)
    ensures ReadSumHead(down).Got? && ReadSumHead(down).value == head
    ensures ReplyTokens(down).Got? && T.Flat(ReplyTokens(down).value) == items && ReplyTokens(down).rest == fileSum
  {
    hide T.ParseTokens, T.Flat, ReadSumHead;
  }

  /** The tokens of a reply, behind its header and before the checksum. */
  function ReplyTokens(down: seq<byte>): Read<seq<T.Token>> {
    var (_, rest) :- ReadSumHead(down);
    T.ParseTokens(rest)
  }

  /** Receiver: whatever the reply, it is read whole and applied to the basis, or an error exactly when its header or
      its tokens cannot be read or its checksum is cut short. Returns what is left of the stream too. */
  method ReadReply(down: seq<byte>, basis: seq<byte>) returns (ok: bool, rebuilt: seq<byte>, left: seq<byte>)
    requires ReadSumHead(down).Got? ==> ReadSumHead(down).value.blength >= 0 && ReadSumHead(down).value.remainder >= 0
    ensures ok <==> ReplyTokens(down).Got? && |ReplyTokens(down).rest| >= 16
    ensures ok ==>
      && rebuilt == Rebuild(T.Flat(ReplyTokens(down).value), basis, ReadSumHead(down).value)
      && left == ReplyTokens(down).rest[16..]
  {
    hide T.Flat, T.ParseTokens, Rebuild, ReadSumHead;
    ok, rebuilt, left := false, [], [];
    var readHead := ReadSumHead(down);
    if readHead.Failed? {
      return;
    }
    var tr := new T.TokenReader(readHead.rest);
    var read, toks := tr.ReadAll();
    if !read {
      return;
    }
    T.TokensParseOnlyWritings(readHead.rest);
    rebuilt := ApplyDelta(toks, basis, readHead.value);
    var sum := ReadExact(tr.inner, 16);
    if sum.Got? {
      ok, left := true, sum.rest;
    }
  }

  /** One file end to end. The receiver's file equals the sender's exactly when the delta is faithful, in
      particular for every source below 4 GiB without a checksum collision; every byte written is read. */
  method TransferFile(source: seq<byte>, basis: Basis, s2length: i32, strong: Strong, fileSum: Digest)
    returns (ok: bool, rebuilt: seq<byte>)
    requires 0 <= s2length <= 16 && BasisFits(basis)
    ensures ok
    ensures var head := BasisHead(basis, s2length);
            Describes(head, |BasisBytes(basis)|)
            && (rebuilt == source
                <==> Reconstructs(source, BasisBytes(basis), head, SumsOf(BasisBytes(basis), head, strong), strong))
            && (CollisionFree(source, BasisBytes(basis), head, strong) && |source| < 0x1_0000_0000 ==>
              rebuilt == source)
  {
    hide HeadBytes, SumsBytes, Describes, SumsOf, AllFit, Delta, Says, Rebuild,
      OpsItems, Reconstructs, CollisionFree, BasisHead, ReplyTokens, ReadSumHead, T.Flat;
    var up := WriteRequest(basis, s2length, strong);
    ghost var head := BasisHead(basis, s2length);
    ghost var sums := SumsOf(BasisBytes(basis), head, strong);
    assert head.s2length == s2length by { BasisHeadDescribes(basis, s2length); }
    DeltaRebuildsExactly(source, BasisBytes(basis), head, sums, strong);
    SummaryFacts(sums, BasisBytes(basis), head, strong);
    var down := WriteReply(up, source, basis, s2length, strong, fileSum);
    var left;
    ghost var ops := Delta(source, head, sums, strong);
    SaidReply(down, head, OpsItems(ops, source), fileSum);
    ok, rebuilt, left := ReadReply(down, BasisBytes(basis));
    assert left == [];
    if CollisionFree(source, BasisBytes(basis), head, strong) && |source| < 0x1_0000_0000 {
      DeltaRebuilds(source, BasisBytes(basis), head, sums, strong);
    }
  }
}
