/** The messages of a session as bytes: what one side's writes put on the stream, the other side's reads take off it
    (pipeline/sender.rs, pipeline/receiver.rs, io/varint.rs). */
module SessionBytes {
  import opened Bytes
  import opened Layout
  import opened MatchBlocks
  import opened DeltaEngine
  import opened Transfer
  import opened Network
  import opened Session
  import opened SessionProofs
  import N = Ndx
  import V = Varint
  import T = Tokens

  const ITEM_TRANSFER := 0x8000

  // ---- one message ----

  /** The sums are those of a basis that the header describes. */
  ghost predicate SumsFit(head: SumHead, sums: seq<SumBuf>) {
    exists basis, strong :: Summarises(sums, basis, head, strong)
  }

  /** A message that the wire can carry: an index above the least one, references that are indices, and sums under their
      header. */
  ghost predicate Carried(head: SumHead, m: Msg) {
    match m
    case Ndx(n) => N.I32_MIN < n < 0x8000_0000
    case Sums(sums) => SumsFit(head, sums)
    case Content(items) => forall i :: 0 <= i < |items| && items[i].Reference? ==> items[i].idx >= 0
    case _ => true
  }

  /** `w` are bytes that a side writes for m when its index cells hold p. Content may be cut into tokens anywhere, and
      the numbers behind statistics and other item flags are not modelled. */
  ghost predicate Encodes(p: N.Prev, m: Msg, w: seq<byte>) {
    match m
    case Ndx(n) => -0x8000_0000 <= n < 0x8000_0000 && w == N.NdxBytes(p, n)
    case Flags(transfer) => exists x: nat :: x < 0x1_0000 && (x >= ITEM_TRANSFER <==> transfer) && w == ShortintBytes(x)
    case Head(head) => w == HeadBytes(head)
    case Sums(sums) => w == SumsBytes(sums)
    case Content(items) => exists ts ::
      T.AllSendable(ts) && T.Flat(ts) == items && w == T.TokensBytes(ts) + T.EofBytes()
    case FileSum(digest) => w == digest
    case Stat => exists x: i64 :: w == V.VarlongBytes(x, 3)
  }

  /** Item flags take two bytes, and that of the transfer is the top bit of the second. */
  lemma FlagsForm(p: N.Prev, transfer: bool, w: seq<byte>)
    requires Encodes(p, Flags(transfer), w)
    ensures |w| == 2 && (transfer <==> w[1] >= 0x80)
  {
    var x: nat :| x < 0x1_0000 && (x >= ITEM_TRANSFER <==> transfer) && w == ShortintBytes(x);
    assert LeBytes(x / 0x100, 1) == [x / 0x100];
  }

  /** The writer's index cells after a message. */
  function Wrote(p: N.Prev, m: Msg): N.Prev {
    if m.Ndx? && -0x8000_0000 <= m.n < 0x8000_0000 then N.Written(p, m.n) else p
  }

  /** What a side that reads knows: its index cells and the last header. */
  datatype Reader = Reader(prev: N.Prev, head: SumHead)

  function Heard(r: Reader, m: Msg): Reader { Reader(Wrote(r.prev, m), if m.Head? then m.head else r.head) }

  /** Read a message of the kind that is expected. */
  function ReadMsg(k: Kind, r: Reader, s: seq<byte>): Read<(Msg, Reader)> {
    match k
    case KNdx =>
      var (x, rest) :- N.ReadNdx(r.prev, s);
      Got((Ndx(x.0), r.(prev := x.1)), rest)
    case KFlags =>
      var (x, rest) :- ReadShortint(s);
      Got((Flags(x >= ITEM_TRANSFER), r), rest)
    case KHead =>
      var (head, rest) :- ReadSumHead(s);
      Got((Head(head), r.(head := head)), rest)
    case KSums(_) =>
      if r.head.count < 0 || r.head.s2length < 0 || r.head.blength < 0 || r.head.remainder < 0 then Failed
      else
        var (sums, rest) :- SumsFrom(s, r.head, 0, 0);
        Got((Sums(sums), r), rest)
    case KContent =>
      var (ts, rest) :- T.ParseTokens(s);
      Got((Content(T.Flat(ts)), r), rest)
    case KFileSum =>
      var (d, rest) :- ReadExact(s, 16);
      Got((FileSum(d), r), rest)
    case KStat =>
      var (_, rest) :- V.ReadVarlong(s, 3);
      Got((Stat, r), rest)
  }

  /** A message is read back as itself, and the reader's index cells follow the writer's. */
  lemma MsgRoundTrip(r: Reader, m: Msg, w: seq<byte>, rest: seq<byte>)
    requires N.Reachable(r.prev) && Carried(r.head, m) && Encodes(r.prev, m, w)
    ensures ReadMsg(KindOf(m), r, w + rest) == Got((m, Heard(r, m)), rest)
    ensures N.Reachable(Heard(r, m).prev)
  {
    hide N.NdxBytes, N.ReadNdx, N.Written, N.Reachable, ReadShortint, ShortintBytes, ReadSumHead, HeadBytes, SumsFrom,
         SumsBytes, SumsFit, T.ParseTokens, T.TokensBytes, T.EofBytes, T.Flat, T.AllSendable, V.VarlongBytes,
         V.ReadVarlong;
    match m
    case Ndx(n) =>
      N.NdxRoundTrip(r.prev, n, rest);
      StaysReachable(r.prev, n);
    case Flags(transfer) =>
      var x: nat :| x < 0x1_0000 && (x >= ITEM_TRANSFER <==> transfer) && w == ShortintBytes(x);
      ShortintRoundTrip(x, rest);
    case Head(head) =>
      HeadRoundTrip(head, rest);
    case Sums(sums) =>
      SumsReadBack(r.head, sums, rest);
    case Content(items) =>
      var ts :| T.AllSendable(ts) && T.Flat(ts) == items && w == T.TokensBytes(ts) + T.EofBytes();
      T.TokensRoundTrip(ts, rest);
    case FileSum(digest) =>
      ReadExactPrefix(digest, rest);
    case Stat =>
      var x: i64 :| w == V.VarlongBytes(x, 3);
      V.VarlongRoundTrip(x, 3, rest);
  }

  lemma StaysReachable(p: N.Prev, n: i32)
    requires N.Reachable(p) && n > N.I32_MIN
    ensures N.Reachable(N.Written(p, n))
  {
    N.Negated(n);
  }

  lemma SumsReadBack(head: SumHead, sums: seq<SumBuf>, rest: seq<byte>)
    requires SumsFit(head, sums)
    ensures head.count >= 0 && head.s2length >= 0 && head.blength >= 0 && head.remainder >= 0
    ensures SumsFrom(SumsBytes(sums) + rest, head, 0, 0) == Got(sums, rest)
  {
    hide Summarises, SumsFrom, SumsBytes;
    var basis, strong :| Summarises(sums, basis, head, strong);
    SummaryFacts(sums, basis, head, strong);
    assert sums[0..] == sums;
    assert head.count >= 0 && OffsetOf(head, |basis|, 0) == 0 by { FirstOffset(sums, basis, head, strong); }
    SumsRoundTrip(sums, basis, head, strong, 0, rest);
  }

  lemma FirstOffset(sums: seq<SumBuf>, basis: seq<byte>, head: SumHead, strong: Strong)
    requires Summarises(sums, basis, head, strong)
    ensures head.count >= 0 && OffsetOf(head, |basis|, 0) == 0
  {
  }

  // ---- all messages of one side ----

  /** Byte strings for the messages, one for each, with the index cells carried along. */
  ghost predicate AllEncode(p: N.Prev, ms: seq<Msg>, ws: seq<seq<byte>>)
    decreases |ms|
  {
    |ws| == |ms| && (ms != [] ==> Encodes(p, ms[0], ws[0]) && AllEncode(Wrote(p, ms[0]), ms[1..], ws[1..]))
  }

  ghost predicate AllCarried(head: SumHead, ms: seq<Msg>)
    decreases |ms|
  {
    ms != [] ==> Carried(head, ms[0]) && AllCarried(if ms[0].Head? then ms[0].head else head, ms[1..])
  }

  function Joined(ws: seq<seq<byte>>): seq<byte> { if ws == [] then [] else ws[0] + Joined(ws[1..]) }

  function Kinds(ms: seq<Msg>): (ks: seq<Kind>)
    ensures |ks| == |ms|
  {
    if ms == [] then [] else [KindOf(ms[0])] + Kinds(ms[1..])
  }

  function ReadAll(ks: seq<Kind>, r: Reader, s: seq<byte>): Read<seq<Msg>>
    decreases |ks|
  {
    if ks == [] then Got([], s)
    else
      var (m, s1) :- ReadMsg(ks[0], r, s);
      var (ms, s2) :- ReadAll(ks[1..], m.1, s1);
      Got([m.0] + ms, s2)
  }

  lemma {:induction false} AllRoundTrip(r: Reader, ms: seq<Msg>, ws: seq<seq<byte>>, rest: seq<byte>)
    requires N.Reachable(r.prev) && AllCarried(r.head, ms) && AllEncode(r.prev, ms, ws)
    ensures ReadAll(Kinds(ms), r, Joined(ws) + rest) == Got(ms, rest)
    decreases |ms|
  {
    hide Encodes, Carried, ReadMsg, KindOf, N.Reachable, N.Written, Wrote;
    if ms == [] {
      assert Joined(ws) + rest == rest;
    } else {
      var tail := Joined(ws[1..]) + rest;
      assert Joined(ws) + rest == ws[0] + tail;
      MsgRoundTrip(r, ms[0], ws[0], tail);
      AllRoundTrip(Heard(r, ms[0]), ms[1..], ws[1..], rest);
      assert Kinds(ms)[1..] == Kinds(ms[1..]) && [ms[0]] + ms[1..] == ms;
    }
  }

  // ---- the messages of a session are carried ----

  predicate InRange(c: Config) { forall k :: 0 <= k < |c.requests| ==> c.requests[k].ndx < 0x8000_0000 }

  lemma {:induction false} CarriedAppend(head: SumHead, a: seq<Msg>, b: seq<Msg>)
    requires AllCarried(head, a) && AllCarried(LastHead(head, a), b)
    ensures AllCarried(head, a + b)
    decreases |a|
  {
    hide Carried;
    if a == [] {
      assert a + b == b;
    } else {
      assert (a + b)[1..] == a[1..] + b;
      CarriedAppend(if a[0].Head? then a[0].head else head, a[1..], b);
    }
  }

  function LastHead(head: SumHead, ms: seq<Msg>): SumHead
    decreases |ms|
  {
    if ms == [] then head else LastHead(if ms[0].Head? then ms[0].head else head, ms[1..])
  }

  lemma {:induction false} PlainCarried(head: SumHead, ms: seq<Msg>)
    requires forall i :: 0 <= i < |ms| ==> !ms[i].Sums? && Carried(head, ms[i])
    ensures AllCarried(head, ms)
    decreases |ms|
  {
    if ms != [] {
      var next := if ms[0].Head? then ms[0].head else head;
      forall i | 0 <= i < |ms| - 1
        ensures !ms[1..][i].Sums? && Carried(next, ms[1..][i])
      {
        assert Carried(head, ms[i + 1]);
      }
      PlainCarried(next, ms[1..]);
    }
  }

  lemma RequestSumsFit(c: Config, req: Request)
    requires 0 <= c.s2length <= 16 && BasisFits(req.basis)
    ensures SumsFit(RequestHead(c, req), RequestSums(c, req))
  {
    hide Describes, Summarises;
    BasisHeadDescribes(req.basis, c.s2length);
    assert Summarises(RequestSums(c, req), BasisBytes(req.basis), RequestHead(c, req), c.strong);
  }

  lemma AskedCarried(c: Config, req: Request, head: SumHead)
    requires 0 <= c.s2length <= 16 && BasisFits(req.basis) && req.ndx < 0x8000_0000
    ensures AllCarried(head, Asked(c, req))
  {
    hide RequestHead, RequestSums, SumsFit;
    RequestSumsFit(c, req);
    var ms := Asked(c, req);
    assert ms[1..] == [Flags(true), Head(RequestHead(c, req)), Sums(RequestSums(c, req))];
    assert ms[1..][1..] == [Head(RequestHead(c, req)), Sums(RequestSums(c, req))];
    assert ms[1..][1..][1..] == [Sums(RequestSums(c, req))];
    assert ms[1..][1..][1..][1..] == [];
    assert AllCarried(RequestHead(c, req), [Sums(RequestSums(c, req))]);
    assert AllCarried(head, ms[1..][1..]);
    assert AllCarried(head, ms[1..]);
  }

  /** Everything the receiver will write, from the k-th file on. */
  lemma {:induction false} ReceiverCarried(c: Config, k: nat, head: SumHead)
    requires Valid(c) && InRange(c) && k <= |c.requests|
    ensures AllCarried(head, Writes(ReceiverProgram(c, k)))
    decreases |c.requests| - k
  {
    hide Writes, Ask, Goodbye, Asked, Carried, AllCarried;
    if k == |c.requests| {
      GoodbyeWrites(c);
      ByesCarried(head, ByeMessages(c));
    } else {
      var req, next := c.requests[k], ReceiverProgram(c, k + 1);
      AskWrites(c, req, next);
      AskedCarried(c, req, head);
      ReceiverCarried(c, k + 1, LastHead(head, Asked(c, req)));
      CarriedAppend(head, Asked(c, req), Writes(next));
    }
  }

  lemma ByesCarried(head: SumHead, ms: seq<Msg>)
    requires forall i :: 0 <= i < |ms| ==> ms[i] == Ndx(NDX_DONE) || ms[i].Stat?
    ensures AllCarried(head, ms)
  {
    PlainCarried(head, ms);
  }

  /** Block references are indices. */
  lemma {:induction false} ItemsAreIndices(ops: seq<DeltaOp>, data: seq<byte>)
    requires AllFit(ops, |data|)
    ensures forall i :: 0 <= i < |OpsItems(ops, data)| && OpsItems(ops, data)[i].Reference? ==>
              OpsItems(ops, data)[i].idx >= 0
  {
    if ops != [] {
      ItemsAreIndices(ops[1..], data);
    }
  }

  lemma AnswerCarried(c: Config, req: Request, head: SumHead)
    ensures Carried(head, Content(Answer(c, req)))
  {
    hide RequestHead, RequestSums, Delta, AllFit, OpsItems;
    if req.ndx in c.sources {
      var data := c.sources[req.ndx];
      var s := Sender(SendContent, 0, req.ndx, true, RequestHead(c, req), RequestSums(c, req));
      if s.head.blength >= 0 && 0 <= s.head.s2length <= 16 {
        var ops := Delta(data, s.head, s.sums, c.strong);
        if AllFit(ops, |data|) {
          ItemsAreIndices(ops, data);
        }
      }
    }
  }

  lemma DeliveredCarried(c: Config, req: Request, head: SumHead)
    requires req.ndx < 0x8000_0000
    ensures AllCarried(head, Delivered(c, req))
  {
    hide RequestHead, RequestSums, Answer, AnswerSum;
    AnswerCarried(c, req, head);
    PlainCarried(head, Delivered(c, req));
  }

  /** Everything the sender will write in answer. */
  lemma {:induction false} SenderCarried(c: Config, k: nat, head: SumHead)
    requires Valid(c) && InRange(c) && k <= |c.requests|
    ensures AllCarried(head, Writes(SenderProgram(c, Loop(0), Writes(ReceiverProgram(c, k)))))
    decreases |c.requests| - k
  {
    hide Writes, Ask, Serve, Goodbye, SenderGoodbye, Delivered, Asked, SenderProgram, Carried, AllCarried, RequestHead,
         RequestSums;
    if k == |c.requests| {
      GoodbyeWrites(c);
      SenderSaysGoodbye(c);
      SenderGoodbyeWrites(c);
      ByesCarried(head, Writes(SenderGoodbye(c)));
    } else {
      var req, next := c.requests[k], ReceiverProgram(c, k + 1);
      var q := SenderProgram(c, Loop(0), Writes(next));
      AskWrites(c, req, next);
      RequestCount(c, req);
      SenderServes(c, req, Writes(next));
      ServeWrites(c, req, q);
      DeliveredCarried(c, req, head);
      SenderCarried(c, k + 1, LastHead(head, Delivered(c, req)));
      CarriedAppend(head, Delivered(c, req), Writes(q));
    }
  }

  // ---- what the other side's reads make of the bytes ----

  /** The kinds a program reads, in order. */
  function ReadKinds(p: Program): seq<Kind> {
    if p.End? then [] else if p.action.Read? then [p.action.kind] + ReadKinds(p.next) else ReadKinds(p.next)
  }

  lemma {:induction false} ReceiverReadsKinds(p: Program, inputs: seq<Msg>, left: seq<Msg>)
    requires ReceiverFits(p, inputs, left)
    ensures Kinds(inputs) == ReadKinds(p) + Kinds(left)
  {
    hide KindOf;
    if p.End? {
      assert ReadKinds(p) + Kinds(left) == Kinds(left);
    } else if p.action.Read? {
      ReceiverReadsKinds(p.next, inputs[1..], left);
    } else {
      ReceiverReadsKinds(p.next, inputs, left);
    }
  }

  lemma {:induction false} SenderReadsKinds(c: Config, s: Sender, inputs: seq<Msg>)
    requires SenderFits(c, s, inputs)
    ensures Kinds(inputs) == ReadKinds(SenderProgram(c, s, inputs))
    decreases |inputs|, Rank(s.pc)
  {
    hide KindOf, SReceive, SAfter, ReplyItems;
    if s.pc.Finished? {
    } else if SAction(c, s).Read? {
      SenderReadsKinds(c, SReceive(c, s, inputs[0]), inputs[1..]);
    } else {
      RankFalls(c, s);
      SenderReadsKinds(c, SAfter(c, s), inputs);
    }
  }

  lemma RankFalls(c: Config, s: Sender)
    requires !s.pc.Finished? && !SAction(c, s).Read?
    ensures Rank(SAfter(c, s).pc) < Rank(s.pc)
  {
  }

  // ---- every session has its bytes ----

  /** A token for each item. */
  function TokensFor(items: seq<T.Item>): seq<T.Token> {
    if items == [] then [] else [OneToken(items[0])] + TokensFor(items[1..])
  }

  function OneToken(item: T.Item): T.Token {
    match item
    case LiteralByte(b) => T.Literal([b])
    case Reference(idx) => T.BlockMatch(idx)
  }

  lemma {:induction false} TokensForItems(items: seq<T.Item>)
    requires forall i :: 0 <= i < |items| && items[i].Reference? ==> items[i].idx >= 0
    ensures T.AllSendable(TokensFor(items)) && T.Flat(TokensFor(items)) == items
  {
    if items != [] {
      TokensForItems(items[1..]);
      assert TokensFor(items)[0] == OneToken(items[0]) && TokensFor(items)[1..] == TokensFor(items[1..]);
      assert T.TokenItems(OneToken(items[0])) == [items[0]];
    }
  }

  lemma CarriedHasBytes(p: N.Prev, head: SumHead, m: Msg) returns (w: seq<byte>)
    requires Carried(head, m)
    ensures Encodes(p, m, w)
  {
    hide N.NdxBytes, ShortintBytes, HeadBytes, SumsBytes, SumsFit, T.TokensBytes, T.EofBytes, T.Flat, T.AllSendable,
         V.VarlongBytes, TokensFor;
    match m
    case Ndx(n) => w := N.NdxBytes(p, n);
    case Flags(transfer) => w := ShortintBytes(if transfer then ITEM_TRANSFER else 0);
    case Head(h) => w := HeadBytes(h);
    case Sums(sums) => w := SumsBytes(sums);
    case Content(items) =>
      TokensForItems(items);
      w := T.TokensBytes(TokensFor(items)) + T.EofBytes();
    case FileSum(digest) => w := digest;
    case Stat => w := V.VarlongBytes(0, 3);
  }

  lemma {:induction false} AllHaveBytes(p: N.Prev, head: SumHead, ms: seq<Msg>) returns (ws: seq<seq<byte>>)
    requires AllCarried(head, ms)
    ensures AllEncode(p, ms, ws)
    decreases |ms|
  {
    hide Carried, Encodes, Wrote;
    ws := [];
    if ms != [] {
      var w := CarriedHasBytes(p, head, ms[0]);
      var more := AllHaveBytes(Wrote(p, ms[0]), if ms[0].Head? then ms[0].head else head, ms[1..]);
      ws := [w] + more;
      assert ws[1..] == more;
    }
  }

  const START := Reader(N.INITIAL, SumHead(0, 0, 0, 0))

  /** Both streams of a session: whatever bytes encode what one side writes, the other side's reads, in their order, get
      those messages from them; of the sender's messages one end marker at protocol 31 stays unread. */
  lemma SessionStreams(c: Config, up: seq<seq<byte>>, down: seq<seq<byte>>)
    requires Valid(c) && InRange(c)
    requires AllEncode(N.INITIAL, Writes(ReceiverProgram(c, 0)), up)
    requires AllEncode(N.INITIAL, Writes(SenderProgram(c, Loop(0), Writes(ReceiverProgram(c, 0)))), down)
    ensures var p := ReceiverProgram(c, 0);
            var q := SenderProgram(c, Loop(0), Writes(p));
            && ReadAll(ReadKinds(q), START, Joined(up)) == Got(Writes(p), [])
            && ReadAll(ReadKinds(p) + Kinds(Unread(c)), START, Joined(down)) == Got(Writes(q), [])
  {
    hide Writes, SenderProgram, ReceiverProgram, AllEncode, AllCarried, ReadKinds, Kinds, ReadAll, SenderFits,
         ReceiverFits, FinalFiles, Completes, Outcomes, Joined;
    var p := ReceiverProgram(c, 0);
    var q := SenderProgram(c, Loop(0), Writes(p));
    NothingRead(c);
    FromFile(c, 0, Receiver(NoBasisHead(0), [], []));
    ReceiverCarried(c, 0, START.head);
    SenderCarried(c, 0, START.head);
    AllRoundTrip(START, Writes(p), up, []);
    AllRoundTrip(START, Writes(q), down, []);
    SenderReadsKinds(c, Loop(0), Writes(p));
    ReceiverReadsKinds(p, Writes(q), Unread(c));
    assert Joined(up) + [] == Joined(up) && Joined(down) + [] == Joined(down);
  }

  lemma NothingRead(c: Config)
    ensures [] == Outcomes(c)[..0]
  {
  }

  /** There are such bytes for every session. */
  lemma SessionHasBytes(c: Config) returns (up: seq<seq<byte>>, down: seq<seq<byte>>)
    requires Valid(c) && InRange(c)
    ensures AllEncode(N.INITIAL, Writes(ReceiverProgram(c, 0)), up)
    ensures AllEncode(N.INITIAL, Writes(SenderProgram(c, Loop(0), Writes(ReceiverProgram(c, 0)))), down)
  {
    hide Writes, SenderProgram, ReceiverProgram, AllEncode, AllCarried;
    ReceiverCarried(c, 0, START.head);
    SenderCarried(c, 0, START.head);
    up := AllHaveBytes(N.INITIAL, START.head, Writes(ReceiverProgram(c, 0)));
    down := AllHaveBytes(N.INITIAL, START.head, Writes(SenderProgram(c, Loop(0), Writes(ReceiverProgram(c, 0)))));
  }
}
