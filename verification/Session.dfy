/** The two ends of a transfer session, protocol 30 and 31 (pipeline/sender.rs, pipeline/receiver.rs, main.rs). */
module Session {
  import opened Bytes
  import opened Layout
  import opened MatchBlocks
  import opened DeltaEngine
  import opened Transfer
  import opened Network
  import T = Tokens

  const NDX_DONE := -1

  datatype Msg =
    | Ndx(n: int)
    | Flags(transfer: bool)
    | Head(head: SumHead)
    | Sums(sums: seq<SumBuf>)
    | Content(items: seq<T.Item>)
    | FileSum(digest: Digest)
    | Stat

  datatype Kind = KNdx | KFlags | KHead | KSums(count: int) | KContent | KFileSum | KStat

  function KindOf(m: Msg): Kind {
    match m
    case Ndx(_) => KNdx
    case Flags(_) => KFlags
    case Head(_) => KHead
    case Sums(sums) => KSums(|sums|)
    case Content(_) => KContent
    case FileSum(_) => KFileSum
    case Stat => KStat
  }

  type Act = Action<Msg, Kind>
  type Program = Prog<Msg, Kind>

  /** A file that the receiver asks for, and what it already has of it. */
  datatype Request = Request(ndx: nat, basis: Basis)

  /** `pull`: the sender is the server, which writes five statistics before the goodbye. */
  datatype Config = Config(
    proto31: bool, pull: bool, requests: seq<Request>, sources: map<int, seq<byte>>,
    s2length: i32, strong: Strong, md5: Strong)

  /** Checksum lengths and basis sizes within the protocol's limits. */
  ghost predicate Valid(c: Config) {
    && 0 <= c.s2length <= 16
    && forall k :: 0 <= k < |c.requests| ==> BasisFits(c.requests[k].basis)
  }

  /** Every requested file is a regular file that the sender can read. */
  predicate Readable(c: Config) { forall k :: 0 <= k < |c.requests| ==> c.requests[k].ndx in c.sources }

  // ---- the receiver (run_server_receiver, then the client's statistics) ----

  function W(m: Msg, next: Program): Program { Do(Write(m), next) }
  function F(next: Program): Program { Do(Flush, next) }
  function R(k: Kind, next: Program): Program { Do(Read(k), next) }

  function RequestHead(c: Config, r: Request): SumHead { BasisHead(r.basis, c.s2length) }

  function RequestSums(c: Config, r: Request): seq<SumBuf> {
    var data, head := BasisBytes(r.basis), RequestHead(c, r);
    if Describes(head, |data|) && 0 <= head.s2length <= 16 then SumsOf(data, head, c.strong) else []
  }

  /** One file: ask, then collect the answer. */
  function Ask(c: Config, r: Request, next: Program): Program {
    W(Ndx(r.ndx), W(Flags(true), W(Head(RequestHead(c, r)), W(Sums(RequestSums(c, r)), F(Collect(next))))))
  }

  function Collect(next: Program): Program { R(KNdx, R(KFlags, R(KHead, R(KContent, R(KFileSum, next))))) }

  /** Two phase ends, each echoed; the last phase end; the goodbye; the statistics. */
  function Goodbye(c: Config): Program {
    PhaseEnd(PhaseEnd(W(Ndx(NDX_DONE), F(W(Ndx(NDX_DONE), F(Farewell(c)))))))
  }

  function PhaseEnd(next: Program): Program { W(Ndx(NDX_DONE), F(R(KNdx, next))) }

  function Farewell(c: Config): Program {
    var stats := if c.pull then ReadStats(5) else End;
    if c.proto31 then R(KNdx, W(Ndx(NDX_DONE), F(stats))) else R(KNdx, stats)
  }

  function ReadStats(n: nat): Program { if n == 0 then End else R(KStat, ReadStats(n - 1)) }

  function ReceiverProgram(c: Config, k: nat): Program
    requires k <= |c.requests|
    decreases |c.requests| - k
  {
    if k == |c.requests| then Goodbye(c) else Ask(c, c.requests[k], ReceiverProgram(c, k + 1))
  }

  /** What the receiver remembers: the echoed header, the content just rebuilt, the files written so far. */
  datatype Receiver = Receiver(echo: SumHead, rebuilt: seq<byte>, files: seq<seq<byte>>)

  function RReceive(c: Config, r: Receiver, m: Msg): Receiver {
    match m
    case Head(h) => r.(echo := h)
    case Content(items) =>
      var basis := if |r.files| < |c.requests| then BasisBytes(c.requests[|r.files|].basis) else [];
      r.(rebuilt := if r.echo.blength >= 0 && r.echo.remainder >= 0 then Rebuild(items, basis, r.echo) else [])
    case FileSum(_) => r.(files := r.files + [r.rebuilt])
    case _ => r
  }

  // ---- the sender (Sender::run, then the goodbye in main) ----

  datatype Pc =
    | AwaitNdx | AwaitFlags | EchoNdx | EchoFlags | NoTransfer | AwaitHead | AwaitSums
    | SendHead | SendContent | SendFileSum | FlushReply
    | SkipHead | SkipContent | SkipFileSum
    | EchoDone | FlushEcho | SendFinal | FlushFinal | SendStats(left: nat) | FlushStats
    | AwaitBye | ReplyBye | FlushBye | AwaitBye2 | Finished

  /** The program counter, the phase, and the variables of the current turn of the loop. */
  datatype Sender = Sender(pc: Pc, phase: nat, idx: int, transfer: bool, head: SumHead, sums: seq<SumBuf>)

  const MAX_PHASE := 2

  function Loop(phase: nat): Sender { Sender(AwaitNdx, phase, 0, false, NoBasisHead(0), []) }

  /** The delta that answers a request, as literal bytes and block references. */
  function ReplyItems(c: Config, s: Sender): seq<T.Item> {
    if s.idx in c.sources && s.head.blength >= 0 && 0 <= s.head.s2length <= 16 then
      var data := c.sources[s.idx];
      var ops := Delta(data, s.head, s.sums, c.strong);
      if AllFit(ops, |data|) then OpsItems(ops, data) else []
    else []
  }

  function ZeroDigest(): Digest { seq(16, i => 0) }

  function SAction(c: Config, s: Sender): Act
    requires !s.pc.Finished?
  {
    match s.pc
    case AwaitNdx => Read(KNdx)
    case AwaitFlags => Read(KFlags)
    case EchoNdx => Write(Ndx(s.idx))
    case EchoFlags => Write(Flags(s.transfer))
    case NoTransfer => Flush
    case AwaitHead => Read(KHead)
    case AwaitSums => Read(KSums(s.head.count))
    case SendHead => Write(Head(s.head))
    case SendContent => Write(Content(ReplyItems(c, s)))
    case SendFileSum => Write(FileSum(if s.idx in c.sources then c.md5(c.sources[s.idx]) else ZeroDigest()))
    case FlushReply => Flush
    case SkipHead => Write(Head(s.head))
    case SkipContent => Write(Content([]))
    case SkipFileSum => Write(FileSum(ZeroDigest()))
    case EchoDone => Write(Ndx(NDX_DONE))
    case FlushEcho => Flush
    case SendFinal => Write(Ndx(NDX_DONE))
    case FlushFinal => Flush
    case SendStats(_) => Write(Stat)
    case FlushStats => Flush
    case AwaitBye => Read(KNdx)
    case ReplyBye => Write(Ndx(NDX_DONE))
    case FlushBye => Flush
    case AwaitBye2 => Read(KNdx)
  }

  /** The state after a write or a flush. */
  function SAfter(c: Config, s: Sender): Sender {
    match s.pc
    case EchoNdx => s.(pc := EchoFlags)
    case EchoFlags => s.(pc := if s.transfer then AwaitHead else NoTransfer)
    case NoTransfer => Loop(s.phase)
    case SendHead => s.(pc := SendContent)
    case SendContent => s.(pc := SendFileSum)
    case SendFileSum => s.(pc := FlushReply)
    case FlushReply => Loop(s.phase)
    case SkipHead => s.(pc := SkipContent)
    case SkipContent => s.(pc := SkipFileSum)
    case SkipFileSum => Loop(s.phase)
    case EchoDone => s.(pc := FlushEcho)
    case FlushEcho => Loop(s.phase)
    case SendFinal => s.(pc := FlushFinal)
    case FlushFinal => s.(pc := if c.pull then SendStats(5) else AwaitBye)
    case SendStats(left) => s.(pc := if left > 1 then SendStats(left - 1) else FlushStats)
    case FlushStats => s.(pc := AwaitBye)
    case ReplyBye => s.(pc := FlushBye)
    case FlushBye => s.(pc := AwaitBye2)
    case _ => s
  }

  /** The state after reading m. */
  function SReceive(c: Config, s: Sender, m: Msg): Sender {
    match (s.pc, m)
    case (AwaitNdx, Ndx(n)) =>
      if n == NDX_DONE then
        if s.phase + 1 > MAX_PHASE then s.(pc := SendFinal, phase := s.phase + 1)
        else s.(pc := EchoDone, phase := s.phase + 1)
      else s.(pc := AwaitFlags, idx := n)
    case (AwaitFlags, Flags(transfer)) => s.(pc := EchoNdx, transfer := transfer)
    case (AwaitHead, Head(h)) => s.(pc := AwaitSums, head := h)
    case (AwaitSums, Sums(sums)) => s.(pc := if s.idx in c.sources then SendHead else SkipHead, sums := sums)
    case (AwaitBye, Ndx(n)) => s.(pc := if c.proto31 && (n == NDX_DONE || !c.pull) then ReplyBye else Finished)
    case (AwaitBye2, Ndx(n)) => s.(pc := Finished)
    case _ => s
  }

  /** How many steps a sender can take before it next reads. */
  function Rank(pc: Pc): nat {
    match pc
    case EchoNdx => 3 case EchoFlags => 2 case NoTransfer => 1
    case SendHead => 4 case SendContent => 3 case SendFileSum => 2 case FlushReply => 1
    case SkipHead => 3 case SkipContent => 2 case SkipFileSum => 1
    case EchoDone => 2 case FlushEcho => 1
    case SendFinal => 20 case FlushFinal => 19 case SendStats(left) => 10 + left case FlushStats => 9
    case ReplyBye => 2 case FlushBye => 1
    case _ => 0
  }

  // ---- the two together ----

  /** The whole system: each side's program, its unflushed writes, and the channel it reads from. */
  datatype System = System(
    rest: Program, r: Receiver, rbuf: seq<Msg>, toReceiver: seq<Msg>,
    s: Sender, sbuf: seq<Msg>, toSender: seq<Msg>)

  function Start(c: Config): System {
    System(ReceiverProgram(c, 0), Receiver(NoBasisHead(0), [], []), [], [], Loop(0), [], [])
  }

  predicate ReceiverCanStep(x: System) { x.rest.Do? && (x.rest.action.Read? ==> x.toReceiver != []) }

  predicate SenderCanStep(c: Config, x: System) {
    !x.s.pc.Finished? && (SAction(c, x.s).Read? ==> x.toSender != [])
  }

  /** One step of the receiver: write into the buffer, flush the buffer, or take the first message. */
  function ReceiverStep(c: Config, x: System): System
    requires ReceiverCanStep(x)
  {
    match x.rest.action
    case Write(m) => x.(rest := x.rest.next, rbuf := x.rbuf + [m])
    case Flush => x.(rest := x.rest.next, rbuf := [], toSender := x.toSender + x.rbuf)
    case Read(_) =>
      x.(rest := x.rest.next, r := RReceive(c, x.r, x.toReceiver[0]), toReceiver := x.toReceiver[1..])
  }

  function SenderStep(c: Config, x: System): System
    requires SenderCanStep(c, x)
  {
    match SAction(c, x.s)
    case Write(m) => x.(s := SAfter(c, x.s), sbuf := x.sbuf + [m])
    case Flush => x.(s := SAfter(c, x.s), sbuf := [], toReceiver := x.toReceiver + x.sbuf)
    case Read(_) => x.(s := SReceive(c, x.s, x.toSender[0]), toSender := x.toSender[1..])
  }

  /** A full buffer may go out at any moment, in part or whole. */
  function Spill(x: System, byReceiver: bool, n: nat): System
    requires n <= if byReceiver then |x.rbuf| else |x.sbuf|
  {
    if byReceiver then x.(rbuf := x.rbuf[n..], toSender := x.toSender + x.rbuf[..n])
    else x.(sbuf := x.sbuf[n..], toReceiver := x.toReceiver + x.sbuf[..n])
  }

  ghost predicate Step(c: Config, x: System, y: System) {
    || (ReceiverCanStep(x) && y == ReceiverStep(c, x))
    || (SenderCanStep(c, x) && y == SenderStep(c, x))
    || (exists n: nat :: 0 < n <= |x.rbuf| && y == Spill(x, true, n))
    || (exists n: nat :: 0 < n <= |x.sbuf| && y == Spill(x, false, n))
  }

  /** Any interleaving of the two sides from the start of the session. */
  ghost predicate IsRun(c: Config, run: seq<System>) {
    && run != [] && run[0] == Start(c)
    && forall i :: 0 <= i < |run| - 1 ==> Step(c, run[i], run[i + 1])
  }

  predicate Done(x: System) { x.rest.End? && x.s.pc.Finished? }

  /** The message at the head of a channel is of the kind that its reader, if about to read, expects. */
  predicate ReadsAsExpected(c: Config, x: System) {
    && (x.rest.Do? && x.rest.action.Read? && x.toReceiver != [] ==> KindOf(x.toReceiver[0]) == x.rest.action.kind)
    && (!x.s.pc.Finished? && SAction(c, x.s).Read? && x.toSender != [] ==>
          KindOf(x.toSender[0]) == SAction(c, x.s).kind)
  }
}
