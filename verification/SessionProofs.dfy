/** Safety, progress and outcome of every session. */
module SessionProofs {
  import opened Bytes
  import opened Layout
  import opened MatchBlocks
  import opened DeltaEngine
  import opened Transfer
  import opened Network
  import opened Session

  // ---- what remains to happen, given what is still to be read ----

  /** All messages a program will write. */
  function Writes(p: Program): seq<Msg> {
    if p.End? then [] else if p.action.Write? then [p.action.msg] + Writes(p.next) else Writes(p.next)
  }

  /** The steps that a sender takes when it reads `inputs`, up to its end or the lack of input. */
  function SenderProgram(c: Config, s: Sender, inputs: seq<Msg>): Program
    decreases |inputs|, Rank(s.pc)
  {
    if s.pc.Finished? then End
    else if SAction(c, s).Read? then
      Do(SAction(c, s), if inputs == [] then End else SenderProgram(c, SReceive(c, s, inputs[0]), inputs[1..]))
    else Do(SAction(c, s), SenderProgram(c, SAfter(c, s), inputs))
  }

  /** A sender that reads `inputs` finds the right kind each time, ends, and has read them all. */
  predicate SenderFits(c: Config, s: Sender, inputs: seq<Msg>)
    decreases |inputs|, Rank(s.pc)
  {
    if s.pc.Finished? then inputs == []
    else if SAction(c, s).Read? then
      inputs != [] && KindOf(inputs[0]) == SAction(c, s).kind && SenderFits(c, SReceive(c, s, inputs[0]), inputs[1..])
    else SenderFits(c, SAfter(c, s), inputs)
  }

  /** A receiver's program that reads `inputs` finds the right kind each time and leaves `left` unread. */
  predicate ReceiverFits(p: Program, inputs: seq<Msg>, left: seq<Msg>) {
    if p.End? then inputs == left
    else if p.action.Read? then
      inputs != [] && KindOf(inputs[0]) == p.action.kind && ReceiverFits(p.next, inputs[1..], left)
    else ReceiverFits(p.next, inputs, left)
  }

  /** The files on the receiver's side once its program has read `inputs`. */
  function FinalFiles(c: Config, r: Receiver, p: Program, inputs: seq<Msg>): seq<seq<byte>>
    decreases p
  {
    if p.End? then r.files
    else if p.action.Read? then
      if inputs == [] then r.files else FinalFiles(c, RReceive(c, r, inputs[0]), p.next, inputs[1..])
    else FinalFiles(c, r, p.next, inputs)
  }

  /** What nobody reads: one end marker at protocol 31, nothing at protocol 30. */
  function Unread(c: Config): seq<Msg> { if c.proto31 then [Ndx(NDX_DONE)] else [] }

  // ---- the invariant ----

  function ForSender(x: System): seq<Msg> { x.toSender + x.rbuf + Writes(x.rest) }

  function SenderRest(c: Config, x: System): Program { SenderProgram(c, x.s, ForSender(x)) }

  function ForReceiver(c: Config, x: System): seq<Msg> { x.toReceiver + x.sbuf + Writes(SenderRest(c, x)) }

  function InFlight(x: System): Counts { Counts(|x.toSender|, |x.rbuf|, |x.toReceiver|, |x.sbuf|) }

  /** What is still to come fits both readers and leads to the same files; some schedule finishes. */
  ghost predicate Inv(c: Config, x: System, files: seq<seq<byte>>, completes: bool) {
    && SenderFits(c, x.s, ForSender(x))
    && ReceiverFits(x.rest, ForReceiver(c, x), Unread(c))
    && FinalFiles(c, x.r, x.rest, ForReceiver(c, x)) == files
    && (completes ==> Completes(x.rest, SenderRest(c, x), InFlight(x)))
  }

  lemma ReceiverStepKeeps(c: Config, x: System, files: seq<seq<byte>>, completes: bool)
    requires Inv(c, x, files, completes) && ReceiverCanStep(x)
    ensures Inv(c, ReceiverStep(c, x), files, completes)
  {
    hide SenderProgram, SenderFits;
    var y := ReceiverStep(c, x);
    match x.rest.action {
      case Write(m) =>
        assert ForSender(x) == ForSender(y);
      case Flush =>
        assert ForSender(x) == ForSender(y);
      case Read(_) =>
        assert ForReceiver(c, x)[1..] == ForReceiver(c, y);
    }
    if completes {
      Advance(x.rest, SenderRest(c, x), InFlight(x));
    }
  }

  lemma SenderStepKeeps(c: Config, x: System, files: seq<seq<byte>>, completes: bool)
    requires Inv(c, x, files, completes) && SenderCanStep(c, x)
    ensures Inv(c, SenderStep(c, x), files, completes)
  {
    hide ReceiverFits, FinalFiles, SAction, SAfter, SReceive;
    var y := SenderStep(c, x);
    match SAction(c, x.s) {
      case Write(m) =>
        assert ForReceiver(c, x) == ForReceiver(c, y);
      case Flush =>
        assert ForReceiver(c, x) == ForReceiver(c, y);
      case Read(_) =>
        assert ForSender(x)[1..] == ForSender(y) && ForSender(x)[0] == x.toSender[0];
    }
    if completes {
      AdvanceOther(x.rest, SenderRest(c, x), InFlight(x));
    }
  }

  lemma ReceiverSpillKeeps(c: Config, x: System, n: nat, files: seq<seq<byte>>, completes: bool)
    requires Inv(c, x, files, completes) && n <= |x.rbuf|
    ensures Inv(c, Spill(x, true, n), files, completes)
    ensures SenderRest(c, Spill(x, true, n)) == SenderRest(c, x)
  {
    hide SenderProgram, SenderFits, ReceiverFits, FinalFiles;
    var y := Spill(x, true, n);
    assert x.rbuf[..n] + x.rbuf[n..] == x.rbuf;
    assert ForSender(x) == ForSender(y);
    if completes {
      EarlyDelivery(x.rest, SenderRest(c, x), InFlight(x), n);
    }
  }

  lemma SenderSpillKeeps(c: Config, x: System, n: nat, files: seq<seq<byte>>, completes: bool)
    requires Inv(c, x, files, completes) && n <= |x.sbuf|
    ensures Inv(c, Spill(x, false, n), files, completes)
  {
    hide SenderProgram, SenderFits, ReceiverFits, FinalFiles;
    var y := Spill(x, false, n);
    assert x.sbuf[..n] + x.sbuf[n..] == x.sbuf;
    assert ForReceiver(c, x) == ForReceiver(c, y);
    if completes {
      Symmetric(x.rest, SenderRest(c, x), InFlight(x));
      EarlyDelivery(SenderRest(c, x), x.rest, Swap(InFlight(x)), n);
      Symmetric(SenderRest(c, x), x.rest, Swap(InFlight(y)));
    }
  }

  /** Every step of every interleaving keeps the invariant. */
  lemma StepKeeps(c: Config, x: System, y: System, files: seq<seq<byte>>, completes: bool)
    requires Inv(c, x, files, completes) && Step(c, x, y)
    ensures Inv(c, y, files, completes)
  {
    hide Inv, ReceiverCanStep, SenderCanStep, ReceiverStep, SenderStep;
    if ReceiverCanStep(x) && y == ReceiverStep(c, x) {
      ReceiverStepKeeps(c, x, files, completes);
    } else if SenderCanStep(c, x) && y == SenderStep(c, x) {
      SenderStepKeeps(c, x, files, completes);
    } else if n: nat :| 0 < n <= |x.rbuf| && y == Spill(x, true, n) {
      ReceiverSpillKeeps(c, x, n, files, completes);
    } else {
      var n: nat :| 0 < n <= |x.sbuf| && y == Spill(x, false, n);
      SenderSpillKeeps(c, x, n, files, completes);
    }
  }

  /** The steps still possible, however they are interleaved. */
  function Work(c: Config, x: System): nat {
    2 * (Len(x.rest) + Len(SenderRest(c, x))) + |x.rbuf| + |x.sbuf|
  }

  lemma ReceiverWorks(c: Config, x: System)
    requires ReceiverCanStep(x)
    ensures Work(c, ReceiverStep(c, x)) < Work(c, x)
  {
    hide SenderProgram;
    if !x.rest.action.Read? {
      assert ForSender(x) == ForSender(ReceiverStep(c, x));
    }
  }

  lemma SenderWorks(c: Config, x: System)
    requires SenderCanStep(c, x)
    ensures Work(c, SenderStep(c, x)) < Work(c, x)
  {
    hide SAction, SAfter, SReceive;
    if SAction(c, x.s).Read? {
      assert ForSender(x)[1..] == ForSender(SenderStep(c, x)) && ForSender(x)[0] == x.toSender[0];
    } else {
      assert ForSender(x) == ForSender(SenderStep(c, x));
    }
  }

  /** Every step of every interleaving uses up work, so every run ends. */
  lemma WorkShrinks(c: Config, x: System, y: System)
    requires Step(c, x, y)
    ensures Work(c, y) < Work(c, x)
  {
    hide SenderProgram, ReceiverStep, SenderStep, ReceiverCanStep, SenderCanStep, Work, Spill;
    if ReceiverCanStep(x) && y == ReceiverStep(c, x) {
      ReceiverWorks(c, x);
    } else if SenderCanStep(c, x) && y == SenderStep(c, x) {
      SenderWorks(c, x);
    } else if n: nat :| 0 < n <= |x.rbuf| && y == Spill(x, true, n) {
      SpillWorks(c, x, true, n);
    } else {
      var n: nat :| 0 < n <= |x.sbuf| && y == Spill(x, false, n);
      SpillWorks(c, x, false, n);
    }
  }

  lemma SpillWorks(c: Config, x: System, byReceiver: bool, n: nat)
    requires 0 < n <= if byReceiver then |x.rbuf| else |x.sbuf|
    ensures Work(c, Spill(x, byReceiver, n)) < Work(c, x)
  {
    hide SenderProgram;
    var y := Spill(x, byReceiver, n);
    if byReceiver {
      assert x.rbuf[..n] + x.rbuf[n..] == x.rbuf;
    }
    assert ForSender(x) == ForSender(y);
  }

  // ---- one file ----

  /** The sender's steps for one request that it can serve. */
  function Serve(c: Config, req: Request, next: Program): Program {
    var head, sums := RequestHead(c, req), RequestSums(c, req);
    R(KNdx, R(KFlags, W(Ndx(req.ndx), W(Flags(true), R(KHead, R(KSums(head.count), Deliver(c, req, next)))))))
  }

  function Deliver(c: Config, req: Request, next: Program): Program {
    W(Head(RequestHead(c, req)), W(Content(Answer(c, req)), W(FileSum(AnswerSum(c, req)),
      if req.ndx in c.sources then F(next) else next)))
  }

  /** The content sent for a request; nothing for a file that cannot be read. */
  function Answer(c: Config, req: Request): seq<T.Item> {
    if req.ndx in c.sources then
      ReplyItems(c, Sender(SendContent, 0, req.ndx, true, RequestHead(c, req), RequestSums(c, req)))
    else []
  }

  function AnswerSum(c: Config, req: Request): Digest {
    if req.ndx in c.sources then c.md5(c.sources[req.ndx]) else ZeroDigest()
  }

  /** The file that the receiver makes of the answer. */
  function Outcome(c: Config, req: Request): seq<byte> {
    var head := RequestHead(c, req);
    if head.blength >= 0 && head.remainder >= 0 then Rebuild(Answer(c, req), BasisBytes(req.basis), head) else []
  }

  function Outcomes(c: Config): seq<seq<byte>> {
    seq(|c.requests|, k requires 0 <= k < |c.requests| => Outcome(c, c.requests[k]))
  }

  function Asked(c: Config, req: Request): seq<Msg> {
    [Ndx(req.ndx), Flags(true), Head(RequestHead(c, req)), Sums(RequestSums(c, req))]
  }

  function Delivered(c: Config, req: Request): seq<Msg> {
    [Ndx(req.ndx), Flags(true), Head(RequestHead(c, req)), Content(Answer(c, req)), FileSum(AnswerSum(c, req))]
  }

  lemma AskWrites(c: Config, req: Request, next: Program)
    ensures Writes(Ask(c, req, next)) == Asked(c, req) + Writes(next)
  {
    hide RequestHead, RequestSums;
    var p4 := F(Collect(next));
    var p3 := W(Sums(RequestSums(c, req)), p4);
    var p2 := W(Head(RequestHead(c, req)), p3);
    var p1 := W(Flags(true), p2);
    assert Writes(Collect(next)) == Writes(next) by { CollectWrites(next); }
    assert Writes(p1) == [Flags(true)] + Writes(p2) && Writes(p2) == [Head(RequestHead(c, req))] + Writes(p3)
        && Writes(p3) == [Sums(RequestSums(c, req))] + Writes(p4) && Writes(p4) == Writes(next);
  }

  lemma CollectWrites(next: Program)
    ensures Writes(Collect(next)) == Writes(next)
  {
    var q1 := R(KFileSum, next);
    var q2 := R(KContent, q1);
    var q3 := R(KHead, q2);
    var q4 := R(KFlags, q3);
    assert Writes(q1) == Writes(next) && Writes(q2) == Writes(q1) && Writes(q3) == Writes(q2)
           && Writes(q4) == Writes(q3);
  }

  lemma ServeWrites(c: Config, req: Request, next: Program)
    ensures Writes(Serve(c, req, next)) == Delivered(c, req) + Writes(next)
  {
    hide RequestHead, RequestSums, Answer, AnswerSum;
    var end := if req.ndx in c.sources then F(next) else next;
    var d2 := W(FileSum(AnswerSum(c, req)), end);
    var d1 := W(Content(Answer(c, req)), d2);
    var d0 := Deliver(c, req, next);
    var e1 := R(KSums(RequestHead(c, req).count), d0);
    var e2 := R(KHead, e1);
    var e3 := W(Flags(true), e2);
    var e4 := W(Ndx(req.ndx), e3);
    var e5 := R(KFlags, e4);
    assert Writes(end) == Writes(next) && Writes(d2) == [FileSum(AnswerSum(c, req))] + Writes(end)
        && Writes(d1) == [Content(Answer(c, req))] + Writes(d2)
           && Writes(d0) == [Head(RequestHead(c, req))] + Writes(d1);
    assert Writes(e1) == Writes(d0) && Writes(e2) == Writes(e1) && Writes(e3) == [Flags(true)] + Writes(e2)
        && Writes(e4) == [Ndx(req.ndx)] + Writes(e3) && Writes(e5) == Writes(e4);
  }

  lemma SenderReads(c: Config, s: Sender, m: Msg, rest: seq<Msg>)
    requires !s.pc.Finished? && SAction(c, s) == Read(KindOf(m))
    ensures SenderProgram(c, s, [m] + rest) == R(KindOf(m), SenderProgram(c, SReceive(c, s, m), rest))
    ensures SenderFits(c, s, [m] + rest) <==> SenderFits(c, SReceive(c, s, m), rest)
  {
    hide SAction, SReceive, KindOf;
    assert ([m] + rest)[1..] == rest;
  }

  lemma SenderActs(c: Config, s: Sender, rest: seq<Msg>)
    requires !s.pc.Finished? && !SAction(c, s).Read?
    ensures SenderProgram(c, s, rest) == Do(SAction(c, s), SenderProgram(c, SAfter(c, s), rest))
    ensures SenderFits(c, s, rest) <==> SenderFits(c, SAfter(c, s), rest)
  {
    hide SAction, SAfter;
  }

  /** One turn of the sender's loop, from request to answer. */
  lemma SenderServes(c: Config, req: Request, rest: seq<Msg>)
    requires |RequestSums(c, req)| == RequestHead(c, req).count
    ensures SenderProgram(c, Loop(0), Asked(c, req) + rest) == Serve(c, req, SenderProgram(c, Loop(0), rest))
    ensures SenderFits(c, Loop(0), Asked(c, req) + rest) <==> SenderFits(c, Loop(0), rest)
  {
    hide RequestHead, RequestSums, ReplyItems, SenderProgram, SenderFits, Deliver;
    var head, sums := RequestHead(c, req), RequestSums(c, req);
    var in2 := [Head(head)] + ([Sums(sums)] + rest);
    var in1 := [Flags(true)] + in2;
    assert Asked(c, req) + rest == [Ndx(req.ndx)] + in1;
    var t1 := Loop(0).(pc := AwaitFlags, idx := req.ndx);
    var t2 := t1.(pc := EchoNdx, transfer := true);
    SenderReads(c, Loop(0), Ndx(req.ndx), in1);
    SenderReads(c, t1, Flags(true), in2);
    SenderEchoes(c, t2, in2);
    SenderTakesSums(c, req, t2.(pc := AwaitHead), rest);
  }

  lemma SenderTakesSums(c: Config, req: Request, t: Sender, rest: seq<Msg>)
    requires |RequestSums(c, req)| == RequestHead(c, req).count
             && t == Loop(0).(pc := AwaitHead, idx := req.ndx, transfer := true)
    ensures var head, sums := RequestHead(c, req), RequestSums(c, req);
            SenderProgram(c, t, [Head(head)] + ([Sums(sums)] + rest))
            == R(KHead, R(KSums(head.count), Deliver(c, req, SenderProgram(c, Loop(0), rest))))
    ensures var head, sums := RequestHead(c, req), RequestSums(c, req);
            SenderFits(c, t, [Head(head)] + ([Sums(sums)] + rest)) <==> SenderFits(c, Loop(0), rest)
  {
    hide RequestHead, RequestSums, ReplyItems, SenderProgram, SenderFits, Deliver;
    var head, sums := RequestHead(c, req), RequestSums(c, req);
    SenderReads(c, t, Head(head), [Sums(sums)] + rest);
    SenderReads(c, t.(pc := AwaitSums, head := head), Sums(sums), rest);
    SenderDelivers(c, req, t.(pc := if req.ndx in c.sources then SendHead else SkipHead, head := head, sums := sums),
      rest);
  }

  lemma SenderEchoes(c: Config, s: Sender, rest: seq<Msg>)
    requires s.pc.EchoNdx? && s.transfer
    ensures SenderProgram(c, s, rest) == W(Ndx(s.idx), W(Flags(true), SenderProgram(c, s.(pc := AwaitHead), rest)))
    ensures SenderFits(c, s, rest) <==> SenderFits(c, s.(pc := AwaitHead), rest)
  {
    hide SenderProgram, SenderFits;
    SenderActs(c, s, rest);
    SenderActs(c, s.(pc := EchoFlags), rest);
  }

  lemma SenderDelivers(c: Config, req: Request, t: Sender, rest: seq<Msg>)
    requires t == Sender(if req.ndx in c.sources then SendHead else SkipHead, 0, req.ndx, true,
                         RequestHead(c, req), RequestSums(c, req))
    ensures SenderProgram(c, t, rest) == Deliver(c, req, SenderProgram(c, Loop(0), rest))
    ensures SenderFits(c, t, rest) <==> SenderFits(c, Loop(0), rest)
  {
    hide RequestHead, RequestSums, SenderProgram, SenderFits;
    if req.ndx in c.sources {
      SenderSends(c, t, rest);
      assert ReplyItems(c, t.(pc := SendContent)) == Answer(c, req);
    } else {
      SenderSkips(c, t, rest);
    }
  }

  lemma SenderSends(c: Config, t: Sender, rest: seq<Msg>)
    requires t.pc.SendHead? && t.idx in c.sources
    ensures SenderProgram(c, t, rest)
         == W(Head(t.head), W(Content(ReplyItems(c, t.(pc := SendContent))), W(FileSum(c.md5(c.sources[t.idx])),
              F(SenderProgram(c, Loop(t.phase), rest)))))
    ensures SenderFits(c, t, rest) <==> SenderFits(c, Loop(t.phase), rest)
  {
    hide SenderProgram, SenderFits, ReplyItems;
    SenderActs(c, t, rest);
    SenderActs(c, t.(pc := SendContent), rest);
    SenderActs(c, t.(pc := SendFileSum), rest);
    SenderActs(c, t.(pc := FlushReply), rest);
  }

  lemma SenderSkips(c: Config, t: Sender, rest: seq<Msg>)
    requires t.pc.SkipHead?
    ensures SenderProgram(c, t, rest)
         == W(Head(t.head), W(Content([]), W(FileSum(ZeroDigest()), SenderProgram(c, Loop(t.phase), rest))))
    ensures SenderFits(c, t, rest) <==> SenderFits(c, Loop(t.phase), rest)
  {
    hide SenderProgram, SenderFits;
    SenderActs(c, t, rest);
    SenderActs(c, t.(pc := SkipContent), rest);
    SenderActs(c, t.(pc := SkipFileSum), rest);
  }

  lemma ReceiverReads(c: Config, r: Receiver, p: Program, m: Msg, rest: seq<Msg>, left: seq<Msg>)
    ensures ReceiverFits(R(KindOf(m), p), [m] + rest, left) <==> ReceiverFits(p, rest, left)
    ensures FinalFiles(c, r, R(KindOf(m), p), [m] + rest) == FinalFiles(c, RReceive(c, r, m), p, rest)
  {
    hide KindOf, RReceive;
    assert ([m] + rest)[1..] == rest;
  }

  /** The receiver's side of one file: five reads of the right kinds, and the rebuilt content is kept. */
  lemma ReceiverCollects(c: Config, req: Request, next: Program, rest: seq<Msg>, left: seq<Msg>, r: Receiver)
    requires |r.files| < |c.requests| && req == c.requests[|r.files|]
    ensures var inputs := Delivered(c, req) + rest;
            && (ReceiverFits(Ask(c, req, next), inputs, left) <==> ReceiverFits(next, rest, left))
            && FinalFiles(c, r, Ask(c, req, next), inputs)
               == FinalFiles(c, Receiver(RequestHead(c, req), Outcome(c, req), r.files + [Outcome(c, req)]), next, rest)
  {
    hide RequestHead, RequestSums, Answer, AnswerSum, ReceiverFits, FinalFiles;
    var in4 := [FileSum(AnswerSum(c, req))] + rest;
    var in3 := [Content(Answer(c, req))] + in4;
    var in2 := [Head(RequestHead(c, req))] + in3;
    var in1 := [Flags(true)] + in2;
    assert Delivered(c, req) + rest == [Ndx(req.ndx)] + in1;
    var q1 := R(KFileSum, next);
    var q2 := R(KContent, q1);
    var q3 := R(KHead, q2);
    var q4 := R(KFlags, q3);
    var r3 := r.(echo := RequestHead(c, req));
    var r4 := r3.(rebuilt := Outcome(c, req));
    SkipWrites(c, req, next, Delivered(c, req) + rest, left, r);
    ReceiverReads(c, r, q4, Ndx(req.ndx), in1, left);
    ReceiverReads(c, r, q3, Flags(true), in2, left);
    ReceiverReads(c, r, q2, Head(RequestHead(c, req)), in3, left);
    ReceiverReads(c, r3, q1, Content(Answer(c, req)), in4, left);
    ReceiverReads(c, r4, next, FileSum(AnswerSum(c, req)), rest, left);
  }

  lemma SkipWrites(c: Config, req: Request, next: Program, inputs: seq<Msg>, left: seq<Msg>, r: Receiver)
    ensures ReceiverFits(Ask(c, req, next), inputs, left) <==> ReceiverFits(Collect(next), inputs, left)
    ensures FinalFiles(c, r, Ask(c, req, next), inputs) == FinalFiles(c, r, Collect(next), inputs)
  {
    hide RequestHead, RequestSums;
    var p4 := F(Collect(next));
    var p3 := W(Sums(RequestSums(c, req)), p4);
    var p2 := W(Head(RequestHead(c, req)), p3);
    assert ReceiverFits(p3, inputs, left) <==> ReceiverFits(p4, inputs, left);
    assert ReceiverFits(p2, inputs, left) <==> ReceiverFits(p3, inputs, left);
    assert FinalFiles(c, r, p3, inputs) == FinalFiles(c, r, p4, inputs);
    assert FinalFiles(c, r, p2, inputs) == FinalFiles(c, r, p3, inputs);
  }

  /** The schedule of one file: the receiver asks, the sender answers, the receiver collects. It works exactly when
      the sender flushes its answer, which it does not do for a file that it cannot read. */
  lemma FileCompletes(c: Config, req: Request, p: Program, q: Program)
    requires q.Do? && q.action.Read?
    ensures Completes(Ask(c, req, p), Serve(c, req, q), NOTHING) <==> req.ndx in c.sources && Completes(p, q, NOTHING)
  {
    hide Completes, RequestHead, RequestSums, Answer, AnswerSum, Deliver;
    var p1, q1 := Collect(p), Deliver(c, req, q);
    AskAll(c, req, p1, Serve(c, req, q));
    HearAll(c, req, p1, q1);
    DeliverAll(c, req, p1, q);
    if req.ndx in c.sources {
      CollectAll(p, q);
    } else {
      Stuck(p1, q, Counts(0, 0, 0, 5));
    }
  }

  lemma Stuck(p: Program, q: Program, n: Counts)
    requires p.Do? && q.Do? && p.action.Read? && q.action.Read? && n.sent == 0 && n.arrived == 0
    ensures !Completes(p, q, n)
  {
  }

  lemma AskAll(c: Config, req: Request, p: Program, q: Program)
    ensures Completes(W(Ndx(req.ndx), W(Flags(true), W(Head(RequestHead(c, req)), W(Sums(RequestSums(c, req)), F(p))))),
            q, NOTHING)
            <==> Completes(p, q, Counts(4, 0, 0, 0))
  {
    hide Completes, RequestHead, RequestSums;
    var p4 := F(p);
    var p3 := W(Sums(RequestSums(c, req)), p4);
    var p2 := W(Head(RequestHead(c, req)), p3);
    var p1 := W(Flags(true), p2);
    Advance(W(Ndx(req.ndx), p1), q, NOTHING);
    Advance(p1, q, Counts(0, 1, 0, 0));
    Advance(p2, q, Counts(0, 2, 0, 0));
    Advance(p3, q, Counts(0, 3, 0, 0));
    Advance(p4, q, Counts(0, 4, 0, 0));
  }

  lemma HearAll(c: Config, req: Request, p: Program, q: Program)
    ensures var k := KSums(RequestHead(c, req).count);
            Completes(p, R(KNdx, R(KFlags, W(Ndx(req.ndx), W(Flags(true), R(KHead, R(k, q)))))), Counts(4, 0, 0, 0))
            <==> Completes(p, q, Counts(0, 0, 0, 2))
  {
    hide Completes, RequestHead;
    var q5 := R(KSums(RequestHead(c, req).count), q);
    var q4 := R(KHead, q5);
    var q3 := W(Flags(true), q4);
    var q2 := W(Ndx(req.ndx), q3);
    var q1 := R(KFlags, q2);
    AdvanceOther(p, R(KNdx, q1), Counts(4, 0, 0, 0));
    AdvanceOther(p, q1, Counts(3, 0, 0, 0));
    AdvanceOther(p, q2, Counts(2, 0, 0, 0));
    AdvanceOther(p, q3, Counts(2, 0, 0, 1));
    AdvanceOther(p, q4, Counts(2, 0, 0, 2));
    AdvanceOther(p, q5, Counts(1, 0, 0, 2));
  }

  lemma DeliverAll(c: Config, req: Request, p: Program, q: Program)
    ensures Completes(p, Deliver(c, req, q), Counts(0, 0, 0, 2))
            <==> Completes(p, q, if req.ndx in c.sources then Counts(0, 0, 5, 0) else Counts(0, 0, 0, 5))
  {
    hide Completes, RequestHead, Answer, AnswerSum;
    var q3 := if req.ndx in c.sources then F(q) else q;
    var q2 := W(FileSum(AnswerSum(c, req)), q3);
    var q1 := W(Content(Answer(c, req)), q2);
    AdvanceOther(p, W(Head(RequestHead(c, req)), q1), Counts(0, 0, 0, 2));
    AdvanceOther(p, q1, Counts(0, 0, 0, 3));
    AdvanceOther(p, q2, Counts(0, 0, 0, 4));
    if req.ndx in c.sources {
      AdvanceOther(p, q3, Counts(0, 0, 0, 5));
    }
  }

  lemma CollectAll(p: Program, q: Program)
    ensures Completes(Collect(p), q, Counts(0, 0, 5, 0)) <==> Completes(p, q, NOTHING)
  {
    hide Completes;
    var p4 := R(KFileSum, p);
    var p3 := R(KContent, p4);
    var p2 := R(KHead, p3);
    var p1 := R(KFlags, p2);
    Advance(R(KNdx, p1), q, Counts(0, 0, 5, 0));
    Advance(p1, q, Counts(0, 0, 4, 0));
    Advance(p2, q, Counts(0, 0, 3, 0));
    Advance(p3, q, Counts(0, 0, 2, 0));
    Advance(p4, q, Counts(0, 0, 1, 0));
  }

  // ---- phases and goodbye ----

  const BYE := Ndx(NDX_DONE)

  function Echo(next: Program): Program { R(KNdx, W(BYE, F(next))) }

  /** The sender's steps once the receiver asks for nothing more. */
  function SenderGoodbye(c: Config): Program {
    Echo(Echo(R(KNdx, W(BYE, F(SenderFarewell(c))))))
  }

  function SenderFarewell(c: Config): Program {
    var bye := if c.proto31 then R(KNdx, W(BYE, F(R(KNdx, End)))) else R(KNdx, End);
    if c.pull then W(Stat, W(Stat, W(Stat, W(Stat, W(Stat, F(bye)))))) else bye
  }

  function ByeMessages(c: Config): seq<Msg> {
    [BYE] + ([BYE] + ([BYE] + ([BYE] + if c.proto31 then [BYE] else [])))
  }

  lemma GoodbyeWrites(c: Config)
    ensures Writes(Goodbye(c)) == ByeMessages(c)
  {
    StatsWrites(5);
    var p0 := Farewell(c);
    assert Writes(p0) == if c.proto31 then [BYE] else [] by {
      if c.proto31 {
        var stats := if c.pull then ReadStats(5) else End;
        assert Writes(F(stats)) == [] && Writes(W(BYE, F(stats))) == [BYE];
      }
    }
    var p1 := W(BYE, F(p0));
    var p2 := W(BYE, F(p1));
    assert Writes(p1) == [BYE] + Writes(p0) && Writes(p2) == [BYE] + Writes(p1);
    PhaseWrites(p2);
    PhaseWrites(PhaseEnd(p2));
  }

  lemma {:induction false} StatsWrites(n: nat)
    ensures Writes(ReadStats(n)) == []
  {
    if n > 0 {
      StatsWrites(n - 1);
    }
  }

  lemma PhaseWrites(p: Program)
    ensures Writes(PhaseEnd(p)) == [BYE] + Writes(p)
  {
    assert Writes(R(KNdx, p)) == Writes(p) && Writes(F(R(KNdx, p))) == Writes(p);
  }

  /** The sender's phase machine on the receiver's end markers. */
  lemma SenderSaysGoodbye(c: Config)
    ensures SenderProgram(c, Loop(0), ByeMessages(c)) == SenderGoodbye(c)
    ensures SenderFits(c, Loop(0), ByeMessages(c))
  {
    hide SenderProgram, SenderFits, ReplyItems;
    var in4: seq<Msg> := if c.proto31 then [BYE] else [];
    var in3 := [BYE] + in4;
    var in2 := [BYE] + in3;
    SenderEchoesDone(c, 0, [BYE] + in2);
    SenderEchoesDone(c, 1, in2);
    SenderReads(c, Loop(2), BYE, in3);
    var t := Loop(2).(pc := SendFinal, phase := 3);
    SenderActs(c, t, in3);
    SenderActs(c, t.(pc := FlushFinal), in3);
    SenderFarewells(c, t.(pc := if c.pull then SendStats(5) else AwaitBye));
  }

  lemma SenderEchoesDone(c: Config, phase: nat, rest: seq<Msg>)
    requires phase < MAX_PHASE
    ensures SenderProgram(c, Loop(phase), [BYE] + rest) == Echo(SenderProgram(c, Loop(phase + 1), rest))
    ensures SenderFits(c, Loop(phase), [BYE] + rest) <==> SenderFits(c, Loop(phase + 1), rest)
  {
    hide SenderProgram, SenderFits;
    SenderReads(c, Loop(phase), BYE, rest);
    SenderActs(c, Loop(phase).(pc := EchoDone, phase := phase + 1), rest);
    SenderActs(c, Loop(phase).(pc := FlushEcho, phase := phase + 1), rest);
  }

  lemma SenderFarewells(c: Config, s: Sender)
    requires s.pc == if c.pull then SendStats(5) else AwaitBye
    ensures var inputs := [BYE] + (if c.proto31 then [BYE] else []);
            SenderProgram(c, s, inputs) == SenderFarewell(c) && SenderFits(c, s, inputs)
  {
    hide SenderProgram, SenderFits, ReplyItems;
    if c.pull {
      SenderSendsStats(c, s, [BYE] + (if c.proto31 then [BYE] else []));
    }
    SenderLeaves(c, s.(pc := AwaitBye));
  }

  lemma SenderSendsStats(c: Config, s: Sender, inputs: seq<Msg>)
    requires s.pc == SendStats(5)
    ensures SenderProgram(c, s, inputs)
            == W(Stat, W(Stat, W(Stat, W(Stat, W(Stat, F(SenderProgram(c, s.(pc := AwaitBye), inputs)))))))
    ensures SenderFits(c, s, inputs) <==> SenderFits(c, s.(pc := AwaitBye), inputs)
  {
    hide SenderProgram, SenderFits, SAction, SAfter;
    SenderSendsStat(c, s, 5, inputs);
    SenderSendsStat(c, s.(pc := SendStats(4)), 4, inputs);
    SenderSendsStat(c, s.(pc := SendStats(3)), 3, inputs);
    SenderSendsStat(c, s.(pc := SendStats(2)), 2, inputs);
    SenderSendsStat(c, s.(pc := SendStats(1)), 1, inputs);
  }

  lemma SenderSendsStat(c: Config, s: Sender, n: nat, inputs: seq<Msg>)
    requires s.pc == SendStats(n) && n > 0
    ensures var next := if n > 1 then SenderProgram(c, s.(pc := SendStats(n - 1)), inputs)
            else F(SenderProgram(c, s.(pc := AwaitBye), inputs));
            SenderProgram(c, s, inputs) == W(Stat, next)
    ensures SenderFits(c, s, inputs) <==> SenderFits(c, s.(pc := if n > 1 then SendStats(n - 1) else AwaitBye), inputs)
  {
    hide SenderProgram, SenderFits, ReplyItems;
    SenderActs(c, s, inputs);
    if n == 1 {
      SenderActs(c, s.(pc := FlushStats), inputs);
    }
  }

  lemma SenderLeaves(c: Config, s: Sender)
    requires s.pc.AwaitBye?
    ensures var inputs := [BYE] + (if c.proto31 then [BYE] else []);
            SenderProgram(c, s, inputs) == (if c.proto31 then R(KNdx, W(BYE, F(R(KNdx, End)))) else R(KNdx, End))
            && SenderFits(c, s, inputs)
  {
    hide SenderProgram, SenderFits, ReplyItems;
    if c.proto31 {
      SenderReads(c, s, BYE, [BYE]);
      SenderAnswersBye(c, s.(pc := ReplyBye));
    } else {
      SenderReads(c, s, BYE, []);
      NothingLeft(c, s.(pc := Finished));
    }
  }

  lemma SenderAnswersBye(c: Config, s: Sender)
    requires s.pc.ReplyBye?
    ensures SenderProgram(c, s, [BYE]) == W(BYE, F(R(KNdx, End))) && SenderFits(c, s, [BYE])
  {
    hide SenderProgram, SenderFits, ReplyItems;
    SenderActs(c, s, [BYE]);
    SenderActs(c, s.(pc := FlushBye), [BYE]);
    SenderReads(c, s.(pc := AwaitBye2), BYE, []);
    assert [BYE] + [] == [BYE];
    NothingLeft(c, s.(pc := Finished));
  }

  lemma NothingLeft(c: Config, s: Sender)
    requires s.pc.Finished?
    ensures SenderProgram(c, s, []) == End && SenderFits(c, s, [])
  {
  }

  // ---- the receiver's end, and the schedule of the goodbye ----

  lemma SenderGoodbyeWrites(c: Config)
    ensures Writes(SenderGoodbye(c))
         == [BYE] + ([BYE] + ([BYE] + ((if c.pull then [Stat, Stat, Stat, Stat, Stat] else []) + Unread(c))))
  {
    var bye := if c.proto31 then R(KNdx, W(BYE, F(R(KNdx, End)))) else R(KNdx, End);
    assert Writes(bye) == Unread(c) by {
      if c.proto31 {
        assert Writes(R(KNdx, End)) == [] && Writes(F(R(KNdx, End))) == [] && Writes(W(BYE, F(R(KNdx, End)))) == [BYE];
      }
    }
    var f := SenderFarewell(c);
    assert Writes(f) == (if c.pull then [Stat, Stat, Stat, Stat, Stat] else []) + Unread(c) by {
      if c.pull {
        var w1 := W(Stat, F(bye));
        var w2 := W(Stat, w1);
        var w3 := W(Stat, w2);
        var w4 := W(Stat, w3);
        assert Writes(w1) == [Stat] + Writes(bye) && Writes(w2) == [Stat] + Writes(w1)
            && Writes(w3) == [Stat] + Writes(w2) && Writes(w4) == [Stat] + Writes(w3);
      }
    }
    var last := R(KNdx, W(BYE, F(f)));
    assert Writes(last) == [BYE] + Writes(f) by { EchoWrites(f); }
    EchoWrites(last);
    EchoWrites(Echo(last));
  }

  lemma EchoWrites(q: Program)
    ensures Writes(Echo(q)) == [BYE] + Writes(q)
  {
    assert Writes(F(q)) == Writes(q) && Writes(W(BYE, F(q))) == [BYE] + Writes(q);
  }

  /** The receiver reads two echoes, the sender's end marker and, as a client, the statistics. */
  lemma ReceiverSaysGoodbye(c: Config, r: Receiver)
    ensures ReceiverFits(Goodbye(c), Writes(SenderGoodbye(c)), Unread(c))
    ensures FinalFiles(c, r, Goodbye(c), Writes(SenderGoodbye(c))) == r.files
  {
    hide Writes;
    SenderGoodbyeWrites(c);
    var stats: seq<Msg> := if c.pull then [Stat, Stat, Stat, Stat, Stat] else [];
    var in3 := stats + Unread(c);
    var in2 := [BYE] + in3;
    var p0 := Farewell(c);
    ReceiverFarewells(c, r);
    var p1 := W(BYE, F(W(BYE, F(p0))));
    assert ReceiverFits(p1, in2, Unread(c)) && FinalFiles(c, r, p1, in2) == r.files by {
      var p' := W(BYE, F(p0));
      assert ReceiverFits(F(p0), in2, Unread(c)) && FinalFiles(c, r, F(p0), in2) == r.files;
      assert ReceiverFits(p', in2, Unread(c)) && FinalFiles(c, r, p', in2) == r.files;
      assert ReceiverFits(F(p'), in2, Unread(c)) && FinalFiles(c, r, F(p'), in2) == r.files;
    }
    PhaseRead(c, r, p1, in2);
    PhaseRead(c, r, PhaseEnd(p1), [BYE] + in2);
  }

  lemma PhaseRead(c: Config, r: Receiver, p: Program, rest: seq<Msg>)
    ensures ReceiverFits(PhaseEnd(p), [BYE] + rest, Unread(c)) <==> ReceiverFits(p, rest, Unread(c))
    ensures FinalFiles(c, r, PhaseEnd(p), [BYE] + rest) == FinalFiles(c, r, p, rest)
  {
    assert ([BYE] + rest)[1..] == rest;
    var p1 := R(KNdx, p);
    assert ReceiverFits(p1, [BYE] + rest, Unread(c)) <==> ReceiverFits(p, rest, Unread(c));
    assert ReceiverFits(F(p1), [BYE] + rest, Unread(c)) <==> ReceiverFits(p1, [BYE] + rest, Unread(c));
    assert FinalFiles(c, r, p1, [BYE] + rest) == FinalFiles(c, r, p, rest);
    assert FinalFiles(c, r, F(p1), [BYE] + rest) == FinalFiles(c, r, p1, [BYE] + rest);
  }

  lemma ReceiverFarewells(c: Config, r: Receiver)
    ensures var stats: seq<Msg> := if c.pull then [Stat, Stat, Stat, Stat, Stat] else [];
            ReceiverFits(Farewell(c), [BYE] + (stats + Unread(c)), Unread(c))
            && FinalFiles(c, r, Farewell(c), [BYE] + (stats + Unread(c))) == r.files
  {
    var stats: seq<Msg> := if c.pull then [Stat, Stat, Stat, Stat, Stat] else [];
    var inputs := stats + Unread(c);
    var p := if c.pull then ReadStats(5) else End;
    assert ReceiverFits(p, inputs, Unread(c)) && FinalFiles(c, r, p, inputs) == r.files by {
      if c.pull {
        StatsRead(c, r, 5, Unread(c));
      } else {
        assert inputs == Unread(c);
      }
    }
    assert ([BYE] + inputs)[1..] == inputs;
    if c.proto31 {
      assert ReceiverFits(F(p), inputs, Unread(c)) && FinalFiles(c, r, F(p), inputs) == r.files;
      assert ReceiverFits(W(BYE, F(p)), inputs, Unread(c)) && FinalFiles(c, r, W(BYE, F(p)), inputs) == r.files;
    }
  }

  lemma {:induction false} StatsRead(c: Config, r: Receiver, n: nat, left: seq<Msg>)
    ensures ReceiverFits(ReadStats(n), seq(n, i => Stat) + left, left)
    ensures FinalFiles(c, r, ReadStats(n), seq(n, i => Stat) + left) == r.files
    ensures seq(5, i => Stat) == [Stat, Stat, Stat, Stat, Stat]
  {
    if n > 0 {
      assert (seq(n, i => Stat) + left)[1..] == seq(n - 1, i => Stat) + left;
      StatsRead(c, r, n - 1, left);
    } else {
      assert seq(n, i => Stat) + left == left;
    }
  }

  lemma PhaseCompletes(p: Program, q: Program)
    ensures Completes(PhaseEnd(p), Echo(q), NOTHING) <==> Completes(p, q, NOTHING)
  {
    hide Completes;
    var p2 := R(KNdx, p);
    var p1 := F(p2);
    var q2 := F(q);
    var q1 := W(BYE, q2);
    Advance(PhaseEnd(p), Echo(q), NOTHING);
    Advance(p1, Echo(q), Counts(0, 1, 0, 0));
    AdvanceOther(p2, Echo(q), Counts(1, 0, 0, 0));
    AdvanceOther(p2, q1, NOTHING);
    AdvanceOther(p2, q2, Counts(0, 0, 0, 1));
    Advance(p2, q, Counts(0, 0, 1, 0));
  }

  lemma GoodbyeCompletes(c: Config)
    ensures Completes(Goodbye(c), SenderGoodbye(c), NOTHING)
  {
    hide Completes;
    var p := Farewell(c);
    var q := SenderFarewell(c);
    var p3 := F(p);
    var p2 := W(BYE, p3);
    var p1 := F(p2);
    var q2 := F(q);
    var q1 := W(BYE, q2);
    PhaseCompletes(PhaseEnd(W(BYE, p1)), Echo(R(KNdx, q1)));
    PhaseCompletes(W(BYE, p1), R(KNdx, q1));
    Advance(W(BYE, p1), R(KNdx, q1), NOTHING);
    Advance(p1, R(KNdx, q1), Counts(0, 1, 0, 0));
    Advance(p2, R(KNdx, q1), Counts(1, 0, 0, 0));
    Advance(p3, R(KNdx, q1), Counts(1, 1, 0, 0));
    AdvanceOther(p, R(KNdx, q1), Counts(2, 0, 0, 0));
    AdvanceOther(p, q1, Counts(1, 0, 0, 0));
    AdvanceOther(p, q2, Counts(1, 0, 0, 1));
    FarewellCompletes(c);
  }

  /** The statistics, the sender's last reads and, at protocol 31, its last reply. */
  lemma FarewellCompletes(c: Config)
    ensures Completes(Farewell(c), SenderFarewell(c), Counts(1, 0, 1, 0))
  {
    hide Completes;
    var stats := if c.pull then ReadStats(5) else End;
    var bye := if c.proto31 then R(KNdx, W(BYE, F(R(KNdx, End)))) else R(KNdx, End);
    var n := if c.pull then 5 else 0;
    Advance(Farewell(c), SenderFarewell(c), Counts(1, 0, 1, 0));
    if c.proto31 {
      Advance(W(BYE, F(stats)), SenderFarewell(c), Counts(1, 0, 0, 0));
      Advance(F(stats), SenderFarewell(c), Counts(1, 1, 0, 0));
      SendsStats(c, stats, bye, 2);
      AdvanceOther(stats, bye, Counts(2, 0, n, 0));
      AdvanceOther(stats, W(BYE, F(R(KNdx, End))), Counts(1, 0, n, 0));
      AdvanceOther(stats, F(R(KNdx, End)), Counts(1, 0, n, 1));
      AdvanceOther(stats, R(KNdx, End), Counts(1, 0, n + 1, 0));
      ReadsStats(n, Counts(0, 0, n + 1, 0));
    } else {
      SendsStats(c, stats, bye, 1);
      AdvanceOther(stats, bye, Counts(1, 0, n, 0));
      ReadsStats(n, Counts(0, 0, n, 0));
    }
    assert stats == ReadStats(n);
  }

  lemma SendsStats(c: Config, p: Program, bye: Program, sent: nat)
    requires bye == if c.proto31 then R(KNdx, W(BYE, F(R(KNdx, End)))) else R(KNdx, End)
    ensures Completes(p, SenderFarewell(c), Counts(sent, 0, 0, 0))
            <==> Completes(p, bye, Counts(sent, 0, if c.pull then 5 else 0, 0))
  {
    hide Completes;
    if c.pull {
      var w0 := F(bye);
      var w1 := W(Stat, w0);
      var w2 := W(Stat, w1);
      var w3 := W(Stat, w2);
      var w4 := W(Stat, w3);
      AdvanceOther(p, W(Stat, w4), Counts(sent, 0, 0, 0));
      AdvanceOther(p, w4, Counts(sent, 0, 0, 1));
      AdvanceOther(p, w3, Counts(sent, 0, 0, 2));
      AdvanceOther(p, w2, Counts(sent, 0, 0, 3));
      AdvanceOther(p, w1, Counts(sent, 0, 0, 4));
      AdvanceOther(p, w0, Counts(sent, 0, 0, 5));
    }
  }

  lemma {:induction false} ReadsStats(n: nat, k: Counts)
    requires k.arrived >= n
    ensures Completes(ReadStats(n), End, k)
  {
    if n > 0 {
      ReadsStats(n - 1, k.(arrived := k.arrived - 1));
    }
  }

  // ---- the start of a session ----

  predicate ReadableFrom(c: Config, k: nat) {
    forall i :: k <= i < |c.requests| ==> c.requests[i].ndx in c.sources
  }

  /** From the k-th file on, with nothing in flight: all reads fit, the files come out as computed, and some
      schedule finishes exactly when the remaining files are readable. */
  lemma {:induction false} FromFile(c: Config, k: nat, r: Receiver)
    requires Valid(c) && k <= |c.requests| && r.files == Outcomes(c)[..k]
    ensures var p := ReceiverProgram(c, k); var q := SenderProgram(c, Loop(0), Writes(p));
            && SenderFits(c, Loop(0), Writes(p))
            && ReceiverFits(p, Writes(q), Unread(c))
            && FinalFiles(c, r, p, Writes(q)) == Outcomes(c)
            && (Completes(p, q, NOTHING) <==> ReadableFrom(c, k))
    decreases |c.requests| - k
  {
    hide SenderProgram, SenderFits, ReceiverFits, FinalFiles, Completes, Writes, Ask, Goodbye, SenderGoodbye, Outcome,
         RequestHead;
    if k == |c.requests| {
      GoodbyeWrites(c);
      SenderSaysGoodbye(c);
      ReceiverSaysGoodbye(c, r);
      GoodbyeCompletes(c);
    } else {
      var req, next := c.requests[k], ReceiverProgram(c, k + 1);
      FromFile(c, k + 1, AfterFile(c, req, r));
      OneFile(c, req, next, r);
    }
  }

  /** What the receiver remembers after a file. */
  function AfterFile(c: Config, req: Request, r: Receiver): Receiver {
    Receiver(RequestHead(c, req), Outcome(c, req), r.files + [Outcome(c, req)])
  }

  /** One file before whatever comes next. */
  lemma OneFile(c: Config, req: Request, next: Program, r: Receiver)
    requires Valid(c) && |r.files| < |c.requests| && c.requests[|r.files|] == req
    requires var q := SenderProgram(c, Loop(0), Writes(next));
             SenderFits(c, Loop(0), Writes(next)) && ReceiverFits(next, Writes(q), Unread(c))
    ensures var p := Ask(c, req, next);
            var q, q' := SenderProgram(c, Loop(0), Writes(p)), SenderProgram(c, Loop(0), Writes(next));
            && SenderFits(c, Loop(0), Writes(p))
            && ReceiverFits(p, Writes(q), Unread(c))
            && FinalFiles(c, r, p, Writes(q)) == FinalFiles(c, AfterFile(c, req, r), next, Writes(q'))
            && (Completes(p, q, NOTHING) <==> req.ndx in c.sources && Completes(next, q', NOTHING))
  {
    hide SenderProgram, SenderFits, ReceiverFits, FinalFiles, Completes, Writes, Ask, Serve, Outcome, RequestHead,
         RequestSums, Asked, Delivered;
    var q := SenderProgram(c, Loop(0), Writes(next));
    AskWrites(c, req, next);
    RequestCount(c, req);
    SenderServes(c, req, Writes(next));
    ServeWrites(c, req, q);
    ReceiverCollects(c, req, next, Writes(q), Unread(c), r);
    LoopReads(c, Writes(next));
    FileCompletes(c, req, next, q);
  }

  lemma RequestCount(c: Config, req: Request)
    requires 0 <= c.s2length <= 16 && BasisFits(req.basis)
    ensures |RequestSums(c, req)| == RequestHead(c, req).count
  {
    hide Describes;
    BasisHeadDescribes(req.basis, c.s2length);
  }

  lemma LoopReads(c: Config, inputs: seq<Msg>)
    ensures SenderProgram(c, Loop(0), inputs).Do? && SenderProgram(c, Loop(0), inputs).action.Read?
  {
  }

  lemma StartInv(c: Config)
    requires Valid(c)
    ensures Inv(c, Start(c), Outcomes(c), Readable(c))
    ensures !Readable(c) ==> !Completes(Start(c).rest, SenderRest(c, Start(c)), NOTHING)
  {
    hide SenderProgram, SenderFits, ReceiverFits, FinalFiles, Completes, Writes, ReceiverProgram;
    var x := Start(c);
    FromFile(c, 0, x.r);
    assert ForSender(x) == Writes(x.rest);
    assert ForReceiver(c, x) == Writes(SenderRest(c, x));
  }

  lemma {:induction false} RunKeeps(c: Config, run: seq<System>, i: nat)
    requires Valid(c) && IsRun(c, run) && i < |run|
    ensures Inv(c, run[i], Outcomes(c), Readable(c))
  {
    hide Inv, Step;
    if i == 0 {
      StartInv(c);
    } else {
      RunKeeps(c, run, i - 1);
      StepKeeps(c, run[i - 1], run[i], Outcomes(c), Readable(c));
    }
  }

  // ---- the theorems ----

  /** In every interleaving, every message about to be read is of the kind its reader expects. */
  lemma ReadsAreExpected(c: Config, run: seq<System>, i: nat)
    requires Valid(c) && IsRun(c, run) && i < |run|
    ensures ReadsAsExpected(c, run[i])
  {
    hide SAction, SAfter, SReceive, IsRun;
    RunKeeps(c, run, i);
    var x := run[i];
    if x.toReceiver != [] {
      assert ForReceiver(c, x)[0] == x.toReceiver[0];
    }
    if x.toSender != [] {
      assert ForSender(x)[0] == x.toSender[0];
    }
  }

  /** Every interleaving is finite, however messages spill. */
  lemma {:induction false} RunsEnd(c: Config, run: seq<System>)
    requires IsRun(c, run)
    ensures |run| - 1 + Work(c, run[|run| - 1]) <= Work(c, Start(c))
  {
    hide Step, Work;
    if |run| > 1 {
      var shorter := run[..|run| - 1];
      RunsEnd(c, shorter);
      assert Step(c, run[|run| - 2], run[|run| - 1]);
      WorkShrinks(c, run[|run| - 2], run[|run| - 1]);
    }
  }

  predicate CanStep(c: Config, x: System) { ReceiverCanStep(x) || SenderCanStep(c, x) }

  /** No interleaving gets stuck before both sides are done. */
  ghost predicate NeverStuck(c: Config) {
    forall run: seq<System> :: IsRun(c, run) ==> Done(run[|run| - 1]) || CanStep(c, run[|run| - 1])
  }

  lemma CompletingSteps(c: Config, x: System)
    requires Completes(x.rest, SenderRest(c, x), InFlight(x))
    ensures Done(x) || CanStep(c, x)
  {
    hide SAction, SAfter, SReceive;
  }

  lemma ReceiverAdvances(c: Config, x: System)
    requires ReceiverCanStep(x)
    ensures var y := ReceiverStep(c, x);
            x.rest.Do? && y.rest == x.rest.next
            && SenderRest(c, y) == SenderRest(c, x) && InFlight(y) == After(x.rest.action, InFlight(x))
  {
    hide SenderProgram;
    assert ForSender(ReceiverStep(c, x)) == ForSender(x);
  }

  lemma SenderAdvances(c: Config, x: System)
    requires SenderCanStep(c, x)
    ensures var y := SenderStep(c, x); var q := SenderRest(c, x);
            y.rest == x.rest && q.Do? && q.action == SAction(c, x.s) && SenderRest(c, y) == q.next
            && InFlight(y) == Swap(After(q.action, Swap(InFlight(x))))
  {
    hide SAction, SAfter, SReceive;
    if SAction(c, x.s).Read? {
      assert ForSender(x)[1..] == ForSender(SenderStep(c, x)) && ForSender(x)[0] == x.toSender[0];
    } else {
      assert ForSender(x) == ForSender(SenderStep(c, x));
    }
  }

  /** If nothing ever gets stuck then stepping on from any reachable state is a schedule that finishes. */
  lemma {:induction false} NeverStuckCompletes(c: Config, run: seq<System>)
    requires NeverStuck(c) && IsRun(c, run)
    ensures var x := run[|run| - 1]; Completes(x.rest, SenderRest(c, x), InFlight(x))
    decreases Work(c, run[|run| - 1])
  {
    hide SenderProgram, SenderRest, InFlight, Work, ReceiverStep, SenderStep, After, SAction;
    var x := run[|run| - 1];
    if ReceiverCanStep(x) {
      var y := ReceiverStep(c, x);
      WorkShrinks(c, x, y);
      ExtendRun(c, run, y);
      NeverStuckCompletes(c, run + [y]);
      ReceiverAdvances(c, x);
      EnabledHere(x);
    } else if SenderCanStep(c, x) {
      var y := SenderStep(c, x);
      WorkShrinks(c, x, y);
      ExtendRun(c, run, y);
      NeverStuckCompletes(c, run + [y]);
      SenderAdvances(c, x);
      EnabledOther(c, x);
    } else {
      assert Done(x);
      DoneIsEnd(c, x);
    }
  }

  lemma ExtendRun(c: Config, run: seq<System>, y: System)
    requires IsRun(c, run) && Step(c, run[|run| - 1], y)
    ensures IsRun(c, run + [y])
  {
    hide Step;
  }

  lemma EnabledHere(x: System)
    requires ReceiverCanStep(x)
    ensures Enabled(x.rest.action, InFlight(x))
  {
  }

  lemma EnabledOther(c: Config, x: System)
    requires SenderCanStep(c, x)
    ensures Enabled(SAction(c, x.s), Swap(InFlight(x)))
  {
  }

  lemma DoneIsEnd(c: Config, x: System)
    requires Done(x)
    ensures SenderRest(c, x).End?
  {
  }

  /** Progress, exactly: no interleaving of the two sides can get stuck if and only if the sender can read every
      requested file; the answer for one that it cannot read stays in its buffer while both sides wait. */
  lemma NeverStuckIffReadable(c: Config)
    requires Valid(c)
    ensures NeverStuck(c) <==> Readable(c)
  {
    hide Inv, Completes, SenderProgram, SenderRest;
    StartInv(c);
    if Readable(c) {
      forall run: seq<System> | IsRun(c, run)
        ensures Done(run[|run| - 1]) || CanStep(c, run[|run| - 1])
      {
        RunKeeps(c, run, |run| - 1);
        assert Completes(run[|run| - 1].rest, SenderRest(c, run[|run| - 1]), InFlight(run[|run| - 1])) by {
          InvCompletes(c, run[|run| - 1]);
        }
        CompletingSteps(c, run[|run| - 1]);
      }
    } else if NeverStuck(c) {
      assert IsRun(c, [Start(c)]);
      NeverStuckCompletes(c, [Start(c)]);
    }
  }

  lemma InvCompletes(c: Config, x: System)
    requires Inv(c, x, Outcomes(c), true)
    ensures Completes(x.rest, SenderRest(c, x), InFlight(x))
  {
  }

  // ---- what is left at the end ----

  /** What the sender is about to serve can be read, what it has yet to hear asks for nothing else, and its buffer
      is empty whenever it is about to read a request or a goodbye, or is done. */
  predicate Serving(c: Config, s: Sender, inputs: seq<Msg>, sbuf: seq<Msg>) {
    && !s.pc.SkipHead? && !s.pc.SkipContent? && !s.pc.SkipFileSum?
    && (s.pc.AwaitFlags? || s.pc.EchoNdx? || s.pc.EchoFlags? || s.pc.AwaitHead? || s.pc.AwaitSums? ==>
       s.idx in c.sources)
    && (s.pc.AwaitNdx? || s.pc.AwaitBye? || s.pc.AwaitBye2? || s.pc.AwaitFlags? || s.pc.Finished? ==> sbuf == [])
    && AllAskable(c, inputs)
  }

  predicate Askable(c: Config, m: Msg) { m.Ndx? ==> m.n == NDX_DONE || m.n in c.sources }

  predicate AllAskable(c: Config, ms: seq<Msg>) { forall i :: 0 <= i < |ms| ==> Askable(c, ms[i]) }

  lemma ServingAfterRead(c: Config, s: Sender, inputs: seq<Msg>, sbuf: seq<Msg>)
    requires !s.pc.Finished? && SAction(c, s).Read? && inputs != [] && KindOf(inputs[0]) == SAction(c, s).kind
    requires Serving(c, s, inputs, sbuf)
    ensures Serving(c, SReceive(c, s, inputs[0]), inputs[1..], sbuf)
  {
    assert Askable(c, inputs[0]);
  }

  lemma ServingAfterAct(c: Config, s: Sender, inputs: seq<Msg>, sbuf: seq<Msg>)
    requires !s.pc.Finished? && !SAction(c, s).Read? && Serving(c, s, inputs, sbuf)
    ensures Serving(c, SAfter(c, s), inputs, if SAction(c, s).Flush? then [] else sbuf + [SAction(c, s).msg])
  {
    hide ReplyItems, AllAskable;
  }

  lemma SenderStaysServing(c: Config, x: System)
    requires SenderCanStep(c, x) && SenderFits(c, x.s, ForSender(x)) && Serving(c, x.s, ForSender(x), x.sbuf)
    ensures var y := SenderStep(c, x); Serving(c, y.s, ForSender(y), y.sbuf)
  {
    hide SenderProgram, SAction, SAfter, SReceive, Serving;
    var y := SenderStep(c, x);
    if SAction(c, x.s).Read? {
      assert ForSender(x)[1..] == ForSender(y) && ForSender(x)[0] == x.toSender[0];
      ServingAfterRead(c, x.s, ForSender(x), x.sbuf);
    } else {
      assert ForSender(x) == ForSender(y);
      ServingAfterAct(c, x.s, ForSender(x), x.sbuf);
    }
  }

  lemma ReceiverLeavesServing(c: Config, x: System)
    requires ReceiverCanStep(x) && Serving(c, x.s, ForSender(x), x.sbuf)
    ensures var y := ReceiverStep(c, x); Serving(c, y.s, ForSender(y), y.sbuf)
  {
    hide Serving;
    assert ForSender(x) == ForSender(ReceiverStep(c, x));
  }

  lemma SpillLeavesServing(c: Config, x: System, byReceiver: bool, n: nat)
    requires 0 < n <= (if byReceiver then |x.rbuf| else |x.sbuf|) && Serving(c, x.s, ForSender(x), x.sbuf)
    ensures var y := Spill(x, byReceiver, n); Serving(c, y.s, ForSender(y), y.sbuf)
  {
    hide AllAskable;
    var y := Spill(x, byReceiver, n);
    if byReceiver {
      assert x.rbuf[..n] + x.rbuf[n..] == x.rbuf;
    }
    assert ForSender(x) == ForSender(y);
  }

  lemma StepStaysServing(c: Config, x: System, y: System)
    requires Step(c, x, y) && SenderFits(c, x.s, ForSender(x)) && Serving(c, x.s, ForSender(x), x.sbuf)
    ensures Serving(c, y.s, ForSender(y), y.sbuf)
  {
    hide SenderFits, SenderStep, SenderCanStep, ReceiverStep, ReceiverCanStep, Spill, Serving, ForSender;
    if SenderCanStep(c, x) && y == SenderStep(c, x) {
      SenderStaysServing(c, x);
    } else if ReceiverCanStep(x) && y == ReceiverStep(c, x) {
      ReceiverLeavesServing(c, x);
    } else if n: nat :| 0 < n <= |x.rbuf| && y == Spill(x, true, n) {
      SpillLeavesServing(c, x, true, n);
    } else {
      var n: nat :| 0 < n <= |x.sbuf| && y == Spill(x, false, n);
      SpillLeavesServing(c, x, false, n);
    }
  }

  lemma {:induction false} StartAskable(c: Config, k: nat)
    requires Readable(c) && k <= |c.requests|
    ensures AllAskable(c, Writes(ReceiverProgram(c, k)))
    decreases |c.requests| - k
  {
    hide Writes, Ask, Goodbye, RequestHead, RequestSums;
    if k == |c.requests| {
      GoodbyeWrites(c);
    } else {
      AskWrites(c, c.requests[k], ReceiverProgram(c, k + 1));
      StartAskable(c, k + 1);
    }
  }

  lemma {:induction false} RunStaysServing(c: Config, run: seq<System>, i: nat)
    requires Valid(c) && Readable(c) && IsRun(c, run) && i < |run|
    ensures Serving(c, run[i].s, ForSender(run[i]), run[i].sbuf)
  {
    hide Serving, Step, SenderFits, ReceiverProgram, Writes;
    if i == 0 {
      StartAskable(c, 0);
      assert ForSender(Start(c)) == Writes(ReceiverProgram(c, 0));
      ServingAtStart(c);
    } else {
      RunStaysServing(c, run, i - 1);
      RunKeeps(c, run, i - 1);
      StepStaysServing(c, run[i - 1], run[i]);
    }
  }

  lemma ServingAtStart(c: Config)
    requires AllAskable(c, ForSender(Start(c)))
    ensures Serving(c, Start(c).s, ForSender(Start(c)), Start(c).sbuf)
  {
  }

  /** Whatever the interleaving, once both sides are done nothing is unread or unsent, except one end marker at
      protocol 31, and the receiver's files are the computed outcomes. */
  lemma DoneLeavesNothing(c: Config, run: seq<System>)
    requires Valid(c) && Readable(c) && IsRun(c, run) && Done(run[|run| - 1])
    ensures var x := run[|run| - 1];
            && x.r.files == Outcomes(c)
            && x.toSender == [] && x.rbuf == [] && x.sbuf == []
            && x.toReceiver == if c.proto31 then [Ndx(NDX_DONE)] else []
  {
    RunKeeps(c, run, |run| - 1);
    RunStaysServing(c, run, |run| - 1);
    var x := run[|run| - 1];
    assert Writes(x.rest) == [];
    assert |ForSender(x)| == |x.toSender| + |x.rbuf|;
    assert Writes(SenderRest(c, x)) == [];
    assert ForReceiver(c, x) == x.toReceiver;
  }

  // ---- the files ----

  /** The conditions under which a request's delta is exact. */
  ghost predicate Faithful(c: Config, req: Request)
    requires Valid(c) && req in c.requests && req.ndx in c.sources
  {
    BasisHeadDescribes(req.basis, c.s2length);
    Reconstructs(c.sources[req.ndx], BasisBytes(req.basis), RequestHead(c, req), RequestSums(c, req), c.strong)
  }

  lemma OutcomeIsSource(c: Config, req: Request)
    requires Valid(c) && req in c.requests && req.ndx in c.sources
    ensures Outcome(c, req) == c.sources[req.ndx] <==> Faithful(c, req)
  {
    hide Describes, Delta, AllFit, OpsItems, Rebuild, Reconstructs, Summarises;
    BasisHeadDescribes(req.basis, c.s2length);
    var head, data := RequestHead(c, req), c.sources[req.ndx];
    DeltaRebuildsExactly(data, BasisBytes(req.basis), head, RequestSums(c, req), c.strong);
    SummaryFacts(RequestSums(c, req), BasisBytes(req.basis), head, c.strong);
    assert Outcome(c, req)
           == RebuiltFrom(Delta(data, head, RequestSums(c, req), c.strong), data, BasisBytes(req.basis), head);
  }

  /** The session as a whole: every interleaving that runs until neither side can step has both sides done, and
      then each requested file equals the sender's, exactly when its delta is faithful. */
  lemma SessionDelivers(c: Config, run: seq<System>, k: nat)
    requires Valid(c) && Readable(c) && IsRun(c, run) && !CanStep(c, run[|run| - 1])
    requires k < |c.requests|
    ensures var x := run[|run| - 1];
            && Done(x) && |x.r.files| == |c.requests|
            && (x.r.files[k] == c.sources[c.requests[k].ndx] <==> Faithful(c, c.requests[k]))
  {
    hide Outcome, Faithful;
    NeverStuckIffReadable(c);
    DoneLeavesNothing(c, run);
    OutcomeIsSource(c, c.requests[k]);
  }
}
