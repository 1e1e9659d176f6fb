/** Every message of a session, one by one (pipeline/receiver.rs, pipeline/sender.rs, main.rs). */
module SessionTranscript {
  import opened Bytes
  import opened MatchBlocks
  import opened Transfer
  import opened Session
  import opened SessionProofs

  /** The receiver writes four messages for each file, and then four end markers, at protocol 31 five. */
  lemma ReceiverTranscript(c: Config)
    ensures var ms, n := Writes(ReceiverProgram(c, 0)), |c.requests|;
            && |ms| == 4 * n + (if c.proto31 then 5 else 4)
            && (forall i :: 0 <= i < n ==> ms[4 * i..4 * i + 4] == [Ndx(c.requests[i].ndx), Flags(true),
                  Head(RequestHead(c, c.requests[i])), Sums(RequestSums(c, c.requests[i]))])
            && (forall i :: 4 * n <= i < |ms| ==> ms[i] == Ndx(-1))
  {
    hide Writes, ReceiverProgram, RequestHead, RequestSums;
    ReceiverMessages(c, 0);
  }

  /** The sender answers each file with five messages, the last the digest of its file; then come two echoed end markers
      and its own, as a server five statistics, and at protocol 31 one more end marker. */
  lemma SenderTranscript(c: Config)
    requires Valid(c)
    ensures var ms, n := Writes(SenderProgram(c, Loop(0), Writes(ReceiverProgram(c, 0)))), |c.requests|;
            var stats := if c.pull then 5 else 0;
            && |ms| == 5 * n + 3 + stats + (if c.proto31 then 1 else 0)
            && (forall i :: 0 <= i < n ==> ms[5 * i..5 * i + 5] == [Ndx(c.requests[i].ndx), Flags(true),
                  Head(RequestHead(c, c.requests[i])), Content(Answer(c, c.requests[i])),
                  FileSum(if c.requests[i].ndx in c.sources then c.md5(c.sources[c.requests[i].ndx])
                    else seq(16, j => 0))])
            && (forall i :: 5 * n <= i < |ms| ==>
                  ms[i] == if 3 <= i - 5 * n < 3 + stats then Stat else Ndx(-1))
  {
    hide Writes, ReceiverProgram, SenderProgram, RequestHead, RequestSums, Answer;
    SenderMessages(c, 0);
    assert ZeroDigest() == seq(16, j => 0);
  }

  /** What the receiver writes from the k-th file on. */
  lemma {:induction false} ReceiverMessages(c: Config, k: nat)
    requires k <= |c.requests|
    ensures var ms, n := Writes(ReceiverProgram(c, k)), |c.requests| - k;
            && |ms| == 4 * n + (if c.proto31 then 5 else 4)
            && (forall i :: k <= i < |c.requests| ==>
                  ms[4 * (i - k)..4 * (i - k) + 4] == Asked(c, c.requests[i]))
            && (forall i :: 4 * n <= i < |ms| ==> ms[i] == Ndx(-1))
    decreases |c.requests| - k
  {
    hide Writes, Ask, Goodbye, RequestHead, RequestSums;
    if k == |c.requests| {
      GoodbyeWrites(c);
    } else {
      var req, next := c.requests[k], ReceiverProgram(c, k + 1);
      AskWrites(c, req, next);
      ReceiverMessages(c, k + 1);
      var head, tail := Asked(c, req), Writes(next);
      forall i | k <= i < |c.requests|
        ensures (head + tail)[4 * (i - k)..4 * (i - k) + 4] == Asked(c, c.requests[i])
      {
        if i > k {
          Shifted(head, tail, 4 * (i - k - 1), 4 * (i - k - 1) + 4);
        }
      }
    }
  }

  lemma Shifted<T>(a: seq<T>, b: seq<T>, i: nat, j: nat)
    requires i <= j <= |b|
    ensures (a + b)[|a| + i..|a| + j] == b[i..j]
  {
  }

  lemma SenderAnswers(c: Config, req: Request, next: Program)
    requires 0 <= c.s2length <= 16 && BasisFits(req.basis)
    ensures Writes(SenderProgram(c, Loop(0), Writes(Ask(c, req, next))))
            == Delivered(c, req) + Writes(SenderProgram(c, Loop(0), Writes(next)))
  {
    hide Writes, Ask, Serve, SenderProgram, RequestHead, RequestSums, Asked, Delivered;
    AskWrites(c, req, next);
    RequestCount(c, req);
    SenderServes(c, req, Writes(next));
    ServeWrites(c, req, SenderProgram(c, Loop(0), Writes(next)));
  }

  lemma SenderLastMessages(c: Config)
    ensures var ms := Writes(SenderProgram(c, Loop(0), Writes(Goodbye(c))));
            var stats := if c.pull then 5 else 0;
            && |ms| == 3 + stats + (if c.proto31 then 1 else 0)
            && (forall i :: 0 <= i < |ms| ==> ms[i] == if 3 <= i < 3 + stats then Stat else Ndx(-1))
  {
    hide Writes, Goodbye, SenderGoodbye, SenderProgram;
    GoodbyeWrites(c);
    SenderSaysGoodbye(c);
    SenderGoodbyeWrites(c);
    ThreeInFront(BYE, (if c.pull then [Stat, Stat, Stat, Stat, Stat] else []) + Unread(c));
  }

  lemma ThreeInFront<T>(x: T, tail: seq<T>)
    ensures var all := [x] + ([x] + ([x] + tail));
            && |all| == 3 + |tail|
            && forall i :: 0 <= i < |all| ==> all[i] == if i < 3 then x else tail[i - 3]
  {
  }

  /** What the sender writes in answer. */
  lemma {:induction false} SenderMessages(c: Config, k: nat)
    requires Valid(c) && k <= |c.requests|
    ensures var ms, n := Writes(SenderProgram(c, Loop(0), Writes(ReceiverProgram(c, k)))), |c.requests| - k;
            var stats := if c.pull then 5 else 0;
            && |ms| == 5 * n + 3 + stats + (if c.proto31 then 1 else 0)
            && (forall i :: k <= i < |c.requests| ==>
                  ms[5 * (i - k)..5 * (i - k) + 5] == Delivered(c, c.requests[i]))
            && (forall i :: 5 * n <= i < |ms| ==>
                  ms[i] == if 3 <= i - 5 * n < 3 + stats then Stat else Ndx(-1))
    decreases |c.requests| - k
  {
    hide Writes, Ask, Goodbye, SenderProgram, RequestHead, RequestSums, Answer, AnswerSum;
    if k == |c.requests| {
      SenderLastMessages(c);
    } else {
      var req, next := c.requests[k], ReceiverProgram(c, k + 1);
      var q := SenderProgram(c, Loop(0), Writes(next));
      SenderAnswers(c, req, next);
      SenderMessages(c, k + 1);
      var head, tail := Delivered(c, req), Writes(q);
      forall i | k <= i < |c.requests|
        ensures (head + tail)[5 * (i - k)..5 * (i - k) + 5] == Delivered(c, c.requests[i])
      {
        if i > k {
          Shifted(head, tail, 5 * (i - k - 1), 5 * (i - k - 1) + 5);
        }
      }
    }
  }
}
