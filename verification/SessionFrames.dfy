/** A session's bytes multiplexed with messages for the log (io/multiplex.rs, main.rs). */
module SessionFrames {
  import opened Bytes
  import opened Network
  import opened Session
  import opened SessionProofs
  import opened SessionBytes
  import N = Ndx
  import X = Multiplex

  /** What a side puts on its stream: bytes of the session, or a message for the other side's log. */
  datatype Piece = Data(bytes: seq<byte>) | Note(code: nat, text: seq<byte>)

  predicate CanSend(p: Piece) { p.Note? ==> p.code in X.CODES && p.code != 0 && |p.text| <= X.MAX_FRAME }

  /** The session's bytes among the pieces. */
  function BytesOf(ps: seq<Piece>): seq<byte> {
    if ps == [] then []
    else BytesOf(ps[..|ps| - 1]) + if ps[|ps| - 1].Data? then ps[|ps| - 1].bytes else []
  }

  lemma BytesAppend(ps: seq<Piece>, p: Piece)
    ensures BytesOf(ps + [p]) == BytesOf(ps) + if p.Data? then p.bytes else []
  {
    assert (ps + [p])[..|ps|] == ps;
  }

  /** Write the pieces one after the other; messages leave the data as it is. */
  method SendPieces(w: X.MplexWriter, ps: seq<Piece>)
    requires w.Valid() && w.enabled && forall i :: 0 <= i < |ps| ==> CanSend(ps[i])
    modifies w
    ensures w.Valid() && w.enabled && w.raw == old(w.raw)
    ensures X.DataOf(w.frames) == X.DataOf(old(w.frames)) + BytesOf(ps)
  {
    hide X.MplexWriter.Valid, X.DataOf, X.FramesBytes, X.CODES, BytesOf;
    assert BytesOf(ps[..0]) == [] by { NoBytes(ps); }
    for i := 0 to |ps|
      invariant w.Valid() && w.enabled && w.raw == old(w.raw)
      invariant X.DataOf(w.frames) == X.DataOf(old(w.frames)) + BytesOf(ps[..i])
    {
      assert ps[..i + 1] == ps[..i] + [ps[i]];
      BytesAppend(ps[..i], ps[i]);
      SendPiece(w, ps[i]);
    }
    assert ps[..|ps|] == ps;
  }

  lemma NoBytes(ps: seq<Piece>)
    ensures BytesOf(ps[..0]) == []
  {
  }

  method SendPiece(w: X.MplexWriter, p: Piece)
    requires w.Valid() && w.enabled && CanSend(p)
    modifies w
    ensures w.Valid() && w.enabled && w.raw == old(w.raw)
    ensures X.DataOf(w.frames) == X.DataOf(old(w.frames)) + if p.Data? then p.bytes else []
  {
    hide X.MplexWriter.Valid, X.DataOf, X.FramesBytes;
    match p {
      case Data(bytes) => w.WriteAll(bytes);
      case Note(code, text) =>
        X.FramesAppend(w.frames, X.Frame(X.MPLEX_BASE + code, text));
        w.WriteMsg(code, text);
    }
  }

  /** Write the pieces, then read with buffers of any sizes: enough reads get the session's bytes and nothing else. */
  method Carry(ps: seq<Piece>, sizes: seq<nat>) returns (got: seq<byte>)
    requires (forall i :: 0 <= i < |ps| ==> CanSend(ps[i])) && forall i :: 0 <= i < |sizes| ==> sizes[i] > 0
    requires |sizes| >= |BytesOf(ps)|
    ensures got == BytesOf(ps)
  {
    hide BytesOf, CanSend, X.DataOf, X.MplexWriter.Valid;
    var w := new X.MplexWriter();
    w.Enable();
    ghost var before := w.frames;
    SendPieces(w, ps);
    assert X.DataOf(before) == [] by { X.NoFrames(); }
    assert [] + BytesOf(ps) == BytesOf(ps);
    got := X.Deliver(w, sizes);
  }

  /** Both streams of a session over frames: whatever proper frames carry the bytes of what one side writes, with
      whatever messages in between, the other side's reads get those messages of the session from the data. */
  lemma FramedStreams(c: Config, up: seq<seq<byte>>, down: seq<seq<byte>>, upFrames: seq<X.Frame>,
                      downFrames: seq<X.Frame>)
    requires Valid(c) && InRange(c)
    requires AllEncode(N.INITIAL, Writes(ReceiverProgram(c, 0)), up)
    requires AllEncode(N.INITIAL, Writes(SenderProgram(c, Loop(0), Writes(ReceiverProgram(c, 0)))), down)
    requires (forall i :: 0 <= i < |upFrames| ==> X.Proper(upFrames[i])) && X.DataOf(upFrames) == Joined(up)
    requires (forall i :: 0 <= i < |downFrames| ==> X.Proper(downFrames[i])) && X.DataOf(downFrames) == Joined(down)
    ensures var p := ReceiverProgram(c, 0);
            var q := SenderProgram(c, Loop(0), Writes(p));
            && ReadAll(ReadKinds(q), START, X.Demux(X.FramesBytes(upFrames), 0)) == Got(Writes(p), [])
            && ReadAll(ReadKinds(p) + Kinds(Unread(c)), START, X.Demux(X.FramesBytes(downFrames), 0))
              == Got(Writes(q), [])
  {
    hide Writes, SenderProgram, ReceiverProgram, AllEncode, ReadKinds, Kinds, ReadAll, Joined, X.Demux, X.FramesBytes,
         X.DataOf, X.Proper;
    SessionStreams(c, up, down);
    FramesCarry(upFrames);
    FramesCarry(downFrames);
  }

  /** The data of proper frames is all that is read of them. */
  lemma FramesCarry(frames: seq<X.Frame>)
    requires forall i :: 0 <= i < |frames| ==> X.Proper(frames[i])
    ensures X.Demux(X.FramesBytes(frames), 0) == X.DataOf(frames)
  {
    hide X.DataOf, X.FramesBytes, X.Framable, X.Mistaken, X.Demux;
    forall i | 0 <= i < |frames|
      ensures X.Framable(frames[i]) && !X.Mistaken(frames[i])
    {
      X.ProperIsNotMistaken(frames[i]);
    }
    X.DemuxFrames(frames, []);
    X.NoInput(0);
    assert X.FramesBytes(frames) + [] == X.FramesBytes(frames) && X.DataOf(frames) + [] == X.DataOf(frames);
  }

  /** One direction from end to end: the receiving side reads what the session's other side wrote. */
  method CarryRequests(c: Config, ghost up: seq<seq<byte>>, ps: seq<Piece>, sizes: seq<nat>) returns (got: seq<byte>)
    requires Valid(c) && InRange(c) && AllEncode(N.INITIAL, Writes(ReceiverProgram(c, 0)), up)
    requires BytesOf(ps) == Joined(up) && |sizes| >= |BytesOf(ps)|
    requires (forall i :: 0 <= i < |ps| ==> CanSend(ps[i])) && forall i :: 0 <= i < |sizes| ==> sizes[i] > 0
    ensures var p := ReceiverProgram(c, 0);
            ReadAll(ReadKinds(SenderProgram(c, Loop(0), Writes(p))), START, got) == Got(Writes(p), [])
  {
    hide Writes, SenderProgram, ReceiverProgram, AllEncode, ReadKinds, ReadAll, Joined, BytesOf, CanSend;
    got := Carry(ps, sizes);
    ghost var other, down := SessionHasBytes(c);
    SessionStreams(c, up, down);
  }

  method CarryAnswers(c: Config, ghost down: seq<seq<byte>>, ps: seq<Piece>, sizes: seq<nat>) returns (got: seq<byte>)
    requires Valid(c) && InRange(c)
    requires AllEncode(N.INITIAL, Writes(SenderProgram(c, Loop(0), Writes(ReceiverProgram(c, 0)))), down)
    requires BytesOf(ps) == Joined(down) && |sizes| >= |BytesOf(ps)|
    requires (forall i :: 0 <= i < |ps| ==> CanSend(ps[i])) && forall i :: 0 <= i < |sizes| ==> sizes[i] > 0
    ensures var p := ReceiverProgram(c, 0);
            ReadAll(ReadKinds(p) + Kinds(Unread(c)), START, got)
              == Got(Writes(SenderProgram(c, Loop(0), Writes(p))), [])
  {
    hide Writes, SenderProgram, ReceiverProgram, AllEncode, ReadKinds, Kinds, ReadAll, Joined, BytesOf, CanSend;
    got := Carry(ps, sizes);
    ghost var up, other := SessionHasBytes(c);
    SessionStreams(c, up, down);
  }
}
