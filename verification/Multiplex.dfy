/** Data and messages multiplexed over one stream (io/multiplex.rs). */
module Multiplex {
  import opened Bytes

  const MPLEX_BASE := 7
  const MAX_FRAME := 0xFF_FFFF

  const CODES: set<nat> := {0, 1, 2, 3, 4, 5, 6, 7, 8, 9, 10, 22, 33, 42, 86, 100, 101, 102}

  /** A frame with any header byte; the byte of data is the base. */
  datatype Frame = Frame(head: byte, payload: seq<byte>)

  const DATA: byte := MPLEX_BASE

  /** The length fits its 24 bits. */
  predicate Framable(f: Frame) { |f.payload| <= MAX_FRAME }

  /** A frame as the writers write it: of a known code. */
  predicate Proper(f: Frame) { Framable(f) && f.head >= MPLEX_BASE && f.head - MPLEX_BASE in CODES }

  function HeaderBytes(head: byte, len: nat): (h: seq<byte>)
    ensures |h| == 4
  {
    LeBytes(head * 0x100_0000 + len, 4)
  }

  function FrameBytes(f: Frame): seq<byte> { HeaderBytes(f.head, |f.payload|) + f.payload }

  function FramesBytes(frames: seq<Frame>): seq<byte> {
    if frames == [] then [] else FramesBytes(frames[..|frames| - 1]) + FrameBytes(frames[|frames| - 1])
  }

  /** The data a sequence of frames carries: the payloads of its data frames. */
  function DataOf(frames: seq<Frame>): seq<byte> {
    if frames == [] then []
    else DataOf(frames[..|frames| - 1]) + if frames[|frames| - 1].head == DATA then frames[|frames| - 1].payload else []
  }

  /** What the reader takes for data. */
  function TakenFrom(frames: seq<Frame>): seq<byte> {
    if frames == [] then []
    else
      var f := frames[|frames| - 1];
      TakenFrom(frames[..|frames| - 1]) + if CodeOf(f.head) == 0 then f.payload else []
  }

  // ---- what is in a stream ----

  function CodeByte(s: seq<byte>): nat
    requires |s| >= 4
  {
    LeValue(s[..4]) / 0x100_0000
  }

  function LengthField(s: seq<byte>): nat
    requires |s| >= 4
  {
    LeValue(s[..4]) % 0x100_0000
  }

  /** Codes below the base count as data, and so do codes nobody knows. */
  function CodeOf(b: nat): nat {
    var code := if b < MPLEX_BASE then 0 else b - MPLEX_BASE;
    if code in CODES then code else 0
  }

  /** All data that can still be read from a stream with `pending` bytes left in the current frame. */
  function Demux(s: seq<byte>, pending: nat): seq<byte>
    decreases |s|
  {
    if pending >= |s| then s
    else if pending > 0 then s[..pending] + Demux(s[pending..], 0)
    else if |s| < 4 then []
    else
      var len := LengthField(s);
      if CodeOf(CodeByte(s)) == 0 then Demux(s[4..], len)
      else if |s| - 4 < len then []
      else Demux(s[4 + len..], 0)
  }

  lemma HeaderFields(head: byte, len: nat, rest: seq<byte>)
    requires len <= MAX_FRAME
    ensures var s := HeaderBytes(head, len) + rest;
            s[4..] == rest && CodeByte(s) == head && LengthField(s) == len
  {
    hide LeBytes, LeValue;
    var n := head * 0x100_0000 + len;
    assert (HeaderBytes(head, len) + rest)[..4] == HeaderBytes(head, len);
    Pow256Values();
    LeValueOfBytes(n, 4);
    assert n / 0x100_0000 == head && n % 0x100_0000 == len;
  }

  lemma DemuxPending(p: seq<byte>, rest: seq<byte>)
    ensures Demux(p + rest, |p|) == p + Demux(rest, 0)
  {
    if rest == [] {
      assert p + rest == p;
    } else if p == [] {
      assert p + rest == rest;
    } else {
      assert (p + rest)[..|p|] == p && (p + rest)[|p|..] == rest;
    }
  }

  lemma DemuxFrame(f: Frame, rest: seq<byte>)
    requires Framable(f)
    ensures Demux(FrameBytes(f) + rest, 0) == (if CodeOf(f.head) == 0 then f.payload else []) + Demux(rest, 0)
  {
    hide HeaderBytes, CodeByte, LengthField, CodeOf;
    var s := FrameBytes(f) + rest;
    assert s == HeaderBytes(f.head, |f.payload|) + (f.payload + rest);
    HeaderFields(f.head, |f.payload|, f.payload + rest);
    if CodeOf(f.head) == 0 {
      DemuxPending(f.payload, rest);
    } else {
      assert s[4 + |f.payload|..] == rest;
    }
  }

  /** The reader gets the frames it takes for data whole and in order, whatever lies between and whatever follows. */
  lemma {:induction false} DemuxTakes(frames: seq<Frame>, rest: seq<byte>)
    requires forall i :: 0 <= i < |frames| ==> Framable(frames[i])
    ensures Demux(FramesBytes(frames) + rest, 0) == TakenFrom(frames) + Demux(rest, 0)
  {
    hide Framable, FrameBytes, Demux, CodeOf;
    if frames == [] {
      assert FramesBytes(frames) + rest == rest;
    } else {
      var front, f := frames[..|frames| - 1], frames[|frames| - 1];
      assert FramesBytes(frames) + rest == FramesBytes(front) + (FrameBytes(f) + rest);
      DemuxTakes(front, FrameBytes(f) + rest);
      DemuxFrame(f, rest);
    }
  }

  /** A frame that the reader takes for data although it is none. */
  predicate Mistaken(f: Frame) { f.head != DATA && CodeOf(f.head) == 0 && f.payload != [] }

  lemma DataIsTaken()
    ensures CodeOf(DATA) == 0
  {
  }

  /** Mistaken frames only add bytes. */
  lemma {:induction false} TakenIsMore(frames: seq<Frame>)
    ensures |TakenFrom(frames)| >= |DataOf(frames)|
    ensures TakenFrom(frames) == DataOf(frames) <==> forall i :: 0 <= i < |frames| ==> !Mistaken(frames[i])
    ensures (exists i :: 0 <= i < |frames| && Mistaken(frames[i])) ==> |TakenFrom(frames)| > |DataOf(frames)|
  {
    hide CodeOf;
    DataIsTaken();
    if frames != [] {
      var front, f := frames[..|frames| - 1], frames[|frames| - 1];
      TakenIsMore(front);
      if Mistaken(f) {
        assert |TakenFrom(frames)| > |DataOf(frames)|;
      } else if i :| 0 <= i < |frames| && Mistaken(frames[i]) {
        assert Mistaken(front[i]);
      } else {
        assert forall i :: 0 <= i < |front| ==> front[i] == frames[i];
      }
    }
  }

  /** For frames with any header bytes: the reader delivers the data frames, and nothing else, exactly when no other
      frame has a code below the base or a code nobody knows, and a payload. */
  lemma DemuxFrames(frames: seq<Frame>, rest: seq<byte>)
    requires forall i :: 0 <= i < |frames| ==> Framable(frames[i])
    ensures Demux(FramesBytes(frames) + rest, 0) == DataOf(frames) + Demux(rest, 0)
            <==> forall i :: 0 <= i < |frames| ==> !Mistaken(frames[i])
  {
    hide Framable, Demux, FramesBytes, DataOf, TakenFrom, Mistaken;
    DemuxTakes(frames, rest);
    TakenIsMore(frames);
    if TakenFrom(frames) + Demux(rest, 0) == DataOf(frames) + Demux(rest, 0) {
      assert |TakenFrom(frames)| == |DataOf(frames)|;
      assert (TakenFrom(frames) + Demux(rest, 0))[..|TakenFrom(frames)|] == TakenFrom(frames);
      assert (DataOf(frames) + Demux(rest, 0))[..|TakenFrom(frames)|] == DataOf(frames);
    }
  }

  /** Known codes are never mistaken. */
  lemma ProperIsNotMistaken(f: Frame)
    requires Proper(f)
    ensures !Mistaken(f)
  {
  }

  /** A message of code 11, which nobody knows, comes out as data; so does one with a header byte of zero. */
  lemma UnknownIsData(payload: seq<byte>, rest: seq<byte>)
    requires 0 < |payload| <= MAX_FRAME
    ensures Demux(FrameBytes(Frame(MPLEX_BASE + 11, payload)) + rest, 0) == payload + Demux(rest, 0)
    ensures Demux(FrameBytes(Frame(0, payload)) + rest, 0) == payload + Demux(rest, 0)
    ensures DataOf([Frame(MPLEX_BASE + 11, payload), Frame(0, payload)]) == []
  {
    hide Demux, FrameBytes;
    DemuxFrame(Frame(MPLEX_BASE + 11, payload), rest);
    DemuxFrame(Frame(0, payload), rest);
    NoData(Frame(MPLEX_BASE + 11, payload), Frame(0, payload));
  }

  lemma NoData(f: Frame, g: Frame)
    requires f.head != DATA && g.head != DATA
    ensures DataOf([f, g]) == []
  {
    assert [f, g][..1] == [f] && [f][..0] == [];
    assert DataOf([f]) == [];
  }

  lemma FramesAppend(frames: seq<Frame>, f: Frame)
    ensures FramesBytes(frames + [f]) == FramesBytes(frames) + FrameBytes(f)
    ensures DataOf(frames + [f]) == DataOf(frames) + if f.head == DATA then f.payload else []
  {
    assert (frames + [f])[..|frames|] == frames;
  }

  lemma CodesAreProper(code: nat, data: seq<byte>)
    requires code in CODES && |data| <= MAX_FRAME
    ensures Proper(Frame(MPLEX_BASE + code, data))
  {
  }

  // ---- the writer ----

  class MplexWriter {
    var out: seq<byte>
    var enabled: bool
    ghost var raw: seq<byte>       // what went out before multiplexing began
    ghost var frames: seq<Frame>   // what went out since

    ghost predicate Valid()
      reads this
    {
      && out == raw + FramesBytes(frames) && (!enabled ==> frames == [])
      && forall i :: 0 <= i < |frames| ==> Proper(frames[i])
    }

    constructor ()
      ensures Valid() && !enabled && raw == [] && frames == []
    {
      out, enabled, raw, frames := [], false, [], [];
    }

    method Enable()
      requires Valid()
      modifies `enabled
      ensures Valid() && enabled
    {
      enabled := true;
    }

    method WriteMsg(code: nat, data: seq<byte>)
      requires Valid() && enabled && code in CODES && |data| <= MAX_FRAME
      modifies this
      ensures Valid() && enabled && raw == old(raw) && frames == old(frames) + [Frame(MPLEX_BASE + code, data)]
    {
      hide FrameBytes, FramesBytes, Proper;
      var f := Frame(MPLEX_BASE + code, data);
      FramesAppend(frames, f);
      assert Proper(f) by { CodesAreProper(code, data); }
      assert raw + (FramesBytes(frames) + FrameBytes(f)) == out + FrameBytes(f);
      out := out + FrameBytes(f);
      frames := frames + [f];
    }

    /** Take what fits one frame; before multiplexing, what the stream below takes. */
    method Write(buf: seq<byte>) returns (n: nat)
      requires Valid()
      modifies this
      ensures Valid() && enabled == old(enabled) && n <= |buf| && (buf != [] ==> n > 0)
      ensures !enabled ==> raw == old(raw) + buf[..n] && frames == old(frames)
      ensures enabled ==> raw == old(raw) && frames == old(frames) + [Frame(DATA, buf[..n])]
      ensures enabled ==> n == if |buf| <= 0xFF_FFFF then |buf| else 0xFF_FFFF
    {
      if !enabled {
        n :| 0 <= n <= |buf| && (buf != [] ==> n > 0);
        out, raw := out + buf[..n], raw + buf[..n];
        return;
      }
      n := if |buf| < MAX_FRAME then |buf| else MAX_FRAME;
      WriteMsg(0, buf[..n]);
    }

    /** Write all of `buf`, piece by piece. */
    method WriteAll(buf: seq<byte>)
      requires Valid()
      modifies this
      ensures Valid() && enabled == old(enabled)
      ensures !enabled ==> raw == old(raw) + buf && frames == old(frames)
      ensures enabled ==> raw == old(raw) && DataOf(frames) == DataOf(old(frames)) + buf
    {
      hide Valid, DataOf, FramesBytes;
      var pos := 0;
      while pos < |buf|
        invariant Valid() && enabled == old(enabled) && pos <= |buf|
        invariant !enabled ==> raw == old(raw) + buf[..pos] && frames == old(frames)
        invariant enabled ==> raw == old(raw) && DataOf(frames) == DataOf(old(frames)) + buf[..pos]
      {
        ghost var before := frames;
        var n := Write(buf[pos..]);
        if enabled {
          FramesAppend(before, Frame(DATA, buf[pos..][..n]));
          OnePieceMore(DataOf(old(frames)), buf, pos, n);
        } else {
          OnePieceMore(old(raw), buf, pos, n);
        }
        pos := pos + n;
      }
    }
  }

  lemma OnePieceMore(start: seq<byte>, buf: seq<byte>, pos: nat, n: nat)
    requires pos + n <= |buf|
    ensures start + buf[..pos] + buf[pos..][..n] == start + buf[..pos + n]
  {
  }

  // ---- the reader ----

  lemma DemuxSplit(s: seq<byte>, pending: nat, n: nat)
    requires n <= pending && n <= |s|
    ensures Demux(s, pending) == s[..n] + Demux(s[n..], pending - n)
  {
    if pending >= |s| {
      assert s == s[..n] + s[n..];
    } else if pending > 0 {
      assert s[n..][pending - n..] == s[pending..];
      assert s[..pending] == s[..n] + s[n..][..pending - n];
      assert n < pending || s[n..] == s[pending..];
    }
  }

  class MplexReader {
    var input: seq<byte>
    var enabled: bool
    var pending: nat

    /** All data still to come. */
    ghost function Remaining(): seq<byte>
      reads this
    {
      if enabled then Demux(input, pending) else input
    }

    constructor (input: seq<byte>)
      ensures Remaining() == input && !enabled && pending == 0 && this.input == input
    {
      this.input, enabled, pending := input, false, 0;
    }

    method Enable()
      modifies `enabled
      ensures enabled && Remaining() == Demux(input, pending)
    {
      enabled := true;
    }

    /** Skip to a frame with data; false at the end of the stream. */
    method Refill() returns (ok: bool)
      requires enabled
      modifies `input, `pending
      ensures ok ==> Remaining() == old(Remaining()) && pending > 0
      ensures !ok ==> old(Remaining()) == []
    {
      hide CodeByte, LengthField, CodeOf;
      while pending == 0
        invariant Remaining() == old(Remaining())
        decreases |input|, if pending == 0 then 1 else 0
      {
        if |input| < 4 {
          NoHeader(input);
          return false;
        }
        var code, len := CodeOf(CodeByte(input)), LengthField(input);
        if code == 0 {
          input, pending := input[4..], len;
        } else {
          if |input| - 4 < len {
            return false;
          }
          input := input[4 + len..];
        }
      }
      ok := true;
    }

    /** One read: at most n bytes, possibly fewer, none only when there are none. */
    method Read(n: nat) returns (r: Option<seq<byte>>)
      modifies `input, `pending
      ensures r.Some? ==> |r.value| <= n && old(Remaining()) == r.value + Remaining()
      ensures r.None? || (r.value == [] && n > 0) ==> old(Remaining()) == []
    {
      hide Demux;
      if enabled {
        var ok := Refill();
        if !ok {
          return None;
        }
        var most := if n < pending then n else pending;
        var got: nat :| got <= most && got <= |input| && (most > 0 && input != [] ==> got > 0);
        DemuxSplit(input, pending, got);
        NoInput(pending);
        r := Some(input[..got]);
        input, pending := input[got..], pending - got;
      } else {
        var got: nat :| got <= n && got <= |input| && (n > 0 && input != [] ==> got > 0);
        r := Some(input[..got]);
        assert input == input[..got] + input[got..];
        input := input[got..];
      }
    }

    /** Exactly n bytes, by repeated reads: they are the next n bytes of data if there are as many. */
    method ReadExactly(n: nat) returns (r: Option<seq<byte>>)
      modifies `input, `pending
      ensures r.Some? <==> n <= |old(Remaining())|
      ensures r.Some? ==> |r.value| == n && old(Remaining()) == r.value + Remaining()
    {
      hide MplexReader.Remaining;
      var buf: seq<byte> := [];
      while |buf| < n
        invariant |buf| <= n && old(Remaining()) == buf + Remaining()
        decreases n - |buf|
      {
        var got := Read(n - |buf|);
        if got.None? || got.value == [] {
          return None;
        }
        assert buf + (got.value + Remaining()) == (buf + got.value) + Remaining();
        buf := buf + got.value;
      }
      r := Some(buf);
    }
  }

  /** Any writes and messages on one side, any buffer sizes on the other: the data arrives as it was written. Enough
      reads with buffers that are not empty get all of it. */
  method Deliver(w: MplexWriter, sizes: seq<nat>) returns (got: seq<byte>)
    requires w.Valid() && w.raw == [] && w.enabled
    requires forall i :: 0 <= i < |sizes| ==> sizes[i] > 0
    ensures got <= DataOf(w.frames)
    ensures |sizes| >= |DataOf(w.frames)| ==> got == DataOf(w.frames)
  {
    hide DataOf, FramesBytes, Framable, Mistaken, Demux;
    forall i | 0 <= i < |w.frames|
      ensures Framable(w.frames[i]) && !Mistaken(w.frames[i])
    {
      ProperIsNotMistaken(w.frames[i]);
    }
    ghost var data := DataOf(w.frames);
    var r := new MplexReader(w.out);
    r.Enable();
    DemuxFrames(w.frames, []);
    NoInput(0);
    assert w.out == FramesBytes(w.frames) + [] && data + [] == data;
    got := [];
    for i := 0 to |sizes|
      invariant fresh(r) && r.enabled && data == got + r.Remaining()
      invariant |got| >= i || r.Remaining() == []
    {
      var piece := r.Read(sizes[i]);
      if piece.None? {
        return;
      }
      got := got + piece.value;
    }
  }

  lemma NoInput(pending: nat)
    ensures Demux([], pending) == []
  {
  }

  lemma NoHeader(s: seq<byte>)
    requires |s| < 4
    ensures Demux(s, 0) == []
  {
  }

  // ---- the two-way stream ----

  /** Every header in the stream has a known code at or above the base, and every message is complete. */
  predicate WellFramed(s: seq<byte>, pending: nat)
    decreases |s|
  {
    if pending >= |s| then true
    else if pending > 0 then WellFramed(s[pending..], 0)
    else
      && |s| >= 4
      && CodeByte(s) >= MPLEX_BASE && CodeByte(s) - MPLEX_BASE in CODES
      && if CodeByte(s) == MPLEX_BASE then WellFramed(s[4..], LengthField(s))
         else LengthField(s) <= |s| - 4 && WellFramed(s[4 + LengthField(s)..], 0)
  }

  lemma WellFramedSplit(s: seq<byte>, pending: nat, n: nat)
    requires n <= pending && n <= |s|
    ensures WellFramed(s, pending) == WellFramed(s[n..], pending - n)
  {
    if pending < |s| && pending > 0 {
      assert s[n..][pending - n..] == s[pending..];
      assert n < pending || s[n..] == s[pending..];
    }
  }

  class MultiplexStream {
    var input: seq<byte>
    var output: seq<byte>
    var multiplexIn: bool
    var multiplexOut: bool
    var pendingData: nat

    ghost function Remaining(): seq<byte>
      reads this
    {
      if multiplexIn then Demux(input, pendingData) else input
    }

    ghost predicate Framed()
      reads this
    {
      multiplexIn ==> WellFramed(input, pendingData)
    }

    constructor (input: seq<byte>)
      ensures !multiplexIn && !multiplexOut && pendingData == 0 && this.input == input && output == []
    {
      this.input, output, multiplexIn, multiplexOut, pendingData := input, [], false, false, 0;
    }

    /** Skip to a frame with data; unlike MplexReader this one refuses codes it does not know. */
    method Refill() returns (ok: bool)
      requires multiplexIn
      modifies `input, `pendingData
      ensures ok ==> Remaining() == old(Remaining()) && pendingData > 0
      ensures ok && old(Framed()) ==> Framed()
      ensures !ok && old(Framed()) ==> old(Remaining()) == []
    {
      hide CodeByte, LengthField;
      while pendingData == 0
        invariant Remaining() == old(Remaining())
        invariant old(Framed()) ==> Framed()
        decreases |input|, if pendingData == 0 then 1 else 0
      {
        if |input| < 4 {
          NoHeader(input);
          return false;
        }
        var code, len := CodeByte(input), LengthField(input);
        if code < MPLEX_BASE || code - MPLEX_BASE !in CODES {
          return false;
        }
        if code == MPLEX_BASE {
          input, pendingData := input[4..], len;
        } else {
          if |input| - 4 < len {
            return false;
          }
          input := input[4 + len..];
        }
      }
      ok := true;
    }

    /** What is wanted from the current frame, or all it has left. */
    method TakePending(want: nat) returns (r: Option<seq<byte>>)
      requires multiplexIn && pendingData > 0 && want > 0
      modifies `input, `pendingData
      ensures r.Some? ==> 0 < |r.value| <= want && old(Remaining()) == r.value + Remaining()
      ensures r.Some? && old(Framed()) ==> Framed()
      ensures r.None? ==> |old(Remaining())| < want
    {
      hide Demux, WellFramed;
      var toRead := if want < pendingData then want else pendingData;
      if toRead > |input| {
        DemuxAll(input, pendingData);
        return None;
      }
      DemuxSplit(input, pendingData, toRead);
      WellFramedSplit(input, pendingData, toRead);
      r := Some(input[..toRead]);
      input, pendingData := input[toRead..], pendingData - toRead;
    }

    /** Exactly n bytes of data, or an error: when there are not as many, or the framing is bad. */
    method ReadData(n: nat) returns (r: Option<seq<byte>>)
      modifies `input, `pendingData
      ensures r.Some? ==> |r.value| == n && old(Remaining()) == r.value + Remaining()
      ensures old(Framed()) ==> (r.Some? <==> n <= |old(Remaining())|)
    {
      if !multiplexIn {
        if n > |input| {
          return None;
        }
        assert input == input[..n] + input[n..];
        r := Some(input[..n]);
        input := input[n..];
        return;
      }
      r := ReadFramed(n);
    }

    method ReadFramed(n: nat) returns (r: Option<seq<byte>>)
      requires multiplexIn
      modifies `input, `pendingData
      ensures r.Some? ==> |r.value| == n && old(Remaining()) == r.value + Remaining()
      ensures old(Framed()) ==> (r.Some? <==> n <= |old(Remaining())|)
    {
      hide MultiplexStream.Remaining, MultiplexStream.Framed;
      ghost var all, framed := Remaining(), Framed();
      var buf: seq<byte> := [];
      while |buf| < n
        invariant |buf| <= n && all == buf + Remaining()
        invariant framed ==> Framed()
        decreases n - |buf|
      {
        if pendingData == 0 {
          var ok := Refill();
          if !ok {
            return None;
          }
        }
        var piece := TakePending(n - |buf|);
        if piece.None? {
          return None;
        }
        assert buf + (piece.value + Remaining()) == (buf + piece.value) + Remaining();
        buf := buf + piece.value;
      }
      r := Some(buf);
    }

    /** Data in frames of MAX_FRAME bytes, the last of what is left. */
    method WriteData(buf: seq<byte>) returns (ghost frames: seq<Frame>)
      modifies `output
      ensures !multiplexOut ==> output == old(output) + buf
      ensures multiplexOut ==>
        && output == old(output) + FramesBytes(frames) && DataOf(frames) == buf
        && AllFull(frames) && (frames != [] ==> Whole(frames[..|frames| - 1]))
    {
      frames := [];
      if !multiplexOut {
        output := output + buf;
        return;
      }
      hide DataOf, FramesBytes, FrameBytes, FullData, AllFull, Whole, SentAsFrames;
      NoFrames();
      var offset := 0;
      assert SentAsFrames(frames, buf, offset) by { SentNothing(buf); }
      while offset < |buf|
        invariant offset <= |buf| && output == old(output) + FramesBytes(frames) && SentAsFrames(frames, buf, offset)
      {
        var chunk := if |buf| - offset < MAX_FRAME then |buf| - offset else MAX_FRAME;
        ghost var f := WriteFrame(buf[offset..offset + chunk]);
        SentMore(old(output), frames, f, buf, offset, offset + chunk);
        frames := frames + [f];
        offset := offset + chunk;
      }
      SentAll(frames, buf);
    }

    method WriteFrame(chunk: seq<byte>) returns (ghost f: Frame)
      requires 0 < |chunk| <= MAX_FRAME
      modifies `output
      ensures f == Frame(DATA, chunk) && FullData(f) && output == old(output) + FrameBytes(f)
    {
      hide FrameBytes, FullData;
      f := Frame(DATA, chunk);
      DataIsProper(f);
      output := output + FrameBytes(Frame(DATA, chunk));
    }
  }

  /** A proper frame of data, and not an empty one. */
  predicate FullData(f: Frame) { Proper(f) && f.head == DATA && f.payload != [] }

  ghost predicate AllFull(frames: seq<Frame>) { forall i :: 0 <= i < |frames| ==> FullData(frames[i]) }

  /** Frames as long as a frame can be. */
  ghost predicate Whole(frames: seq<Frame>) {
    forall i :: 0 <= i < |frames| ==> |frames[i].payload| == 0xFF_FFFF
  }

  /** The first `offset` bytes as frames; unless they are all, every frame is whole. */
  ghost predicate SentAsFrames(frames: seq<Frame>, buf: seq<byte>, offset: nat)
    requires offset <= |buf|
  {
    && DataOf(frames) == buf[..offset] && AllFull(frames)
    && (frames != [] ==> Whole(frames[..|frames| - 1]))
    && (offset < |buf| ==> Whole(frames))
  }

  lemma SentNothing(buf: seq<byte>)
    ensures SentAsFrames([], buf, 0)
  {
  }

  lemma SentAll(frames: seq<Frame>, buf: seq<byte>)
    requires SentAsFrames(frames, buf, |buf|)
    ensures DataOf(frames) == buf && AllFull(frames) && (frames != [] ==> Whole(frames[..|frames| - 1]))
  {
    hide DataOf, AllFull, Whole;
    assert buf[..|buf|] == buf;
  }

  /** One more frame of the bytes that are sent. */
  lemma SentMore(start: seq<byte>, frames: seq<Frame>, f: Frame, buf: seq<byte>, offset: nat, next: nat)
    requires offset < next <= |buf| && SentAsFrames(frames, buf, offset) && FullData(f)
    requires f.payload == buf[offset..next] && (next == |buf| || next == offset + 0xFF_FFFF)
    ensures SentAsFrames(frames + [f], buf, next)
    ensures start + FramesBytes(frames) + FrameBytes(f) == start + FramesBytes(frames + [f])
  {
    hide DataOf, FramesBytes, FrameBytes, Proper;
    FramesAppend(frames, f);
    assert buf[..offset] + buf[offset..next] == buf[..next];
    assert (frames + [f])[..|frames|] == frames;
  }

  lemma DataIsProper(f: Frame)
    requires f.head == DATA && 0 < |f.payload| <= MAX_FRAME
    ensures FullData(f)
  {
  }

  lemma NoFrames()
    ensures FramesBytes([]) == [] && DataOf([]) == [] && AllFull([])
  {
  }

  lemma DemuxAll(s: seq<byte>, pending: nat)
    ensures |s| <= pending ==> Demux(s, pending) == s
  {
  }

  lemma WellFramedFrame(f: Frame, rest: seq<byte>)
    requires Proper(f) && WellFramed(rest, 0)
    ensures WellFramed(FrameBytes(f) + rest, 0)
  {
    hide HeaderBytes, CodeByte, LengthField, CodeOf;
    var s := FrameBytes(f) + rest;
    assert s == HeaderBytes(f.head, |f.payload|) + (f.payload + rest);
    HeaderFields(f.head, |f.payload|, f.payload + rest);
    if f.head == DATA {
      WellFramedSplit(f.payload + rest, |f.payload|, |f.payload|);
      assert (f.payload + rest)[|f.payload|..] == rest;
    } else {
      assert s[4 + |f.payload|..] == rest;
    }
  }

  /** What the writers write, the strict reader accepts. */
  lemma {:induction false} FramesAreWellFramed(frames: seq<Frame>, rest: seq<byte>)
    requires (forall i :: 0 <= i < |frames| ==> Proper(frames[i])) && WellFramed(rest, 0)
    ensures WellFramed(FramesBytes(frames) + rest, 0)
  {
    hide Proper, FrameBytes, WellFramed;
    if frames == [] {
      assert FramesBytes(frames) + rest == rest;
    } else {
      var front, f := frames[..|frames| - 1], frames[|frames| - 1];
      assert FramesBytes(frames) + rest == FramesBytes(front) + (FrameBytes(f) + rest);
      WellFramedFrame(f, rest);
      FramesAreWellFramed(front, FrameBytes(f) + rest);
    }
  }
}
