/** The uncompressed token stream of a file's delta (delta/token.rs). */
module Tokens {
  import opened Bytes

  const CHUNK_SIZE := 0x8000

  datatype Token = Literal(data: seq<byte>) | BlockMatch(idx: i32)

  /** What a token list says, with the cuts between adjacent literals forgotten. */
  datatype Item = LiteralByte(b: byte) | Reference(idx: i32)

  function Items(data: seq<byte>): (r: seq<Item>)
    ensures |r| == |data|
  {
    seq(|data|, i requires 0 <= i < |data| => LiteralByte(data[i]))
  }

  function TokenItems(t: Token): seq<Item> {
    match t
    case Literal(data) => Items(data)
    case BlockMatch(idx) => [Reference(idx)]
  }

  function Flat(ts: seq<Token>): seq<Item> {
    if ts == [] then [] else TokenItems(ts[0]) + Flat(ts[1..])
  }

  lemma {:induction false} FlatAppend(a: seq<Token>, b: seq<Token>)
    ensures Flat(a + b) == Flat(a) + Flat(b)
  {
    if a == [] {
      assert a + b == b;
    } else {
      assert (a + b)[1..] == a[1..] + b;
      FlatAppend(a[1..], b);
    }
  }

  lemma FlatOne(t: Token)
    ensures Flat([t]) == TokenItems(t)
  {
    assert [t][1..] == [];
  }

  lemma ItemsAppend(a: seq<byte>, b: seq<byte>)
    ensures Items(a + b) == Items(a) + Items(b)
  {
  }

  // ---- wire format ----

  /** Positive: that many literal bytes follow. Negative: a block reference. */
  function TokenBytes(t: Token): (b: seq<byte>)
    requires Sendable(t)
    ensures |b| >= 4
  {
    match t
    case Literal(data) => IntBytes(|data|) + data
    case BlockMatch(idx) => IntBytes(-(idx + 1))
  }

  predicate Sendable(t: Token) {
    match t
    case Literal(data) => 0 < |data| < 0x8000_0000
    case BlockMatch(idx) => 0 <= idx
  }

  predicate AllSendable(ts: seq<Token>) { forall i :: 0 <= i < |ts| ==> Sendable(ts[i]) }

  function TokensBytes(ts: seq<Token>): seq<byte>
    requires AllSendable(ts)
  {
    if ts == [] then [] else TokenBytes(ts[0]) + TokensBytes(ts[1..])
  }

  function EofBytes(): seq<byte> { IntBytes(0) }

  lemma {:induction false} TokensBytesAppend(ts: seq<Token>, t: Token)
    requires AllSendable(ts) && Sendable(t)
    ensures TokensBytes(ts + [t]) == TokensBytes(ts) + TokenBytes(t)
  {
    if ts == [] {
      assert (ts + [t])[1..] == [];
    } else {
      assert (ts + [t])[1..] == ts[1..] + [t];
      TokensBytesAppend(ts[1..], t);
    }
  }

  // ---- the writer ----

  /** What one more token adds to the bytes and to the meaning of a stream. */
  lemma Grow(start: seq<byte>, sent: seq<Token>, t: Token, after: seq<Item>)
    requires AllSendable(sent) && Sendable(t)
    ensures start + TokensBytes(sent + [t]) == start + TokensBytes(sent) + TokenBytes(t)
    ensures Flat(sent + [t]) + after == Flat(sent) + (TokenItems(t) + after)
  {
    hide TokenItems, TokenBytes;
    TokensBytesAppend(sent, t);
    FlatAppend(sent, [t]);
    FlatOne(t);
  }

  /** What flushing a buffer writes: one token, or nothing for an empty buffer. */
  function Buffered(buf: seq<byte>): seq<Token> { if buf == [] then [] else [Literal(buf)] }

  class TokenWriter {
    var inner: seq<byte>       // everything written so far, an append-only stream
    var literalBuf: seq<byte>  // literal bytes not yet on the wire
    ghost var start: seq<byte> // the stream before this writer
    ghost var sent: seq<Token> // the tokens written so far

    ghost predicate Valid()
      reads this
    {
      && AllSendable(sent)
      && inner == start + TokensBytes(sent)
      && forall i :: 0 <= i < |sent| && sent[i].Literal? ==> |sent[i].data| <= CHUNK_SIZE
    }

    /** Everything accepted so far, whether on the wire or still buffered. */
    ghost function Accepted(): seq<Item>
      reads this
    {
      Flat(sent) + Items(literalBuf)
    }

    constructor (inner: seq<byte>)
      ensures Valid() && literalBuf == [] && sent == [] && start == inner
    {
      this.inner, literalBuf := inner, [];
      start, sent := inner, [];
    }

    /** Move the first n buffered bytes to the wire as one token. */
    method WriteChunk(n: nat)
      requires Valid() && 0 < n <= |literalBuf| && n <= CHUNK_SIZE
      modifies this`inner, this`literalBuf, this`sent
      ensures Valid() && Accepted() == old(Accepted())
      ensures sent == old(sent) + [Literal(old(literalBuf)[..n])] && literalBuf == old(literalBuf)[n..]
    {
      hide Items, IntBytes;
      var chunk := literalBuf[..n];
      assert literalBuf == chunk + literalBuf[n..];
      ItemsAppend(chunk, literalBuf[n..]);
      Grow(start, sent, Literal(chunk), Items(literalBuf[n..]));
      literalBuf := literalBuf[n..];
      inner := inner + IntBytes(|chunk|);
      inner := inner + chunk;
      sent := sent + [Literal(chunk)];
    }

    method SendLiteral(data: seq<byte>)
      requires Valid() && |literalBuf| < CHUNK_SIZE
      modifies this`inner, this`literalBuf, this`sent
      ensures Valid() && |literalBuf| < CHUNK_SIZE
      ensures Accepted() == old(Accepted()) + Items(data)
      ensures |literalBuf| < 32768 && old(sent) <= sent
      ensures forall i :: |old(sent)| <= i < |sent| ==> sent[i].Literal? && |sent[i].data| == 32768
    {
      ItemsAppend(literalBuf, data);
      literalBuf := literalBuf + data;
      while |literalBuf| >= CHUNK_SIZE
        invariant Valid() && Accepted() == old(Accepted()) + Items(data)
        invariant old(sent) <= sent
        invariant forall i :: |old(sent)| <= i < |sent| ==> sent[i].Literal? && |sent[i].data| == CHUNK_SIZE
      {
        WriteChunk(CHUNK_SIZE);
      }
    }

    method FlushLiterals()
      requires Valid() && |literalBuf| < CHUNK_SIZE
      modifies this`inner, this`literalBuf, this`sent
      ensures Valid() && literalBuf == []
      ensures Accepted() == old(Accepted())
      ensures sent == old(sent) + Buffered(old(literalBuf))
    {
      if literalBuf != [] {
        assert literalBuf[..|literalBuf|] == literalBuf;
        WriteChunk(|literalBuf|);
      }
    }

    method SendBlockMatch(blockIdx: i32)
      requires Valid() && |literalBuf| < CHUNK_SIZE && 0 <= blockIdx < 0x7fff_ffff
      modifies this`inner, this`literalBuf, this`sent
      ensures Valid() && literalBuf == []
      ensures Accepted() == old(Accepted()) + [Reference(blockIdx)]
      ensures sent == old(sent) + Buffered(old(literalBuf)) + [BlockMatch(blockIdx)]
    {
      hide IntBytes, Buffered, TokensBytes, Flat, Items;
      FlushLiterals();
      Grow(start, sent, BlockMatch(blockIdx), []);
      inner := inner + IntBytes(-(blockIdx + 1));
      sent := sent + [BlockMatch(blockIdx)];
    }

    /** Flush and end the stream: the wire then holds well-formed tokens, no literal empty (which would read
        as the end) or above the chunk size, that say exactly what was accepted. */
    method Finish()
      requires Valid() && |literalBuf| < CHUNK_SIZE
      modifies this`inner, this`literalBuf, this`sent
      ensures AllSendable(sent) && inner == start + (TokensBytes(sent) + EofBytes())
      ensures forall i :: 0 <= i < |sent| && sent[i].Literal? ==> 0 < |sent[i].data| <= 32768
      ensures Flat(sent) == old(Accepted())
      ensures sent == old(sent) + Buffered(old(literalBuf))
    {
      hide EofBytes, TokensBytes, Flat;
      FlushLiterals();
      assert Items([]) == [];
      inner := inner + EofBytes();
    }
  }

  // ---- the reader ----

  /** The next token, or None at the end-of-file sentinel. */
  function NextToken(s: seq<byte>): (r: Read<Option<Token>>)
    ensures r.Got? ==> |r.rest| < |s|
  {
    var (i, rest) :- ReadInt(s);
    if i == 0 then Got(None, rest)
    else if i > 0 then
      var (data, rest') :- ReadExact(rest, i);
      Got(Some(Literal(data)), rest')
    else Got(Some(BlockMatch(-1 - i)), rest)
  }

  /** All tokens up to the sentinel. */
  function ParseTokens(s: seq<byte>): Read<seq<Token>>
    decreases |s|
  {
    var (t, rest) :- NextToken(s);
    if t.None? then Got([], rest)
    else
      var (ts, rest') :- ParseTokens(rest);
      Got([t.value] + ts, rest')
  }

  class TokenReader {
    var inner: seq<byte>  // the unread part of the stream

    constructor (inner: seq<byte>)
      ensures this.inner == inner
    {
      this.inner := inner;
    }

    /** One token; `ok` is false on a stream error. */
    method ReadToken() returns (ok: bool, t: Option<Token>)
      modifies this
      ensures ok <==> NextToken(old(inner)).Got?
      ensures ok ==> NextToken(old(inner)) == Got(t, inner)
    {
      ok, t := false, None;
      var i := ReadInt(inner);
      if i.Failed? {
        return;
      }
      if i.value == 0 {
        ok, inner := true, i.rest;
      } else if i.value > 0 {
        var buf := ReadExact(i.rest, i.value);
        if buf.Got? {
          ok, t, inner := true, Some(Literal(buf.value)), buf.rest;
        }
      } else {
        ok, t, inner := true, Some(BlockMatch(-1 - i.value)), i.rest;
      }
    }

    /** The receiver's loop over a file's tokens. */
    method ReadAll() returns (ok: bool, tokens: seq<Token>)
      modifies this
      ensures ok <==> ParseTokens(old(inner)).Got?
      ensures ok ==> ParseTokens(old(inner)) == Got(tokens, inner)
    {
      hide NextToken;
      tokens := [];
      assert forall ts: seq<Token> :: [] + ts == ts;
      while true
        invariant ParseTokens(old(inner)).Got? <==> ParseTokens(inner).Got?
        invariant ParseTokens(inner).Got? ==>
            ParseTokens(old(inner)) == Got(tokens + ParseTokens(inner).value, ParseTokens(inner).rest)
        decreases |inner|
      {
        var t;
        ok, t := ReadToken();
        if !ok {
          return;
        }
        if t.None? {
          assert tokens + [] == tokens;
          return;
        }
        ghost var before := tokens;
        tokens := tokens + [t.value];
        assert ParseTokens(inner).Got? ==>
            before + ([t.value] + ParseTokens(inner).value) == tokens + ParseTokens(inner).value;
      }
    }
  }

  // ---- reader and writer are inverse ----

  lemma NextTokenInverts(t: Token, rest: seq<byte>)
    requires Sendable(t)
    ensures NextToken(TokenBytes(t) + rest) == Got(Some(t), rest)
  {
    match t
    case Literal(data) =>
      assert TokenBytes(t) + rest == IntBytes(|data|) + (data + rest);
      IntRoundTrip(|data|, data + rest);
      ReadExactPrefix(data, rest);
    case BlockMatch(idx) =>
      IntRoundTrip(-(idx + 1), rest);
  }

  /** Reading back what was written gives the same tokens and leaves what follows untouched. */
  lemma {:induction false} TokensRoundTrip(ts: seq<Token>, rest: seq<byte>)
    requires AllSendable(ts)
    ensures ParseTokens(TokensBytes(ts) + EofBytes() + rest) == Got(ts, rest)
  {
    hide IntBytes, ReadInt, ReadExact, TokenBytes, NextToken;
    if ts == [] {
      assert TokensBytes(ts) + EofBytes() + rest == IntBytes(0) + rest;
      EofParses(rest);
    } else {
      var tail := TokensBytes(ts[1..]) + EofBytes() + rest;
      assert TokensBytes(ts) + EofBytes() + rest == TokenBytes(ts[0]) + tail;
      NextTokenInverts(ts[0], tail);
      TokensRoundTrip(ts[1..], rest);
      assert [ts[0]] + ts[1..] == ts;
    }
  }

  lemma EofParses(rest: seq<byte>)
    ensures NextToken(IntBytes(0) + rest) == Got(None, rest)
  {
    IntRoundTrip(0, rest);
  }

  lemma NextTokenIsWriting(s: seq<byte>)
    requires NextToken(s).Got?
    ensures match NextToken(s).value
            case None => EofBytes() + NextToken(s).rest == s
            case Some(t) => Sendable(t) && TokenBytes(t) + NextToken(s).rest == s
  {
    hide IntBytes;
    IntParses(s);
  }

  /** The reader accepts nothing else: any stream it accepts is the writing of the tokens it returns. */
  lemma {:induction false} TokensParseOnlyWritings(s: seq<byte>)
    requires ParseTokens(s).Got?
    ensures var p := ParseTokens(s);
            AllSendable(p.value) && TokensBytes(p.value) + EofBytes() + p.rest == s
    decreases |s|
  {
    hide NextToken, TokenBytes, Sendable;
    var n := NextToken(s);
    NextTokenIsWriting(s);
    if n.value.Some? {
      var t := n.value.value;
      TokensParseOnlyWritings(n.rest);
      var p := ParseTokens(n.rest);
      assert ([t] + p.value)[1..] == p.value;
      assert TokenBytes(t) + TokensBytes(p.value) + EofBytes() + p.rest
          == TokenBytes(t) + (TokensBytes(p.value) + EofBytes() + p.rest);
    }
  }
}
