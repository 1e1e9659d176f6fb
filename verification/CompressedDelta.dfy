/** A file's delta over the compressed token stream (pipeline/sender.rs, pipeline/receiver.rs). */
module CompressedDelta {
  import opened Bytes
  import opened Layout
  import opened Rolling
  import opened MatchBlocks
  import opened DeltaEngine
  import T = Tokens
  import D = DeflateToken

  /** A compressor and its inverse: each takes what went through before and the new bytes. */
  type Codec = (seq<byte>, seq<byte>) -> seq<byte>

  ghost predicate Inverse(expand: Codec, deflate: Codec) {
    forall h, d :: d != [] ==> deflate(h, d) != [] && expand(h, deflate(h, d)) == d
  }

  // ---- the sender ----

  /** What the sender puts into the compressed stream can be sent. */
  predicate OpSends(op: DeltaOp, size: nat) {
    match op
    case Literal(offset, len) => offset + len <= size
    case Match(blockIdx, offset) => blockIdx <= D.MAX_INDEX && offset <= size
  }

  predicate AllSend(ops: seq<DeltaOp>, size: nat) { forall i :: 0 <= i < |ops| ==> OpSends(ops[i], size) }

  function Window(data: seq<byte>, offset: nat, b: nat): seq<byte>
    requires offset <= |data|
  {
    data[offset..Min(offset + b, |data|)]
  }

  /** The flush of the pending literal bytes, if there are any. */
  function Flushed(deflate: Codec, fed: seq<byte>, pending: seq<byte>): seq<D.Item> {
    if pending == [] then [] else [D.Data(deflate(fed, pending))]
  }

  /** The items of the compressed stream for the operations. */
  function ItemsOf(deflate: Codec, fed: seq<byte>, pending: seq<byte>, ops: seq<DeltaOp>, data: seq<byte>,
                   b: nat): seq<D.Item>
    requires AllSend(ops, |data|)
    decreases |ops|
  {
    if ops == [] then Flushed(deflate, fed, pending)
    else match ops[0]
      case Literal(offset, len) => ItemsOf(deflate, fed, pending + data[offset..offset + len], ops[1..], data, b)
      case Match(blockIdx, offset) =>
        Flushed(deflate, fed, pending) + [D.Token(blockIdx)]
        + ItemsOf(deflate, fed + pending + Window(data, offset, b), [], ops[1..], data, b)
  }

  /** The sender's loop over the operations, with compression. */
  method SendCompressed(ops: seq<DeltaOp>, data: seq<byte>, b: nat, deflate: Codec) returns (wire: seq<byte>)
    requires AllSend(ops, |data|) && D.NeverEmpty(deflate)
    ensures D.Indexed(ItemsOf(deflate, [], [], ops, data, b)) && wire == D.Wire(ItemsOf(deflate, [], [], ops, data, b))
  {
    hide AllSend, D.NeverEmpty, D.DeflatedTokenWriter.Valid, Window, D.Wire, D.Indexed;
    var tw := new D.DeflatedTokenWriter(deflate);
    ghost var all := ItemsOf(deflate, [], [], ops, data, b);
    NothingBefore(all);
    for n := 0 to |ops|
      invariant fresh(tw) && tw.Valid() && tw.deflate == deflate && AllSend(ops[n..], |data|)
      invariant all == tw.items + ItemsOf(deflate, tw.fed, tw.pending, ops[n..], data, b)
    {
      SendsParts(ops[n..], |data|);
      assert ops[n..][1..] == ops[n + 1..];
      ghost var rest := ItemsOf(deflate, tw.fed, tw.pending, ops[n..], data, b);
      ghost var before := tw.items;
      match ops[n] {
        case Literal(offset, len) =>
          tw.SendLiteral(data[offset..offset + len]);
        case Match(blockIdx, offset) =>
          ghost var flushed := Flushed(deflate, tw.fed, tw.pending);
          var window := Window(data, offset, b);
          tw.SendBlockMatch(blockIdx, window);
          ghost var after := ItemsOf(deflate, tw.fed, tw.pending, ops[n + 1..], data, b);
          Regroup(before, flushed, [D.Token(blockIdx)], after);
      }
    }
    assert ops[|ops|..] == [];
    wire := tw.Finish();
  }

  lemma Regroup(a: seq<D.Item>, b: seq<D.Item>, c: seq<D.Item>, d: seq<D.Item>)
    ensures a + (b + c + d) == (a + b + c) + d
  {
  }

  lemma NothingBefore(items: seq<D.Item>)
    ensures [] + items == items
  {
  }

  lemma SendsParts(ops: seq<DeltaOp>, size: nat)
    requires AllSend(ops, size)
    ensures ops != [] ==> OpSends(ops[0], size) && AllSend(ops[1..], size)
  {
  }

  // ---- when the stream says what the search found ----

  predicate NoMatches(ops: seq<DeltaOp>) { forall i :: 0 <= i < |ops| ==> ops[i].Literal? }

  predicate MatchesThenLiterals(ops: seq<DeltaOp>) {
    ops == [] || (if ops[0].Match? || ops[0].len == 0 then MatchesThenLiterals(ops[1..]) else NoMatches(ops[1..]))
  }

  predicate TameOps(ops: seq<DeltaOp>) {
    ops == [] || (if ops[0].Literal? then TameOps(ops[1..]) else MatchesThenLiterals(ops[1..]))
  }

  /** Literal bytes lie between two matches. */
  ghost predicate LiteralBetween(ops: seq<DeltaOp>) {
    exists i, j, k :: 0 <= i < j < k < |ops| && ops[i].Match? && Spells(ops[j]) && ops[k].Match?
  }

  predicate Spells(op: DeltaOp) { op.Literal? && op.len > 0 }

  ghost predicate LiteralBefore(ops: seq<DeltaOp>) {
    exists j, k :: 0 <= j < k < |ops| && Spells(ops[j]) && ops[k].Match?
  }

  lemma {:induction false} ThenMeaning(ops: seq<DeltaOp>)
    ensures MatchesThenLiterals(ops) <==> !LiteralBefore(ops)
  {
    if ops != [] {
      ThenMeaning(ops[1..]);
      if LiteralBefore(ops[1..]) {
        var j, k :| 0 <= j < k < |ops| - 1 && Spells(ops[1..][j]) && ops[1..][k].Match?;
        assert Spells(ops[j + 1]) && ops[k + 1].Match?;
      }
      if j, k :| 0 <= j < k < |ops| && Spells(ops[j]) && ops[k].Match? {
        assert ops[1..][k - 1].Match?;
        assert j > 0 ==> Spells(ops[1..][j - 1]);
      }
      if Spells(ops[0]) && !NoMatches(ops[1..]) {
        var k :| 0 <= k < |ops| - 1 && !ops[1..][k].Literal?;
        assert Spells(ops[0]) && ops[k + 1].Match?;
      }
    }
  }

  lemma BetweenFromTail(ops: seq<DeltaOp>)
    requires ops != [] && LiteralBetween(ops[1..])
    ensures LiteralBetween(ops)
  {
    hide Spells;
    var i, j, k :| 0 <= i < j < k < |ops| - 1 && ops[1..][i].Match? && Spells(ops[1..][j]) && ops[1..][k].Match?;
    assert ops[i + 1].Match? && Spells(ops[j + 1]) && ops[k + 1].Match?;
  }

  lemma BetweenFromHead(ops: seq<DeltaOp>)
    requires ops != [] && ops[0].Match? && LiteralBefore(ops[1..])
    ensures LiteralBetween(ops)
  {
    hide Spells;
    var j, k :| 0 <= j < k < |ops| - 1 && Spells(ops[1..][j]) && ops[1..][k].Match?;
    assert ops[0].Match? && Spells(ops[j + 1]) && ops[k + 1].Match?;
  }

  lemma BetweenInTail(ops: seq<DeltaOp>, i: nat, j: nat, k: nat)
    requires i < j < k < |ops| && ops[i].Match? && Spells(ops[j]) && ops[k].Match?
    ensures LiteralBetween(ops[1..]) || (ops[0].Match? && LiteralBefore(ops[1..]))
  {
    hide Spells;
    var tail := ops[1..];
    assert Spells(tail[j - 1]) && tail[k - 1].Match?;
    if i > 0 {
      assert tail[i - 1].Match?;
    }
  }

  lemma {:induction false} TameMeaning(ops: seq<DeltaOp>)
    ensures TameOps(ops) <==> !LiteralBetween(ops)
  {
    if ops != [] {
      TameMeaning(ops[1..]);
      ThenMeaning(ops[1..]);
      if LiteralBetween(ops[1..]) {
        BetweenFromTail(ops);
      } else if ops[0].Match? && LiteralBefore(ops[1..]) {
        BetweenFromHead(ops);
      }
      hide LiteralBefore, MatchesThenLiterals;
      if i, j, k :| 0 <= i < j < k < |ops| && ops[i].Match? && Spells(ops[j]) && ops[k].Match? {
        BetweenInTail(ops, i, j, k);
        hide LiteralBetween;
      }
    }
  }

  lemma NoTokensCons(item: D.Item, items: seq<D.Item>)
    ensures D.NoTokens([item] + items) <==> item.Data? && D.NoTokens(items)
    ensures D.TokensThenData([item] + items) <==> if item.Token? then D.TokensThenData(items) else D.NoTokens(items)
    ensures D.Tame([item] + items) <==> if item.Data? then D.Tame(items) else D.TokensThenData(items)
  {
    var all := [item] + items;
    assert all[1..] == items && all[0] == item;
    assert forall i :: 0 <= i < |items| ==> all[i + 1] == items[i];
  }

  /** Data and tokens lie in the stream as literals and matches lie among the operations. */
  lemma {:induction false} ItemsShape(deflate: Codec, fed: seq<byte>, pending: seq<byte>, ops: seq<DeltaOp>,
                                      data: seq<byte>, b: nat)
    requires AllSend(ops, |data|)
    ensures var items := ItemsOf(deflate, fed, pending, ops, data, b);
            && (D.NoTokens(items) <==> NoMatches(ops))
            && (D.TokensThenData(items) <==> if pending == [] then MatchesThenLiterals(ops) else NoMatches(ops))
            && (D.Tame(items) <==> TameOps(ops))
    decreases |ops|
  {
    hide D.NoTokens, D.TokensThenData, D.Tame, AllSend;
    SendsParts(ops, |data|);
    if ops == [] {
      NoTokensNone();
      if pending != [] {
        NoTokensCons(D.Data(deflate(fed, pending)), []);
        assert [D.Data(deflate(fed, pending))] + [] == [D.Data(deflate(fed, pending))];
      }
    } else {
      NoMatchesCons(ops);
      match ops[0]
      case Literal(offset, len) =>
        ItemsShape(deflate, fed, pending + data[offset..offset + len], ops[1..], data, b);
      case Match(blockIdx, offset) =>
        var after := ItemsOf(deflate, fed + pending + Window(data, offset, b), [], ops[1..], data, b);
        ItemsShape(deflate, fed + pending + Window(data, offset, b), [], ops[1..], data, b);
        NoTokensCons(D.Token(blockIdx), after);
        if pending == [] {
          assert ItemsOf(deflate, fed, pending, ops, data, b) == [D.Token(blockIdx)] + after;
        } else {
          NoTokensCons(D.Data(deflate(fed, pending)), [D.Token(blockIdx)] + after);
          assert ItemsOf(deflate, fed, pending, ops, data, b)
                 == [D.Data(deflate(fed, pending))] + ([D.Token(blockIdx)] + after);
        }
    }
  }

  lemma NoTokensNone()
    ensures D.NoTokens([]) && D.TokensThenData([]) && D.Tame([])
  {
  }

  lemma NoMatchesCons(ops: seq<DeltaOp>)
    requires ops != []
    ensures NoMatches(ops) <==> ops[0].Literal? && NoMatches(ops[1..])
  {
    assert forall i :: 1 <= i < |ops| ==> ops[i] == ops[1..][i - 1];
  }

  lemma {:induction false} ItemsIndexed(deflate: Codec, fed: seq<byte>, pending: seq<byte>, ops: seq<DeltaOp>,
                                        data: seq<byte>, b: nat)
    requires AllSend(ops, |data|) && D.NeverEmpty(deflate)
    ensures D.Indexed(ItemsOf(deflate, fed, pending, ops, data, b))
    decreases |ops|
  {
    hide AllSend, D.Indexed, Window;
    SendsParts(ops, |data|);
    assert D.Indexed(Flushed(deflate, fed, pending)) by { FlushedIndexed(deflate, fed, pending); }
    if ops != [] {
      match ops[0]
      case Literal(offset, len) =>
        ItemsIndexed(deflate, fed, pending + data[offset..offset + len], ops[1..], data, b);
      case Match(blockIdx, offset) =>
        var after := ItemsOf(deflate, fed + pending + Window(data, offset, b), [], ops[1..], data, b);
        ItemsIndexed(deflate, fed + pending + Window(data, offset, b), [], ops[1..], data, b);
        OneTokenIndexed(blockIdx);
        D.IndexedTogether(Flushed(deflate, fed, pending), [D.Token(blockIdx)]);
        D.IndexedTogether(Flushed(deflate, fed, pending) + [D.Token(blockIdx)], after);
    }
  }

  lemma FlushedIndexed(deflate: Codec, fed: seq<byte>, pending: seq<byte>)
    requires D.NeverEmpty(deflate)
    ensures D.Indexed(Flushed(deflate, fed, pending))
  {
  }

  lemma OneTokenIndexed(idx: nat)
    requires idx <= D.MAX_INDEX
    ensures D.Indexed([D.Token(idx)])
  {
  }

  /** For any operations: the compressed stream can be read, and its block references and data are those that were sent
      exactly when no literal bytes lie between two matches. */
  lemma StreamOfOps(deflate: Codec, ops: seq<DeltaOp>, data: seq<byte>, b: nat, rest: seq<byte>)
    requires AllSend(ops, |data|) && D.NeverEmpty(deflate)
    ensures D.Indexed(ItemsOf(deflate, [], [], ops, data, b))
    ensures var items := ItemsOf(deflate, [], [], ops, data, b);
            var got := D.ReadItems(D.Wire(items) + rest, 0);
            && got.Got? && got.rest == rest
            && (D.FlatOf(got.value) == D.FlatOf(items) <==> !LiteralBetween(ops))
  {
    hide D.ReadItems, D.Wire, D.FlatOf, D.Tame, ItemsOf, AllSend, TameOps, LiteralBetween, D.NeverEmpty;
    ItemsIndexed(deflate, [], [], ops, data, b);
    D.StreamIsFaithful(ItemsOf(deflate, [], [], ops, data, b), rest);
    ItemsShape(deflate, [], [], ops, data, b);
    TameMeaning(ops);
  }

  // ---- the receiver ----

  function Expanded(expand: Codec, fed: seq<byte>, payload: seq<byte>): seq<byte> {
    if payload == [] then [] else expand(fed, payload)
  }

  function BlockOf(basis: seq<byte>, head: SumHead, idx: int): seq<byte>
    requires head.blength >= 0 && head.remainder >= 0
  {
    if idx < 0 then [] else CopyBlock(basis, head, idx)
  }

  /** The file that the receiver unpacks: data is expanded up to the next block, and blocks are copied and fed to the
      expander as well. */
  function Unpack(expand: Codec, fed: seq<byte>, payload: seq<byte>, s: seq<D.Flat>, basis: seq<byte>,
                  head: SumHead): seq<byte>
    requires head.blength >= 0 && head.remainder >= 0
    decreases |s|
  {
    if s == [] then Expanded(expand, fed, payload)
    else match s[0]
      case Byte(x) => Unpack(expand, fed, payload + [x], s[1..], basis, head)
      case Block(idx) =>
        var d, block := Expanded(expand, fed, payload), BlockOf(basis, head, idx);
        d + block + Unpack(expand, fed + d + block, [], s[1..], basis, head)
  }

  lemma {:induction false} UnpackData(expand: Codec, fed: seq<byte>, before: seq<byte>, p: seq<byte>, s: seq<D.Flat>,
                                      basis: seq<byte>, head: SumHead)
    requires head.blength >= 0 && head.remainder >= 0
    ensures Unpack(expand, fed, before, D.FlatItem(D.Data(p)) + s, basis, head)
            == Unpack(expand, fed, before + p, s, basis, head)
    decreases |p|
  {
    hide Unpack;
    if p == [] {
      assert D.FlatItem(D.Data(p)) + s == s && before + p == before;
    } else {
      var rest := D.FlatItem(D.Data(p[1..])) + s;
      assert D.FlatItem(D.Data(p)) + s == [D.Byte(p[0])] + rest;
      UnpackByte(expand, fed, before, p[0], rest, basis, head);
      UnpackData(expand, fed, before + [p[0]], p[1..], s, basis, head);
      assert before + [p[0]] + p[1..] == before + p;
    }
  }

  lemma UnpackByte(expand: Codec, fed: seq<byte>, payload: seq<byte>, x: byte, s: seq<D.Flat>, basis: seq<byte>,
                   head: SumHead)
    requires head.blength >= 0 && head.remainder >= 0
    ensures Unpack(expand, fed, payload, [D.Byte(x)] + s, basis, head)
            == Unpack(expand, fed, payload + [x], s, basis, head)
  {
    hide BlockOf, Expanded;
    assert ([D.Byte(x)] + s)[1..] == s;
  }

  lemma UnpackFirst(expand: Codec, fed: seq<byte>, payload: seq<byte>, item: D.Item, items: seq<D.Item>,
                    basis: seq<byte>, head: SumHead)
    requires head.blength >= 0 && head.remainder >= 0
    ensures var all := Unpack(expand, fed, payload, D.FlatOf([item] + items), basis, head);
            && (item.Data? ==> all == Unpack(expand, fed, payload + item.payload, D.FlatOf(items), basis, head))
            && (item.Token? ==>
                  var d, block := Expanded(expand, fed, payload), BlockOf(basis, head, item.idx);
                  all == d + block + Unpack(expand, fed + d + block, [], D.FlatOf(items), basis, head))
  {
    hide D.FlatOf, BlockOf, Expanded;
    D.FlatAppend([item], items);
    D.FlatOne(item);
    match item
    case Data(p) => UnpackData(expand, fed, payload, p, D.FlatOf(items), basis, head);
    case Token(idx) =>
      var s := [D.Block(idx)] + D.FlatOf(items);
      assert s[1..] == D.FlatOf(items);
  }

  /** The receiver's loop over the compressed tokens of one file. */
  method ReceiveCompressed(input: seq<byte>, basis: seq<byte>, head: SumHead, expand: Codec)
      returns (out: seq<byte>, left: seq<byte>)
    requires head.blength >= 0 && head.remainder >= 0 && D.ReadItems(input, 0).Got?
    ensures left == D.ReadItems(input, 0).rest
    ensures out == Unpack(expand, [], [], D.FlatOf(D.ReadItems(input, 0).value), basis, head)
  {
    hide D.ReadItems, D.FlatOf, D.DeflatedTokenReader.Remaining, BlockOf, Unpack, Expanded;
    var tr := new D.DeflatedTokenReader(input);
    ghost var all, after := Unpack(expand, [], [], D.FlatOf(D.ReadItems(input, 0).value), basis, head),
                                   D.ReadItems(input, 0).rest;
    var fed: seq<byte>, payload: seq<byte> := [], [];
    out := [];
    NothingYet(all);
    while true
      invariant fresh(tr) && tr.Remaining().Got? && tr.Remaining().rest == after
      invariant out + Unpack(expand, fed, payload, D.FlatOf(tr.Remaining().value), basis, head) == all
      decreases |tr.Remaining().value|
    {
      ghost var items := tr.Remaining().value;
      if items != [] {
        assert items == [items[0]] + items[1..];
        UnpackFirst(expand, fed, payload, items[0], items[1..], basis, head);
      }
      var r := tr.ReadToken();
      match r {
        case Error => assert false;
        case End =>
          D.FlatNone();
          UnpackNone(expand, fed, payload, basis, head);
          out := out + Expanded(expand, fed, payload);
          left := tr.input;
          return;
        case Item(item) =>
          match item {
            case Data(p) =>
              payload := payload + p;
            case Token(idx) =>
              var d, block := Expanded(expand, fed, payload), BlockOf(basis, head, idx);
              ghost var later := Unpack(expand, fed + d + block, [], D.FlatOf(items[1..]), basis, head);
              Reassociate(out, d, block, later);
              out := out + d + block;
              fed, payload := fed + d + block, [];
          }
      }
    }
  }

  lemma Reassociate(out: seq<byte>, d: seq<byte>, block: seq<byte>, later: seq<byte>)
    ensures out + (d + block + later) == (out + d + block) + later
  {
  }

  lemma NothingYet(all: seq<byte>)
    ensures [] + all == all
  {
  }

  lemma UnpackNone(expand: Codec, fed: seq<byte>, payload: seq<byte>, basis: seq<byte>, head: SumHead)
    requires head.blength >= 0 && head.remainder >= 0
    ensures Unpack(expand, fed, payload, [], basis, head) == Expanded(expand, fed, payload)
  {
  }

  /** Every match stands for the basis block it names. */
  predicate InPlace(ops: seq<DeltaOp>, data: seq<byte>, basis: seq<byte>, head: SumHead)
    requires AllSend(ops, |data|) && head.blength >= 0 && head.remainder >= 0
  {
    forall i :: 0 <= i < |ops| && ops[i].Match? ==>
      Window(data, AllSendAt(ops, |data|, i).offset, head.blength) == CopyBlock(basis, head, ops[i].blockIdx)
  }

  function AllSendAt(ops: seq<DeltaOp>, size: nat, i: nat): (op: DeltaOp)
    requires AllSend(ops, size) && i < |ops|
    ensures op == ops[i] && OpSends(op, size)
  {
    ops[i]
  }

  lemma SendFits(ops: seq<DeltaOp>, size: nat)
    requires AllSend(ops, size)
    ensures AllFit(ops, size)
  {
  }

  lemma InPlaceParts(ops: seq<DeltaOp>, data: seq<byte>, basis: seq<byte>, head: SumHead)
    requires AllSend(ops, |data|) && head.blength >= 0 && head.remainder >= 0 && InPlace(ops, data, basis, head)
             && ops != []
    ensures AllSend(ops[1..], |data|) && InPlace(ops[1..], data, basis, head)
    ensures ops[0].Match? ==>
              OpSends(ops[0], |data|)
                && Window(data, ops[0].offset, head.blength) == CopyBlock(basis, head, ops[0].blockIdx)
  {
    hide CopyBlock, Window;
    SendsParts(ops, |data|);
    assert AllSendAt(ops, |data|, 0) == ops[0];
    forall i | 0 <= i < |ops| - 1 && ops[1..][i].Match?
      ensures Window(data, AllSendAt(ops[1..], |data|, i).offset, head.blength)
              == CopyBlock(basis, head, ops[1..][i].blockIdx)
    {
      assert AllSendAt(ops, |data|, i + 1) == ops[1..][i];
    }
  }

  /** Unpacking the items of the operations gives the file that the operations describe. */
  lemma {:induction false} UnpackItems(deflate: Codec, expand: Codec, fed: seq<byte>, pending: seq<byte>,
                                       ops: seq<DeltaOp>, data: seq<byte>, basis: seq<byte>, head: SumHead)
    requires Inverse(expand, deflate) && AllSend(ops, |data|) && head.blength >= 0 && head.remainder >= 0
    requires InPlace(ops, data, basis, head)
    ensures AllFit(ops, |data|)
    ensures Unpack(expand, fed, [], D.FlatOf(ItemsOf(deflate, fed, pending, ops, data, head.blength)), basis, head)
            == pending + RebuiltFrom(ops, data, basis, head)
    decreases |ops|
  {
    hide AllSend, InPlace, RebuiltFrom, CopyBlock, Window, D.FlatOf, D.FlatItem, Unpack, AllFit;
    SendFits(ops, |data|);
    var b := head.blength;
    if ops == [] {
      UnpackFlush(deflate, expand, fed, pending, [], basis, head);
      D.FlatNone();
      RebuiltNone(data, basis, head);
      assert Flushed(deflate, fed, pending) + [] == Flushed(deflate, fed, pending);
      assert D.FlatOf(Flushed(deflate, fed, pending)) + [] == D.FlatOf(Flushed(deflate, fed, pending));
    } else {
      InPlaceParts(ops, data, basis, head);
      SendsParts(ops, |data|);
      SendFits(ops[1..], |data|);
      RebuiltFirst(ops, data, basis, head);
      match ops[0]
      case Literal(offset, len) =>
        var lit := data[offset..offset + len];
        UnpackItems(deflate, expand, fed, pending + lit, ops[1..], data, basis, head);
        InFront(pending, lit, RebuiltFrom(ops[1..], data, basis, head));
      case Match(blockIdx, offset) =>
        var window := Window(data, offset, b);
        var after := ItemsOf(deflate, fed + pending + window, [], ops[1..], data, b);
        UnpackItems(deflate, expand, fed + pending + window, [], ops[1..], data, basis, head);
        UnpackMatch(deflate, expand, fed, pending, blockIdx, after, basis, head);
        var later := RebuiltFrom(ops[1..], data, basis, head);
        InFront(pending, window, later);
    }
  }

  lemma InFront(a: seq<byte>, b: seq<byte>, c: seq<byte>)
    ensures a + b + c == a + (b + c) && [] + c == c
  {
  }

  lemma RebuiltNone(data: seq<byte>, basis: seq<byte>, head: SumHead)
    requires head.blength >= 0 && head.remainder >= 0
    ensures AllFit([], |data|) && RebuiltFrom([], data, basis, head) == []
  {
  }

  /** The file of the operations, the first one first. */
  lemma RebuiltFirst(ops: seq<DeltaOp>, data: seq<byte>, basis: seq<byte>, head: SumHead)
    requires ops != [] && AllSend(ops, |data|) && head.blength >= 0 && head.remainder >= 0
    ensures AllFit(ops, |data|) && AllFit(ops[1..], |data|) && OpSends(ops[0], |data|)
    ensures RebuiltFrom(ops, data, basis, head)
            == (match ops[0]
                case Literal(offset, len) => data[offset..offset + len]
                case Match(k, _) => CopyBlock(basis, head, k))
               + RebuiltFrom(ops[1..], data, basis, head)
  {
    hide CopyBlock, T.Items;
    SendFits(ops, |data|);
    SendsParts(ops, |data|);
    SendFits(ops[1..], |data|);
    assert ops == [ops[0]] + ops[1..];
    RebuiltAppend([ops[0]], ops[1..], data, basis, head);
    OpsItemsOne(ops[0], data);
    match ops[0]
    case Literal(offset, len) => RebuildLiteral(data[offset..offset + len], basis, head);
    case Match(k, _) => RebuildReference(k, basis, head);
  }

  /** A flush is expanded to the bytes that were pending. */
  lemma UnpackFlush(deflate: Codec, expand: Codec, fed: seq<byte>, pending: seq<byte>, s: seq<D.Flat>, basis: seq<byte>,
                    head: SumHead)
    requires Inverse(expand, deflate) && head.blength >= 0 && head.remainder >= 0
    ensures var payload := if pending == [] then [] else deflate(fed, pending);
            && Expanded(expand, fed, payload) == pending
            && Unpack(expand, fed, [], D.FlatOf(Flushed(deflate, fed, pending)) + s, basis, head)
              == Unpack(expand, fed, payload, s, basis, head)
            && (s == [] ==> Unpack(expand, fed, payload, s, basis, head) == pending)
  {
    hide D.FlatOf, D.FlatItem, BlockOf;
    if pending == [] {
      D.FlatNone();
      assert [] + s == s;
    } else {
      var p := deflate(fed, pending);
      D.FlatOne(D.Data(p));
      UnpackData(expand, fed, [], p, s, basis, head);
      assert [] + p == p;
    }
  }

  lemma UnpackMatch(deflate: Codec, expand: Codec, fed: seq<byte>, pending: seq<byte>, idx: nat, after: seq<D.Item>,
                    basis: seq<byte>, head: SumHead)
    requires Inverse(expand, deflate) && head.blength >= 0 && head.remainder >= 0
    ensures var block := CopyBlock(basis, head, idx);
            Unpack(expand, fed, [], D.FlatOf(Flushed(deflate, fed, pending) + [D.Token(idx)] + after), basis, head)
            == pending + block + Unpack(expand, fed + pending + block, [], D.FlatOf(after), basis, head)
  {
    hide D.FlatOf, CopyBlock, Flushed;
    var flushed := Flushed(deflate, fed, pending);
    var s := [D.Block(idx)] + D.FlatOf(after);
    D.FlatAppend(flushed + [D.Token(idx)], after);
    D.FlatAppend(flushed, [D.Token(idx)]);
    D.FlatOne(D.Token(idx));
    assert D.FlatOf(flushed + [D.Token(idx)] + after) == D.FlatOf(flushed) + s;
    UnpackFlush(deflate, expand, fed, pending, s, basis, head);
    assert s[1..] == D.FlatOf(after);
  }

  // ---- the delta that the search finds ----

  lemma SendsAppend(a: seq<DeltaOp>, b: seq<DeltaOp>, size: nat)
    requires AllSend(a, size) && AllSend(b, size)
    ensures AllSend(a + b, size)
  {
  }

  lemma PendingSends(last: nat, offset: nat, size: nat)
    requires last <= offset <= size
    ensures AllSend(Pending(last, offset), size)
  {
  }

  lemma {:induction false} ScanSends(data: seq<byte>, sums: seq<SumBuf>, b: nat, strongLen: nat, strong: Strong,
                                     offset: nat, last: nat)
    requires b > 0 && last <= offset && last <= |data| && strongLen <= 16 && |sums| <= D.MAX_INDEX
    ensures AllSend(Scan(data, sums, b, strongLen, strong, offset, last), |data|)
    decreases |data| - offset
  {
    hide Hit, FirstHit, AllSend, Pending;
    if offset + b > |data| {
      PendingSends(last, |data|, |data|);
    } else {
      var hit := FirstHit(data[offset..offset + b], sums, 0, strongLen, strong);
      if hit.Some? {
        ScanSends(data, sums, b, strongLen, strong, offset + b, offset + b);
        PendingSends(last, offset, |data|);
        OneMatchSends(hit.value, offset, |data|);
        SendsAppend(Pending(last, offset), [Match(hit.value, offset)], |data|);
        SendsAppend(Pending(last, offset) + [Match(hit.value, offset)],
          Scan(data, sums, b, strongLen, strong, offset + b, offset + b), |data|);
      } else {
        ScanSends(data, sums, b, strongLen, strong, offset + 1, last);
      }
    }
  }

  lemma OneMatchSends(k: nat, offset: nat, size: nat)
    requires k <= D.MAX_INDEX && offset <= size
    ensures AllSend([Match(k, offset)], size)
  {
  }

  lemma InPlaceAppend(a: seq<DeltaOp>, b: seq<DeltaOp>, data: seq<byte>, basis: seq<byte>, head: SumHead)
    requires AllSend(a, |data|) && AllSend(b, |data|) && head.blength >= 0 && head.remainder >= 0
    requires InPlace(a, data, basis, head) && InPlace(b, data, basis, head)
    ensures AllSend(a + b, |data|) && InPlace(a + b, data, basis, head)
  {
    hide CopyBlock, Window;
    SendsAppend(a, b, |data|);
    forall i | 0 <= i < |a + b| && (a + b)[i].Match?
      ensures Window(data, AllSendAt(a + b, |data|, i).offset, head.blength)
              == CopyBlock(basis, head, (a + b)[i].blockIdx)
    {
      if i < |a| {
        assert AllSendAt(a, |data|, i) == (a + b)[i];
      } else {
        assert AllSendAt(b, |data|, i - |a|) == (a + b)[i];
      }
    }
  }

  lemma PendingInPlace(last: nat, offset: nat, data: seq<byte>, basis: seq<byte>, head: SumHead)
    requires last <= offset <= |data| && head.blength >= 0 && head.remainder >= 0
    ensures AllSend(Pending(last, offset), |data|) && InPlace(Pending(last, offset), data, basis, head)
  {
    PendingSends(last, offset, |data|);
  }

  /** Where the search is faithful its matches are in place. */
  lemma {:induction false} ScanInPlace(data: seq<byte>, basis: seq<byte>, head: SumHead, sums: seq<SumBuf>,
                                       strong: Strong, offset: nat, last: nat)
    requires 0 <= head.s2length <= 16 && 0 < head.blength && 0 <= head.remainder && |sums| <= D.MAX_INDEX
    requires last <= offset && last <= |data| && Faithful(data, basis, head, sums, strong, offset, last)
    ensures AllSend(Scan(data, sums, head.blength, head.s2length, strong, offset, last), |data|)
    ensures InPlace(Scan(data, sums, head.blength, head.s2length, strong, offset, last), data, basis, head)
    decreases |data| - offset
  {
    hide Hit, FirstHit, AllSend, InPlace, Pending, CopyBlock, Faithful;
    var b := head.blength;
    FaithfulStep(data, basis, head, sums, strong, offset, last);
    if offset + b > |data| {
      PendingInPlace(last, |data|, data, basis, head);
    } else {
      var hit := FirstHit(data[offset..offset + b], sums, 0, head.s2length, strong);
      if hit.Some? {
        var rest := Scan(data, sums, b, head.s2length, strong, offset + b, offset + b);
        ScanInPlace(data, basis, head, sums, strong, offset + b, offset + b);
        PendingInPlace(last, offset, data, basis, head);
        OneInPlace(hit.value, offset, data, basis, head);
        InPlaceAppend(Pending(last, offset), [Match(hit.value, offset)], data, basis, head);
        InPlaceAppend(Pending(last, offset) + [Match(hit.value, offset)], rest, data, basis, head);
      } else {
        ScanInPlace(data, basis, head, sums, strong, offset + 1, last);
      }
    }
  }

  lemma OneInPlace(k: nat, offset: nat, data: seq<byte>, basis: seq<byte>, head: SumHead)
    requires k <= D.MAX_INDEX && head.blength >= 0 && head.remainder >= 0 && offset + head.blength <= |data|
    requires CopyBlock(basis, head, k) == data[offset..offset + head.blength]
    ensures AllSend([Match(k, offset)], |data|) && InPlace([Match(k, offset)], data, basis, head)
  {
  }

  /** The delta of every source can be sent compressed, for bases of fewer than 2^31 - 2^16 blocks. */
  lemma DeltaSends(data: seq<byte>, head: SumHead, sums: seq<SumBuf>, strong: Strong)
    requires head.blength >= 0 && 0 <= head.s2length <= 16 && |sums| <= D.MAX_INDEX
    ensures AllSend(Delta(data, head, sums, strong), |data|)
  {
    hide Scan;
    if head.blength == 0 {
      PendingSends(0, |data|, |data|);
    } else {
      ScanSends(data, sums, head.blength, head.s2length, strong, 0, 0);
    }
  }

  /** One file, compressed: what is on the wire carries the search's blocks and data exactly when no literal bytes lie
      between two matches. */
  method SendDelta(data: seq<byte>, head: SumHead, t: BlockHashTable, strong: Strong, deflate: Codec,
                   ghost rest: seq<byte>)
      returns (ops: seq<DeltaOp>, wire: seq<byte>)
    requires TableFor(t, t.sums, |t.sums|) && |t.sums| <= D.MAX_INDEX && D.NeverEmpty(deflate)
    requires head.blength >= 0 && 0 <= head.s2length <= 16
    ensures ops == Delta(data, head, t.sums, strong) && AllSend(ops, |data|)
    ensures var items, got := ItemsOf(deflate, [], [], ops, data, head.blength), D.ReadItems(wire + rest, 0);
            && got.Got? && got.rest == rest
            && (D.FlatOf(got.value) == D.FlatOf(items) <==> !LiteralBetween(ops))
  {
    hide TableFor, D.NeverEmpty, D.ReadItems, D.FlatOf, LiteralBetween, ItemsOf, Delta, AllSend, D.Wire;
    ops := FindMatchesSeeded(data, head, t, strong);
    DeltaSends(data, head, t.sums, strong);
    wire := SendCompressed(ops, data, head.blength, deflate);
    StreamOfOps(deflate, ops, data, head.blength, rest);
  }

  /** The compressed exchange of one file: whenever the uncompressed one rebuilds the source, and no literal bytes lie
      between two matches, the receiver unpacks the source. */
  lemma CompressedDeltaRebuilds(data: seq<byte>, basis: seq<byte>, head: SumHead, sums: seq<SumBuf>, strong: Strong,
                                deflate: Codec, expand: Codec, rest: seq<byte>)
    requires Summarises(sums, basis, head, strong) && |sums| <= D.MAX_INDEX && Inverse(expand, deflate)
    requires Reconstructs(data, basis, head, sums, strong)
    requires !LiteralBetween(Delta(data, head, sums, strong))
    ensures 0 <= head.blength && 0 <= head.remainder && AllSend(Delta(data, head, sums, strong), |data|)
    ensures D.Indexed(ItemsOf(deflate, [], [], Delta(data, head, sums, strong), data, head.blength))
    ensures var items := ItemsOf(deflate, [], [], Delta(data, head, sums, strong), data, head.blength);
            var got := D.ReadItems(D.Wire(items) + rest, 0);
            got.Got? && got.rest == rest && Unpack(expand, [], [], D.FlatOf(got.value), basis, head) == data
  {
    hide D.ReadItems, D.FlatOf, D.Wire, LiteralBetween, ItemsOf, AllSend, Unpack, Reconstructs, Inverse, RebuiltFrom,
         InPlace, Scan;
    SummaryFacts(sums, basis, head, strong);
    var ops := Delta(data, head, sums, strong);
    DeltaSends(data, head, sums, strong);
    InverseNeverEmpty(expand, deflate);
    StreamOfOps(deflate, ops, data, head.blength, rest);
    DeltaInPlace(data, basis, head, sums, strong);
    UnpackItems(deflate, expand, [], [], ops, data, basis, head);
    DeltaRebuildsExactly(data, basis, head, sums, strong);
    assert [] + data == data;
  }

  lemma InverseNeverEmpty(expand: Codec, deflate: Codec)
    requires Inverse(expand, deflate)
    ensures D.NeverEmpty(deflate)
  {
  }

  lemma DeltaInPlace(data: seq<byte>, basis: seq<byte>, head: SumHead, sums: seq<SumBuf>, strong: Strong)
    requires Summarises(sums, basis, head, strong) && |sums| <= D.MAX_INDEX
    requires Reconstructs(data, basis, head, sums, strong)
    ensures 0 <= head.s2length <= 16 && head.blength >= 0 && head.remainder >= 0
    ensures AllSend(Delta(data, head, sums, strong), |data|)
            && InPlace(Delta(data, head, sums, strong), data, basis, head)
  {
    hide Faithful, InPlace, AllSend, Scan, Pending;
    SummaryFacts(sums, basis, head, strong);
    if head.blength == 0 {
      PendingInPlace(0, |data|, data, basis, head);
    } else {
      ScanInPlace(data, basis, head, sums, strong, 0, 0);
    }
  }

  // ---- a stream that the sender really gets wrong ----

  function Filled(n: nat, v: byte): seq<byte> { seq(n, i => v) }

  lemma {:induction false} PlainFilled(n: nat, v: byte)
    requires v < 128
    ensures Plain(Filled(n, v)) == n * v
  {
    if n > 0 {
      assert Filled(n, v)[1..] == Filled(n - 1, v);
      PlainFilled(n - 1, v);
      assert n * v == v + (n - 1) * v;
    }
  }

  /** A basis of two blocks of 700 bytes, and a source with one byte put between them. */
  const OLD: seq<byte> := Filled(700, 0) + Filled(700, 1)
  const NEW: seq<byte> := Filled(700, 0) + [5] + Filled(700, 1)

  lemma OldHead(s2length: i32)
    requires 0 <= s2length <= 16
    ensures MakeSumHead(|OLD|, s2length) == SumHead(2, 700, s2length, 0)
            && Describes(SumHead(2, 700, s2length, 0), |OLD|)
  {
    HeadDescribesFile(|OLD|, s2length);
  }

  /** Sums that differ modulo 2^16 make no hit. */
  lemma NoHit(window: seq<byte>, s: SumBuf, block: seq<byte>, strongLen: nat, strong: Strong)
    requires strongLen <= 16 && s.sum1 == WeakSum(block)
    requires 0 <= Plain(window) < 0x1_0000 && 0 <= Plain(block) < 0x1_0000 && Plain(window) != Plain(block)
    ensures !Hit(window, s, strongLen, strong)
  {
    hide Plain, Weighted;
    LowHalf(Plain(window), Weighted(window));
    LowHalf(Plain(block), Weighted(block));
  }

  lemma LowHalf(x: int, y: int)
    ensures Pack(x, y) % 0x1_0000 == x % 0x1_0000
  {
  }

  /** The old blocks, and the windows of the new file at 0, 700 and 701. */
  lemma Windows(s2length: i32)
    requires 0 <= s2length <= 16 && Describes(SumHead(2, 700, s2length, 0), |OLD|)
    ensures |OLD| == 1400 && |NEW| == 1401
    ensures Block(OLD, SumHead(2, 700, s2length, 0), 0) == Filled(700, 0) == NEW[0..700]
    ensures Block(OLD, SumHead(2, 700, s2length, 0), 1) == Filled(700, 1) == NEW[701..1401]
    ensures NEW[700..1400] == [5] + Filled(699, 1)
  {
  }

  lemma PlainCons(b: byte, d: seq<byte>)
    requires b < 128
    ensures Plain([b] + d) == b + Plain(d)
  {
    assert ([b] + d)[1..] == d;
  }

  lemma FirstOfTwo(window: seq<byte>, sums: seq<SumBuf>, strongLen: nat, strong: Strong)
    requires strongLen <= 16 && |sums| == 2
    ensures FirstHit(window, sums, 0, strongLen, strong)
            == if Hit(window, sums[0], strongLen, strong) then Some(0)
              else if Hit(window, sums[1], strongLen, strong) then Some(1) else None
  {
    hide Hit;
    assert FirstHit(window, sums, 1, strongLen, strong)
        == if Hit(window, sums[1], strongLen, strong) then Some(1) else FirstHit(window, sums, 2, strongLen, strong);
  }

  lemma BlockHits(window: seq<byte>, basis: seq<byte>, head: SumHead, sums: seq<SumBuf>, strong: Strong, k: nat)
    requires Summarises(sums, basis, head, strong) && k < head.count && window == Block(basis, head, k)
    ensures Hit(window, sums[k], head.s2length, strong)
  {
    hide WeakSum;
    assert sums[k] == SumBufOf(basis, head, strong, k);
  }

  /** Whatever the strong checksum, the search finds the first block, the new byte, the second block. */
  lemma NewDelta(sums: seq<SumBuf>, s2length: i32, strong: Strong)
    requires 0 <= s2length <= 16 && Summarises(sums, OLD, MakeSumHead(|OLD|, s2length), strong)
    ensures Delta(NEW, MakeSumHead(|OLD|, s2length), sums, strong) == [Match(0, 0), Literal(700, 1), Match(1, 701)]
  {
    hide Hit, WeakSum, Filled, Plain, FirstHit, Block, Summarises, Scan;
    OldHead(s2length);
    var head := SumHead(2, 700, s2length, 0);
    NewWindows(sums, s2length, strong);
    ScanFrom701(sums, s2length, strong);
    ScanOn(NEW, sums, 700, s2length, strong, 700, 700);
    ScanMatch(NEW, sums, 700, s2length, strong, 0, 0, 0);
    assert [Match(0, 0)] + [Literal(700, 1), Match(1, 701)] == [Match(0, 0), Literal(700, 1), Match(1, 701)];
  }

  lemma ScanFrom701(sums: seq<SumBuf>, s2length: i32, strong: Strong)
    requires 0 <= s2length <= 16 && |NEW| == 1401 && FirstHit(NEW[701..1401], sums, 0, s2length, strong) == Some(1)
    ensures Scan(NEW, sums, 700, s2length, strong, 701, 700) == [Literal(700, 1), Match(1, 701)]
  {
    hide FirstHit, NEW, Scan;
    ScanMatch(NEW, sums, 700, s2length, strong, 701, 700, 1);
    ScanEnd(NEW, sums, 700, s2length, strong, 1401, 1401);
  }

  lemma ScanMatch(data: seq<byte>, sums: seq<SumBuf>, b: nat, strongLen: nat, strong: Strong, offset: nat, last: nat,
                  k: nat)
    requires b > 0 && last <= offset && offset + b <= |data| && strongLen <= 16
    requires FirstHit(data[offset..offset + b], sums, 0, strongLen, strong) == Some(k)
    ensures Scan(data, sums, b, strongLen, strong, offset, last)
            == Pending(last, offset) + [Match(k, offset)]
              + Scan(data, sums, b, strongLen, strong, offset + b, offset + b)
  {
    hide FirstHit, Pending;
  }

  lemma NewWindows(sums: seq<SumBuf>, s2length: i32, strong: Strong)
    requires 0 <= s2length <= 16 && Summarises(sums, OLD, SumHead(2, 700, s2length, 0), strong)
    ensures |NEW| == 1401
    ensures FirstHit(NEW[0..700], sums, 0, s2length, strong) == Some(0)
    ensures FirstHit(NEW[700..1400], sums, 0, s2length, strong) == None
    ensures FirstHit(NEW[701..1401], sums, 0, s2length, strong) == Some(1)
  {
    hide Hit, WeakSum, Filled, Plain, FirstHit, Block;
    var head := SumHead(2, 700, s2length, 0);
    Windows(s2length);
    PlainFilled(700, 0);
    PlainFilled(700, 1);
    PlainFilled(699, 1);
    PlainCons(5, Filled(699, 1));
    assert sums[0] == SumBufOf(OLD, head, strong, 0) && sums[1] == SumBufOf(OLD, head, strong, 1);
    FirstOfTwo(NEW[0..700], sums, s2length, strong);
    FirstOfTwo(NEW[700..1400], sums, s2length, strong);
    FirstOfTwo(NEW[701..1401], sums, s2length, strong);
    BlockHits(NEW[0..700], OLD, head, sums, strong, 0);
    BlockHits(NEW[701..1401], OLD, head, sums, strong, 1);
    NoHit(NEW[700..1400], sums[0], Block(OLD, head, 0), s2length, strong);
    NoHit(NEW[700..1400], sums[1], Block(OLD, head, 1), s2length, strong);
    NoHit(NEW[701..1401], sums[0], Block(OLD, head, 0), s2length, strong);
  }

  /** So the sender really writes a compressed stream that is not read as it was meant: one byte put between two blocks
      is enough. */
  lemma InsertedByteIsWrong(sums: seq<SumBuf>, s2length: i32, strong: Strong, deflate: Codec, rest: seq<byte>)
    requires 0 <= s2length <= 16 && Summarises(sums, OLD, MakeSumHead(|OLD|, s2length), strong) && D.NeverEmpty(deflate)
    ensures var ops := Delta(NEW, MakeSumHead(|OLD|, s2length), sums, strong);
            && AllSend(ops, |NEW|) && D.Indexed(ItemsOf(deflate, [], [], ops, NEW, 700))
            && var items := ItemsOf(deflate, [], [], ops, NEW, 700);
            && var got := D.ReadItems(D.Wire(items) + rest, 0);
            got.Got? && D.FlatOf(got.value) != D.FlatOf(items)
  {
    hide D.ReadItems, D.FlatOf, D.Wire, ItemsOf, Delta, D.NeverEmpty, Summarises, MakeSumHead;
    NewDelta(sums, s2length, strong);
    var ops := [Match(0, 0), Literal(700, 1), Match(1, 701)];
    assert |NEW| == 1401;
    assert ops[0].Match? && Spells(ops[1]) && ops[2].Match?;
    assert LiteralBetween(ops);
    StreamOfOps(deflate, ops, NEW, 700, rest);
  }
}
