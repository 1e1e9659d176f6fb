/** The token stream of compressed transfers (delta/deflate_token.rs): runs of block matches and frames of compressed
    literal data. Compression itself is a parameter: what a flush puts out for the literal data pending. */
module DeflateToken {
  import opened Bytes

  const END_FLAG: byte := 0x00
  const TOKEN_LONG: byte := 0x20
  const TOKENRUN_LONG: byte := 0x21
  const DEFLATED_DATA: byte := 0x40
  const TOKEN_REL: byte := 0x80
  const TOKENRUN_REL: byte := 0xC0
  const MAX_DATA_COUNT := 16383

  /** What the stream carries: the compressed bytes of a stretch of literal data, or a block match. */
  datatype Item = Data(payload: seq<byte>) | Token(idx: int)

  /** The block matches from a to b. */
  function Tokens(a: int, b: int): (r: seq<Item>)
    requires a <= b + 1
    ensures |r| == b - a + 1
  {
    seq(b - a + 1, i requires 0 <= i => Token(a + i))
  }

  // ---- the run encoder ----

  datatype Run = Run(last: int, start: int, end: int, open: bool)

  const FRESH := Run(-1, 0, 0, false)

  /** The longest index with which start + 65536 stays inside 32 bits. */
  const MAX_INDEX := 0x7FFE_FFFF

  predicate Sane(r: Run) {
    && 0 <= r.end <= MAX_INDEX
    && (r.last == -1 ==> !r.open)
    && (r.last != -1 ==> 0 <= r.start <= r.last <= MAX_INDEX && r.last < r.start + 65536)
  }

  predicate Indexed(items: seq<Item>) {
    forall i :: 0 <= i < |items| ==>
      match items[i] case Data(p) => p != [] case Token(t) => 0 <= t <= MAX_INDEX
  }

  function Started(r: Run, t: int): Run { Run(t, t, r.end, true) }
  function Closed(r: Run): Run { r.(end := r.last, open := false) }
  predicate Continues(r: Run, t: int) { t == r.last + 1 && t < r.start + 65536 }

  function RunBytes(r: Run): seq<byte>
    requires Sane(r) && r.last != -1
  {
    var rel, n := r.start - r.end, r.last - r.start;
    (if 0 <= rel <= 63 then [(if n == 0 then TOKEN_REL else TOKENRUN_REL) + rel]
     else [if n == 0 then TOKEN_LONG else TOKENRUN_LONG] + IntBytes(r.start))
    + (if n == 0 then [] else ShortintBytes(n))
  }

  /** Compressed bytes in frames of at most MAX_DATA_COUNT. */
  function Frames(p: seq<byte>): seq<byte> {
    if p == [] then [] else FrameHead(FrameLen(|p|)) + p[..FrameLen(|p|)] + Frames(p[FrameLen(|p|)..])
  }

  /** How much of what is left the next frame takes. */
  function FrameLen(left: nat): (n: nat)
    ensures n <= left && n <= MAX_DATA_COUNT && (left > 0 ==> n > 0)
  {
    if left < MAX_DATA_COUNT then left else MAX_DATA_COUNT
  }

  function FrameHead(n: nat): seq<byte>
    requires n <= MAX_DATA_COUNT
  {
    [DEFLATED_DATA + n / 256, n % 256]
  }

  function Step(r: Run, item: Item): (s: Run)
    requires Sane(r) && Indexed([item])
    ensures Sane(s)
  {
    assert Indexed([item]) && [item][0] == item;
    match item
    case Data(_) => if r.open then Closed(r) else r
    case Token(t) =>
      if r.last == -1 then Started(r, t)
      else if Continues(r, t) then r.(last := t)
      else Started(Closed(r), t)
  }

  function StepBytes(r: Run, item: Item): seq<byte>
    requires Sane(r)
  {
    match item
    case Data(p) => (if r.open then RunBytes(r) else []) + Frames(p)
    case Token(t) => if r.last == -1 || Continues(r, t) then [] else RunBytes(r)
  }

  /** Everything written from a state of the run encoder on, the end flag included. */
  function WireFrom(r: Run, items: seq<Item>): seq<byte>
    requires Sane(r) && Indexed(items)
    decreases |items|
  {
    if items == [] then (if r.open then RunBytes(r) else []) + [END_FLAG]
    else
      assert Indexed([items[0]]) by { assert [items[0]][0] == items[0]; }
      StepBytes(r, items[0]) + WireFrom(Step(r, items[0]), items[1..])
  }

  function Wire(items: seq<Item>): seq<byte>
    requires Indexed(items)
  {
    WireFrom(FRESH, items)
  }

  // ---- the reader ----

  function ReadStart(s: seq<byte>): Read<int> {
    var (t, rest) :- ReadInt(s);
    if t < 0 then Failed else Got(t, rest)
  }

  /** The first token of a run: relative in the flag, or absolute behind it. */
  function StartOf(flag: byte, s: seq<byte>, rx: int): (r: Read<int>)
    ensures r.Got? ==> |r.rest| <= |s|
  {
    var f: int := flag;
    if flag >= 0x80 then Got(rx + f % 64, s) else ReadStart(s)
  }

  predicate RunFlag(flag: byte) {
    var f: int := flag;
    (if flag >= 0x80 then f / 64 else f) % 2 == 1
  }

  /** The rest of a run, by its count. */
  function ReadCount(start: int, s: seq<byte>): (r: Read<Group>)
    ensures r.Got? ==> |r.rest| <= |s|
  {
    var (n, s1) :- ReadShortint(s);
    if n == 0 then Failed else Got(Group(Tokens(start, start + n), start + n), s1)
  }

  /** What one flag brings: its items and the last token then, or the end. */
  datatype Group = Group(items: seq<Item>, rx: int) | Stop

  function ReadGroup(s: seq<byte>, rx: int): (r: Read<Group>)
    ensures r.Got? ==> |r.rest| < |s|
  {
    var (flag, s1) :- ReadByte(s);
    if flag == END_FLAG then Got(Stop, s1)
    else if 0x40 <= flag < 0x80 then
      var (lo, s2) :- ReadByte(s1);
      var high: int := flag;
      var (frame, s3) :- ReadExact(s2, (high - 0x40) * 256 + lo);
      Got(Group([Data(frame)], rx), s3)
    else
      var (start, s2) :- StartOf(flag, s1, rx);
      if RunFlag(flag) then ReadCount(start, s2) else Got(Group([Token(start)], start), s2)
  }

  function Prefixed(items: seq<Item>, r: Read<seq<Item>>): Read<seq<Item>> {
    if r.Failed? then Failed else Got(items + r.value, r.rest)
  }

  /** All items up to the end flag; `rx` is the last token read. */
  function ReadItems(s: seq<byte>, rx: int): Read<seq<Item>>
    decreases |s|
  {
    var (g, s1) :- ReadGroup(s, rx);
    if g.Stop? then Got([], s1) else Prefixed(g.items, ReadItems(s1, g.rx))
  }

  // ---- comparing streams: frame boundaries do not matter ----

  datatype Flat = Byte(b: byte) | Block(idx: int)

  function FlatOf(items: seq<Item>): seq<Flat> {
    if items == [] then [] else FlatItem(items[0]) + FlatOf(items[1..])
  }

  function FlatItem(item: Item): seq<Flat> {
    match item
    case Data(p) => seq(|p|, i requires 0 <= i < |p| => Byte(p[i]))
    case Token(t) => [Block(t)]
  }

  lemma {:induction false} FlatAppend(a: seq<Item>, b: seq<Item>)
    ensures FlatOf(a + b) == FlatOf(a) + FlatOf(b)
  {
    hide FlatItem;
    if a == [] {
      assert a + b == b;
    } else {
      assert (a + b)[1..] == a[1..] + b;
      FlatAppend(a[1..], b);
    }
  }

  // ---- what the stream of a writer says ----

  /** The items a reader gets from what is written from state r on. */
  function Emitted(r: Run, items: seq<Item>): seq<Item>
    requires Sane(r) && Indexed(items)
    decreases |items|
  {
    if items == [] then (if r.open then Tokens(r.start, r.last) else [])
    else
      assert Indexed([items[0]]) by { assert [items[0]][0] == items[0]; }
      EmittedStep(r, items[0]) + Emitted(Step(r, items[0]), items[1..])
  }

  function EmittedStep(r: Run, item: Item): seq<Item>
    requires Sane(r)
  {
    match item
    case Data(p) => (if r.open then Tokens(r.start, r.last) else []) + [item]
    case Token(t) => if r.last == -1 || Continues(r, t) then [] else Tokens(r.start, r.last)
  }

  lemma RelFlags(rel: nat)
    requires rel <= 63
    ensures TOKEN_REL + rel < 0xC0 <= TOKENRUN_REL + rel < 0x100
    ensures (TOKEN_REL + rel) % 64 == rel && (TOKEN_REL + rel) / 64 % 2 == 0
    ensures (TOKENRUN_REL + rel) % 64 == rel && (TOKENRUN_REL + rel) / 64 % 2 == 1
  {
  }

  /** One flag's items come before those of the rest. */
  lemma GroupFirst(s: seq<byte>, rx: int, items: seq<Item>, last: int, rest: seq<byte>)
    requires ReadGroup(s, rx) == Got(Group(items, last), rest)
    ensures ReadItems(s, rx) == Prefixed(items, ReadItems(rest, last))
  {
    hide ReadGroup, Prefixed;
  }

  /** A run relative to the last token read. */
  lemma ReadRel(rel: nat, rx: int, rest: seq<byte>)
    requires rel <= 63
    ensures ReadItems([TOKEN_REL + rel] + rest, rx) == Prefixed([Token(rx + rel)], ReadItems(rest, rx + rel))
  {
    hide Tokens, ReadShortint, ReadStart, Prefixed, ReadItems;
    RelFlags(rel);
    var s := [TOKEN_REL + rel] + rest;
    assert s[1..] == rest;
    GroupFirst(s, rx, [Token(rx + rel)], rx + rel, rest);
  }

  lemma ReadRelRun(rel: nat, n: nat, rx: int, rest: seq<byte>)
    requires rel <= 63 && 0 < n < 0x1_0000
    ensures ReadItems([TOKENRUN_REL + rel] + (ShortintBytes(n) + rest), rx)
            == Prefixed(Tokens(rx + rel, rx + rel + n), ReadItems(rest, rx + rel + n))
  {
    hide Tokens, ShortintBytes, ReadShortint, ReadStart, Prefixed, ReadItems;
    RelFlags(rel);
    var s := [TOKENRUN_REL + rel] + (ShortintBytes(n) + rest);
    assert s[1..] == ShortintBytes(n) + rest;
    ShortintRoundTrip(n, rest);
    GroupFirst(s, rx, Tokens(rx + rel, rx + rel + n), rx + rel + n, rest);
  }

  /** A run with its absolute start. */
  lemma ReadLong(start: i32, rx: int, rest: seq<byte>)
    requires start >= 0
    ensures ReadItems([TOKEN_LONG] + (IntBytes(start) + rest), rx) == Prefixed([Token(start)], ReadItems(rest, start))
  {
    hide Tokens, ReadShortint, IntBytes, ReadInt, Prefixed, ReadItems;
    var s := [TOKEN_LONG] + (IntBytes(start) + rest);
    assert s[1..] == IntBytes(start) + rest;
    IntRoundTrip(start, rest);
    GroupFirst(s, rx, [Token(start)], start, rest);
  }

  lemma ReadLongRun(start: i32, n: nat, rx: int, rest: seq<byte>)
    requires start >= 0 && 0 < n < 0x1_0000
    ensures ReadItems([TOKENRUN_LONG] + (IntBytes(start) + (ShortintBytes(n) + rest)), rx)
            == Prefixed(Tokens(start, start + n), ReadItems(rest, start + n))
  {
    hide Tokens, ShortintBytes, ReadShortint, IntBytes, ReadInt, Prefixed, ReadItems;
    var s := [TOKENRUN_LONG] + (IntBytes(start) + (ShortintBytes(n) + rest));
    assert s[1..] == IntBytes(start) + (ShortintBytes(n) + rest);
    IntRoundTrip(start, ShortintBytes(n) + rest);
    ShortintRoundTrip(n, rest);
    GroupFirst(s, rx, Tokens(start, start + n), start + n, rest);
  }

  /** A run is read back whole, and leaves the reader at its last token. */
  lemma ReadRun(r: Run, rest: seq<byte>)
    requires Sane(r) && r.last != -1
    ensures ReadItems(RunBytes(r) + rest, r.end) == Prefixed(Tokens(r.start, r.last), ReadItems(rest, r.last))
  {
    hide ReadItems, IntBytes, ShortintBytes;
    var rel, n := r.start - r.end, r.last - r.start;
    var count := if n == 0 then [] else ShortintBytes(n);
    assert n == 0 ==> Tokens(r.start, r.last) == [Token(r.start)];
    if 0 <= rel <= 63 {
      assert RunBytes(r) + rest == [(if n == 0 then TOKEN_REL else TOKENRUN_REL) + rel] + (count + rest);
      if n == 0 {
        assert count + rest == rest;
        ReadRel(rel, r.end, rest);
      } else {
        ReadRelRun(rel, n, r.end, rest);
      }
    } else {
      if n == 0 {
        ReadLong(r.start, r.end, rest);
        assert RunBytes(r) + rest == [TOKEN_LONG] + (IntBytes(r.start) + rest);
      } else {
        ReadLongRun(r.start, n, r.end, rest);
        assert RunBytes(r) + rest == [TOKENRUN_LONG] + (IntBytes(r.start) + (ShortintBytes(n) + rest));
      }
    }
  }

  lemma ReadFrame(n: nat, frame: seq<byte>, rx: int, rest: seq<byte>)
    requires n == |frame| <= MAX_DATA_COUNT
    ensures ReadItems(FrameHead(n) + (frame + rest), rx) == Prefixed([Data(frame)], ReadItems(rest, rx))
  {
    hide Prefixed, ReadItems;
    var s := [DEFLATED_DATA + n / 256, n % 256] + (frame + rest);
    assert s[1..][1..] == frame + rest;
    assert (DEFLATED_DATA + n / 256 - 0x40) * 256 + n % 256 == n;
    ReadExactPrefix(frame, rest);
    GroupFirst(s, rx, [Data(frame)], rx, rest);
  }

  /** r reads what `after` reads, with the bytes p in front. */
  ghost predicate PutBefore(p: seq<byte>, r: Read<seq<Item>>, after: Read<seq<Item>>) {
    if after.Failed? then r.Failed?
    else r.Got? && r.rest == after.rest && FlatOf(r.value) == FlatItem(Data(p)) + FlatOf(after.value)
  }

  lemma PutTwice(p: seq<byte>, n: nat, later: Read<seq<Item>>, after: Read<seq<Item>>)
    requires n <= |p| && PutBefore(p[n..], later, after)
    ensures PutBefore(p, Prefixed([Data(p[..n])], later), after)
  {
    hide FlatOf;
    assert FlatItem(Data(p)) == FlatItem(Data(p[..n])) + FlatItem(Data(p[n..]));
    if later.Got? {
      FlatAppend([Data(p[..n])], later.value);
      FlatOne(Data(p[..n]));
    }
  }

  /** Frames are read back as the bytes that were cut. */
  lemma {:induction false} ReadFrames(p: seq<byte>, rx: int, rest: seq<byte>)
    ensures PutBefore(p, ReadItems(Frames(p) + rest, rx), ReadItems(rest, rx))
    decreases |p|
  {
    hide ReadItems, Frames, FrameHead, PutBefore, Prefixed;
    if p == [] {
      NoFrames(rest);
      NothingBefore(ReadItems(rest, rx));
    } else {
      var n := FrameLen(|p|);
      var more := Frames(p[n..]) + rest;
      FirstFrame(p, rest);
      ReadFrame(n, p[..n], rx, more);
      ReadFrames(p[n..], rx, rest);
      PutTwice(p, n, ReadItems(more, rx), ReadItems(rest, rx));
    }
  }

  lemma NoFrames(rest: seq<byte>)
    ensures Frames([]) + rest == rest
  {
  }

  lemma NothingBefore(r: Read<seq<Item>>)
    ensures PutBefore([], r, r)
  {
    hide FlatOf;
  }

  lemma FirstFrame(p: seq<byte>, rest: seq<byte>)
    requires p != []
    ensures var n := FrameLen(|p|); Frames(p) + rest == FrameHead(n) + (p[..n] + (Frames(p[n..]) + rest))
  {
    hide Frames, FrameHead, FrameLen;
    var n := FrameLen(|p|);
    FramesUnfold(p);
    Regroup(FrameHead(n), p[..n], Frames(p[n..]), rest);
  }

  lemma FramesUnfold(p: seq<byte>)
    requires p != []
    ensures var n := FrameLen(|p|); Frames(p) == FrameHead(n) + p[..n] + Frames(p[n..])
  {
    hide FrameHead, FrameLen;
  }

  lemma Regroup(a: seq<byte>, b: seq<byte>, c: seq<byte>, d: seq<byte>)
    ensures a + b + c + d == a + (b + (c + d))
  {
  }

  lemma FlatOne(item: Item)
    ensures FlatOf([item]) == FlatItem(item)
  {
    assert [item][1..] == [];
  }

  /** The reader gets exactly the items of Emitted, up to the cutting of data into frames. */
  lemma {:induction false} ReadWire(r: Run, items: seq<Item>, rest: seq<byte>)
    requires Sane(r) && Indexed(items)
    ensures var got := ReadItems(WireFrom(r, items) + rest, r.end);
            got.Got? && got.rest == rest && FlatOf(got.value) == FlatOf(Emitted(r, items))
    decreases |items|
  {
    hide ReadItems, RunBytes, FlatOf, Frames, Tokens;
    if items == [] {
      ReadEnd(r.end, rest);
      ReadEnd(r.last, rest);
      if r.open {
        assert WireFrom(r, items) + rest == RunBytes(r) + ([END_FLAG] + rest);
        ReadRun(r, [END_FLAG] + rest);
        assert Tokens(r.start, r.last) + [] == Tokens(r.start, r.last);
      } else {
        assert WireFrom(r, items) + rest == [END_FLAG] + rest;
      }
    } else {
      var item := items[0];
      assert Indexed([item]) && Indexed(items[1..]) by { IndexedParts(items); }
      var s := Step(r, item);
      var more := WireFrom(s, items[1..]) + rest;
      ReadWire(s, items[1..], rest);
      assert WireFrom(r, items) + rest == StepBytes(r, item) + more;
      ReadStep(r, item, more);
      FlatAppend(EmittedStep(r, item), Emitted(s, items[1..]));
    }
  }

  lemma IndexedParts(items: seq<Item>)
    requires Indexed(items) && items != []
    ensures Indexed([items[0]]) && Indexed(items[1..])
  {
    assert [items[0]][0] == items[0];
  }

  lemma ReadEnd(rx: int, rest: seq<byte>)
    ensures ReadItems([END_FLAG] + rest, rx) == Got([], rest)
  {
    assert ([END_FLAG] + rest)[1..] == rest;
  }

  /** A run and then frames of data. */
  lemma ReadRunThenData(r: Run, p: seq<byte>, more: seq<byte>)
    requires Sane(r) && r.last != -1 && ReadItems(more, r.last).Got?
    ensures var got, later := ReadItems(RunBytes(r) + (Frames(p) + more), r.end), ReadItems(more, r.last);
            && got.Got? && got.rest == later.rest
            && FlatOf(got.value) == FlatOf(Tokens(r.start, r.last) + [Data(p)]) + FlatOf(later.value)
  {
    hide ReadItems, RunBytes, FlatOf, Frames, Tokens, FlatItem;
    ReadFrames(p, r.last, more);
    ReadRun(r, Frames(p) + more);
    FlatOne(Data(p));
    FlatAppend(Tokens(r.start, r.last), [Data(p)]);
    FlatAppend(Tokens(r.start, r.last), ReadItems(Frames(p) + more, r.last).value);
  }

  lemma ReadStep(r: Run, item: Item, more: seq<byte>)
    requires Sane(r) && Indexed([item])
    requires ReadItems(more, Step(r, item).end).Got?
    ensures var got, later := ReadItems(StepBytes(r, item) + more, r.end), ReadItems(more, Step(r, item).end);
            got.Got? && got.rest == later.rest
              && FlatOf(got.value) == FlatOf(EmittedStep(r, item)) + FlatOf(later.value)
  {
    hide ReadItems, RunBytes, FlatOf, Frames, Tokens, FlatItem;
    FlatNone();
    match item
    case Data(p) =>
      if r.open {
        assert StepBytes(r, item) + more == RunBytes(r) + (Frames(p) + more);
        ReadRunThenData(r, p, more);
      } else {
        assert StepBytes(r, item) + more == Frames(p) + more && EmittedStep(r, item) == [item];
        FlatOne(item);
        ReadFrames(p, r.end, more);
      }
    case Token(t) =>
      if r.last == -1 || Continues(r, t) {
        assert StepBytes(r, item) + more == more;
      } else {
        ReadRun(r, more);
        FlatAppend(Tokens(r.start, r.last), ReadItems(more, r.last).value);
      }
  }

  lemma FlatNone()
    ensures FlatOf([]) == []
  {
  }

  // ---- when the stream says what was sent ----

  /** Tokens, then data only. */
  predicate TokensThenData(items: seq<Item>) {
    items == [] || (if items[0].Token? then TokensThenData(items[1..]) else NoTokens(items))
  }

  predicate NoTokens(items: seq<Item>) { forall i :: 0 <= i < |items| ==> items[i].Data? }

  /** No data between two tokens. */
  predicate Tame(items: seq<Item>) {
    items == [] || (if items[0].Data? then Tame(items[1..]) else TokensThenData(items))
  }

  /** While a run is open and until the next data, every token is sent. */
  lemma {:induction false} OpenIsExact(r: Run, items: seq<Item>)
    requires Sane(r) && Indexed(items) && r.open && TokensThenData(items)
    ensures FlatOf(Emitted(r, items)) == FlatOf(Tokens(r.start, r.last)) + FlatOf(items)
    decreases |items|
  {
    hide FlatOf, Tokens;
    FlatNone();
    if items != [] {
      var item := items[0];
      IndexedParts(items);
      var s := Step(r, item);
      assert items == [item] + items[1..];
      FlatAppend([item], items[1..]);
      FlatAppend(EmittedStep(r, item), Emitted(s, items[1..]));
      if item.Data? {
        FlatAppend(Tokens(r.start, r.last), [item]);
        assert NoTokens(items) && NoTokens(items[1..]);
        ClosedDataIsExact(s, items[1..]);
      } else {
        OpenIsExact(s, items[1..]);
        if Continues(r, item.idx) {
          assert Tokens(r.start, item.idx) == Tokens(r.start, r.last) + [item] by { OneMoreToken(r.start, r.last); }
          FlatAppend(Tokens(r.start, r.last), [item]);
        } else {
          assert Tokens(item.idx, item.idx) == [item] by { OneToken(item.idx); }
        }
      }
    }
  }

  lemma OneToken(t: int)
    ensures Tokens(t, t) == [Token(t)]
  {
  }

  lemma OneMoreToken(a: int, b: int)
    requires a <= b + 1
    ensures Tokens(a, b + 1) == Tokens(a, b) + [Token(b + 1)]
  {
  }

  lemma {:induction false} ClosedDataIsExact(r: Run, items: seq<Item>)
    requires Sane(r) && Indexed(items) && !r.open && NoTokens(items)
    ensures Emitted(r, items) == items
    decreases |items|
  {
    if items != [] {
      IndexedParts(items);
      assert Step(r, items[0]) == r;
      ClosedDataIsExact(r, items[1..]);
      assert items == [items[0]] + items[1..];
    }
  }

  lemma {:induction false} TameIsExact(items: seq<Item>)
    requires Indexed(items) && Tame(items)
    ensures FlatOf(Emitted(FRESH, items)) == FlatOf(items)
    decreases |items|
  {
    hide FlatOf, Tokens;
    FlatNone();
    if items != [] {
      var item := items[0];
      IndexedParts(items);
      assert items == [item] + items[1..];
      FlatAppend([item], items[1..]);
      FlatAppend(EmittedStep(FRESH, item), Emitted(Step(FRESH, item), items[1..]));
      if item.Data? {
        assert EmittedStep(FRESH, item) == [item] && Step(FRESH, item) == FRESH;
        TameIsExact(items[1..]);
      } else {
        OpenIsExact(Step(FRESH, item), items[1..]);
        OneToken(item.idx);
      }
    }
  }

  // ---- and when not: after a run closed by data, its tokens are lost or sent twice ----

  /** How many blocks come before the next byte. */
  function Lead(s: seq<Flat>): nat { if s != [] && s[0].Block? then 1 + Lead(s[1..]) else 0 }

  lemma {:induction false} LeadTokens(a: int, b: int, s: seq<Flat>)
    requires a <= b + 1
    ensures Lead(FlatOf(Tokens(a, b)) + s) == b - a + 1 + Lead(s)
    decreases b - a + 1
  {
    hide FlatOf;
    if b == a - 1 {
      FlatNone();
      assert Tokens(a, b) == [];
      assert [] + s == s;
    } else {
      assert Tokens(a, b) == [Token(a)] + Tokens(a + 1, b);
      FlatAppend([Token(a)], Tokens(a + 1, b));
      FlatOne(Token(a));
      var all := FlatOf(Tokens(a, b)) + s;
      assert all == [Block(a)] + (FlatOf(Tokens(a + 1, b)) + s);
      assert all[1..] == FlatOf(Tokens(a + 1, b)) + s;
      LeadTokens(a + 1, b, s);
    }
  }

  lemma LeadData(p: seq<byte>, s: seq<Flat>)
    requires p != []
    ensures Lead(FlatItem(Data(p)) + s) == 0
  {
    assert (FlatItem(Data(p)) + s)[0] == Byte(p[0]);
  }

  /** An open run and what follows it without data are sent one block for one. */
  lemma {:induction false} LeadOpen(r: Run, items: seq<Item>)
    requires Sane(r) && Indexed(items) && r.open
    ensures Lead(FlatOf(Emitted(r, items))) == r.last - r.start + 1 + Lead(FlatOf(items))
    decreases |items|
  {
    hide FlatOf, Tokens, Lead, FlatItem;
    LeadNone();
    LeadTokens(r.start, r.last, []);
    if items == [] {
      assert FlatOf(Tokens(r.start, r.last)) + [] == FlatOf(Tokens(r.start, r.last));
    } else {
      var item := items[0];
      IndexedParts(items);
      var s := Step(r, item);
      var later := FlatOf(Emitted(s, items[1..]));
      LeadItem(items);
      FlatAppend(EmittedStep(r, item), Emitted(s, items[1..]));
      match item
      case Data(p) =>
        FlatAppend(Tokens(r.start, r.last), [item]);
        FlatOne(item);
        var all := FlatOf(Tokens(r.start, r.last)) + (FlatItem(item) + later);
        assert FlatOf(Emitted(r, items)) == all;
        LeadTokens(r.start, r.last, FlatItem(item) + later);
        LeadData(p, later);
      case Token(t) =>
        LeadOpen(s, items[1..]);
        LeadTokens(r.start, r.last, later);
        FlatNone();
        assert [] + later == later;
    }
  }

  lemma LeadNone()
    ensures Lead([]) == 0 && FlatOf([]) == []
  {
  }

  lemma LeadItem(items: seq<Item>)
    requires items != [] && Indexed(items)
    ensures Lead(FlatOf(items)) == match items[0] case Data(_) => 0 case Token(_) => 1 + Lead(FlatOf(items[1..]))
  {
    hide FlatOf;
    var item := items[0];
    assert items == [item] + items[1..];
    FlatAppend([item], items[1..]);
    FlatOne(item);
    if item.Data? {
      LeadData(item.payload, FlatOf(items[1..]));
    } else {
      assert ([Block(item.idx)] + FlatOf(items[1..]))[1..] == FlatOf(items[1..]);
    }
  }

  /** With the run closed, the tokens before the next data are all lost, or come with the closed run once more. */
  lemma {:induction false} LeadStale(r: Run, items: seq<Item>)
    requires Sane(r) && Indexed(items) && !r.open && r.last != -1
    ensures Lead(FlatOf(Emitted(r, items))) == 0
         || Lead(FlatOf(Emitted(r, items))) == r.last - r.start + 1 + Lead(FlatOf(items))
    decreases |items|
  {
    hide FlatOf, Tokens, Lead, FlatItem;
    LeadNone();
    if items != [] {
      var item := items[0];
      IndexedParts(items);
      var s := Step(r, item);
      var later := FlatOf(Emitted(s, items[1..]));
      LeadItem(items);
      FlatAppend(EmittedStep(r, item), Emitted(s, items[1..]));
      match item
      case Data(p) =>
        FlatOne(item);
        assert EmittedStep(r, item) == [item];
        LeadData(p, later);
      case Token(t) =>
        if Continues(r, t) {
          LeadStale(s, items[1..]);
          assert [] + later == later;
        } else {
          LeadOpen(s, items[1..]);
          LeadTokens(r.start, r.last, later);
        }
    }
  }

  lemma {:induction false} StaleIsWrong(r: Run, items: seq<Item>)
    requires Sane(r) && Indexed(items) && !r.open && r.last != -1 && !NoTokens(items)
    ensures FlatOf(Emitted(r, items)) != FlatOf(items)
    decreases |items|
  {
    hide FlatOf, Lead, FlatItem, Emitted;
    var item := items[0];
    IndexedParts(items);
    if item.Token? {
      LeadItem(items);
      LeadStale(r, items);
    } else {
      assert !NoTokens(items[1..]) by {
        assert forall i :: 1 <= i < |items| ==> items[i] == items[1..][i - 1];
      }
      StaleIsWrong(r, items[1..]);
      assert Emitted(r, items) == [item] + Emitted(r, items[1..]) by { DataStep(r, items); }
      assert items == [item] + items[1..];
      SamePrefix(item, Emitted(r, items[1..]), items[1..]);
    }
  }

  lemma DataStep(r: Run, items: seq<Item>)
    requires Sane(r) && Indexed(items) && items != [] && !r.open && items[0].Data?
    ensures Indexed(items[1..]) && Emitted(r, items) == [items[0]] + Emitted(r, items[1..])
  {
    IndexedParts(items);
  }

  lemma SamePrefix(item: Item, a: seq<Item>, b: seq<Item>)
    requires FlatOf(a) != FlatOf(b)
    ensures FlatOf([item] + a) != FlatOf([item] + b)
  {
    hide FlatOf, FlatItem;
    FlatAppend([item], a);
    FlatAppend([item], b);
    var p := FlatOf([item]);
    assert (p + FlatOf(a))[|p|..] == FlatOf(a);
    assert (p + FlatOf(b))[|p|..] == FlatOf(b);
  }

  lemma Cancel(p: seq<Flat>, a: seq<Flat>, b: seq<Flat>)
    requires p + a == p + b
    ensures a == b
  {
    assert (p + a)[|p|..] == a && (p + b)[|p|..] == b;
  }

  lemma DifferBehind(p: seq<Flat>, a: seq<Flat>, b: seq<Flat>)
    requires a != b
    ensures p + a != p + b
  {
    if p + a == p + b {
      Cancel(p, a, b);
    }
  }

  lemma {:induction false} WildIsWrong(r: Run, items: seq<Item>)
    requires Sane(r) && Indexed(items) && r.open && !TokensThenData(items)
    ensures FlatOf(Emitted(r, items)) != FlatOf(Tokens(r.start, r.last)) + FlatOf(items)
    decreases |items|
  {
    hide FlatOf, Tokens, FlatItem, Emitted, EmittedStep, Step, Continues;
    var item, rest := items[0], items[1..];
    IndexedParts(items);
    assert items == [item] + rest;
    EmittedCons(r, item, rest);
    FlatAppend([item], rest);
    FlatAppend(EmittedStep(r, item), Emitted(Step(r, item), rest));
    if item.Data? {
      WildData(r, item, rest);
    } else {
      OpenStep(r, item);
      WildIsWrong(Step(r, item), rest);
      WildToken(r, item, rest);
    }
  }

  lemma OpenStep(r: Run, item: Item)
    requires Sane(r) && Indexed([item]) && r.open && item.Token?
    ensures Step(r, item).open
  {
  }

  /** Data closes the run, and some token comes later. */
  lemma WildData(r: Run, item: Item, rest: seq<Item>)
    requires Sane(r) && Indexed([item]) && Indexed(rest) && r.open && item.Data? && !TokensThenData([item] + rest)
    ensures FlatOf(EmittedStep(r, item)) + FlatOf(Emitted(Step(r, item), rest))
            != FlatOf(Tokens(r.start, r.last)) + (FlatOf([item]) + FlatOf(rest))
  {
    hide FlatOf, Tokens, FlatItem, Emitted;
    assert !NoTokens(rest) by {
      assert forall i :: 1 <= i < |[item] + rest| ==> ([item] + rest)[i] == rest[i - 1];
    }
    StaleIsWrong(Step(r, item), rest);
    FlatAppend(Tokens(r.start, r.last), [item]);
    var run, own := FlatOf(Tokens(r.start, r.last)), FlatOf([item]);
    DifferBehind(run + own, FlatOf(Emitted(Step(r, item), rest)), FlatOf(rest));
    assert run + (own + FlatOf(rest)) == (run + own) + FlatOf(rest);
  }

  /** A token goes into the run or closes it, and what is wrong later stays wrong. */
  lemma WildToken(r: Run, item: Item, rest: seq<Item>)
    requires Sane(r) && Indexed([item]) && Indexed(rest) && r.open && item.Token?
    requires var s := Step(r, item); FlatOf(Emitted(s, rest)) != FlatOf(Tokens(s.start, s.last)) + FlatOf(rest)
    ensures FlatOf(EmittedStep(r, item)) + FlatOf(Emitted(Step(r, item), rest))
            != FlatOf(Tokens(r.start, r.last)) + (FlatOf([item]) + FlatOf(rest))
  {
    hide FlatOf, Tokens, FlatItem, Emitted;
    var run, own := FlatOf(Tokens(r.start, r.last)), FlatOf([item]);
    FlatNone();
    if Continues(r, item.idx) {
      OneMoreToken(r.start, r.last);
      FlatAppend(Tokens(r.start, r.last), [item]);
      assert run + (own + FlatOf(rest)) == (run + own) + FlatOf(rest);
    } else {
      OneToken(item.idx);
      DifferBehind(run, FlatOf(Emitted(Step(r, item), rest)), own + FlatOf(rest));
    }
  }

  lemma {:induction false} NotTameIsWrong(items: seq<Item>)
    requires Indexed(items) && !Tame(items)
    ensures FlatOf(Emitted(FRESH, items)) != FlatOf(items)
    decreases |items|
  {
    hide FlatOf, Tokens, FlatItem;
    var item := items[0];
    IndexedParts(items);
    var s := Step(FRESH, item);
    var later := Emitted(s, items[1..]);
    assert items == [item] + items[1..];
    FlatAppend([item], items[1..]);
    FlatAppend(EmittedStep(FRESH, item), later);
    if item.Data? {
      assert EmittedStep(FRESH, item) == [item] && s == FRESH;
      NotTameIsWrong(items[1..]);
      if FlatOf(Emitted(FRESH, items)) == FlatOf(items) {
        Cancel(FlatOf([item]), FlatOf(later), FlatOf(items[1..]));
      }
    } else {
      WildIsWrong(s, items[1..]);
      OneToken(item.idx);
      FlatNone();
      assert FlatOf(Emitted(FRESH, items)) == FlatOf(later);
    }
  }

  /** The compressed stream can always be read, and it says what the writer was given exactly when no literal data
      lies between two block matches. */
  lemma StreamIsFaithful(items: seq<Item>, rest: seq<byte>)
    requires Indexed(items)
    ensures var got := ReadItems(Wire(items) + rest, 0);
            && got.Got? && got.rest == rest
            && (FlatOf(got.value) == FlatOf(items) <==> Tame(items))
  {
    hide ReadItems, WireFrom, FlatOf, Emitted;
    ReadWire(FRESH, items, rest);
    if Tame(items) {
      TameIsExact(items);
    } else {
      NotTameIsWrong(items);
    }
  }

  /** Match 0, a literal, match t is read as match 0, the literal, match 0, match t; and if t is 1 the last match is
      lost. */
  lemma InteriorLiteral(p: seq<byte>, t: nat, rest: seq<byte>)
    requires p != [] && t <= MAX_INDEX
    ensures Indexed([Token(0), Data(p), Token(t)])
    ensures var got := ReadItems(Wire([Token(0), Data(p), Token(t)]) + rest, 0);
            got.Got? && FlatOf(got.value) == FlatOf([Token(0), Data(p)] + if t == 1 then [] else [Token(0), Token(t)])
  {
    hide ReadItems, WireFrom, FlatOf, Emitted;
    ReadWire(FRESH, [Token(0), Data(p), Token(t)], rest);
    InteriorEmitted(p, t);
  }

  lemma InteriorEmitted(p: seq<byte>, t: nat)
    requires p != [] && t <= MAX_INDEX
    ensures Emitted(FRESH, [Token(0), Data(p), Token(t)])
            == [Token(0), Data(p)] + if t == 1 then [] else [Token(0), Token(t)]
  {
    hide Emitted, Tokens;
    var items := [Token(0), Data(p), Token(t)];
    var open, closed := Started(FRESH, 0), Closed(Started(FRESH, 0));
    assert items == [Token(0)] + ([Data(p)] + ([Token(t)] + []));
    EmittedCons(FRESH, Token(0), [Data(p)] + ([Token(t)] + []));
    EmittedCons(open, Data(p), [Token(t)] + []);
    EmittedCons(closed, Token(t), []);
    OneToken(0);
    OneToken(t);
    EmittedNone(Step(closed, Token(t)));
    var last := Emitted(closed, [Token(t)] + []);
    assert last == if t == 1 then [] else [Token(0), Token(t)];
    assert Emitted(open, [Data(p)] + ([Token(t)] + [])) == [Token(0), Data(p)] + last;
  }

  lemma EmittedCons(r: Run, item: Item, items: seq<Item>)
    requires Sane(r) && Indexed([item] + items)
    ensures Indexed([item]) && Indexed(items)
    ensures Emitted(r, [item] + items) == EmittedStep(r, item) + Emitted(Step(r, item), items)
  {
    IndexedParts([item] + items);
    assert ([item] + items)[1..] == items;
  }

  lemma EmittedNone(r: Run)
    requires Sane(r)
    ensures Emitted(r, []) == if r.open then Tokens(r.start, r.last) else []
  {
  }

  // ---- the writer ----

  lemma WireStep(r: Run, item: Item, more: seq<Item>)
    requires Sane(r) && Indexed([item]) && Indexed(more)
    ensures Indexed([item] + more)
    ensures WireFrom(r, [item] + more) == StepBytes(r, item) + WireFrom(Step(r, item), more)
  {
    assert [item][0] == item;
    assert ([item] + more)[1..] == more;
  }

  ghost predicate BeginsWith(out: seq<byte>, r: Run, items: seq<Item>, more: seq<Item>)
    requires Sane(r) && Indexed(more)
  {
    Indexed(items + more) && Wire(items + more) == out + WireFrom(r, more)
  }

  /** Whatever is still to come, `out` is how the whole stream begins. */
  ghost predicate Begins(out: seq<byte>, r: Run, items: seq<Item>)
    requires Sane(r)
  {
    Indexed(items) && forall more :: Indexed(more) ==> BeginsWith(out, r, items, more)
  }

  lemma BeginsEmpty()
    ensures Begins([], FRESH, [])
  {
    assert forall more: seq<Item> :: [] + more == more;
    assert forall w: seq<byte> :: [] + w == w;
  }

  lemma BeginsWithStep(out: seq<byte>, r: Run, items: seq<Item>, item: Item, more: seq<Item>)
    requires Sane(r) && Indexed([item]) && Indexed(more) && Indexed([item] + more)
             && BeginsWith(out, r, items, [item] + more)
    ensures BeginsWith(out + StepBytes(r, item), Step(r, item), items + [item], more)
  {
    hide Wire, WireFrom, StepBytes, Step, Indexed;
    WireStep(r, item, more);
    assert (items + [item]) + more == items + ([item] + more);
    assert out + (StepBytes(r, item) + WireFrom(Step(r, item), more))
           == (out + StepBytes(r, item)) + WireFrom(Step(r, item), more);
  }

  lemma BeginsStep(out: seq<byte>, r: Run, items: seq<Item>, item: Item)
    requires Sane(r) && Indexed([item]) && Begins(out, r, items)
    ensures Begins(out + StepBytes(r, item), Step(r, item), items + [item])
  {
    hide BeginsWith, StepBytes, Step, Indexed;
    IndexedTogether(items, [item]);
    forall more | Indexed(more)
      ensures BeginsWith(out + StepBytes(r, item), Step(r, item), items + [item], more)
    {
      IndexedTogether([item], more);
      BeginsWithStep(out, r, items, item, more);
    }
  }

  lemma IndexedTogether(a: seq<Item>, b: seq<Item>)
    requires Indexed(a) && Indexed(b)
    ensures Indexed(a + b)
  {
  }

  lemma BeginsEnd(out: seq<byte>, r: Run, items: seq<Item>, tail: seq<Item>)
    requires Sane(r) && Begins(out, r, items) && Indexed(tail) && (tail == [] || (|tail| == 1 && tail[0].Data?))
    ensures Indexed(items + tail)
    ensures Wire(items + tail) == out + WireFrom(r, tail)
  {
    hide Wire, WireFrom, Indexed, Sane;
    assert BeginsWith(out, r, items, tail);
  }

  ghost predicate NeverEmpty(deflate: (seq<byte>, seq<byte>) -> seq<byte>) {
    forall h, d :: d != [] ==> deflate(h, d) != []
  }

  lemma FramesNone()
    ensures Frames([]) == []
  {
  }

  lemma FramesStep(p: seq<byte>, pos: nat)
    requires pos < |p|
    ensures var n := FrameLen(|p| - pos); Frames(p[pos..]) == FrameHead(n) + p[pos..pos + n] + Frames(p[pos + n..])
  {
    hide Frames, FrameHead, FrameLen;
    var n := FrameLen(|p| - pos);
    FramesUnfold(p[pos..]);
    assert p[pos..][..n] == p[pos..pos + n] && p[pos..][n..] == p[pos + n..];
  }

  class DeflatedTokenWriter {
    /** What a flush puts out for pending literal data, given all that went through the compressor before; never
        nothing. */
    const deflate: (seq<byte>, seq<byte>) -> seq<byte>
    var out: seq<byte>
    var fed: seq<byte>
    var pending: seq<byte>
    var lastToken: int
    var runStart: int
    var lastRunEnd: int
    var runOpen: bool
    ghost var items: seq<Item>

    function State(): Run
      reads this
    {
      Run(lastToken, runStart, lastRunEnd, runOpen)
    }

    ghost predicate Valid()
      reads this
    {
      NeverEmpty(deflate) && Sane(State()) && Begins(out, State(), items)
    }

    constructor (deflate: (seq<byte>, seq<byte>) -> seq<byte>)
      requires NeverEmpty(deflate)
      ensures Valid() && items == [] && pending == [] && fed == [] && this.deflate == deflate
    {
      this.deflate := deflate;
      out, fed, pending, items := [], [], [], [];
      lastToken, runStart, lastRunEnd, runOpen := -1, 0, 0, false;
      new;
      BeginsEmpty();
    }

    method SendLiteral(data: seq<byte>)
      requires Valid()
      modifies `pending
      ensures Valid() && pending == old(pending) + data
    {
      pending := pending + data;
    }

    method CloseRun()
      requires Sane(State()) && lastToken != -1
      modifies `out, `lastRunEnd, `runOpen
      ensures out == old(out) + RunBytes(old(State())) && State() == Closed(old(State()))
    {
      hide IntBytes, ShortintBytes;
      var r := runStart - lastRunEnd;
      var n := lastToken - runStart;
      ghost var before := out;
      if 0 <= r <= 63 {
        var base := if n == 0 then TOKEN_REL else TOKENRUN_REL;
        out := out + [base + r];
      } else {
        out := out + [if n == 0 then TOKEN_LONG else TOKENRUN_LONG];
        out := out + IntBytes(runStart);
      }
      if n != 0 {
        out := out + ShortintBytes(n);
      }
      lastRunEnd := lastToken;
      runOpen := false;
    }

    /** Cut compressed bytes into frames. */
    method WriteFrames(p: seq<byte>)
      modifies `out
      ensures out == old(out) + Frames(p)
    {
      hide Frames;
      assert p[0..] == p && p[|p|..] == [] && Frames([]) == [] by { FramesNone(); }
      var pos := 0;
      while pos < |p|
        invariant pos <= |p| && out + Frames(p[pos..]) == old(out) + Frames(p)
      {
        var n := if |p| - pos < MAX_DATA_COUNT then |p| - pos else MAX_DATA_COUNT;
        FramesStep(p, pos);
        ghost var before := out;
        out := out + [DEFLATED_DATA + n / 256, n % 256];
        out := out + p[pos..pos + n];
        assert out + Frames(p[pos + n..]) == before + Frames(p[pos..]);
        pos := pos + n;
      }
    }

    method FlushPendingLiteral()
      requires Valid()
      modifies this
      ensures Valid() && pending == [] && fed == old(fed) + old(pending)
      ensures items == old(items) + if old(pending) == [] then [] else [Data(deflate(old(fed), old(pending)))]
    {
      hide RunBytes, Frames, Begins;
      if pending == [] {
        return;
      }
      ghost var before, r := out, State();
      if runOpen {
        CloseRun();
      }
      var p := deflate(fed, pending);
      WriteFrames(p);
      fed, pending := fed + pending, [];
      items := items + [Data(p)];
      assert [Data(p)][0] == Data(p);
      BeginsStep(before, r, old(items), Data(p));
      assert out == before + StepBytes(r, Data(p));
    }

    method EmitToken(token: int)
      requires Valid() && 0 <= token <= MAX_INDEX
      modifies `out, `lastToken, `runStart, `lastRunEnd, `runOpen, `items
      ensures Valid() && items == old(items) + [Token(token)]
    {
      hide RunBytes, Begins;
      BeginsStep(out, State(), items, Token(token)) by { assert [Token(token)][0] == Token(token); }
      items := items + [Token(token)];
      assert out + [] == out;
      if lastToken == -1 {
        runStart, lastToken, runOpen := token, token, true;
      } else if token == lastToken + 1 && token < runStart + 65536 {
        lastToken := token;
      } else {
        CloseRun();
        runStart, lastToken, runOpen := token, token, true;
      }
    }

    method SendBlockMatch(idx: int, blockBytes: seq<byte>)
      requires Valid() && 0 <= idx <= MAX_INDEX
      modifies this
      ensures Valid() && pending == [] && fed == old(fed) + old(pending) + blockBytes
      ensures items == old(items) + (if old(pending) == [] then [] else [Data(deflate(old(fed), old(pending)))])
              + [Token(idx)]
    {
      hide Valid;
      FlushPendingLiteral();
      EmitToken(idx);
      FeedDictBytes(blockBytes);
    }

    method FeedDictBytes(blockBytes: seq<byte>)
      requires Valid()
      modifies `fed
      ensures Valid() && fed == old(fed) + blockBytes
    {
      fed := fed + blockBytes;
    }

    /** The end: what has been written is the stream of all items. */
    method Finish() returns (wire: seq<byte>)
      requires Valid()
      modifies this
      ensures items == old(items) + if old(pending) == [] then [] else [Data(deflate(old(fed), old(pending)))]
      ensures Indexed(items) && wire == Wire(items)
    {
      hide RunBytes, Frames, Begins, Wire;
      ghost var tail := if pending == [] then [] else [Data(deflate(fed, pending))];
      BeginsEnd(out, State(), items, tail);
      FinishBytes(out, State(), tail);
      if runOpen {
        CloseRun();
      }
      if pending != [] {
        WriteFrames(deflate(fed, pending));
        fed, pending := fed + pending, [];
      }
      wire := out + [END_FLAG];
      items := items + tail;
    }
  }

  lemma WireEnd(r: Run)
    requires Sane(r)
    ensures WireFrom(r, []) == (if r.open then RunBytes(r) else []) + [END_FLAG]
  {
    hide RunBytes;
  }

  lemma WireOne(r: Run, tail: seq<Item>)
    requires Sane(r) && Indexed(tail) && |tail| == 1
    ensures Indexed([tail[0]])
    ensures WireFrom(r, tail) == StepBytes(r, tail[0]) + WireFrom(Step(r, tail[0]), [])
  {
    hide RunBytes, Frames, StepBytes, Step;
    IndexedParts(tail);
    assert tail[1..] == [];
  }

  lemma FinishBytes(out: seq<byte>, r: Run, tail: seq<Item>)
    requires Sane(r) && Indexed(tail) && (tail == [] || (|tail| == 1 && tail[0].Data?))
    ensures var closed := if r.open then out + RunBytes(r) else out;
            out + WireFrom(r, tail) == (if tail == [] then closed else closed + Frames(tail[0].payload)) + [END_FLAG]
  {
    hide RunBytes, Frames, WireFrom;
    if tail == [] {
      WireEnd(r);
    } else {
      IndexedParts(tail);
      WireOne(r, tail);
      DataEnd(out, r, tail[0]);
    }
  }

  lemma DataEnd(out: seq<byte>, r: Run, item: Item)
    requires Sane(r) && item.Data? && Indexed([item])
    ensures out + (StepBytes(r, item) + WireFrom(Step(r, item), []))
            == (if r.open then out + RunBytes(r) else out) + Frames(item.payload) + [END_FLAG]
  {
    hide RunBytes, Frames, WireFrom;
    WireEnd(Step(r, item));
  }

  // ---- the reader, one item at a time ----

  datatype RxState = Init | Idle | Running
  datatype Next = Item(item: Item) | End | Error

  class DeflatedTokenReader {
    var input: seq<byte>
    var state: RxState
    var rxToken: int
    var rxRun: int

    /** All items still to come. */
    ghost function Remaining(): Read<seq<Item>>
      reads this
    {
      match state
      case Init => ReadItems(input, 0)
      case Idle => ReadItems(input, rxToken)
      case Running =>
        if rxRun <= 0 then Failed
        else Prefixed(Tokens(rxToken + 1, rxToken + rxRun), ReadItems(input, rxToken + rxRun))
    }

    constructor (input: seq<byte>)
      ensures Remaining() == ReadItems(input, 0)
    {
      this.input := input;
      state, rxToken, rxRun := Init, 0, 0;
    }

    /** The next item is delivered and the others are still to come. */
    method ReadToken() returns (r: Next)
      modifies this
      ensures Delivers(old(Remaining()), r, Remaining())
      ensures r.End? && old(Remaining()).Got? ==> input == old(Remaining()).rest
    {
      hide ReadItems, Delivers;
      if state.Init? {
        state, rxToken := Idle, 0;
      }
      if state.Running? {
        r := ReadRunning();
      } else {
        r := ReadFlag();
      }
    }

    method ReadRunning() returns (r: Next)
      requires state.Running?
      modifies `rxToken, `rxRun, `state
      ensures Delivers(old(Remaining()), r, Remaining()) && r.Item?
    {
      hide ReadItems, Delivers, Prefixed, Tokens;
      NothingFailed();
      RunFirst(rxToken, rxRun, ReadItems(input, rxToken + rxRun));
      rxToken, rxRun := rxToken + 1, rxRun - 1;
      if rxRun == 0 {
        state := Idle;
      }
      r := Item(Token(rxToken));
    }

    method ReadFlag() returns (r: Next)
      requires state.Idle?
      modifies this
      ensures Delivers(old(Remaining()), r, Remaining())
      ensures r.End? && old(Remaining()).Got? ==> input == old(Remaining()).rest
    {
      hide Delivers, Prefixed, ReadStart, Tokens;
      NothingFailed();
      var flag := ReadByte(input);
      if flag.Failed? {
        return Error;
      }
      if 0x40 <= flag.value < 0x80 {
        r := ReadFrameOf(flag.value, flag.rest);
      } else if flag.value == END_FLAG {
        input, state := flag.rest, Init;
        EndDelivered(input, Remaining());
        r := End;
      } else {
        r := DecodeToken(flag.value, flag.rest);
      }
    }

    method ReadFrameOf(flag: byte, rest: seq<byte>) returns (r: Next)
      requires state.Idle? && 0x40 <= flag < 0x80 && ReadByte(input) == Got(flag, rest)
      modifies `input
      ensures Delivers(old(Remaining()), r, Remaining()) && !r.End?
    {
      hide Delivers;
      NothingFailed();
      var lo := ReadByte(rest);
      if lo.Failed? {
        return Error;
      }
      var high: int := flag;
      var frame := ReadExact(lo.rest, (high - 0x40) * 256 + lo.value);
      if frame.Failed? {
        return Error;
      }
      input := frame.rest;
      FirstDelivered(Data(frame.value), [], ReadItems(input, rxToken));
      r := Item(Data(frame.value));
    }

    method DecodeToken(flag: byte, rest: seq<byte>) returns (r: Next)
      requires state.Idle? && flag != END_FLAG && !(0x40 <= flag < 0x80) && ReadByte(input) == Got(flag, rest)
      modifies this
      ensures Delivers(old(Remaining()), r, Remaining()) && !r.End?
    {
      hide Delivers, ReadStart, ReadCount, ReadItems, ReadGroup, Prefixed;
      NothingFailed();
      TokenGroups(input, flag, rest, rxToken);
      var f: int := flag;
      if flag >= 0x80 {
        rxToken, input := rxToken + f % 64, rest;
        f := f / 64;
      } else {
        var start := ReadStart(rest);
        if start.Failed? {
          return Error;
        }
        rxToken, input := start.value, start.rest;
      }
      if f % 2 == 1 {
        r := StartRun();
      } else {
        FirstDelivered(Token(rxToken), [], ReadItems(input, rxToken));
        r := Item(Token(rxToken));
      }
    }

    method StartRun() returns (r: Next)
      requires state.Idle?
      modifies this
      ensures !r.End?
      ensures Delivers(AfterGroup(ReadCount(old(rxToken), old(input))), r, Remaining())
    {
      hide Delivers, Tokens, ReadShortint, ReadItems, Prefixed;
      NothingFailed();
      var n := ReadShortint(input);
      if n.Failed? {
        return Error;
      }
      rxRun, input, state := n.value, n.rest, Running;
      if rxRun > 0 {
        TokensFirst(rxToken, rxRun);
        FirstDelivered(Token(rxToken), Tokens(rxToken + 1, rxToken + rxRun), ReadItems(input, rxToken + rxRun));
      }
      r := Item(Token(rxToken));
    }
  }

  /** The items from one flag on, when that flag is not the end. */
  function AfterGroup(g: Read<Group>): Read<seq<Item>> {
    if g.Failed? then Failed
    else if g.value.Stop? then Got([], g.rest)
    else Prefixed(g.value.items, ReadItems(g.rest, g.value.rx))
  }

  lemma TokenGroups(s: seq<byte>, flag: byte, rest: seq<byte>, rx: int)
    requires flag != END_FLAG && !(0x40 <= flag < 0x80) && ReadByte(s) == Got(flag, rest)
    ensures var start := StartOf(flag, rest, rx);
            && (start.Failed? ==> ReadItems(s, rx) == Failed)
            && (start.Got? && RunFlag(flag) ==> ReadItems(s, rx) == AfterGroup(ReadCount(start.value, start.rest)))
            && (start.Got? && !RunFlag(flag) ==>
                  ReadItems(s, rx) == Prefixed([Token(start.value)], ReadItems(start.rest, start.value)))
  {
    hide StartOf, RunFlag, ReadCount, Prefixed;
  }

  /** What reading one item makes of the items to come. */
  ghost predicate Delivers(before: Read<seq<Item>>, r: Next, after: Read<seq<Item>>) {
    && (r.Error? ==> before.Failed?)
    && (before.Got? ==>
      if before.value == [] then r.End?
      else r == Item(before.value[0]) && after == Got(before.value[1..], before.rest))
  }

  lemma NothingFailed()
    ensures forall r: Next, after: Read<seq<Item>> :: Delivers(Failed, r, after)
  {
  }

  lemma EndDelivered(rest: seq<byte>, after: Read<seq<Item>>)
    ensures Delivers(Got([], rest), End, after)
  {
  }

  lemma FirstDelivered(item: Item, tail: seq<Item>, more: Read<seq<Item>>)
    ensures Delivers(Prefixed([item] + tail, more), Item(item), Prefixed(tail, more))
    ensures tail == [] ==> Prefixed(tail, more) == more && [item] + tail == [item]
  {
    if more.Got? {
      assert (([item] + tail) + more.value)[1..] == tail + more.value;
      assert [] + more.value == more.value;
    }
  }

  lemma TokensFirst(a: int, n: nat)
    ensures Tokens(a, a + n) == [Token(a)] + Tokens(a + 1, a + n)
  {
  }

  lemma RunFirst(rx: int, n: int, more: Read<seq<Item>>)
    ensures n > 0 ==>
      Delivers(Prefixed(Tokens(rx + 1, rx + n), more), Item(Token(rx + 1)),
               if n == 1 then more else Prefixed(Tokens(rx + 2, rx + n), more))
  {
    if n > 0 {
      TokensFirst(rx + 1, n - 1);
      FirstDelivered(Token(rx + 1), Tokens(rx + 2, rx + n), more);
      assert n == 1 ==> Tokens(rx + 2, rx + n) == [];
    }
  }
}
