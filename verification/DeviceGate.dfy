/** Device numbers: the receiver reads them whether or not the sender sends them (flist/send.rs, flist/recv.rs). */
module DeviceGate {
  import opened Bytes
  import opened Varint
  import opened FileTypes
  import opened FileOrder
  import opened FileList
  import opened FileListProofs
  import opened FileListLeast

  // ---- one step of the reader ----

  lemma EntriesEnd(c: Config, s: seq<byte>, soFar: seq<FileInfo>)
    requires ReadEntries(c, s, soFar).Got? && ReadFlags(c, s).Got? && ReadFlags(c, s).value == 0
    ensures ReadTrailer(c, ReadFlags(c, s).rest).Got?
    ensures ReadEntries(c, s, soFar) == Got(soFar, ReadTrailer(c, ReadFlags(c, s).rest).rest)
  {
    hide ReadFlags, ReadEntry, ReadTrailer;
  }

  lemma EntriesNext(c: Config, s: seq<byte>, soFar: seq<FileInfo>)
    requires ReadEntries(c, s, soFar).Got?
    ensures ReadFlags(c, s).Got?
    ensures ReadFlags(c, s).value != 0 ==>
      var e := ReadEntry(c, ReadFlags(c, s).value, ReadFlags(c, s).rest, LastOf(soFar), soFar);
      e.Got? && |e.rest| < |s| && ReadEntries(c, s, soFar) == ReadEntries(c, e.rest, soFar + [e.value])
  {
    hide ReadFlags, ReadEntry, ReadTrailer;
  }

  /** Entries already read stay. */
  lemma {:induction false} EntriesExtend(c: Config, s: seq<byte>, soFar: seq<FileInfo>)
    requires ReadEntries(c, s, soFar).Got?
    ensures soFar <= ReadEntries(c, s, soFar).value
    decreases |s|
  {
    hide ReadFlags, ReadEntry, ReadTrailer, ReadEntries;
    EntriesNext(c, s, soFar);
    if ReadFlags(c, s).value == 0 {
      EntriesEnd(c, s, soFar);
    } else {
      var e := ReadEntry(c, ReadFlags(c, s).value, ReadFlags(c, s).rest, LastOf(soFar), soFar);
      EntriesExtend(c, e.rest, soFar + [e.value]);
    }
  }

  // ---- the end of the list ----

  /** The fewest bytes that end a list. */
  function LeastEnd(c: Config): nat { (if c.varintFlags then 2 else 1) + |IdsBytes(c)| }

  lemma ZeroSize()
    ensures |VarintBytes(0)| == 1
  {
    hide VarintBytes;
    VarintRoundTrip(0, []);
    VarintLength(0, 1);
  }

  lemma SkipLeast(s: seq<byte>)
    requires SkipIds(s).Got?
    ensures |SkipIds(s).rest| + 1 <= |s|
    decreases |s|
  {
    hide ReadVarint, VarintBytes;
    VarintLeast(s);
  }

  lemma IdsLeast(c: Config, s: seq<byte>)
    requires ReadIds(c, s).Got?
    ensures |ReadIds(c, s).rest| + |IdsBytes(c)| <= |s|
  {
    hide SkipIds, VarintBytes;
    ZeroSize();
    if !c.incRecurse {
      if c.uid {
        SkipLeast(s);
        if c.gid {
          SkipLeast(SkipIds(s).rest);
        }
      } else if c.gid {
        SkipLeast(s);
      }
    }
  }

  lemma EndLeast(c: Config, s: seq<byte>)
    requires ReadFlags(c, s).Got? && ReadFlags(c, s).value == 0 && ReadTrailer(c, ReadFlags(c, s).rest).Got?
    ensures |ReadTrailer(c, ReadFlags(c, s).rest).rest| + LeastEnd(c) <= |s|
  {
    hide ReadVarint, VarintBytes, ReadIds, IdsBytes, BitAt;
    var f := ReadFlags(c, s);
    if c.varintFlags {
      VarintLeast(s);
      VarintLeast(f.rest);
      IdsLeast(c, ReadVarint(f.rest).rest);
    } else {
      IdsLeast(c, f.rest);
      FlagsConsume(c, s);
    }
  }

  lemma FlagsConsume(c: Config, s: seq<byte>)
    requires ReadFlags(c, s).Got?
    ensures |ReadFlags(c, s).rest| + 1 <= |s|
  {
    hide ReadVarint, VarintBytes, BitAt;
    if c.varintFlags {
      VarintLeast(s);
    } else if |s| >= 2 && ReadVarint(s[1..][1..]).Got? {
      VarintLeast(s[1..][1..]);
    }
  }

  // ---- counting bytes over the list ----

  function Ungated(c: Config, files: seq<FileInfo>): nat {
    if files == [] then 0 else (if Gated(c, files[0]) then 0 else 1) + Ungated(c, files[1..])
  }

  function LooseWords(c: Config, files: seq<FileInfo>): nat {
    if files == [] then 0 else (if Loose(c, files[0]) then 1 else 0) + LooseWords(c, files[1..])
  }

  /** The loose flag words behind the first entry whose device numbers are not sent. */
  function LooseBehind(c: Config, files: seq<FileInfo>): nat {
    if files == [] then 0 else if Gated(c, files[0]) then LooseBehind(c, files[1..]) else LooseWords(c, files[1..])
  }

  /** From the second entry on: a list read back as sent uses no fewer bytes than were written for it, and two more for
      each entry whose device numbers were not. */
  lemma {:induction false} ListLeast(c: Config, files: seq<FileInfo>, got: seq<FileInfo>, s: seq<byte>)
    requires !c.devices && Sound(files) && forall i :: 0 <= i < |files| ==> Sendable(files[i])
    requires 1 <= |got| <= |files| && AllMatch(c, files[..|got|], got)
    requires ReadEntries(c, s, got).Got? && AllMatch(c, files, ReadEntries(c, s, got).value)
    ensures |EntriesBytes(c, files[|got|..], Some(files[|got| - 1]))| + LeastEnd(c) + 2 * Ungated(c, files[|got|..])
            <= |s| - |ReadEntries(c, s, got).rest| + LooseWords(c, files[|got|..])
    decreases |files| - |got|
  {
    hide ReadFlags, ReadEntry, ReadTrailer, ReadEntries, EntryBytes, Matches, Listable, Sendable, Gated, Loose,
         LeastEnd, SameInode;
    var k := |got|;
    EntriesNext(c, s, got);
    EntriesExtend(c, s, got);
    if ReadFlags(c, s).value == 0 {
      EntriesEnd(c, s, got);
      EndLeast(c, s);
      assert k == |files| && files[k..] == [];
    } else {
      var e := ReadEntry(c, ReadFlags(c, s).value, ReadFlags(c, s).rest, LastOf(got), got);
      EntriesExtend(c, e.rest, got + [e.value]);
      var all := ReadEntries(c, s, got).value;
      assert all[k] == e.value;
      assert files[..k + 1] == files[..k] + [files[k]];
      assert Matches(c, files[k - 1], got[k - 1]) by { assert files[..k][k - 1] == files[k - 1]; }
      EntryLeast(c, files[k], files[k - 1], got[k - 1], s, got);
      ListLeast(c, files, got + [e.value], e.rest);
      assert files[k..][1..] == files[k + 1..];
      EntriesFirst(c, files[k..], Some(files[k - 1]));
    }
  }

  lemma EntriesFirst(c: Config, files: seq<FileInfo>, prev: Option<FileInfo>)
    requires files != [] && forall i :: 0 <= i < |files| ==> Sendable(files[i])
    ensures |EntriesBytes(c, files, prev)|
            == |EntryBytes(c, files[0], prev)| + |EntriesBytes(c, files[1..], Some(files[0]))|
  {
    hide EntryBytes, Sendable;
  }

  // ---- an entry whose device numbers are not sent ----

  /** All but the device numbers matches. */
  ghost predicate MatchesButNumbers(c: Config, sent: FileInfo, got: FileInfo) {
    Matches(c, sent, got.(rdevMajor := sent.rdevMajor, rdevMinor := sent.rdevMinor))
  }

  lemma NumbersDecide(c: Config, sent: FileInfo, got: FileInfo)
    requires SendsRdev(c, sent.mode)
    ensures Matches(c, sent, got)
            <==> MatchesButNumbers(c, sent, got) && got.rdevMajor == sent.rdevMajor && got.rdevMinor == sent.rdevMinor
  {
    hide SendsRdev, SumOf, Parent, FileInfo.Type, Target;
  }

  /** The receiver takes the numbers from what follows the entry. */
  lemma UngatedMeta(c: Config, fi: FileInfo, prev: Option<FileInfo>, gotPrev: Option<FileInfo>, b: Bits, x: nat,
                    tail: seq<byte>)
    requires PrevMatches(c, prev, gotPrev) && BitsAre(x, b) && Describes(c, fi, prev, b) && Listable(fi)
             && !Gated(c, fi)
    ensures var r, d := ReadMeta(c, x, MetaBytes(c, b, fi) + tail, fi.Path(), gotPrev),
            ReadRdev(c, fi.mode, tail, gotPrev);
            && (r.Got? <==> d.Got?)
            && (d.Got? ==> r.rest == d.rest && MatchesButNumbers(c, fi, r.value)
                           && r.value.rdevMajor == d.value.0 && r.value.rdevMinor == d.value.1)
  {
    hide BitsAre, BitAt, PrevMatches, TimeBytes, ReadTimes, OwnerBytes, ReadOwner, ReadRdev, TargetBytes, ReadTarget,
         SumBytes, ReadSum, SumOf, SendsRdev, FileInfo.Path, LastSlash, BaseOf, DirOf, FromMode, SameLen;
    MetaAppend(c, b, fi, tail);
    DeviceOnly(c, fi);
    NoBytes(tail);
    OmittedIsKnown(c, fi, prev, gotPrev, b);
    TimesParse(fi, gotPrev, b, x, OwnerBytes(c, b, fi) + tail);
    OwnerParse(c, fi, gotPrev, b, x, tail);
    PathSplits(fi);
  }

  lemma DeviceOnly(c: Config, fi: FileInfo)
    requires SendsRdev(c, fi.mode) && |Target(fi)| < 0x8000_0000
    ensures TargetBytes(fi) == [] && SumBytes(c, fi) == [] && SumOf(c, fi) == None && !fi.Type().Symlink?
    ensures forall s: seq<byte> :: ReadTarget(fi.mode, s) == Got(None, s) && ReadSum(c, fi.mode, s) == Got(None, s)
  {
  }

  lemma UngatedEntry(c: Config, fi: FileInfo, prev: Option<FileInfo>, gotPrev: Option<FileInfo>, soFar: seq<FileInfo>,
                     tail: seq<byte>)
    requires Listable(fi) && Sendable(fi) && !Gated(c, fi) && PrevMatches(c, prev, gotPrev)
    ensures var f := ReadFlags(c, EntryBytes(c, fi, prev) + tail);
            && f.Got? && f.value != 0
            && var e, d := ReadEntry(c, f.value, f.rest, gotPrev, soFar), ReadRdev(c, fi.mode, tail, gotPrev);
            && (e.Got? <==> d.Got?)
            && (d.Got? ==> e.rest == d.rest && MatchesButNumbers(c, fi, e.value)
                           && e.value.rdevMajor == d.value.0 && e.value.rdevMinor == d.value.1)
  {
    hide SentFlags, FlagBytes, NameBytes, MetaBytes, ReadMeta, ReadName, ReadFlags, ReadRdev, VarintBytes,
         FileInfo.Path, SameLen, MetaMatches, Value, BitAt, HighFlags, PrevMatches, Matches, MatchesButNumbers, PathOf,
         SendsRdev;
    var b := SentFlags(c, fi, prev);
    assert EntryBytes(c, fi, prev) + tail == FlagBytes(c, b) + (NameBytes(fi, prev) + (MetaBytes(c, b, fi) + tail));
    SentFlagsFacts(c, fi, prev);
    FlagsParse(c, b, NameBytes(fi, prev) + (MetaBytes(c, b, fi) + tail));
    NameParse(fi, prev, b, Value(b), MetaBytes(c, b, fi) + tail);
    SamePathBefore(c, prev, gotPrev);
    assert BitAt(Value(b), XMIT_HLINKED) == b[XMIT_HLINKED] && BitAt(Value(b), XMIT_HLINK_FIRST) == b[XMIT_HLINK_FIRST];
    UngatedMeta(c, fi, prev, gotPrev, b, Value(b), tail);
  }

  // ---- up to the first such entry the list is read as sent ----

  lemma {:induction false} ReadPrefix(c: Config, files: seq<FileInfo>, k: nat, ioError: i32, rest: seq<byte>)
      returns (got: seq<FileInfo>)
    requires Sound(files) && k <= |files| && forall i :: 0 <= i < k ==> Gated(c, files[i])
    requires forall i :: 0 <= i < |files| ==> Sendable(files[i])
    ensures |got| == k && AllMatch(c, files[..k], got)
    ensures ReadEntries(c, EntriesBytes(c, files, None) + EndBytes(c, ioError) + rest, [])
            == ReadEntries(c, Unread(c, files, k, ioError, rest), got)
  {
    hide Gated, Sound, Sendable, ReadEntries, EntriesBytes, EndBytes, Matches;
    if k == 0 {
      got := [];
      assert files[0..] == files && LastOf(files[..0]) == None;
    } else {
      got := ReadPrefix(c, files, k - 1, ioError, rest);
      var g := NextEntry(c, files, got, ioError, rest);
      got := got + [g];
    }
  }

  /** The entry at k is read with numbers from what follows it. */
  lemma UngatedNext(c: Config, files: seq<FileInfo>, got: seq<FileInfo>, ioError: i32, rest: seq<byte>)
    requires Sound(files) && |got| < |files| && !Gated(c, files[|got|]) && AllMatch(c, files[..|got|], got)
    requires forall i :: 0 <= i < |files| ==> Sendable(files[i])
    ensures var k := |got|;
            var tail := Unread(c, files, k + 1, ioError, rest);
            var d := ReadRdev(c, files[k].mode, tail, LastOf(got));
            var r := ReadEntries(c, Unread(c, files, k, ioError, rest), got);
            && (d.Failed? ==> r.Failed?)
            && (d.Got? ==>
                  && |d.rest| + 2 <= |tail|
                  && exists g :: Numbered(c, files[k], g, d.value) && r == ReadEntries(c, d.rest, got + [g]))
  {
    hide Listable, Gated, Sendable, SameInode, Matches, MatchesButNumbers, EntryBytes, ReadFlags, ReadTrailer,
         ReadEntry, ReadRdev, Unread;
    var k := |got|;
    var fi, prev := files[k], LastOf(files[..k]);
    var tail := Unread(c, files, k + 1, ioError, rest);
    assert PrevMatches(c, prev, LastOf(got)) by {
      if k > 0 {
        assert files[..k][k - 1] == files[k - 1];
      }
    }
    UnreadStep(c, files, k, ioError, rest);
    UngatedEntry(c, fi, prev, LastOf(got), got, tail);
    var s := EntryBytes(c, fi, prev) + tail;
    var e := ReadEntry(c, ReadFlags(c, s).value, ReadFlags(c, s).rest, LastOf(got), got);
    if e.Got? {
      assert Numbered(c, fi, e.value, ReadRdev(c, fi.mode, tail, LastOf(got)).value);
      assert SendsRdev(c, fi.mode) by { UngatedSends(c, fi); }
      RdevLeast(c, fi.mode, tail, LastOf(got));
      EntryConsumes(c, s, LastOf(got), got);
    }
  }

  ghost predicate Numbered(c: Config, sent: FileInfo, got: FileInfo, numbers: (u32, u32)) {
    MatchesButNumbers(c, sent, got) && got.rdevMajor == numbers.0 && got.rdevMinor == numbers.1
  }

  lemma UngatedSends(c: Config, fi: FileInfo)
    requires !Gated(c, fi)
    ensures SendsRdev(c, fi.mode) && !c.devices
  {
  }

  // ---- lists with such entries anywhere ----

  lemma {:induction false} UngatedFrom(c: Config, files: seq<FileInfo>) returns (k: nat)
    ensures k <= |files| && (forall i :: 0 <= i < k ==> Gated(c, files[i]))
    ensures k < |files| ==> !Gated(c, files[k]) && Ungated(c, files) == 1 + Ungated(c, files[k + 1..])
    ensures k == |files| ==> Ungated(c, files) == 0
    ensures LooseBehind(c, files) == if k < |files| then LooseWords(c, files[k + 1..]) else 0
  {
    hide Gated, Loose, LooseWords;
    if files == [] || !Gated(c, files[0]) {
      k := 0;
    } else {
      var j := UngatedFrom(c, files[1..]);
      k := j + 1;
      assert j < |files| - 1 ==> files[1..][j + 1..] == files[k + 1..];
    }
  }

  /** A list that comes back has had two bytes to spare for each entry whose numbers were not sent: in its end, or one
      in each loose flag word behind the first of them. */
  lemma DevicesCost(c: Config, files: seq<FileInfo>, ioError: i32, rest: seq<byte>)
    requires Sound(files) && forall i :: 0 <= i < |files| ==> Sendable(files[i])
    requires ComesBack(c, files, ioError, rest)
    ensures Ungated(c, files) > 0 ==>
              LeastEnd(c) + 2 * Ungated(c, files) <= |EndBytes(c, ioError)| + LooseBehind(c, files)
  {
    hide Gated, Loose, Sound, Sendable, ReadEntries, EntriesBytes, EndBytes, Matches, LeastEnd, ReadRdev, Unread,
         LooseWords, LooseBehind, Ungated, Numbered;
    var k := UngatedFrom(c, files);
    if k < |files| {
      var got := ReadPrefix(c, files, k, ioError, rest);
      UngatedNext(c, files, got, ioError, rest);
      var tail := Unread(c, files, k + 1, ioError, rest);
      var d := ReadRdev(c, files[k].mode, tail, LastOf(got));
      var g :| Numbered(c, files[k], g, d.value)
        && ReadEntries(c, Unread(c, files, k, ioError, rest), got) == ReadEntries(c, d.rest, got + [g]);
      var all := ReadEntries(c, d.rest, got + [g]).value;
      EntriesExtend(c, d.rest, got + [g]);
      assert all[k] == g;
      assert files[..k + 1] == files[..k] + [files[k]];
      UngatedSends(c, files[k]);
      ListLeast(c, files, got + [g], d.rest);
      TailSize(c, files, k + 1, ioError, rest);
    }
  }

  lemma TailSize(c: Config, files: seq<FileInfo>, k: nat, ioError: i32, rest: seq<byte>)
    requires 1 <= k <= |files| && forall i :: 0 <= i < |files| ==> Sendable(files[i])
    ensures |Unread(c, files, k, ioError, rest)|
            == |EntriesBytes(c, files[k..], Some(files[k - 1]))| + |EndBytes(c, ioError)| + |rest|
  {
    hide EntriesBytes, EndBytes, Sendable;
    assert LastOf(files[..k]) == Some(files[k - 1]);
  }

  /** With flag words as varints and an input error below 128 (the program always sends 0), a list comes back as sent
      when device numbers are preserved or there are none to send, and otherwise does not, unless behind a device there
      are two hard-link leaders or more for each device. */
  lemma DeviceGate(c: Config, files: seq<FileInfo>, ioError: i32, rest: seq<byte>)
    requires Sound(files) && forall i :: 0 <= i < |files| ==> Sendable(files[i])
    requires c.varintFlags && 0 <= ioError < 0x80
    ensures (forall i :: 0 <= i < |files| ==> Gated(c, files[i])) ==> ComesBack(c, files, ioError, rest)
    ensures LooseBehind(c, files) < 2 * Ungated(c, files) ==> !ComesBack(c, files, ioError, rest)
    ensures LooseBehind(c, files) < 2 ==>
              (ComesBack(c, files, ioError, rest) <==> forall i :: 0 <= i < |files| ==> Gated(c, files[i]))
  {
    hide Gated, Sound, Sendable, ReadEntries, EntriesBytes, EndBytes, Matches, ComesBack, LeastEnd, LooseBehind,
         LooseWords, Ungated;
    var k := UngatedFrom(c, files);
    if k == |files| {
      assert WellFormed(c, files);
      WellFormedComesBack(c, files, ioError, rest);
    } else if ComesBack(c, files, ioError, rest) {
      DevicesCost(c, files, ioError, rest);
      VarintEnd(c, ioError);
    }
  }

  lemma WellFormedComesBack(c: Config, files: seq<FileInfo>, ioError: i32, rest: seq<byte>)
    requires WellFormed(c, files) && forall i :: 0 <= i < |files| ==> Sendable(files[i])
    ensures ComesBack(c, files, ioError, rest)
  {
    hide WellFormed, Sendable, ReadEntries, EntriesBytes, EndBytes, AllMatch;
    ListParse(c, files, ioError, rest);
  }

  lemma {:induction false} NoLooseWords(c: Config, files: seq<FileInfo>)
    requires c.varintFlags && forall i :: 0 <= i < |files| ==> !(files[i].hlinked && files[i].hlinkFirst)
    ensures LooseWords(c, files) == 0 && LooseBehind(c, files) == 0
  {
    hide Gated;
    if files != [] {
      NoLooseWords(c, files[1..]);
    }
  }

  lemma VarintEnd(c: Config, ioError: i32)
    requires c.varintFlags && 0 <= ioError < 0x80
    ensures |EndBytes(c, ioError)| == LeastEnd(c)
  {
    hide VarintBytes, IdsBytes, AsU32;
    ZeroSize();
    VarintLength(ioError, 1);
    VarintRoundTrip(ioError, []);
    assert AsU32(ioError) == ioError by { SmallUnsigned(ioError); }
  }

  lemma SmallUnsigned(x: i32)
    requires x >= 0
    ensures AsU32(x) == x
  {
  }

  // ---- such an entry in the last place ----

  /** The two bytes of the end marker, read as device numbers. */
  const MARKER_MAJOR: u32 := 4
  const MARKER_MINOR: u32 := 16

  /** With flag bytes at protocol 31 and no input error, the end marker serves for the numbers and its last byte for the
      marker: the list is accepted, its last entry with device numbers 4 and 16. */
  predicate MarkerServes(c: Config, ioError: i32) { !c.varintFlags && c.proto31 && ioError == 0 }

  lemma ByteVarint(b: byte, rest: seq<byte>)
    requires b < 0x80
    ensures ReadVarint([b] + rest) == Got(b, rest)
  {
    hide LeValue;
    var s := [b] + rest;
    assert ReadExact(s, 1) == Got([b], rest) by { ReadExactPrefix([b], rest); }
    assert [b][1..] + [b] == [b];
    assert ReadVar(s, 1, 5) == Got([b], rest);
    FourOfOne(b);
  }

  lemma FourOfOne(b: byte)
    requires b < 0x80
    ensures AsI32(LeValue(Fit([b], 4))) == b
  {
    var f := Fit([b], 4);
    assert f == [b, 0, 0, 0];
    assert f[1..] == [0, 0, 0];
    LeValueZeros(f[1..]);
  }

  lemma ZeroBytes()
    ensures VarintBytes(0) == [0]
  {
    hide VarintBytes;
    ZeroSize();
    VarintRoundTrip(0, []);
    assert VarintBytes(0) + [] == VarintBytes(0);
    var b := VarintBytes(0)[0];
    assert VarintBytes(0) == [b];
    OneByteVarint(b);
  }

  /** The only one-byte varints are those of the numbers below 128. */
  lemma OneByteVarint(b: byte)
    requires ReadVarint([b]).Got?
    ensures ReadVarint([b]).value == b
  {
    if b < 0x80 {
      assert [b] + [] == [b];
      ByteVarint(b, []);
    }
  }

  /** The marker read as two device numbers. */
  lemma MarkerNumbers(c: Config, mode: u32, prev: Option<FileInfo>, tail: seq<byte>)
    requires SendsRdev(c, mode)
    ensures ReadRdev(c, mode, ShortintBytes(EndMarker()) + tail, prev) == Got((MARKER_MAJOR, MARKER_MINOR), tail)
  {
    hide ReadVarint, LeBytes, SendsRdev, EndMarker;
    LowByte(0x1004);
    assert ShortintBytes(EndMarker()) + tail == [4] + ([16] + tail);
    ByteVarint(4, [16] + tail);
    ByteVarint(16, tail);
  }

  /** When all entries are in, a reader that returns just them has consumed an end marker at least. */
  lemma AfterLast(c: Config, s: seq<byte>, got: seq<FileInfo>)
    ensures var r := ReadEntries(c, s, got);
            r.Got? && |r.value| == |got| ==>
              r.value == got && |r.rest| + LeastEnd(c) <= |s| && ReadFlags(c, s).Got? && ReadFlags(c, s).value == 0
  {
    hide ReadFlags, ReadEntry, ReadTrailer, ReadEntries, LeastEnd;
    if ReadEntries(c, s, got).Got? {
      EntriesNext(c, s, got);
      if ReadFlags(c, s).value == 0 {
        EntriesEnd(c, s, got);
        EndLeast(c, s);
      } else {
        var e := ReadEntry(c, ReadFlags(c, s).value, ReadFlags(c, s).rest, LastOf(got), got);
        EntriesExtend(c, e.rest, got + [e.value]);
      }
    }
  }

  /** What the receiver reads for the numbers of a last entry: from the end of the list. */
  lemma NumbersFromEnd(c: Config, mode: u32, prev: Option<FileInfo>, ioError: i32, rest: seq<byte>)
    requires SendsRdev(c, mode)
    ensures var d := ReadRdev(c, mode, EndBytes(c, ioError) + rest, prev);
            && (c.varintFlags ==> d.Got? && d.rest == IdsBytes(c) + rest)
            && (!c.varintFlags && (c.proto31 || ioError != 0) ==>
                  d == Got((MARKER_MAJOR, MARKER_MINOR), VarintBytes(ioError) + (IdsBytes(c) + rest)))
            && (!c.varintFlags && !c.proto31 && ioError == 0 && d.Got? ==> |d.rest| + 1 <= |IdsBytes(c)| + |rest|)
  {
    hide VarintBytes, ReadVarint, IdsBytes, LeBytes, SendsRdev;
    var tail := IdsBytes(c) + rest;
    if c.varintFlags {
      assert EndBytes(c, ioError) + rest == VarintBytes(0) + (VarintBytes(ioError) + tail);
      VarintRoundTrip(0, VarintBytes(ioError) + tail);
      VarintRoundTrip(ioError, tail);
    } else if c.proto31 || ioError != 0 {
      assert EndBytes(c, ioError) + rest == ShortintBytes(EndMarker()) + (VarintBytes(ioError) + tail);
      MarkerNumbers(c, mode, prev, VarintBytes(ioError) + tail);
    } else if ReadRdev(c, mode, EndBytes(c, ioError) + rest, prev).Got? {
      RdevLeast(c, mode, EndBytes(c, ioError) + rest, prev);
    }
  }

  /** With flag bytes, what is left of the end marker is an end exactly when the input error is 0. */
  lemma LeftOfMarker(c: Config, ioError: i32, rest: seq<byte>, got: seq<FileInfo>)
    requires !c.varintFlags
    ensures var r := ReadEntries(c, VarintBytes(ioError) + (IdsBytes(c) + rest), got);
            if ioError == 0 then r == Got(got, rest) else !(r.Got? && |r.value| == |got| && r.rest == rest)
  {
    hide VarintBytes, ReadVarint, IdsBytes, ReadIds, ReadEntries, LeastEnd, BitAt, ReadEntry;
    var tail := IdsBytes(c) + rest;
    var s := VarintBytes(ioError) + tail;
    VarintRoundTrip(ioError, []);
    if ioError == 0 {
      ZeroBytes();
      OneByte(0, tail);
      IdsParse(c, rest);
      EndIsRead(c, s, got);
    } else {
      AfterLast(c, s, got);
      FirstOfVarint(ioError);
      if ReadFlags(c, s).Got? && ReadFlags(c, s).value == 0 {
        MarkerAgain(c, ioError, tail);
        TrailerIsIds(c, s, got);
      }
    }
  }

  lemma EndIsRead(c: Config, s: seq<byte>, got: seq<FileInfo>)
    requires ReadFlags(c, s).Got? && ReadFlags(c, s).value == 0
    ensures var t := ReadTrailer(c, ReadFlags(c, s).rest);
            ReadEntries(c, s, got) == if t.Got? then Got(got, t.rest) else Failed
  {
    hide ReadFlags, ReadTrailer, ReadEntry;
  }

  lemma TrailerIsIds(c: Config, s: seq<byte>, got: seq<FileInfo>)
    requires !c.varintFlags && ReadFlags(c, s).Got? && ReadFlags(c, s).value == 0
    ensures ReadEntries(c, s, got).Got? ==> |ReadEntries(c, s, got).rest| + |IdsBytes(c)| <= |ReadFlags(c, s).rest|
  {
    hide ReadFlags, ReadEntries, ReadIds, IdsBytes;
    EndIsRead(c, s, got);
    if ReadIds(c, ReadFlags(c, s).rest).Got? {
      IdsLeast(c, ReadFlags(c, s).rest);
    }
  }

  /** The first byte of a varint: zero only for zero, and 4 only when it is the whole of it. */
  lemma FirstOfVarint(x: i32)
    ensures VarintBytes(x) != []
    ensures VarintBytes(x)[0] == 0 ==> x == 0
    ensures VarintBytes(x)[0] < 0x80 ==> |VarintBytes(x)| == 1
  {
    hide VarintBytes, ReadVarint;
    VarintRoundTrip(x, []);
    var e := VarintBytes(x);
    assert e + [] == e && e == [e[0]] + e[1..];
    if e[0] < 0x80 {
      ByteVarint(e[0], e[1..]);
    }
  }

  /** A flag word of zero read from a non-zero input error can only be a second end marker, with its own input error. */
  lemma MarkerAgain(c: Config, ioError: i32, tail: seq<byte>)
    requires !c.varintFlags && ioError != 0
    requires ReadFlags(c, VarintBytes(ioError) + tail).Got? && ReadFlags(c, VarintBytes(ioError) + tail).value == 0
    ensures |VarintBytes(ioError)| == 1 && |ReadFlags(c, VarintBytes(ioError) + tail).rest| + 2 <= |tail|
  {
    hide VarintBytes, ReadVarint, BitAt;
    var s := VarintBytes(ioError) + tail;
    FirstOfVarint(ioError);
    assert s[0] == VarintBytes(ioError)[0];
    LowOfMarker(s[0], if |s| > 1 then s[1] else 0);
    VarintLeast(s[1..][1..]);
  }

  lemma LowOfMarker(low: byte, high: byte)
    ensures low + 0x100 * high == 0x1004 ==> low == 4
  {
  }

  /** A list with such an entry last, behind any well-formed list, comes back as sent exactly when the end marker serves
      for its numbers, and they happen to be 4 and 16. */
  lemma LastUngated(c: Config, files: seq<FileInfo>, ioError: i32, rest: seq<byte>)
    requires Sound(files) && (forall i :: 0 <= i < |files| ==> Sendable(files[i]))
    requires files != [] && forall i :: 0 <= i < |files| - 1 ==> Gated(c, files[i])
    ensures var last := files[|files| - 1];
            ComesBack(c, files, ioError, rest)
            <==> (Gated(c, last)
                  || (MarkerServes(c, ioError) && last.rdevMajor == MARKER_MAJOR && last.rdevMinor == MARKER_MINOR))
    ensures !Gated(c, files[|files| - 1]) && MarkerServes(c, ioError) ==>
            var r := ReadEntries(c, EntriesBytes(c, files, None) + EndBytes(c, ioError) + rest, []);
            && r.Got? && r.rest == rest && |r.value| == |files|
            && AllMatch(c, files[..|files| - 1], r.value[..|files| - 1])
            && Numbered(c, files[|files| - 1], r.value[|files| - 1], (MARKER_MAJOR, MARKER_MINOR))
  {
    hide Gated, Sound, Sendable, ReadEntries, EntriesBytes, EndBytes, Matches, LeastEnd, ReadRdev, Unread, Numbered,
         VarintBytes, IdsBytes, ComesBack;
    var n := |files| - 1;
    var last := files[n];
    if Gated(c, last) {
      assert WellFormed(c, files);
      WellFormedComesBack(c, files, ioError, rest);
    } else {
      var got := ReadPrefix(c, files, n, ioError, rest);
      UngatedNext(c, files, got, ioError, rest);
      UnreadAll(c, files, ioError, rest);
      UngatedSends(c, last);
      NumbersFromEnd(c, last.mode, LastOf(got), ioError, rest);
      var d := ReadRdev(c, last.mode, EndBytes(c, ioError) + rest, LastOf(got));
      if d.Failed? {
        FailedStays(c, files, ioError, rest);
      } else {
        var g :| Numbered(c, last, g, d.value)
          && ReadEntries(c, Unread(c, files, n, ioError, rest), got) == ReadEntries(c, d.rest, got + [g]);
        LastDecides(c, files, got, g, d.value, d.rest, ioError, rest);
      }
    }
  }

  lemma UnreadAll(c: Config, files: seq<FileInfo>, ioError: i32, rest: seq<byte>)
    requires forall i :: 0 <= i < |files| ==> Sendable(files[i])
    ensures Unread(c, files, |files|, ioError, rest) == EndBytes(c, ioError) + rest
  {
    hide EndBytes, Sendable;
    assert files[|files|..] == [];
  }

  lemma FailedStays(c: Config, files: seq<FileInfo>, ioError: i32, rest: seq<byte>)
    requires forall i :: 0 <= i < |files| ==> Sendable(files[i])
    requires ReadEntries(c, EntriesBytes(c, files, None) + EndBytes(c, ioError) + rest, []).Failed?
    ensures !ComesBack(c, files, ioError, rest)
  {
    hide ReadEntries, EntriesBytes, EndBytes, Sendable;
  }

  lemma LastDecides(c: Config, files: seq<FileInfo>, got: seq<FileInfo>, g: FileInfo, numbers: (u32, u32),
                    left: seq<byte>, ioError: i32, rest: seq<byte>)
    requires files != [] && forall i :: 0 <= i < |files| ==> Sendable(files[i])
    requires |got| == |files| - 1 && AllMatch(c, files[..|files| - 1], got)
    requires SendsRdev(c, files[|files| - 1].mode) && Numbered(c, files[|files| - 1], g, numbers)
    requires ReadEntries(c, EntriesBytes(c, files, None) + EndBytes(c, ioError) + rest, [])
             == ReadEntries(c, left, got + [g])
    requires c.varintFlags ==> left == IdsBytes(c) + rest
    requires !c.varintFlags && (c.proto31 || ioError != 0) ==>
               numbers == (MARKER_MAJOR, MARKER_MINOR) && left == VarintBytes(ioError) + (IdsBytes(c) + rest)
    requires !c.varintFlags && !c.proto31 && ioError == 0 ==> |left| + 1 <= |IdsBytes(c)| + |rest|
    ensures var last := files[|files| - 1];
            ComesBack(c, files, ioError, rest)
            <==> MarkerServes(c, ioError) && last.rdevMajor == MARKER_MAJOR && last.rdevMinor == MARKER_MINOR
    ensures MarkerServes(c, ioError) ==> ReadEntries(c, left, got + [g]) == Got(got + [g], rest)
  {
    hide ReadEntries, EntriesBytes, EndBytes, Sendable, Matches, MatchesButNumbers, SendsRdev, VarintBytes, IdsBytes,
         AllMatch, SumOf;
    NumbersDecide(c, files[|files| - 1], g);
    OneMoreMatch(c, files, got, g);
    LeftDecides(c, left, got + [g], ioError, rest);
    MatchSize(c, files, ReadEntries(c, left, got + [g]));
  }

  lemma MatchSize(c: Config, files: seq<FileInfo>, r: Read<seq<FileInfo>>)
    ensures r.Got? && AllMatch(c, files, r.value) ==> |r.value| == |files|
  {
  }

  lemma OneMoreMatch(c: Config, files: seq<FileInfo>, got: seq<FileInfo>, g: FileInfo)
    requires files != [] && AllMatch(c, files[..|files| - 1], got)
    ensures AllMatch(c, files, got + [g]) <==> Matches(c, files[|files| - 1], g)
  {
    hide Matches;
    assert files == files[..|files| - 1] + [files[|files| - 1]];
    assert (got + [g])[|files| - 1] == g;
  }

  /** Whether the list ends, just as its bytes do, after the numbers of its last entry. */
  lemma LeftDecides(c: Config, left: seq<byte>, got: seq<FileInfo>, ioError: i32, rest: seq<byte>)
    requires c.varintFlags ==> left == IdsBytes(c) + rest
    requires !c.varintFlags && (c.proto31 || ioError != 0) ==> left == VarintBytes(ioError) + (IdsBytes(c) + rest)
    requires !c.varintFlags && !c.proto31 && ioError == 0 ==> |left| + 1 <= |IdsBytes(c)| + |rest|
    ensures var r := ReadEntries(c, left, got);
            r.Got? && |r.value| == |got| && r.rest == rest <==> MarkerServes(c, ioError)
    ensures MarkerServes(c, ioError) ==> ReadEntries(c, left, got) == Got(got, rest)
  {
    hide ReadEntries, VarintBytes, IdsBytes, ReadFlags;
    AfterLast(c, left, got);
    if !c.varintFlags && (c.proto31 || ioError != 0) {
      LeftOfMarker(c, ioError, rest, got);
    }
  }
}
