/** What the receiver makes of a sent file list: the same entries, in the same places. */
module FileListProofs {
  import opened Bytes
  import opened Varint
  import opened FileTypes
  import opened FileOrder
  import opened FileList

  // ---- flag words ----

  /** x is the flag word with exactly the bits of b. */
  ghost predicate BitsAre(x: nat, b: Bits) {
    |b| == FLAG_BITS && forall k :: 0 <= k < FLAG_BITS ==> BitAt(x, k) == b[k]
  }

  lemma {:induction false} HighClear(b: Bits, k: nat)
    requires forall i :: k <= i < |b| ==> !b[i]
    ensures Value(b) < Pow2(k)
  {
    if b == [] {
      PowPositive(k);
    } else if k == 0 {
      HighClear(b[1..], 0);
    } else {
      HighClear(b[1..], k - 1);
    }
  }

  lemma {:induction false} PowPositive(k: nat)
    ensures Pow2(k) > 0
  {
    if k > 0 {
      PowPositive(k - 1);
    }
  }

  lemma WordBits(b: Bits)
    requires |b| == FLAG_BITS
    ensures BitsAre(Value(b), b)
    ensures Value(b) < 0x4000
    ensures true in b ==> Value(b) != 0
    ensures !HighFlags(b) ==> Value(b) < 0x100
  {
    hide Value, BitAt, Pow2;
    forall k | 0 <= k < FLAG_BITS
      ensures BitAt(Value(b), k) == b[k]
    {
      ValueBits(b, k);
    }
    ValueBound(b);
    Pow2Fourteen();
    if !HighFlags(b) {
      HighClear(b, 8);
      EightBits();
    }
  }

  lemma EightBits()
    ensures Pow2(8) == 0x100
  {
    assert Pow2(8) == 256 * Pow2(0);
  }

  lemma LowByte(v: nat)
    requires v < 0x1_0000
    ensures LeBytes(v, 2) == [v % 256, v / 256]
    ensures v == v % 256 + 256 * (v / 256)
    ensures BitAt(v % 256, 2) == BitAt(v, 2)
    ensures BitAt(v, 2) ==> v % 256 != 0
  {
    hide BitAt, LeBytes;
    assert 256 * (v / 256) + v % 256 == v;
    TwoBytes(v);
    BitTwo(v);
    BitTwo(v % 256);
    LowBits(v / 256, v % 256);
  }

  lemma TwoBytes(v: nat)
    requires v < 0x1_0000
    ensures LeBytes(v, 2) == [v % 256, v / 256]
  {
    assert LeBytes(v / 256, 1) == [v / 256];
  }

  lemma LowBits(h: nat, l: nat)
    ensures (256 * h + l) / 2 / 2 % 2 == l / 2 / 2 % 2
  {
    HalfOfSum(128 * h, l);
    HalfOfSum(64 * h, l / 2);
    OddSum(32 * h, l / 2 / 2);
  }

  lemma HalfOfSum(a: nat, b: nat)
    ensures (2 * a + b) / 2 == a + b / 2
  {
  }

  lemma OddSum(a: nat, b: nat)
    ensures (2 * a + b) % 2 == b % 2
  {
  }

  lemma BitTwo(x: nat)
    ensures BitAt(x, 2) <==> x / 2 / 2 % 2 == 1
  {
    assert BitAt(x, 2) == BitAt(x / 2, 1) == BitAt(x / 2 / 2, 0);
  }

  lemma EndMarkerBits()
    ensures !BitAt(0x1004, 9) && BitAt(0x1004, 12)
  {
    assert BitAt(0x1004, 9) == BitAt(0x1004 / 16, 5);
    assert BitAt(0x1004 / 16, 5) == BitAt(0x1004 / 256, 1);
    assert BitAt(0x1004, 12) == BitAt(0x1004 / 16, 8);
    assert BitAt(0x1004 / 16, 8) == BitAt(0x1004 / 256, 4);
    assert BitAt(0x1004 / 256, 4) == BitAt(0x1004 / 0x1000, 0);
  }

  /** What the bits of an entry's flag word say (bits 0 and 2 say nothing the receiver looks at). */
  ghost predicate Describes(c: Config, fi: FileInfo, prev: Option<FileInfo>, b: Bits) {
    && |b| == FLAG_BITS
    && b[XMIT_SAME_MODE] == (prev.Some? && fi.mode == prev.value.mode)
    && b[XMIT_SAME_UID] == (!c.uid || (prev.Some? && fi.uid == prev.value.uid))
    && b[XMIT_SAME_GID] == (!c.gid || (prev.Some? && fi.gid == prev.value.gid))
    && b[XMIT_SAME_NAME] == (SameLen(fi, prev) > 0)
    && b[XMIT_LONG_NAME] == (|fi.Path()| - SameLen(fi, prev) > 255)
    && b[XMIT_SAME_TIME] == (!c.times || (prev.Some? && fi.modtime == prev.value.modtime))
    && b[XMIT_HLINKED] == fi.hlinked
    && b[XMIT_HLINK_FIRST] == (fi.hlinked && fi.hlinkFirst)
    && b[XMIT_MOD_NSEC] == (fi.modNsec != 0 && c.proto31)
    && !b[XMIT_USER_NAME_FOLLOWS] && !b[XMIT_GROUP_NAME_FOLLOWS]
  }

  /** No entry's flag word looks like the end of the list. */
  lemma SentFlagsFacts(c: Config, fi: FileInfo, prev: Option<FileInfo>)
    ensures var b := SentFlags(c, fi, prev);
            Describes(c, fi, prev, b) && true in b && (!c.varintFlags && !b[2] ==> !HighFlags(b))
  {
    hide SameLen, FileInfo.Path, FileInfo.IsDir, KeptApart, HighFlags;
    KeptApartFacts(c, fi.IsDir(), BaseFlags(c, fi, prev));
  }

  lemma KeptApartFacts(c: Config, isDir: bool, b: Bits)
    requires |b| == FLAG_BITS
    ensures var r := KeptApart(c, isDir, b);
            && true in r && (!c.varintFlags && !r[2] ==> !HighFlags(r))
            && r[1] == b[1] && r[3] == b[3] && r[4] == b[4] && r[5] == b[5] && r[6] == b[6] && r[7] == b[7]
            && r[9] == b[9] && r[10] == b[10] && r[11] == b[11] && r[12] == b[12] && r[13] == b[13]
  {
    var r := KeptApart(c, isDir, b);
    if true in b {
      var k :| 0 <= k < FLAG_BITS && b[k];
      assert r[k];
    } else {
      assert r[0] || r[2];
    }
  }

  lemma FlagsParse(c: Config, b: Bits, rest: seq<byte>)
    requires |b| == FLAG_BITS && true in b && (b[XMIT_HLINK_FIRST] ==> b[XMIT_HLINKED])
    requires !c.varintFlags && !b[2] ==> !HighFlags(b)
    ensures ReadFlags(c, FlagBytes(c, b) + rest) == Got(Value(b), rest)
    ensures BitsAre(Value(b), b) && Value(b) != 0
  {
    hide Value, HighFlags, VarintBytes, ReadVarint, LeBytes, BitAt;
    WordBits(b);
    var v := Value(b);
    if c.varintFlags {
      VarintRoundTrip(v, rest);
    } else {
      LowByte(v);
      assert BitAt(v, 2) == b[2] && BitAt(v, 9) == b[9] && BitAt(v, 12) == b[12];
      EndMarkerBits();
      ShortFlags(v, rest);
    }
  }

  lemma FlagBytesSome(c: Config, b: Bits)
    requires |b| == FLAG_BITS
    ensures |FlagBytes(c, b)| > 0
  {
    hide VarintBytes, ReadVarint, Value;
    WordBits(b);
    VarintRoundTrip(Value(b), []);
  }

  lemma ShortFlags(v: nat, rest: seq<byte>)
    requires v < 0x1_0000
    ensures ReadByte([v % 256] + rest) == Got(v % 256, rest)
    ensures ReadByte([v % 256, v / 256] + rest) == Got(v % 256, [v / 256] + rest)
    ensures ReadByte([v / 256] + rest) == Got(v / 256, rest)
  {
    assert ([v % 256, v / 256] + rest)[1..] == [v / 256] + rest;
  }

  // ---- the parts of an entry ----

  lemma OneByte(b: byte, rest: seq<byte>)
    ensures ReadByte([b] + rest) == Got(b, rest)
  {
    assert ([b] + rest)[1..] == rest;
  }

  lemma NoBytes(rest: seq<byte>)
    ensures [] + rest == rest
  {
  }

  lemma LenParse(n: nat, rest: seq<byte>)
    requires n < 0x8000_0000
    ensures ReadLen(n > 255, LenBytes(n) + rest) == Got(n, rest)
  {
    hide VarintBytes, ReadVarint;
    if n > 255 {
      VarintRoundTrip(n, rest);
    } else {
      OneByte(n, rest);
    }
  }

  lemma NameParse(fi: FileInfo, prev: Option<FileInfo>, b: Bits, x: nat, rest: seq<byte>)
    requires BitsAre(x, b) && |fi.Path()| < 0x8000_0000
    requires b[XMIT_SAME_NAME] == (SameLen(fi, prev) > 0)
    requires b[XMIT_LONG_NAME] == (|fi.Path()| - SameLen(fi, prev) > 255)
    ensures ReadName(x, NameBytes(fi, prev) + rest, PathOf(prev)) == Got(fi.Path(), rest)
  {
    hide BitAt, LenBytes, ReadLen, FileInfo.Path, SharedPrefix, ReadExact, ReadByte, PathOf;
    var same := SameLen(fi, prev);
    var tail := fi.Path()[same..];
    var first := if same > 0 then [same] else [];
    var s1 := LenBytes(|tail|) + (tail + rest);
    assert BitAt(x, XMIT_SAME_NAME) == (same > 0) && BitAt(x, XMIT_LONG_NAME) == (|tail| > 255);
    assert NameBytes(fi, prev) + rest == first + s1;
    NoBytes(s1);
    OneByte(same, s1);
    LenParse(|tail|, tail + rest);
    ReadExactPrefix(tail, rest);
    assert fi.Path() == PathOf(prev)[..same] + tail;
  }

  lemma TimesParse(fi: FileInfo, gotPrev: Option<FileInfo>, b: Bits, x: nat, rest: seq<byte>)
    requires BitsAre(x, b)
    ensures ReadTimes(x, TimeBytes(b, fi) + rest, gotPrev) == Got(
      Times(fi.size,
            if !b[XMIT_SAME_TIME] then fi.modtime else if gotPrev.Some? then gotPrev.value.modtime else 0,
            if b[XMIT_MOD_NSEC] then fi.modNsec else 0),
      rest)
  {
    hide BitAt, VarintBytes, ReadVarint, VarlongBytes, ReadVarlong, AsI32, AsU32;
    var nsec := if b[XMIT_MOD_NSEC] then VarintBytes(AsI32(fi.modNsec)) else [];
    var time := if b[XMIT_SAME_TIME] then [] else VarlongBytes(fi.modtime, 4);
    assert BitAt(x, XMIT_SAME_TIME) == b[XMIT_SAME_TIME] && BitAt(x, XMIT_MOD_NSEC) == b[XMIT_MOD_NSEC];
    assert TimeBytes(b, fi) + rest == VarlongBytes(fi.size, 3) + (time + (nsec + rest));
    NoBytes(nsec + rest);
    NoBytes(rest);
    VarlongRoundTrip(fi.size, 3, time + (nsec + rest));
    VarlongRoundTrip(fi.modtime, 4, nsec + rest);
    VarintRoundTrip(AsI32(fi.modNsec), rest);
    UnsignedRoundTrip(fi.modNsec);
    UnsignedRoundTrip(0);
  }

  lemma UnsignedRoundTrip(u: u32)
    ensures AsU32(AsI32(u)) == u
    ensures AsU32(0) == 0
  {
  }

  lemma IdParse(same: bool, sends: bool, before: u32, id: u32, named: bool, rest: seq<byte>)
    requires sends == !same && !named
    ensures (if same then Got(before, (if sends then VarintBytes(AsI32(id)) else []) + rest)
             else ReadId(named, (if sends then VarintBytes(AsI32(id)) else []) + rest))
            == Got(if same then before else id, rest)
  {
    hide VarintBytes, ReadVarint, AsI32, AsU32;
    VarintRoundTrip(AsI32(id), rest);
    UnsignedRoundTrip(id);
  }

  lemma ModeParse(b: bool, before: u32, mode: u32, rest: seq<byte>)
    ensures (if b then Got(before, (if b then [] else IntBytes(AsI32(mode))) + rest)
             else ReadMode((if b then [] else IntBytes(AsI32(mode))) + rest))
            == Got(if b then before else mode, rest)
  {
    hide IntBytes, ReadInt, AsI32, AsU32;
    IntRoundTrip(AsI32(mode), rest);
    UnsignedRoundTrip(mode);
  }

  lemma OwnerParse(c: Config, fi: FileInfo, gotPrev: Option<FileInfo>, b: Bits, x: nat, rest: seq<byte>)
    requires BitsAre(x, b) && !b[XMIT_USER_NAME_FOLLOWS] && !b[XMIT_GROUP_NAME_FOLLOWS]
    requires (!c.uid ==> b[XMIT_SAME_UID]) && (!c.gid ==> b[XMIT_SAME_GID])
    ensures ReadOwner(x, OwnerBytes(c, b, fi) + rest, gotPrev) == Got(
      Owner(if !b[XMIT_SAME_MODE] then fi.mode else if gotPrev.Some? then gotPrev.value.mode else 0x81A4,
            if !b[XMIT_SAME_UID] then fi.uid else if gotPrev.Some? then gotPrev.value.uid else 0,
            if !b[XMIT_SAME_GID] then fi.gid else if gotPrev.Some? then gotPrev.value.gid else 0),
      rest)
  {
    hide BitAt, VarintBytes, ReadVarint, ReadMode, ReadId, IntBytes, AsI32, AsU32;
    var mode := if b[XMIT_SAME_MODE] then [] else IntBytes(AsI32(fi.mode));
    var uid := if c.uid && !b[XMIT_SAME_UID] then VarintBytes(AsI32(fi.uid)) else [];
    var gid := if c.gid && !b[XMIT_SAME_GID] then VarintBytes(AsI32(fi.gid)) else [];
    assert OwnerBytes(c, b, fi) + rest == mode + (uid + (gid + rest));
    assert BitAt(x, XMIT_SAME_MODE) == b[XMIT_SAME_MODE];
    assert BitAt(x, XMIT_SAME_UID) == b[XMIT_SAME_UID] && BitAt(x, XMIT_SAME_GID) == b[XMIT_SAME_GID];
    assert !BitAt(x, XMIT_USER_NAME_FOLLOWS) && !BitAt(x, XMIT_GROUP_NAME_FOLLOWS);
    ModeParse(b[XMIT_SAME_MODE], if gotPrev.Some? then gotPrev.value.mode else 0x81A4, fi.mode, uid + (gid + rest));
    var prevUid := if gotPrev.Some? then gotPrev.value.uid else 0;
    var prevGid := if gotPrev.Some? then gotPrev.value.gid else 0;
    IdParse(b[XMIT_SAME_UID], c.uid && !b[XMIT_SAME_UID], prevUid, fi.uid, false, gid + rest);
    IdParse(b[XMIT_SAME_GID], c.gid && !b[XMIT_SAME_GID], prevGid, fi.gid, false, rest);
  }

  lemma RdevParse(c: Config, fi: FileInfo, gotPrev: Option<FileInfo>, rest: seq<byte>)
    requires c.devices || !SendsRdev(c, fi.mode)
    ensures var r := ReadRdev(c, fi.mode, RdevBytes(c, fi) + rest, gotPrev);
            && r.Got? && r.rest == rest
            && (SendsRdev(c, fi.mode) ==> r.value == (fi.rdevMajor, fi.rdevMinor))
  {
    hide VarintBytes, ReadVarint, SendsRdev, AsI32, AsU32;
    var minor := VarintBytes(AsI32(fi.rdevMinor));
    assert SendsRdev(c, fi.mode) ==> RdevBytes(c, fi) + rest == VarintBytes(AsI32(fi.rdevMajor)) + (minor + rest);
    assert !SendsRdev(c, fi.mode) ==> RdevBytes(c, fi) + rest == rest;
    VarintRoundTrip(AsI32(fi.rdevMajor), minor + rest);
    VarintRoundTrip(AsI32(fi.rdevMinor), rest);
    UnsignedRoundTrip(fi.rdevMajor);
    UnsignedRoundTrip(fi.rdevMinor);
  }

  lemma TargetParse(fi: FileInfo, rest: seq<byte>)
    requires |Target(fi)| < 0x8000_0000
    ensures ReadTarget(fi.mode, TargetBytes(fi) + rest)
            == Got(if fi.Type().Symlink? then Some(Target(fi)) else None, rest)
  {
    hide VarintBytes, ReadVarint, FromMode, ReadExact;
    var t := Target(fi);
    assert fi.Type().Symlink? ==> TargetBytes(fi) + rest == VarintBytes(|t|) + (t + rest);
    VarintRoundTrip(|t|, t + rest);
    ReadExactPrefix(t, rest);
  }

  /** What the receiver gets for a checksum. */
  function SumOf(c: Config, fi: FileInfo): Option<seq<byte>> {
    if c.checksumLen > 0 && fi.IsRegular() then
      Some(Fit(if fi.checksum.Some? then fi.checksum.value else [], c.checksumLen))
    else None
  }

  lemma SumParse(c: Config, fi: FileInfo, rest: seq<byte>)
    ensures ReadSum(c, fi.mode, SumBytes(c, fi) + rest) == Got(SumOf(c, fi), rest)
  {
    hide FromMode, ReadExact;
    ReadExactPrefix(SumBytes(c, fi), rest);
  }

  // ---- a whole entry ----

  function Parent(fi: FileInfo): Option<seq<byte>> {
    if fi.dirname.Some? && fi.dirname.value != [] then fi.dirname else None
  }

  /** The last slash of a path is the one that joins directory and name. */
  lemma PathSplits(fi: FileInfo)
    requires SLASH !in fi.name
    ensures BaseOf(fi.Path()) == fi.name && DirOf(fi.Path()) == Parent(fi)
  {
    hide LastSlash;
    var path := fi.Path();
    var i := LastSlash(path);
    if Parent(fi).Some? {
      var d := |fi.dirname.value|;
      assert path == fi.dirname.value + [SLASH] + fi.name;
      assert path[d] == SLASH;
      assert forall k :: d < k < |path| ==> path[k] == fi.name[k - d - 1];
      assert i == d;
      assert path[..i] == fi.dirname.value && path[i + 1..] == fi.name;
    } else {
      assert i == -1;
    }
  }

  /** `got` says of a file what `sent` does, as far as the options have it sent. */
  ghost predicate Matches(c: Config, sent: FileInfo, got: FileInfo) {
    && got.name == sent.name && got.dirname == Parent(sent)
    && MetaMatches(c, sent, got)
    && got.hlinked == Follower(sent) && !got.hlinkFirst
    && got.hardLinkFirstNdx == (if Follower(sent) then sent.hardLinkFirstNdx else -1)
    && got.checksum == (if Follower(sent) then None else SumOf(c, sent))
  }

  ghost predicate MetaMatches(c: Config, sent: FileInfo, got: FileInfo) {
    && got.size == sent.size && got.mode == sent.mode
    && got.modtime == (if c.times then sent.modtime else 0)
    && got.modNsec == (if c.proto31 then sent.modNsec else 0)
    && got.uid == (if c.uid then sent.uid else 0)
    && got.gid == (if c.gid then sent.gid else 0)
    && got.linkTarget == (if sent.Type().Symlink? then Some(Target(sent)) else None)
    && (SendsRdev(c, sent.mode) ==> got.rdevMajor == sent.rdevMajor && got.rdevMinor == sent.rdevMinor)
  }

  lemma MatchingPath(c: Config, sent: FileInfo, got: FileInfo)
    requires Matches(c, sent, got)
    ensures got.Path() == sent.Path() && Key(got) == Key(sent)
  {
    hide Keys, MetaMatches, SumOf;
    assert got.mode == sent.mode by { MetaMode(c, sent, got); }
    assert DirText(got) == DirText(sent) && ItemText(got) == ItemText(sent);
  }

  lemma MetaMode(c: Config, sent: FileInfo, got: FileInfo)
    requires MetaMatches(c, sent, got)
    ensures got.mode == sent.mode
  {
  }

  /** Two names of one file: everything an inode holds is the same. */
  predicate SameInode(a: FileInfo, b: FileInfo) {
    && a.size == b.size && a.mode == b.mode && a.modtime == b.modtime && a.modNsec == b.modNsec
    && a.uid == b.uid && a.gid == b.gid && Target(a) == Target(b)
    && a.rdevMajor == b.rdevMajor && a.rdevMinor == b.rdevMinor
  }

  ghost predicate PrevMatches(c: Config, prev: Option<FileInfo>, gotPrev: Option<FileInfo>) {
    match prev
    case None => gotPrev == None
    case Some(p) => gotPrev.Some? && Matches(c, p, gotPrev.value)
  }

  /** An entry the sender may send: a base name without slashes, lengths that fit, and a leader for every follower. */
  predicate Listable(fi: FileInfo) {
    SLASH !in fi.name && Sendable(fi) && (fi.hlinked && !fi.hlinkFirst ==> fi.hardLinkFirstNdx >= 0)
  }

  /** The receiver will read device numbers for it only if they are sent. */
  predicate Gated(c: Config, fi: FileInfo) { c.devices || Follower(fi) || !SendsRdev(c, fi.mode) }

  predicate Plain(c: Config, fi: FileInfo) { Listable(fi) && Gated(c, fi) }

  /** The flag bits that decide what is left out stand for values the receiver already has. */
  lemma OmittedIsKnown(c: Config, fi: FileInfo, prev: Option<FileInfo>, gotPrev: Option<FileInfo>, b: Bits)
    requires PrevMatches(c, prev, gotPrev)
    requires Describes(c, fi, prev, b)
    ensures b[XMIT_SAME_MODE] ==> gotPrev.Some? && gotPrev.value.mode == fi.mode
    ensures (if !b[XMIT_SAME_TIME] then fi.modtime else if gotPrev.Some? then gotPrev.value.modtime else 0)
            == if c.times then fi.modtime else 0
    ensures (if b[XMIT_MOD_NSEC] then fi.modNsec else 0) == if c.proto31 then fi.modNsec else 0
    ensures (if !b[XMIT_SAME_UID] then fi.uid else if gotPrev.Some? then gotPrev.value.uid else 0)
            == if c.uid then fi.uid else 0
    ensures (if !b[XMIT_SAME_GID] then fi.gid else if gotPrev.Some? then gotPrev.value.gid else 0)
            == if c.gid then fi.gid else 0
  {
    hide SameLen, FileInfo.Path, FileInfo.IsDir, Follower, SumOf, SendsRdev, Target, FileInfo.Type, Parent;
  }

  lemma MetaParse(c: Config, fi: FileInfo, prev: Option<FileInfo>, gotPrev: Option<FileInfo>, b: Bits, x: nat,
                  rest: seq<byte>)
    requires PrevMatches(c, prev, gotPrev) && BitsAre(x, b) && Plain(c, fi) && !Follower(fi)
    requires Describes(c, fi, prev, b)
    ensures var r := ReadMeta(c, x, MetaBytes(c, b, fi) + rest, fi.Path(), gotPrev);
            r.Got? && r.rest == rest && Matches(c, fi, r.value)
  {
    hide BitsAre, BitAt, PrevMatches, TimeBytes, ReadTimes, OwnerBytes, ReadOwner, RdevBytes, ReadRdev, TargetBytes,
         ReadTarget, SumBytes, ReadSum, SumOf, SendsRdev, FileInfo.Path, LastSlash, BaseOf, DirOf, FromMode, SameLen;
    var s4 := SumBytes(c, fi) + rest;
    var s3 := TargetBytes(fi) + s4;
    var s2 := RdevBytes(c, fi) + s3;
    var s1 := OwnerBytes(c, b, fi) + s2;
    MetaAppend(c, b, fi, rest);
    OmittedIsKnown(c, fi, prev, gotPrev, b);
    TimesParse(fi, gotPrev, b, x, s1);
    OwnerParse(c, fi, gotPrev, b, x, s2);
    RdevParse(c, fi, gotPrev, s3);
    TargetParse(fi, s4);
    SumParse(c, fi, rest);
    PathSplits(fi);
  }

  lemma MetaAppend(c: Config, b: Bits, fi: FileInfo, rest: seq<byte>)
    requires |b| == FLAG_BITS && |Target(fi)| < 0x8000_0000
    ensures MetaBytes(c, b, fi) + rest ==
            TimeBytes(b, fi) + (OwnerBytes(c, b, fi)
              + (RdevBytes(c, fi) + (TargetBytes(fi) + (SumBytes(c, fi) + rest))))
  {
    hide TimeBytes, OwnerBytes, RdevBytes, TargetBytes, SumBytes;
  }

  lemma FollowerParse(c: Config, fi: FileInfo, soFar: seq<FileInfo>, rest: seq<byte>)
    requires Plain(c, fi) && Follower(fi)
    requires fi.hardLinkFirstNdx < |soFar| && MetaMatches(c, fi, soFar[fi.hardLinkFirstNdx])
    ensures var r := ReadFollower(VarintBytes(fi.hardLinkFirstNdx) + rest, fi.Path(), soFar);
            r.Got? && r.rest == rest && Matches(c, fi, r.value)
  {
    hide VarintBytes, ReadVarint, FileInfo.Path, LastSlash, BaseOf, DirOf, FromMode, Sendable, SendsRdev, SumOf;
    VarintRoundTrip(fi.hardLinkFirstNdx, rest);
    PathSplits(fi);
  }

  /** One entry is read back as itself, whatever follows it. */
  lemma EntryParse(c: Config, fi: FileInfo, prev: Option<FileInfo>, gotPrev: Option<FileInfo>, soFar: seq<FileInfo>,
                   rest: seq<byte>)
    requires Plain(c, fi) && PrevMatches(c, prev, gotPrev)
    requires Follower(fi) ==> fi.hardLinkFirstNdx < |soFar| && MetaMatches(c, fi, soFar[fi.hardLinkFirstNdx])
    ensures var flags := ReadFlags(c, EntryBytes(c, fi, prev) + rest);
            && flags.Got? && flags.value != 0
            && var r := ReadEntry(c, flags.value, flags.rest, gotPrev, soFar);
            r.Got? && r.rest == rest && Matches(c, fi, r.value)
    ensures |EntryBytes(c, fi, prev)| > 0
  {
    hide SentFlags, FlagBytes, NameBytes, MetaBytes, ReadMeta, ReadFollower, ReadName, ReadFlags, VarintBytes,
         FileInfo.Path, SameLen, MetaMatches, Value, BitAt, HighFlags, PrevMatches, Matches, PathOf, Sendable,
         SendsRdev;
    assert Sendable(fi) && |fi.Path()| < 0x8000_0000 && |Target(fi)| < 0x8000_0000 by { PlainLengths(c, fi); }
    var b := SentFlags(c, fi, prev);
    var tail := if Follower(fi) then VarintBytes(fi.hardLinkFirstNdx) else MetaBytes(c, b, fi);
    assert EntryBytes(c, fi, prev) + rest == FlagBytes(c, b) + (NameBytes(fi, prev) + (tail + rest));
    SentFlagsFacts(c, fi, prev);
    FlagsParse(c, b, NameBytes(fi, prev) + (tail + rest));
    FlagBytesSome(c, b);
    NameParse(fi, prev, b, Value(b), tail + rest);
    SamePathBefore(c, prev, gotPrev);
    assert BitAt(Value(b), XMIT_HLINKED) == b[XMIT_HLINKED] && BitAt(Value(b), XMIT_HLINK_FIRST) == b[XMIT_HLINK_FIRST];
    if Follower(fi) {
      FollowerParse(c, fi, soFar, rest);
    } else {
      MetaParse(c, fi, prev, gotPrev, b, Value(b), rest);
    }
  }

  lemma PlainLengths(c: Config, fi: FileInfo)
    requires Plain(c, fi)
    ensures Sendable(fi) && |fi.Path()| < 0x8000_0000 && |Target(fi)| < 0x8000_0000
  {
  }

  lemma SamePathBefore(c: Config, prev: Option<FileInfo>, gotPrev: Option<FileInfo>)
    requires PrevMatches(c, prev, gotPrev)
    ensures PathOf(gotPrev) == PathOf(prev)
  {
    hide Matches, FileInfo.Path;
    if prev.Some? {
      MatchingPath(c, prev.value, gotPrev.value);
    }
  }

  // ---- the whole list ----

  /** A list the sender may send: plain entries, and later names of a file refer back to an earlier entry for it. */
  ghost predicate WellFormed(c: Config, files: seq<FileInfo>) {
    Sound(files) && forall i :: 0 <= i < |files| ==> Gated(c, files[i])
  }

  /** All of it but the device numbers. */
  ghost predicate Sound(files: seq<FileInfo>) {
    forall i :: 0 <= i < |files| ==>
      && Listable(files[i])
      && (Follower(files[i]) ==> files[i].hardLinkFirstNdx < i && SameInode(files[i], files[files[i].hardLinkFirstNdx]))
  }

  ghost predicate AllMatch(c: Config, sent: seq<FileInfo>, got: seq<FileInfo>) {
    |got| == |sent| && forall i :: 0 <= i < |sent| ==> Matches(c, sent[i], got[i])
  }

  lemma SameInodeMatches(c: Config, a: FileInfo, b: FileInfo, got: FileInfo)
    requires SameInode(a, b) && MetaMatches(c, b, got)
    ensures MetaMatches(c, a, got)
  {
    hide FromMode, Target;
  }

  lemma EndParse(c: Config, ioError: i32, rest: seq<byte>)
    ensures var flags := ReadFlags(c, EndBytes(c, ioError) + rest);
            flags.Got? && flags.value == 0 && ReadTrailer(c, flags.rest) == Got((), rest)
  {
    hide VarintBytes, ReadVarint, IdsBytes, ReadIds, LeBytes, ReadByte, BitAt;
    var tail := IdsBytes(c) + rest;
    IdsParse(c, rest);
    if c.varintFlags {
      assert EndBytes(c, ioError) + rest == VarintBytes(0) + (VarintBytes(ioError) + tail);
      VarintRoundTrip(0, VarintBytes(ioError) + tail);
      VarintRoundTrip(ioError, tail);
    } else if c.proto31 || ioError != 0 {
      assert EndBytes(c, ioError) + rest == ShortintBytes(0x1004) + (VarintBytes(ioError) + tail);
      LowByte(0x1004);
      ShortFlags(0x1004, VarintBytes(ioError) + tail);
      BitTwo(4);
      VarintRoundTrip(ioError, tail);
    } else {
      assert EndBytes(c, ioError) + rest == [0] + tail;
      OneByte(0, tail);
    }
  }

  lemma IdsParse(c: Config, rest: seq<byte>)
    ensures ReadIds(c, IdsBytes(c) + rest) == Got((), rest)
  {
    hide VarintBytes, SkipIds;
    var uids := if c.uid then VarintBytes(0) else [];
    var gids := if c.gid then VarintBytes(0) else [];
    NoBytes(rest);
    NoBytes(gids + rest);
    assert (uids + gids) + rest == uids + (gids + rest);
    SkipNone(gids + rest);
    SkipNone(rest);
  }

  lemma SkipNone(rest: seq<byte>)
    ensures SkipIds(VarintBytes(0) + rest) == Got((), rest)
  {
    hide VarintBytes, ReadVarint;
    VarintRoundTrip(0, rest);
  }

  function LastOf(files: seq<FileInfo>): Option<FileInfo> { if files == [] then None else Some(files[|files| - 1]) }

  lemma SoundSendable(files: seq<FileInfo>)
    requires Sound(files)
    ensures forall i :: 0 <= i < |files| ==> Sendable(files[i])
  {
    hide Sendable;
  }

  /** What is left to read once the entries of `got` are in. */
  function Unread(c: Config, files: seq<FileInfo>, k: nat, ioError: i32, rest: seq<byte>): seq<byte>
    requires k <= |files| && forall i :: 0 <= i < |files| ==> Sendable(files[i])
  {
    EntriesBytes(c, files[k..], LastOf(files[..k])) + EndBytes(c, ioError) + rest
  }

  lemma UnreadStep(c: Config, files: seq<FileInfo>, k: nat, ioError: i32, rest: seq<byte>)
    requires k < |files| && forall i :: 0 <= i < |files| ==> Sendable(files[i])
    ensures Unread(c, files, k, ioError, rest)
            == EntryBytes(c, files[k], LastOf(files[..k])) + Unread(c, files, k + 1, ioError, rest)
  {
    hide Sendable, EntryBytes, EndBytes;
    assert files[k..][1..] == files[k + 1..];
    assert LastOf(files[..k + 1]) == Some(files[k]);
  }

  /** One more entry is read. */
  lemma NextEntry(c: Config, files: seq<FileInfo>, got: seq<FileInfo>, ioError: i32, rest: seq<byte>)
      returns (g: FileInfo)
    requires Sound(files) && |got| < |files| && Gated(c, files[|got|]) && AllMatch(c, files[..|got|], got)
    requires forall i :: 0 <= i < |files| ==> Sendable(files[i])
    ensures AllMatch(c, files[..|got| + 1], got + [g])
    ensures ReadEntries(c, Unread(c, files, |got|, ioError, rest), got)
            == ReadEntries(c, Unread(c, files, |got| + 1, ioError, rest), got + [g])
  {
    hide Listable, Gated, Sendable, SameInode, MetaMatches, EntryBytes, ReadFlags, ReadTrailer, ReadEntry, Unread;
    var k := |got|;
    var fi := files[k];
    var prev := LastOf(files[..k]);
    var tail := Unread(c, files, k + 1, ioError, rest);
    UnreadStep(c, files, k, ioError, rest);
    if Follower(fi) {
      SameInodeMatches(c, fi, files[fi.hardLinkFirstNdx], got[fi.hardLinkFirstNdx]);
    }
    EntryParse(c, fi, prev, LastOf(got), got, tail);
    var flags := ReadFlags(c, EntryBytes(c, fi, prev) + tail);
    g := ReadEntry(c, flags.value, flags.rest, LastOf(got), got).value;
  }

  /** A list comes back entry for entry, and what follows it is left untouched. */
  lemma {:induction false} EntriesParse(c: Config, files: seq<FileInfo>, got: seq<FileInfo>, ioError: i32,
                                        rest: seq<byte>)
    requires WellFormed(c, files) && |got| <= |files| && AllMatch(c, files[..|got|], got)
    requires forall i :: 0 <= i < |files| ==> Sendable(files[i])
    ensures var r := ReadEntries(c, Unread(c, files, |got|, ioError, rest), got);
            r.Got? && r.rest == rest && AllMatch(c, files, r.value)
    decreases |files| - |got|
  {
    hide Sound, Gated, Sendable, Matches, EndBytes, ReadFlags, ReadTrailer, ReadEntry;
    if |got| == |files| {
      assert files[|got|..] == [] && files[..|got|] == files;
      assert Unread(c, files, |got|, ioError, rest) == EndBytes(c, ioError) + rest;
      EndParse(c, ioError, rest);
    } else {
      var g := NextEntry(c, files, got, ioError, rest);
      EntriesParse(c, files, got + [g], ioError, rest);
    }
  }

  /** The list comes back as sent, and what follows it is left untouched. */
  ghost predicate ComesBack(c: Config, files: seq<FileInfo>, ioError: i32, rest: seq<byte>)
    requires forall i :: 0 <= i < |files| ==> Sendable(files[i])
  {
    var r := ReadEntries(c, EntriesBytes(c, files, None) + EndBytes(c, ioError) + rest, []);
    r.Got? && r.rest == rest && AllMatch(c, files, r.value)
  }

  lemma ListParse(c: Config, files: seq<FileInfo>, ioError: i32, rest: seq<byte>)
    requires WellFormed(c, files) && forall i :: 0 <= i < |files| ==> Sendable(files[i])
    ensures ComesBack(c, files, ioError, rest)
  {
    hide WellFormed, Sendable, Matches, EndBytes, EntriesBytes, ReadEntries;
    assert files[0..] == files;
    EntriesParse(c, files, [], ioError, rest);
  }

  // ---- every read consumes ----

  lemma VarintConsumes(s: seq<byte>)
    ensures ReadVarint(s).Got? ==> |ReadVarint(s).rest| < |s|
  {
  }

  lemma VarlongConsumes(s: seq<byte>, mb: nat)
    requires 1 <= mb <= 8
    ensures ReadVarlong(s, mb).Got? ==> |ReadVarlong(s, mb).rest| < |s|
  {
  }

  /** Reading a flag word uses up bytes and reading an entry gives none back, so the checks in ReadEntries and SkipIds
      that bytes were used up never fail. */
  lemma EntryConsumes(c: Config, s: seq<byte>, prev: Option<FileInfo>, soFar: seq<FileInfo>)
    requires ReadFlags(c, s).Got? && ReadEntry(c, ReadFlags(c, s).value, ReadFlags(c, s).rest, prev, soFar).Got?
    ensures |ReadEntry(c, ReadFlags(c, s).value, ReadFlags(c, s).rest, prev, soFar).rest| < |s|
  {
    hide ReadName, ReadMeta, ReadVarint, BitAt, FileInfo.Path, BaseOf, DirOf;
    var f := ReadFlags(c, s);
    VarintConsumes(s);
    if |s| >= 2 {
      VarintConsumes(s[1..][1..]);
    }
    assert |f.rest| < |s|;
    var path := ReadName(f.value, f.rest, PathOf(prev));
    NameConsumes(f.value, f.rest, PathOf(prev));
    VarintConsumes(path.rest);
    MetaConsumes(c, f.value, path.rest, path.value, prev);
  }

  lemma NameConsumes(x: nat, s: seq<byte>, prevName: seq<byte>)
    ensures ReadName(x, s, prevName).Got? ==> |ReadName(x, s, prevName).rest| <= |s|
  {
    hide ReadVarint, BitAt;
    VarintConsumes(s);
    if s != [] {
      VarintConsumes(s[1..]);
    }
  }

  lemma MetaConsumes(c: Config, x: nat, s: seq<byte>, path: seq<byte>, prev: Option<FileInfo>)
    ensures ReadMeta(c, x, s, path, prev).Got? ==> |ReadMeta(c, x, s, path, prev).rest| <= |s|
  {
    hide ReadTimes, ReadOwner, ReadRdev, ReadTarget, ReadSum, BaseOf, DirOf;
    if ReadMeta(c, x, s, path, prev).Got? {
      var t := ReadTimes(x, s, prev);
      TimesConsume(x, s, prev);
      var o := ReadOwner(x, t.rest, prev);
      OwnerConsumes(x, t.rest, prev);
      var d := ReadRdev(c, o.value.mode, o.rest, prev);
      RdevConsumes(c, o.value.mode, o.rest, prev);
      var l := ReadTarget(o.value.mode, d.rest);
      TargetConsumes(c, o.value.mode, d.rest);
      TargetConsumes(c, o.value.mode, l.rest);
    }
  }

  lemma TimesConsume(x: nat, s: seq<byte>, prev: Option<FileInfo>)
    ensures ReadTimes(x, s, prev).Got? ==> |ReadTimes(x, s, prev).rest| <= |s|
  {
    hide ReadVarint, ReadVarlong, BitAt;
    var size := ReadVarlong(s, 3);
    VarlongConsumes(s, 3);
    if size.Got? {
      VarlongConsumes(size.rest, 4);
      VarintConsumes(size.rest);
      if ReadVarlong(size.rest, 4).Got? {
        VarintConsumes(ReadVarlong(size.rest, 4).rest);
      }
    }
  }

  lemma IdConsumes(named: bool, s: seq<byte>)
    ensures ReadId(named, s).Got? ==> |ReadId(named, s).rest| <= |s|
  {
    hide ReadVarint;
    VarintConsumes(s);
  }

  lemma OwnerConsumes(x: nat, s: seq<byte>, prev: Option<FileInfo>)
    ensures ReadOwner(x, s, prev).Got? ==> |ReadOwner(x, s, prev).rest| <= |s|
  {
    hide ReadId, BitAt, ReadInt, AsU32;
    if ReadOwner(x, s, prev).Got? {
      var s1 := if BitAt(x, XMIT_SAME_MODE) then s else ReadMode(s).rest;
      assert |s1| <= |s| by { ModeConsumes(s); }
      IdConsumes(BitAt(x, XMIT_USER_NAME_FOLLOWS), s1);
      var s2 := if BitAt(x, XMIT_SAME_UID) then s1 else ReadId(BitAt(x, XMIT_USER_NAME_FOLLOWS), s1).rest;
      IdConsumes(BitAt(x, XMIT_GROUP_NAME_FOLLOWS), s2);
    }
  }

  lemma ModeConsumes(s: seq<byte>)
    ensures ReadMode(s).Got? ==> |ReadMode(s).rest| <= |s|
  {
    hide LeValue, AsI32, AsU32;
  }

  lemma RdevConsumes(c: Config, mode: u32, s: seq<byte>, prev: Option<FileInfo>)
    ensures ReadRdev(c, mode, s, prev).Got? ==> |ReadRdev(c, mode, s, prev).rest| <= |s|
  {
    hide ReadVarint, FromMode;
    VarintConsumes(s);
    if ReadVarint(s).Got? {
      VarintConsumes(ReadVarint(s).rest);
    }
  }

  lemma TargetConsumes(c: Config, mode: u32, s: seq<byte>)
    ensures ReadTarget(mode, s).Got? ==> |ReadTarget(mode, s).rest| <= |s|
    ensures ReadSum(c, mode, s).Got? ==> |ReadSum(c, mode, s).rest| <= |s|
  {
    hide ReadVarint, FromMode;
    VarintConsumes(s);
  }
}
