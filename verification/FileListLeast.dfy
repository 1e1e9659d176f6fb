/** No bytes that the receiver reads as an entry are fewer than those the sender writes for it (flist/send.rs,
    flist/recv.rs). */
module FileListLeast {
  import opened Bytes
  import opened Varint
  import opened FileTypes
  import opened FileOrder
  import opened FileList
  import opened FileListProofs

  // ---- flags ----

  lemma {:induction false} BitLarge(x: nat, k: nat)
    requires BitAt(x, k)
    ensures x >= Pow2(k)
  {
    if k > 0 {
      BitLarge(x / 2, k - 1);
    }
  }

  lemma LargeBits(x: nat)
    ensures BitAt(x, XMIT_SAME_TIME) ==> x >= 0x80
    ensures BitAt(x, XMIT_HLINKED) || BitAt(x, XMIT_MOD_NSEC) ==> x >= 0x200
  {
    hide BitAt, Pow2;
    PowersUsed();
    if BitAt(x, 7) {
      BitLarge(x, 7);
    }
    if BitAt(x, 9) {
      BitLarge(x, 9);
    }
    if BitAt(x, 13) {
      BitLarge(x, 13);
    }
  }

  lemma PowersUsed()
    ensures Pow2(7) == 0x80 && Pow2(9) == 0x200 && Pow2(13) == 0x2000
  {
    assert Pow2(7) == 128 * Pow2(0);
    assert Pow2(9) == 4 * Pow2(7);
    assert Pow2(13) == 16 * Pow2(9);
  }

  /** A flag word takes a byte, and two when it is large. */
  lemma FlagsLeast(c: Config, s: seq<byte>)
    requires ReadFlags(c, s).Got? && ReadFlags(c, s).value != 0
    ensures |ReadFlags(c, s).rest| + 1 <= |s|
    ensures ReadFlags(c, s).value >= (if c.varintFlags then 0x80 else 0x100) ==> |ReadFlags(c, s).rest| + 2 <= |s|
  {
    hide ReadVarint, VarintBytes, BitAt;
    if c.varintFlags {
      var x := ReadVarint(s).value;
      VarintLeast(s);
      VarintLength(x, 1);
    }
  }

  /** How many bytes the sender's flag word takes. */
  lemma FlagsSize(c: Config, b: Bits)
    requires |b| == FLAG_BITS
    ensures |FlagBytes(c, b)| <= 2
    ensures c.varintFlags && !b[7] && !HighFlags(b) ==> |FlagBytes(c, b)| == 1
    ensures !c.varintFlags && !b[2] ==> |FlagBytes(c, b)| == 1
  {
    hide Value, VarintBytes, Pow2;
    WordBits(b);
    VarintRoundTrip(Value(b), []);
    VarintLength(Value(b), 2);
    VarintLength(Value(b), 1);
    if !b[7] && !HighFlags(b) {
      HighClear(b, 7);
      PowersUsed();
    }
  }

  /** An entry whose flag word may hold a bit that tells the receiver nothing: of a hard-link leader, or the padding of
      a directory without flags. */
  predicate Loose(c: Config, fi: FileInfo) { (fi.hlinked && fi.hlinkFirst) || (!c.varintFlags && fi.IsDir()) }

  /** A second byte of the sender's flag word has a cause. */
  lemma TwoByteFlags(c: Config, fi: FileInfo, prev: Option<FileInfo>)
    requires |FlagBytes(c, SentFlags(c, fi, prev))| > 1 && !Loose(c, fi)
    ensures (c.varintFlags && SentFlags(c, fi, prev)[XMIT_SAME_TIME]) || fi.hlinked || (fi.modNsec != 0 && c.proto31)
  {
    hide SameLen, FileInfo.Path, FileInfo.IsDir, FlagBytes, KeptApart;
    var base := BaseFlags(c, fi, prev);
    var b := SentFlags(c, fi, prev);
    FlagsSize(c, b);
    KeptApartFacts(c, fi.IsDir(), base);
    KeptApartHigh(c, fi.IsDir(), base);
  }

  lemma KeptApartHigh(c: Config, isDir: bool, b: Bits)
    requires |b| == FLAG_BITS
    ensures var r := KeptApart(c, isDir, b);
            && (HighFlags(r) <==> HighFlags(b))
            && (!c.varintFlags && r[2] && !b[2] ==> HighFlags(b) || isDir)
  {
    assert b[XMIT_TOP_DIR := true][XMIT_TOP_DIR];
  }

  // ---- the name ----

  lemma {:induction false} SharedIsMost(a: seq<byte>, b: seq<byte>, limit: nat, n: nat)
    requires n <= limit && n <= |a| && n <= |b| && a[..n] == b[..n]
    ensures n <= SharedPrefix(a, b, limit)
  {
    if n > 0 {
      assert a[0] == a[..n][0] && b[0] == b[..n][0];
      assert a[1..][..n - 1] == a[..n][1..] && b[1..][..n - 1] == b[..n][1..];
      SharedIsMost(a[1..], b[1..], limit - 1, n - 1);
    }
  }

  lemma LenLeast(long: bool, s: seq<byte>, n: nat)
    requires ReadLen(long, s).Got? && n <= ReadLen(long, s).value
    ensures |LenBytes(n)| <= |s| - |ReadLen(long, s).rest|
  {
    hide VarintBytes, ReadVarint;
    var m := ReadLen(long, s).value;
    if long {
      VarintLeast(s);
      VarintMonotone(n, m);
    }
  }

  lemma NameLeast(fi: FileInfo, prev: Option<FileInfo>, x: nat, s: seq<byte>)
    requires |fi.Path()| < 0x8000_0000
    requires ReadName(x, s, PathOf(prev)).Got? && ReadName(x, s, PathOf(prev)).value == fi.Path()
    ensures |NameBytes(fi, prev)| <= |s| - |ReadName(x, s, PathOf(prev)).rest|
  {
    hide BitAt, LenBytes, ReadLen, FileInfo.Path, PathOf, SharedPrefix;
    var first := if BitAt(x, XMIT_SAME_NAME) then ReadByte(s) else Got(0, s);
    var len := ReadLen(BitAt(x, XMIT_LONG_NAME), first.rest);
    var taken, path := first.value, fi.Path();
    var same := SameLen(fi, prev);
    assert path == PathOf(prev)[..taken] + ReadExact(len.rest, len.value).value;
    assert path[..taken] == PathOf(prev)[..taken];
    SharedIsMost(path, PathOf(prev), 255, taken);
    LenLeast(BitAt(x, XMIT_LONG_NAME), first.rest, |path| - same);
    assert |NameBytes(fi, prev)| == (if same > 0 then 1 else 0) + |LenBytes(|path| - same)| + (|path| - same);
  }

  // ---- times, owner, link target ----

  lemma TimesLeast(c: Config, fi: FileInfo, prev: FileInfo, gotPrev: FileInfo, b: Bits, x: nat, s: seq<byte>)
    requires Describes(c, fi, Some(prev), b) && gotPrev.modtime == (if c.times then prev.modtime else 0)
    requires var t := ReadTimes(x, s, Some(gotPrev));
             && t.Got? && t.value.size == fi.size
             && t.value.modtime == (if c.times then fi.modtime else 0)
             && t.value.modNsec == (if c.proto31 then fi.modNsec else 0)
    ensures |TimeBytes(b, fi)| + (if b[XMIT_SAME_TIME] && !BitAt(x, XMIT_SAME_TIME) then 4 else 0)
            <= |s| - |ReadTimes(x, s, Some(gotPrev)).rest|
    ensures fi.modNsec != 0 && c.proto31 ==> BitAt(x, XMIT_MOD_NSEC)
  {
    hide BitAt, VarintBytes, ReadVarint, VarlongBytes, ReadVarlong, AsI32, AsU32, SameLen, FileInfo.Path;
    UnsignedRoundTrip(0);
    var size := ReadVarlong(s, 3);
    VarlongLeast(s, 3);
    var modtime := if BitAt(x, XMIT_SAME_TIME) then Got(gotPrev.modtime, size.rest) else ReadVarlong(size.rest, 4);
    if !BitAt(x, XMIT_SAME_TIME) {
      VarlongLeast(size.rest, 4);
    }
    if BitAt(x, XMIT_MOD_NSEC) {
      VarintLeast(modtime.rest);
      SignedRoundTrip(ReadVarint(modtime.rest).value);
    }
  }

  lemma SignedRoundTrip(x: i32)
    ensures AsI32(AsU32(x)) == x
  {
  }

  lemma IdLeast(named: bool, s: seq<byte>, id: u32)
    requires ReadId(named, s).Got? && ReadId(named, s).value == id
    ensures 1 <= |VarintBytes(AsI32(id))| <= |s| - |ReadId(named, s).rest|
  {
    hide VarintBytes, ReadVarint, AsI32, AsU32;
    VarintLeast(s);
    SignedRoundTrip(ReadVarint(s).value);
  }

  lemma OwnerLeast(c: Config, fi: FileInfo, prev: FileInfo, gotPrev: FileInfo, b: Bits, x: nat, s: seq<byte>)
    requires Describes(c, fi, Some(prev), b) && MetaMatches(c, prev, gotPrev)
    requires var o := ReadOwner(x, s, Some(gotPrev));
             && o.Got? && o.value.mode == fi.mode
             && o.value.uid == (if c.uid then fi.uid else 0) && o.value.gid == (if c.gid then fi.gid else 0)
    ensures |OwnerBytes(c, b, fi)| <= |s| - |ReadOwner(x, s, Some(gotPrev)).rest|
  {
    hide BitAt, VarintBytes, IntBytes, ReadMode, ReadId, AsI32, AsU32, SameLen, FileInfo.Path, FileInfo.Type, SendsRdev,
         Target;
    var mode := if BitAt(x, XMIT_SAME_MODE) then Got(gotPrev.mode, s) else ReadMode(s);
    ModeTakesFour(s);
    var uid := if BitAt(x, XMIT_SAME_UID) then Got(gotPrev.uid, mode.rest)
      else ReadId(BitAt(x, XMIT_USER_NAME_FOLLOWS), mode.rest);
    if !BitAt(x, XMIT_SAME_UID) {
      IdLeast(BitAt(x, XMIT_USER_NAME_FOLLOWS), mode.rest, uid.value);
    }
    if !BitAt(x, XMIT_SAME_GID) {
      IdLeast(BitAt(x, XMIT_GROUP_NAME_FOLLOWS), uid.rest, ReadId(BitAt(x, XMIT_GROUP_NAME_FOLLOWS), uid.rest).value);
    }
  }

  lemma ModeTakesFour(s: seq<byte>)
    ensures ReadMode(s).Got? ==> |ReadMode(s).rest| + 4 == |s|
  {
    hide LeValue, AsI32, AsU32;
  }

  /** Device numbers take two bytes at least, sent or not. */
  lemma RdevLeast(c: Config, mode: u32, s: seq<byte>, prev: Option<FileInfo>)
    requires ReadRdev(c, mode, s, prev).Got?
    ensures |ReadRdev(c, mode, s, prev).rest| + (if SendsRdev(c, mode) then 2 else 0) <= |s|
  {
    hide ReadVarint, VarintBytes, SendsRdev, AsU32;
    if SendsRdev(c, mode) {
      VarintLeast(s);
      VarintLeast(ReadVarint(s).rest);
    }
  }

  lemma TargetLeast(fi: FileInfo, s: seq<byte>)
    requires |Target(fi)| < 0x8000_0000
    requires ReadTarget(fi.mode, s).Got?
    requires ReadTarget(fi.mode, s).value == if fi.Type().Symlink? then Some(Target(fi)) else None
    ensures |TargetBytes(fi)| <= |s| - |ReadTarget(fi.mode, s).rest|
  {
    hide ReadVarint, VarintBytes, FromMode;
    if fi.Type().Symlink? {
      VarintLeast(s);
    }
  }

  lemma SumLeast(c: Config, fi: FileInfo, s: seq<byte>)
    requires ReadSum(c, fi.mode, s).Got?
    ensures |SumBytes(c, fi)| <= |s| - |ReadSum(c, fi.mode, s).rest|
  {
    hide FromMode;
  }

  // ---- an entry ----

  lemma MetaLeast(c: Config, fi: FileInfo, prev: FileInfo, gotPrev: FileInfo, b: Bits, x: nat, s: seq<byte>)
    requires !c.devices && |b| == FLAG_BITS && Describes(c, fi, Some(prev), b) && MetaMatches(c, prev, gotPrev)
    requires |Target(fi)| < 0x8000_0000
    requires var r := ReadMeta(c, x, s, fi.Path(), Some(gotPrev)); r.Got? && MetaMatches(c, fi, r.value)
    ensures |MetaBytes(c, b, fi)| + (if b[XMIT_SAME_TIME] && !BitAt(x, XMIT_SAME_TIME) then 4 else 0)
            + (if SendsRdev(c, fi.mode) then 2 else 0)
            <= |s| - |ReadMeta(c, x, s, fi.Path(), Some(gotPrev)).rest|
    ensures fi.modNsec != 0 && c.proto31 ==> BitAt(x, XMIT_MOD_NSEC)
  {
    hide BitAt, TimeBytes, ReadTimes, OwnerBytes, ReadOwner, ReadRdev, TargetBytes, ReadTarget, SumBytes, ReadSum,
         SendsRdev, FileInfo.Path, LastSlash, BaseOf, DirOf, FromMode, SameLen, Describes;
    var t := ReadTimes(x, s, Some(gotPrev));
    var o := ReadOwner(x, t.rest, Some(gotPrev));
    var rdev := ReadRdev(c, o.value.mode, o.rest, Some(gotPrev));
    var target := ReadTarget(o.value.mode, rdev.rest);
    TimesLeast(c, fi, prev, gotPrev, b, x, s);
    OwnerLeast(c, fi, prev, gotPrev, b, x, t.rest);
    RdevLeast(c, fi.mode, o.rest, Some(gotPrev));
    TargetLeast(fi, rdev.rest);
    SumLeast(c, fi, target.rest);
    MetaSize(c, b, fi);
  }

  lemma MetaSize(c: Config, b: Bits, fi: FileInfo)
    requires !c.devices && |b| == FLAG_BITS && |Target(fi)| < 0x8000_0000
    ensures |MetaBytes(c, b, fi)| == |TimeBytes(b, fi)| + |OwnerBytes(c, b, fi)| + |TargetBytes(fi)| + |SumBytes(c, fi)|
  {
    hide TimeBytes, OwnerBytes, TargetBytes, SumBytes, SendsRdev;
  }

  lemma SplitAt(path: seq<byte>, i: nat)
    requires i < |path|
    ensures path == path[..i] + [path[i]] + path[i + 1..]
  {
  }

  lemma PathParts(path: seq<byte>)
    ensures DirOf(path).None? ==> BaseOf(path) == path
    ensures DirOf(path).Some? ==> path == DirOf(path).value + [SLASH] + BaseOf(path)
  {
    hide LastSlash;
    var i := LastSlash(path);
    if i >= 0 {
      SplitAt(path, i);
    } else {
      assert path[0..] == path;
    }
  }

  /** Directory and name of an entry have only one path. */
  lemma EntrySize(c: Config, fi: FileInfo, prev: Option<FileInfo>)
    requires Sendable(fi)
    ensures |EntryBytes(c, fi, prev)| == |FlagBytes(c, SentFlags(c, fi, prev))| + |NameBytes(fi, prev)|
            + if Follower(fi) then |VarintBytes(fi.hardLinkFirstNdx)| else |MetaBytes(c, SentFlags(c, fi, prev), fi)|
  {
    hide FlagBytes, NameBytes, MetaBytes, SentFlags, VarintBytes, FileInfo.Path;
  }

  /** Behind another entry, an entry read back as itself uses no fewer bytes than were written for it, but for a loose
      flag word, and two more when device numbers are read that were not written. */
  lemma EntryLeast(c: Config, fi: FileInfo, prev: FileInfo, gotPrev: FileInfo, s: seq<byte>, soFar: seq<FileInfo>)
    requires !c.devices && Listable(fi) && Sendable(fi) && Matches(c, prev, gotPrev)
    requires ReadFlags(c, s).Got? && ReadFlags(c, s).value != 0
    requires var e := ReadEntry(c, ReadFlags(c, s).value, ReadFlags(c, s).rest, Some(gotPrev), soFar);
             e.Got? && Matches(c, fi, e.value)
    ensures var e := ReadEntry(c, ReadFlags(c, s).value, ReadFlags(c, s).rest, Some(gotPrev), soFar);
            |EntryBytes(c, fi, Some(prev))| + (if Gated(c, fi) then 0 else 2)
              <= |s| - |e.rest| + (if Loose(c, fi) then 1 else 0)
  {
    hide EntryBytes, ReadFlags, ReadName, ReadTimes, ReadOwner, ReadRdev, ReadTarget, ReadSum, ReadVarint, FlagBytes,
         NameBytes, MetaBytes, SentFlags, VarintBytes, BitAt, MetaMatches, FileInfo.Path, SendsRdev, SumOf, Parent,
         SameLen, FileInfo.IsDir, BaseOf, DirOf, LastSlash;
    var f := ReadFlags(c, s);
    var x, b := f.value, SentFlags(c, fi, Some(prev));
    var name := ReadName(x, f.rest, PathOf(Some(gotPrev)));
    assert PathOf(Some(gotPrev)) == PathOf(Some(prev)) by { MatchingPath(c, prev, gotPrev); }
    assert name.value == fi.Path() by {
      PathSplits(fi);
      PathParts(name.value);
      PathParts(fi.Path());
    }
    SentFlagsFacts(c, fi, Some(prev));
    NameLeast(fi, Some(prev), x, f.rest);
    FlagsLeast(c, s);
    FlagsSize(c, b);
    LargeBits(x);
    EntrySize(c, fi, Some(prev));
    if |FlagBytes(c, b)| > 1 && !Loose(c, fi) {
      TwoByteFlags(c, fi, Some(prev));
    }
    if Follower(fi) {
      VarintLeast(name.rest);
      assert BitAt(x, XMIT_HLINKED);
    } else {
      MetaLeast(c, fi, prev, gotPrev, b, x, name.rest);
      assert fi.hlinked ==> Loose(c, fi);
    }
  }
}
