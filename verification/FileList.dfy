/** The file list on the wire, protocol 30 and 31 (flist/send.rs, flist/recv.rs). */
module FileList {
  import opened Bytes
  import opened Varint
  import opened FileTypes

  datatype Config = Config(
    proto31: bool, checksumLen: nat,
    uid: bool, gid: bool, times: bool, devices: bool,  // what the sender preserves
    varintFlags: bool, incRecurse: bool)               // compatibility flags

  // ---- flag words ----

  const XMIT_TOP_DIR := 0
  const XMIT_SAME_MODE := 1
  const XMIT_EXTENDED_FLAGS := 2
  const XMIT_SAME_UID := 3
  const XMIT_SAME_GID := 4
  const XMIT_SAME_NAME := 5
  const XMIT_LONG_NAME := 6
  const XMIT_SAME_TIME := 7
  const XMIT_HLINKED := 9
  const XMIT_USER_NAME_FOLLOWS := 10
  const XMIT_GROUP_NAME_FOLLOWS := 11
  const XMIT_HLINK_FIRST := 12
  const XMIT_IO_ERROR_ENDLIST := 12
  const XMIT_MOD_NSEC := 13
  const FLAG_BITS := 14

  /** A flag word as its bits, lowest first. */
  type Bits = seq<bool>

  function Value(b: Bits): nat { if b == [] then 0 else (if b[0] then 1 else 0) + 2 * Value(b[1..]) }

  /** `x & (1 << k) != 0` */
  predicate BitAt(x: nat, k: nat) { if k == 0 then x % 2 == 1 else BitAt(x / 2, k - 1) }

  function Pow2(k: nat): nat { if k == 0 then 1 else 2 * Pow2(k - 1) }

  lemma {:induction false} ValueBits(b: Bits, k: nat)
    requires k < |b|
    ensures BitAt(Value(b), k) == b[k]
  {
    assert Value(b) / 2 == Value(b[1..]) && Value(b) % 2 == (if b[0] then 1 else 0);
    if k > 0 {
      ValueBits(b[1..], k - 1);
    }
  }

  lemma {:induction false} ValueBound(b: Bits)
    ensures Value(b) < Pow2(|b|)
    ensures Value(b) == 0 <==> true !in b
  {
    if b != [] {
      ValueBound(b[1..]);
      assert b == [b[0]] + b[1..];
    }
  }

  // ---- sending one entry ----

  function SharedPrefix(a: seq<byte>, b: seq<byte>, limit: nat): (n: nat)
    ensures n <= limit && n <= |a| && n <= |b| && a[..n] == b[..n]
  {
    if limit == 0 || a == [] || b == [] || a[0] != b[0] then 0
    else
      var n := SharedPrefix(a[1..], b[1..], limit - 1);
      assert a[..n + 1] == [a[0]] + a[1..][..n] && b[..n + 1] == [b[0]] + b[1..][..n];
      1 + n
  }

  function PathOf(prev: Option<FileInfo>): seq<byte> { if prev.Some? then prev.value.Path() else [] }

  function SameLen(fi: FileInfo, prev: Option<FileInfo>): nat { SharedPrefix(fi.Path(), PathOf(prev), 255) }

  predicate Follower(fi: FileInfo) { fi.hlinked && !fi.hlinkFirst && fi.hardLinkFirstNdx >= 0 }

  predicate SendsRdev(c: Config, mode: u32) { FromMode(mode).Device? || (FromMode(mode).Special? && !c.proto31) }

  /** The flags before they are kept apart from the end-of-list marker. */
  function BaseFlags(c: Config, fi: FileInfo, prev: Option<FileInfo>): (b: Bits)
    ensures |b| == FLAG_BITS
  {
    [ fi.topDir && fi.IsDir(),
      prev.Some? && fi.mode == prev.value.mode,
      false,
      !c.uid || (prev.Some? && fi.uid == prev.value.uid),
      !c.gid || (prev.Some? && fi.gid == prev.value.gid),
      SameLen(fi, prev) > 0,
      |fi.Path()| - SameLen(fi, prev) > 255,
      !c.times || (prev.Some? && fi.modtime == prev.value.modtime),
      false,
      fi.hlinked,
      false,
      false,
      fi.hlinked && fi.hlinkFirst,
      fi.modNsec != 0 && c.proto31 ]
  }

  /** Whether any flag of the second byte is set. */
  predicate HighFlags(b: Bits)
    requires |b| == FLAG_BITS
  {
    b[8] || b[9] || b[10] || b[11] || b[12] || b[13]
  }

  /** Never all clear, which would end the list. */
  function KeptApart(c: Config, isDir: bool, b: Bits): (r: Bits)
    requires |b| == FLAG_BITS
    ensures |r| == FLAG_BITS
  {
    if c.varintFlags then
      if true !in b then b[XMIT_EXTENDED_FLAGS := true] else b
    else
      var b' := if true !in b && !isDir then b[XMIT_TOP_DIR := true] else b;
      if HighFlags(b') || true !in b' then b'[XMIT_EXTENDED_FLAGS := true] else b'
  }

  /** The flags as sent. */
  function SentFlags(c: Config, fi: FileInfo, prev: Option<FileInfo>): (b: Bits)
    ensures |b| == FLAG_BITS
  {
    KeptApart(c, fi.IsDir(), BaseFlags(c, fi, prev))
  }

  function FlagBytes(c: Config, b: Bits): seq<byte>
    requires |b| == FLAG_BITS
  {
    ValueBound(b);
    assert Pow2(FLAG_BITS) == 0x4000 by { Pow2Fourteen(); }
    if c.varintFlags then VarintBytes(Value(b))
    else if b[XMIT_EXTENDED_FLAGS] then ShortintBytes(Value(b))
    else [Value(b) % 0x100]
  }

  lemma Pow2Fourteen()
    ensures Pow2(14) == 0x4000
  {
    assert Pow2(7) == 128 * Pow2(0);
    assert Pow2(14) == 128 * Pow2(7);
  }

  /** The name: the length shared with the previous name, the length of the rest, the rest. */
  function NameBytes(fi: FileInfo, prev: Option<FileInfo>): seq<byte>
    requires |fi.Path()| < 0x8000_0000
  {
    var same := SameLen(fi, prev);
    var rest := fi.Path()[same..];
    (if same > 0 then [same] else []) + (LenBytes(|rest|) + rest)
  }

  function LenBytes(n: nat): seq<byte>
    requires n < 0x8000_0000
  {
    if n > 255 then VarintBytes(n) else [n]
  }

  function TimeBytes(b: Bits, fi: FileInfo): seq<byte>
    requires |b| == FLAG_BITS
  {
    VarlongBytes(fi.size, 3)
    + (if b[XMIT_SAME_TIME] then [] else VarlongBytes(fi.modtime, 4))
    + (if b[XMIT_MOD_NSEC] then VarintBytes(AsI32(fi.modNsec)) else [])
  }

  function OwnerBytes(c: Config, b: Bits, fi: FileInfo): seq<byte>
    requires |b| == FLAG_BITS
  {
    (if b[XMIT_SAME_MODE] then [] else IntBytes(AsI32(fi.mode)))
    + (if c.uid && !b[XMIT_SAME_UID] then VarintBytes(AsI32(fi.uid)) else [])
    + (if c.gid && !b[XMIT_SAME_GID] then VarintBytes(AsI32(fi.gid)) else [])
  }

  function Target(fi: FileInfo): seq<byte> { if fi.linkTarget.Some? then fi.linkTarget.value else [] }

  function RdevBytes(c: Config, fi: FileInfo): seq<byte> {
    if c.devices && SendsRdev(c, fi.mode) then VarintBytes(AsI32(fi.rdevMajor)) + VarintBytes(AsI32(fi.rdevMinor))
    else []
  }

  function TargetBytes(fi: FileInfo): seq<byte>
    requires |Target(fi)| < 0x8000_0000
  {
    if fi.Type().Symlink? then VarintBytes(|Target(fi)|) + Target(fi) else []
  }

  /** The checksum cut or padded with zeros to the agreed length. */
  function SumBytes(c: Config, fi: FileInfo): seq<byte> {
    if c.checksumLen > 0 && fi.IsRegular() then Fit(if fi.checksum.Some? then fi.checksum.value else [], c.checksumLen)
    else []
  }

  function MetaBytes(c: Config, b: Bits, fi: FileInfo): seq<byte>
    requires |b| == FLAG_BITS && |Target(fi)| < 0x8000_0000
  {
    TimeBytes(b, fi) + (OwnerBytes(c, b, fi) + (RdevBytes(c, fi) + (TargetBytes(fi) + SumBytes(c, fi))))
  }

  /** Lengths that fit the 32-bit length fields. */
  predicate Sendable(fi: FileInfo) { |fi.Path()| < 0x8000_0000 && |Target(fi)| < 0x8000_0000 }

  function EntryBytes(c: Config, fi: FileInfo, prev: Option<FileInfo>): seq<byte>
    requires Sendable(fi)
  {
    var b := SentFlags(c, fi, prev);
    FlagBytes(c, b)
    + (NameBytes(fi, prev) + if Follower(fi) then VarintBytes(fi.hardLinkFirstNdx) else MetaBytes(c, b, fi))
  }

  // ---- receiving one entry ----

  /** The next flag word, or 0 at the end of the list. */
  function ReadFlags(c: Config, s: seq<byte>): Read<nat> {
    if c.varintFlags then
      var (x, s1) :- ReadVarint(s);
      var u: nat := AsU32(x);
      Got(u, s1)
    else
      var (low, s1) :- ReadByte(s);
      if low == 0 then Got(0, s1)
      else if BitAt(low, XMIT_EXTENDED_FLAGS) then
        var (high, s2) :- ReadByte(s1);
        var x: int := low + 0x100 * high;
        if x == EndMarker() then
          var (_, s3) :- ReadVarint(s2);
          Got(0, s3)
        else Got(x, s2)
      else
        var x: int := low;
        Got(x, s1)
  }

  /** XMIT_EXTENDED_FLAGS | XMIT_IO_ERROR_ENDLIST */
  function EndMarker(): (x: nat)
    ensures x == 0x1004
  {
    assert Pow2(XMIT_EXTENDED_FLAGS) == 4 * Pow2(0);
    assert Pow2(XMIT_IO_ERROR_ENDLIST) == 64 * Pow2(6) && Pow2(6) == 64 * Pow2(0);
    Pow2(XMIT_EXTENDED_FLAGS) + Pow2(XMIT_IO_ERROR_ENDLIST)
  }

  function ReadName(x: nat, s: seq<byte>, prevName: seq<byte>): Read<seq<byte>> {
    var (same, s1) :- if BitAt(x, XMIT_SAME_NAME) then ReadByte(s) else Got(0, s);
    var (len, s2) :- ReadLen(BitAt(x, XMIT_LONG_NAME), s1);
    if len < 0 || same > |prevName| then Failed
    else
      var (rest, s3) :- ReadExact(s2, len);
      Got(prevName[..same] + rest, s3)
  }

  function ReadLen(long: bool, s: seq<byte>): Read<i32> {
    if long then ReadVarint(s)
    else
      var (b, rest) :- ReadByte(s);
      var n: int := b;
      Got(n, rest)
  }

  /** The position of the last slash, or -1. */
  function LastSlash(path: seq<byte>): (i: int)
    ensures -1 <= i < |path|
    ensures i >= 0 ==> path[i] == SLASH
    ensures forall k :: i < k < |path| ==> path[k] != SLASH
  {
    if path == [] then -1
    else if path[|path| - 1] == SLASH then |path| - 1
    else LastSlash(path[..|path| - 1])
  }

  datatype Times = Times(size: i64, modtime: i64, modNsec: u32)
  datatype Owner = Owner(mode: u32, uid: u32, gid: u32)

  function ReadTimes(x: nat, s: seq<byte>, prev: Option<FileInfo>): Read<Times> {
    var (size, s1) :- ReadVarlong(s, 3);
    var (modtime, s2) :-
      if BitAt(x, XMIT_SAME_TIME) then Got(if prev.Some? then prev.value.modtime else 0, s1) else ReadVarlong(s1, 4);
    var (nsec, s3) :- if BitAt(x, XMIT_MOD_NSEC) then ReadVarint(s2) else Got(0, s2);
    Got(Times(size, modtime, AsU32(nsec)), s3)
  }

  /** An id, then a name when the flag for one is set; the name is dropped. */
  function ReadId(named: bool, s: seq<byte>): Read<u32> {
    var (id, s1) :- ReadVarint(s);
    if !named then Got(AsU32(id), s1)
    else
      var (len, s2) :- ReadByte(s1);
      var (_, s3) :- ReadExact(s2, len);
      Got(AsU32(id), s3)
  }

  function ReadOwner(x: nat, s: seq<byte>, prev: Option<FileInfo>): Read<Owner> {
    var (mode, s1) :-
      if BitAt(x, XMIT_SAME_MODE) then Got(if prev.Some? then prev.value.mode else 0x81A4, s) else ReadMode(s);
    var (uid, s2) :-
      if BitAt(x, XMIT_SAME_UID) then Got(if prev.Some? then prev.value.uid else 0, s1)
      else ReadId(BitAt(x, XMIT_USER_NAME_FOLLOWS), s1);
    var (gid, s3) :-
      if BitAt(x, XMIT_SAME_GID) then Got(if prev.Some? then prev.value.gid else 0, s2)
      else ReadId(BitAt(x, XMIT_GROUP_NAME_FOLLOWS), s2);
    Got(Owner(mode, uid, gid), s3)
  }

  function ReadMode(s: seq<byte>): Read<u32> {
    var (m, rest) :- ReadInt(s);
    Got(AsU32(m), rest)
  }

  function ReadRdev(c: Config, mode: u32, s: seq<byte>, prev: Option<FileInfo>): Read<(u32, u32)> {
    if SendsRdev(c, mode) then
      var (major, s1) :- ReadVarint(s);
      var (minor, s2) :- ReadVarint(s1);
      Got((AsU32(major), AsU32(minor)), s2)
    else if prev.Some? then Got((prev.value.rdevMajor, prev.value.rdevMinor), s)
    else Got((0, 0), s)
  }

  function ReadTarget(mode: u32, s: seq<byte>): Read<Option<seq<byte>>> {
    if FromMode(mode).Symlink? then
      var (len, s1) :- ReadVarint(s);
      if len < 0 then Failed
      else
        var (t, s2) :- ReadExact(s1, len);
        Got(Some(t), s2)
    else Got(None, s)
  }

  function ReadSum(c: Config, mode: u32, s: seq<byte>): Read<Option<seq<byte>>> {
    if c.checksumLen > 0 && FromMode(mode).Regular? then
      var (sum, s1) :- ReadExact(s, c.checksumLen);
      Got(Some(sum), s1)
    else Got(None, s)
  }

  function DirOf(path: seq<byte>): Option<seq<byte>> {
    if LastSlash(path) >= 0 then Some(path[..LastSlash(path)]) else None
  }

  function BaseOf(path: seq<byte>): seq<byte> { path[LastSlash(path) + 1..] }

  /** A later member of a hard-link group: everything but its name comes from the first. */
  function ReadFollower(s: seq<byte>, path: seq<byte>, soFar: seq<FileInfo>): Read<FileInfo> {
    var (ndx, s1) :- ReadVarint(s);
    if 0 <= ndx < |soFar| then
      var first := soFar[ndx];
      Got(FileInfo(BaseOf(path), DirOf(path), first.modtime, first.modNsec, first.size, first.mode,
                   false, true, false, first.uid, first.gid, first.linkTarget, first.rdevMajor, first.rdevMinor,
                   ndx, None, 0, 0), s1)
    else Failed
  }

  function ReadMeta(c: Config, x: nat, s: seq<byte>, path: seq<byte>, prev: Option<FileInfo>): Read<FileInfo> {
    var (t, s1) :- ReadTimes(x, s, prev);
    var (o, s2) :- ReadOwner(x, s1, prev);
    var (rdev, s3) :- ReadRdev(c, o.mode, s2, prev);
    var (target, s4) :- ReadTarget(o.mode, s3);
    var (sum, s5) :- ReadSum(c, o.mode, s4);
    Got(FileInfo(BaseOf(path), DirOf(path), t.modtime, t.modNsec, t.size, o.mode, false, false, false,
                 o.uid, o.gid, target, rdev.0, rdev.1, -1, sum, 0, 0), s5)
  }

  function ReadEntry(c: Config, x: nat, s: seq<byte>, prev: Option<FileInfo>, soFar: seq<FileInfo>): Read<FileInfo> {
    var (path, s1) :- ReadName(x, s, PathOf(prev));
    if BitAt(x, XMIT_HLINKED) && !BitAt(x, XMIT_HLINK_FIRST) then ReadFollower(s1, path, soFar)
    else ReadMeta(c, x, s1, path, prev)
  }

  // ---- the whole list ----

  function EntriesBytes(c: Config, files: seq<FileInfo>, prev: Option<FileInfo>): seq<byte>
    requires forall i :: 0 <= i < |files| ==> Sendable(files[i])
  {
    if files == [] then [] else EntryBytes(c, files[0], prev) + EntriesBytes(c, files[1..], Some(files[0]))
  }

  function EndBytes(c: Config, ioError: i32): seq<byte> {
    (if c.varintFlags then VarintBytes(0) + VarintBytes(ioError)
     else if c.proto31 || ioError != 0 then ShortintBytes(EndMarker()) + VarintBytes(ioError)
     else [0])
    + IdsBytes(c)
  }

  /** The lists of user and group names, both empty. */
  function IdsBytes(c: Config): seq<byte> {
    if c.incRecurse then [] else (if c.uid then VarintBytes(0) else []) + (if c.gid then VarintBytes(0) else [])
  }

  /** Id and name pairs up to an id of zero. */
  function SkipIds(s: seq<byte>): Read<()>
    decreases |s|
  {
    var (id, s1) :- ReadVarint(s);
    if AsU32(id) == 0 then Got((), s1)
    else
      var (len, s2) :- ReadByte(s1);
      var (_, s3) :- ReadExact(s2, len);
      if |s3| < |s| then SkipIds(s3) else Failed
  }

  function ReadIds(c: Config, s: seq<byte>): Read<()> {
    if c.incRecurse then Got((), s)
    else
      var (_, s1) :- if c.uid then SkipIds(s) else Got((), s);
      if c.gid then SkipIds(s1) else Got((), s1)
  }

  /** What follows the end marker. */
  function ReadTrailer(c: Config, s: seq<byte>): Read<()> {
    var (_, s1) :- if c.varintFlags then ReadVarint(s) else Got(0, s);
    ReadIds(c, s1)
  }

  /** All entries up to the end marker, in wire order. */
  function ReadEntries(c: Config, s: seq<byte>, soFar: seq<FileInfo>): Read<seq<FileInfo>>
    decreases |s|
  {
    var prev := if soFar == [] then None else Some(soFar[|soFar| - 1]);
    var (x, s1) :- ReadFlags(c, s);
    if x == 0 then
      var (_, s2) :- ReadTrailer(c, s1);
      Got(soFar, s2)
    else
      var (fi, s2) :- ReadEntry(c, x, s1, prev, soFar);
      if |s2| < |s| then ReadEntries(c, s2, soFar + [fi]) else Failed
  }
}
