/** The bytes themselves: what each codec puts on the wire, byte by byte. A round trip alone holds for any format that
    both sides share; these are the formats that a peer expects. */
module WireForms {
  import opened Bytes
  import opened Layout
  import opened MatchBlocks
  import opened DeltaEngine
  import opened Varint
  import opened FileTypes
  import opened FileOrder
  import opened FileList
  import opened FileListProofs
  import T = Tokens
  import D = DeflateToken
  import X = Multiplex

  // ---- integers ----

  lemma LeStep(n: nat, width: nat)
    requires width > 0
    ensures LeBytes(n, width) == [n % 0x100] + LeBytes(n / 0x100, width - 1)
  {
  }

  lemma Quarters(n: nat)
    ensures n / 0x100 / 0x100 == n / 0x1_0000 && n / 0x1_0000 / 0x100 == n / 0x100_0000
    ensures n / 0x100_0000 / 0x100 == n / 0x1_0000_0000
  {
  }

  lemma FourBytes(u: u32)
    ensures LeBytes(u, 4) == [u % 0x100, u / 0x100 % 0x100, u / 0x1_0000 % 0x100, u / 0x100_0000]
  {
    Quarters(u);
    LeStep(u, 4);
    LeStep(u / 0x100, 3);
    LeStep(u / 0x1_0000, 2);
    LeStep(u / 0x100_0000, 1);
    assert LeBytes(u / 0x1_0000_0000, 0) == [];
    hide LeBytes;
  }

  /** A 32-bit integer is its two's complement, lowest byte first. */
  lemma IntForm(x: i32)
    ensures var u: nat := if x < 0 then x + 0x1_0000_0000 else x;
            IntBytes(x) == [u % 0x100, u / 0x100 % 0x100, u / 0x1_0000 % 0x100, u / 0x100_0000]
  {
    hide LeBytes;
    var u: u32 := if x < 0 then x + 0x1_0000_0000 else x;
    assert AsU32(x) == u;
    FourBytes(u);
  }

  lemma ShortintForm(x: nat)
    requires x < 0x1_0000
    ensures ShortintBytes(x) == [x % 0x100, x / 0x100]
  {
    assert LeBytes(x / 0x100, 1) == [x / 0x100];
  }

  // ---- numbers of variable length ----

  /** Any encoding with e extra bytes: the marker with e leading ones holds the top byte, the bytes below it follow. */
  lemma VarForm(x: seq<byte>, mb: nat)
    requires 1 <= mb <= |x| <= mb + 7
    ensures mb <= |VarBytes(x, mb)| <= |x| + 1
    ensures var e := |VarBytes(x, mb)| - mb;
            var top := if mb - 1 + e < |x| then x[mb - 1 + e] else 0;
            && 256 - Bit(8 - e) + top < 256
            && VarBytes(x, mb) == [(if e == 0 then 0 else 256 - Bit(8 - e)) + top] + x[..mb - 1 + e]
  {
    hide Bit;
    var cnt := Kept(x, mb, |x|);
    BitBound(7 + mb - cnt);
  }

  /** How many bytes a 32-bit number takes. */
  lemma VarintSize(x: i32)
    ensures var u: nat := if x < 0 then x + 0x1_0000_0000 else x;
            |VarintBytes(x)| == if u < 0x80 then 1 else if u < 0x4000 then 2 else if u < 0x20_0000 then 3
                                else if u < 0x1000_0000 then 4 else 5
  {
    hide VarBytes, LeBytes, Pow256, Bit, AsU32;
    Unsigned(x);
    VarForm(LeBytes(AsU32(x), 4), 1);
    VarintLength(x, 1);
    VarintLength(x, 2);
    VarintLength(x, 3);
    VarintLength(x, 4);
  }

  lemma Unsigned(x: i32)
    ensures AsU32(x) == if x < 0 then x + 0x1_0000_0000 else x
  {
  }

  /** A 32-bit number: seven bits in one byte, then 14, 21 and 28 bits in two, three and four, else a marker and all
      four. */
  lemma VarintForm(x: i32)
    ensures var u: nat := if x < 0 then x + 0x1_0000_0000 else x;
            var b0, b1, b2, b3 := u % 0x100, u / 0x100 % 0x100, u / 0x1_0000 % 0x100, u / 0x100_0000;
            VarintBytes(x) == if u < 0x80 then [u]
                              else if u < 0x4000 then [0x80 + b1, b0]
                              else if u < 0x20_0000 then [0xC0 + b2, b0, b1]
                              else if u < 0x1000_0000 then [0xE0 + b3, b0, b1, b2]
                              else [0xF0, b0, b1, b2, b3]
  {
    hide LeBytes, VarBytes, AsU32;
    Unsigned(x);
    FourBytes(AsU32(x));
    var b := LeBytes(AsU32(x), 4);
    VarForm(b, 1);
    VarintSize(x);
    assert b[..0] == [] && b[..1] == [b[0]] && b[..2] == [b[0], b[1]] && b[..3] == [b[0], b[1], b[2]] && b[..4] == b;
  }

  lemma LowBytes(u: nat)
    ensures var b := LeBytes(u, 8);
            && b[0] == u % 0x100 && b[1] == u / 0x100 % 0x100 && b[2] == u / 0x1_0000 % 0x100
            && b[3] == u / 0x100_0000 % 0x100 && b[4] == u / 0x1_0000_0000 % 0x100
  {
    hide LeBytes;
    Quarters(u);
    LeStep(u, 8);
    LeStep(u / 0x100, 7);
    LeStep(u / 0x1_0000, 6);
    LeStep(u / 0x100_0000, 5);
    LeStep(u / 0x1_0000_0000, 4);
  }

  lemma VarlongSize(x: i64, mb: nat, n: nat)
    requires 3 <= mb <= 4 && mb <= n <= mb + 2 && n <= 5 && x >= 0
    ensures |VarlongBytes(x, mb)| <= n <==>
            x < if mb == 3 then [0x80_0000, 0x4000_0000, 0x20_0000_0000][n - 3]
              else [0x8000_0000, 0x40_0000_0000][n - 4]
  {
    hide VarBytes, LeBytes, LeValue;
    assert AsU64(x) == x;
    Pow256Values();
    LeValueOfBytes(x, 8);
    VarLength(LeBytes(x, 8), mb, n);
  }

  /** A file length, at least three bytes: 23 bits in three, 30 bits in four, 37 bits in five. */
  lemma LengthForm(x: i64)
    requires 0 <= x < 0x20_0000_0000
    ensures var b0, b1, b2, b3 := x % 0x100, x / 0x100 % 0x100, x / 0x1_0000 % 0x100, x / 0x100_0000 % 0x100;
            VarlongBytes(x, 3) == if x < 0x80_0000 then [x / 0x1_0000, b0, b1]
                                  else if x < 0x4000_0000 then [0x80 + x / 0x100_0000, b0, b1, b2]
                                  else [0xC0 + x / 0x1_0000_0000, b0, b1, b2, b3]
  {
    hide LeBytes, VarBytes, Pow256;
    assert AsU64(x) == x;
    var b := LeBytes(x, 8);
    LowBytes(x);
    VarForm(b, 3);
    VarlongSize(x, 3, 3);
    VarlongSize(x, 3, 4);
    VarlongSize(x, 3, 5);
    assert b[..2] == [b[0], b[1]] && b[..3] == [b[0], b[1], b[2]] && b[..4] == [b[0], b[1], b[2], b[3]];
  }

  /** A time, at least four bytes: 31 bits in four, 38 bits in five. */
  lemma TimeForm(x: i64)
    requires 0 <= x < 0x40_0000_0000
    ensures var b0, b1, b2, b3 := x % 0x100, x / 0x100 % 0x100, x / 0x1_0000 % 0x100, x / 0x100_0000 % 0x100;
            VarlongBytes(x, 4) == if x < 0x8000_0000 then [b3, b0, b1, b2]
                                  else [0x80 + x / 0x1_0000_0000, b0, b1, b2, b3]
  {
    hide LeBytes, VarBytes, Pow256;
    assert AsU64(x) == x;
    var b := LeBytes(x, 8);
    LowBytes(x);
    VarForm(b, 4);
    VarlongSize(x, 4, 4);
    VarlongSize(x, 4, 5);
    assert b[..3] == [b[0], b[1], b[2]] && b[..4] == [b[0], b[1], b[2], b[3]];
  }

  // ---- one file's transfer ----

  /** A header is its four integers in this order; a checksum entry is the weak checksum and then the strong one. */
  lemma HeadForm(count: i32, blength: i32, s2length: i32, remainder: i32)
    ensures var w := HeadBytes(SumHead(count, blength, s2length, remainder));
            && |w| == 16
            && w[..4] == IntBytes(count) && w[4..8] == IntBytes(blength)
            && w[8..12] == IntBytes(s2length) && w[12..] == IntBytes(remainder)
  {
    hide IntBytes;
  }

  lemma SumsForm(e: SumBuf, rest: seq<SumBuf>)
    ensures var w, u := SumsBytes([e] + rest), e.sum1;
            w == [u % 0x100, u / 0x100 % 0x100, u / 0x1_0000 % 0x100, u / 0x100_0000] + e.sum2 + SumsBytes(rest)
  {
    hide LeBytes;
    assert ([e] + rest)[1..] == rest;
    assert AsU32(AsI32(e.sum1)) == e.sum1;
    FourBytes(e.sum1);
  }

  /** The header for a basis of a million bytes: 1429 blocks of 700 bytes, the last of 400. */
  lemma MillionBytes()
    ensures HeadBytes(MakeSumHead(1_000_000, 16)) == [0x95, 5, 0, 0, 0xBC, 2, 0, 0, 16, 0, 0, 0, 0x90, 1, 0, 0]
  {
    hide IntBytes;
    assert MakeSumHead(1_000_000, 16) == SumHead(1429, 700, 16, 400);
    IntForm(1429);
    IntForm(700);
    IntForm(16);
    IntForm(400);
  }

  /** Without a basis all numbers are zero but the checksum length. */
  lemma NoBasisForm(s2length: byte)
    ensures HeadBytes(NoBasisHead(s2length)) == [0, 0, 0, 0, 0, 0, 0, 0, s2length, 0, 0, 0, 0, 0, 0, 0]
  {
    hide IntBytes;
    IntForm(0);
    IntForm(s2length);
  }

  /** A literal is its length and its bytes, a block reference the negative of its index less one, the end a zero. */
  lemma TokenForm(data: seq<byte>, idx: i32)
    ensures 0 < |data| < 0x8000_0000 ==>
              var n := |data|;
              T.TokenBytes(T.Literal(data))
              == [n % 0x100, n / 0x100 % 0x100, n / 0x1_0000 % 0x100, n / 0x100_0000] + data
    ensures idx >= 0 ==>
              T.TokenBytes(T.BlockMatch(idx))
              == [255 - idx % 0x100, 255 - idx / 0x100 % 0x100, 255 - idx / 0x1_0000 % 0x100, 255 - idx / 0x100_0000]
    ensures T.EofBytes() == [0, 0, 0, 0]
  {
    hide IntBytes;
    if 0 < |data| < 0x8000_0000 {
      IntForm(|data|);
    }
    if idx >= 0 {
      IntForm(-(idx + 1));
      Complement(idx);
    }
    IntForm(0);
  }

  lemma Complement(x: nat)
    requires x < 0x8000_0000
    ensures var u := 0xFFFF_FFFF - x;
            && u % 0x100 == 255 - x % 0x100 && u / 0x100 % 0x100 == 255 - x / 0x100 % 0x100
            && u / 0x1_0000 % 0x100 == 255 - x / 0x1_0000 % 0x100 && u / 0x100_0000 == 255 - x / 0x100_0000
  {
    Mirror(x, 0x100, 0x100_0000);
    Mirror(x, 0x1_0000, 0x1_0000);
    Mirror(x, 0x100_0000, 0x100);
    LowMirror(x, 0x100_0000);
    LowMirror(x / 0x100, 0x1_0000);
    LowMirror(x / 0x1_0000, 0x100);
  }

  lemma LowMirror(y: nat, m: nat)
    requires y < 256 * m
    ensures (256 * m - 1 - y) % 256 == 255 - y % 256
  {
    QuotientUnique(256 * m - 1 - y, 256, m - 1 - y / 256, 255 - y % 256);
  }

  /** Dividing the complement is the complement of dividing. */
  lemma Mirror(x: nat, d: nat, k: nat)
    requires x < 0x1_0000_0000 && d > 0 && d * k == 0x1_0000_0000
    ensures (0xFFFF_FFFF - x) / d == k - 1 - x / d
  {
    var q, r := x / d, x % d;
    assert x == q * d + r;
    assert (k - 1 - q) * d == k * d - d - q * d;
    QuotientUnique(0xFFFF_FFFF - x, d, k - 1 - q, d - 1 - r);
  }

  // ---- the file list ----

  /** The flag word of an entry as a number, before it is kept apart from the end of the list. */
  function FlagNumber(c: Config, fi: FileInfo, prev: Option<FileInfo>): nat {
    var known := prev.Some?;
    (if fi.topDir && fi.IsDir() then 0x0001 else 0)
    + (if known && fi.mode == prev.value.mode then 0x0002 else 0)
    + (if !c.uid || (known && fi.uid == prev.value.uid) then 0x0008 else 0)
    + (if !c.gid || (known && fi.gid == prev.value.gid) then 0x0010 else 0)
    + (if SameLen(fi, prev) > 0 then 0x0020 else 0)
    + (if |fi.Path()| - SameLen(fi, prev) > 255 then 0x0040 else 0)
    + (if !c.times || (known && fi.modtime == prev.value.modtime) then 0x0080 else 0)
    + (if fi.hlinked then 0x0200 else 0)
    + (if fi.hlinked && fi.hlinkFirst then 0x1000 else 0)
    + (if fi.modNsec != 0 && c.proto31 then 0x2000 else 0)
  }

  function Weight(b: bool, w: nat): nat { if b then w else 0 }

  /** Four bits at a time. */
  function Nibble(b: Bits): nat
    requires |b| == 4
  {
    Weight(b[0], 1) + Weight(b[1], 2) + Weight(b[2], 4) + Weight(b[3], 8)
  }

  lemma WordNumber(b: Bits)
    requires |b| == FLAG_BITS
    ensures Value(b) == Weight(b[0], 0x0001) + Weight(b[1], 0x0002) + Weight(b[2], 0x0004) + Weight(b[3], 0x0008)
                        + Weight(b[4], 0x0010) + Weight(b[5], 0x0020) + Weight(b[6], 0x0040) + Weight(b[7], 0x0080)
                        + Weight(b[8], 0x0100) + Weight(b[9], 0x0200) + Weight(b[10], 0x0400) + Weight(b[11], 0x0800)
                        + Weight(b[12], 0x1000) + Weight(b[13], 0x2000)
  {
    hide Value, Nibble, Weight;
    ValueOfFour(b);
    ValueOfFour(b[4..]);
    ValueOfFour(b[8..]);
    ValueOfTwo(b[12..]);
    assert b[4..][4..] == b[8..] && b[8..][4..] == b[12..] && b[0..] == b;
    NibbleAt(b, 0, 1);
    NibbleAt(b, 4, 16);
    NibbleAt(b, 8, 256);
    assert b[12..][0] == b[12] && b[12..][1] == b[13];
  }

  lemma NibbleAt(b: Bits, k: nat, m: nat)
    requires k + 4 <= |b| && (m == 1 || m == 16 || m == 256)
    ensures m * Nibble(b[k..][..4])
            == Weight(b[k], m) + Weight(b[k + 1], 2 * m) + Weight(b[k + 2], 4 * m) + Weight(b[k + 3], 8 * m)
  {
    if m == 1 {} else if m == 16 {} else {}
  }

  lemma ValueOfFour(b: Bits)
    requires |b| >= 4
    ensures Value(b) == Nibble(b[..4]) + 16 * Value(b[4..])
  {
    hide Value;
    ValueStep(b);
    ValueStep(b[1..]);
    ValueStep(b[2..]);
    ValueStep(b[3..]);
    assert b[1..][1..] == b[2..] && b[2..][1..] == b[3..] && b[3..][1..] == b[4..];
  }

  lemma ValueOfTwo(b: Bits)
    requires |b| == 2
    ensures 0x1000 * Value(b) == Weight(b[0], 0x1000) + Weight(b[1], 0x2000)
  {
    ValueStep(b);
    ValueStep(b[1..]);
    assert b[1..][1..] == [];
  }

  lemma ValueStep(b: Bits)
    requires b != []
    ensures Value(b) == Weight(b[0], 1) + 2 * Value(b[1..])
  {
  }

  lemma BaseNumber(c: Config, fi: FileInfo, prev: Option<FileInfo>)
    ensures Value(BaseFlags(c, fi, prev)) == FlagNumber(c, fi, prev)
  {
    hide Value, SameLen, FileInfo.IsDir, FileInfo.Path;
    WordNumber(BaseFlags(c, fi, prev));
  }

  lemma HighNumber(b: Bits)
    requires |b| == FLAG_BITS
    ensures HighFlags(b) <==> Value(b) >= 0x100
    ensures true in b <==> Value(b) != 0
    ensures Value(b) < 0x4000
    ensures !b[0] ==> Value(b[0 := true]) == Value(b) + 1
    ensures !b[2] ==> Value(b[2 := true]) == Value(b) + 4
  {
    hide Value;
    WordNumber(b);
    WordNumber(b[0 := true]);
    WordNumber(b[2 := true]);
    assert true in b <==> Value(b) != 0 by { ValueBound(b); }
  }

  /** What is sent for a flag word that is v as a number. */
  lemma KeptNumber(c: Config, isDir: bool, b: Bits)
    requires |b| == FLAG_BITS && !b[XMIT_EXTENDED_FLAGS]
    ensures var v, r := Value(b), KeptApart(c, isDir, b);
            var t := if v == 0 && !isDir then 1 else v;
            && (c.varintFlags ==> Value(r) == if v == 0 then 4 else v)
            && (!c.varintFlags ==> (r[XMIT_EXTENDED_FLAGS] <==> t == 0 || t >= 0x100))
            && (!c.varintFlags ==> Value(r) == if t == 0 || t >= 0x100 then t + 4 else t)
  {
    hide Value, HighFlags;
    HighNumber(b);
    HighNumber(b[XMIT_TOP_DIR := true]);
    assert true !in b ==> !b[0];
    assert b[XMIT_TOP_DIR := true][0];
  }

  /** The bytes of a flag word in all three forms. A word of zero would end the list: as a varint it becomes 4, as a
      byte 1, and for a directory it takes the two-byte form. */
  lemma FlagForm(c: Config, fi: FileInfo, prev: Option<FileInfo>)
    ensures var v := FlagNumber(c, fi, prev);
            var t := if v == 0 && !fi.IsDir() then 0x0001 else v;
            && v < 0x1_0000 - 4
            && FlagBytes(c, SentFlags(c, fi, prev))
               == if c.varintFlags then VarintBytes(if v == 0 then 0x0004 else v)
                  else if t == 0 || t >= 0x100 then ShortintBytes(t + 0x0004)
                  else [t]
  {
    hide VarintBytes, ShortintBytes, Value, FlagNumber, KeptApart, SameLen, FileInfo.IsDir, FileInfo.Path;
    BaseNumber(c, fi, prev);
    HighNumber(BaseFlags(c, fi, prev));
    KeptNumber(c, fi.IsDir(), BaseFlags(c, fi, prev));
  }

  /** The shared prefix is the longest of at most 255 bytes. */
  lemma {:induction false} SharedIsLongest(a: seq<byte>, b: seq<byte>, limit: nat)
    ensures var n := SharedPrefix(a, b, limit); n == limit || n == |a| || n == |b| || a[n] != b[n]
    decreases limit
  {
    if limit > 0 && a != [] && b != [] && a[0] == b[0] {
      SharedIsLongest(a[1..], b[1..], limit - 1);
    }
  }

  /** The bytes of a first entry: a plain file of one's own, with everything preserved. */
  lemma FirstFile(c: Config, fi: FileInfo)
    requires c.uid && c.gid && c.times && !c.varintFlags && c.checksumLen == 0
    requires fi.dirname == None && 0 < |fi.name| < 256 && fi.linkTarget == None && !fi.hlinked && fi.modNsec == 0
    requires fi.mode == 0x81A4 && fi.uid < 0x80 && fi.gid < 0x80
    requires 0 <= fi.size < 0x80_0000 && 0 <= fi.modtime < 0x8000_0000
    ensures Sendable(fi)
    ensures FileList.EntryBytes(c, fi, None)
            == [1, |fi.name|] + fi.name
               + ([fi.size / 0x1_0000, fi.size % 0x100, fi.size / 0x100 % 0x100]
                  + [fi.modtime / 0x100_0000, fi.modtime % 0x100, fi.modtime / 0x100 % 0x100,
                    fi.modtime / 0x1_0000 % 0x100]
                  + [0xA4, 0x81, 0, 0] + [fi.uid, fi.gid])
  {
    var b := SentFlags(c, fi, None);
    FirstName(fi);
    FirstFlags(c, fi);
    FirstMeta(c, fi, b);
    hide MetaBytes, FlagBytes, SentFlags, FileInfo.Path, NameBytes, Sendable;
    Parts(c, fi);
    InFront(|fi.name|, fi.name, MetaBytes(c, b, fi));
  }

  lemma Parts(c: Config, fi: FileInfo)
    requires |fi.Path()| < 256 && fi.linkTarget == None && !fi.hlinked
    ensures Sendable(fi)
    ensures FileList.EntryBytes(c, fi, None)
            == FlagBytes(c, SentFlags(c, fi, None)) + (NameBytes(fi, None) + MetaBytes(c, SentFlags(c, fi, None), fi))
  {
    hide MetaBytes, FlagBytes, SentFlags, FileInfo.Path, NameBytes;
  }

  lemma InFront(len: byte, name: seq<byte>, meta: seq<byte>)
    ensures [1] + (([len] + name) + meta) == [1, len] + name + meta
  {
  }

  lemma FirstName(fi: FileInfo)
    requires fi.dirname == None && |fi.name| < 256
    ensures |fi.Path()| < 256 && NameBytes(fi, None) == [|fi.name|] + fi.name
  {
    assert SameLen(fi, None) == 0;
    assert fi.Path()[0..] == fi.name;
  }

  lemma FirstFlags(c: Config, fi: FileInfo)
    requires c.uid && c.gid && c.times && !c.varintFlags && fi.mode == 0x81A4
    requires |fi.Path()| < 256 && !fi.hlinked && fi.modNsec == 0
    ensures FlagBytes(c, SentFlags(c, fi, None)) == [1]
    ensures var b := SentFlags(c, fi, None);
            !b[XMIT_SAME_TIME] && !b[XMIT_MOD_NSEC] && !b[XMIT_SAME_MODE] && !b[XMIT_SAME_UID] && !b[XMIT_SAME_GID]
  {
    hide FlagBytes, SentFlags, FileInfo.Path;
    assert SameLen(fi, None) == 0;
    assert !fi.IsDir();
    FlagForm(c, fi, None);
    SentFlagsFacts(c, fi, None);
  }

  lemma FirstMeta(c: Config, fi: FileInfo, b: Bits)
    requires c.uid && c.gid && c.checksumLen == 0 && fi.mode == 0x81A4 && fi.linkTarget == None
    requires 0 <= fi.size < 0x80_0000 && 0 <= fi.modtime < 0x8000_0000 && fi.uid < 0x80 && fi.gid < 0x80
    requires |b| == FLAG_BITS && !b[XMIT_SAME_TIME] && !b[XMIT_MOD_NSEC] && !b[XMIT_SAME_MODE]
    requires !b[XMIT_SAME_UID] && !b[XMIT_SAME_GID]
    ensures MetaBytes(c, b, fi)
            == [fi.size / 0x1_0000, fi.size % 0x100, fi.size / 0x100 % 0x100]
               + [fi.modtime / 0x100_0000, fi.modtime % 0x100, fi.modtime / 0x100 % 0x100,
                 fi.modtime / 0x1_0000 % 0x100]
               + [0xA4, 0x81, 0, 0] + [fi.uid, fi.gid]
  {
    FirstTimes(fi, b);
    FirstOwner(c, fi, b);
    NothingMore(c, fi);
    hide TimeBytes, OwnerBytes, RdevBytes, TargetBytes, SumBytes;
    assert MetaBytes(c, b, fi) == TimeBytes(b, fi) + OwnerBytes(c, b, fi);
  }

  lemma FirstTimes(fi: FileInfo, b: Bits)
    requires |b| == FLAG_BITS && !b[XMIT_SAME_TIME] && !b[XMIT_MOD_NSEC]
    requires 0 <= fi.size < 0x80_0000 && 0 <= fi.modtime < 0x8000_0000
    ensures TimeBytes(b, fi)
            == [fi.size / 0x1_0000, fi.size % 0x100, fi.size / 0x100 % 0x100]
               + [fi.modtime / 0x100_0000, fi.modtime % 0x100, fi.modtime / 0x100 % 0x100,
                 fi.modtime / 0x1_0000 % 0x100]
  {
    hide VarlongBytes;
    LengthForm(fi.size);
    TimeForm(fi.modtime);
  }

  lemma FirstOwner(c: Config, fi: FileInfo, b: Bits)
    requires c.uid && c.gid && fi.mode == 0x81A4 && fi.uid < 0x80 && fi.gid < 0x80
    requires |b| == FLAG_BITS && !b[XMIT_SAME_MODE] && !b[XMIT_SAME_UID] && !b[XMIT_SAME_GID]
    ensures OwnerBytes(c, b, fi) == [0xA4, 0x81, 0, 0] + [fi.uid, fi.gid]
  {
    hide VarintBytes, IntBytes;
    IntForm(0x81A4);
    VarintForm(fi.uid);
    VarintForm(fi.gid);
  }

  lemma NothingMore(c: Config, fi: FileInfo)
    requires c.checksumLen == 0 && fi.mode == 0x81A4 && fi.linkTarget == None
    ensures RdevBytes(c, fi) == [] && |Target(fi)| == 0 && TargetBytes(fi) == [] && SumBytes(c, fi) == []
  {
    assert fi.Type() == Regular;
  }

  lemma LaterName(fi: FileInfo, prev: Option<FileInfo>)
    ensures var same := SameLen(fi, prev);
            0 < same && |fi.Path()| <= same + 255 ==>
              NameBytes(fi, prev) == [same, |fi.Path()| - same] + fi.Path()[same..]
  {
    hide SharedPrefix, FileInfo.Path;
    var same := SameLen(fi, prev);
    if 0 < same && |fi.Path()| <= same + 255 {
      var rest := fi.Path()[same..];
      assert NameBytes(fi, prev) == [same] + ([|rest|] + rest);
    }
  }

  /** What other entries hold: the rest of a name behind the length shared with the one before, the numbers of a device,
      the target of a link, the checksum. */
  lemma OtherParts(c: Config, fi: FileInfo, prev: Option<FileInfo>)
    ensures var same := SameLen(fi, prev);
            0 < same && |fi.Path()| <= same + 255 ==>
              NameBytes(fi, prev) == [same, |fi.Path()| - same] + fi.Path()[same..]
    ensures var sends := FromMode(fi.mode).Device? || (FromMode(fi.mode).Special? && !c.proto31);
            fi.rdevMajor < 0x80 && fi.rdevMinor < 0x80 ==>
              RdevBytes(c, fi) == if c.devices && sends then [fi.rdevMajor, fi.rdevMinor] else []
    ensures |Target(fi)| < 0x80 ==> TargetBytes(fi) == if fi.Type().Symlink? then [|Target(fi)|] + Target(fi) else []
    ensures fi.checksum.Some? && |fi.checksum.value| == c.checksumLen ==>
              SumBytes(c, fi) == if fi.IsRegular() then fi.checksum.value else []
    ensures fi.checksum == None ==> SumBytes(c, fi) == if fi.IsRegular() then seq(c.checksumLen, i => 0) else []
  {
    hide VarintBytes, SameLen, NameBytes, FileInfo.Path;
    LaterName(fi, prev);
    if fi.rdevMajor < 0x80 {
      VarintForm(fi.rdevMajor);
    }
    if fi.rdevMinor < 0x80 {
      VarintForm(fi.rdevMinor);
    }
    if |Target(fi)| < 0x80 {
      VarintForm(|Target(fi)|);
    }
  }

  /** A later name of a hard-linked file is its flags, its name and the index of the first name. */
  lemma FollowerForm(c: Config, fi: FileInfo, prev: Option<FileInfo>)
    requires Sendable(fi) && fi.hlinked && !fi.hlinkFirst && 0 <= fi.hardLinkFirstNdx < 0x80
    ensures FileList.EntryBytes(c, fi, prev)
            == FlagBytes(c, SentFlags(c, fi, prev)) + NameBytes(fi, prev) + [fi.hardLinkFirstNdx]
  {
    hide VarintBytes, FlagBytes, SentFlags, NameBytes, Sendable;
    VarintForm(fi.hardLinkFirstNdx);
  }

  /** Names of owners, which this sender never writes, are read over: 0x0400 announces one behind the user id, 0x0800
      one behind the group id. */
  lemma NamesAreDropped(x: nat, s: seq<byte>, uid: i32, gid: i32, mode: i32, name: seq<byte>, rest: seq<byte>,
                        prev: Option<FileInfo>)
    requires |name| < 256 && uid >= 0 && gid >= 0 && mode >= 0
    requires || (x == 0x0400
                 && s == IntBytes(mode) + (VarintBytes(uid) + ([|name|] + name + (VarintBytes(gid) + rest))))
             || (x == 0x0800
                 && s == IntBytes(mode) + (VarintBytes(uid) + (VarintBytes(gid) + ([|name|] + name + rest))))
    ensures ReadOwner(x, s, prev) == Got(Owner(mode, uid, gid), rest)
  {
    hide ReadInt, ReadVarint, IntBytes, VarintBytes, ReadId, BitAt;
    NameBits();
    var named := VarintBytes(gid) + rest;
    IntRoundTrip(mode, VarintBytes(uid) + ([|name|] + name + named));
    IntRoundTrip(mode, VarintBytes(uid) + (VarintBytes(gid) + ([|name|] + name + rest)));
    IdWithName(uid, name, named);
    IdAlone(gid, rest);
    IdAlone(uid, VarintBytes(gid) + ([|name|] + name + rest));
    IdWithName(gid, name, rest);
  }

  lemma NameBits()
    ensures forall k :: k in {1, 3, 4, 11} ==> !BitAt(0x0400, k)
    ensures forall k :: k in {1, 3, 4, 10} ==> !BitAt(0x0800, k)
    ensures BitAt(0x0400, 10) && BitAt(0x0800, 11)
  {
  }

  lemma IdAlone(id: i32, rest: seq<byte>)
    requires id >= 0
    ensures ReadId(false, VarintBytes(id) + rest) == Got(id, rest)
  {
    hide ReadVarint, VarintBytes;
    VarintRoundTrip(id, rest);
  }

  lemma IdWithName(id: i32, name: seq<byte>, rest: seq<byte>)
    requires |name| < 256 && id >= 0
    ensures ReadId(true, VarintBytes(id) + ([|name|] + name + rest)) == Got(id, rest)
  {
    hide ReadVarint, VarintBytes;
    VarintRoundTrip(id, [|name|] + name + rest);
    assert ([|name|] + name + rest)[1..] == name + rest;
    ReadExactPrefix(name, rest);
  }

  /** An entry without device numbers of its own is given those of the entry before, as they stand in the reader. */
  lemma DeviceNumbersLinger(c: Config, x: nat, s: seq<byte>, path: seq<byte>, prev: Option<FileInfo>)
    requires ReadMeta(c, x, s, path, prev).Got?
    ensures var fi := ReadMeta(c, x, s, path, prev).value;
            var sends := FromMode(fi.mode).Device? || (FromMode(fi.mode).Special? && !c.proto31);
            !sends ==> fi.rdevMajor == (if prev.Some? then prev.value.rdevMajor else 0)
                       && fi.rdevMinor == (if prev.Some? then prev.value.rdevMinor else 0)
  {
    hide ReadTimes, ReadOwner, ReadTarget, ReadSum, ReadVarint, LastSlash;
  }

  /** The end of the list: a zero flag word with the error number, or the marker with it, or just a zero byte; then an
      empty list of names for each kind of id that is preserved. */
  lemma EndForm(c: Config, ioError: i32)
    requires 0 <= ioError < 0x80
    ensures EndBytes(c, ioError)
            == (if c.varintFlags then [0, ioError] else if c.proto31 || ioError != 0 then [4, 0x10, ioError] else [0])
               + (if c.uid && !c.incRecurse then [0] else []) + (if c.gid && !c.incRecurse then [0] else [])
  {
    hide VarintBytes, ShortintBytes;
    VarintForm(0);
    VarintForm(ioError);
    ShortintForm(0x1004);
  }

  // ---- compressed tokens and frames ----

  /** A run of n + 1 blocks from `start` on, at most 63 behind the end of the run before or anywhere. */
  lemma RunForm(start: nat, n: nat, before: nat)
    requires n < 0x1_0000 && start + n <= D.MAX_INDEX && before <= D.MAX_INDEX
    ensures var r := D.Run(start + n, start, before, true);
            var rel := start - before;
            var count := [n % 0x100, n / 0x100];
            var index := [start % 0x100, start / 0x100 % 0x100, start / 0x1_0000 % 0x100, start / 0x100_0000];
            D.RunBytes(r) == if 0 <= rel <= 63 then (if n == 0 then [0x80 + rel] else [0xC0 + rel] + count)
                             else (if n == 0 then [0x20] + index else [0x21] + index + count)
  {
    hide IntBytes, ShortintBytes;
    IntForm(start);
    ShortintForm(n);
  }

  /** A single block, and nothing at all. */
  lemma SmallStreams(idx: nat)
    requires idx <= 63
    ensures D.Indexed([D.Token(idx)]) && D.Wire([D.Token(idx)]) == [0x80 + idx, 0]
    ensures D.Indexed([]) && D.Wire([]) == [0]
  {
    hide D.RunBytes;
    RunForm(idx, 0, 0);
    assert D.Indexed([D.Token(idx)]) by { assert [D.Token(idx)][0] == D.Token(idx); }
    D.WireOne(D.FRESH, [D.Token(idx)]);
    D.WireEnd(D.Run(idx, idx, 0, true));
    D.WireEnd(D.FRESH);
  }

  /** Consecutive blocks, up to 65536 of them, are one run; the block after 65536 of them starts the next. */
  lemma ConsecutiveBlocks(start: nat, n: nat)
    requires n < 0x1_0000 && start + n <= D.MAX_INDEX
    ensures D.Indexed(D.Tokens(start, start + n))
    ensures D.Wire(D.Tokens(start, start + n)) == D.RunBytes(D.Run(start + n, start, 0, true)) + [0]
    ensures var r := D.Run(start + 0xFFFF, start, 0, true);
            n == 0xFFFF ==> D.StepBytes(r, D.Token(start + 0x1_0000)) == D.RunBytes(r)
  {
    hide D.RunBytes, D.WireFrom, D.Step, D.StepBytes;
    var first, more := D.Token(start), D.Tokens(start + 1, start + n);
    RunGoesOn(start, start, start + n);
    assert D.Tokens(start, start + n) == [first] + more;
    OneIndexed(start);
    D.WireStep(D.FRESH, first, more);
    StartsRun(start);
    if n == 0xFFFF {
      RunBreaks(start);
    }
  }

  lemma OneIndexed(t: nat)
    requires t <= D.MAX_INDEX
    ensures D.Indexed([D.Token(t)])
  {
  }

  lemma StartsRun(t: nat)
    requires t <= D.MAX_INDEX && D.Indexed([D.Token(t)])
    ensures D.StepBytes(D.FRESH, D.Token(t)) == [] && D.Step(D.FRESH, D.Token(t)) == D.Run(t, t, 0, true)
  {
    hide D.RunBytes;
  }

  lemma RunBreaks(start: nat)
    requires start + 0xFFFF <= D.MAX_INDEX
    ensures var r := D.Run(start + 0xFFFF, start, 0, true);
            D.StepBytes(r, D.Token(start + 0x1_0000)) == D.RunBytes(r)
  {
    hide D.RunBytes;
  }

  lemma {:induction false} RunGoesOn(start: nat, k: nat, last: nat)
    requires start <= k <= last < start + 0x1_0000 && last <= D.MAX_INDEX
    ensures D.Indexed(D.Tokens(k + 1, last))
    ensures D.WireFrom(D.Run(k, start, 0, true), D.Tokens(k + 1, last))
            == D.RunBytes(D.Run(last, start, 0, true)) + [0]
    decreases last - k
  {
    hide D.RunBytes, D.WireFrom;
    var r := D.Run(k, start, 0, true);
    if k == last {
      assert D.Tokens(k + 1, last) == [];
      D.WireEnd(r);
    } else {
      RunGoesOn(start, k + 1, last);
      var more := D.Tokens(k + 2, last);
      assert D.Tokens(k + 1, last) == [D.Token(k + 1)] + more;
      OneIndexed(k + 1);
      D.WireStep(r, D.Token(k + 1), more);
      Continued(start, k);
    }
  }

  lemma Continued(start: nat, k: nat)
    requires start <= k && k + 1 < start + 0x1_0000 && k + 1 <= D.MAX_INDEX && D.Indexed([D.Token(k + 1)])
    ensures var r := D.Run(k, start, 0, true);
            D.StepBytes(r, D.Token(k + 1)) == [] && D.Step(r, D.Token(k + 1)) == D.Run(k + 1, start, 0, true)
  {
    hide D.RunBytes;
  }

  /** Compressed bytes go out in frames of at most 16383, each behind its length with the higher byte first. */
  lemma ShortFrame(p: seq<byte>, high: nat, low: byte)
    requires 0 < |p| <= 16383 && |p| == 0x100 * high + low
    ensures D.Frames(p) == [0x40 + high, low] + p
  {
    hide D.Frames, D.FrameHead, D.FrameLen;
    LastFrame(|p|, high, low);
    WholeFrame(p);
  }

  lemma WholeFrame(p: seq<byte>)
    requires p != [] && D.FrameLen(|p|) == |p|
    ensures D.Frames(p) == D.FrameHead(|p|) + p
  {
    hide D.Frames, D.FrameHead, D.FrameLen;
    D.FramesUnfold(p);
    D.FramesNone();
    TakeAll(p);
    assert D.FrameHead(|p|) + p + [] == D.FrameHead(|p|) + p;
  }

  lemma TakeAll(p: seq<byte>)
    ensures p[..|p|] == p && p[|p|..] == []
  {
  }

  lemma LastFrame(left: nat, high: nat, low: byte)
    requires 0 < left <= 16383 && left == 0x100 * high + low
    ensures D.FrameLen(left) == left && D.FrameHead(left) == [0x40 + high, low]
  {
  }

  lemma LongFrame(p: seq<byte>)
    requires |p| > 16383
    ensures D.Frames(p) == [0x7F, 0xFF] + p[..16383] + D.Frames(p[16383..])
  {
    hide D.Frames, D.FrameHead, D.FrameLen;
    D.FramesUnfold(p);
    FullFrame(|p|);
  }

  lemma FullFrame(left: nat)
    requires left > 16383
    ensures D.FrameLen(left) == 16383 && D.FrameHead(16383) == [0x7F, 0xFF]
  {
  }

  /** A frame is its length in three bytes, its header byte, its payload; data has the header byte 7, and a message of
      code k the header byte 7 + k. */
  lemma FrameForm(head: byte, payload: seq<byte>)
    requires |payload| <= 0xFF_FFFF
    ensures var n := |payload|;
            X.FrameBytes(X.Frame(head, payload)) == [n % 0x100, n / 0x100 % 0x100, n / 0x1_0000, head] + payload
    ensures X.DATA == 7
  {
    hide LeBytes;
    var u: u32 := head * 0x100_0000 + |payload|;
    FourBytes(u);
    HeaderDigits(head, |payload|);
  }

  /** The header bytes of the messages a reader knows and skips; everything behind any other is data. */
  lemma SkippedHeaders(head: byte, payload: seq<byte>, rest: seq<byte>)
    requires |payload| <= 0xFF_FFFF
    ensures X.Demux(X.FrameBytes(X.Frame(head, payload)) + rest, 0)
            == (if 8 <= head <= 17 || head in {29, 40, 49, 93, 107, 108, 109} then [] else payload) + X.Demux(rest, 0)
  {
    hide X.Demux, X.FrameBytes;
    X.DemuxFrame(X.Frame(head, payload), rest);
  }

  lemma HeaderDigits(head: byte, n: nat)
    requires n <= 0xFF_FFFF
    ensures var u := head * 0x100_0000 + n;
            && u % 0x100 == n % 0x100 && u / 0x100 % 0x100 == n / 0x100 % 0x100
            && u / 0x1_0000 % 0x100 == n / 0x1_0000 && u / 0x100_0000 == head
  {
    var u := head * 0x100_0000 + n;
    Digits(head * 0x1_0000, n, 0x100);
    Digits(head * 0x100, n, 0x1_0000);
    Digits(head, n, 0x100_0000);
    Digits(head * 0x100, n / 0x100, 0x100);
    Digits(head, n / 0x1_0000, 0x100);
  }

  /** A multiple of m in front changes the quotient by it, and not the remainder. */
  lemma Digits(k: nat, n: nat, m: nat)
    requires m > 0
    ensures (k * m + n) / m == k + n / m && (k * m + n) % m == n % m
  {
    assert k * m + n == (k + n / m) * m + n % m;
    QuotientUnique(k * m + n, m, k + n / m, n % m);
  }
}
