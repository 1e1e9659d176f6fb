/** Sending and receiving a whole file list, and what index i means at the two ends (flist/send.rs, flist/recv.rs). */
module FileExchange {
  import opened Bytes
  import opened Varint
  import opened FileTypes
  import opened FileOrder
  import opened FileSort
  import opened FileList
  import opened FileListProofs
  import opened HardLinks
  import G = DeviceGate

  // ---- the sender ----

  /** The word with the given bits set. */
  function Word(bits: set<nat>): (b: Bits)
    ensures |b| == FLAG_BITS && forall k :: 0 <= k < FLAG_BITS ==> (b[k] <==> k in bits)
  {
    seq(FLAG_BITS, k requires 0 <= k => k in bits)
  }

  /** The bits for what is as it was in the entry before, or is not sent at all. */
  method CompareWith(c: Config, fi: FileInfo, prev: Option<FileInfo>) returns (bits: set<nat>)
    ensures forall k :: k in bits <==>
      || (k == XMIT_SAME_MODE && prev.Some? && fi.mode == prev.value.mode)
      || (k == XMIT_SAME_TIME && (!c.times || (prev.Some? && fi.modtime == prev.value.modtime)))
      || (k == XMIT_SAME_UID && (!c.uid || (prev.Some? && fi.uid == prev.value.uid)))
      || (k == XMIT_SAME_GID && (!c.gid || (prev.Some? && fi.gid == prev.value.gid)))
  {
    bits := {};
    if prev.Some? {
      var p := prev.value;
      if fi.mode == p.mode {
        bits := bits + {XMIT_SAME_MODE};
      }
      if c.times && fi.modtime == p.modtime {
        bits := bits + {XMIT_SAME_TIME};
      } else if !c.times {
        bits := bits + {XMIT_SAME_TIME};
      }
      if c.uid && fi.uid == p.uid {
        bits := bits + {XMIT_SAME_UID};
      } else if !c.uid {
        bits := bits + {XMIT_SAME_UID};
      }
      if c.gid && fi.gid == p.gid {
        bits := bits + {XMIT_SAME_GID};
      } else if !c.gid {
        bits := bits + {XMIT_SAME_GID};
      }
    } else {
      if !c.times {
        bits := bits + {XMIT_SAME_TIME};
      }
      if !c.uid {
        bits := bits + {XMIT_SAME_UID};
      }
      if !c.gid {
        bits := bits + {XMIT_SAME_GID};
      }
    }
  }

  /** The bits for the name, the nanoseconds, the hard-link group and the top directory. */
  method OtherBits(c: Config, fi: FileInfo, sameLen: nat, restLen: int) returns (bits: set<nat>)
    ensures forall k :: k in bits <==>
      || (k == XMIT_SAME_NAME && sameLen > 0)
      || (k == XMIT_LONG_NAME && restLen > 255)
      || (k == XMIT_MOD_NSEC && fi.modNsec != 0 && c.proto31)
      || (k == XMIT_HLINKED && fi.hlinked)
      || (k == XMIT_HLINK_FIRST && fi.hlinked && fi.hlinkFirst)
      || (k == XMIT_TOP_DIR && fi.topDir && fi.IsDir())
  {
    hide FileInfo.IsDir;
    bits := {};
    if sameLen > 0 {
      bits := bits + {XMIT_SAME_NAME};
    }
    if restLen > 255 {
      bits := bits + {XMIT_LONG_NAME};
    }
    if fi.modNsec != 0 && c.proto31 {
      bits := bits + {XMIT_MOD_NSEC};
    }
    if fi.hlinked {
      bits := bits + {XMIT_HLINKED};
      if fi.hlinkFirst {
        bits := bits + {XMIT_HLINK_FIRST};
      }
    }
    if fi.topDir && fi.IsDir() {
      bits := bits + {XMIT_TOP_DIR};
    }
  }

  method BuildFlags(c: Config, fi: FileInfo, prev: Option<FileInfo>, sameLen: nat, restLen: int) returns (flags: Bits)
    requires sameLen == SameLen(fi, prev) && restLen == |fi.Path()| - sameLen
    ensures flags == BaseFlags(c, fi, prev) && !flags[XMIT_EXTENDED_FLAGS]
  {
    hide FileInfo.Path, FileInfo.IsDir, SameLen, BaseFlags;
    var same := CompareWith(c, fi, prev);
    var other := OtherBits(c, fi, sameLen, restLen);
    flags := Word(same + other);
    BaseFlagsAre(c, fi, prev, flags);
  }

  lemma BaseFlagsAre(c: Config, fi: FileInfo, prev: Option<FileInfo>, b: Bits)
    requires |b| == FLAG_BITS && b[0] == (fi.topDir && fi.IsDir()) && !b[2] && !b[8] && Describes(c, fi, prev, b)
    ensures b == BaseFlags(c, fi, prev)
  {
    hide FileInfo.Path, FileInfo.IsDir, SameLen;
  }

  /** The flag word, kept apart from the end of the list and written as a varint, a byte or two bytes. */
  method WriteFlags(c: Config, isDir: bool, before: Bits) returns (flags: Bits, w: seq<byte>)
    requires |before| == FLAG_BITS && !before[XMIT_EXTENDED_FLAGS]
    ensures flags == KeptApart(c, isDir, before) && w == FlagBytes(c, flags)
  {
    hide Value, VarintBytes, Pow2, LeBytes, HighFlags;
    flags := before;
    if c.varintFlags {
      if true !in flags {
        flags := flags[XMIT_EXTENDED_FLAGS := true];
      }
      WordBits(flags);
      w := VarintBytes(Value(flags));
    } else {
      if true !in flags && !isDir {
        flags := flags[XMIT_TOP_DIR := true];
      }
      if HighFlags(flags) || true !in flags {
        flags := flags[XMIT_EXTENDED_FLAGS := true];
        WordBits(flags);
        w := ShortintBytes(Value(flags));
      } else {
        WordBits(flags);
        NotExtended(c, isDir, before, flags);
        w := [Value(flags)];
      }
    }
  }

  /** Only what needs a second byte is extended. */
  lemma NotExtended(c: Config, isDir: bool, before: Bits, flags: Bits)
    requires |before| == FLAG_BITS && flags == KeptApart(c, isDir, before) && !HighFlags(flags)
             && !before[XMIT_EXTENDED_FLAGS]
    requires true in flags && !flags[XMIT_EXTENDED_FLAGS]
    ensures Value(flags) < 0x100
  {
    WordBits(flags);
  }

  method WriteName(flags: Bits, path: seq<byte>, sameLen: byte) returns (w: seq<byte>)
    requires |flags| == FLAG_BITS && sameLen <= |path| < 0x8000_0000
    requires flags[XMIT_SAME_NAME] == (sameLen > 0) && flags[XMIT_LONG_NAME] == (|path| - sameLen > 255)
    ensures w == (if sameLen > 0 then [sameLen] else []) + (LenBytes(|path| - sameLen) + path[sameLen..])
  {
    hide VarintBytes;
    var rest := path[sameLen..];
    w := [];
    if flags[XMIT_SAME_NAME] {
      w := w + [sameLen];
    }
    if flags[XMIT_LONG_NAME] {
      w := w + VarintBytes(|rest|);
    } else {
      w := w + [|rest|];
    }
    w := w + rest;
  }

  method WriteTimes(flags: Bits, fi: FileInfo) returns (w: seq<byte>)
    requires |flags| == FLAG_BITS
    ensures w == TimeBytes(flags, fi)
  {
    hide VarlongBytes, VarintBytes;
    w := VarlongBytes(fi.size, 3);
    if !flags[XMIT_SAME_TIME] {
      w := w + VarlongBytes(fi.modtime, 4);
    }
    if flags[XMIT_MOD_NSEC] {
      w := w + VarintBytes(AsI32(fi.modNsec));
    }
  }

  method WriteOwner(c: Config, flags: Bits, fi: FileInfo) returns (w: seq<byte>)
    requires |flags| == FLAG_BITS
    ensures w == OwnerBytes(c, flags, fi)
  {
    hide IntBytes, VarintBytes;
    w := [];
    if !flags[XMIT_SAME_MODE] {
      w := w + IntBytes(AsI32(fi.mode));
    }
    if c.uid && !flags[XMIT_SAME_UID] {
      w := w + VarintBytes(AsI32(fi.uid));
    }
    if c.gid && !flags[XMIT_SAME_GID] {
      w := w + VarintBytes(AsI32(fi.gid));
    }
  }

  /** Device numbers, link target and checksum, as far as the type of the file has them. */
  method WriteRest(c: Config, fi: FileInfo) returns (w: seq<byte>)
    requires |Target(fi)| < 0x8000_0000
    ensures w == RdevBytes(c, fi) + (TargetBytes(fi) + SumBytes(c, fi))
  {
    hide VarintBytes, FromMode;
    w := [];
    if c.devices && SendsRdev(c, fi.mode) {
      w := w + VarintBytes(AsI32(fi.rdevMajor));
      w := w + VarintBytes(AsI32(fi.rdevMinor));
    }
    if fi.Type().Symlink? {
      var target := Target(fi);
      w := w + VarintBytes(|target|);
      w := w + target;
    }
    if c.checksumLen > 0 && fi.IsRegular() {
      var sum := if fi.checksum.Some? then fi.checksum.value else [];
      var n := if c.checksumLen < |sum| then c.checksumLen else |sum|;
      CutOrPadded(sum, c.checksumLen);
      w := w + sum[..n];
      if n < c.checksumLen {
        w := w + seq(c.checksumLen - n, i => 0);
      }
    }
  }

  lemma CutOrPadded(sum: seq<byte>, len: nat)
    ensures Fit(sum, len) == if len <= |sum| then sum[..len] else sum + seq(len - |sum|, i => 0)
  {
  }

  /** A follower's leader, or all the rest of an entry. */
  method WriteBody(c: Config, flags: Bits, fi: FileInfo) returns (w: seq<byte>)
    requires |flags| == FLAG_BITS && |Target(fi)| < 0x8000_0000
    ensures w == if Follower(fi) then VarintBytes(fi.hardLinkFirstNdx) else MetaBytes(c, flags, fi)
  {
    hide VarintBytes, TimeBytes, OwnerBytes, RdevBytes, TargetBytes, SumBytes;
    if Follower(fi) {
      w := VarintBytes(fi.hardLinkFirstNdx);
      return;
    }
    var times := WriteTimes(flags, fi);
    var owner := WriteOwner(c, flags, fi);
    var rest := WriteRest(c, fi);
    w := times + (owner + rest);
  }

  /** One entry: flags, name, and either the leader's index or all the rest. */
  method SendFileEntry(c: Config, fi: FileInfo, prev: Option<FileInfo>) returns (w: seq<byte>)
    requires Sendable(fi)
    ensures w == EntryBytes(c, fi, prev)
  {
    hide KeptApart, VarintBytes, FileInfo.Path, SharedPrefix, FlagBytes, BaseFlags, LenBytes, MetaBytes, FileInfo.IsDir,
         PathOf, Follower;
    var sameLen := SameLen(fi, prev);
    var flags := BuildFlags(c, fi, prev, sameLen, |fi.Path()| - sameLen);
    SentFlagsFacts(c, fi, prev);
    flags, w := WriteFlags(c, fi.IsDir(), flags);
    var name := WriteName(flags, fi.Path(), sameLen);
    var body := WriteBody(c, flags, fi);
    assert (w + name) + body == w + (name + body);
    w := w + name;
    w := w + body;
  }

  /** All entries in wire order, each against the one sent before it, then the end of the list. */
  method SendFileList(c: Config, table: FileTable, ioError: i32) returns (w: seq<byte>)
    requires table.Valid() && forall i :: 0 <= i < |table.Wire()| ==> Sendable(table.Wire()[i])
    ensures w == EntriesBytes(c, table.Wire(), None) + EndBytes(c, ioError)
  {
    hide EntryBytes, EndBytes, Sendable, FileTable.Valid, FileTable.Wire;
    ghost var files := table.Wire();
    var prev := None;
    w := [];
    for i := 0 to |table.Wire()|
      invariant w + EntriesBytes(c, files[i..], prev) == EntriesBytes(c, files, None)
    {
      var fi := table.Wire()[i];
      var e := SendFileEntry(c, fi, prev);
      assert files[i..][1..] == files[i + 1..];
      assert w + (e + EntriesBytes(c, files[i + 1..], Some(fi))) == (w + e) + EntriesBytes(c, files[i + 1..], Some(fi));
      w := w + e;
      prev := Some(fi);
    }
    w := w + EndBytes(c, ioError);
  }

  // ---- the receiver ----

  /** References point back: what the receiver's range check makes of any input at all. */
  ghost predicate RefersBack(entries: seq<FileInfo>) {
    forall i :: 0 <= i < |entries| ==> -1 <= entries[i].hardLinkFirstNdx < i
  }

  lemma {:induction false} ReadRefersBack(c: Config, s: seq<byte>, soFar: seq<FileInfo>)
    requires RefersBack(soFar) && ReadEntries(c, s, soFar).Got?
    ensures RefersBack(ReadEntries(c, s, soFar).value)
    decreases |s|
  {
    hide ReadFlags, ReadTrailer, ReadEntry;
    var flags := ReadFlags(c, s);
    if flags.value != 0 {
      var prev := if soFar == [] then None else Some(soFar[|soFar| - 1]);
      var e := ReadEntry(c, flags.value, flags.rest, prev, soFar);
      EntryRefersBack(c, flags.value, flags.rest, prev, soFar);
      ReadRefersBack(c, e.rest, soFar + [e.value]);
    }
  }

  lemma EntryRefersBack(c: Config, x: nat, s: seq<byte>, prev: Option<FileInfo>, soFar: seq<FileInfo>)
    requires ReadEntry(c, x, s, prev, soFar).Got?
    ensures -1 <= ReadEntry(c, x, s, prev, soFar).value.hardLinkFirstNdx < |soFar|
  {
    hide ReadName, ReadTimes, ReadOwner, ReadRdev, ReadTarget, ReadSum, ReadVarint, BitAt, FileInfo.Path, BaseOf, DirOf;
  }

  /** After the entries are put in the order `order`, position `now` holds what position `was` held, as far as positions
      fit their 32 bits. */
  predicate Moved(order: seq<nat>, was: i32, now: i32) {
    if 0 <= was < |order| then |order| <= 0x8000_0000 ==> 0 <= now < |order| && order[now] == was else now == was
  }

  /** The entries in the order `order`, their references adjusted to it. */
  ghost predicate IsReordered(entries: seq<FileInfo>, order: seq<nat>, r: seq<FileInfo>)
    requires forall k :: 0 <= k < |order| ==> order[k] < |entries|
  {
    && |r| == |order|
    && forall k :: 0 <= k < |r| ==>
      && r[k] == entries[order[k]].(hardLinkFirstNdx := r[k].hardLinkFirstNdx)
      && Moved(order, entries[order[k]].hardLinkFirstNdx, r[k].hardLinkFirstNdx)
  }

  lemma OrderDistinct(files: seq<FileInfo>, order: seq<nat>)
    requires IsStableOrder(files, order)
    ensures forall k, l :: 0 <= k < l < |order| ==> order[k] != order[l]
  {
    hide Compare;
    forall k, l | 0 <= k < l < |order|
      ensures order[k] != order[l]
    {
      assert Before(files, order[k], order[l]);
      BeforeOrder(files, order[k], order[k], order[k]);
    }
  }

  method Reorder(entries: seq<FileInfo>) returns (files: seq<FileInfo>, order: seq<nat>)
    ensures IsStableOrder(entries, order) && IsReordered(entries, order, files)
  {
    hide Compare, Before, AsI32;
    order := SortIndexed(entries);
    var n := |entries|;
    OrderDistinct(entries, order);
    var oldToNew := InvertOrder(order, n);
    files := Permuted(entries, order);
    for k := 0 to n
      invariant |files| == n
      invariant forall j :: k <= j < n ==> files[j] == entries[order[j]]
      invariant forall j :: 0 <= j < k ==>
        && files[j] == entries[order[j]].(hardLinkFirstNdx := files[j].hardLinkFirstNdx)
        && Moved(order, entries[order[j]].hardLinkFirstNdx, files[j].hardLinkFirstNdx)
    {
      var ref := files[k].hardLinkFirstNdx;
      if ref >= 0 && ref < |oldToNew| {
        OrderHitsAll(entries, order, ref);
        SmallFits(oldToNew[ref]);
        files := files[k := files[k].(hardLinkFirstNdx := AsI32(oldToNew[ref]))];
      }
    }
  }

  lemma SmallFits(x: nat)
    ensures x < 0x8000_0000 ==> AsI32(x) == x
  {
  }

  method InvertOrder(order: seq<nat>, n: nat) returns (oldToNew: seq<nat>)
    requires |order| == n && forall k :: 0 <= k < n ==> order[k] < n
    requires forall k, l :: 0 <= k < l < n ==> order[k] != order[l]
    ensures |oldToNew| == n && forall k :: 0 <= k < n ==> oldToNew[order[k]] == k
    ensures forall p :: p in order ==> 0 <= oldToNew[p] < n && order[oldToNew[p]] == p
  {
    oldToNew := seq(n, i => 0);
    for pos := 0 to n
      invariant |oldToNew| == n && forall k :: 0 <= k < pos ==> oldToNew[order[k]] == k
    {
      oldToNew := oldToNew[order[pos] := pos];
    }
  }

  /** Read entries up to the end marker, sort them, adjust the references. */
  method ReceiveFileList(c: Config, s: seq<byte>) returns (r: Read<seq<FileInfo>>, order: seq<nat>)
    ensures ReadEntries(c, s, []).Failed? ==> r.Failed?
    ensures ReadEntries(c, s, []).Got? ==>
      && r.Got? && r.rest == ReadEntries(c, s, []).rest
      && IsStableOrder(ReadEntries(c, s, []).value, order)
      && IsReordered(ReadEntries(c, s, []).value, order, r.value)
  {
    hide ReadFlags, ReadEntry, ReadTrailer, Before, Moved, IsReordered;
    order := [];
    var entries: seq<FileInfo> := [];
    var prev := None;
    var rest := s;
    while true
      invariant ReadEntries(c, rest, entries) == ReadEntries(c, s, [])
      invariant prev == LastOf(entries)
      decreases |rest|
    {
      var flags := ReadFlags(c, rest);
      if flags.Failed? {
        return Failed, order;
      }
      if flags.value == 0 {
        var t := ReadTrailer(c, flags.rest);
        if t.Failed? {
          return Failed, order;
        }
        var files, o := Reorder(entries);
        return Got(files, t.rest), o;
      }
      var e := ReadEntry(c, flags.value, flags.rest, prev, entries);
      if e.Failed? {
        return Failed, order;
      }
      EntryConsumes(c, rest, prev, entries);
      entries := entries + [e.value];
      prev := Some(e.value);
      rest := e.rest;
    }
  }

  // ---- what an index means ----

  /** In whatever order the entries came, after the receiver's sort every reference leads to the entry it led to on
      the wire, and references are kept apart that were apart. */
  lemma ReferencesFollow(entries: seq<FileInfo>, order: seq<nat>, r: seq<FileInfo>, k: nat, l: nat)
    requires RefersBack(entries) && IsStableOrder(entries, order) && IsReordered(entries, order, r)
    requires k < |r| <= 0x8000_0000 && l < |r|
    ensures var was, now := entries[order[k]].hardLinkFirstNdx, r[k].hardLinkFirstNdx;
            && (was < 0 ==> now < 0)
            && (was >= 0 ==>
                  && 0 <= now < |r| && order[now] == was
                  && r[now] == entries[was].(hardLinkFirstNdx := r[now].hardLinkFirstNdx))
    ensures entries[order[k]].hardLinkFirstNdx == entries[order[l]].hardLinkFirstNdx
            <==> r[k].hardLinkFirstNdx == r[l].hardLinkFirstNdx
  {
    hide Compare, Before;
    OrderDistinct(entries, order);
  }

  /** Entries that match a sorted list stay where they are. */
  lemma MatchingSorted(c: Config, sent: seq<FileInfo>, got: seq<FileInfo>)
    requires Sorted(sent) && AllMatch(c, sent, got)
    ensures Sorted(got)
  {
    hide Key, Matches;
    forall i | 0 <= i < |sent|
      ensures Key(got[i]) == Key(sent[i])
    {
      MatchingPath(c, sent[i], got[i]);
    }
    forall i, j | 0 <= i < j < |got|
      ensures Compare(got[i], got[j]) != Greater
    {
      assert Compare(sent[i], sent[j]) != Greater;
    }
  }

  /** A sorted list that comes back comes out of the receiver with every entry at the index it was sent under. */
  lemma IndexAgreement(c: Config, sent: seq<FileInfo>, ioError: i32, rest: seq<byte>, order: seq<nat>, r: seq<FileInfo>)
    requires Sorted(sent) && |sent| < 0x8000_0000 && (forall i :: 0 <= i < |sent| ==> Sendable(sent[i]))
             && ComesBack(c, sent, ioError, rest)
    requires var got := ReadEntries(c, EntriesBytes(c, sent, None) + EndBytes(c, ioError) + rest, []).value;
             IsStableOrder(got, order) && IsReordered(got, order, r)
    ensures r == ReadEntries(c, EntriesBytes(c, sent, None) + EndBytes(c, ioError) + rest, []).value
    ensures AllMatch(c, sent, r)
  {
    hide Compare, Before, EndBytes, ReadEntries, EntriesBytes, Sendable, Matches, IsStableOrder, Sorted;
    var got := ReadEntries(c, EntriesBytes(c, sent, None) + EndBytes(c, ioError) + rest, []).value;
    MatchingSorted(c, sent, got);
    SortedIsFixed(got, order);
    IdentityReorder(got, order, r);
  }

  lemma IdentityReorder(got: seq<FileInfo>, order: seq<nat>, r: seq<FileInfo>)
    requires |order| == |got| < 0x8000_0000 && forall k :: 0 <= k < |order| ==> order[k] == k
    requires IsReordered(got, order, r)
    ensures r == got
  {
  }

  lemma MarkedSorted(w: seq<FileInfo>)
    requires |w| < 0x8000_0000 && Sorted(w)
    ensures Sorted(Marked(w))
  {
    hide Key, MarkedAt;
    forall i | 0 <= i < |w|
      ensures Key(Marked(w)[i]) == Key(w[i])
    {
      MarkedKey(w, i);
    }
    forall i, j | 0 <= i < j < |w|
      ensures Compare(Marked(w)[i], Marked(w)[j]) != Greater
    {
      assert Compare(w[i], w[j]) != Greater;
    }
  }

  lemma MarkedKey(w: seq<FileInfo>, p: nat)
    requires p < |w| < 0x8000_0000
    ensures Key(MarkedAt(w, p)) == Key(w[p])
  {
    hide Keys, FirstFrom, Linkable;
    assert DirText(MarkedAt(w, p)) == DirText(w[p]) && ItemText(MarkedAt(w, p)) == ItemText(w[p]);
  }

  /** What the walk of the source may produce: unmarked entries that can be listed, equal inodes meaning equal files. */
  ghost predicate Walked(files: seq<FileInfo>) {
    && |files| < 0x8000_0000
    && (forall p :: 0 <= p < |files| ==> Listable(files[p]) && Unmarked(files[p]))
    && (forall p, q :: 0 <= p < |files| && 0 <= q < |files| && Linked(files[p], files[q]) ==>
          SameInode(files[p], files[q]))
  }

  /** Every device number that the receiver will read is sent. */
  ghost predicate AllGated(c: Config, files: seq<FileInfo>) { forall p :: 0 <= p < |files| ==> Gated(c, files[p]) }

  lemma PermutedWalked(c: Config, files: seq<FileInfo>, order: seq<nat>)
    requires Walked(files) && IsStableOrder(files, order)
    ensures Walked(Permuted(files, order)) && (AllGated(c, Permuted(files, order)) <==> AllGated(c, files))
  {
    hide Listable, Gated, Unmarked, Linked, SameInode, Before;
    if AllGated(c, Permuted(files, order)) {
      forall p | 0 <= p < |files|
        ensures Gated(c, files[p])
      {
        OrderHitsAll(files, order, p);
        var k :| 0 <= k < |order| && order[k] == p;
        assert Gated(c, Permuted(files, order)[k]);
      }
    }
  }

  /** The whole exchange: sort, mark, send; receive, sort again, adjust references. Whenever the list comes back, both
      ends then hold the same list, entry by entry, and index i names the same file; and it does when all device numbers
      are sent, and with varint flags, one byte of error and no two leaders behind a device, only then. */
  method ExchangeFileList(c: Config, walked: seq<FileInfo>, hardLinks: bool, ioError: i32, tail: seq<byte>)
      returns (sent: seq<FileInfo>, r: Read<seq<FileInfo>>, ghost order: seq<nat>)
    requires Walked(walked)
    ensures IsStableOrder(walked, order)
    ensures sent == if hardLinks then Marked(Permuted(walked, order)) else Permuted(walked, order)
    ensures forall i :: 0 <= i < |sent| ==> Sendable(sent[i])
    ensures ComesBack(c, sent, ioError, tail) ==> r.Got? && r.rest == tail && AllMatch(c, sent, r.value)
    ensures AllGated(c, walked) ==> ComesBack(c, sent, ioError, tail)
    ensures c.varintFlags && 0 <= ioError < 0x80 && (!hardLinks || G.LooseBehind(c, sent) < 2) ==>
              (ComesBack(c, sent, ioError, tail) <==> AllGated(c, walked))
  {
    hide IsStableOrder, Walked, Sorted, AllMatch, Marked, ReadEntries, EntriesBytes, EndBytes, Sendable, IsReordered,
         AllGated, Sound, FileTable.Valid, FileTable.Wire, G.LooseBehind;
    var files, o := FlistSort(walked);
    order := o;
    PermutedWalked(c, walked, o);
    assert |files| < 0x8000_0000 by { WalkedSize(files); }
    var table := new FileTable(files);
    table.MarkHardlinks(hardLinks);
    sent := table.Wire();
    SentIsReady(c, files, hardLinks);
    SoundSendable(sent);
    var w := SendFileList(c, table, ioError);
    var got, again := ReceiveFileList(c, w + tail);
    r := got;
    WhenItComesBack(c, files, sent, hardLinks, ioError, tail);
    if ComesBack(c, sent, ioError, tail) {
      IndexAgreement(c, sent, ioError, tail, again, got.value);
    }
  }

  lemma WalkedSize(files: seq<FileInfo>)
    requires Walked(files)
    ensures |files| < 0x8000_0000
  {
    hide Listable, Linked, SameInode;
  }

  lemma SentIsReady(c: Config, files: seq<FileInfo>, hardLinks: bool)
    requires Walked(files) && Sorted(files) && |files| < 0x8000_0000
    ensures var sent := if hardLinks then Marked(files) else files;
            Sound(sent) && Sorted(sent) && |sent| == |files| && (AllGated(c, sent) <==> AllGated(c, files))
  {
    hide Listable, Unmarked, Linked, SameInode, Sorted, Gated;
    MarkedIsWellFormed(c, files);
    MarkedSorted(files);
    UnmarkedIsSound(files);
  }

  lemma UnmarkedIsSound(files: seq<FileInfo>)
    requires Walked(files)
    ensures Sound(files) && forall i :: 0 <= i < |files| ==> !files[i].hlinked
  {
    hide Listable, Linked, SameInode;
  }

  lemma WhenItComesBack(c: Config, files: seq<FileInfo>, sent: seq<FileInfo>, hardLinks: bool, ioError: i32,
                        tail: seq<byte>)
    requires Walked(files) && Sound(sent) && (!hardLinks ==> sent == files)
    requires forall i :: 0 <= i < |sent| ==> Sendable(sent[i])
    ensures AllGated(c, sent) ==> ComesBack(c, sent, ioError, tail)
    ensures c.varintFlags && 0 <= ioError < 0x80 && (!hardLinks || G.LooseBehind(c, sent) < 2) ==>
              (ComesBack(c, sent, ioError, tail) <==> AllGated(c, sent))
  {
    hide Walked, Sound, Sendable, ComesBack, Gated, G.LooseBehind, G.LooseWords, G.Ungated;
    if AllGated(c, sent) {
      ListParse(c, sent, ioError, tail);
    }
    if c.varintFlags && 0 <= ioError < 0x80 {
      UnmarkedIsSound(files);
      if !hardLinks {
        G.NoLooseWords(c, sent);
      }
      G.DeviceGate(c, sent, ioError, tail);
    }
  }
}
