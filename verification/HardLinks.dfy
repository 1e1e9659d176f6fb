/** Hard-link groups: marking them before the list is sent (main.rs), following them after it is received
    (flist/recv.rs). */
module HardLinks {
  import opened Bytes
  import opened FileTypes
  import opened FileList
  import opened FileListProofs

  // ---- what marking should do ----

  predicate Linkable(fi: FileInfo) { fi.IsRegular() && fi.ino != 0 }

  /** Both entries are names of one regular file. */
  predicate Linked(a: FileInfo, b: FileInfo) { Linkable(a) && Linkable(b) && a.dev == b.dev && a.ino == b.ino }

  /** The first position that names the same file as position p. */
  function First(w: seq<FileInfo>, p: nat): (r: nat)
    requires p < |w| && Linkable(w[p])
    ensures r <= p && Linked(w[r], w[p])
    ensures forall k :: 0 <= k < r ==> !Linked(w[k], w[p])
  {
    FirstFrom(w, p, 0)
  }

  function FirstFrom(w: seq<FileInfo>, p: nat, q: nat): (r: nat)
    requires q <= p < |w| && Linkable(w[p])
    requires forall k :: 0 <= k < q ==> !Linked(w[k], w[p])
    ensures r <= p && Linked(w[r], w[p])
    ensures forall k :: 0 <= k < r ==> !Linked(w[k], w[p])
    decreases p - q
  {
    if Linked(w[q], w[p]) then q else FirstFrom(w, p, q + 1)
  }

  /** Some other position names the same file. */
  ghost predicate Shared(w: seq<FileInfo>, p: nat)
    requires p < |w|
  {
    exists q :: 0 <= q < |w| && q != p && Linked(w[q], w[p])
  }

  ghost function MarkedAt(w: seq<FileInfo>, p: nat): FileInfo
    requires p < |w| < 0x8000_0000
  {
    if !Shared(w, p) then w[p]
    else if First(w, p) == p then w[p].(hlinked := true, hlinkFirst := true)
    else w[p].(hlinked := true, hardLinkFirstNdx := First(w, p))
  }

  ghost function Marked(w: seq<FileInfo>): (r: seq<FileInfo>)
    requires |w| < 0x8000_0000
    ensures |r| == |w| && forall p :: 0 <= p < |w| ==> r[p] == MarkedAt(w, p)
  {
    seq(|w|, p requires 0 <= p < |w| => MarkedAt(w, p))
  }

  // ---- how it is done ----

  type Inode = (nat, nat)

  function InodeOf(fi: FileInfo): Inode { (fi.dev, fi.ino) }

  /** `ps` lists, in order, the positions below n that name the file `key`. */
  ghost predicate Lists(w: seq<FileInfo>, n: nat, key: Inode, ps: seq<nat>)
    requires n <= |w|
  {
    && (forall k :: 0 <= k < |ps| ==> ps[k] < n && Linkable(w[ps[k]]) && InodeOf(w[ps[k]]) == key)
    && (forall k, l :: 0 <= k < l < |ps| ==> ps[k] < ps[l])
    && (forall p :: 0 <= p < n && Linkable(w[p]) && InodeOf(w[p]) == key ==> p in ps)
  }

  ghost predicate Grouped(w: seq<FileInfo>, n: nat, groups: map<Inode, seq<nat>>)
    requires n <= |w|
  {
    && (forall key :: key in groups ==> Lists(w, n, key, groups[key]))
    && (forall p :: 0 <= p < n && Linkable(w[p]) ==> InodeOf(w[p]) in groups)
  }

  method GroupByInode(w: seq<FileInfo>) returns (groups: map<Inode, seq<nat>>)
    ensures Grouped(w, |w|, groups)
  {
    hide Linkable, Grouped;
    groups := map[];
    assert Grouped(w, 0, groups) by { NothingGrouped(w); }
    for pos := 0 to |w|
      invariant Grouped(w, pos, groups)
    {
      var fi := w[pos];
      GroupStep(w, pos, groups);
      if Linkable(fi) {
        var key := InodeOf(fi);
        var ps := if key in groups then groups[key] else [];
        groups := groups[key := ps + [pos]];
      }
    }
  }

  lemma NothingGrouped(w: seq<FileInfo>)
    ensures Grouped(w, 0, map[])
  {
  }

  lemma GroupStep(w: seq<FileInfo>, pos: nat, groups: map<Inode, seq<nat>>)
    requires pos < |w| && Grouped(w, pos, groups)
    ensures !Linkable(w[pos]) ==> Grouped(w, pos + 1, groups)
    ensures Linkable(w[pos]) ==>
      var key := InodeOf(w[pos]);
      Grouped(w, pos + 1, groups[key := (if key in groups then groups[key] else []) + [pos]])
  {
    hide Linkable, Lists;
    var key := InodeOf(w[pos]);
    var ps := if key in groups then groups[key] else [];
    forall other | other in groups && (other != key || !Linkable(w[pos]))
      ensures Lists(w, pos + 1, other, groups[other])
    {
      ListsOther(w, pos, other, groups[other]);
    }
    if Linkable(w[pos]) {
      ListsStep(w, pos, ps);
    }
  }

  lemma ListsOther(w: seq<FileInfo>, pos: nat, key: Inode, ps: seq<nat>)
    requires pos < |w| && Lists(w, pos, key, ps) && !(Linkable(w[pos]) && InodeOf(w[pos]) == key)
    ensures Lists(w, pos + 1, key, ps)
  {
    hide Linkable;
  }

  lemma ListsStep(w: seq<FileInfo>, pos: nat, ps: seq<nat>)
    requires pos < |w| && Linkable(w[pos])
    requires Lists(w, pos, InodeOf(w[pos]), ps)
             || (ps == [] && forall p :: 0 <= p < pos && Linkable(w[p]) ==> InodeOf(w[p]) != InodeOf(w[pos]))
    ensures Lists(w, pos + 1, InodeOf(w[pos]), ps + [pos])
  {
    hide Linkable;
    forall p | 0 <= p < pos + 1 && Linkable(w[p]) && InodeOf(w[p]) == InodeOf(w[pos])
      ensures p in ps + [pos]
    {
      if p < pos {
        assert p in ps;
      } else {
        assert (ps + [pos])[|ps|] == p;
      }
    }
  }

  /** The members of one group: what the code writes for each is what marking should do. */
  lemma GroupMarks(w: seq<FileInfo>, key: Inode, ps: seq<nat>, i: nat)
    requires |w| < 0x8000_0000 && Lists(w, |w|, key, ps) && i < |ps|
    ensures |ps| < 2 ==> MarkedAt(w, ps[i]) == w[ps[i]]
    ensures |ps| >= 2 && i == 0 ==> MarkedAt(w, ps[i]) == w[ps[i]].(hlinked := true, hlinkFirst := true)
    ensures |ps| >= 2 && i > 0 ==> MarkedAt(w, ps[i]) == w[ps[i]].(hlinked := true, hardLinkFirstNdx := ps[0])
  {
    hide Linkable, FirstFrom;
    var p := ps[i];
    if |ps| >= 2 {
      var other := if i == 0 then ps[1] else ps[0];
      assert Linked(w[other], w[p]);
      assert Shared(w, p);
      var first := First(w, p);
      assert first in ps && InodeOf(w[first]) == key;
      assert Linked(w[ps[0]], w[p]);
      var j :| 0 <= j < |ps| && ps[j] == first;
      assert first == ps[0];
    } else {
      assert !Shared(w, p);
    }
  }

  /** A file list: the entries and the order in which they go on the wire. */
  class FileTable {
    var files: seq<FileInfo>
    var sorted: seq<nat>

    ghost predicate Valid()
      reads this
    {
      && (forall k :: 0 <= k < |sorted| ==> sorted[k] < |files|)
      && (forall k, l :: 0 <= k < l < |sorted| ==> sorted[k] != sorted[l])
      && |sorted| < 0x8000_0000
    }

    function Wire(): (w: seq<FileInfo>)
      requires Valid()
      reads this
      ensures |w| == |sorted| && forall k :: 0 <= k < |w| ==> w[k] == files[sorted[k]]
    {
      seq(|sorted|, k requires 0 <= k < |sorted| && sorted[k] < |files| reads this => files[sorted[k]])
    }

    constructor (files: seq<FileInfo>)
      requires |files| < 0x8000_0000
      ensures Valid() && Wire() == files == this.files
    {
      this.files := files;
      sorted := seq(|files|, k => k);
    }

    /** Entries that are not on the wire stay as they were. */
    twostate predicate OthersKept()
      reads this
    {
      && |files| == |old(files)|
      && forall i :: 0 <= i < |files| && i !in sorted ==> files[i] == old(files)[i]
    }

    method Put(p: nat, fi: FileInfo)
      requires Valid() && p < |sorted|
      modifies `files
      ensures Valid() && OthersKept()
      ensures Wire() == old(Wire())[p := fi]
    {
      files := files[sorted[p] := fi];
    }

    method MarkHardlinks(hardLinks: bool)
      requires Valid()
      modifies `files
      ensures Valid() && OthersKept()
      ensures Wire() == if hardLinks then Marked(old(Wire())) else old(Wire())
    {
      hide Lists, MarkedAt, Linkable, Wire;
      if !hardLinks {
        return;
      }
      ghost var w := Wire();
      var groups := GroupByInode(Wire());
      var todo := groups.Keys;
      while todo != {}
        invariant todo <= groups.Keys
        invariant Valid() && OthersKept()
        invariant forall p :: 0 <= p < |w| ==>
          Wire()[p] == if Linkable(w[p]) && InodeOf(w[p]) !in todo then MarkedAt(w, p) else w[p]
      {
        var key :| key in todo;
        todo := todo - {key};
        MarkGroup(w, key, groups[key]);
      }
      forall p | 0 <= p < |w|
        ensures Wire()[p] == Marked(w)[p]
      {
        UnlinkableKept(w, p);
      }
    }

    /** Mark one group; the positions are in order already, so that sorting them changes nothing. */
    method MarkGroup(ghost w: seq<FileInfo>, ghost key: Inode, positions: seq<nat>)
      requires Valid() && |w| == |sorted| < 0x8000_0000 && Lists(w, |w|, key, positions)
      requires forall p :: 0 <= p < |w| && Linkable(w[p]) && InodeOf(w[p]) == key ==> Wire()[p] == w[p]
      modifies `files
      ensures Valid() && OthersKept()
      ensures forall p :: 0 <= p < |w| ==>
        Wire()[p] == if Linkable(w[p]) && InodeOf(w[p]) == key then MarkedAt(w, p) else old(Wire())[p]
    {
      hide MarkedAt, Linkable, Wire, Valid;
      if |positions| < 2 {
        forall i | 0 <= i < |positions| {
          GroupMarks(w, key, positions, i);
        }
        return;
      }
      var leader := positions[0];
      for i := 0 to |positions|
        invariant Valid() && OthersKept()
        invariant forall p :: 0 <= p < |w| ==>
          Wire()[p] == if p in positions[..i] then MarkedAt(w, p) else old(Wire())[p]
      {
        GroupMarks(w, key, positions, i);
        var p := positions[i];
        var fi := Wire()[p];
        assert positions[..i + 1] == positions[..i] + [p];
        if i == 0 {
          Put(p, fi.(hlinked := true, hlinkFirst := true));
        } else {
          Put(p, fi.(hlinked := true, hardLinkFirstNdx := leader));
        }
      }
      assert positions[..|positions|] == positions;
    }
  }

  lemma UnlinkableKept(w: seq<FileInfo>, p: nat)
    requires p < |w| < 0x8000_0000
    ensures !Linkable(w[p]) ==> MarkedAt(w, p) == w[p]
  {
  }

  // ---- what marking achieves ----

  /** No marks yet: as the walk leaves an entry. */
  predicate Unmarked(fi: FileInfo) { !fi.hlinked && !fi.hlinkFirst && fi.hardLinkFirstNdx == -1 }

  /** The entry that stands for the file: the leader an entry refers to, or the entry itself. */
  function Stands(m: seq<FileInfo>, p: nat): int
    requires p < |m|
  {
    if Follower(m[p]) then m[p].hardLinkFirstNdx else p
  }

  lemma LinkedSameFirst(w: seq<FileInfo>, p: nat, q: nat)
    requires p < |w| && q < |w| && Linked(w[p], w[q])
    ensures First(w, p) == First(w, q)
  {
    hide FirstFrom, Linkable;
  }

  /** In a group of two or more there is exactly one leader; it comes first and all others refer to it. */
  lemma OneLeader(w: seq<FileInfo>, p: nat, q: nat)
    requires |w| < 0x8000_0000 && p < |w| && q < |w|
    requires Unmarked(w[q]) && Linked(w[q], w[p]) && Shared(w, p)
    ensures var m, leader := Marked(w), First(w, p);
            && (m[q].hlinkFirst <==> q == leader)
            && m[q].hlinked
            && (q != leader ==> Follower(m[q]) && m[q].hardLinkFirstNdx == leader && leader < q)
  {
    hide FirstFrom, Linkable;
    LinkedSameFirst(w, q, p);
    var o :| 0 <= o < |w| && o != p && Linked(w[o], w[p]);
    var other := if q == p then o else p;
    assert Linked(w[other], w[q]);
    assert Shared(w, q);
  }

  /** The marks say exactly which entries are the same file. */
  lemma MarksAreThePartition(w: seq<FileInfo>, p: nat, q: nat)
    requires |w| < 0x8000_0000 && p < |w| && q < |w| && p != q
    requires Unmarked(w[p]) && Unmarked(w[q])
    ensures Stands(Marked(w), p) == Stands(Marked(w), q) <==> Linked(w[p], w[q])
  {
    hide FirstFrom, Linkable, FileInfo.IsRegular;
    StandsFirst(w, p);
    StandsFirst(w, q);
    if Linked(w[p], w[q]) {
      LinkedSameFirst(w, p, q);
      assert Linked(w[q], w[p]);
      assert Shared(w, p) && Shared(w, q);
    }
  }

  lemma StandsFirst(w: seq<FileInfo>, p: nat)
    requires |w| < 0x8000_0000 && p < |w| && Unmarked(w[p])
    ensures Stands(Marked(w), p) == if Shared(w, p) then First(w, p) else p
    ensures 0 <= Stands(Marked(w), p) < |w|
    ensures Linkable(w[p]) ==> Linked(w[Stands(Marked(w), p)], w[p])
    ensures Stands(Marked(w), p) != p ==> Shared(w, p)
  {
    hide FirstFrom, Linkable;
  }

  /** In terms of the files: two entries stand for one leader exactly when both are regular and have the same device and
      the same inode, which is not zero. */
  lemma OneFileOneLeader(w: seq<FileInfo>, p: nat, q: nat)
    requires |w| < 0x8000_0000 && p < |w| && q < |w| && p != q
    requires Unmarked(w[p]) && Unmarked(w[q])
    ensures Stands(Marked(w), p) == Stands(Marked(w), q)
            <==> w[p].IsRegular() && w[q].IsRegular() && w[p].dev == w[q].dev && w[p].ino == w[q].ino && w[p].ino != 0
  {
    hide Marked, Stands, FileInfo.IsRegular;
    MarksAreThePartition(w, p, q);
  }

  /** An entry is marked exactly when it is a regular file with another name in the list; it leads exactly when no other
      name comes before it; and if it does not lead, it refers to the first of them. */
  lemma MarkedMembers(w: seq<FileInfo>, p: nat)
    requires |w| < 0x8000_0000 && p < |w| && Unmarked(w[p])
    ensures Marked(w)[p].hlinked
            <==> (w[p].IsRegular() && w[p].ino != 0
                  && exists q ::
                       0 <= q < |w| && q != p && w[q].IsRegular() && w[q].dev == w[p].dev && w[q].ino == w[p].ino)
    ensures Marked(w)[p].hlinkFirst
            <==> (Marked(w)[p].hlinked
                  && forall q :: 0 <= q < p ==> !(w[q].IsRegular() && w[q].dev == w[p].dev && w[q].ino == w[p].ino))
    ensures var r := Marked(w)[p].hardLinkFirstNdx;
            Marked(w)[p].hlinked && !Marked(w)[p].hlinkFirst ==>
              && 0 <= r < p && w[r].IsRegular() && w[r].dev == w[p].dev && w[r].ino == w[p].ino
              && forall q :: 0 <= q < r ==> !(w[q].IsRegular() && w[q].dev == w[p].dev && w[q].ino == w[p].ino)
  {
    hide FirstFrom, FileInfo.IsRegular;
    if Shared(w, p) {
      var o :| 0 <= o < |w| && o != p && Linked(w[o], w[p]);
      assert w[o].IsRegular() && w[o].dev == w[p].dev && w[o].ino == w[p].ino;
      var f := First(w, p);
      assert Linked(w[f], w[p]);
      forall q | 0 <= q < f
        ensures !(w[q].IsRegular() && w[q].dev == w[p].dev && w[q].ino == w[p].ino)
      {
        assert !Linked(w[q], w[p]);
      }
    } else {
      forall q | 0 <= q < |w| && q != p
        ensures !Linked(w[q], w[p])
      {
      }
    }
  }

  /** A marked list is one the file-list protocol carries, so that the receiver's range check passes; marking changes
      nothing about device numbers. */
  lemma MarkedIsWellFormed(c: Config, w: seq<FileInfo>)
    requires |w| < 0x8000_0000
    requires forall p :: 0 <= p < |w| ==> Listable(w[p]) && Unmarked(w[p])
    requires forall p, q :: 0 <= p < |w| && 0 <= q < |w| && Linked(w[p], w[q]) ==> SameInode(w[p], w[q])
    ensures Sound(Marked(w)) && forall p :: 0 <= p < |w| ==> (Gated(c, Marked(w)[p]) <==> Gated(c, w[p]))
  {
    hide FirstFrom, Linkable, Gated;
    forall p | 0 <= p < |w|
      ensures Listable(Marked(w)[p]) && (Gated(c, Marked(w)[p]) <==> Gated(c, w[p]))
      ensures Follower(Marked(w)[p]) ==>
        && Marked(w)[p].hardLinkFirstNdx < p
        && SameInode(Marked(w)[p], Marked(w)[Marked(w)[p].hardLinkFirstNdx])
    {
      MarkedPlain(c, w, p);
      if Shared(w, p) {
        var f := First(w, p);
        assert SameInode(w[f], w[p]);
        MarkedPlain(c, w, f);
        MarkedInode(w, p);
        MarkedInode(w, f);
      }
    }
  }

  lemma MarkedPlain(c: Config, w: seq<FileInfo>, p: nat)
    requires |w| < 0x8000_0000 && p < |w| && Listable(w[p]) && Unmarked(w[p])
    ensures Listable(Marked(w)[p]) && (Gated(c, Marked(w)[p]) <==> Gated(c, w[p]))
    ensures Follower(Marked(w)[p]) ==> Shared(w, p) && Marked(w)[p].hardLinkFirstNdx == First(w, p) < p
  {
    hide FirstFrom, Linkable, SendsRdev;
    if Linkable(w[p]) {
      RegularGated(c, w[p]);
    }
  }

  lemma RegularGated(c: Config, fi: FileInfo)
    requires Linkable(fi)
    ensures !SendsRdev(c, fi.mode)
  {
  }

  lemma MarkedInode(w: seq<FileInfo>, p: nat)
    requires |w| < 0x8000_0000 && p < |w|
    ensures SameInode(Marked(w)[p], w[p])
  {
    hide FirstFrom, Linkable;
  }
}
