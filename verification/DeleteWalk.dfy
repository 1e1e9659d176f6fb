/** Deleting what the sender does not have (main.rs, delete_extraneous_from_flist). A path is its sequence of names. */
module DeleteWalk {
  import opened Bytes

  type Path = seq<seq<byte>>

  datatype Kind = File | Dir | Symlink

  type Tree = map<Path, Kind>

  /** Every entry lies in a directory that is there; the root itself is not an entry. */
  ghost predicate IsTree(fs: Tree) {
    forall p :: p in fs ==> p != [] && (|p| > 1 ==> p[..|p| - 1] in fs && fs[p[..|p| - 1]].Dir?)
  }

  function Parent(p: Path): Path
    requires p != []
  {
    p[..|p| - 1]
  }

  // ---- the keep-set ----

  /** All listed paths and all directories above them. */
  ghost predicate Keeps(listed: seq<Path>, kept: set<Path>) {
    forall p :: p in kept <==> p != [] && exists i :: 0 <= i < |listed| && p <= listed[i]
  }

  ghost predicate ClosedUnderParents(kept: set<Path>) {
    forall p, q :: p in kept && q <= p && q != [] ==> q in kept
  }

  lemma KeepsIsClosed(listed: seq<Path>, kept: set<Path>)
    requires Keeps(listed, kept)
    ensures ClosedUnderParents(kept)
  {
    forall p, q | p in kept && q <= p && q != []
      ensures q in kept
    {
      var i :| 0 <= i < |listed| && p <= listed[i];
      assert q <= listed[i];
    }
  }

  /** Add each path and then its parents, up to the root. */
  method KeepSet(listed: seq<Path>) returns (kept: set<Path>)
    ensures Keeps(listed, kept)
  {
    kept := {};
    for n := 0 to |listed|
      invariant forall p :: p in kept <==> p != [] && exists i :: 0 <= i < n && p <= listed[i]
    {
      var cur := listed[n];
      ghost var before := kept;
      while cur != []
        invariant cur <= listed[n]
        invariant forall p :: p in kept <==> p in before || (p != [] && p <= listed[n] && |p| > |cur|)
        decreases |cur|
      {
        forall p: Path | p <= listed[n] && |p| == |cur|
          ensures p == cur
        {
          assert p == listed[n][..|p|];
        }
        kept := kept + {cur};
        cur := Parent(cur);
      }
    }
  }

  // ---- what the walk removes ----

  /** q is p or lies below it. */
  predicate Under(p: Path, q: Path) { p <= q }

  predicate Below(p: Path, q: Path) { p <= q && p != q }

  /** The child of directory `cur` on the way to q. */
  function Branch(cur: Path, q: Path): Path
    requires Below(cur, q)
  {
    q[..|cur| + 1]
  }

  /** The tree without what lies below `cur` and is not kept, as far as the branches in `done` go. */
  function Pruned(fs: Tree, kept: set<Path>, cur: Path, done: set<Path>): (r: Tree) {
    map q | q in fs && !(Below(cur, q) && Branch(cur, q) in done && q !in kept) :: fs[q]
  }

  /** What is deleted on its own account, not as part of a directory. */
  predicate IsTop(fs: Tree, kept: set<Path>, cur: Path, q: Path)
    requires q in fs
  {
    Below(cur, q) && q !in kept && (Parent(q) == cur || Parent(q) in kept)
  }

  function Tops(fs: Tree, kept: set<Path>, cur: Path, done: set<Path>, kind: Kind): set<Path> {
    set q | q in fs && IsTop(fs, kept, cur, q) && Branch(cur, q) in done && fs[q] == kind
  }

  /** The entries of a directory. */
  function Children(fs: Tree, cur: Path): set<Path> {
    set q | q in fs && Below(cur, q) && |q| == |cur| + 1
  }

  lemma {:induction false} WayIsThere(fs: Tree, cur: Path, q: Path)
    requires IsTree(fs) && q in fs && Below(cur, q)
    ensures Branch(cur, q) in Children(fs, cur)
    ensures cur != [] ==> cur in fs && fs[cur].Dir?
    decreases |q|
  {
    if |q| == |cur| + 1 {
      assert Branch(cur, q) == q;
      assert Parent(q) == cur;
    } else {
      var p := Parent(q);
      assert Below(cur, p) && Branch(cur, p) == Branch(cur, q);
      WayIsThere(fs, cur, p);
    }
  }

  /** The tree without an entry and all below it. */
  function Without(fs: Tree, c: Path): Tree { map q | q in fs && !Under(c, q) :: fs[q] }

  /** Removing an entry that is not kept, with all below it, prunes its branch. */
  lemma RemoveBranch(fs: Tree, kept: set<Path>, cur: Path, done: set<Path>, c: Path)
    requires ClosedUnderParents(kept) && c !in kept && |c| == |cur| + 1 && Below(cur, c) && c !in done
    ensures Without(Pruned(fs, kept, cur, done), c) == Pruned(fs, kept, cur, done + {c})
  {
    forall q | q in fs
      ensures Under(c, q) <==> Below(cur, q) && Branch(cur, q) == c
      ensures Under(c, q) ==> q !in kept
    {
    }
  }

  lemma PrunedIsTree(fs: Tree, kept: set<Path>, cur: Path, done: set<Path>)
    requires IsTree(fs) && ClosedUnderParents(kept)
    ensures IsTree(Pruned(fs, kept, cur, done))
  {
    var r := Pruned(fs, kept, cur, done);
    forall q | q in r && |q| > 1
      ensures Parent(q) in r && r[Parent(q)].Dir?
    {
      var p := Parent(q);
      assert p in fs && fs[p].Dir?;
      if Below(cur, p) && p !in kept {
        assert p <= q && q !in kept;
        assert Below(cur, q) && Branch(cur, p) == Branch(cur, q);
      }
    }
  }

  /** Keeping an entry and pruning below it prunes its branch. */
  lemma KeepBranch(fs: Tree, kept: set<Path>, cur: Path, done: set<Path>, c: Path)
    requires IsTree(fs) && ClosedUnderParents(kept) && c in kept && |c| == |cur| + 1 && Below(cur, c) && c !in done
    ensures var now := Pruned(fs, kept, cur, done);
            && Pruned(now, kept, c, Children(now, c)) == Pruned(fs, kept, cur, done + {c})
            && (c in now && !now[c].Dir? ==> now == Pruned(fs, kept, cur, done + {c}))
  {
    hide IsTree, ClosedUnderParents;
    var now := Pruned(fs, kept, cur, done);
    PrunedIsTree(fs, kept, cur, done);
    forall q | q in now && Below(c, q)
      ensures Branch(c, q) in Children(now, c) && (c in now ==> now[c].Dir?)
    {
      WayIsThere(now, c, q);
    }
    forall q | q in fs
      ensures Below(c, q) || q == c <==> Below(cur, q) && Branch(cur, q) == c
    {
    }
  }

  // ---- what the walk counts ----

  lemma CountDeleted(fs: Tree, kept: set<Path>, cur: Path, done: set<Path>, c: Path, kind: Kind)
    requires ClosedUnderParents(kept) && c in Children(fs, cur) && c !in kept && c !in done
    ensures |Tops(fs, kept, cur, done + {c}, kind)|
            == |Tops(fs, kept, cur, done, kind)| + if fs[c] == kind then 1 else 0
  {
    hide IsTop, ClosedUnderParents;
    var before, after := Tops(fs, kept, cur, done, kind), Tops(fs, kept, cur, done + {c}, kind);
    forall q | q in fs && Below(cur, q) && Branch(cur, q) == c
      ensures IsTop(fs, kept, cur, q) <==> q == c
    {
      OnlyTop(fs, kept, cur, c, q);
    }
    forall q | q in fs && IsTop(fs, kept, cur, q)
      ensures Below(cur, q)
    {
      TopIsBelow(fs, kept, cur, q);
    }
    assert Branch(cur, c) == c && c !in before;
    assert after == before + if fs[c] == kind then {c} else {};
  }

  lemma TopIsBelow(fs: Tree, kept: set<Path>, cur: Path, q: Path)
    requires q in fs && IsTop(fs, kept, cur, q)
    ensures Below(cur, q)
  {
  }

  lemma OnlyTop(fs: Tree, kept: set<Path>, cur: Path, c: Path, q: Path)
    requires ClosedUnderParents(kept) && c in Children(fs, cur) && c !in kept
    requires q in fs && Below(cur, q) && Branch(cur, q) == c
    ensures IsTop(fs, kept, cur, q) <==> q == c
  {
    if q == c {
      assert Parent(q) == cur;
    } else {
      assert c <= Parent(q) && c <= q;
    }
  }

  lemma CountKept(fs: Tree, kept: set<Path>, cur: Path, done: set<Path>, c: Path, kind: Kind)
    requires IsTree(fs) && c in Children(fs, cur) && c in kept && c !in done
    ensures |Tops(fs, kept, cur, done + {c}, kind)|
         == |Tops(fs, kept, cur, done, kind)| + |Tops(fs, kept, c, Children(fs, c), kind)|
    ensures !fs[c].Dir? ==> Tops(fs, kept, c, Children(fs, c), kind) == {}
  {
    hide IsTree;
    var before, inside := Tops(fs, kept, cur, done, kind), Tops(fs, kept, c, Children(fs, c), kind);
    forall q | q in fs && Below(cur, q) && Branch(cur, q) == c
      ensures IsTop(fs, kept, cur, q) <==> IsTop(fs, kept, c, q)
      ensures Below(c, q) ==> Branch(c, q) in Children(fs, c) && fs[c].Dir?
    {
      if q != c {
        assert Below(c, q);
        WayIsThere(fs, c, q);
      }
    }
    forall q | q in inside
      ensures Below(cur, q) && Branch(cur, q) == c && fs[c].Dir?
    {
      WayIsThere(fs, c, q);
    }
    assert before !! inside;
    assert Tops(fs, kept, cur, done + {c}, kind) == before + inside;
  }

  /** Pruning other branches changes nothing below this one. */
  lemma SameInside(fs: Tree, kept: set<Path>, cur: Path, done: set<Path>, c: Path)
    requires c in Children(fs, cur) && c !in done
    ensures var now := Pruned(fs, kept, cur, done);
            && c in now && now[c] == fs[c]
            && Children(now, c) == Children(fs, c)
            && forall kind: Kind ::
              Tops(now, kept, c, Children(now, c), kind) == Tops(fs, kept, c, Children(fs, c), kind)
  {
    var now := Pruned(fs, kept, cur, done);
    forall q | q in fs && Below(c, q)
      ensures q in now
    {
      assert Branch(cur, q) == c;
    }
    assert Branch(cur, c) == c;
  }

  // ---- the walk ----

  datatype Counts = Counts(files: nat, dirs: nat, symlinks: nat) {
    function Of(kind: Kind): nat { match kind case File => files case Dir => dirs case Symlink => symlinks }

    function Plus(kind: Kind): Counts {
      match kind
      case File => this.(files := files + 1)
      case Dir => this.(dirs := dirs + 1)
      case Symlink => this.(symlinks := symlinks + 1)
    }
  }

  /** From one state of the counters to another: each kind by its topmost deletions. */
  ghost predicate Counted(fs: Tree, kept: set<Path>, cur: Path, done: set<Path>, a: Counts, b: Counts) {
    forall kind: Kind :: b.Of(kind) == a.Of(kind) + |Tops(fs, kept, cur, done, kind)|
  }

  lemma CountedDeleted(fs: Tree, kept: set<Path>, cur: Path, done: set<Path>, c: Path, a: Counts, b: Counts)
    requires ClosedUnderParents(kept) && c in Children(fs, cur) && c !in kept && c !in done
    requires Counted(fs, kept, cur, done, a, b)
    ensures Counted(fs, kept, cur, done + {c}, a, b.Plus(fs[c]))
  {
    hide Tops, ClosedUnderParents;
    forall kind: Kind
      ensures b.Plus(fs[c]).Of(kind) == a.Of(kind) + |Tops(fs, kept, cur, done + {c}, kind)|
    {
      CountDeleted(fs, kept, cur, done, c, kind);
    }
  }

  lemma CountedKept(fs: Tree, kept: set<Path>, cur: Path, done: set<Path>, c: Path, a: Counts, b: Counts, d: Counts)
    requires IsTree(fs) && c in Children(fs, cur) && c in kept && c !in done
    requires Counted(fs, kept, cur, done, a, b)
    requires || Counted(fs, kept, c, Children(fs, c), b, d)
             || Counted(Pruned(fs, kept, cur, done), kept, c, Children(Pruned(fs, kept, cur, done), c), b, d)
    ensures Counted(fs, kept, cur, done + {c}, a, d)
  {
    hide Tops, IsTree, Pruned;
    SameInside(fs, kept, cur, done, c);
    forall kind: Kind
      ensures d.Of(kind) == a.Of(kind) + |Tops(fs, kept, cur, done + {c}, kind)|
    {
      CountKept(fs, kept, cur, done, c, kind);
    }
  }

  lemma CountedFile(fs: Tree, kept: set<Path>, cur: Path, done: set<Path>, c: Path, a: Counts, b: Counts)
    requires IsTree(fs) && c in Children(fs, cur) && c in kept && c !in done && !fs[c].Dir?
    requires Counted(fs, kept, cur, done, a, b)
    ensures Counted(fs, kept, cur, done + {c}, a, b)
  {
    hide Tops, IsTree;
    forall kind: Kind
      ensures b.Of(kind) == a.Of(kind) + |Tops(fs, kept, cur, done + {c}, kind)|
    {
      CountKept(fs, kept, cur, done, c, kind);
    }
  }

  lemma NothingBelowFile(fs: Tree, c: Path, q: Path)
    requires IsTree(fs) && c in fs && !fs[c].Dir? && q in fs
    ensures !Below(c, q)
  {
    if Below(c, q) {
      WayIsThere(fs, c, q);
    }
  }

  class Destination {
    var fs: Tree
    var deleted: Counts

    constructor (fs: Tree)
      ensures this.fs == fs && deleted == Counts(0, 0, 0)
    {
      this.fs, deleted := fs, Counts(0, 0, 0);
    }

    /** Remove an entry, and all below it when it is a directory. */
    method Remove(c: Path)
      requires IsTree(fs) && c in fs
      modifies `fs
      ensures fs == Without(old(fs), c)
    {
      if fs[c].Dir? {
        fs := Without(fs, c);
      } else {
        forall q | q in fs
          ensures !Below(c, q)
        {
          NothingBelowFile(fs, c, q);
        }
        fs := fs - {c};
      }
    }

    /** Visit the entries of a directory in any order; `below` bounds what lies below it. */
    method Walk(cur: Path, kept: set<Path>, dryRun: bool, ghost below: set<Path>)
      requires IsTree(fs) && ClosedUnderParents(kept)
      requires forall q :: q in fs && Below(cur, q) ==> q in below
      modifies this
      ensures fs == if dryRun then old(fs) else Pruned(old(fs), kept, cur, Children(old(fs), cur))
      ensures Counted(old(fs), kept, cur, Children(old(fs), cur), old(deleted), deleted)
      decreases below, 1
    {
      hide IsTree, ClosedUnderParents, IsTop, Pruned, Counted;
      ghost var was, count := fs, deleted;
      var todo := Children(fs, cur);
      ghost var done: set<Path> := {};
      NothingDone(fs, kept, cur, count);
      while todo != {}
        invariant done + todo == Children(was, cur) && done !! todo
        invariant fs == if dryRun then was else Pruned(was, kept, cur, done)
        invariant Counted(was, kept, cur, done, count, deleted)
      {
        var c :| c in todo;
        todo := todo - {c};
        Visit(cur, c, kept, dryRun, was, done, count, below);
        done := done + {c};
      }
    }

    /** One entry of the directory `cur`, those in `done` having been visited. */
    method Visit(cur: Path, c: Path, kept: set<Path>, dryRun: bool, ghost was: Tree, ghost done: set<Path>,
                 ghost count: Counts, ghost below: set<Path>)
      requires IsTree(was) && ClosedUnderParents(kept) && c in Children(was, cur) && c !in done
      requires forall q :: q in was && Below(cur, q) ==> q in below
      requires fs == if dryRun then was else Pruned(was, kept, cur, done)
      requires Counted(was, kept, cur, done, count, deleted)
      modifies this
      ensures fs == if dryRun then was else Pruned(was, kept, cur, done + {c})
      ensures Counted(was, kept, cur, done + {c}, count, deleted)
      decreases below, 0
    {
      hide IsTree, ClosedUnderParents, IsTop, Pruned, Counted;
      PrunedIsTree(was, kept, cur, done);
      SameInside(was, kept, cur, done, c);
      if c in kept {
        KeepBranch(was, kept, cur, done, c);
        if fs[c].Dir? {
          ghost var inside := set q | q in below && Below(c, q);
          SmallerBelow(was, kept, cur, done, c, below);
          ghost var before := deleted;
          Walk(c, kept, dryRun, inside);
          CountedKept(was, kept, cur, done, c, count, before, deleted);
        } else {
          CountedFile(was, kept, cur, done, c, count, deleted);
        }
      } else {
        CountedDeleted(was, kept, cur, done, c, count, deleted);
        RemoveBranch(was, kept, cur, done, c);
        var kind := fs[c];
        if !dryRun {
          Remove(c);
        }
        deleted := deleted.Plus(kind);
      }
    }

    /** After a real walk an entry is there exactly when it was there and is kept; a dry walk changes nothing and
        counts the same. */
    method DeleteExtraneous(listed: seq<Path>, dryRun: bool) returns (r: Counts, ghost kept: set<Path>)
      requires IsTree(fs)
      modifies this
      ensures Keeps(listed, kept)
      ensures dryRun ==> fs == old(fs)
      ensures !dryRun ==> fs == map q | q in old(fs) && q in kept :: old(fs)[q]
      ensures forall kind: Kind :: r.Of(kind) == |Topmost(old(fs), kept, kind)|
    {
      hide IsTree, ClosedUnderParents, Pruned, Tops, Topmost;
      var keep := KeepSet(listed);
      kept := keep;
      KeepsIsClosed(listed, keep);
      deleted := Counts(0, 0, 0);
      ghost var was := fs;
      Walk([], keep, dryRun, was.Keys);
      WholeTree(was, keep);
      r := deleted;
    }
  }

  /** The entries that are not kept but whose directory is. */
  function Topmost(fs: Tree, kept: set<Path>, kind: Kind): set<Path> {
    set q | q in fs && q != [] && q !in kept && (Parent(q) == [] || Parent(q) in kept) && fs[q] == kind
  }

  lemma WholeTree(fs: Tree, kept: set<Path>)
    requires IsTree(fs)
    ensures Pruned(fs, kept, [], Children(fs, [])) == map q | q in fs && q in kept :: fs[q]
    ensures forall kind: Kind :: Tops(fs, kept, [], Children(fs, []), kind) == Topmost(fs, kept, kind)
  {
    hide IsTree;
    forall q | q in fs
      ensures Below([], q) && Branch([], q) in Children(fs, [])
    {
      assert q != [] by { NoRootEntry(fs, q); }
      WayIsThere(fs, [], q);
    }
    hide Children;
    forall kind: Kind
      ensures Tops(fs, kept, [], Children(fs, []), kind) == Topmost(fs, kept, kind)
    {
    }
  }

  lemma NoRootEntry(fs: Tree, q: Path)
    requires IsTree(fs) && q in fs
    ensures q != []
  {
  }

  lemma NothingDone(fs: Tree, kept: set<Path>, cur: Path, count: Counts)
    ensures Pruned(fs, kept, cur, {}) == fs && Counted(fs, kept, cur, {}, count, count)
  {
    assert forall kind: Kind :: Tops(fs, kept, cur, {}, kind) == {};
  }

  lemma SmallerBelow(fs: Tree, kept: set<Path>, cur: Path, done: set<Path>, c: Path, below: set<Path>)
    requires c in Children(fs, cur) && forall q :: q in fs && Below(cur, q) ==> q in below
    ensures var inside := set q | q in below && Below(c, q);
            && c in below && c !in inside
            && forall q :: q in fs && Below(c, q) ==> q in inside
    ensures forall q :: q in Pruned(fs, kept, cur, done) ==> q in fs
  {
  }
}
