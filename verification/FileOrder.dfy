/** The order of file-list entries (flist/sort.rs). */
module FileOrder {
  import opened Bytes
  import opened FileTypes

  datatype Ordering = Less | Equal | Greater

  // ---- the order as it should be: lexicographic on (type, byte) keys ----

  /** A byte seen as part of a directory path sorts after every byte seen as part of an item's name. */
  function Keys(text: seq<byte>, path: bool): (k: seq<int>)
    ensures |k| == |text|
  {
    seq(|text|, i requires 0 <= i < |text| => KeyOf(text[i], path))
  }

  function KeyOf(b: byte, path: bool): int {
    var code: int := b;
    if path then 256 + code else code
  }

  /** The part of an entry's text that names directories, each followed by a slash. */
  function DirText(f: FileInfo): seq<byte> {
    (if f.dirname.Some? && f.dirname.value != [] then f.dirname.value + [SLASH] else [])
    + (if f.IsDir() && f.name != [DOT] then f.name + [SLASH] else [])
  }

  function ItemText(f: FileInfo): seq<byte> { if f.IsDir() then [] else f.name }

  function Key(f: FileInfo): seq<int> { Keys(DirText(f), true) + Keys(ItemText(f), false) }

  function Lex(x: seq<int>, y: seq<int>): Ordering {
    if x == [] then (if y == [] then Equal else Less)
    else if y == [] then Greater
    else if x[0] < y[0] then Less
    else if x[0] > y[0] then Greater
    else Lex(x[1..], y[1..])
  }

  function Compare(a: FileInfo, b: FileInfo): Ordering { Lex(Key(a), Key(b)) }

  // ---- the walker ----

  datatype FncState = AtDir | AtSlash | AtBase | AtTrailing

  class Walker {
    var cur: seq<byte>
    var path: bool  // t_PATH, else t_ITEM
    var state: FncState
    var done: bool
    const isDir: bool
    const base: seq<byte>

    /** The keys still to come. */
    ghost function Remaining(): seq<int>
      reads this
    {
      if done then []
      else match state
        case AtDir => Keys(cur, true) + (Keys([SLASH], true) + Tail())
        case AtSlash => Keys(cur, true) + Tail()
        case AtBase => Keys(cur, path) + (if path then Keys([SLASH], true) else [])
        case AtTrailing => Keys(cur, path)
    }

    /** The keys of the last component. */
    ghost function Tail(): seq<int>
    {
      if !isDir then Keys(base, false)
      else if base == [DOT] then []
      else Keys(base, true) + Keys([SLASH], true)
    }

    ghost predicate Valid()
      reads this
    {
      && (state.AtDir? || state.AtSlash? ==> path)
      && (state.AtBase? ==> (path <==> isDir))
      && (done ==> !path)
    }

    constructor (f: FileInfo)
      ensures Valid() && Remaining() == Key(f)
    {
      base := f.name;
      isDir := f.IsDir();
      done := false;
      if f.dirname.Some? && f.dirname.value != [] {
        cur, path, state := f.dirname.value, true, AtDir;
      } else if f.IsDir() && f.name == [DOT] {
        cur, path, state := [], false, AtTrailing;
      } else {
        cur, path, state := f.name, f.IsDir(), AtBase;
      }
      new;
      hide Keys, Key;
      KeysEmpty();
      KeyByParts(f);
    }

    /** Produce the next byte and leave its type in `path`; at the end produce none and be an item. */
    method Refill() returns (r: Option<byte>)
      requires Valid()
      modifies this
      ensures Valid()
      ensures old(Remaining()) == [] ==> r.None? && Remaining() == [] && !path
      ensures old(Remaining()) != [] ==>
          r.Some? && old(Remaining())[0] == KeyOf(r.value, path) && Remaining() == old(Remaining())[1..]
    {
      hide Keys, KeyOf;
      KeysEmpty();
      if done {
        return None;
      }
      while true
        invariant Valid() && !done && Remaining() == old(Remaining())
        decreases match state case AtDir => 3 case AtSlash => 2 case AtBase => 1 case AtTrailing => 0
      {
        if cur != [] {
          ghost var after := Keys([SLASH], true) + Tail();
          TakeOne(cur, path, after);
          TakeOne(cur, path, Tail());
          TakeOne(cur, path, if path then Keys([SLASH], true) else []);
          TakeOne(cur, path, []);
          var b := cur[0];
          cur := cur[1..];
          return Some(b);
        }
        match state {
          case AtDir =>
            state, cur := AtSlash, [SLASH];
          case AtSlash =>
            path := isDir;
            if path && base == [DOT] {
              path, state, cur := false, AtTrailing, [];
            } else {
              state, cur := AtBase, base;
            }
          case AtBase =>
            state := AtTrailing;
            if path {
              cur := [SLASH];
            } else {
              done := true;
              return None;
            }
          case AtTrailing =>
            path, done := false, true;
            return None;
        }
      }
    }
  }

  /** Taking the first byte takes the first key, whatever follows. */
  lemma TakeOne(text: seq<byte>, path: bool, after: seq<int>)
    requires text != []
    ensures (Keys(text, path) + after)[0] == KeyOf(text[0], path)
    ensures (Keys(text, path) + after)[1..] == Keys(text[1..], path) + after
    ensures after == [] ==>
              Keys(text, path) + after == Keys(text, path) && Keys(text[1..], path) + after == Keys(text[1..], path)
  {
    hide KeyOf;
  }

  lemma KeysEmpty()
    ensures Keys([], true) == [] && Keys([], false) == []
    ensures forall x: seq<int> :: [] + x == x && x + [] == x
  {
  }

  lemma KeyByParts(f: FileInfo)
    ensures var last := if !f.IsDir() then Keys(f.name, false)
                        else if f.name == [DOT] then []
                        else Keys(f.name, true) + Keys([SLASH], true);
            Key(f) == if f.dirname.Some? && f.dirname.value != []
                      then Keys(f.dirname.value, true) + (Keys([SLASH], true) + last)
                      else last
  {
    hide Keys, KeyOf, FileInfo.IsDir;
    var dir := if f.dirname.Some? && f.dirname.value != [] then f.dirname.value + [SLASH] else [];
    var own := if f.IsDir() && f.name != [DOT] then f.name + [SLASH] else [];
    KeysAppend(dir, own, true);
    var last := Keys(own, true) + Keys(ItemText(f), false);
    assert Key(f) == Keys(dir, true) + last;
    LastKeys(f);
    if dir != [] {
      KeysAppend(f.dirname.value, [SLASH], true);
      assert Keys(dir, true) + last == Keys(f.dirname.value, true) + (Keys([SLASH], true) + last);
    } else {
      NoKeys(true);
      assert [] + last == last;
    }
  }

  lemma LastKeys(f: FileInfo)
    ensures Keys(if f.IsDir() && f.name != [DOT] then f.name + [SLASH] else [], true) + Keys(ItemText(f), false)
            == if !f.IsDir() then Keys(f.name, false)
               else if f.name == [DOT] then []
               else Keys(f.name, true) + Keys([SLASH], true)
  {
    hide Keys, FileInfo.IsDir;
    NoKeys(true);
    NoKeys(false);
    if f.IsDir() && f.name != [DOT] {
      KeysAppend(f.name, [SLASH], true);
    }
  }

  lemma NoKeys(path: bool)
    ensures Keys([], path) == []
  {
  }

  lemma KeysAppend(a: seq<byte>, b: seq<byte>, path: bool)
    ensures Keys(a + b, path) == Keys(a, path) + Keys(b, path)
  {
  }

  /** The byte-walking comparison is the lexicographic one. */
  method FileCompare(a: FileInfo, b: FileInfo) returns (r: Ordering)
    ensures r == Compare(a, b)
    ensures r == Less <==> Precedes(a, b)
    ensures r == Equal <==> DirText(a) == DirText(b) && ItemText(a) == ItemText(b)
  {
    CompareByText(a, b);
    hide Precedes, DirText, ItemText;
    hide Keys, Key, Walker.Remaining, Walker.Valid;
    var w1 := new Walker(a);
    var w2 := new Walker(b);
    while true
      invariant fresh(w1) && fresh(w2) && w1 != w2 && w1.Valid() && w2.Valid()
      invariant Lex(w1.Remaining(), w2.Remaining()) == Compare(a, b)
      decreases |w1.Remaining()|
    {
      var r1 := w1.Refill();
      var r2 := w2.Refill();
      if w1.path != w2.path {
        return if w1.path then Greater else Less;
      }
      if r1.Some? && r2.Some? {
        if r1.value < r2.value {
          return Less;
        } else if r1.value > r2.value {
          return Greater;
        }
      } else if r1.Some? {
        return Greater;
      } else if r2.Some? {
        return Less;
      } else {
        return Equal;
      }
    }
  }

  // ---- which entry comes first, in terms of the bytes ----

  /** x comes before y: it is the beginning of y, or has the lower byte where they first differ. */
  ghost predicate BytesBefore(x: seq<byte>, y: seq<byte>) {
    || (x <= y && x != y)
    || exists i :: 0 <= i < |x| && i < |y| && x[..i] == y[..i] && x[i] < y[i]
  }

  lemma BeforeAt(x: seq<byte>, y: seq<byte>, i: nat)
    requires i < |x| && i < |y| && x[..i] == y[..i] && x[i] < y[i]
    ensures BytesBefore(x, y)
  {
  }

  lemma BeforeCons(a: byte, x: seq<byte>, b: byte, y: seq<byte>)
    ensures BytesBefore([a] + x, [b] + y) <==> a < b || (a == b && BytesBefore(x, y))
  {
    var p, q := [a] + x, [b] + y;
    PrefixCons(a, x, b, y);
    if a < b {
      BeforeAt(p, q, 0);
    } else if a == b && BytesBefore(x, y) {
      if !(x <= y && x != y) {
        var i :| 0 <= i < |x| && i < |y| && x[..i] == y[..i] && x[i] < y[i];
        assert p[..i + 1] == [a] + x[..i] && q[..i + 1] == [b] + y[..i];
        BeforeAt(p, q, i + 1);
      }
    } else if BytesBefore(p, q) {
      if !(p <= q && p != q) {
        TailBefore(a, x, b, y);
      }
    }
  }

  lemma PrefixCons(a: byte, x: seq<byte>, b: byte, y: seq<byte>)
    ensures [a] + x <= [b] + y <==> a == b && x <= y
    ensures [a] + x == [b] + y <==> a == b && x == y
  {
    var p, q := [a] + x, [b] + y;
    assert p[1..] == x && q[1..] == y;
    if p <= q {
      assert p[0] == q[0] && p == q[..|p|] && q[..|p|][1..] == y[..|x|];
      assert x == y[..|x|];
    }
    if a == b && x <= y {
      assert x == y[..|x|] && q[..|p|] == [b] + y[..|x|];
    }
  }

  lemma TailBefore(a: byte, x: seq<byte>, b: byte, y: seq<byte>)
    requires BytesBefore([a] + x, [b] + y) && !([a] + x <= [b] + y && [a] + x != [b] + y)
    ensures a < b || (a == b && BytesBefore(x, y))
  {
    var p, q := [a] + x, [b] + y;
    var i :| 0 <= i < |p| && i < |q| && p[..i] == q[..i] && p[i] < q[i];
    if i > 0 {
      TakeCons(a, x, i);
      TakeCons(b, y, i);
      PrefixCons(a, x[..i - 1], b, y[..i - 1]);
      assert x[i - 1] < y[i - 1];
    }
  }

  lemma TakeCons(a: byte, x: seq<byte>, i: nat)
    requires 0 < i <= |x| + 1
    ensures ([a] + x)[..i] == [a] + x[..i - 1]
  {
  }

  /** Comparing keys is comparing what they are keys of. */
  lemma {:induction false} LexOfItems(x: seq<byte>, y: seq<byte>)
    ensures Lex(Keys(x, false), Keys(y, false)) == Less <==> BytesBefore(x, y)
    ensures Lex(Keys(x, false), Keys(y, false)) == Equal <==> x == y
  {
    hide BytesBefore;
    if x == [] || y == [] {
      BeforeNone(x, y);
    } else {
      KeysFirst(x, false);
      KeysFirst(y, false);
      LexOfItems(x[1..], y[1..]);
      BeforeCons(x[0], x[1..], y[0], y[1..]);
      assert x == [x[0]] + x[1..] && y == [y[0]] + y[1..];
    }
  }

  lemma BeforeNone(x: seq<byte>, y: seq<byte>)
    requires x == [] || y == []
    ensures BytesBefore(x, y) <==> x == [] && y != []
  {
  }

  lemma KeysFirst(x: seq<byte>, path: bool)
    requires x != []
    ensures Keys(x, path) != [] && Keys(x, path)[0] == KeyOf(x[0], path) && Keys(x, path)[1..] == Keys(x[1..], path)
  {
  }

  lemma {:induction false} LexOfTexts(dx: seq<byte>, x: seq<byte>, dy: seq<byte>, y: seq<byte>)
    ensures var o := Lex(Keys(dx, true) + Keys(x, false), Keys(dy, true) + Keys(y, false));
            && (o == Less <==> BytesBefore(dx, dy) || (dx == dy && BytesBefore(x, y)))
            && (o == Equal <==> dx == dy && x == y)
  {
    hide BytesBefore, Keys;
    NoKeys(true);
    if dx == [] || dy == [] {
      BeforeNone(dx, dy);
      LexOfItems(x, y);
      assert [] + Keys(x, false) == Keys(x, false) && [] + Keys(y, false) == Keys(y, false);
      if dx != [] || dy != [] {
        ItemBelowPath(dx, x, dy, y);
      }
    } else {
      KeysFirst(dx, true);
      KeysFirst(dy, true);
      LexOfTexts(dx[1..], x, dy[1..], y);
      BeforeCons(dx[0], dx[1..], dy[0], dy[1..]);
      assert dx == [dx[0]] + dx[1..] && dy == [dy[0]] + dy[1..];
      var k, l := Keys(dx, true) + Keys(x, false), Keys(dy, true) + Keys(y, false);
      assert k[1..] == Keys(dx[1..], true) + Keys(x, false) && l[1..] == Keys(dy[1..], true) + Keys(y, false);
    }
  }

  /** Where one side still has a directory and the other does not, the directory comes later. */
  lemma ItemBelowPath(dx: seq<byte>, x: seq<byte>, dy: seq<byte>, y: seq<byte>)
    requires (dx == []) != (dy == [])
    ensures Lex(Keys(dx, true) + Keys(x, false), Keys(dy, true) + Keys(y, false)) == if dx == [] then Less else Greater
  {
    hide Keys;
    NoKeys(true);
    NoKeys(false);
    if dx == [] {
      KeysFirst(dy, true);
      if x != [] {
        KeysFirst(x, false);
      }
    } else {
      KeysFirst(dx, true);
      if y != [] {
        KeysFirst(y, false);
      }
    }
  }

  /** The order in terms of the names: by the directories on the way, then by the name of what is no directory. */
  ghost predicate Precedes(a: FileInfo, b: FileInfo) {
    BytesBefore(DirText(a), DirText(b)) || (DirText(a) == DirText(b) && BytesBefore(ItemText(a), ItemText(b)))
  }

  /** The exact meaning of the comparison, for every two entries. */
  lemma CompareByText(a: FileInfo, b: FileInfo)
    ensures Compare(a, b) == Less <==> Precedes(a, b)
    ensures Compare(a, b) == Equal <==> DirText(a) == DirText(b) && ItemText(a) == ItemText(b)
  {
    hide BytesBefore, DirText, ItemText;
    LexOfTexts(DirText(a), ItemText(a), DirText(b), ItemText(b));
  }

  /** Directory text and item text are the path, with a slash behind a directory other than ".". */
  lemma TextsArePath(f: FileInfo)
    ensures !f.IsDir() ==> DirText(f) + ItemText(f) == f.Path() && ItemText(f) == f.name
    ensures f.IsDir() && f.name != [0x2E] ==> DirText(f) == f.Path() + [0x2F] && ItemText(f) == []
    ensures f.IsDir() && f.name == [0x2E] ==> DirText(f) + [0x2E] == f.Path() && ItemText(f) == []
  {
  }

  /** In one directory, files are in the order of their names: the shorter first when one begins the other, else the one
      with the lower byte where they first differ. */
  lemma FilesByName(f: FileInfo, g: FileInfo)
    requires !f.IsDir() && !g.IsDir() && DirText(f) == DirText(g)
    ensures Compare(f, g) == Less
            <==> ((f.name <= g.name && f.name != g.name)
                  || exists i ::
                       0 <= i < |f.name| && i < |g.name| && f.name[..i] == g.name[..i] && f.name[i] < g.name[i])
  {
    CompareByText(f, g);
    BeforeIrreflexive(DirText(f));
  }

  lemma BeforeIrreflexive(x: seq<byte>)
    ensures !BytesBefore(x, x)
  {
  }

  /** Entries of different directories are in the order of the first byte in which these differ. */
  lemma DirectoriesByByte(f: FileInfo, g: FileInfo, i: nat)
    requires i < |DirText(f)| && i < |DirText(g)|
    requires DirText(f)[..i] == DirText(g)[..i] && DirText(f)[i] != DirText(g)[i]
    ensures Compare(f, g) == if DirText(f)[i] < DirText(g)[i] then Less else Greater
  {
    hide DirText, ItemText, Compare;
    CompareByText(f, g);
    CompareByText(g, f);
    CompareIsTotalPreorder(f, g, g);
    var x, y := DirText(f), DirText(g);
    if x[i] < y[i] {
      assert BytesBefore(x, y);
    } else {
      assert BytesBefore(y, x);
    }
  }

  // ---- it is an order ----

  function Flip(o: Ordering): Ordering { match o case Less => Greater case Greater => Less case Equal => Equal }

  lemma {:induction false} LexFlips(x: seq<int>, y: seq<int>)
    ensures Lex(y, x) == Flip(Lex(x, y))
    ensures Lex(x, y) == Equal <==> x == y
  {
    if x != [] && y != [] && x[0] == y[0] {
      LexFlips(x[1..], y[1..]);
      assert x == [x[0]] + x[1..] && y == [y[0]] + y[1..];
    }
  }

  lemma {:induction false} LexTransitive(x: seq<int>, y: seq<int>, z: seq<int>)
    requires Lex(x, y) != Greater && Lex(y, z) != Greater
    ensures Lex(x, z) != Greater
    ensures Lex(x, z) == Equal ==> Lex(x, y) == Equal && Lex(y, z) == Equal
  {
    if x != [] && y != [] && z != [] && x[0] == y[0] == z[0] {
      LexTransitive(x[1..], y[1..], z[1..]);
    }
  }

  /** The comparison is a total preorder: total and consistent when turned round, transitive, and equal exactly on
      entries with the same key. */
  lemma CompareIsTotalPreorder(a: FileInfo, b: FileInfo, c: FileInfo)
    ensures Compare(a, a) == Equal
    ensures Compare(b, a) == Flip(Compare(a, b))
    ensures Compare(a, b) != Greater && Compare(b, c) != Greater ==> Compare(a, c) != Greater
    ensures Compare(a, b) == Equal <==> Key(a) == Key(b)
  {
    hide Key;
    LexFlips(Key(a), Key(a));
    LexFlips(Key(a), Key(b));
    if Compare(a, b) != Greater && Compare(b, c) != Greater {
      LexTransitive(Key(a), Key(b), Key(c));
    }
  }

  // ---- what the order means for directories ----

  lemma {:induction false} LexSharedPrefix(p: seq<int>, x: seq<int>, y: seq<int>)
    ensures Lex(p + x, p + y) == Lex(x, y)
  {
    if p == [] {
      assert p + x == x && p + y == y;
    } else {
      assert (p + x)[1..] == p[1..] + x && (p + y)[1..] == p[1..] + y;
      LexSharedPrefix(p[1..], x, y);
    }
  }

  /** Between two sequences with a common prefix lie only sequences with that prefix. */
  lemma {:induction false} LexConvex(p: seq<int>, x: seq<int>, y: seq<int>, z: seq<int>)
    requires p <= x && p <= z && Lex(x, y) != Greater && Lex(y, z) != Greater
    ensures p <= y
  {
    if p != [] {
      LexConvex(p[1..], x[1..], y[1..], z[1..]);
    }
  }

  /** f is the directory d or lies anywhere below it. */
  predicate Within(d: FileInfo, f: FileInfo) { DirText(d) <= DirText(f) }

  /** A directory entry other than "." */
  predicate NamedDir(d: FileInfo) { d.IsDir() && d.name != [DOT] }

  lemma NamedDirText(d: FileInfo)
    requires NamedDir(d)
    ensures DirText(d) == d.Path() + [SLASH] && Key(d) == Keys(DirText(d), true)
  {
    assert Keys(ItemText(d), false) == [];
  }

  /** Lying below a directory is having its key as a prefix. */
  lemma WithinIsPrefix(d: FileInfo, f: FileInfo)
    requires NamedDir(d)
    ensures Within(d, f) <==> Key(d) <= Key(f)
  {
    NamedDirText(d);
    KeysPrefix(DirText(d), DirText(f), ItemText(f));
  }

  lemma KeysPrefix(p: seq<byte>, dir: seq<byte>, item: seq<byte>)
    ensures p <= dir <==> Keys(p, true) <= Keys(dir, true) + Keys(item, false)
  {
    var k := Keys(dir, true) + Keys(item, false);
    if |p| > |dir| {
      LongerIsNoPrefix(p, dir, item);
    } else if Keys(p, true) <= k {
      forall i | 0 <= i < |p|
        ensures p[i] == dir[i]
      {
        assert KeyOf(p[i], true) == Keys(p, true)[i] == k[i] == KeyOf(dir[i], true);
      }
    }
  }

  lemma LongerIsNoPrefix(p: seq<byte>, dir: seq<byte>, item: seq<byte>)
    requires |p| > |dir|
    ensures !(Keys(p, true) <= Keys(dir, true) + Keys(item, false))
  {
    var k := Keys(dir, true) + Keys(item, false);
    if |p| <= |k| {
      assert k[|dir|] == KeyOf(item[0], false) < 256 <= KeyOf(p[|dir|], true) == Keys(p, true)[|dir|];
    }
  }

  /** A list in the order of the comparison. */
  ghost predicate Sorted(files: seq<FileInfo>) {
    forall i, j :: 0 <= i < j < |files| ==> Compare(files[i], files[j]) != Greater
  }

  /** A directory comes before everything below it. */
  lemma DirectoryFirst(d: FileInfo, f: FileInfo)
    requires NamedDir(d) && Within(d, f)
    ensures Compare(d, f) == if Key(f) == Key(d) then Equal else Less
  {
    WithinIsPrefix(d, f);
    var rest := Key(f)[|Key(d)|..];
    assert Key(f) == Key(d) + rest && Key(d) == Key(d) + [];
    LexSharedPrefix(Key(d), [], rest);
  }

  /** A directory and all below it are consecutive in a sorted list. */
  lemma SubtreeContiguous(files: seq<FileInfo>, d: FileInfo, i: nat, j: nat, k: nat)
    requires Sorted(files) && i < j < k < |files| && NamedDir(d)
    requires Within(d, files[i]) && Within(d, files[k])
    ensures Within(d, files[j])
  {
    hide Within, Key;
    WithinIsPrefix(d, files[i]);
    WithinIsPrefix(d, files[j]);
    WithinIsPrefix(d, files[k]);
    LexConvex(Key(d), Key(files[i]), Key(files[j]), Key(files[k]));
  }

  /** The entries directly in a directory that are not directories come before its subdirectories and everything
      in them. */
  lemma FilesBeforeSubdirectories(f: FileInfo, g: FileInfo)
    requires !f.IsDir() && f.name != []
    requires DirText(f) <= DirText(g) && DirText(f) != DirText(g)
    ensures Compare(f, g) == Less
  {
    var p := Keys(DirText(f), true);
    var x, y := Key(f)[|p|..], Key(g)[|p|..];
    assert Key(f) == p + x;
    assert Key(g) == p + y by {
      assert forall i :: 0 <= i < |p| ==> p[i] == Key(g)[i];
    }
    assert x[0] == KeyOf(f.name[0], false);
    assert y[0] == KeyOf(DirText(g)[|p|], true);
    LexSharedPrefix(p, x, y);
  }
}
