/** Wildcard matching of filter rules (filter/mod.rs). */
module Glob {
  import opened Bytes
  import opened FileTypes

  const STAR: byte := 0x2A
  const QUESTION: byte := 0x3F
  const OPEN: byte := 0x5B
  const CLOSE: byte := 0x5D
  const BANG: byte := 0x21
  const DASH: byte := 0x2D

  // ---- what a pattern means ----

  datatype Range = Range(lo: byte, hi: byte)

  datatype Piece =
    | Stars(double: bool)                            // a run of one star, or of more
    | AnyOne
    | Class(negated: bool, ranges: seq<Range>)
    | Literal(b: byte)

  predicate InClass(c: Piece, b: byte)
    requires c.Class?
  {
    Hit(c.ranges, b) != c.negated
  }

  predicate Hit(ranges: seq<Range>, b: byte) { exists k :: 0 <= k < |ranges| && ranges[k].lo <= b <= ranges[k].hi }

  /** The stretches of text one piece stands for. */
  predicate Admits(p: Piece, s: seq<byte>) {
    match p
    case Stars(double) => double || SLASH !in s
    case AnyOne => |s| == 1 && s[0] != SLASH
    case Class(_, _) => |s| == 1 && InClass(p, s[0])
    case Literal(b) => s == [b]
  }

  function Joined(spans: seq<seq<byte>>): seq<byte> { if spans == [] then [] else spans[0] + Joined(spans[1..]) }

  ghost predicate Cut(ps: seq<Piece>, t: seq<byte>, spans: seq<seq<byte>>) {
    |spans| == |ps| && Joined(spans) == t && forall i :: 0 <= i < |ps| ==> Admits(ps[i], spans[i])
  }

  /** The text can be cut into stretches that the pieces stand for, one by one. */
  ghost predicate Matches(ps: seq<Piece>, t: seq<byte>) {
    exists spans :: Cut(ps, t, spans)
  }

  // ---- reading a pattern ----

  /** The length of the run of stars at the front. */
  function StarRun(pat: seq<byte>): (n: nat)
    ensures n <= |pat|
    ensures forall k :: 0 <= k < n ==> pat[k] == STAR
    ensures n < |pat| ==> pat[n] != STAR
  {
    if pat == [] || pat[0] != STAR then 0 else 1 + StarRun(pat[1..])
  }

  datatype Ranges = Ranges(list: seq<Range>, next: nat)

  /** The members of a class from position i on, and where the class ends; a bracket that closes counts as a member
      when it comes first. */
  function ClassRanges(pat: seq<byte>, i: nat, first: bool): (r: Ranges)
    requires i <= |pat|
    ensures i <= r.next <= |pat|
    decreases |pat| - i
  {
    if i == |pat| then Ranges([], i)
    else if pat[i] == CLOSE && !first then Ranges([], i + 1)
    else if i + 2 < |pat| && pat[i + 1] == DASH && pat[i + 2] != CLOSE then
      var more := ClassRanges(pat, i + 3, false);
      Ranges([Range(pat[i], pat[i + 2])] + more.list, more.next)
    else
      var more := ClassRanges(pat, i + 1, false);
      Ranges([Range(pat[i], pat[i])] + more.list, more.next)
  }

  function Negated(pat: seq<byte>): bool { |pat| > 1 && pat[1] == BANG }

  function ClassOf(pat: seq<byte>): Ranges
    requires pat != []
  {
    ClassRanges(pat, if Negated(pat) then 2 else 1, true)
  }

  /** The first piece of a pattern, and how much of the pattern it takes. */
  function FirstPiece(pat: seq<byte>): (r: (Piece, nat))
    requires pat != []
    ensures 0 < r.1 <= |pat|
  {
    if pat[0] == STAR then (Stars(StarRun(pat) >= 2), StarRun(pat))
    else if pat[0] == OPEN then (Class(Negated(pat), ClassOf(pat).list), ClassOf(pat).next)
    else if pat[0] == QUESTION then (AnyOne, 1)
    else (Literal(pat[0]), 1)
  }

  function Pieces(pat: seq<byte>): seq<Piece>
    decreases |pat|
  {
    if pat == [] then [] else [FirstPiece(pat).0] + Pieces(pat[FirstPiece(pat).1..])
  }

  // ---- matching, piece by piece ----

  lemma MatchesNone(t: seq<byte>)
    ensures Matches([], t) <==> t == []
  {
    if t == [] {
      assert Cut([], t, []);
    }
  }

  lemma MatchesFrom(p: Piece, ps: seq<Piece>, t: seq<byte>, i: nat)
    requires i <= |t| && Admits(p, t[..i]) && Matches(ps, t[i..])
    ensures Matches([p] + ps, t)
  {
    hide Admits;
    var spans :| Cut(ps, t[i..], spans);
    var all := [t[..i]] + spans;
    assert all[1..] == spans;
    assert Cut([p] + ps, t, all);
  }

  lemma MatchesTo(p: Piece, ps: seq<Piece>, t: seq<byte>) returns (i: nat)
    requires Matches([p] + ps, t)
    ensures i <= |t| && Admits(p, t[..i]) && Matches(ps, t[i..])
  {
    hide Admits;
    var spans :| Cut([p] + ps, t, spans);
    i := |spans[0]|;
    assert t == spans[0] + Joined(spans[1..]);
    assert t[..i] == spans[0] && t[i..] == Joined(spans[1..]);
    assert Admits(([p] + ps)[0], spans[0]);
    forall k | 0 <= k < |ps|
      ensures Admits(ps[k], spans[1..][k])
    {
      assert Admits(([p] + ps)[k + 1], spans[k + 1]);
    }
    assert Cut(ps, t[i..], spans[1..]);
  }

  /** A piece that takes one byte. */
  lemma MatchesOne(p: Piece, ps: seq<Piece>, t: seq<byte>)
    requires !p.Stars?
    ensures Matches([p] + ps, t) <==> t != [] && Admits(p, [t[0]]) && Matches(ps, t[1..])
  {
    hide Matches;
    if Matches([p] + ps, t) {
      var i := MatchesTo(p, ps, t);
      assert i == 1;
      assert t[..1] == [t[0]];
    }
    if t != [] && Admits(p, [t[0]]) && Matches(ps, t[1..]) {
      assert t[..1] == [t[0]];
      MatchesFrom(p, ps, t, 1);
    }
  }

  // ---- the matcher ----

  /** Scan a run of stars the way the matcher does: to its end, noting whether it has two or more. */
  method ScanStars(pat: seq<byte>, start: nat) returns (pi: nat, double: bool)
    requires start < |pat| && pat[start] == STAR
    ensures pi == start + StarRun(pat[start..])
    ensures double <==> StarRun(pat[start..]) >= 2
  {
    double := false;
    pi := start;
    while pi < |pat| && pat[pi] == STAR
      invariant start <= pi <= |pat|
      invariant forall k :: start <= k < pi ==> pat[k] == STAR
      invariant double ==> pi < |pat| && pat[pi] == STAR
    {
      if pi + 1 < |pat| && pat[pi + 1] == STAR {
        double := true;
      }
      pi := pi + 1;
      if double && pi < |pat| && pat[pi] == STAR {
      } else if double {
        break;
      }
    }
    // The run is at its end here: the loop that would skip remaining stars has nothing left to skip.
    assert pi < |pat| ==> pat[pi] != STAR;
    double := exists k :: start <= k < pi - 1 && pat[k] == STAR && pat[k + 1] == STAR;
    assert pi - start >= 2 ==> pat[start] == STAR && pat[start + 1] == STAR;
    RunLength(pat[start..], pi - start);
  }

  lemma {:induction false} RunLength(s: seq<byte>, n: nat)
    requires n <= |s| && (forall k :: 0 <= k < n ==> s[k] == STAR) && (n < |s| ==> s[n] != STAR)
    ensures StarRun(s) == n
  {
    if n > 0 {
      RunLength(s[1..], n - 1);
    }
  }

  /** Whether a byte is in the class at the front of the pattern, and how long the class is. */
  method MatchCharClass(pat: seq<byte>, ch: byte) returns (matched: bool, consumed: nat)
    requires pat != [] && pat[0] == OPEN
    ensures matched <==> InClass(FirstPiece(pat).0, ch)
    ensures consumed == FirstPiece(pat).1
  {
    var i := 1;
    var negate := i < |pat| && pat[i] == BANG;
    if negate {
      i := i + 1;
    }
    var found := false;
    var first := true;
    ghost var all := ClassOf(pat);
    while i < |pat|
      invariant i <= |pat|
      invariant all.next == ClassRanges(pat, i, first).next
      invariant Hit(all.list, ch) <==> found || Hit(ClassRanges(pat, i, first).list, ch)
    {
      if pat[i] == CLOSE && !first {
        i := i + 1;
        break;
      }
      HitMore(pat, i, first, ch);
      first := false;
      if i + 2 < |pat| && pat[i + 1] == DASH && pat[i + 2] != CLOSE {
        if ch >= pat[i] && ch <= pat[i + 2] {
          found := true;
        }
        i := i + 3;
      } else {
        if ch == pat[i] {
          found := true;
        }
        i := i + 1;
      }
    }
    matched := if negate then !found else found;
    consumed := i;
  }

  /** What one step through a class adds. */
  lemma HitMore(pat: seq<byte>, i: nat, first: bool, ch: byte)
    requires i < |pat| && !(pat[i] == CLOSE && !first)
    ensures var range := i + 2 < |pat| && pat[i + 1] == DASH && pat[i + 2] != CLOSE;
            var more := ClassRanges(pat, if range then i + 3 else i + 1, false);
            && ClassRanges(pat, i, first).next == more.next
            && (Hit(ClassRanges(pat, i, first).list, ch) <==>
                  (pat[i] <= ch <= if range then pat[i + 2] else pat[i]) || Hit(more.list, ch))
  {
    var range := i + 2 < |pat| && pat[i + 1] == DASH && pat[i + 2] != CLOSE;
    var more := ClassRanges(pat, if range then i + 3 else i + 1, false).list;
    HitCons(Range(pat[i], if range then pat[i + 2] else pat[i]), more, ch);
  }

  lemma HitCons(r: Range, more: seq<Range>, ch: byte)
    ensures Hit([r] + more, ch) <==> r.lo <= ch <= r.hi || Hit(more, ch)
  {
    if r.lo <= ch <= r.hi {
      assert ([r] + more)[0] == r;
    }
    if Hit(more, ch) {
      var k :| 0 <= k < |more| && more[k].lo <= ch <= more[k].hi;
      assert ([r] + more)[k + 1] == more[k];
    }
  }

  method WildMatch(pat: seq<byte>, text: seq<byte>) returns (r: bool)
    ensures r <==> Matches(Pieces(pat), text)
    decreases |pat|
  {
    hide Matches, Admits, Pieces, FirstPiece, InClass, StarRun;
    var pi, ti := 0, 0;
    assert pat[0..] == pat && text[0..] == text;
    while true
      invariant pi <= |pat| && ti <= |text|
      invariant Matches(Pieces(pat), text) <==> Matches(Pieces(pat[pi..]), text[ti..])
      decreases |pat| - pi
    {
      if pi == |pat| {
        NoPieces();
        MatchesNone(text[ti..]);
        return ti == |text|;
      }
      if pat[pi] == STAR {
        StarsFirst(pat, pi);
        var double;
        pi, double := ScanStars(pat, pi);
        r := AfterStars(pat, pi, double, text[ti..]);
        return;
      }
      if ti == |text| {
        NothingLeft(pat[pi..]);
        assert text[ti..] == [];
        return false;
      }
      MatchesStep(pat, pi, text, ti);
      if pat[pi] == OPEN {
        var matched, consumed := MatchCharClass(pat[pi..], text[ti]);
        if !matched {
          return false;
        }
        pi, ti := pi + consumed, ti + 1;
      } else if pat[pi] == QUESTION {
        if text[ti] == SLASH {
          return false;
        }
        pi, ti := pi + 1, ti + 1;
      } else {
        if pat[pi] != text[ti] {
          return false;
        }
        pi, ti := pi + 1, ti + 1;
      }
    }
  }

  lemma NoPieces()
    ensures Pieces([]) == []
  {
  }

  lemma StarsFirst(pat: seq<byte>, pi: nat)
    requires pi < |pat| && pat[pi] == STAR
    ensures var n := StarRun(pat[pi..]);
            0 < n <= |pat| - pi && Pieces(pat[pi..]) == [Stars(n >= 2)] + Pieces(pat[pi + n..])
  {
    assert pat[pi..][StarRun(pat[pi..])..] == pat[pi + StarRun(pat[pi..])..];
  }

  /** One step over a piece that takes one byte. */
  lemma MatchesStep(pat: seq<byte>, pi: nat, text: seq<byte>, ti: nat)
    requires pi < |pat| && pat[pi] != STAR && ti < |text|
    ensures var n, b := FirstPiece(pat[pi..]).1, text[ti];
            && (pat[pi] == OPEN ==> FirstPiece(pat[pi..]).0.Class?)
            && (pat[pi] != OPEN ==> n == 1)
            && n <= |pat| - pi
            && (Matches(Pieces(pat[pi..]), text[ti..]) <==>
                  && (if pat[pi] == OPEN then InClass(FirstPiece(pat[pi..]).0, b)
                      else if pat[pi] == QUESTION then b != SLASH else pat[pi] == b)
                  && Matches(Pieces(pat[pi + n..]), text[ti + 1..]))
  {
    hide Matches, InClass, ClassOf;
    var piece, n := FirstPiece(pat[pi..]).0, FirstPiece(pat[pi..]).1;
    MatchesOne(piece, Pieces(pat[pi + n..]), text[ti..]);
    assert pat[pi..][n..] == pat[pi + n..] && text[ti..][1..] == text[ti + 1..];
  }

  lemma NothingLeft(pat: seq<byte>)
    requires pat != [] && pat[0] != STAR
    ensures !Matches(Pieces(pat), [])
  {
    hide Matches, Admits;
    MatchesOne(FirstPiece(pat).0, Pieces(pat[FirstPiece(pat).1..]), []);
  }

  /** Try the rest of the pattern behind every stretch the stars may take. */
  method AfterStars(pat: seq<byte>, pi: nat, double: bool, text: seq<byte>) returns (r: bool)
    requires 0 < pi <= |pat|
    ensures r <==> Matches([Stars(double)] + Pieces(pat[pi..]), text)
    decreases |pat|, 0
  {
    hide Matches;
    ghost var rest := Pieces(pat[pi..]);
    if pi == |pat| {
      LastStars(double, text);
      if double {
        return true;
      }
      return SLASH !in text;
    }
    var i := 0;
    while true
      invariant i <= |text| && (double || SLASH !in text[..i])
      invariant forall k :: 0 <= k < i ==> !Matches(rest, text[k..])
      decreases |text| - i
    {
      var here := WildMatch(pat[pi..], text[i..]);
      if here {
        MatchesFrom(Stars(double), rest, text, i);
        return true;
      }
      if i == |text| {
        break;
      }
      if !double && text[i] == SLASH {
        break;
      }
      assert text[..i + 1] == text[..i] + [text[i]];
      i := i + 1;
    }
    StarsReach(double, rest, text, i);
    return false;
  }

  /** Stars that cannot pass position i leave the rest to match from i or before. */
  lemma StarsReach(double: bool, rest: seq<Piece>, text: seq<byte>, i: nat)
    requires i == |text| || (i < |text| && !double && text[i] == SLASH)
    ensures Matches([Stars(double)] + rest, text) ==> exists k :: 0 <= k <= i && Matches(rest, text[k..])
  {
    hide Matches;
    if Matches([Stars(double)] + rest, text) {
      var k := MatchesTo(Stars(double), rest, text);
      assert k <= i;
    }
  }

  lemma LastStars(double: bool, text: seq<byte>)
    ensures Matches([Stars(double)] + [], text) <==> double || SLASH !in text
  {
    hide Matches;
    if Matches([Stars(double)] + [], text) {
      var i := MatchesTo(Stars(double), [], text);
      MatchesNone(text[i..]);
      assert text[..i] == text;
    }
    if double || SLASH !in text {
      assert text[..|text|] == text;
      MatchesNone(text[|text|..]);
      MatchesFrom(Stars(double), [], text, |text|);
    }
  }

  // ---- depth ----

  function Slashes(t: seq<byte>): nat { if t == [] then 0 else (if t[0] == SLASH then 1 else 0) + Slashes(t[1..]) }

  lemma {:induction false} SlashesAppend(a: seq<byte>, b: seq<byte>)
    ensures Slashes(a + b) == Slashes(a) + Slashes(b)
  {
    if a == [] {
      assert a + b == b;
    } else {
      assert (a + b)[1..] == a[1..] + b;
      SlashesAppend(a[1..], b);
    }
  }

  lemma {:induction false} NoSlashes(t: seq<byte>)
    requires SLASH !in t
    ensures Slashes(t) == 0
  {
    if t != [] {
      NoSlashes(t[1..]);
    }
  }

  function Depth(ps: seq<Piece>): nat {
    if ps == [] then 0 else (if ps[0] == Literal(SLASH) then 1 else 0) + Depth(ps[1..])
  }

  predicate AdmitsSlash(p: Piece) { p.Class? && InClass(p, SLASH) }

  /** A class no byte is in, as one whose only range is empty. */
  ghost predicate AdmitsNone(p: Piece) { p.Class? && forall b: byte :: !InClass(p, b) }

  ghost predicate OnlyOwnDepth(ps: seq<Piece>) { forall t :: Matches(ps, t) ==> Slashes(t) == Depth(ps) }

  lemma SlashesOne(b: byte)
    ensures Slashes([b]) == if b == SLASH then 1 else 0
  {
    assert Slashes([b]) == (if b == SLASH then 1 else 0) + Slashes([]);
  }

  /** A piece that does not let a slash through takes as many as it says. */
  lemma PieceDepth(p: Piece, s: seq<byte>)
    requires Admits(p, s) && p != Stars(true) && !AdmitsSlash(p)
    ensures Slashes(s) == if p == Literal(SLASH) then 1 else 0
  {
    hide InClass;
    if p.Stars? {
      NoSlashes(s);
    } else {
      assert s == [s[0]];
      SlashesOne(s[0]);
    }
  }

  lemma {:induction false} DepthKept(ps: seq<Piece>, t: seq<byte>)
    requires Matches(ps, t) && forall i :: 0 <= i < |ps| ==> ps[i] != Stars(true) && !AdmitsSlash(ps[i])
    ensures Slashes(t) == Depth(ps)
  {
    hide Matches, Admits, AdmitsSlash;
    if ps == [] {
      MatchesNone(t);
    } else {
      assert ps == [ps[0]] + ps[1..];
      var i := MatchesTo(ps[0], ps[1..], t);
      DepthKept(ps[1..], t[i..]);
      PieceDepth(ps[0], t[..i]);
      SlashesAppend(t[..i], t[i..]);
      assert t == t[..i] + t[i..];
    }
  }

  /** A class that admits nothing leaves the pattern nothing to match. */
  lemma {:induction false} NothingMatches(ps: seq<Piece>, t: seq<byte>, k: nat)
    requires k < |ps| && AdmitsNone(ps[k])
    ensures !Matches(ps, t)
  {
    hide Matches, InClass;
    assert ps == [ps[0]] + ps[1..];
    if Matches([ps[0]] + ps[1..], t) {
      var i := MatchesTo(ps[0], ps[1..], t);
      if k > 0 {
        NothingMatches(ps[1..], t[i..], k - 1);
      }
    }
  }

  /** A text of the pattern with a slash wherever a class lets one through. */
  lemma {:induction false} DeepestMatch(ps: seq<Piece>) returns (t: seq<byte>)
    requires forall i :: 0 <= i < |ps| ==> !AdmitsNone(ps[i])
    ensures Matches(ps, t) && Slashes(t) >= Depth(ps)
    ensures (exists i :: 0 <= i < |ps| && AdmitsSlash(ps[i])) ==> Slashes(t) > Depth(ps)
  {
    hide Matches, InClass, AdmitsSlash;
    if ps == [] {
      t := [];
      MatchesNone(t);
    } else {
      var s := DeepestStretch(ps[0]);
      var rest := DeepestMatch(ps[1..]);
      t := s + rest;
      assert t[..|s|] == s && t[|s|..] == rest && ps == [ps[0]] + ps[1..];
      MatchesFrom(ps[0], ps[1..], t, |s|);
      SlashesAppend(s, rest);
      if !AdmitsSlash(ps[0]) {
        if i :| 0 <= i < |ps| && AdmitsSlash(ps[i]) {
          assert AdmitsSlash(ps[1..][i - 1]);
        }
      }
    }
  }

  lemma DeepestStretch(p: Piece) returns (s: seq<byte>)
    requires !AdmitsNone(p)
    ensures Admits(p, s) && Slashes(s) >= if p == Literal(SLASH) then 1 else 0
    ensures AdmitsSlash(p) ==> Slashes(s) == 1 && p.Class?
  {
    hide InClass;
    match p
    case Stars(_) => s := [];
    case AnyOne => s := [DASH];
    case Literal(b) =>
      s := [b];
      SlashesOne(b);
    case Class(_, _) =>
      if InClass(p, SLASH) {
        s := [SLASH];
        SlashesOne(SLASH);
      } else {
        var b: byte :| InClass(p, b);
        s := [b];
      }
  }

  /** Without runs of stars a pattern matches only at its own depth, exactly when none of its classes lets a slash
      through, or one of them admits nothing at all. */
  lemma OwnDepthOnly(ps: seq<Piece>)
    requires forall i :: 0 <= i < |ps| ==> ps[i] != Stars(true)
    ensures OnlyOwnDepth(ps) <==>
            || (forall i :: 0 <= i < |ps| ==> !AdmitsSlash(ps[i]))
            || (exists i :: 0 <= i < |ps| && AdmitsNone(ps[i]))
  {
    hide Matches, AdmitsSlash, AdmitsNone;
    if k :| 0 <= k < |ps| && AdmitsNone(ps[k]) {
      forall t
        ensures !Matches(ps, t)
      {
        NothingMatches(ps, t, k);
      }
    } else if forall i :: 0 <= i < |ps| ==> !AdmitsSlash(ps[i]) {
      forall t | Matches(ps, t)
        ensures Slashes(t) == Depth(ps)
      {
        DepthKept(ps, t);
      }
    } else {
      var t := DeepestMatch(ps);
      assert Matches(ps, t) && Slashes(t) != Depth(ps);
    }
  }

  const A: byte := 0x61
  const B: byte := 0x62
  const C: byte := 0x63

  /** A class between two letters, and a slash between the same letters. */
  lemma PiecesFrom(pat: seq<byte>)
    requires pat != []
    ensures Pieces(pat) == [FirstPiece(pat).0] + Pieces(pat[FirstPiece(pat).1..])
    ensures pat[0] == OPEN ==> FirstPiece(pat).0.Class?
  {
    hide ClassOf, StarRun;
  }

  lemma FirstIsLetter(b: byte, rest: seq<byte>)
    requires b == A || b == C
    ensures Pieces([b] + rest) == [Literal(b)] + Pieces(rest)
  {
    hide Pieces;
    PiecesFrom([b] + rest);
    assert ([b] + rest)[1..] == rest;
  }

  lemma ClassTakesSlash(bracket: seq<byte>)
    requires bracket != [] && bracket[0] == OPEN && AdmitsSlash(FirstPiece(bracket + [C]).0)
             && FirstPiece(bracket + [C]).1 == |bracket|
    ensures Matches(Pieces([A] + (bracket + [C])), [A, SLASH, C])
  {
    hide Matches, ClassOf, FirstPiece, Pieces;
    var rest := bracket + [C];
    FirstIsLetter(A, rest);
    FirstIsLetter(C, []);
    PiecesFrom(rest);
    NoPieces();
    assert rest[|bracket|..] == [C] && [C] + [] == [C];
    assert [A, SLASH, C][1..] == [SLASH, C] && [SLASH, C][1..] == [C];
    MatchesNone([]);
    MatchesOne(Literal(C), [], [C]);
    MatchesOne(FirstPiece(rest).0, Pieces([C]), [SLASH, C]);
    MatchesOne(Literal(A), Pieces(rest), [A, SLASH, C]);
  }

  /** A negated class lets a slash through without naming it: a[!b]c matches a/c. So does a range around it: a[.-0]c. */
  lemma ClassesTakeSlash()
    ensures Matches(Pieces([A] + ([OPEN, BANG, B, CLOSE] + [C])), [A, SLASH, C])
    ensures Matches(Pieces([A] + ([OPEN, DOT, DASH, 0x30, CLOSE] + [C])), [A, SLASH, C])
  {
    hide Matches;
    var negated := [OPEN, BANG, B, CLOSE] + [C];
    assert ClassRanges(negated, 3, false) == Ranges([], 4);
    assert ClassOf(negated) == Ranges([Range(B, B)], 4);
    ClassTakesSlash([OPEN, BANG, B, CLOSE]);
    var range := [OPEN, DOT, DASH, 0x30, CLOSE] + [C];
    assert ClassRanges(range, 4, false) == Ranges([], 5);
    assert ClassOf(range) == Ranges([Range(DOT, 0x30)], 5);
    assert Hit([Range(DOT, 0x30)], SLASH) by { assert [Range(DOT, 0x30)][0] == Range(DOT, 0x30); }
    ClassTakesSlash([OPEN, DOT, DASH, 0x30, CLOSE]);
  }

  // ---- what simple patterns match ----

  lemma OnePiece(p: Piece, t: seq<byte>)
    ensures Matches([p], t) <==> Admits(p, t)
  {
    hide Matches, Admits;
    if Admits(p, t) {
      MatchesNone([]);
      assert t[..|t|] == t && t[|t|..] == [] && [p] + [] == [p];
      MatchesFrom(p, [], t, |t|);
    }
    if Matches([p], t) {
      assert [p] == [p] + [];
      var i := MatchesTo(p, [], t);
      MatchesNone(t[i..]);
      assert t[..i] == t;
    }
  }

  /** A question mark stands for any byte but a slash, a star for any bytes without one, two stars for any bytes. */
  lemma SimplePieces(t: seq<byte>)
    ensures Matches(Pieces([0x3F]), t) <==> |t| == 1 && t[0] != 0x2F
    ensures Matches(Pieces([0x2A]), t) <==> 0x2F !in t
    ensures Matches(Pieces([0x2A, 0x2A]), t)
  {
    hide Matches, Cut;
    OnePiece(AnyOne, t);
    OnePiece(Stars(false), t);
    OnePiece(Stars(true), t);
    SimpleParts();
  }

  lemma SimpleParts()
    ensures Pieces([0x3F]) == [AnyOne] && Pieces([0x2A]) == [Stars(false)] && Pieces([0x2A, 0x2A]) == [Stars(true)]
  {
    assert [0x3F as byte][1..] == [] && [0x2A as byte][1..] == [];
    assert [0x2A as byte, 0x2A][1..] == [0x2A] && [0x2A as byte, 0x2A][2..] == [];
  }

  /** A range in brackets stands for each byte of it, and behind an exclamation mark for each byte outside it. */
  lemma BracketRange(lo: byte, hi: byte, t: seq<byte>)
    requires lo != 0x21 && hi != 0x5D
    ensures Matches(Pieces([0x5B, lo, 0x2D, hi, 0x5D]), t) <==> |t| == 1 && lo <= t[0] <= hi
    ensures Matches(Pieces([0x5B, 0x21, lo, 0x2D, hi, 0x5D]), t) <==> |t| == 1 && !(lo <= t[0] <= hi)
  {
    hide Matches, Cut, Pieces;
    var ranges := [Range(lo, hi)];
    OnePiece(Class(false, ranges), t);
    OnePiece(Class(true, ranges), t);
    RangeParts(lo, hi);
    assert forall b: byte :: Hit(ranges, b) <==> ranges[0].lo <= b <= ranges[0].hi;
  }

  lemma RangeParts(lo: byte, hi: byte)
    requires lo != 0x21 && hi != 0x5D
    ensures Pieces([0x5B, lo, 0x2D, hi, 0x5D]) == [Class(false, [Range(lo, hi)])]
    ensures Pieces([0x5B, 0x21, lo, 0x2D, hi, 0x5D]) == [Class(true, [Range(lo, hi)])]
  {
    var p, q := [0x5B, lo, 0x2D, hi, 0x5D], [0x5B, 0x21, lo, 0x2D, hi, 0x5D];
    assert ClassRanges(p, 4, false) == Ranges([], 5) && ClassRanges(q, 5, false) == Ranges([], 6);
    assert ClassRanges(p, 1, true) == Ranges([Range(lo, hi)], 5)
           && ClassRanges(q, 2, true) == Ranges([Range(lo, hi)], 6);
    assert p[5..] == [] && q[6..] == [];
  }

  /** Bytes in brackets, without a dash, stand for any one of them. A closing bracket that comes first is one of them,
      and without a closing bracket the class takes the whole pattern. */
  lemma BracketMembers(m: seq<byte>, t: seq<byte>)
    requires m != [] && m[0] != 0x21
    requires forall k :: 0 <= k < |m| ==> m[k] != 0x2D && (k > 0 ==> m[k] != 0x5D)
    ensures Matches(Pieces([0x5B] + m + [0x5D]), t) <==> |t| == 1 && t[0] in m
    ensures Matches(Pieces([0x5B] + m), t) <==> |t| == 1 && t[0] in m
  {
    hide Matches, Cut, Pieces;
    assert ([0x5B] + m + [0x5D])[1..|m| + 1] == m && ([0x5B] + m)[1..] == m;
    MemberClass([0x5B] + m + [0x5D], |m| + 1, t);
    MemberClass([0x5B] + m, |m| + 1, t);
  }

  lemma MemberClass(pat: seq<byte>, end: nat, t: seq<byte>)
    requires 1 < end <= |pat| && pat[0] == 0x5B && pat[1] != 0x21
    requires end == |pat| || (end == |pat| - 1 && pat[end] == 0x5D)
    requires forall k :: 1 <= k < end ==> pat[k] != 0x2D && (k > 1 ==> pat[k] != 0x5D)
    ensures Matches(Pieces(pat), t) <==> |t| == 1 && t[0] in pat[1..end]
  {
    hide Matches, Cut, Hit, ClassRanges;
    var r := ClassRanges(pat, 1, true);
    Members(pat, 1, end, true, if t == [] then 0 else t[0]);
    assert Pieces(pat) == [Class(false, r.list)] by {
      assert pat[r.next..] == [];
      assert Pieces([]) == [];
    }
    OnePiece(Class(false, r.list), t);
  }

  lemma {:induction false} Members(pat: seq<byte>, i: nat, end: nat, first: bool, b: byte)
    requires i <= end <= |pat| && (first ==> i < end)
    requires end == |pat| || (end == |pat| - 1 && pat[end] == 0x5D)
    requires forall k :: i <= k < end ==> pat[k] != 0x2D && (pat[k] == 0x5D ==> first && k == i)
    ensures ClassRanges(pat, i, first).next == |pat|
    ensures Hit(ClassRanges(pat, i, first).list, b) <==> b in pat[i..end]
    decreases end - i
  {
    hide Hit;
    if i < end {
      HitMore(pat, i, first, b);
      Members(pat, i + 1, end, false, b);
      assert pat[i..end] == [pat[i]] + pat[i + 1..end];
    } else {
      assert ClassRanges(pat, i, first).list == [] && !Hit([], b) by { NoHit(b); }
    }
  }

  lemma NoHit(b: byte)
    ensures !Hit([], b)
  {
  }

  /** A pattern without wildcards matches itself only. */
  lemma {:induction false} PlainPattern(pat: seq<byte>, t: seq<byte>)
    requires forall i :: 0 <= i < |pat| ==> pat[i] != 0x2A && pat[i] != 0x3F && pat[i] != 0x5B
    ensures Matches(Pieces(pat), t) <==> t == pat
    decreases |pat|
  {
    hide Matches, Cut;
    if pat == [] {
      MatchesNone(t);
    } else {
      var p, rest := Literal(pat[0]), pat[1..];
      assert Pieces(pat) == [p] + Pieces(rest);
      PlainPattern(rest, if t == [] then [] else t[1..]);
      if Matches(Pieces(pat), t) {
        var i := MatchesTo(p, Pieces(rest), t);
        assert i == 1 && t == t[..1] + t[1..] && pat == [pat[0]] + rest;
      }
      if t == pat {
        assert t[..1] == [pat[0]];
        MatchesFrom(p, Pieces(rest), t, 1);
      }
    }
  }
}
