/**
 * The string operations the bot applies to comment bodies and user names:
 * Python's str.lower(), the substring test `pat in s` and str.split. Find, the
 * first occurrence of a pattern, decides `in` and where str.split cuts.
 * Characters are compared as code points; lowering is done for ASCII letters only.
 */
module Text {
  import opened Wrappers

  /** Lower-cases an ASCII capital letter and leaves every other character alone. */
  function LowerChar(c: char): (r: char)
    ensures 'A' <= c <= 'Z' ==> 'a' <= r <= 'z' && r as int - c as int == 32
    ensures !('A' <= c <= 'Z') ==> r == c
  {
    if 'A' <= c <= 'Z' then (c as int + 32) as char else c
  }

  /** s.lower(), character by character. */
  function Lower(s: string): (r: string)
    ensures |r| == |s|
    ensures forall i :: 0 <= i < |s| ==> r[i] == LowerChar(s[i])
  {
    seq(|s|, i requires 0 <= i < |s| => LowerChar(s[i]))
  }

  /** Lowering a lowered string changes nothing. */
  lemma LowerIdempotent(s: string)
    ensures Lower(Lower(s)) == Lower(s)
  {
  }

  /** pat occurs in s starting at index i. */
  predicate OccursAt(s: string, pat: string, i: int)
  {
    0 <= i && i + |pat| <= |s| && s[i..i + |pat|] == pat
  }

  /** The first occurrence of pat in s at or after index from. */
  function FindFrom(s: string, pat: string, from: nat): (r: Option<nat>)
    ensures r.Some? ==> from <= r.value && OccursAt(s, pat, r.value)
    ensures r.Some? ==> forall j :: from <= j < r.value ==> !OccursAt(s, pat, j)
    ensures r.None? ==> forall j :: from <= j ==> !OccursAt(s, pat, j)
    decreases |s| - from
  {
    if from + |pat| > |s| then None
    else if OccursAt(s, pat, from) then Some(from)
    else FindFrom(s, pat, from + 1)
  }

  /** s.find(pat): the index of the first occurrence of pat in s, if any. */
  function Find(s: string, pat: string): (r: Option<nat>)
    ensures r.Some? ==> OccursAt(s, pat, r.value)
    ensures r.Some? ==> forall j :: 0 <= j < r.value ==> !OccursAt(s, pat, j)
    ensures r.None? ==> forall j :: !OccursAt(s, pat, j)
  {
    FindFrom(s, pat, 0)
  }

  /** `pat in s` for strings. */
  predicate Contains(s: string, pat: string)
  {
    Find(s, pat).Some?
  }

  /** An occurrence in a prefix of s is an occurrence in s. */
  lemma OccursInPrefix(s: string, n: nat, pat: string, j: nat)
    requires n <= |s| && OccursAt(s[..n], pat, j)
    ensures OccursAt(s, pat, j) && j + |pat| <= n
  {
    assert s[..n][j..j + |pat|] == s[j..j + |pat|];
  }

  /** A prefix of a string that does not contain pat does not contain pat either. */
  lemma PrefixAvoids(s: string, n: nat, pat: string)
    requires n <= |s|
    requires !Contains(s, pat)
    ensures !Contains(s[..n], pat)
  {
    if Contains(s[..n], pat) {
      OccursInPrefix(s, n, pat, Find(s[..n], pat).value);
    }
  }

  /** sep.join(parts). */
  function Join(parts: seq<string>, sep: string): string
    requires |parts| >= 1
  {
    if |parts| == 1 then parts[0] else parts[0] + sep + Join(parts[1..], sep)
  }

  /**
   * s.split(sep) for a non-empty separator: the pieces between the occurrences
   * of sep, found from left to right without overlap.
   */
  function Split(s: string, sep: string): (parts: seq<string>)
    requires |sep| > 0
    ensures |parts| >= 1
    ensures |parts| >= 2 <==> Contains(s, sep)
    decreases |s|
  {
    match Find(s, sep)
    case None => [s]
    case Some(i) => [s[..i]] + Split(s[i + |sep|..], sep)
  }

  /** Joining the pieces with the separator gives back the string. */
  lemma {:induction false} SplitJoin(s: string, sep: string)
    requires |sep| > 0
    ensures Join(Split(s, sep), sep) == s
    decreases |s|
  {
    match Find(s, sep)
    case None =>
    case Some(i) =>
      SplitJoin(s[i + |sep|..], sep);
      assert s == s[..i] + sep + s[i + |sep|..];
  }

  /** No piece contains the separator. */
  lemma {:induction false} SplitPiecesAvoid(s: string, sep: string, k: nat)
    requires |sep| > 0 && k < |Split(s, sep)|
    ensures !Contains(Split(s, sep)[k], sep)
    decreases |s|
  {
    match Find(s, sep)
    case None =>
    case Some(i) =>
      if k == 0 {
        if Contains(s[..i], sep) {
          OccursInPrefix(s, i, sep, Find(s[..i], sep).value);
        }
      } else {
        SplitPiecesAvoid(s[i + |sep|..], sep, k - 1);
      }
  }

  /** The first piece of s.split(sep) runs up to the first sep, or to the end of s. */
  lemma SplitFirst(s: string, sep: string)
    requires |sep| > 0
    ensures var p := Split(s, sep)[0];
      && |p| <= |s| && s[..|p|] == p
      && (Contains(s, sep) ==> Find(s, sep) == Some(|p|))
      && (!Contains(s, sep) ==> p == s)
  {
  }

  /** The first piece of s.split(sep) is a prefix of s that ends at a sep or at the end of s. */
  lemma SplitFirstCut(s: string, sep: string)
    requires |sep| > 0
    ensures var p := Split(s, sep)[0];
      |p| <= |s| && s[..|p|] == p && (p == s || OccursAt(s, sep, |p|))
  {
    SplitFirst(s, sep);
  }

  /** u occurs in s at start and is followed by a stop, by a sep, or by the end of s. */
  predicate PieceAt(s: string, u: string, start: nat, stop: string, sep: string)
  {
    OccursAt(s, u, start) && (start + |u| == |s| || OccursAt(s, stop, start + |u|) || OccursAt(s, sep, start + |u|))
  }

  /** The index right after the first occurrence of sep in s. */
  function AfterFirst(s: string, sep: string): nat
    requires Contains(s, sep)
  {
    Find(s, sep).value + |sep|
  }

  /** The second piece of s.split(sep) starts after the first sep and runs up to the next one, or to the end. */
  lemma SplitSecond(s: string, sep: string)
    requires |sep| > 0 && Contains(s, sep)
    ensures PieceAt(s, Split(s, sep)[1], AfterFirst(s, sep), sep, sep)
  {
    var i := Find(s, sep).value;
    var start := i + |sep|;
    var rest := s[start..];
    var p := Split(rest, sep)[0];
    SplitUnfold(s, sep);
    assert Split(s, sep)[1] == p;
    SplitFirst(rest, sep);
    PrefixShift(s, start, p);
    if |p| < |rest| {
      assert OccursAt(rest, sep, |p|);
      OccursShift(s, start, sep, |p|);
    }
  }

  /** One step of s.split(sep) when sep occurs: the text before it, then the split of the text after it. */
  lemma SplitUnfold(s: string, sep: string)
    requires |sep| > 0 && Contains(s, sep)
    ensures var i := Find(s, sep).value;
      Split(s, sep) == [s[..i]] + Split(s[i + |sep|..], sep)
  {
  }

  lemma PrefixShift(s: string, a: nat, p: string)
    requires a <= |s| && |p| <= |s| - a && s[a..][..|p|] == p
    ensures s[a..a + |p|] == p
  {
    assert s[a..][..|p|] == s[a..a + |p|];
  }

  lemma OccursShift(s: string, a: nat, pat: string, k: nat)
    requires a <= |s| && OccursAt(s[a..], pat, k)
    ensures OccursAt(s, pat, a + k)
  {
    assert s[a..][k..k + |pat|] == s[a + k..a + k + |pat|];
  }

  lemma SliceOfSlice(s: string, a: nat, b: nat, k: nat)
    requires a <= b <= |s| && k <= b - a
    ensures s[a..b][..k] == s[a..a + k]
  {
  }

  lemma OccursInSlice(s: string, a: nat, b: nat, pat: string, k: nat)
    requires a <= b <= |s| && OccursAt(s[a..b], pat, k)
    ensures OccursAt(s, pat, a + k)
  {
    var t := s[a..b];
    var u, v := t[k..k + |pat|], s[a + k..a + k + |pat|];
    forall j | 0 <= j < |u| ensures u[j] == v[j] {
      assert u[j] == t[k + j] == s[a + k + j];
    }
    assert u == v;
  }

  /** The second piece of s.split(sep), cut at the first stop, contains neither stop nor sep. */
  lemma SecondPieceAvoids(s: string, sep: string, stop: string)
    requires |sep| > 0 && |stop| > 0 && Contains(s, sep)
    ensures var u := Split(Split(s, sep)[1], stop)[0];
      !Contains(u, stop) && !Contains(u, sep)
  {
    var piece := Split(s, sep)[1];
    var u := Split(piece, stop)[0];
    SplitFirst(piece, stop);
    assert piece[..|u|] == u;
    SplitPiecesAvoid(piece, stop, 0);
    SplitPiecesAvoid(s, sep, 1);
    PrefixAvoids(piece, |u|, sep);
  }

  /** A prefix of a piece occurring at start occurs at start too. */
  lemma PrefixAt(s: string, piece: string, start: nat, u: string)
    requires OccursAt(s, piece, start) && |u| <= |piece| && piece[..|u|] == u
    ensures OccursAt(s, u, start)
  {
    SliceOfSlice(s, start, start + |piece|, |u|);
  }

  /** An occurrence inside a piece occurring at start is an occurrence in s, shifted by start. */
  lemma OccursWithin(s: string, piece: string, start: nat, pat: string, k: nat)
    requires OccursAt(s, piece, start) && OccursAt(piece, pat, k)
    ensures OccursAt(s, pat, start + k)
  {
    OccursInSlice(s, start, start + |piece|, pat, k);
  }

  /**
   * A piece found at start in s, ending at a sep or at the end of s, and then
   * cut at its first stop: the cut piece sits at start too and ends at a stop,
   * at a sep, or at the end of s.
   */
  lemma CutPiece(s: string, start: nat, piece: string, stop: string, sep: string)
    requires |stop| > 0 && PieceAt(s, piece, start, sep, sep)
    ensures PieceAt(s, Split(piece, stop)[0], start, stop, sep)
  {
    var u := Split(piece, stop)[0];
    SplitFirstCut(piece, stop);
    PrefixAt(s, piece, start, u);
    if u != piece {
      OccursWithin(s, piece, start, stop, |u|);
      assert OccursAt(s, stop, start + |u|);
    } else {
      assert PieceAt(s, piece, start, sep, sep);
    }
  }

  /**
   * The second piece of s.split(sep), cut at the first stop, sits in s right
   * after the first sep and ends at a stop, at a sep, or at the end of s.
   */
  lemma SecondPieceSpan(s: string, sep: string, stop: string)
    requires |sep| > 0 && |stop| > 0 && Contains(s, sep)
    ensures PieceAt(s, Split(Split(s, sep)[1], stop)[0], AfterFirst(s, sep), stop, sep)
  {
    SplitSecond(s, sep);
    CutPiece(s, AfterFirst(s, sep), Split(s, sep)[1], stop, sep);
  }

  /**
   * s.split(sep)[1].split(stop)[0]: the text right after the first sep, up to
   * the next stop, the next sep, or the end of s.
   */
  lemma SecondPieceUpTo(s: string, sep: string, stop: string)
    requires |sep| > 0 && |stop| > 0 && Contains(s, sep)
    ensures var u := Split(Split(s, sep)[1], stop)[0];
      var start := AfterFirst(s, sep);
      && OccursAt(s, u, start)
      && !Contains(u, stop)
      && !Contains(u, sep)
      && (start + |u| == |s| || OccursAt(s, stop, start + |u|) || OccursAt(s, sep, start + |u|))
  {
    SecondPieceAvoids(s, sep, stop);
    SecondPieceSpan(s, sep, stop);
  }
}
