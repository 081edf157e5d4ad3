/**
 * The three pieces of Python's str that download.py relies on: strip() without
 * arguments, the substring test `sub in s`, and split(sep).
 */
module Text {
  import opened Wrappers

  type String = seq<char>

  /**
   * Whitespace as str.isspace() sees it within ASCII: space, \t, \n, \v, \f, \r
   * (code points 9 to 13) and the separators \x1c to \x1f. Python also counts
   * some non-ASCII code points (U+0085, U+00A0, U+2000 and others); the model
   * does not.
   */
  predicate IsSpace(c: char) {
    c == ' ' || 9 <= c as int <= 13 || 28 <= c as int <= 31
  }

  /** Neither end of s is whitespace: what strip() returns. */
  predicate IsStripped(s: String) {
    s == [] || (!IsSpace(s[0]) && !IsSpace(s[|s| - 1]))
  }

  /**
   * s.strip(): drop whitespace from both ends. The result has no whitespace at
   * either end, and is empty exactly when s is all whitespace.
   */
  function Strip(s: String): (r: String)
    ensures IsStripped(r)
    ensures r == [] <==> forall k :: 0 <= k < |s| ==> IsSpace(s[k])
    decreases |s|
  {
    if s != [] && IsSpace(s[0]) then
      var r := Strip(s[1..]);
      assert forall k :: 1 <= k < |s| ==> s[k] == s[1..][k - 1];
      r
    else if s != [] && IsSpace(s[|s| - 1]) then
      var r := Strip(s[..|s| - 1]);
      assert forall k :: 0 <= k < |s| - 1 ==> s[k] == s[..|s| - 1][k];
      r
    else
      s
  }

  /** Only whitespace lies before index i and from index j on. */
  predicate SpaceOutside(s: String, i: int, j: int) {
    0 <= i <= j <= |s|
    && (forall k :: 0 <= k < i ==> IsSpace(s[k]))
    && (forall k :: j <= k < |s| ==> IsSpace(s[k]))
  }

  lemma SpaceOutsideAfterLeadingSpace(s: String, i: int, j: int)
    requires s != [] && IsSpace(s[0]) && SpaceOutside(s[1..], i, j)
    ensures SpaceOutside(s, i + 1, j + 1) && s[1..][i..j] == s[i + 1..j + 1]
  {
    var t := s[1..];
    forall k | 0 <= k < i + 1 ensures IsSpace(s[k]) {
      if k > 0 { assert s[k] == t[k - 1]; }
    }
    forall k | j + 1 <= k < |s| ensures IsSpace(s[k]) {
      assert s[k] == t[k - 1];
    }
  }

  lemma SpaceOutsideBeforeTrailingSpace(s: String, i: int, j: int)
    requires s != [] && IsSpace(s[|s| - 1]) && SpaceOutside(s[..|s| - 1], i, j)
    ensures SpaceOutside(s, i, j) && s[..|s| - 1][i..j] == s[i..j]
  {
    var t := s[..|s| - 1];
    forall k | 0 <= k < i ensures IsSpace(s[k]) {
      assert s[k] == t[k];
    }
    forall k | j <= k < |s| ensures IsSpace(s[k]) {
      if k < |t| { assert s[k] == t[k]; }
    }
  }

  /**
   * Strip(s) is an infix s[i..j] of s with only whitespace outside it: strip()
   * removes characters at the two ends and nothing else.
   */
  lemma {:induction false} StripIsInfix(s: String)
    ensures exists i, j :: SpaceOutside(s, i, j) && Strip(s) == s[i..j]
    decreases |s|
  {
    if s != [] && IsSpace(s[0]) {
      StripIsInfix(s[1..]);
      var i, j :| SpaceOutside(s[1..], i, j) && Strip(s[1..]) == s[1..][i..j];
      SpaceOutsideAfterLeadingSpace(s, i, j);
      assert Strip(s) == s[i + 1..j + 1];
    } else if s != [] && IsSpace(s[|s| - 1]) {
      StripIsInfix(s[..|s| - 1]);
      var i, j :| SpaceOutside(s[..|s| - 1], i, j) && Strip(s[..|s| - 1]) == s[..|s| - 1][i..j];
      SpaceOutsideBeforeTrailingSpace(s, i, j);
      assert Strip(s) == s[i..j];
    } else {
      assert Strip(s) == s[0..|s|];
      assert SpaceOutside(s, 0, |s|);
    }
  }

  /** Stripping is idempotent: a stripped string is left as it is. */
  lemma StripFixesStripped(s: String)
    requires IsStripped(s)
    ensures Strip(s) == s
  {
  }

  lemma {:induction false} StripIdempotent(s: String)
    ensures Strip(Strip(s)) == Strip(s)
  {
    StripFixesStripped(Strip(s));
  }

  /** pat occurs in s starting at index m. */
  predicate OccursAt(s: String, pat: String, m: int) {
    0 <= m && m + |pat| <= |s| && s[m..m + |pat|] == pat
  }

  /** m is the last index at which pat occurs in s. */
  predicate LastOccurrenceAt(s: String, pat: String, m: int) {
    OccursAt(s, pat, m) && forall m' :: m < m' <= |s| - |pat| ==> !OccursAt(s, pat, m')
  }

  lemma LastOccurrenceUnique(s: String, pat: String, m1: int, m2: int)
    requires LastOccurrenceAt(s, pat, m1) && LastOccurrenceAt(s, pat, m2)
    ensures m1 == m2
  {
  }

  lemma OccursAtTail(s: String, pat: String, m: int)
    requires s != [] && 0 <= m
    ensures OccursAt(s, pat, m + 1) <==> OccursAt(s[1..], pat, m)
  {
    if 0 <= m && m + 1 + |pat| <= |s| {
      assert s[m + 1..m + 1 + |pat|] == s[1..][m..m + |pat|];
    }
  }

  /** The least index at which pat occurs in s, the index s.find(pat) reports. */
  function FirstOccurrence(s: String, pat: String): (r: Option<nat>)
    ensures r.Some? ==> OccursAt(s, pat, r.value)
    ensures r.Some? ==> forall m :: 0 <= m < r.value ==> !OccursAt(s, pat, m)
    ensures r.None? ==> forall m :: !OccursAt(s, pat, m)
    decreases |s|
  {
    if |s| < |pat| then None
    else if s[..|pat|] == pat then Some(0)
    else
      var rest := FirstOccurrence(s[1..], pat);
      assert !OccursAt(s, pat, 0);
      assert forall m :: 0 < m ==> (OccursAt(s, pat, m) <==> OccursAt(s[1..], pat, m - 1)) by {
        forall m | 0 < m ensures OccursAt(s, pat, m) <==> OccursAt(s[1..], pat, m - 1) {
          OccursAtTail(s, pat, m - 1);
        }
      }
      match rest
      case None => None
      case Some(i) => Some(i + 1)
  }

  /** `pat in s`: pat is a substring of s. */
  function Contains(s: String, pat: String): (b: bool)
    ensures b <==> exists m :: OccursAt(s, pat, m)
  {
    FirstOccurrence(s, pat).Some?
  }

  /** The inverse of Split: the pieces glued together with sep between them. */
  function Join(pieces: seq<String>, sep: String): String
    requires pieces != []
  {
    if |pieces| == 1 then pieces[0] else pieces[0] + sep + Join(pieces[1..], sep)
  }

  /**
   * s.split(sep): scan from the left, cut at the first occurrence of sep and
   * continue after it. There is always at least one piece.
   */
  function Split(s: String, sep: String): (pieces: seq<String>)
    requires sep != []
    ensures pieces != []
    ensures |pieces| <= |s| + 1
    decreases |s|
  {
    match FirstOccurrence(s, sep)
    case None => [s]
    case Some(i) => [s[..i]] + Split(s[i + |sep|..], sep)
  }

  /** Split and Join are inverse: joining the pieces with sep gives s back. */
  lemma {:induction false} SplitJoin(s: String, sep: String)
    requires sep != []
    ensures Join(Split(s, sep), sep) == s
    decreases |s|
  {
    match FirstOccurrence(s, sep)
    case None =>
    case Some(i) =>
      var rest := s[i + |sep|..];
      assert Split(s, sep) == [s[..i]] + Split(rest, sep);
      SplitJoin(rest, sep);
      SplitStep(s, sep, i);
  }

  /** s is cut at all exactly when it contains sep. */
  lemma SplitCutsIffContains(s: String, sep: String)
    requires sep != []
    ensures |Split(s, sep)| == 1 <==> !Contains(s, sep)
  {
    var first := FirstOccurrence(s, sep);
    assert Contains(s, sep) == first.Some?;
    if first.Some? {
      var rest := s[first.value + |sep|..];
      assert Split(s, sep) == [s[..first.value]] + Split(rest, sep);
    }
  }

  /** No piece of a split contains sep. */
  lemma {:induction false} SplitPiecesLackSep(s: String, sep: String)
    requires sep != []
    ensures forall k, m :: 0 <= k < |Split(s, sep)| ==> !OccursAt(Split(s, sep)[k], sep, m)
    decreases |s|
  {
    match FirstOccurrence(s, sep)
    case None =>
    case Some(i) =>
      var rest := s[i + |sep|..];
      var tail := Split(rest, sep);
      var pieces := [s[..i]] + tail;
      assert Split(s, sep) == pieces;
      SplitPiecesLackSep(rest, sep);
      SplitStep(s, sep, i);
      assert forall k :: 0 < k < |pieces| ==> pieces[k] == tail[k - 1];
  }

  /** The first cut of Split: what precedes the first occurrence holds none. */
  lemma SplitStep(s: String, sep: String, i: nat)
    requires sep != [] && OccursAt(s, sep, i)
    requires forall m :: 0 <= m < i ==> !OccursAt(s, sep, m)
    ensures s == s[..i] + sep + s[i + |sep|..]
    ensures forall m :: !OccursAt(s[..i], sep, m)
  {
    assert s == s[..i] + s[i..i + |sep|] + s[i + |sep|..];
    forall m ensures !OccursAt(s[..i], sep, m) {
      if 0 <= m && m + |sep| <= i {
        assert s[..i][m..m + |sep|] == s[m..m + |sep|];
        assert !OccursAt(s, sep, m);
      }
    }
  }

  /** The last piece of a split is what follows the last separator that Join put in. */
  lemma {:induction false} JoinLast(pieces: seq<String>, sep: String)
    requires |pieces| > 1
    ensures Join(pieces, sep) == Join(pieces[..|pieces| - 1], sep) + sep + pieces[|pieces| - 1]
    decreases |pieces|
  {
    if |pieces| > 2 {
      JoinLast(pieces[1..], sep);
      assert pieces[1..][..|pieces| - 2] == pieces[..|pieces| - 1][1..];
    }
  }
}
