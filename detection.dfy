/**
 * Which files the detector reports, stated without loops: within a
 * sequence of files in enumeration order, a file is a duplicate when some
 * earlier file of the same length passes the comparison with it.
 */
module Detection {
  import opened SystemIO
  import opened Boundary
  import opened Grouping

  /** What Compare returns for two files, extended to files of different lengths. */
  predicate Matches(a: FileRec, b: FileRec) {
    a.Length() == b.Length() && BoundaryEqual(a.content, b.content)
  }

  /** Two files with identical content always match, whatever their names. */
  lemma IdenticalContentMatches(a: FileRec, b: FileRec)
    requires a.content == b.content
    ensures Matches(a, b)
  {
    BoundaryEqualReflexive(a.content);
  }

  lemma MatchesSymmetric(a: FileRec, b: FileRec)
    ensures Matches(a, b) == Matches(b, a)
  {
    if a.Length() == b.Length() {
      BoundaryEqualSymmetric(a.content, b.content);
    }
  }

  lemma MatchesTransitive(a: FileRec, b: FileRec, c: FileRec)
    requires Matches(a, b) && Matches(b, c)
    ensures Matches(a, c)
  {
    BoundaryEqualTransitive(a.content, b.content, c.content);
  }

  /** Some file before position `j` matches the file at `j`. */
  ghost predicate HasEarlierMatch(s: seq<FileRec>, j: nat)
    requires j < |s|
  {
    exists k :: 0 <= k < j && Matches(s[k], s[j])
  }

  /** `x` occurs in `s` after a file that matches it. */
  ghost predicate IsDuplicateIn(s: seq<FileRec>, x: FileRec) {
    exists j :: 0 <= j < |s| && s[j] == x && HasEarlierMatch(s, j)
  }

  /**
   * Some file among the first `i`, and before position `j`, matches the
   * file at `j`: the files HandleGroup has flagged after `i` outer rounds.
   */
  ghost predicate FlaggedBefore(s: seq<FileRec>, i: nat, j: nat)
    requires j < |s|
  {
    exists k :: 0 <= k < i && k < j && Matches(s[k], s[j])
  }

  /** A file with an earlier match reaches, through a chain of matches, an earliest one. */
  lemma {:induction false} OriginalAtOrBefore(s: seq<FileRec>, k: nat, x: FileRec)
    requires Distinct(s) && k < |s| && Matches(s[k], x)
    ensures exists i :: 0 <= i <= k && Matches(s[i], x) && !IsDuplicateIn(s, s[i])
    decreases k
  {
    if IsDuplicateIn(s, s[k]) {
      var j :| 0 <= j < |s| && s[j] == s[k] && HasEarlierMatch(s, j);
      assert j == k;
      var m :| 0 <= m < k && Matches(s[m], s[k]);
      MatchesTransitive(s[m], s[k], x);
      OriginalAtOrBefore(s, m, x);
    }
  }

  /**
   * Every reported duplicate has an original: an earlier, different file
   * that matches it and is itself not reported.
   */
  lemma DuplicateHasOriginal(s: seq<FileRec>, x: FileRec)
    requires Distinct(s) && IsDuplicateIn(s, x)
    ensures exists y :: y in s && y != x && Matches(y, x) && !IsDuplicateIn(s, y)
  {
    var j :| 0 <= j < |s| && s[j] == x && HasEarlierMatch(s, j);
    var m :| 0 <= m < j && Matches(s[m], s[j]);
    OriginalAtOrBefore(s, m, x);
    var i :| 0 <= i <= m && Matches(s[i], x) && !IsDuplicateIn(s, s[i]);
    assert s[i] != s[j];
  }

  /** The first file of a sequence is never a duplicate. */
  lemma FirstIsNeverDuplicate(s: seq<FileRec>)
    requires Distinct(s) && |s| > 0
    ensures !IsDuplicateIn(s, s[0])
  {
  }

  /** Appending `y` makes `y` a duplicate exactly when an earlier file matches it. */
  lemma DuplicateInSnoc(s: seq<FileRec>, y: FileRec, x: FileRec)
    requires y !in s
    ensures IsDuplicateIn(s + [y], x) <==>
      if x == y then exists z :: z in s && Matches(z, x) else IsDuplicateIn(s, x)
  {
    var t := s + [y];
    forall j | 0 <= j < |s| ensures HasEarlierMatch(t, j) == HasEarlierMatch(s, j) {
      assert forall k :: 0 <= k < j ==> t[k] == s[k];
    }
    if x == y {
      if IsDuplicateIn(t, x) {
        var j :| 0 <= j < |t| && t[j] == x && HasEarlierMatch(t, j);
        assert j == |s|;
        var k :| 0 <= k < j && Matches(t[k], t[j]);
        assert s[k] in s;
      }
      if z :| z in s && Matches(z, x) {
        var k :| 0 <= k < |s| && s[k] == z;
        assert t[k] == z && t[|s|] == x;
        assert HasEarlierMatch(t, |s|);
      }
    } else {
      if IsDuplicateIn(t, x) {
        var j :| 0 <= j < |t| && t[j] == x && HasEarlierMatch(t, j);
        assert j < |s| && s[j] == x;
      }
      if IsDuplicateIn(s, x) {
        var j :| 0 <= j < |s| && s[j] == x && HasEarlierMatch(s, j);
        assert t[j] == x;
      }
    }
  }

  /**
   * Whether a file is a duplicate is decided inside its size group: the
   * group's members in enumeration order give the same answer as the
   * whole enumeration.
   */
  lemma {:induction false} GroupAgreesWithWhole(fs: seq<FileRec>, x: FileRec)
    requires Distinct(fs)
    ensures IsDuplicateIn(WithLength(fs, x.Length()), x) <==> IsDuplicateIn(fs, x)
  {
    var n := x.Length();
    if fs == [] {
    } else {
      var s, y := fs[..|fs| - 1], fs[|fs| - 1];
      assert fs == s + [y];
      assert Distinct(s) by {
        forall p, q | 0 <= p < q < |s| ensures s[p] != s[q] {
          assert s[p] == fs[p] && s[q] == fs[q];
        }
      }
      assert y !in s by {
        forall p | 0 <= p < |s| ensures s[p] != y {
          assert s[p] == fs[p];
        }
      }
      GroupAgreesWithWhole(s, x);
      DuplicateInSnoc(s, y, x);
      var w := WithLength(s, n);
      if y.Length() == n {
        assert WithLength(fs, n) == w + [y];
        DuplicateInSnoc(w, y, x);
        if x == y {
          assert (exists z :: z in w && Matches(z, x)) <==> (exists z :: z in s && Matches(z, x));
        }
      } else {
        assert WithLength(fs, n) == w;
        assert x != y;
      }
    }
  }

  /** Position by position, one more outer round flags what the new source matches after it. */
  lemma FlaggedBeforeStep(s: seq<FileRec>, i: nat, j: nat)
    requires i < |s| && j < |s|
    ensures FlaggedBefore(s, i + 1, j) <==> FlaggedBefore(s, i, j) || (i < j && Matches(s[i], s[j]))
  {
    if FlaggedBefore(s, i + 1, j) && !FlaggedBefore(s, i, j) {
      var k :| 0 <= k < i + 1 && k < j && Matches(s[k], s[j]);
      assert k == i;
    }
  }

  /**
   * A source that is itself a duplicate adds nothing new: whatever it
   * matches after it was already flagged by its own original.
   */
  lemma DuplicateSourceAddsNothing(s: seq<FileRec>, i: nat, j: nat)
    requires i < |s| && j < |s| && HasEarlierMatch(s, i)
    ensures FlaggedBefore(s, i + 1, j) == FlaggedBefore(s, i, j)
  {
    FlaggedBeforeStep(s, i, j);
    if i < j && Matches(s[i], s[j]) {
      var m :| 0 <= m < i && Matches(s[m], s[i]);
      MatchesTransitive(s[m], s[i], s[j]);
    }
  }

  /**
   * A source with no earlier match matches nothing already flagged, and no
   * earlier file that has an earlier match.
   */
  lemma OriginalMatchesNothingFlagged(s: seq<FileRec>, i: nat, j: nat)
    requires i < |s| && j < |s| && !HasEarlierMatch(s, i)
    requires FlaggedBefore(s, i, j) || (j < i && HasEarlierMatch(s, j))
    ensures !Matches(s[i], s[j])
  {
    if Matches(s[i], s[j]) {
      MatchesSymmetric(s[i], s[j]);
      var m :| 0 <= m < i && m < j && Matches(s[m], s[j]);
      MatchesTransitive(s[m], s[j], s[i]);
      assert false;
    }
  }

  /** The files of `g` found in `flagged` are exactly those flagged after `i` outer rounds. */
  ghost predicate FlaggedExactly(g: seq<FileRec>, i: nat, flagged: seq<FileRec>) {
    forall k :: 0 <= k < |g| ==> (g[k] in flagged <==> FlaggedBefore(g, i, k))
  }

  /** The files of `g` found in `sources` are exactly the originals among the first `i`. */
  ghost predicate SourcesExactly(g: seq<FileRec>, i: nat, sources: seq<FileRec>) {
    forall k :: 0 <= k < |g| ==> (g[k] in sources <==> k < i && !HasEarlierMatch(g, k))
  }

  /**
   * A round whose source is an original adds exactly the later files that
   * match it and were not flagged yet.
   */
  lemma FlaggedRound(g: seq<FileRec>, i: nat, flagged: seq<FileRec>, newly: seq<FileRec>)
    requires i < |g| && FlaggedExactly(g, i, flagged)
    requires forall k :: 0 <= k < |g| ==>
      (g[k] in newly <==> i < k && Matches(g[i], g[k]) && !FlaggedBefore(g, i, k))
    ensures FlaggedExactly(g, i + 1, flagged + newly)
  {
    forall k | 0 <= k < |g| ensures g[k] in flagged + newly <==> FlaggedBefore(g, i + 1, k) {
      FlaggedBeforeStep(g, i, k);
    }
  }

  /** A round whose source is itself a duplicate leaves the flagged set as it is. */
  lemma FlaggedSkip(g: seq<FileRec>, i: nat, flagged: seq<FileRec>)
    requires i < |g| && HasEarlierMatch(g, i) && FlaggedExactly(g, i, flagged)
    ensures FlaggedExactly(g, i + 1, flagged)
  {
    forall k | 0 <= k < |g| ensures g[k] in flagged <==> FlaggedBefore(g, i + 1, k) {
      DuplicateSourceAddsNothing(g, i, k);
    }
  }

  /** After all rounds the flagged files are the duplicates of the group. */
  lemma FlaggedAllRounds(g: seq<FileRec>, flagged: seq<FileRec>)
    requires FlaggedExactly(g, |g|, flagged)
    requires forall x :: x in flagged ==> x in g
    ensures forall x :: x in flagged <==> IsDuplicateIn(g, x)
  {
    forall x ensures x in flagged <==> IsDuplicateIn(g, x) {
      if x in flagged {
        var k :| 0 <= k < |g| && g[k] == x;
        assert FlaggedBefore(g, |g|, k);
      }
      if IsDuplicateIn(g, x) {
        var k :| 0 <= k < |g| && g[k] == x && HasEarlierMatch(g, k);
        assert FlaggedBefore(g, |g|, k);
      }
    }
  }

  /** A source that is an original joins the sources after its round. */
  lemma SourcesRound(g: seq<FileRec>, i: nat, sources: seq<FileRec>)
    requires Distinct(g) && i < |g| && !HasEarlierMatch(g, i) && SourcesExactly(g, i, sources)
    ensures SourcesExactly(g, i + 1, sources + [g[i]])
  {
    forall k | 0 <= k < |g| ensures g[k] in sources + [g[i]] <==> k < i + 1 && !HasEarlierMatch(g, k) {
      assert g[k] == g[i] <==> k == i;
    }
  }

  /** A source that is a duplicate never joins the sources. */
  lemma SourcesSkip(g: seq<FileRec>, i: nat, sources: seq<FileRec>)
    requires i < |g| && HasEarlierMatch(g, i) && SourcesExactly(g, i, sources)
    ensures SourcesExactly(g, i + 1, sources)
  {
    forall k | 0 <= k < |g| ensures g[k] in sources <==> k < i + 1 && !HasEarlierMatch(g, k) {
      assert k < i + 1 <==> k < i || k == i;
    }
  }
}
