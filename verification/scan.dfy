/** The leftmost, non-overlapping scan that `re.findall`, `re.sub(p, '', s)`
    and `str.replace(x, '')` share: from the current position, find the first
    position where the pattern matches, take the match the engine returns
    there, and go on after it. The scan splits the string into the pieces
    between matches and the matches themselves. */
module Scan {
  import opened Wrappers
  import opened Text
  import opened Patterns

  /** The pieces between matches (one more than the matches) and the matches. */
  datatype Scanned = Scanned(pieces: seq<string>, found: seq<string>)

  /** The scan of s[start..] whose current candidate position is i. */
  function ScanFrom(p: Pattern, s: string, start: nat, i: nat): (r: Scanned)
    requires WellFormed(p) && start <= i <= |s|
    ensures |r.pieces| == |r.found| + 1
    ensures forall k :: 0 <= k < |r.found| ==> |r.found[k]| > 0
    decreases |s| - i
  {
    if i == |s| then Scanned([s[start..]], [])
    else
      match MatchEnd(p, s, i)
      case Some(e) =>
        var rest := ScanFrom(p, s, e, e);
        Scanned([s[start..i]] + rest.pieces, [s[i..e]] + rest.found)
      case None => ScanFrom(p, s, start, i + 1)
  }

  /** `re.findall(p, s)` (the patterns have no groups, so whole matches). */
  function FindAll(p: Pattern, s: string): (found: seq<string>)
    requires WellFormed(p)
    ensures forall k :: 0 <= k < |found| ==> |found[k]| > 0
  {
    ScanFrom(p, s, 0, 0).found
  }

  /** `re.sub(p, '', s)`, and `s.replace(t, '')` for p == Literal(t). */
  function Sub(p: Pattern, s: string): (r: string)
    requires WellFormed(p)
    ensures IsSubsequence(r, s)
  {
    var sc := ScanFrom(p, s, 0, 0);
    ScanRoundTrip(p, s, 0, 0);
    InterleaveSubsequence(sc.pieces, sc.found);
    Concat(sc.pieces)
  }

  // ---------------------------------------------------------------------
  // The scan loses nothing

  /** Dropping the matches only deletes characters. */
  lemma {:induction false} InterleaveSubsequence(pieces: seq<string>, found: seq<string>)
    requires |pieces| == |found| + 1
    ensures IsSubsequence(Concat(pieces), Interleave(pieces, found))
    decreases |found|
  {
    SubsequenceRefl(pieces[0]);
    if found == [] {
      assert pieces[1..] == [];
      assert Concat(pieces) == pieces[0] + [];
      assert Concat(pieces) == pieces[0];
    } else {
      var rest := Interleave(pieces[1..], found[1..]);
      InterleaveSubsequence(pieces[1..], found[1..]);
      SubsequenceEmpty(found[0]);
      SubsequenceConcat([], found[0], Concat(pieces[1..]), rest);
      assert [] + Concat(pieces[1..]) == Concat(pieces[1..]);
      SubsequenceConcat(pieces[0], pieces[0], Concat(pieces[1..]), found[0] + rest);
      assert Interleave(pieces, found) == pieces[0] + (found[0] + rest);
    }
  }

  /** Putting the matches back between the pieces gives the scanned text. */
  lemma {:induction false} ScanRoundTrip(p: Pattern, s: string, start: nat, i: nat)
    requires WellFormed(p) && start <= i <= |s|
    ensures Interleave(ScanFrom(p, s, start, i).pieces, ScanFrom(p, s, start, i).found) == s[start..]
    decreases |s| - i
  {
    if i < |s| {
      var m := MatchEnd(p, s, i);
      if m.Some? {
        var e := m.value;
        ScanRoundTrip(p, s, e, e);
        var rest := ScanFrom(p, s, e, e);
        ScanFromMatch(p, s, start, i);
        InterleaveCons(s[start..i], s[i..e], rest.pieces, rest.found);
        SliceThree(s, start, i, e);
      } else {
        ScanRoundTrip(p, s, start, i + 1);
      }
    }
  }

  /** The scan at a position where the pattern matches. */
  lemma ScanFromMatch(p: Pattern, s: string, start: nat, i: nat)
    requires WellFormed(p) && start <= i < |s| && MatchEnd(p, s, i).Some?
    ensures var e := MatchEnd(p, s, i).value;
            ScanFrom(p, s, start, i)
            == Scanned([s[start..i]] + ScanFrom(p, s, e, e).pieces, [s[i..e]] + ScanFrom(p, s, e, e).found)
  {
  }

  // ---------------------------------------------------------------------
  // The scan is the leftmost-longest decomposition

  /** No match of p starts in [lo, hi). */
  ghost predicate NoSpanIn(p: Pattern, s: string, lo: nat, hi: nat) {
    forall a: nat, j: nat :: lo <= a < hi && Span(p, s, a, j) ==> false
  }

  /** s[a..e] is the match found when searching from `from`: no match starts
      earlier, and no longer match starts at a. */
  ghost predicate LeftmostLongest(p: Pattern, s: string, from: nat, a: nat, e: nat) {
    from <= a < e <= |s| && Span(p, s, a, e) && NoSpanIn(p, s, from, a)
    && forall j: nat :: Span(p, s, a, j) ==> j <= e
  }

  /** What the scan of s[from..] must produce, stated match by match: the
      first match is the leftmost-longest one, the text before it is the
      first piece, and the rest is the decomposition after it. */
  ghost predicate Decomposes(p: Pattern, s: string, from: nat, pieces: seq<string>, found: seq<string>)
    requires from <= |s|
    decreases |found|
  {
    |pieces| == |found| + 1
    && if found == [] then pieces[0] == s[from..] && NoSpanIn(p, s, from, |s|)
       else
         exists a: nat, e: nat ::
           (LeftmostLongest(p, s, from, a, e)
            && pieces[0] == s[from..a] && found[0] == s[a..e]
            && Decomposes(p, s, e, pieces[1..], found[1..]))
  }

  /** The scan meets its reference definition. */
  lemma {:induction false} ScanDecomposes(p: Pattern, s: string, start: nat, i: nat)
    requires WellFormed(p) && start <= i <= |s| && NoSpanIn(p, s, start, i)
    ensures Decomposes(p, s, start, ScanFrom(p, s, start, i).pieces, ScanFrom(p, s, start, i).found)
    decreases |s| - i
  {
    var r := ScanFrom(p, s, start, i);
    MatchEndIsLongest(p, s, i);
    if i == |s| {
    } else {
      match MatchEnd(p, s, i)
      case Some(e) =>
        ScanDecomposes(p, s, e, e);
        var rest := ScanFrom(p, s, e, e);
        assert r.pieces[1..] == rest.pieces && r.found[1..] == rest.found;
        assert LeftmostLongest(p, s, start, i, e);
      case None =>
        forall a: nat, j: nat | start <= a < i + 1 && Span(p, s, a, j)
          ensures false
        {
          SpanNonEmpty(p, s, a, j);
        }
        ScanDecomposes(p, s, start, i + 1);
    }
  }

  /** At most one match is the leftmost-longest one. */
  lemma LeftmostLongestUnique(p: Pattern, s: string, from: nat, a1: nat, e1: nat, a2: nat, e2: nat)
    requires LeftmostLongest(p, s, from, a1, e1) && LeftmostLongest(p, s, from, a2, e2)
    ensures a1 == a2 && e1 == e2
  {
    assert Span(p, s, a1, e1) && Span(p, s, a2, e2);
  }

  /** The reference definition admits one decomposition only. */
  lemma {:induction false} DecomposesUnique(p: Pattern, s: string, from: nat,
                                           pieces1: seq<string>, found1: seq<string>,
                                           pieces2: seq<string>, found2: seq<string>)
    requires WellFormed(p) && from <= |s|
    requires Decomposes(p, s, from, pieces1, found1) && Decomposes(p, s, from, pieces2, found2)
    ensures pieces1 == pieces2 && found1 == found2
    decreases |found1|
  {
    if found1 == [] || found2 == [] {
    } else {
      var e := DecomposesStep(p, s, from, pieces1, found1, pieces2, found2);
      DecomposesUnique(p, s, e, pieces1[1..], found1[1..], pieces2[1..], found2[1..]);
      HeadTail(pieces1, pieces2);
      HeadTail(found1, found2);
    }
  }

  /** Two decompositions with a match agree on the first piece and match,
      and continue from the same position. */
  lemma DecomposesStep(p: Pattern, s: string, from: nat,
                       pieces1: seq<string>, found1: seq<string>,
                       pieces2: seq<string>, found2: seq<string>) returns (e: nat)
    requires from <= |s| && found1 != [] && found2 != []
    requires Decomposes(p, s, from, pieces1, found1) && Decomposes(p, s, from, pieces2, found2)
    ensures e <= |s| && pieces1[0] == pieces2[0] && found1[0] == found2[0]
    ensures Decomposes(p, s, e, pieces1[1..], found1[1..]) && Decomposes(p, s, e, pieces2[1..], found2[1..])
  {
    var a1: nat, e1: nat :| LeftmostLongest(p, s, from, a1, e1)
      && pieces1[0] == s[from..a1] && found1[0] == s[a1..e1]
      && Decomposes(p, s, e1, pieces1[1..], found1[1..]);
    var a2: nat, e2: nat :| LeftmostLongest(p, s, from, a2, e2)
      && pieces2[0] == s[from..a2] && found2[0] == s[a2..e2]
      && Decomposes(p, s, e2, pieces2[1..], found2[1..]);
    LeftmostLongestUnique(p, s, from, a1, e1, a2, e2);
    e := e1;
  }

  lemma HeadTail<T>(x: seq<T>, y: seq<T>)
    requires |x| > 0 && |y| > 0 && x[0] == y[0] && x[1..] == y[1..]
    ensures x == y
  {
    assert x == [x[0]] + x[1..];
    assert y == [y[0]] + y[1..];
  }

  /** `re.findall` finds nothing exactly when nothing matches, and otherwise
      its first element is the leftmost-longest match in s. */
  lemma FindAllFirst(p: Pattern, s: string)
    requires WellFormed(p)
    ensures FindAll(p, s) == [] <==> NoSpanIn(p, s, 0, |s|)
    ensures FindAll(p, s) != [] ==> exists a: nat, e: nat :: LeftmostLongest(p, s, 0, a, e) && FindAll(p, s)[0] == s[a..e]
  {
    ScanDecomposes(p, s, 0, 0);
    var r := ScanFrom(p, s, 0, 0);
    if r.found != [] {
      var a: nat, e: nat :| LeftmostLongest(p, s, 0, a, e)
        && r.pieces[0] == s[0..a] && r.found[0] == s[a..e]
        && Decomposes(p, s, e, r.pieces[1..], r.found[1..]);
      assert Span(p, s, a, e);
    }
  }

  /** Deleting the matches: the result is the pieces of the scan, and the
      scan's matches put back between them rebuild s. */
  lemma SubRemovesFound(p: Pattern, s: string)
    requires WellFormed(p)
    ensures Sub(p, s) == Concat(ScanFrom(p, s, 0, 0).pieces)
    ensures Interleave(ScanFrom(p, s, 0, 0).pieces, FindAll(p, s)) == s
    ensures Decomposes(p, s, 0, ScanFrom(p, s, 0, 0).pieces, FindAll(p, s))
  {
    ScanRoundTrip(p, s, 0, 0);
    ScanDecomposes(p, s, 0, 0);
  }
}
