/** The two chunkers of the speech output: the sentence splitter of
    `speak_text`, which lets the offline engine stop between sentences, and
    the segmenter of `speak_with_gtts`, which groups words into segments of
    about 100 characters for the online engine. */
module Speech {
  import opened Text

  // ---------------------------------------------------------------------
  // Sentences

  predicate IsTerminator(c: char) {
    c == '.' || c == '!' || c == '?'
  }

  /** `text.replace('!', '.').replace('?', '.')`. */
  function MapTerminators(s: string): (r: string)
    ensures |r| == |s|
    ensures forall k :: 0 <= k < |s| ==> r[k] != '!' && r[k] != '?'
    ensures forall k :: 0 <= k < |s| ==> (r[k] == '.' <==> IsTerminator(s[k]))
    ensures forall k :: 0 <= k < |s| && !IsTerminator(s[k]) ==> r[k] == s[k]
  {
    seq(|s|, k requires 0 <= k < |s| => if IsTerminator(s[k]) then '.' else s[k])
  }

  /** The pieces put back together with the separator between them. */
  function Join(pieces: seq<string>, sep: char): string
    requires |pieces| > 0
  {
    if |pieces| == 1 then pieces[0] else pieces[0] + [sep] + Join(pieces[1..], sep)
  }

  /** `s.split(sep)` for a one-character separator: the text between
      separators, including the empty text between two adjacent ones. */
  function SplitOn(s: string, sep: char): (pieces: seq<string>)
    ensures |pieces| > 0
    ensures forall k :: 0 <= k < |pieces| ==> sep !in pieces[k]
    ensures forall k, j :: 0 <= k < |pieces| && 0 <= j < |pieces[k]| ==> pieces[k][j] in s
    ensures Join(pieces, sep) == s
    decreases |s|
  {
    if s == [] then [[]]
    else
      var rest := SplitOn(s[1..], sep);
      if s[0] == sep then
        assert s == [sep] + s[1..];
        [[]] + rest
      else
        var r := [[s[0]] + rest[0]] + rest[1..];
        assert r[1..] == rest[1..];
        assert s == [s[0]] + s[1..];
        r
  }

  /** Within Join, the first separator stands right after the first piece. */
  lemma JoinFirstSeparator(pieces: seq<string>, sep: char)
    requires |pieces| > 1 && sep !in pieces[0]
    ensures |pieces[0]| < |Join(pieces, sep)| && Join(pieces, sep)[|pieces[0]|] == sep
    ensures forall k :: 0 <= k < |pieces[0]| ==> Join(pieces, sep)[k] == pieces[0][k] != sep
  {
  }

  /** Pieces free of the separator are determined by their join: SplitOn is
      the only such split. */
  lemma {:induction false} SplitUnique(p1: seq<string>, p2: seq<string>, sep: char)
    requires |p1| > 0 && |p2| > 0
    requires forall k :: 0 <= k < |p1| ==> sep !in p1[k]
    requires forall k :: 0 <= k < |p2| ==> sep !in p2[k]
    requires Join(p1, sep) == Join(p2, sep)
    ensures p1 == p2
    decreases |p1|
  {
    var s := Join(p1, sep);
    if |p1| == 1 && |p2| == 1 {
    } else if |p1| == 1 {
      JoinFirstSeparator(p2, sep);
    } else if |p2| == 1 {
      JoinFirstSeparator(p1, sep);
    } else {
      JoinFirstSeparator(p1, sep);
      JoinFirstSeparator(p2, sep);
      if |p1[0]| == |p2[0]| {
        assert p1[0] == s[..|p1[0]|] == p2[0];
        assert Join(p1[1..], sep) == s[|p1[0]| + 1..] == Join(p2[1..], sep);
        SplitUnique(p1[1..], p2[1..], sep);
        assert p1 == [p1[0]] + p1[1..];
        assert p2 == [p2[0]] + p2[1..];
      }
    }
  }

  /** The stripped pieces, without the ones that strip to nothing. */
  function Sentences(pieces: seq<string>): (r: seq<string>)
    ensures forall k :: 0 <= k < |r| ==> |r[k]| > 0 && IsStripped(r[k])
  {
    if pieces == [] then []
    else (if Strip(pieces[0]) == [] then [] else [Strip(pieces[0])]) + Sentences(pieces[1..])
  }

  /** The sentence list of `speak_text`. */
  function SplitSentences(text: string): (sentences: seq<string>)
    ensures forall k :: 0 <= k < |sentences| ==> |sentences[k]| > 0 && IsStripped(sentences[k])
  {
    Sentences(SplitOn(MapTerminators(text), '.'))
  }

  /** Every character of a stripped text comes from the text. */
  lemma StripChars(s: string)
    ensures forall j :: 0 <= j < |Strip(s)| ==> Strip(s)[j] in s
  {
    var r := Strip(s);
    var a := StripSlice(s);
    forall j | 0 <= j < |r|
      ensures r[j] in s
    {
      assert r[j] == s[a + j];
    }
  }

  predicate NoTerminator(s: string) {
    forall j :: 0 <= j < |s| ==> !IsTerminator(s[j])
  }

  lemma {:induction false} SentencesNoTerminator(pieces: seq<string>)
    requires forall k :: 0 <= k < |pieces| ==> NoTerminator(pieces[k])
    ensures forall k :: 0 <= k < |Sentences(pieces)| ==> NoTerminator(Sentences(pieces)[k])
  {
    if pieces != [] {
      StripChars(pieces[0]);
      SentencesNoTerminator(pieces[1..]);
    }
  }

  /** No sentence holds '.', '!' or '?'. */
  lemma SentencesHaveNoTerminator(text: string)
    ensures forall k :: 0 <= k < |SplitSentences(text)| ==> NoTerminator(SplitSentences(text)[k])
  {
    var m := MapTerminators(text);
    var pieces := SplitOn(m, '.');
    forall k | 0 <= k < |pieces|
      ensures NoTerminator(pieces[k])
    {
      forall j | 0 <= j < |pieces[k]|
        ensures !IsTerminator(pieces[k][j])
      {
        assert pieces[k][j] in m;
      }
    }
    SentencesNoTerminator(pieces);
  }

  // ---------------------------------------------------------------------
  // Where the sentences are cut

  /** The terminators of s, in order, each as a one-character string. */
  function Terminators(s: string): (ts: seq<string>)
    ensures forall k :: 0 <= k < |ts| ==> |ts[k]| == 1 && IsTerminator(ts[k][0])
  {
    if s == [] then [] else (if IsTerminator(s[0]) then [[s[0]]] else []) + Terminators(s[1..])
  }

  lemma MapTerminatorsTail(s: string)
    requires s != []
    ensures MapTerminators(s)[1..] == MapTerminators(s[1..])
  {
  }

  /** The pieces between terminators, with the text's own terminators put
      back between them, rebuild the text: the split cuts at every '.', '!'
      and '?' and nowhere else. */
  lemma {:induction false} SplitRebuild(text: string)
    ensures |SplitOn(MapTerminators(text), '.')| == |Terminators(text)| + 1
    ensures Interleave(SplitOn(MapTerminators(text), '.'), Terminators(text)) == text
    decreases |text|
  {
    if text != [] {
      SplitRebuild(text[1..]);
      if IsTerminator(text[0]) {
        RebuildTerminator(text);
      } else {
        RebuildInside(text);
      }
    }
  }

  /** The split of text, with its terminators put back, gives text again. */
  ghost predicate Rebuilds(text: string)
  {
    var pieces, ts := SplitOn(MapTerminators(text), '.'), Terminators(text);
    |pieces| == |ts| + 1 && Interleave(pieces, ts) == text
  }

  lemma RebuildTerminator(text: string)
    requires text != [] && IsTerminator(text[0]) && Rebuilds(text[1..])
    ensures Rebuilds(text)
  {
    var rest, ts := SplitOn(MapTerminators(text[1..]), '.'), Terminators(text[1..]);
    SplitHeadTerminator(text);
    assert Terminators(text) == [[text[0]]] + ts;
    InterleaveCons([], [text[0]], rest, ts);
    assert text == [text[0]] + text[1..];
  }

  lemma RebuildInside(text: string)
    requires text != [] && !IsTerminator(text[0]) && Rebuilds(text[1..])
    ensures Rebuilds(text)
  {
    var rest, ts := SplitOn(MapTerminators(text[1..]), '.'), Terminators(text[1..]);
    SplitHeadInside(text);
    assert Terminators(text) == ts;
    InterleavePrefix([text[0]], rest, ts);
    assert text == [text[0]] + text[1..];
  }

  lemma SplitHeadTerminator(text: string)
    requires text != [] && IsTerminator(text[0])
    ensures SplitOn(MapTerminators(text), '.') == [[]] + SplitOn(MapTerminators(text[1..]), '.')
  {
    MapTerminatorsTail(text);
    SplitAtSeparator(MapTerminators(text), '.');
  }

  lemma SplitHeadInside(text: string)
    requires text != [] && !IsTerminator(text[0])
    ensures var rest := SplitOn(MapTerminators(text[1..]), '.');
            SplitOn(MapTerminators(text), '.') == [[text[0]] + rest[0]] + rest[1..]
  {
    MapTerminatorsTail(text);
    SplitInsidePiece(MapTerminators(text), '.');
  }

  lemma SplitAtSeparator(s: string, sep: char)
    requires s != [] && s[0] == sep
    ensures SplitOn(s, sep) == [[]] + SplitOn(s[1..], sep)
  {
  }

  lemma SplitInsidePiece(s: string, sep: char)
    requires s != [] && s[0] != sep
    ensures SplitOn(s, sep) == [[s[0]] + SplitOn(s[1..], sep)[0]] + SplitOn(s[1..], sep)[1..]
  {
  }

  /** sents[k] is the stripped piece idx[k], the indices increase, and every
      piece left out strips to nothing. */
  ghost predicate Picks(pieces: seq<string>, sents: seq<string>, idx: seq<nat>)
  {
    && |idx| == |sents|
    && (forall k :: 0 <= k < |idx| ==> idx[k] < |pieces| && sents[k] == Strip(pieces[idx[k]]))
    && (forall k, j :: 0 <= k < j < |idx| ==> idx[k] < idx[j])
    && (forall j :: 0 <= j < |pieces| && j !in idx ==> Strip(pieces[j]) == [])
  }

  /** The sentences are the stripped pieces that are not blank, in order. */
  lemma {:induction false} SentencesPick(pieces: seq<string>) returns (idx: seq<nat>)
    ensures Picks(pieces, Sentences(pieces), idx)
  {
    if pieces == [] {
      idx := [];
    } else {
      var rest := SentencesPick(pieces[1..]);
      if Strip(pieces[0]) == [] {
        idx := PickSkip(pieces, Sentences(pieces[1..]), rest);
      } else {
        idx := PickTake(pieces, Sentences(pieces[1..]), rest);
      }
    }
  }

  /** Every index one higher. */
  function Shift(idx: seq<nat>): (r: seq<nat>)
    ensures |r| == |idx| && forall k :: 0 <= k < |idx| ==> r[k] == idx[k] + 1
  {
    seq(|idx|, k requires 0 <= k < |idx| => idx[k] + 1)
  }

  /** 0, then every index one higher. */
  function ShiftIn(idx: seq<nat>): (r: seq<nat>)
    ensures |r| == |idx| + 1 && r[0] == 0 && forall k :: 0 < k < |r| ==> r[k] == idx[k - 1] + 1
  {
    seq(|idx| + 1, k requires 0 <= k <= |idx| => if k == 0 then 0 else idx[k - 1] + 1)
  }

  lemma PickSkip(pieces: seq<string>, sents: seq<string>, rest: seq<nat>) returns (idx: seq<nat>)
    requires pieces != [] && Strip(pieces[0]) == [] && Picks(pieces[1..], sents, rest)
    ensures Picks(pieces, sents, idx)
  {
    idx := Shift(rest);
    forall k | 0 <= k < |idx|
      ensures idx[k] < |pieces| && sents[k] == Strip(pieces[idx[k]])
    {
      assert pieces[idx[k]] == pieces[1..][rest[k]];
    }
    forall j | 0 < j < |pieces| && j !in idx
      ensures Strip(pieces[j]) == []
    {
      assert pieces[j] == pieces[1..][j - 1];
    }
  }

  lemma PickTake(pieces: seq<string>, sents: seq<string>, rest: seq<nat>) returns (idx: seq<nat>)
    requires pieces != [] && Strip(pieces[0]) != [] && Picks(pieces[1..], sents, rest)
    ensures Picks(pieces, [Strip(pieces[0])] + sents, idx)
  {
    idx := ShiftIn(rest);
    TakeSelects(pieces, sents, rest, idx);
    TakeBlanks(pieces, sents, rest, idx);
  }

  lemma TakeSelects(pieces: seq<string>, sents: seq<string>, rest: seq<nat>, idx: seq<nat>)
    requires pieces != [] && Picks(pieces[1..], sents, rest) && idx == ShiftIn(rest)
    ensures forall k :: 0 <= k < |idx| ==> idx[k] < |pieces| && ([Strip(pieces[0])] + sents)[k] == Strip(pieces[idx[k]])
  {
    var out := [Strip(pieces[0])] + sents;
    forall k | 0 < k < |idx|
      ensures idx[k] < |pieces| && out[k] == Strip(pieces[idx[k]])
    {
      assert out[k] == sents[k - 1];
      assert pieces[idx[k]] == pieces[1..][rest[k - 1]];
    }
  }

  lemma TakeBlanks(pieces: seq<string>, sents: seq<string>, rest: seq<nat>, idx: seq<nat>)
    requires pieces != [] && Picks(pieces[1..], sents, rest) && idx == ShiftIn(rest)
    ensures forall j :: 0 <= j < |pieces| && j !in idx ==> Strip(pieces[j]) == []
  {
    forall j | 0 < j < |pieces| && j !in idx
      ensures Strip(pieces[j]) == []
    {
      assert pieces[j] == pieces[1..][j - 1];
      forall k | 0 <= k < |rest|
        ensures rest[k] != j - 1
      {
        assert idx[k + 1] == rest[k] + 1;
      }
    }
  }

  /** Where the sentences of `speak_text` come from: the text is its pieces
      between terminators with the terminators put back, and sentence k is
      the stripped piece idx[k], in order, every other piece being blank. */
  lemma SentenceBoundaries(text: string) returns (idx: seq<nat>)
    ensures var pieces := SplitOn(MapTerminators(text), '.');
            && |pieces| == |Terminators(text)| + 1 && Interleave(pieces, Terminators(text)) == text
            && Picks(pieces, SplitSentences(text), idx)
  {
    SplitRebuild(text);
    idx := SentencesPick(SplitOn(MapTerminators(text), '.'));
  }

  // ---------------------------------------------------------------------
  // The sentences keep every visible character, in order

  /** The characters of s[lo..hi] that are neither whitespace nor terminators. */
  function VisibleIn(s: string, lo: nat, hi: nat): string
    requires lo <= hi <= |s|
    decreases hi - lo
  {
    if lo == hi then [] else (if IsSpace(s[lo]) || IsTerminator(s[lo]) then [] else [s[lo]]) + VisibleIn(s, lo + 1, hi)
  }

  /** The visible characters of s. */
  function Visible(s: string): string {
    VisibleIn(s, 0, |s|)
  }

  lemma {:induction false} VisibleInSplit(s: string, lo: nat, mid: nat, hi: nat)
    requires lo <= mid <= hi <= |s|
    ensures VisibleIn(s, lo, hi) == VisibleIn(s, lo, mid) + VisibleIn(s, mid, hi)
    decreases mid - lo
  {
    if lo < mid {
      VisibleInSplit(s, lo + 1, mid, hi);
    }
  }

  /** Ranges holding the same characters hold the same visible ones. */
  lemma {:induction false} VisibleInSame(s: string, lo: nat, hi: nat, t: string, d: nat)
    requires lo <= hi <= |s| && d + (hi - lo) <= |t|
    requires forall k :: lo <= k < hi ==> s[k] == t[d + (k - lo)]
    ensures VisibleIn(s, lo, hi) == VisibleIn(t, d, d + (hi - lo))
    decreases hi - lo
  {
    if lo < hi {
      VisibleInSame(s, lo + 1, hi, t, d + 1);
    }
  }

  lemma {:induction false} VisibleInOfSpace(s: string, lo: nat, hi: nat)
    requires lo <= hi <= |s| && AllIn(s, lo, hi, Space)
    ensures VisibleIn(s, lo, hi) == []
    decreases hi - lo
  {
    if lo < hi {
      VisibleInOfSpace(s, lo + 1, hi);
    }
  }

  lemma VisibleAppend(x: string, y: string)
    ensures Visible(x + y) == Visible(x) + Visible(y)
  {
    VisibleInSplit(x + y, 0, |x|, |x + y|);
    VisibleInSame(x + y, 0, |x|, x, 0);
    VisibleInSame(x + y, |x|, |x + y|, y, 0);
  }

  /** Whitespace around s[a..b] holds nothing visible. */
  lemma VisibleInside(s: string, a: nat, b: nat)
    requires a <= b <= |s| && AllIn(s, 0, a, Space) && AllIn(s, b, |s|, Space)
    ensures Visible(s[a..b]) == Visible(s)
  {
    VisibleAround(s, a, b);
    VisibleSlice(s, a, b);
  }

  lemma VisibleAround(s: string, a: nat, b: nat)
    requires a <= b <= |s| && AllIn(s, 0, a, Space) && AllIn(s, b, |s|, Space)
    ensures Visible(s) == VisibleIn(s, a, b)
  {
    VisibleInSplit(s, 0, a, |s|);
    VisibleInSplit(s, a, b, |s|);
    VisibleInOfSpace(s, 0, a);
    VisibleInOfSpace(s, b, |s|);
  }

  lemma VisibleSlice(s: string, a: nat, b: nat)
    requires a <= b <= |s|
    ensures Visible(s[a..b]) == VisibleIn(s, a, b)
  {
    VisibleInSame(s[a..b], 0, b - a, s, a);
  }

  lemma VisibleStrip(s: string)
    ensures Visible(Strip(s)) == Visible(s)
  {
    var a := StripSlice(s);
    VisibleInside(s, a, a + |Strip(s)|);
  }

  lemma {:induction false} VisibleInMap(s: string, lo: nat, hi: nat)
    requires lo <= hi <= |s|
    ensures VisibleIn(MapTerminators(s), lo, hi) == VisibleIn(s, lo, hi)
    decreases hi - lo
  {
    if lo < hi {
      VisibleInMap(s, lo + 1, hi);
      MapKeepsVisible(s, lo);
    }
  }

  /** Mapping the terminators changes no visible character and makes none
      visible. */
  lemma MapKeepsVisible(s: string, k: nat)
    requires k < |s|
    ensures var c := MapTerminators(s)[k];
            (IsSpace(c) || IsTerminator(c)) == (IsSpace(s[k]) || IsTerminator(s[k]))
            && (!IsTerminator(s[k]) ==> c == s[k])
  {
  }

  lemma VisibleMap(s: string)
    ensures Visible(MapTerminators(s)) == Visible(s)
  {
    VisibleInMap(s, 0, |s|);
  }

  lemma {:induction false} VisibleJoin(pieces: seq<string>)
    requires |pieces| > 0
    ensures Visible(Join(pieces, '.')) == Visible(Concat(pieces))
    decreases |pieces|
  {
    if |pieces| == 1 {
      assert pieces[1..] == [];
      assert Concat(pieces) == pieces[0] + [];
      assert Concat(pieces) == pieces[0];
    } else {
      VisibleJoin(pieces[1..]);
      assert Join(pieces, '.') == pieces[0] + ['.'] + Join(pieces[1..], '.');
      assert Concat(pieces) == pieces[0] + Concat(pieces[1..]);
      VisibleAppend(pieces[0] + ['.'], Join(pieces[1..], '.'));
      VisibleAppend(pieces[0], ['.']);
      assert Visible(['.']) == [];
      VisibleAppend(pieces[0], Concat(pieces[1..]));
    }
  }

  lemma {:induction false} VisibleSentences(pieces: seq<string>)
    ensures Visible(Concat(Sentences(pieces))) == Visible(Concat(pieces))
  {
    if pieces != [] {
      var head := if Strip(pieces[0]) == [] then [] else [Strip(pieces[0])];
      var tail := Sentences(pieces[1..]);
      assert Sentences(pieces) == head + tail;
      ConcatJoin(head, tail);
      VisibleStrip(pieces[0]);
      assert Visible(Concat(head)) == Visible(pieces[0]) by {
        if head != [] {
          assert head[1..] == [];
          assert Concat(head) == Strip(pieces[0]) + [];
          assert Concat(head) == Strip(pieces[0]);
        } else {
          assert Visible(pieces[0]) == Visible([]) == [];
          assert Concat(head) == [];
        }
      }
      VisibleSentences(pieces[1..]);
      VisibleAppend(Concat(head), Concat(tail));
      assert Concat(pieces) == pieces[0] + Concat(pieces[1..]);
      VisibleAppend(pieces[0], Concat(pieces[1..]));
    }
  }

  /** The sentences, read one after another, hold exactly the visible
      characters of the text, in their original order. */
  lemma SentencesCover(text: string)
    ensures Visible(Concat(SplitSentences(text))) == Visible(text)
  {
    var pieces := SplitOn(MapTerminators(text), '.');
    VisibleSentences(pieces);
    VisibleJoin(pieces);
    VisibleMap(text);
  }

  // ---------------------------------------------------------------------
  // Segments

  /** The length past which the segmenter closes a segment. */
  const MaxSegment: nat := 100

  /** Each word followed by one space. */
  function Spaced(ws: seq<string>): (r: string)
    ensures r == [] <==> ws == []
  {
    if ws == [] then [] else ws[0] + " " + Spaced(ws[1..])
  }

  lemma {:induction false} SpacedJoin(a: seq<string>, b: seq<string>)
    ensures Spaced(a + b) == Spaced(a) + Spaced(b)
  {
    if a == [] {
      assert a + b == b;
    } else {
      assert (a + b)[0] == a[0];
      assert (a + b)[1..] == a[1..] + b;
      SpacedJoin(a[1..], b);
    }
  }

  lemma SpacedAppend(ws: seq<string>, w: string)
    ensures Spaced(ws + [w]) == Spaced(ws) + w + " "
  {
    SpacedJoin(ws, [w]);
    assert [w][1..] == [];
  }

  lemma SpacedPrefix(ws: seq<string>, n: nat)
    requires n <= |ws|
    ensures |Spaced(ws[..n])| <= |Spaced(ws)|
  {
    assert ws == ws[..n] + ws[n..];
    SpacedJoin(ws[..n], ws[n..]);
  }

  lemma SpacedLast(ws: seq<string>)
    requires ws != []
    ensures Spaced(ws)[|Spaced(ws)| - 1] == ' '
  {
    assert ws == ws[..|ws| - 1] + [ws[|ws| - 1]];
    SpacedAppend(ws[..|ws| - 1], ws[|ws| - 1]);
  }

  /** A grouping of the words the way the segmenter groups them: every
      group is non-empty and at most MaxSegment long before its last word
      was added, and every group but the last is longer than MaxSegment. */
  predicate GreedyGroups(words: seq<string>, groups: seq<seq<string>>) {
    Concat(groups) == words
    && (forall k :: 0 <= k < |groups| ==> |groups[k]| > 0 && |Spaced(groups[k][..|groups[k]| - 1])| <= MaxSegment)
    && (forall k :: 0 <= k < |groups| - 1 ==> |Spaced(groups[k])| > MaxSegment)
  }

  /** The segment text of each group. */
  function SpacedAll(groups: seq<seq<string>>): (r: seq<string>)
    ensures |r| == |groups|
    ensures forall k :: 0 <= k < |groups| ==> r[k] == Spaced(groups[k])
  {
    seq(|groups|, k requires 0 <= k < |groups| => Spaced(groups[k]))
  }

  /** The first group of a greedy grouping is fixed by the words. */
  lemma GreedyFirstGroup(words: seq<string>, g1: seq<seq<string>>, g2: seq<seq<string>>)
    requires GreedyGroups(words, g1) && GreedyGroups(words, g2) && g1 != [] && g2 != []
    ensures g1[0] == g2[0]
  {
    assert Concat(g1) == g1[0] + Concat(g1[1..]);
    assert Concat(g2) == g2[0] + Concat(g2[1..]);
    var a, b := g1[0], g2[0];
    assert a == words[..|a|] && b == words[..|b|];
    if |a| < |b| && |g1| > 1 {
      assert a == b[..|b| - 1][..|a|];
      SpacedPrefix(b[..|b| - 1], |a|);
    } else if |b| < |a| && |g2| > 1 {
      assert b == a[..|a| - 1][..|b|];
      SpacedPrefix(a[..|a| - 1], |b|);
    }
  }

  /** There is one greedy grouping of a word list only. */
  lemma {:induction false} GreedyUnique(words: seq<string>, g1: seq<seq<string>>, g2: seq<seq<string>>)
    requires GreedyGroups(words, g1) && GreedyGroups(words, g2)
    ensures g1 == g2
    decreases |words|
  {
    if g1 == [] || g2 == [] {
    } else {
      GreedyFirstGroup(words, g1, g2);
      GreedyTail(words, g1);
      GreedyTail(words, g2);
      var rest := words[|g1[0]|..];
      GreedyUnique(rest, g1[1..], g2[1..]);
      assert g1 == [g1[0]] + g1[1..];
      assert g2 == [g2[0]] + g2[1..];
    }
  }

  /** The length of the first group the segmenter closes, searching from n
      words: the first prefix longer than MaxSegment once spaced, or all
      the words. */
  function FirstGroupLength(words: seq<string>, n: nat): (r: nat)
    requires 1 <= n <= |words|
    ensures n <= r <= |words|
    ensures r == |words| || |Spaced(words[..r])| > MaxSegment
    ensures forall m :: n <= m < r ==> |Spaced(words[..m])| <= MaxSegment
    decreases |words| - n
  {
    if n == |words| || |Spaced(words[..n])| > MaxSegment then n else FirstGroupLength(words, n + 1)
  }

  /** The groups of words the segmenter closes, in order. */
  function Groups(words: seq<string>): (groups: seq<seq<string>>)
    ensures GreedyGroups(words, groups)
    decreases |words|
  {
    if words == [] then []
    else
      var n := FirstGroupLength(words, 1);
      var tail := Groups(words[n..]);
      GreedyCons(words, n, tail);
      [words[..n]] + tail
  }

  /** The segmenter's output for a text: its words, each followed by a
      space, in order; no segment is empty and each ends in a space; every
      segment but the last is longer than MaxSegment; a blank text has none. */
  function Segments(text: string): (segments: seq<string>)
    ensures Concat(segments) == Spaced(Words(text))
    ensures forall k :: 0 <= k < |segments| ==> |segments[k]| > 0 && segments[k][|segments[k]| - 1] == ' '
    ensures forall k :: 0 <= k < |segments| - 1 ==> |segments[k]| > MaxSegment
    ensures segments == [] <==> AllIn(text, 0, |text|, Space)
  {
    var words := Words(text);
    GreedySegments(words, Groups(words));
    GreedySegmentsEndInSpace(words, Groups(words));
    SpacedAll(Groups(words))
  }

  /** The first group, closed as soon as it is longer than MaxSegment, in
      front of a greedy grouping of the rest is a greedy grouping. */
  lemma GreedyCons(words: seq<string>, n: nat, tail: seq<seq<string>>)
    requires words != [] && n == FirstGroupLength(words, 1) && GreedyGroups(words[n..], tail)
    ensures GreedyGroups(words, [words[..n]] + tail)
  {
    var g := words[..n];
    assert words == g + words[n..];
    if n > 1 {
      assert g[..n - 1] == words[..n - 1];
    }
    assert tail != [] ==> words[n..] != [];
    GreedyPrepend(g, words[n..], tail);
  }

  lemma GreedyPrepend(g: seq<string>, rest: seq<string>, tail: seq<seq<string>>)
    requires GreedyGroups(rest, tail) && |g| > 0 && |Spaced(g[..|g| - 1])| <= MaxSegment
    requires tail != [] ==> |Spaced(g)| > MaxSegment
    ensures GreedyGroups(g + rest, [g] + tail)
  {
    assert ([g] + tail)[1..] == tail;
  }

  /** Without its first group, a greedy grouping groups the remaining words. */
  lemma GreedyTail(words: seq<string>, groups: seq<seq<string>>)
    requires GreedyGroups(words, groups) && groups != []
    ensures |groups[0]| <= |words| && words == groups[0] + words[|groups[0]|..]
    ensures GreedyGroups(words[|groups[0]|..], groups[1..])
  {
    assert Concat(groups) == groups[0] + Concat(groups[1..]);
  }

  lemma SpacedAllCons(groups: seq<seq<string>>)
    requires groups != []
    ensures Concat(SpacedAll(groups)) == Spaced(groups[0]) + Concat(SpacedAll(groups[1..]))
  {
    assert SpacedAll(groups) == [Spaced(groups[0])] + SpacedAll(groups[1..]);
  }

  /** The segments of a greedy grouping, read in order, are the spaced words;
      there are none exactly when there are no words. */
  lemma {:induction false} GreedySegments(words: seq<string>, groups: seq<seq<string>>)
    requires GreedyGroups(words, groups)
    ensures Concat(SpacedAll(groups)) == Spaced(words)
    ensures groups == [] <==> words == []
    decreases |groups|
  {
    if groups != [] {
      var rest := words[|groups[0]|..];
      GreedyTail(words, groups);
      GreedySegments(rest, groups[1..]);
      SpacedAllCons(groups);
      SpacedJoin(groups[0], rest);
    }
  }

  /** Every segment of a greedy grouping is non-empty and ends in a space. */
  lemma GreedySegmentsEndInSpace(words: seq<string>, groups: seq<seq<string>>)
    requires GreedyGroups(words, groups)
    ensures forall k :: 0 <= k < |groups| ==> |Spaced(groups[k])| > 0 && Spaced(groups[k])[|Spaced(groups[k])| - 1] == ' '
  {
    forall k | 0 <= k < |groups|
      ensures |Spaced(groups[k])| > 0 && Spaced(groups[k])[|Spaced(groups[k])| - 1] == ' '
    {
      SpacedLast(groups[k]);
    }
  }

  /** The state of the segmenter after i words: the closed segments are the
      spaced groups, each over MaxSegment, and the current segment spaces the
      words since. */
  ghost predicate SegmentState(words: seq<string>, i: nat, segments: seq<string>, groups: seq<seq<string>>,
                               current: string, currentWords: seq<string>)
  {
    i <= |words| && Concat(groups) + currentWords == words[..i] && segments == SpacedAll(groups)
    && (forall k :: 0 <= k < |groups| ==>
          |groups[k]| > 0 && |Spaced(groups[k][..|groups[k]| - 1])| <= MaxSegment && |Spaced(groups[k])| > MaxSegment)
    && current == Spaced(currentWords) && |current| <= MaxSegment
  }

  /** One turn of the loop keeps the state. */
  lemma SegmentStep(words: seq<string>, i: nat, segments: seq<string>, groups: seq<seq<string>>,
                    current: string, currentWords: seq<string>)
    requires i < |words| && SegmentState(words, i, segments, groups, current, currentWords)
    ensures var c := current + words[i] + " ";
            var w := currentWords + [words[i]];
            if |c| > MaxSegment then SegmentState(words, i + 1, segments + [c], groups + [w], "", [])
            else SegmentState(words, i + 1, segments, groups, c, w)
  {
    if |current + words[i] + " "| > MaxSegment {
      SegmentClose(words, i, segments, groups, current, currentWords);
    } else {
      SegmentExtend(words, i, segments, groups, current, currentWords);
    }
  }

  /** A word that keeps the current segment short is appended to it. */
  lemma SegmentExtend(words: seq<string>, i: nat, segments: seq<string>, groups: seq<seq<string>>,
                      current: string, currentWords: seq<string>)
    requires i < |words| && SegmentState(words, i, segments, groups, current, currentWords)
    requires |current + words[i] + " "| <= MaxSegment
    ensures SegmentState(words, i + 1, segments, groups, current + words[i] + " ", currentWords + [words[i]])
  {
    SpacedAppend(currentWords, words[i]);
    PrefixNext(words, i);
    assert Concat(groups) + (currentWords + [words[i]]) == (Concat(groups) + currentWords) + [words[i]];
  }

  /** A word that makes the current segment long closes it. */
  lemma SegmentClose(words: seq<string>, i: nat, segments: seq<string>, groups: seq<seq<string>>,
                     current: string, currentWords: seq<string>)
    requires i < |words| && SegmentState(words, i, segments, groups, current, currentWords)
    requires |current + words[i] + " "| > MaxSegment
    ensures SegmentState(words, i + 1, segments + [current + words[i] + " "], groups + [currentWords + [words[i]]], "", [])
  {
    var w := currentWords + [words[i]];
    SpacedAppend(currentWords, words[i]);
    PrefixNext(words, i);
    ConcatAppend(groups, w);
    SpacedAllAppend(groups, w);
    assert w[..|w| - 1] == currentWords;
    assert Concat(groups + [w]) + [] == Concat(groups + [w]);
  }

  lemma PrefixNext<T>(s: seq<T>, i: nat)
    requires i < |s|
    ensures s[..i + 1] == s[..i] + [s[i]]
  {
  }

  lemma SpacedAllAppend(groups: seq<seq<string>>, w: seq<string>)
    ensures SpacedAll(groups + [w]) == SpacedAll(groups) + [Spaced(w)]
  {
  }

  /** Without a remainder after the last word, the closed groups are a
      greedy grouping. */
  lemma SegmentFinishClosed(words: seq<string>, segments: seq<string>, groups: seq<seq<string>>)
    requires SegmentState(words, |words|, segments, groups, [], [])
    ensures GreedyGroups(words, groups) && segments == SpacedAll(groups)
  {
    assert words[..|words|] == words;
    assert Concat(groups) + [] == Concat(groups);
  }

  /** A remainder after the last word closes the last group. */
  lemma SegmentFinishRest(words: seq<string>, segments: seq<string>, groups: seq<seq<string>>,
                          current: string, currentWords: seq<string>)
    requires SegmentState(words, |words|, segments, groups, current, currentWords) && current != []
    ensures GreedyGroups(words, groups + [currentWords])
    ensures segments + [current] == SpacedAll(groups + [currentWords])
  {
    assert words[..|words|] == words;
    ConcatAppend(groups, currentWords);
    SpacedPrefix(currentWords, |currentWords| - 1);
    SpacedAllAppend(groups, currentWords);
  }

  /** After the last word, the closed segments and the remainder are the
      segments of the greedy grouping. */
  lemma SegmentDone(words: seq<string>, segments: seq<string>, groups: seq<seq<string>>,
                    current: string, currentWords: seq<string>)
    requires SegmentState(words, |words|, segments, groups, current, currentWords)
    ensures (if current != [] then segments + [current] else segments) == SpacedAll(Groups(words))
  {
    if current != [] {
      SegmentFinishRest(words, segments, groups, current, currentWords);
      GreedyUnique(words, groups + [currentWords], Groups(words));
    } else {
      assert currentWords == [] by {
        assert current == Spaced(currentWords);
      }
      SegmentFinishClosed(words, segments, groups);
      GreedyUnique(words, groups, Groups(words));
    }
  }

  /** The segment list of `speak_with_gtts`: words are appended, each with a
      space, to the current segment, which is closed once it is longer than
      MaxSegment; a non-empty remainder is the last segment. */
  method Segment(text: string) returns (segments: seq<string>)
    ensures segments == Segments(text)
  {
    var words := Words(text);
    segments := [];
    var current: string := "";
    ghost var groups: seq<seq<string>> := [];
    ghost var currentWords: seq<string> := [];
    for i := 0 to |words|
      invariant SegmentState(words, i, segments, groups, current, currentWords)
    {
      SegmentStep(words, i, segments, groups, current, currentWords);
      current := current + words[i] + " ";
      currentWords := currentWords + [words[i]];
      if |current| > MaxSegment {
        segments := segments + [current];
        groups := groups + [currentWords];
        current := "";
        currentWords := [];
      }
    }
    SegmentDone(words, segments, groups, current, currentWords);
    if current != [] {
      segments := segments + [current];
    }
  }
}
