/** The Python string primitives the assistant relies on, over ASCII text:
    the whitespace class shared by `str.isspace`, `str.split`, `str.strip`
    and the `\s` of `re`; `str.lower`; and the character classes that the
    address and subject patterns are built from. */
module Text {

  /** Python's whitespace test restricted to ASCII: space, tab, line feed,
      carriage return, vertical tab, form feed and the four separators
      0x1C..0x1F. */
  predicate IsSpace(c: char) {
    c == ' ' || c == '\t' || c == '\n' || c == '\r' || c == '\U{000B}' || c == '\U{000C}'
    || '\U{001C}' <= c <= '\U{001F}'
  }

  predicate IsAsciiLetter(c: char) {
    'a' <= c <= 'z' || 'A' <= c <= 'Z'
  }

  predicate IsDigit(c: char) {
    '0' <= c <= '9'
  }

  /** `str.lower` on one ASCII character. */
  function ToLower(c: char): char {
    if 'A' <= c <= 'Z' then (c as int + 32) as char else c
  }

  function Lower(s: string): string {
    seq(|s|, k requires 0 <= k < |s| => ToLower(s[k]))
  }

  /** The character classes of the patterns in `extract_email_details`,
      plus whitespace and its complement. */
  datatype CharClass =
    | Space        // \s
    | NonSpace     // what str.split() keeps
    | Letter       // [a-zA-Z]
    | LocalPart    // [a-zA-Z0-9._%+-]
    | DomainPart   // [a-zA-Z0-9.-]
    | SubjectSep   // [:\s]
    | NotStop      // [^\n.]

  predicate InClass(c: char, cls: CharClass) {
    match cls
    case Space => IsSpace(c)
    case NonSpace => !IsSpace(c)
    case Letter => IsAsciiLetter(c)
    case LocalPart => IsAsciiLetter(c) || IsDigit(c) || c == '.' || c == '_' || c == '%' || c == '+' || c == '-'
    case DomainPart => IsAsciiLetter(c) || IsDigit(c) || c == '.' || c == '-'
    case SubjectSep => c == ':' || IsSpace(c)
    case NotStop => c != '\n' && c != '.'
  }

  /** Every character of s[lo..hi] is in the class. */
  predicate AllIn(s: string, lo: nat, hi: nat, cls: CharClass)
    requires hi <= |s|
  {
    forall k :: lo <= k < hi ==> InClass(s[k], cls)
  }

  /** The end of the longest run of class characters that starts at i: what a
      greedy `[...]+` or `[...]*` consumes. */
  function RunEnd(s: string, i: nat, cls: CharClass): (e: nat)
    requires i <= |s|
    ensures i <= e <= |s|
    ensures AllIn(s, i, e, cls)
    ensures e == |s| || !InClass(s[e], cls)
    decreases |s| - i
  {
    if i < |s| && InClass(s[i], cls) then RunEnd(s, i + 1, cls) else i
  }

  /** A run that covers s[i..j] makes RunEnd reach at least j. */
  lemma RunEndCovers(s: string, i: nat, j: nat, cls: CharClass)
    requires i <= j <= |s| && AllIn(s, i, j, cls)
    ensures RunEnd(s, i, cls) >= j
  {
  }

  /** A run that covers s[i..j] and stops at j ends exactly at j. */
  lemma RunEndExact(s: string, i: nat, j: nat, cls: CharClass)
    requires i <= j <= |s| && AllIn(s, i, j, cls)
    requires j == |s| || !InClass(s[j], cls)
    ensures RunEnd(s, i, cls) == j
  {
  }

  /** Case-insensitive comparison of s[i..i+|lit|] with a lower-case literal,
      as `re.IGNORECASE` does on ASCII. */
  predicate CIAt(s: string, i: nat, lit: string) {
    i + |lit| <= |s| && forall k :: i <= k < i + |lit| ==> ToLower(s[k]) == lit[k - i]
  }

  // ---------------------------------------------------------------------
  // str.strip()

  predicate IsStripped(r: string) {
    r == [] || (!IsSpace(r[0]) && !IsSpace(r[|r| - 1]))
  }

  /** The start of the trailing whitespace of s[lo..hi]. */
  function TrimEnd(s: string, lo: nat, hi: nat): (b: nat)
    requires lo <= hi <= |s|
    ensures lo <= b <= hi
    ensures AllIn(s, b, hi, Space)
    ensures b == lo || !IsSpace(s[b - 1])
    decreases hi
  {
    if lo < hi && IsSpace(s[hi - 1]) then TrimEnd(s, lo, hi - 1) else hi
  }

  /** `str.strip()`: s without its leading and trailing whitespace. */
  function Strip(s: string): (r: string)
    ensures IsStripped(r)
    ensures r == [] <==> AllIn(s, 0, |s|, Space)
  {
    var a := RunEnd(s, 0, Space);
    var b := TrimEnd(s, a, |s|);
    assert a < |s| ==> b > a;
    s[a..b]
  }

  /** The stripped text is the slice of s that only whitespace surrounds;
      a is where it starts. */
  lemma StripSlice(s: string) returns (a: nat)
    ensures a + |Strip(s)| <= |s| && Strip(s) == s[a..a + |Strip(s)|]
    ensures AllIn(s, 0, a, Space) && AllIn(s, a + |Strip(s)|, |s|, Space)
  {
    a := RunEnd(s, 0, Space);
  }

  // ---------------------------------------------------------------------
  // Concatenation of a sequence of sequences

  function Concat<T>(ss: seq<seq<T>>): seq<T> {
    if ss == [] then [] else ss[0] + Concat(ss[1..])
  }

  lemma {:induction false} ConcatAppend<T>(ss: seq<seq<T>>, t: seq<T>)
    ensures Concat(ss + [t]) == Concat(ss) + t
  {
    if ss == [] {
      assert [] + [t] == [t];
    } else {
      assert (ss + [t])[1..] == ss[1..] + [t];
      ConcatAppend(ss[1..], t);
    }
  }

  lemma {:induction false} ConcatJoin<T>(a: seq<seq<T>>, b: seq<seq<T>>)
    ensures Concat(a + b) == Concat(a) + Concat(b)
  {
    if a == [] {
      assert a + b == b;
    } else {
      assert (a + b)[1..] == a[1..] + b;
      ConcatJoin(a[1..], b);
    }
  }

  /** pieces[0] + found[0] + pieces[1] + ... + found[n-1] + pieces[n]. */
  function Interleave(pieces: seq<string>, found: seq<string>): string
    requires |pieces| == |found| + 1
  {
    if found == [] then pieces[0] else pieces[0] + found[0] + Interleave(pieces[1..], found[1..])
  }

  lemma InterleaveCons(x: string, y: string, pieces: seq<string>, found: seq<string>)
    requires |pieces| == |found| + 1
    ensures Interleave([x] + pieces, [y] + found) == x + y + Interleave(pieces, found)
  {
    assert ([x] + pieces)[1..] == pieces && ([y] + found)[1..] == found;
  }

  /** Interleave with a prefix x on its first piece. */
  lemma InterleavePrefix(x: string, pieces: seq<string>, found: seq<string>)
    requires |pieces| == |found| + 1
    ensures Interleave([x + pieces[0]] + pieces[1..], found) == x + Interleave(pieces, found)
  {
    assert ([x + pieces[0]] + pieces[1..])[1..] == pieces[1..];
  }

  // ---------------------------------------------------------------------
  // str.split() with no separator

  predicate IsWord(w: string) {
    |w| > 0 && AllIn(w, 0, |w|, NonSpace)
  }

  /** The non-whitespace characters of s[lo..hi], in order. */
  function NonSpaceChars(s: string, lo: nat, hi: nat): string
    requires lo <= hi <= |s|
    decreases hi - lo
  {
    if lo == hi then [] else (if IsSpace(s[lo]) then [] else [s[lo]]) + NonSpaceChars(s, lo + 1, hi)
  }

  lemma {:induction false} NonSpaceCharsSplit(s: string, lo: nat, mid: nat, hi: nat)
    requires lo <= mid <= hi <= |s|
    ensures NonSpaceChars(s, lo, hi) == NonSpaceChars(s, lo, mid) + NonSpaceChars(s, mid, hi)
    decreases mid - lo
  {
    if lo < mid {
      NonSpaceCharsSplit(s, lo + 1, mid, hi);
    }
  }

  lemma {:induction false} NonSpaceCharsOfSpace(s: string, lo: nat, hi: nat)
    requires lo <= hi <= |s| && AllIn(s, lo, hi, Space)
    ensures NonSpaceChars(s, lo, hi) == []
    decreases hi - lo
  {
    if lo < hi {
      NonSpaceCharsOfSpace(s, lo + 1, hi);
    }
  }

  lemma {:induction false} NonSpaceCharsOfWord(s: string, lo: nat, hi: nat)
    requires lo <= hi <= |s| && AllIn(s, lo, hi, NonSpace)
    ensures NonSpaceChars(s, lo, hi) == s[lo..hi]
    decreases hi - lo
  {
    if lo < hi {
      NonSpaceCharsOfWord(s, lo + 1, hi);
      assert s[lo..hi] == [s[lo]] + s[lo + 1..hi];
    }
  }

  /** s[i..b] is whitespace up to a followed by the word s[a..b]. */
  lemma SplitStep(s: string, i: nat, a: nat, b: nat)
    requires i <= a < b <= |s|
    requires AllIn(s, i, a, Space) && AllIn(s, a, b, NonSpace)
    ensures NonSpaceChars(s, i, |s|) == s[a..b] + NonSpaceChars(s, b, |s|)
  {
    NonSpaceCharsSplit(s, i, a, |s|);
    NonSpaceCharsSplit(s, a, b, |s|);
    NonSpaceCharsOfSpace(s, i, a);
    NonSpaceCharsOfWord(s, a, b);
  }

  lemma AllInSlice(s: string, lo: nat, hi: nat, cls: CharClass)
    requires lo <= hi <= |s| && AllIn(s, lo, hi, cls)
    ensures AllIn(s[lo..hi], 0, hi - lo, cls)
  {
  }

  /** `str.split()` of s[i..]: the maximal runs of non-whitespace characters. */
  function WordsFrom(s: string, i: nat): (ws: seq<string>)
    requires i <= |s|
    ensures forall k :: 0 <= k < |ws| ==> IsWord(ws[k])
    ensures Concat(ws) == NonSpaceChars(s, i, |s|)
    ensures ws == [] <==> AllIn(s, i, |s|, Space)
    decreases |s| - i
  {
    var a := RunEnd(s, i, Space);
    if a == |s| then
      NonSpaceCharsOfSpace(s, i, |s|);
      []
    else
      var b := RunEnd(s, a, NonSpace);
      SplitStep(s, i, a, b);
      AllInSlice(s, a, b, NonSpace);
      var ws := [s[a..b]] + WordsFrom(s, b);
      assert ws[1..] == WordsFrom(s, b);
      ws
  }

  /** `str.split()`: the words of s, which hold exactly its non-whitespace
      characters, in order. */
  function Words(s: string): (ws: seq<string>)
    ensures forall k :: 0 <= k < |ws| ==> IsWord(ws[k])
    ensures Concat(ws) == NonSpaceChars(s, 0, |s|)
    ensures ws == [] <==> AllIn(s, 0, |s|, Space)
  {
    WordsFrom(s, 0)
  }

  /** Every gap is whitespace, and the gaps between two words are not empty. */
  predicate GapsOk(gaps: seq<string>) {
    && (forall k :: 0 <= k < |gaps| ==> AllIn(gaps[k], 0, |gaps[k]|, Space))
    && (forall k :: 0 < k < |gaps| - 1 ==> |gaps[k]| > 0)
  }

  /** `str.split()` cuts at whitespace only and keeps every word whole: the
      text is whitespace gaps interleaved with its words, and the gaps
      between two words are not empty. */
  lemma WordsBetweenSpace(s: string) returns (gaps: seq<string>)
    ensures |gaps| == |Words(s)| + 1 && Interleave(gaps, Words(s)) == s
    ensures forall k :: 0 <= k < |gaps| ==> AllIn(gaps[k], 0, |gaps[k]|, Space)
    ensures forall k :: 0 < k < |gaps| - 1 ==> |gaps[k]| > 0
  {
    gaps := WordsFromGaps(s, 0);
  }

  lemma {:induction false} WordsFromGaps(s: string, i: nat) returns (gaps: seq<string>)
    requires i <= |s|
    ensures |gaps| == |WordsFrom(s, i)| + 1 && Interleave(gaps, WordsFrom(s, i)) == s[i..]
    ensures gaps[0] == s[i..RunEnd(s, i, Space)] && GapsOk(gaps)
    decreases |s| - i
  {
    var a := RunEnd(s, i, Space);
    AllInSlice(s, i, a, Space);
    if a == |s| {
      gaps := [s[i..]];
    } else {
      var b := RunEnd(s, a, NonSpace);
      var rest := WordsFromGaps(s, b);
      gaps := [s[i..a]] + rest;
      WordsFromStep(s, i, a, b);
      RebuildStep(s, i, a, b, rest, WordsFrom(s, b));
      if WordsFrom(s, b) != [] {
        GapAfterWord(s, b);
      }
      GapsCons(s[i..a], rest);
    }
  }

  lemma GapsCons(g: string, rest: seq<string>)
    requires AllIn(g, 0, |g|, Space) && GapsOk(rest) && |rest| > 0 && (|rest| > 1 ==> |rest[0]| > 0)
    ensures GapsOk([g] + rest)
  {
    assert forall k :: 0 < k < |rest| + 1 ==> ([g] + rest)[k] == rest[k - 1];
  }

  lemma RebuildStep(s: string, i: nat, a: nat, b: nat, gaps: seq<string>, ws: seq<string>)
    requires i <= a <= b <= |s| && |gaps| == |ws| + 1 && Interleave(gaps, ws) == s[b..]
    ensures Interleave([s[i..a]] + gaps, [s[a..b]] + ws) == s[i..]
  {
    InterleaveCons(s[i..a], s[a..b], gaps, ws);
    SliceThree(s, i, a, b);
  }

  lemma SliceThree(s: string, a: nat, b: nat, c: nat)
    requires a <= b <= c <= |s|
    ensures s[a..] == s[a..b] + s[b..c] + s[c..]
  {
  }

  lemma WordsFromStep(s: string, i: nat, a: nat, b: nat)
    requires i <= |s| && a == RunEnd(s, i, Space) && a < |s| && b == RunEnd(s, a, NonSpace)
    ensures WordsFrom(s, i) == [s[a..b]] + WordsFrom(s, b)
  {
  }

  /** After a word, more words start only past a non-empty gap. */
  lemma GapAfterWord(s: string, b: nat)
    requires b <= |s| && WordsFrom(s, b) != [] && (b == |s| || !InClass(s[b], NonSpace))
    ensures b < RunEnd(s, b, Space)
  {
  }

  // ---------------------------------------------------------------------
  // Deleting characters

  /** a is obtained from b by deleting characters: a subsequence of b. */
  predicate IsSubsequence(a: string, b: string)
    decreases |b|
  {
    if b == [] then a == []
    else IsSubsequence(a, b[1..]) || (a != [] && a[0] == b[0] && IsSubsequence(a[1..], b[1..]))
  }

  lemma {:induction false} SubsequenceRefl(s: string)
    ensures IsSubsequence(s, s)
    decreases |s|
  {
    if s != [] {
      SubsequenceRefl(s[1..]);
    }
  }

  lemma {:induction false} SubsequenceEmpty(s: string)
    ensures IsSubsequence([], s)
    decreases |s|
  {
    if s != [] {
      SubsequenceEmpty(s[1..]);
    }
  }

  lemma {:induction false} SubsequenceConcat(a1: string, b1: string, a2: string, b2: string)
    requires IsSubsequence(a1, b1) && IsSubsequence(a2, b2)
    ensures IsSubsequence(a1 + a2, b1 + b2)
    decreases |b1|
  {
    if b1 == [] {
      assert a1 + a2 == a2 && b1 + b2 == b2;
    } else {
      assert (b1 + b2)[1..] == b1[1..] + b2;
      if IsSubsequence(a1, b1[1..]) {
        SubsequenceConcat(a1, b1[1..], a2, b2);
      } else {
        assert (a1 + a2)[1..] == a1[1..] + a2;
        SubsequenceConcat(a1[1..], b1[1..], a2, b2);
      }
    }
  }

  lemma {:induction false} SubsequenceTrans(a: string, b: string, c: string)
    requires IsSubsequence(a, b) && IsSubsequence(b, c)
    ensures IsSubsequence(a, c)
    decreases |c|
  {
    if c != [] {
      if IsSubsequence(b, c[1..]) {
        SubsequenceTrans(a, b, c[1..]);
      } else if IsSubsequence(a, b[1..]) {
        SubsequenceTrans(a, b[1..], c[1..]);
      } else {
        SubsequenceTrans(a[1..], b[1..], c[1..]);
      }
    }
  }

  /** A slice is a subsequence. */
  lemma SliceSubsequence(s: string, a: nat, b: nat)
    requires a <= b <= |s|
    ensures IsSubsequence(s[a..b], s)
  {
    var x, y, z := s[..a], s[a..b], s[b..];
    assert s == x + y + z;
    SubsequenceEmpty(x);
    SubsequenceRefl(y);
    SubsequenceEmpty(z);
    SubsequenceConcat([], x, y, y);
    assert [] + y == y;
    SubsequenceConcat(y, x + y, [], z);
    assert y + [] == y;
  }

  /** `str.strip()` only deletes characters. */
  lemma StripSubsequence(s: string)
    ensures IsSubsequence(Strip(s), s)
  {
    var a := StripSlice(s);
    SliceSubsequence(s, a, a + |Strip(s)|);
  }
}
