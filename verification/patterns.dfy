/** The regular expressions of `extract_email_details`, each as a declarative
    shape over positions of the searched string (what the pattern describes)
    and as a matcher (what Python's backtracking `re` engine returns at one
    start position). For the address and the two boilerplate phrases the
    engine's greedy choice is the longest match at that position; for the
    subject pattern it is the latest group start and then the longest group. */
module Patterns {
  import opened Wrappers
  import opened Text

  /** The patterns removed or collected by leftmost, non-overlapping scans.
      A literal stands for the argument of `str.replace`. */
  datatype Pattern =
    | Literal(text: string)
    | Address      // [a-zA-Z0-9._%+-]+@[a-zA-Z0-9.-]+\.[a-zA-Z]{2,}
    | SendPhrase   // send\s+(?:an?\s+)?email\s+(?:to\s+)?   with re.IGNORECASE
    | WithPhrase   // with\s+(?:the\s+)?message\s+            with re.IGNORECASE

  /** Every literal the extractor removes is a non-empty string. */
  predicate WellFormed(p: Pattern) {
    p.Literal? ==> |p.text| > 0
  }

  // ---------------------------------------------------------------------
  // Declarative shapes

  /** s[i..j] is a local part, '@' at `at`, a domain, '.' at `dot` and at
      least two letters. */
  predicate AddressSplit(s: string, i: nat, j: nat, at: nat, dot: nat) {
    i < at && at + 1 < dot && dot + 3 <= j <= |s|
    && AllIn(s, i, at, LocalPart) && s[at] == '@'
    && AllIn(s, at + 1, dot, DomainPart) && s[dot] == '.'
    && AllIn(s, dot + 1, j, Letter)
  }

  /** s[a..b] is empty or `an?\s+` (ignoring case). */
  predicate OptArticle(s: string, a: nat, b: nat) {
    a == b
    || (b <= |s| && CIAt(s, a, "a") && a + 1 < b && AllIn(s, a + 1, b, Space))
    || (b <= |s| && CIAt(s, a, "an") && a + 2 < b && AllIn(s, a + 2, b, Space))
  }

  /** s[a..b] is empty or the word followed by `\s+` (ignoring case). */
  predicate OptWord(s: string, a: nat, b: nat, word: string) {
    a == b
    || (b <= |s| && CIAt(s, a, word) && a + |word| < b && AllIn(s, a + |word|, b, Space))
  }

  /** s[i..j] is `send\s+(?:an?\s+)?email\s+(?:to\s+)?`: spaces end at a, the
      article at b, the spaces after "email" at d. */
  predicate SendSplit(s: string, i: nat, j: nat, a: nat, b: nat, d: nat) {
    j <= |s| && CIAt(s, i, "send") && i + 4 < a <= b && b + 5 < d <= j
    && AllIn(s, i + 4, a, Space) && OptArticle(s, a, b) && CIAt(s, b, "email")
    && AllIn(s, b + 5, d, Space) && OptWord(s, d, j, "to")
  }

  /** s[i..j] is `with\s+(?:the\s+)?message\s+`: spaces end at a, the
      optional "the" phrase at b. */
  predicate WithSplit(s: string, i: nat, j: nat, a: nat, b: nat) {
    j <= |s| && CIAt(s, i, "with") && i + 4 < a <= b && b + 7 < j
    && AllIn(s, i + 4, a, Space) && OptWord(s, a, b, "the") && CIAt(s, b, "message")
    && AllIn(s, b + 7, j, Space)
  }

  /** s[i..j] is a string the pattern describes. */
  ghost predicate Span(p: Pattern, s: string, i: nat, j: nat) {
    match p
    case Literal(t) => j == i + |t| && j <= |s| && s[i..j] == t
    case Address => exists at: nat, dot: nat :: AddressSplit(s, i, j, at, dot)
    case SendPhrase => exists a: nat, b: nat, d: nat :: SendSplit(s, i, j, a, b, d)
    case WithPhrase => exists a: nat, b: nat :: WithSplit(s, i, j, a, b)
  }

  // ---------------------------------------------------------------------
  // The address matcher

  /** `m` is a '.' followed by at least two letters. */
  predicate TldDot(s: string, m: nat)
    requires m < |s|
  {
    s[m] == '.' && RunEnd(s, m + 1, Letter) >= m + 3
  }

  /** The last '.' in s[lo..hi] that is followed by two letters: where the
      backtracking of the greedy domain part stops. */
  function LastDot(s: string, lo: nat, hi: nat): (r: Option<nat>)
    requires hi <= |s|
    ensures r.Some? ==> lo <= r.value < hi && TldDot(s, r.value)
    ensures forall m :: lo <= m < hi && TldDot(s, m) ==> r.Some? && m <= r.value
    decreases hi
  {
    if hi <= lo then None
    else if TldDot(s, hi - 1) then Some(hi - 1)
    else LastDot(s, lo, hi - 1)
  }

  function MatchAddress(s: string, i: nat): (r: Option<nat>)
    requires i <= |s|
    ensures r.Some? ==> i < r.value <= |s|
  {
    var at := RunEnd(s, i, LocalPart);
    if at == i || at == |s| || s[at] != '@' then None
    else
      var k := RunEnd(s, at + 1, DomainPart);
      match LastDot(s, at + 2, k)
      case None => None
      case Some(dot) => Some(RunEnd(s, dot + 1, Letter))
  }

  lemma AddressSound(s: string, i: nat)
    requires i <= |s| && MatchAddress(s, i).Some?
    ensures Span(Address, s, i, MatchAddress(s, i).value)
  {
    var at := RunEnd(s, i, LocalPart);
    var k := RunEnd(s, at + 1, DomainPart);
    var dot := LastDot(s, at + 2, k).value;
    var e := RunEnd(s, dot + 1, Letter);
    assert AddressSplit(s, i, e, at, dot);
  }

  lemma AddressLongest(s: string, i: nat, j: nat, at: nat, dot: nat)
    requires AddressSplit(s, i, j, at, dot)
    ensures MatchAddress(s, i).Some? && j <= MatchAddress(s, i).value
  {
    RunEndExact(s, i, at, LocalPart);
    assert AllIn(s, at + 1, j, DomainPart);
    RunEndCovers(s, at + 1, j, DomainPart);
    RunEndCovers(s, dot + 1, j, Letter);
    var k := RunEnd(s, at + 1, DomainPart);
    assert TldDot(s, dot);
    var m := LastDot(s, at + 2, k).value;
  }

  // ---------------------------------------------------------------------
  // The boilerplate-phrase matchers

  /** The end of an optional `an?\s+` at a, taken when present. */
  function ArticleEnd(s: string, a: nat): (b: nat)
    requires a <= |s|
    ensures a <= b <= |s|
  {
    if CIAt(s, a, "a") then
      var n := if CIAt(s, a + 1, "n") then a + 2 else a + 1;
      var t := RunEnd(s, n, Space);
      if n < t then t else a
    else a
  }

  /** The end of an optional word followed by `\s+` at a, taken when present. */
  function OptWordEnd(s: string, a: nat, word: string): (b: nat)
    requires a <= |s|
    ensures a <= b <= |s|
  {
    if CIAt(s, a, word) then
      var t := RunEnd(s, a + |word|, Space);
      if a + |word| < t then t else a
    else a
  }

  function MatchSend(s: string, i: nat): (r: Option<nat>)
    requires i <= |s|
    ensures r.Some? ==> i < r.value <= |s|
  {
    if !CIAt(s, i, "send") then None
    else
      var a := RunEnd(s, i + 4, Space);
      var b := ArticleEnd(s, a);
      if a == i + 4 || !CIAt(s, b, "email") then None
      else
        var d := RunEnd(s, b + 5, Space);
        if d == b + 5 then None else Some(OptWordEnd(s, d, "to"))
  }

  function MatchWith(s: string, i: nat): (r: Option<nat>)
    requires i <= |s|
    ensures r.Some? ==> i < r.value <= |s|
  {
    if !CIAt(s, i, "with") then None
    else
      var a := RunEnd(s, i + 4, Space);
      var b := OptWordEnd(s, a, "the");
      if a == i + 4 || !CIAt(s, b, "message") then None
      else
        var e := RunEnd(s, b + 7, Space);
        if e == b + 7 then None else Some(e)
  }

  lemma OptWordEndSound(s: string, a: nat, word: string)
    requires a <= |s|
    ensures OptWord(s, a, OptWordEnd(s, a, word), word)
  {
  }

  /** OptWordEnd reaches at least as far as any optional phrase at a. */
  lemma OptWordEndCovers(s: string, a: nat, b: nat, word: string)
    requires a <= b <= |s| && OptWord(s, a, b, word)
    ensures b <= OptWordEnd(s, a, word)
  {
    if a < b {
      RunEndCovers(s, a + |word|, b, Space);
    }
  }

  lemma SendSound(s: string, i: nat) returns (a: nat, b: nat, d: nat)
    requires i <= |s| && MatchSend(s, i).Some?
    ensures SendSplit(s, i, MatchSend(s, i).value, a, b, d)
  {
    a := RunEnd(s, i + 4, Space);
    b := ArticleEnd(s, a);
    d := RunEnd(s, b + 5, Space);
    SendMatchParts(s, i);
    OptWordEndSound(s, d, "to");
    ArticleEndSound(s, a);
  }

  /** The checks MatchSend passes on its way to a match. */
  lemma SendMatchParts(s: string, i: nat)
    requires i <= |s| && MatchSend(s, i).Some?
    ensures var a := RunEnd(s, i + 4, Space);
            var b := ArticleEnd(s, a);
            var d := RunEnd(s, b + 5, Space);
            CIAt(s, i, "send") && i + 4 < a && CIAt(s, b, "email") && b + 5 < d
            && MatchSend(s, i) == Some(OptWordEnd(s, d, "to"))
  {
  }

  lemma ArticleEndSound(s: string, a: nat)
    requires a <= |s|
    ensures OptArticle(s, a, ArticleEnd(s, a))
  {
  }

  /** An article followed by "email" is the one ArticleEnd takes. */
  lemma ArticleEndExact(s: string, a: nat, b: nat)
    requires b < |s| && OptArticle(s, a, b) && ToLower(s[b]) == 'e'
    ensures ArticleEnd(s, a) == b
  {
    if a == b {
      assert !CIAt(s, a, "a");
    } else if CIAt(s, a, "an") {
      assert CIAt(s, a, "a") && CIAt(s, a + 1, "n");
      assert ToLower(s[a + 1]) == 'n' && !IsSpace(s[a + 1]);
      assert a + 2 < b && AllIn(s, a + 2, b, Space);
      RunEndExact(s, a + 2, b, Space);
    } else {
      assert CIAt(s, a, "a") && IsSpace(s[a + 1]);
      assert !CIAt(s, a + 1, "n");
      RunEndExact(s, a + 1, b, Space);
    }
  }

  lemma SendLongest(s: string, i: nat, j: nat, a: nat, b: nat, d: nat)
    requires SendSplit(s, i, j, a, b, d)
    ensures MatchSend(s, i).Some? && j <= MatchSend(s, i).value
  {
    SendHeadExact(s, i, a, b);
    SendTailLongest(s, b, d, j);
  }

  /** The spaces after "send" and the optional article: the engine's greedy
      choices end exactly where the split puts them, since "email" follows. */
  lemma SendHeadExact(s: string, i: nat, a: nat, b: nat)
    requires i + 4 < a <= b && b + 5 <= |s| && AllIn(s, i + 4, a, Space) && OptArticle(s, a, b) && CIAt(s, b, "email")
    ensures RunEnd(s, i + 4, Space) == a && ArticleEnd(s, a) == b
  {
    assert ToLower(s[b]) == 'e';
    assert ToLower(s[a]) == 'a' || ToLower(s[a]) == 'e';
    RunEndExact(s, i + 4, a, Space);
    ArticleEndExact(s, a, b);
  }

  /** The spaces after "email" and the optional "to" phrase: the engine's
      greedy run reaches at least d, and the optional phrase after it at
      least j. */
  lemma SendTailLongest(s: string, b: nat, d: nat, j: nat)
    requires j <= |s| && b + 5 < d <= j && AllIn(s, b + 5, d, Space) && OptWord(s, d, j, "to")
    ensures d <= RunEnd(s, b + 5, Space) && j <= OptWordEnd(s, RunEnd(s, b + 5, Space), "to")
  {
    RunEndCovers(s, b + 5, d, Space);
    if d < j {
      assert ToLower(s[d]) == 't';
      RunEndExact(s, b + 5, d, Space);
    }
    OptWordEndCovers(s, d, j, "to");
  }

  lemma WithSound(s: string, i: nat)
    requires i <= |s| && MatchWith(s, i).Some?
    ensures Span(WithPhrase, s, i, MatchWith(s, i).value)
  {
    var a := RunEnd(s, i + 4, Space);
    var b := OptWordEnd(s, a, "the");
    var e := RunEnd(s, b + 7, Space);
    OptWordEndSound(s, a, "the");
    assert WithSplit(s, i, e, a, b);
  }

  lemma WithLongest(s: string, i: nat, j: nat, a: nat, b: nat)
    requires WithSplit(s, i, j, a, b)
    ensures MatchWith(s, i).Some? && j <= MatchWith(s, i).value
  {
    WithHeadExact(s, i, a, b);
    RunEndCovers(s, b + 7, j, Space);
  }

  /** The spaces after "with" and the optional "the" phrase: the engine's
      greedy choices end exactly where the split puts them, since "message"
      follows. */
  lemma WithHeadExact(s: string, i: nat, a: nat, b: nat)
    requires i + 4 < a <= b && b + 7 <= |s| && AllIn(s, i + 4, a, Space) && OptWord(s, a, b, "the") && CIAt(s, b, "message")
    ensures RunEnd(s, i + 4, Space) == a && OptWordEnd(s, a, "the") == b
  {
    assert ToLower(s[b]) == 'm';
    assert ToLower(s[a]) == 't' || ToLower(s[a]) == 'm';
    RunEndExact(s, i + 4, a, Space);
    if a < b {
      RunEndExact(s, a + 3, b, Space);
    }
  }

  // ---------------------------------------------------------------------
  // All patterns

  /** The end of the match Python's engine finds at i, if any. */
  function MatchEnd(p: Pattern, s: string, i: nat): (r: Option<nat>)
    requires WellFormed(p) && i <= |s|
    ensures r.Some? ==> i < r.value <= |s|
  {
    match p
    case Literal(t) => if i + |t| <= |s| && s[i..i + |t|] == t then Some(i + |t|) else None
    case Address => MatchAddress(s, i)
    case SendPhrase => MatchSend(s, i)
    case WithPhrase => MatchWith(s, i)
  }

  /** The matcher finds a match at i exactly when the pattern describes some
      s[i..j], and then it returns the longest such j. */
  lemma MatchEndIsLongest(p: Pattern, s: string, i: nat)
    requires WellFormed(p) && i <= |s|
    ensures MatchEnd(p, s, i).Some? ==> Span(p, s, i, MatchEnd(p, s, i).value)
    ensures forall j :: i <= j <= |s| && Span(p, s, i, j) ==> MatchEnd(p, s, i).Some? && j <= MatchEnd(p, s, i).value
  {
    match p
    case Literal(t) =>
    case Address =>
      if MatchAddress(s, i).Some? {
        AddressSound(s, i);
      }
      forall j | i <= j <= |s| && Span(p, s, i, j)
        ensures MatchEnd(p, s, i).Some? && j <= MatchEnd(p, s, i).value
      {
        var at: nat, dot: nat :| AddressSplit(s, i, j, at, dot);
        AddressLongest(s, i, j, at, dot);
      }
    case SendPhrase =>
      if MatchSend(s, i).Some? {
        var a, b, d := SendSound(s, i);
      }
      forall j | i <= j <= |s| && Span(p, s, i, j)
        ensures MatchEnd(p, s, i).Some? && j <= MatchEnd(p, s, i).value
      {
        var a: nat, b: nat, d: nat :| SendSplit(s, i, j, a, b, d);
        SendLongest(s, i, j, a, b, d);
      }
    case WithPhrase =>
      if MatchWith(s, i).Some? {
        WithSound(s, i);
      }
      forall j | i <= j <= |s| && Span(p, s, i, j)
        ensures MatchEnd(p, s, i).Some? && j <= MatchEnd(p, s, i).value
      {
        var a: nat, b: nat :| WithSplit(s, i, j, a, b);
        WithLongest(s, i, j, a, b);
      }
  }

  /** Every pattern describes only non-empty strings. */
  lemma SpanNonEmpty(p: Pattern, s: string, i: nat, j: nat)
    requires WellFormed(p) && Span(p, s, i, j)
    ensures i < j <= |s|
  {
  }

  // ---------------------------------------------------------------------
  // The subject pattern, searched with re.search and re.IGNORECASE

  /** s[i..] starts with `subject[:\s]+([^\n.]+)` whose group is s[m..g]. */
  predicate SubjectSplit(s: string, i: nat, m: nat, g: nat) {
    g <= |s| && CIAt(s, i, "subject") && i + 7 < m < g
    && AllIn(s, i + 7, m, SubjectSep) && AllIn(s, m, g, NotStop)
  }

  /** A subject match: the whole match is s[start..end], group 1 is
      s[group..end]. */
  datatype SubjectMatch = SubjectMatch(start: nat, group: nat, end: nat)

  /** The last position in [lo, hi] where a `[^\n.]` character stands: where
      the backtracking of the greedy `[:\s]+` stops. */
  function GroupStart(s: string, lo: nat, hi: nat): (r: Option<nat>)
    requires hi <= |s|
    ensures r.Some? ==> lo <= r.value <= hi && r.value < |s| && InClass(s[r.value], NotStop)
    ensures forall m :: lo <= m <= hi && m < |s| && InClass(s[m], NotStop) ==> r.Some? && m <= r.value
    decreases hi
  {
    if hi < lo then None
    else if hi < |s| && InClass(s[hi], NotStop) then Some(hi)
    else if hi == lo then None
    else GroupStart(s, lo, hi - 1)
  }

  function SubjectAt(s: string, i: nat): (r: Option<SubjectMatch>)
    requires i <= |s|
    ensures r.Some? ==> r.value.start == i && i + 7 < r.value.group < r.value.end <= |s|
  {
    if !CIAt(s, i, "subject") then None
    else
      var k := RunEnd(s, i + 7, SubjectSep);
      match GroupStart(s, i + 8, k)
      case None => None
      case Some(m) => Some(SubjectMatch(i, m, RunEnd(s, m, NotStop)))
  }

  /** Python's choice among the matches at one position: the latest group
      start, then the longest group. */
  ghost predicate PreferredAt(s: string, r: SubjectMatch) {
    SubjectSplit(s, r.start, r.group, r.end)
    && forall m: nat, g: nat :: SubjectSplit(s, r.start, m, g) ==> m < r.group || (m == r.group && g <= r.end)
  }

  lemma SubjectAtCorrect(s: string, i: nat)
    requires i <= |s|
    ensures SubjectAt(s, i).Some? ==> PreferredAt(s, SubjectAt(s, i).value)
    ensures SubjectAt(s, i).None? ==> forall m: nat, g: nat :: !SubjectSplit(s, i, m, g)
  {
    forall m: nat, g: nat | SubjectSplit(s, i, m, g)
      ensures SubjectAt(s, i).Some? && (m < SubjectAt(s, i).value.group || (m == SubjectAt(s, i).value.group && g <= SubjectAt(s, i).value.end))
    {
      RunEndCovers(s, i + 7, m, SubjectSep);
      RunEndCovers(s, m, g, NotStop);
    }
  }

  /** `re.search`: the subject match with the leftmost start at or after i. */
  function SearchSubject(s: string, i: nat): (r: Option<SubjectMatch>)
    requires i <= |s|
    ensures r.Some? ==> i <= r.value.start && r.value.start + 7 < r.value.group < r.value.end <= |s|
    decreases |s| - i
  {
    match SubjectAt(s, i)
    case Some(sm) => Some(sm)
    case None => if i == |s| then None else SearchSubject(s, i + 1)
  }

  /** r is the match `re.search` reports when it scans from `from`. */
  ghost predicate FirstSubject(s: string, from: nat, r: SubjectMatch) {
    from <= r.start && PreferredAt(s, r)
    && forall i: nat, m: nat, g: nat :: from <= i < r.start ==> !SubjectSplit(s, i, m, g)
  }

  lemma {:induction false} SearchSubjectCorrect(s: string, i: nat)
    requires i <= |s|
    ensures SearchSubject(s, i).Some? ==> FirstSubject(s, i, SearchSubject(s, i).value)
    ensures SearchSubject(s, i).None? ==> forall i': nat, m: nat, g: nat :: i <= i' ==> !SubjectSplit(s, i', m, g)
    decreases |s| - i
  {
    SubjectAtCorrect(s, i);
    if SubjectAt(s, i).None? && i < |s| {
      SearchSubjectCorrect(s, i + 1);
      forall i': nat, m: nat, g: nat | i <= i' && SubjectSplit(s, i', m, g)
        ensures SearchSubject(s, i).Some? && i' >= SearchSubject(s, i).value.start
      {
      }
    }
  }

  /** At most one match is the one `re.search` reports. */
  lemma FirstSubjectUnique(s: string, from: nat, r1: SubjectMatch, r2: SubjectMatch)
    requires FirstSubject(s, from, r1) && FirstSubject(s, from, r2)
    ensures r1 == r2
  {
  }
}
