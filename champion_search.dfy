/**
 * What the champion search promises beyond the shape of what it returns: it
 * finds a match whenever the line holds one, it reports the leftmost, and
 * at that position it prefers what the regex engine tries first ("ship"
 * taken, then the shortest lazy run, then the first suffix in list order).
 */
module ChampionSearch {
  import opened Wrappers
  import opened Text
  import opened Champion

  /** The suffix alternation succeeds wherever suffix `n` fits, with `n` or
      a suffix before it. */
  lemma {:induction false} SuffixAtFinds(s: string, j: nat, k: nat, suffixes: seq<string>, n: nat)
    requires j <= |s| && k <= n < |suffixes|
    requires IStartsAt(s, j, suffixes[n]) && BoundaryAt(s, j + |suffixes[n]|)
    ensures SuffixAt(s, j, k, suffixes).Some? && SuffixAt(s, j, k, suffixes).value <= n
    decreases n - k
  {
    if k < n && !(IStartsAt(s, j, suffixes[k]) && BoundaryAt(s, j + |suffixes[k]|)) {
      SuffixAtFinds(s, j, k + 1, suffixes, n);
    }
  }

  /** The lazy run finds a capture whenever one starts at `p` with its
      suffix at or after `j`, and the one it finds is tried no later than
      any such capture: the shortest run, then the first suffix in list
      order. */
  lemma {:induction false} LazyRunFirst(s: string, p: nat, j: nat, suffixes: seq<string>, sp: Span)
    requires p < j <= |s| && IsLetter(s[p])
    requires forall k :: p < k < j ==> IsLetterOrSpace(s[k])
    requires IsCapture(s, sp, suffixes) && sp.start == p && j <= SuffixStart(sp, suffixes)
    ensures LazyRun(s, p, j, suffixes).Some?
    ensures TriedNoLater(LazyRun(s, p, j, suffixes).value, sp, suffixes)
    decreases |s| - j
  {
    if j == SuffixStart(sp, suffixes) {
      SuffixAtFinds(s, j, 0, suffixes, sp.suffix);
    } else if SuffixAt(s, j, 0, suffixes).None? {
      assert IsLetterOrSpace(s[j]);
      LazyRunFirst(s, p, j + 1, suffixes, sp);
    }
  }

  /** Whenever a capture follows the gap after `q`, one is found, and it is
      tried no later than that capture. */
  lemma TailFromFirst(s: string, q: nat, suffixes: seq<string>, sp: Span)
    requires q <= |s| && IsGap(s, q, sp.start) && IsCapture(s, sp, suffixes)
    ensures TailFrom(s, q, suffixes).Some?
    ensures TriedNoLater(TailFrom(s, q, suffixes).value, sp, suffixes)
  {
    CaptureStartOnly(s, q, sp.start);
    TailFromStart(s, q, suffixes, sp);
  }

  /** A capture that starts where the gap ends is found, or one tried no
      later than it is. */
  lemma TailFromStart(s: string, q: nat, suffixes: seq<string>, sp: Span)
    requires q <= |s| && sp.start == CaptureStart(s, q) && IsCapture(s, sp, suffixes)
    ensures TailFrom(s, q, suffixes).Some?
    ensures TriedNoLater(TailFrom(s, q, suffixes).value, sp, suffixes)
  {
    TailFromLetter(s, q, suffixes);
    LazyRunFirst(s, sp.start, sp.start + 1, suffixes, sp);
  }

  /** Whenever the rest of the pattern matches after `q`, a match is found.
      A capture after "ship" is tried first: it is tried no later than any
      other such capture, and a match without "ship" is returned only when
      none with it exists, tried no later than any other without it. */
  lemma ShipTailFirst(s: string, q: nat, ship: bool, sp: Span, suffixes: seq<string>)
    requires q <= |s| && ShipTailMatch(s, q, ship, sp, suffixes)
    ensures ShipTail(s, q, suffixes).Some?
    ensures ship ==> ShipTailMatch(s, q, true, ShipTail(s, q, suffixes).value, suffixes)
    ensures ship ==> TriedNoLater(ShipTail(s, q, suffixes).value, sp, suffixes)
    ensures !ship ==> ShipTailMatch(s, q, true, ShipTail(s, q, suffixes).value, suffixes) ||
                      TriedNoLater(ShipTail(s, q, suffixes).value, sp, suffixes)
  {
    if ship {
      TailFromFirst(s, q + 4, suffixes, sp);
      TailFromSound(s, q + 4, suffixes);
    } else if IStartsAt(s, q, "ship") && TailFrom(s, q + 4, suffixes).Some? {
      TailFromSound(s, q + 4, suffixes);
    } else {
      TailFromFirst(s, q, suffixes, sp);
    }
  }

  /** Whenever the rest of the pattern matches after `q`, a match is found. */
  lemma ShipTailFound(s: string, q: nat, ship: bool, sp: Span, suffixes: seq<string>)
    requires q <= |s| && ShipTailMatch(s, q, ship, sp, suffixes)
    ensures ShipTail(s, q, suffixes).Some?
  {
    ShipTailFirst(s, q, ship, sp, suffixes);
  }

  /** Whenever the keyword pattern matches at `i`, a match is found. */
  lemma KeywordAtFound(s: string, i: nat, kw: string, ship: bool, sp: Span, suffixes: seq<string>)
    requires i <= |s| && KeywordMatch(s, i, kw, ship, sp, suffixes)
    ensures KeywordAt(s, i, kw, suffixes).Some?
  {
    KeywordAtFoundEnding(s, i, kw, i + |kw|, ship, sp, suffixes);
  }

  /** The same, with the keyword's end `q` named. */
  lemma KeywordAtFoundEnding(s: string, i: nat, kw: string, q: nat, ship: bool, sp: Span, suffixes: seq<string>)
    requires q == i + |kw| && q <= |s| && IStartsAt(s, i, kw) && ShipTailMatch(s, q, ship, sp, suffixes)
    ensures KeywordAt(s, i, kw, suffixes).Some?
  {
    ShipTailFound(s, q, ship, sp, suffixes);
    KeywordAtOfTail(s, i, kw, q, suffixes);
  }

  /** The pattern with keyword alternatives `kws` matches at `i`: some
      alternative, with or without "ship", and some capture. */
  ghost predicate MatchesAt(s: string, kws: seq<string>, i: nat, suffixes: seq<string>) {
    exists b, ship, sp :: 0 <= b < |kws| && KeywordMatch(s, i, kws[b], ship, sp, suffixes)
  }

  /** The anchored match succeeds exactly when the pattern matches there. */
  lemma MatchAtIff(s: string, kws: seq<string>, i: nat, suffixes: seq<string>)
    requires i <= |s|
    ensures MatchAt(s, kws, i, suffixes).Some? <==> MatchesAt(s, kws, i, suffixes)
  {
    if MatchAt(s, kws, i, suffixes).Some? {
      var b :| 0 <= b < |kws| && KeywordAt(s, i, kws[b], suffixes) == MatchAt(s, kws, i, suffixes);
      KeywordAtSound(s, i, kws[b], suffixes);
    }
    if MatchesAt(s, kws, i, suffixes) {
      var b, ship, sp :| 0 <= b < |kws| && KeywordMatch(s, i, kws[b], ship, sp, suffixes);
      KeywordAtFound(s, i, kws[b], ship, sp, suffixes);
    }
  }

  /** `pattern.search` reports no match exactly when no position of the
      line matches. */
  lemma SearchNoneIff(s: string, kws: seq<string>)
    ensures Search(s, kws).None? <==> forall i :: 0 <= i <= |s| ==> !MatchesAt(s, kws, i, TeamSuffixes)
  {
    forall i | 0 <= i <= |s| {
      MatchAtIff(s, kws, i, TeamSuffixes);
    }
  }

  /** A match `pattern.search` reports is at the leftmost position where the
      pattern matches, with a capture the pattern admits there. */
  lemma SearchFound(s: string, kws: seq<string>)
    requires Search(s, kws).Some?
    ensures Search(s, kws).value.at <= |s|
    ensures exists b, ship ::
      0 <= b < |kws| && KeywordMatch(s, Search(s, kws).value.at, kws[b], ship, Search(s, kws).value.span, TeamSuffixes)
    ensures forall i :: 0 <= i < Search(s, kws).value.at ==> !MatchesAt(s, kws, i, TeamSuffixes)
  {
    var f := Search(s, kws).value;
    forall i | 0 <= i < f.at {
      MatchAtIff(s, kws, i, TeamSuffixes);
    }
    var b :| 0 <= b < |kws| && KeywordAt(s, f.at, kws[b], TeamSuffixes) == Some(f.span);
    KeywordAtSound(s, f.at, kws[b], TeamSuffixes);
  }

  /** Every match of the primary pattern is one of the alternate pattern. */
  lemma PrimaryIsAlternate(line: string, i: nat)
    requires MatchesAt(line, PrimaryKeywords, i, TeamSuffixes)
    ensures MatchesAt(line, AlternateKeywords, i, TeamSuffixes)
  {
    var b, ship, sp :| 0 <= b < |PrimaryKeywords| && KeywordMatch(line, i, PrimaryKeywords[b], ship, sp, TeamSuffixes);
    assert PrimaryKeywords[b] == AlternateKeywords[0];
  }

  /** "Not found" comes out exactly when no position of the line matches
      the alternate pattern, whose keywords include the primary pattern's
      only one. */
  lemma ExtractNotFoundIff(line: string)
    ensures ExtractChampionTeam(line) == NotFound <==>
      forall i :: 0 <= i <= |line| ==> !MatchesAt(line, AlternateKeywords, i, TeamSuffixes)
  {
    SearchNoneIff(line, PrimaryKeywords);
    SearchNoneIff(line, AlternateKeywords);
    forall i | 0 <= i <= |line| && MatchesAt(line, PrimaryKeywords, i, TeamSuffixes)
      ensures MatchesAt(line, AlternateKeywords, i, TeamSuffixes)
    {
      PrimaryIsAlternate(line, i);
    }
  }

  /** A match at `i` bounds where the search stops. */
  lemma SearchStopsBy(s: string, kws: seq<string>, i: nat)
    requires i <= |s| && MatchesAt(s, kws, i, TeamSuffixes)
    ensures Search(s, kws).Some? && Search(s, kws).value.at <= i
  {
    SearchNoneIff(s, kws);
    SearchFound(s, kws);
  }

  /** A match of the primary pattern begins with "champion", in any case. */
  lemma PrimarySearchStartsWithKeyword(s: string)
    requires Search(s, PrimaryKeywords).Some?
    ensures IStartsAt(s, Search(s, PrimaryKeywords).value.at, "champion")
  {
    SearchFound(s, PrimaryKeywords);
  }

  /** Two gaps from the same point that both end on a letter end at the
      same place. */
  lemma GapToLetterUnique(s: string, q: nat, p1: nat, p2: nat)
    requires IsGap(s, q, p1) && p1 < |s| && IsLetter(s[p1])
    requires IsGap(s, q, p2) && p2 < |s| && IsLetter(s[p2])
    ensures p1 == p2
  {
    CaptureStartOnly(s, q, p1);
    CaptureStartOnly(s, q, p2);
  }
}
