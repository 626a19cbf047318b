/**
 * Champion-name extraction: the cleanup applied to a captured name and the
 * two-stage pattern cascade run over one candidate line.
 *
 * The two patterns are
 *   primary:   champion(?:ship)?(?:\s*[:\-–]?\s*)([A-Z][a-zA-Z\s]*?(?:SUFFIXES))\b
 *   alternate: (?:champion|pennant winner|league champion)(?:ship)?...same tail...
 * both searched case-insensitively. Instead of a general regex engine the
 * matcher below follows the backtracking order of these two patterns:
 * leftmost start first, keyword alternatives in order, "ship" taken before
 * it is skipped, the shortest lazy run first and, at each run length, the
 * suffixes in list order.
 */
module Champion {
  import opened Wrappers
  import opened Text

  const NotFound: string := "Not found"

  /** Team nicknames that may end a captured name, in the order they are tried. */
  const TeamSuffixes: seq<string> := [
    "Athletics", "Red Stockings", "Wolves", "White Stockings",
    "Browns", "Orioles", "Wolverines", "Blues",
    "Metropolitans", "Alleghenys", "Giants", "Dodgers",
    "Yankees", "Mets", "Cardinals", "Cubs", "Tigers",
    "Phillies", "Indians", "Braves", "Red Sox"
  ]

  const PrimaryKeywords: seq<string> := ["champion"]
  const AlternateKeywords: seq<string> := ["champion", "pennant winner", "league champion"]

  /** A character of the class `[A-Za-z\s]`. */
  predicate IsLetterOrSpace(c: char) {
    IsLetter(c) || IsSpace(c)
  }

  predicate AllLetterOrSpace(s: string) {
    forall k :: 0 <= k < |s| ==> IsLetterOrSpace(s[k])
  }

  /** A nickname: letters and spaces, starting and ending with a letter. */
  predicate IsNickname(t: string) {
    |t| > 0 && IsLetter(t[0]) && IsLetter(t[|t| - 1]) && AllLetterOrSpace(t)
  }

  lemma SuffixesAreNicknames()
    ensures forall m :: 0 <= m < |TeamSuffixes| ==> IsNickname(TeamSuffixes[m])
  {
    forall m | 0 <= m < |TeamSuffixes| ensures IsNickname(TeamSuffixes[m]) {
      SuffixIsNickname(m);
    }
  }

  lemma SuffixIsNickname(m: nat)
    requires m < |TeamSuffixes|
    ensures IsNickname(TeamSuffixes[m])
  {
    if m < 7 {
      FirstSuffixesAreNicknames(m);
    } else if m < 14 {
      MiddleSuffixesAreNicknames(m);
    } else {
      LastSuffixesAreNicknames(m);
    }
  }

  lemma FirstSuffixesAreNicknames(m: nat)
    requires m < 7
    ensures IsNickname(TeamSuffixes[m])
  {
  }

  lemma MiddleSuffixesAreNicknames(m: nat)
    requires 7 <= m < 14
    ensures IsNickname(TeamSuffixes[m])
  {
  }

  lemma LastSuffixesAreNicknames(m: nat)
    requires 14 <= m < 21
    ensures IsNickname(TeamSuffixes[m])
  {
  }

  /** Length of the leading run matched by `[A-Za-z\s]*`. */
  function LetterSpaceRun(s: string): (n: nat)
    ensures n <= |s|
    ensures forall k :: 0 <= k < n ==> IsLetterOrSpace(s[k])
    ensures n == |s| || !IsLetterOrSpace(s[n])
  {
    if |s| > 0 && IsLetterOrSpace(s[0]) then 1 + LetterSpaceRun(s[1..]) else 0
  }

  lemma LetterSpaceRunAll(s: string)
    requires AllLetterOrSpace(s)
    ensures LetterSpaceRun(s) == |s|
  {
  }

  /** `clean_champion_text`: strip, keep the leading letters-and-whitespace
      run (stripped again), and fall back to the stripped text. `None`, empty
      and whitespace-only input give the sentinel. */
  function CleanChampionText(raw: Option<string>): string {
    if raw.None? || raw.value == [] then NotFound
    else
      var text := Strip(raw.value);
      if text == [] then NotFound
      else
        var n := LetterSpaceRun(text);
        if n > 0 then
          var cleaned := Strip(text[..n]);
          if cleaned != [] then cleaned else text
        else text
  }

  /** What the cleanup returns: the sentinel for missing or blank input;
      otherwise a non-empty prefix of the stripped text with no surrounding
      whitespace, namely the leading letters-and-whitespace run minus its
      trailing whitespace when the text starts with a letter, and the whole
      stripped text when it does not. */
  lemma CleanChampionTextSpec(raw: Option<string>)
    ensures raw.None? || AllSpace(raw.value) ==> CleanChampionText(raw) == NotFound
    ensures raw.Some? && !AllSpace(raw.value) ==>
      var text := Strip(raw.value);
      var r := CleanChampionText(raw);
      r != [] && !IsSpace(r[0]) && !IsSpace(r[|r| - 1]) && |r| <= |text| && r == text[..|r|] &&
      (IsLetter(text[0]) ==>
        AllLetterOrSpace(r) && |r| <= LetterSpaceRun(text) && AllSpace(text[|r|..LetterSpaceRun(text)])) &&
      (!IsLetter(text[0]) ==> r == text)
  {
    if raw.Some? && !AllSpace(raw.value) {
      var text := Strip(raw.value);
      if IsLetter(text[0]) {
        CleanLetterRun(text);
      } else {
        assert LetterSpaceRun(text) == 0;
        assert text[..|text|] == text;
      }
    }
  }

  /** A stripped text that starts with a letter is cut to its leading
      letters-and-whitespace run, minus that run's trailing whitespace. */
  lemma CleanLetterRun(text: string)
    requires text != [] && IsLetter(text[0]) && !IsSpace(text[|text| - 1])
    ensures var n := LetterSpaceRun(text);
      var cleaned := Strip(text[..n]);
      cleaned != [] && !IsSpace(cleaned[0]) && !IsSpace(cleaned[|cleaned| - 1]) &&
      |cleaned| <= n && cleaned == text[..|cleaned|] &&
      AllLetterOrSpace(cleaned) && AllSpace(text[|cleaned|..n])
  {
    var n := LetterSpaceRun(text);
    var run := text[..n];
    assert run[0] == text[0];
    var m := TrailingSpaceStart(run);
    var cleaned := Strip(run);
    assert LeadingSpace(run) == 0;
    assert cleaned == run[..m];
    assert cleaned == text[..m];
    forall k | 0 <= k < m ensures IsLetterOrSpace(cleaned[k]) {
      assert cleaned[k] == text[k];
    }
    forall k | m <= k < n ensures IsSpace(text[k]) {
      assert text[k] == run[k];
    }
    assert AllSpace(text[m..n]);
  }

  /** `t` occurs at `i` in `s`, letters compared regardless of case. */
  predicate IStartsAt(s: string, i: nat, t: string) {
    i + |t| <= |s| && Lower(s[i..i + |t|]) == Lower(t)
  }

  /** A case-insensitive occurrence agrees with `t` character by
      character, up to case. */
  lemma IStartsAtChar(s: string, i: nat, t: string, k: nat)
    requires k < |t|
    ensures IStartsAt(s, i, t) ==> i + k < |s| && LowerChar(s[i + k]) == LowerChar(t[k])
  {
    if IStartsAt(s, i, t) {
      assert Lower(s[i..i + |t|])[k] == LowerChar(s[i + k]);
    }
  }

  /** Agreement character by character, up to case, is an occurrence. */
  lemma IStartsAtOfChars(s: string, i: nat, t: string)
    requires i + |t| <= |s|
    requires forall k :: 0 <= k < |t| ==> LowerChar(s[i + k]) == LowerChar(t[k])
    ensures IStartsAt(s, i, t)
  {
    forall k | 0 <= k < |t| ensures Lower(s[i..i + |t|])[k] == Lower(t)[k] {
      assert s[i..i + |t|][k] == s[i + k];
    }
  }

  /** The characters of `[:\-–]`. */
  predicate IsSeparator(c: char) {
    c == ':' || c == '-' || c == '\U{2013}'
  }

  /** End of the `\s*` run that starts at `i`. */
  function SkipSpace(s: string, i: nat): (j: nat)
    requires i <= |s|
    ensures i <= j <= |s|
    ensures forall k :: i <= k < j ==> IsSpace(s[k])
    ensures j == |s| || !IsSpace(s[j])
    decreases |s| - i
  {
    if i < |s| && IsSpace(s[i]) then SkipSpace(s, i + 1) else i
  }

  /** `s[q..p]` is matched by `\s*[:\-–]?\s*`: whitespace, with at most one
      separator among it. */
  predicate IsGap(s: string, q: nat, p: nat) {
    q <= p <= |s| &&
    ((forall k :: q <= k < p ==> IsSpace(s[k])) ||
     exists c :: q <= c < p && IsSeparator(s[c]) && forall k :: q <= k < p && k != c ==> IsSpace(s[k]))
  }

  /** Where `\s*[:\-–]?\s*` leaves off after the keyword ending at `q`: the
      whitespace run, then a separator if one follows, then whitespace
      again. */
  function CaptureStart(s: string, q: nat): (p: nat)
    requires q <= |s|
    ensures q <= p <= |s|
  {
    var q1 := SkipSpace(s, q);
    if q1 < |s| && IsSeparator(s[q1]) then SkipSpace(s, q1 + 1) else q1
  }

  /** A whitespace run that stops on a non-whitespace character is skipped
      exactly up to it. */
  lemma {:induction false} SkipSpaceTo(s: string, i: nat, p: nat)
    requires i <= p <= |s|
    requires forall k :: i <= k < p ==> IsSpace(s[k])
    requires p == |s| || !IsSpace(s[p])
    ensures SkipSpace(s, i) == p
    decreases p - i
  {
    if i < p {
      SkipSpaceTo(s, i + 1, p);
    }
  }

  /** The capture start is reachable through the gap. */
  lemma CaptureStartIsGap(s: string, q: nat)
    requires q <= |s|
    ensures IsGap(s, q, CaptureStart(s, q))
  {
    var q1 := SkipSpace(s, q);
    if q1 < |s| && IsSeparator(s[q1]) {
      var p := SkipSpace(s, q1 + 1);
      assert forall k :: q <= k < p && k != q1 ==> IsSpace(s[k]);
    }
  }

  /** Every other way of backtracking through the gap stops on whitespace or
      on the separator, where `[A-Z]` cannot match: the only letter the gap
      reaches is at `CaptureStart`. */
  lemma CaptureStartOnly(s: string, q: nat, p: nat)
    requires IsGap(s, q, p) && p < |s| && IsLetter(s[p])
    ensures p == CaptureStart(s, q)
  {
    if forall k :: q <= k < p ==> IsSpace(s[k]) {
      SkipSpaceTo(s, q, p);
    } else {
      var c :| q <= c < p && IsSeparator(s[c]) && forall k :: q <= k < p && k != c ==> IsSpace(s[k]);
      SkipSpaceTo(s, q, c);
      SkipSpaceTo(s, c + 1, p);
    }
  }

  /** `\b` after a word character. */
  predicate BoundaryAt(s: string, e: nat)
    requires e <= |s|
  {
    e == |s| || !IsWordChar(s[e])
  }

  /** Bounds of the capture group in the searched line, and the index of
      the suffix that ends it. */
  datatype Span = Span(start: nat, end: nat, suffix: nat)

  /** The shape the capture group `[A-Z][a-zA-Z\s]*?(?:SUFFIXES)\b` admits,
      with `suffixes` as the alternation: a letter, then letters and
      whitespace, then one of the suffixes (any case) followed by a word
      boundary. */
  predicate IsCapture(s: string, sp: Span, suffixes: seq<string>) {
    sp.suffix < |suffixes| && sp.start + |suffixes[sp.suffix]| < sp.end <= |s| &&
    IsLetter(s[sp.start]) && BoundaryAt(s, sp.end) &&
    (forall k :: sp.start < k < sp.end - |suffixes[sp.suffix]| ==> IsLetterOrSpace(s[k])) &&
    IStartsAt(s, sp.end - |suffixes[sp.suffix]|, suffixes[sp.suffix])
  }

  /** The first suffix, in list order from index `k`, that occurs at `j`
      and is followed by a word boundary. */
  function SuffixAt(s: string, j: nat, k: nat, suffixes: seq<string>): (m: Option<nat>)
    requires j <= |s|
    ensures m.Some? ==>
      k <= m.value < |suffixes| && IStartsAt(s, j, suffixes[m.value]) &&
      BoundaryAt(s, j + |suffixes[m.value]|)
    decreases |suffixes| - k
  {
    if k >= |suffixes| then None
    else
      var suffix := suffixes[k];
      if IStartsAt(s, j, suffix) && BoundaryAt(s, j + |suffix|) then Some(k)
      else SuffixAt(s, j, k + 1, suffixes)
  }

  /** No suffix tried before the one found, and none at all when none is
      found, occurs at `j` followed by a word boundary. */
  lemma {:induction false} SuffixAtFirst(s: string, j: nat, k: nat, suffixes: seq<string>)
    requires j <= |s|
    ensures forall n :: k <= n < |suffixes| && (SuffixAt(s, j, k, suffixes).None? || n < SuffixAt(s, j, k, suffixes).value) ==>
      !(IStartsAt(s, j, suffixes[n]) && BoundaryAt(s, j + |suffixes[n]|))
    decreases |suffixes| - k
  {
    if k < |suffixes| {
      var suffix := suffixes[k];
      if !(IStartsAt(s, j, suffix) && BoundaryAt(s, j + |suffix|)) {
        SuffixAtFirst(s, j, k + 1, suffixes);
      }
    }
  }

  lemma LowerCharKeepsClass(c: char)
    ensures IsLetter(LowerChar(c)) <==> IsLetter(c)
    ensures IsSpace(LowerChar(c)) <==> IsSpace(c)
  {
  }

  /** Text matching a nickname case-insensitively is itself letters and
      whitespace and ends in a letter. */
  lemma NicknameOccurrence(s: string, j: nat, t: string)
    requires IsNickname(t) && IStartsAt(s, j, t)
    ensures forall k :: j <= k < j + |t| ==> IsLetterOrSpace(s[k])
    ensures IsLetter(s[j + |t| - 1])
  {
    forall k | j <= k < j + |t| ensures IsLetterOrSpace(s[k]) && (k == j + |t| - 1 ==> IsLetter(s[k])) {
      assert LowerChar(s[k]) == Lower(s[j..j + |t|])[k - j] == Lower(t)[k - j] == LowerChar(t[k - j]);
      LowerCharKeepsClass(s[k]);
      LowerCharKeepsClass(t[k - j]);
    }
  }

  /** Where the suffix of a capture begins, that is, where its lazy run
      ends. */
  function SuffixStart(sp: Span, suffixes: seq<string>): int
    requires sp.suffix < |suffixes|
  {
    sp.end - |suffixes[sp.suffix]|
  }

  /** Captures `a` and `b` start at the same letter and the regex tries `a`
      no later than `b`: `a` has the shorter lazy run, or the same run and a
      suffix no later in the list. */
  predicate TriedNoLater(a: Span, b: Span, suffixes: seq<string>)
    requires a.suffix < |suffixes| && b.suffix < |suffixes|
  {
    a.start == b.start &&
    (SuffixStart(a, suffixes) < SuffixStart(b, suffixes) ||
     (SuffixStart(a, suffixes) == SuffixStart(b, suffixes) && a.suffix <= b.suffix))
  }

  /** The lazy run `[a-zA-Z\s]*?` followed by the suffix alternation: the
      suffix is tried at `j`, and the run grows by one character only when no
      suffix fits there. */
  function LazyRun(s: string, p: nat, j: nat, suffixes: seq<string>): (m: Option<Span>)
    requires p < j <= |s| && IsLetter(s[p])
    requires forall k :: p < k < j ==> IsLetterOrSpace(s[k])
    ensures m.Some? ==> m.value.start == p && j <= m.value.end && IsCapture(s, m.value, suffixes)
    ensures m.Some? ==> j <= SuffixStart(m.value, suffixes)
    decreases |s| - j
  {
    match SuffixAt(s, j, 0, suffixes)
    case Some(m) => Some(Span(p, j + |suffixes[m]|, m))
    case None =>
      if j < |s| && IsLetterOrSpace(s[j]) then LazyRun(s, p, j + 1, suffixes) else None
  }

  /** The capture after a keyword that ends at `q`. */
  function TailFrom(s: string, q: nat, suffixes: seq<string>): (m: Option<Span>)
    requires q <= |s|
    ensures m.Some? ==> q <= m.value.start && IsCapture(s, m.value, suffixes)
  {
    var p := CaptureStart(s, q);
    if p < |s| && IsLetter(s[p]) then LazyRun(s, p, p + 1, suffixes) else None
  }

  /** A capture found after `q` is reached through the gap. */
  lemma TailFromSound(s: string, q: nat, suffixes: seq<string>)
    requires q <= |s| && TailFrom(s, q, suffixes).Some?
    ensures IsGap(s, q, TailFrom(s, q, suffixes).value.start)
  {
    CaptureStartIsGap(s, q);
  }

  /** When the gap after `q` reaches a letter, the capture is the lazy run
      from that letter. */
  lemma TailFromLetter(s: string, q: nat, suffixes: seq<string>)
    requires q <= |s| && CaptureStart(s, q) < |s| && IsLetter(s[CaptureStart(s, q)])
    ensures TailFrom(s, q, suffixes) == LazyRun(s, CaptureStart(s, q), CaptureStart(s, q) + 1, suffixes)
  {
  }

  /** After a keyword ending at `q`, "ship" when `ship` holds, then the gap
      `\s*[:\-–]?\s*` up to the capture `sp`. */
  predicate ShipTailMatch(s: string, q: nat, ship: bool, sp: Span, suffixes: seq<string>) {
    (ship ==> IStartsAt(s, q, "ship")) &&
    IsGap(s, q + (if ship then 4 else 0), sp.start) &&
    IsCapture(s, sp, suffixes)
  }

  /** The pattern with the single keyword `kw` matches at `i` with capture
      `sp`: the keyword in any case, "ship" when `ship` holds, the gap, then
      the capture group. */
  predicate KeywordMatch(s: string, i: nat, kw: string, ship: bool, sp: Span, suffixes: seq<string>) {
    IStartsAt(s, i, kw) && ShipTailMatch(s, i + |kw|, ship, sp, suffixes)
  }

  /** `(?:ship)?` and the rest of the pattern after a keyword ending at `q`:
      "ship" is taken first and skipped only if the rest then fails. */
  function ShipTail(s: string, q: nat, suffixes: seq<string>): (m: Option<Span>)
    requires q <= |s|
    ensures m.Some? ==> q <= m.value.start && IsCapture(s, m.value, suffixes)
  {
    if IStartsAt(s, q, "ship") then
      match TailFrom(s, q + 4, suffixes)
      case Some(sp) => Some(sp)
      case None => TailFrom(s, q, suffixes)
    else TailFrom(s, q, suffixes)
  }

  /** A match found after `q` has the shape of the rest of the pattern. */
  lemma ShipTailSound(s: string, q: nat, suffixes: seq<string>)
    requires q <= |s| && ShipTail(s, q, suffixes).Some?
    ensures ShipTailMatch(s, q, true, ShipTail(s, q, suffixes).value, suffixes) ||
            ShipTailMatch(s, q, false, ShipTail(s, q, suffixes).value, suffixes)
  {
    if IStartsAt(s, q, "ship") && TailFrom(s, q + 4, suffixes).Some? {
      TailFromSound(s, q + 4, suffixes);
    } else {
      TailFromSound(s, q, suffixes);
    }
  }

  /** The pattern with keyword `kw`, anchored at `i`. */
  function KeywordAt(s: string, i: nat, kw: string, suffixes: seq<string>): (m: Option<Span>)
    requires i <= |s|
    ensures m.Some? ==> IStartsAt(s, i, kw) && i + |kw| <= m.value.start && IsCapture(s, m.value, suffixes)
  {
    if IStartsAt(s, i, kw) then ShipTail(s, i + |kw|, suffixes) else None
  }

  /** With the keyword at `i`, ending at `q`, a match after it is a match
      at `i`. */
  lemma KeywordAtOfTail(s: string, i: nat, kw: string, q: nat, suffixes: seq<string>)
    requires q == i + |kw| && q <= |s| && IStartsAt(s, i, kw) && ShipTail(s, q, suffixes).Some?
    ensures KeywordAt(s, i, kw, suffixes).Some?
  {
  }

  /** A match found at `i` has the keyword pattern's shape. */
  lemma KeywordAtSound(s: string, i: nat, kw: string, suffixes: seq<string>)
    requires i <= |s| && KeywordAt(s, i, kw, suffixes).Some?
    ensures KeywordMatch(s, i, kw, true, KeywordAt(s, i, kw, suffixes).value, suffixes) ||
            KeywordMatch(s, i, kw, false, KeywordAt(s, i, kw, suffixes).value, suffixes)
  {
    ShipTailSound(s, i + |kw|, suffixes);
  }

  /** No keyword alternative from index `a` up to `b` matches at `i`. */
  ghost predicate NoneMatchBetween(s: string, kws: seq<string>, i: nat, a: nat, b: nat, suffixes: seq<string>)
    requires i <= |s| && b <= |kws|
  {
    forall c :: a <= c < b ==> KeywordAt(s, i, kws[c], suffixes).None?
  }

  /** The first keyword alternative, from index `a` on, that matches at `i`. */
  function AlternativeAt(s: string, kws: seq<string>, i: nat, a: nat, suffixes: seq<string>): (m: Option<Span>)
    requires i <= |s|
    ensures m.Some? ==> IsCapture(s, m.value, suffixes)
    ensures m.Some? ==> exists b :: a <= b < |kws| && KeywordAt(s, i, kws[b], suffixes) == m &&
                                    NoneMatchBetween(s, kws, i, a, b, suffixes)
    ensures m.None? ==> NoneMatchBetween(s, kws, i, a, |kws|, suffixes)
    decreases |kws| - a
  {
    if a >= |kws| then None
    else
      match KeywordAt(s, i, kws[a], suffixes)
      case Some(sp) =>
        assert NoneMatchBetween(s, kws, i, a, a, suffixes);
        Some(sp)
      case None =>
        assert forall b :: a + 1 <= b <= |kws| && NoneMatchBetween(s, kws, i, a + 1, b, suffixes) ==>
                             NoneMatchBetween(s, kws, i, a, b, suffixes);
        AlternativeAt(s, kws, i, a + 1, suffixes)
  }

  /** The pattern with keyword alternatives `kws`, anchored at `i`. */
  function MatchAt(s: string, kws: seq<string>, i: nat, suffixes: seq<string>): (m: Option<Span>)
    requires i <= |s|
    ensures m.Some? ==> IsCapture(s, m.value, suffixes)
  {
    AlternativeAt(s, kws, i, 0, suffixes)
  }

  /** A successful search: where the match starts and the capture's bounds. */
  datatype Found = Found(at: nat, span: Span)

  /** `pattern.search` from position `i`: the leftmost start at which the
      pattern matches. */
  function SearchFrom(s: string, kws: seq<string>, i: nat, suffixes: seq<string>): (r: Option<Found>)
    requires i <= |s| + 1
    ensures r.Some? ==> (i <= r.value.at <= |s| && MatchAt(s, kws, r.value.at, suffixes) == Some(r.value.span) &&
      forall j :: i <= j < r.value.at ==> MatchAt(s, kws, j, suffixes).None?)
    ensures r.None? ==> forall j :: i <= j <= |s| ==> MatchAt(s, kws, j, suffixes).None?
    decreases |s| + 1 - i
  {
    if i > |s| then None
    else
      match MatchAt(s, kws, i, suffixes)
      case Some(sp) => Some(Found(i, sp))
      case None => SearchFrom(s, kws, i + 1, suffixes)
  }

  /** `pattern.search` over the team suffixes. */
  function Search(s: string, kws: seq<string>): Option<Found> {
    SearchFrom(s, kws, 0, TeamSuffixes)
  }

  /** A name the cascade can return: a letter, then letters and whitespace,
      ending (in any case) with one of the team suffixes. */
  predicate IsTeamName(r: string) {
    r != [] && IsLetter(r[0]) && AllLetterOrSpace(r) &&
    exists m :: 0 <= m < |TeamSuffixes| && |TeamSuffixes[m]| < |r| &&
      Lower(r[|r| - |TeamSuffixes[m]|..]) == Lower(TeamSuffixes[m])
  }

  lemma SuffixesEndInSOrX()
    ensures forall m :: 0 <= m < |TeamSuffixes| ==>
      TeamSuffixes[m] != [] && (TeamSuffixes[m][|TeamSuffixes[m]| - 1] == 's' || TeamSuffixes[m][|TeamSuffixes[m]| - 1] == 'x')
  {
  }

  /** The sentinel can never be mistaken for an extracted name. */
  lemma NotFoundIsNoTeamName()
    ensures !IsTeamName(NotFound)
  {
    EndsInDIsNoTeamName(NotFound);
  }

  /** No nickname ends in 'd', so no text ending in 'd' is a team name. */
  lemma EndsInDIsNoTeamName(r: string)
    requires r != [] && r[|r| - 1] == 'd'
    ensures !IsTeamName(r)
  {
    SuffixesEndInSOrX();
    forall m | 0 <= m < |TeamSuffixes| && |TeamSuffixes[m]| < |r|
      ensures Lower(r[|r| - |TeamSuffixes[m]|..]) != Lower(TeamSuffixes[m])
    {
      EndsDiffer(r, TeamSuffixes[m]);
    }
  }

  /** Text ending in 'd' does not end, in any case, with a word ending in
      's' or 'x'. */
  lemma EndsDiffer(r: string, t: string)
    requires r != [] && r[|r| - 1] == 'd'
    requires t != [] && (t[|t| - 1] == 's' || t[|t| - 1] == 'x') && |t| < |r|
    ensures Lower(r[|r| - |t|..]) != Lower(t)
  {
    assert Lower(t)[|t| - 1] == LowerChar(t[|t| - 1]) != 'd';
    assert Lower(r[|r| - |t|..])[|t| - 1] == LowerChar(r[|r| - 1]) == 'd';
  }

  /** A captured name is a team name. */
  lemma CaptureIsTeamName(s: string, sp: Span)
    requires IsCapture(s, sp, TeamSuffixes)
    ensures IsTeamName(s[sp.start..sp.end])
  {
    var c := s[sp.start..sp.end];
    CaptureEndsWithSuffix(s, sp, TeamSuffixes);
    SuffixIsNickname(sp.suffix);
    CaptureLettersOrSpaces(s, sp, TeamSuffixes);
    assert c[0] == s[sp.start];
    var t := TeamSuffixes[sp.suffix];
    assert |t| < |c| && Lower(c[|c| - |t|..]) == Lower(t);
  }

  lemma CaptureEndsWithSuffix(s: string, sp: Span, suffixes: seq<string>)
    requires IsCapture(s, sp, suffixes)
    ensures var c := s[sp.start..sp.end];
      |suffixes[sp.suffix]| < |c| && Lower(c[|c| - |suffixes[sp.suffix]|..]) == Lower(suffixes[sp.suffix])
  {
    var c := s[sp.start..sp.end];
    var t := suffixes[sp.suffix];
    assert c[|c| - |t|..] == s[sp.end - |t|..sp.end];
  }

  /** Cleaning leaves a nickname-shaped text unchanged. */
  lemma CleanNickname(c: string)
    requires IsNickname(c)
    ensures CleanChampionText(Some(c)) == c
  {
    StripUnchanged(c);
    LetterSpaceRunAll(c);
    assert c[..|c|] == c;
  }

  lemma CaptureLettersOrSpaces(s: string, sp: Span, suffixes: seq<string>)
    requires IsCapture(s, sp, suffixes) && IsNickname(suffixes[sp.suffix])
    ensures AllLetterOrSpace(s[sp.start..sp.end])
    ensures IsLetter(s[sp.end - 1])
  {
    var c := s[sp.start..sp.end];
    var t := suffixes[sp.suffix];
    NicknameOccurrence(s, sp.end - |t|, t);
    forall k | 0 <= k < |c| ensures IsLetterOrSpace(c[k]) {
      assert c[k] == s[sp.start + k];
    }
  }

  /** A captured name has the shape of a nickname. */
  lemma CaptureIsNickname(s: string, sp: Span)
    requires IsCapture(s, sp, TeamSuffixes)
    ensures IsNickname(s[sp.start..sp.end])
  {
    SuffixIsNickname(sp.suffix);
    CaptureLettersOrSpaces(s, sp, TeamSuffixes);
    var c := s[sp.start..sp.end];
    assert c[0] == s[sp.start] && c[|c| - 1] == s[sp.end - 1];
  }

  /** `extract_champion_team`: the cleaned capture of the primary pattern,
      else that of the alternate pattern, else the sentinel. */
  function ExtractChampionTeam(line: string): (r: string)
    ensures r == NotFound <==> Search(line, PrimaryKeywords).None? && Search(line, AlternateKeywords).None?
    ensures Search(line, PrimaryKeywords).Some? ==>
      var sp := Search(line, PrimaryKeywords).value.span; r == line[sp.start..sp.end]
    ensures Search(line, PrimaryKeywords).None? && Search(line, AlternateKeywords).Some? ==>
      var sp := Search(line, AlternateKeywords).value.span; r == line[sp.start..sp.end]
    ensures r != NotFound ==> IsTeamName(r)
  {
    NotFoundIsNoTeamName();
    match Search(line, PrimaryKeywords)
    case Some(f) =>
      CaptureIsNickname(line, f.span);
      CleanNickname(line[f.span.start..f.span.end]);
      CaptureIsTeamName(line, f.span);
      CleanChampionText(Some(line[f.span.start..f.span.end]))
    case None =>
      match Search(line, AlternateKeywords)
      case Some(f) =>
        CaptureIsNickname(line, f.span);
        CleanNickname(line[f.span.start..f.span.end]);
        CaptureIsTeamName(line, f.span);
        CleanChampionText(Some(line[f.span.start..f.span.end]))
      case None => NotFound
  }
}
