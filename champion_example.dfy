/**
 * A worked example of the champion search: the capture found in a typical
 * champion line, and why no other capture is reported.
 */
module ChampionExample {
  import opened Text
  import opened Champion
  import opened ChampionSearch

  /** A typical champion line of a year page, split where the keyword
      begins. */
  const SeriesLead: string := "The 1905 World Series "
  const GiantsLine: string := SeriesLead + "Champion New York Giants"

  lemma SuffixesAtLeastFour()
    ensures forall m :: 0 <= m < |TeamSuffixes| ==> |TeamSuffixes[m]| >= 4
  {
  }

  /** Of the suffixes, only "Giants" ends in "nts", in any case. */
  lemma OnlyGiantsEndsInNts(m: nat)
    requires m < |TeamSuffixes| && |TeamSuffixes[m]| >= 3
    requires LowerChar(TeamSuffixes[m][|TeamSuffixes[m]| - 3]) == 'n'
    requires LowerChar(TeamSuffixes[m][|TeamSuffixes[m]| - 2]) == 't'
    ensures m == 10
  {
  }

  /** The characters of the example line that decide its capture. */
  lemma GiantsLineChars()
    ensures |GiantsLine| == 46
    ensures GiantsLine[30] == ' ' && GiantsLine[38] == 'k'
    ensures GiantsLine[43] == 'n' && GiantsLine[44] == 't'
    ensures forall k :: 36 <= k < 46 && k != 39 ==> IsWordChar(GiantsLine[k])
  {
  }

  /** A capture starting at "New" in the example line ends after "Giants". */
  lemma GiantsCaptureEnd(r: Span)
    requires IsCapture(GiantsLine, r, TeamSuffixes) && r.start == 31
    ensures r.end == 46
  {
    var t := TeamSuffixes[r.suffix];
    SuffixesAtLeastFour();
    SuffixesEndInSOrX();
    GiantsLineChars();
    IStartsAtChar(GiantsLine, r.end - |t|, t, |t| - 1);
  }

  /** In the example line, the only capture that starts at "New" is
      "New York Giants": every other candidate end is inside a word or
      follows "York". */
  lemma GiantsCaptureUnique(r: Span)
    requires IsCapture(GiantsLine, r, TeamSuffixes) && r.start == 31
    ensures r == Span(31, 46, 10)
  {
    var t := TeamSuffixes[r.suffix];
    GiantsCaptureEnd(r);
    SuffixesAtLeastFour();
    GiantsLineChars();
    IStartsAtChar(GiantsLine, r.end - |t|, t, |t| - 2);
    IStartsAtChar(GiantsLine, r.end - |t|, t, |t| - 3);
    OnlyGiantsEndsInNts(r.suffix);
  }

  /** The keyword of the example line begins at offset 22. */
  lemma GiantsKeywordAt22()
    ensures IStartsAt(GiantsLine, 22, "champion")
  {
    assert forall k :: 0 <= k < 8 ==> LowerChar(GiantsLine[22 + k]) == LowerChar("champion"[k]);
    IStartsAtOfChars(GiantsLine, 22, "champion");
  }

  /** "New York Giants" is a capture of the example line. */
  lemma GiantsCaptureAt31()
    ensures IsCapture(GiantsLine, Span(31, 46, 10), TeamSuffixes)
  {
  }

  /** "Champion New York Giants" at offset 22 is a match of the primary
      pattern. */
  lemma GiantsMatchesAt22()
    ensures MatchesAt(GiantsLine, PrimaryKeywords, 22, TeamSuffixes)
  {
    GiantsKeywordAt22();
    GiantsCaptureAt31();
    GiantsLineChars();
    assert IsGap(GiantsLine, 30, 31);
    assert KeywordMatch(GiantsLine, 22, PrimaryKeywords[0], false, Span(31, 46, 10), TeamSuffixes);
  }

  /** No "c" of either case occurs before the keyword. */
  lemma GiantsNoCBefore22()
    ensures forall k :: 0 <= k < 22 ==> LowerChar(GiantsLine[k]) != 'c'
  {
    assert 'c' !in SeriesLead && 'C' !in SeriesLead;
    forall k | 0 <= k < 22 ensures LowerChar(GiantsLine[k]) != 'c' {
      assert GiantsLine[k] == SeriesLead[k];
    }
  }

  /** The search of the example line stops at the keyword. */
  lemma GiantsSearchAt(line: string)
    requires line == GiantsLine
    ensures Search(line, PrimaryKeywords).Some?
    ensures Search(line, PrimaryKeywords).value.at == 22
  {
    GiantsMatchesAt22();
    SearchStopsBy(line, PrimaryKeywords, 22);
    var at := Search(line, PrimaryKeywords).value.at;
    PrimarySearchStartsWithKeyword(line);
    IStartsAtChar(line, at, "champion", 0);
    GiantsNoCBefore22();
  }

  /** The match found in the example line has no "ship", so its capture
      follows the keyword's gap. */
  lemma GiantsSearch(line: string)
    requires line == GiantsLine
    ensures Search(line, PrimaryKeywords).Some?
    ensures IsGap(line, 30, Search(line, PrimaryKeywords).value.span.start)
    ensures IsCapture(line, Search(line, PrimaryKeywords).value.span, TeamSuffixes)
  {
    GiantsSearchAt(line);
    SearchFound(line, PrimaryKeywords);
    var f := Search(line, PrimaryKeywords).value;
    var b, ship :| 0 <= b < |PrimaryKeywords| && KeywordMatch(line, 22, PrimaryKeywords[b], ship, f.span, TeamSuffixes);
    GiantsLineChars();
    IStartsAtChar(line, 30, "ship", 0);
    assert !ship;
  }

  /** In the example line, one space separates the keyword from "New". */
  lemma GiantsGapAt30()
    ensures IsGap(GiantsLine, 30, 31) && IsLetter(GiantsLine[31])
  {
  }

  /** The span found in the example line is "New York Giants". */
  lemma GiantsSpan(line: string)
    requires line == GiantsLine
    ensures Search(line, PrimaryKeywords).Some?
    ensures Search(line, PrimaryKeywords).value.span == Span(31, 46, 10)
  {
    GiantsSearch(line);
    var sp := Search(line, PrimaryKeywords).value.span;
    GiantsGapAt30();
    GapToLetterUnique(line, 30, sp.start, 31);
    GiantsCaptureUnique(sp);
  }

  lemma GiantsTeamText()
    ensures GiantsLine[31..46] == "New York Giants"
  {
  }

  /** The example line yields "New York Giants". */
  lemma ExtractGiantsLine(line: string)
    requires line == GiantsLine
    ensures ExtractChampionTeam(line) == "New York Giants"
  {
    GiantsSpan(line);
    GiantsTeamText();
  }

  /** "The 1905 World Series Champion New York Giants" yields "New York
      Giants": the lazy run stops at the first suffix that ends a word, and
      "York" is not one. */
  lemma ExtractGiants()
    ensures ExtractChampionTeam(GiantsLine) == "New York Giants"
  {
    ExtractGiantsLine(GiantsLine);
  }
}
