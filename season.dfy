/**
 * `get_yearly_stats` on one loaded year page: the standings table gives the
 * win and loss leaders, the page's text lines give the champion.
 */
module Season {
  import opened Wrappers
  import opened Text
  import opened Champion
  import opened Standings

  /** The keywords that make a text line a champion candidate. */
  const ChampionKeywords: seq<string> :=
    ["world series champion", "world champion", "champion", "pennant winner", "league champion"]

  /** `any(kw in lowered for kw in keywords)`. */
  predicate MentionsChampion(line: string) {
    exists k :: 0 <= k < |ChampionKeywords| && Contains(Lower(line), ChampionKeywords[k])
  }

  /** The keywords that are longer than "champion" contain it. */
  lemma LongKeywordsHoldChampion()
    ensures Contains(ChampionKeywords[0], "champion")
    ensures Contains(ChampionKeywords[1], "champion")
    ensures Contains(ChampionKeywords[4], "champion")
  {
    assert ChampionKeywords[0] == "world series " + "champion" + "";
    StartsAtMiddle("world series ", "champion", "");
    assert ChampionKeywords[1] == "world " + "champion" + "";
    StartsAtMiddle("world ", "champion", "");
    assert ChampionKeywords[4] == "league " + "champion" + "";
    StartsAtMiddle("league ", "champion", "");
  }

  /** Three of the five keywords contain "champion", so the candidate test
      comes down to two keywords. */
  lemma MentionsChampionIff(line: string)
    ensures MentionsChampion(line) <==> Contains(Lower(line), "champion") || Contains(Lower(line), "pennant winner")
  {
    var low := Lower(line);
    assert ChampionKeywords[2] == "champion" && ChampionKeywords[3] == "pennant winner";
    if MentionsChampion(line) {
      var k :| 0 <= k < |ChampionKeywords| && Contains(low, ChampionKeywords[k]);
      LongKeywordsHoldChampion();
      if k == 0 || k == 1 || k == 4 {
        ContainsTransitive(low, ChampionKeywords[k], "champion");
      }
    }
  }

  /** The stripped lines that mention a keyword, in page order. */
  function CandidateLines(lines: seq<string>): seq<string> {
    if lines == [] then []
    else
      var last := lines[|lines| - 1];
      CandidateLines(lines[..|lines| - 1]) + if MentionsChampion(last) then [Strip(last)] else []
  }

  /** `c` is one of the lines that mention a keyword, stripped. */
  predicate StrippedMention(lines: seq<string>, c: string) {
    exists j :: 0 <= j < |lines| && MentionsChampion(lines[j]) && c == Strip(lines[j])
  }

  /** There are candidates exactly when some line mentions a keyword, and
      each candidate is such a line, stripped. */
  lemma CandidateLinesSpec(lines: seq<string>)
    ensures |CandidateLines(lines)| <= |lines|
    ensures CandidateLines(lines) == [] <==> forall j :: 0 <= j < |lines| ==> !MentionsChampion(lines[j])
    ensures forall k :: 0 <= k < |CandidateLines(lines)| ==> StrippedMention(lines, CandidateLines(lines)[k])
  {
    CandidatesFromLines(lines);
    NoCandidates(lines);
  }

  /** Candidate collection distributes over concatenation, so every line
      that mentions a keyword contributes its stripped text, in line order. */
  lemma {:induction false} CandidateLinesAppend(a: seq<string>, b: seq<string>)
    ensures CandidateLines(a + b) == CandidateLines(a) + CandidateLines(b)
    decreases |b|
  {
    if b == [] {
      assert a + b == a;
    } else {
      var init := b[..|b| - 1];
      var last := b[|b| - 1];
      assert (a + b)[..|a + b| - 1] == a + init;
      assert (a + b)[|a + b| - 1] == last;
      CandidateLinesAppend(a, init);
    }
  }

  /** A single line is a candidate, stripped, exactly when it mentions a
      keyword. */
  lemma CandidateLinesSingle(line: string)
    ensures CandidateLines([line]) == if MentionsChampion(line) then [Strip(line)] else []
  {
    assert [line][..0] == [];
  }

  /** When every line mentions a keyword, candidate j is line j, stripped. */
  lemma {:induction false} CandidateLinesAllMention(lines: seq<string>)
    requires forall j :: 0 <= j < |lines| ==> MentionsChampion(lines[j])
    ensures |CandidateLines(lines)| == |lines|
    ensures forall j :: 0 <= j < |lines| ==> CandidateLines(lines)[j] == Strip(lines[j])
  {
    if lines != [] {
      var init := lines[..|lines| - 1];
      var last := lines[|lines| - 1];
      forall j | 0 <= j < |init| ensures MentionsChampion(init[j]) {
        assert init[j] == lines[j];
      }
      CandidateLinesAllMention(init);
      assert MentionsChampion(last);
      assert CandidateLines(lines) == CandidateLines(init) + [Strip(last)];
      forall j | 0 <= j < |init| ensures CandidateLines(lines)[j] == Strip(lines[j]) {
        assert init[j] == lines[j];
      }
    }
  }

  lemma {:induction false} CandidatesFromLines(lines: seq<string>)
    ensures |CandidateLines(lines)| <= |lines|
    ensures forall k :: 0 <= k < |CandidateLines(lines)| ==> StrippedMention(lines, CandidateLines(lines)[k])
  {
    if lines != [] {
      var init := lines[..|lines| - 1];
      var c := CandidateLines(lines);
      var ci := CandidateLines(init);
      var last := lines[|lines| - 1];
      CandidatesFromLines(init);
      assert c == ci + if MentionsChampion(last) then [Strip(last)] else [];
      forall k | 0 <= k < |c| ensures StrippedMention(lines, c[k]) {
        if k < |ci| {
          assert c[k] == ci[k];
          var j :| 0 <= j < |init| && MentionsChampion(init[j]) && ci[k] == Strip(init[j]);
          assert lines[j] == init[j];
        } else {
          assert c[k] == Strip(lines[|lines| - 1]);
        }
      }
    }
  }

  lemma {:induction false} NoCandidates(lines: seq<string>)
    ensures CandidateLines(lines) == [] <==> forall j :: 0 <= j < |lines| ==> !MentionsChampion(lines[j])
  {
    if lines != [] {
      var init := lines[..|lines| - 1];
      NoCandidates(init);
      if forall j :: 0 <= j < |lines| ==> !MentionsChampion(lines[j]) {
        assert forall j :: 0 <= j < |init| ==> init[j] == lines[j];
      }
      if CandidateLines(lines) == [] {
        forall j | 0 <= j < |lines| ensures !MentionsChampion(lines[j]) {
          if j < |init| {
            assert init[j] == lines[j];
          }
        }
      }
    }
  }

  function Lengths(lines: seq<string>): (ns: seq<int>)
    ensures |ns| == |lines| && forall k :: 0 <= k < |lines| ==> ns[k] == |lines[k]|
  {
    seq(|lines|, k requires 0 <= k < |lines| => |lines[k]|)
  }

  /** `max(candidate_lines, key=len)`: the first of the longest candidates. */
  function LongestCandidate(c: seq<string>): (k: nat)
    requires c != []
    ensures k < |c|
    ensures forall j :: 0 <= j < |c| ==> |c[j]| <= |c[k]|
    ensures forall j :: 0 <= j < k ==> |c[j]| < |c[k]|
  {
    var k := FirstMaxIndex(Lengths(c));
    assert Lengths(c)[k] == |c[k]|;
    k
  }

  /** The champion of the year: the longest candidate line cut down to a
      team name, or "Not found" when no line is a candidate. */
  function ChampionFromLines(lines: seq<string>): (r: string)
    ensures CandidateLines(lines) == [] ==> r == NotFound
    ensures r == NotFound || IsTeamName(r)
  {
    var c := CandidateLines(lines);
    if c == [] then NotFound else ExtractChampionTeam(c[LongestCandidate(c)])
  }

  /** An occurrence begins with the first character of what occurs. */
  lemma StartsAtFirst(s: string, i: nat, t: string)
    requires t != []
    ensures StartsAt(s, i, t) ==> s[i] == t[0]
  {
    if StartsAt(s, i, t) {
      assert s[i..i + |t|][0] == s[i];
    }
  }

  /** A line without "c" or "p" of either case mentions no keyword: every
      keyword contains "champion" or "pennant winner". */
  lemma NoKeywordWithoutCOrP(line: string)
    requires 'c' !in line && 'C' !in line && 'p' !in line && 'P' !in line
    ensures !MentionsChampion(line)
  {
    MentionsChampionIff(line);
    var low := Lower(line);
    forall i | 0 <= i < |low| ensures low[i] != 'c' && low[i] != 'p' {
      assert line[i] in line;
    }
    forall i ensures !StartsAt(low, i, "champion") && !StartsAt(low, i, "pennant winner") {
      StartsAtFirst(low, i, "champion");
      StartsAtFirst(low, i, "pennant winner");
    }
  }

  /** A page whose only line names no keyword has no champion. */
  lemma NoKeywordLineNotFound(line: string)
    requires !MentionsChampion(line)
    ensures ChampionFromLines([line]) == NotFound
  {
    CandidateLinesSingle(line);
  }

  /** The champion search of `get_yearly_stats`: collect the candidate
      lines, then extract the team from the longest. */
  method ChooseChampion(lines: seq<string>) returns (champion: string)
    ensures champion == ChampionFromLines(lines)
  {
    var candidates: seq<string> := [];
    var i := 0;
    while i < |lines|
      invariant 0 <= i <= |lines|
      invariant candidates == CandidateLines(lines[..i])
    {
      var lowered := Lower(lines[i]);
      var hit := false;
      var k := 0;
      while k < |ChampionKeywords| && !hit
        invariant 0 <= k <= |ChampionKeywords|
        invariant hit <==> exists m :: 0 <= m < k && Contains(lowered, ChampionKeywords[m])
      {
        hit := Contains(lowered, ChampionKeywords[k]);
        k := k + 1;
      }
      if hit {
        candidates := candidates + [Strip(lines[i])];
      }
      assert lines[..i + 1][..i] == lines[..i];
      i := i + 1;
    }
    assert lines[..i] == lines;
    if candidates != [] {
      var longest := LongestCandidate(candidates);
      champion := ExtractChampionTeam(candidates[longest]);
    } else {
      champion := NotFound;
    }
  }

  /** What `get_yearly_stats` returns for a year page. */
  datatype Stats = Stats(mostWins: string, mostLosses: string, champion: string)

  /** The leaders of a standings table: the first team with the most wins
      and the first with the most losses among its parsed rows; none when
      no row parses. */
  function LeadersOf(table: Table): (r: Option<(string, string)>)
    ensures r.None? <==> ParsedRows(DataRows(table)) == []
  {
    var teams := ParsedRows(DataRows(table));
    if teams == [] then None else Some((MostWins(teams).team, MostLosses(teams).team))
  }

  /** The leaders of the table that `get_yearly_stats` settles on. */
  function TableLeaders(tables: seq<Table>): (r: Option<(string, string)>)
    ensures SelectedTable(tables).None? ==> r.None?
    ensures SelectedTable(tables).Some? ==> r == LeadersOf(tables[SelectedTable(tables).value])
  {
    match SelectedTable(tables)
    case None => None
    case Some(i) => LeadersOf(tables[i])
  }

  /** What `get_yearly_stats` returns for a loaded page: stats exactly when
      the tables give leaders, with the champion of the text lines. */
  function YearlyStats(tables: seq<Table>, lines: seq<string>): (r: Option<Stats>)
    ensures r.Some? <==> TableLeaders(tables).Some?
    ensures r.Some? ==> (r.value.mostWins, r.value.mostLosses) == TableLeaders(tables).value
    ensures r.Some? ==> r.value.champion == NotFound || IsTeamName(r.value.champion)
  {
    match TableLeaders(tables)
    case None => None
    case Some((mostWins, mostLosses)) => Some(Stats(mostWins, mostLosses, ChampionFromLines(lines)))
  }

  /** `get_yearly_stats` after the page has loaded. */
  method GetYearlyStats(tables: seq<Table>, lines: seq<string>) returns (stats: Option<Stats>)
    ensures stats == YearlyStats(tables, lines)
  {
    var selected := SelectTable(tables);
    if selected.None? {
      return None;
    }
    var teams := ParseStandings(tables[selected.value]);
    if teams == [] {
      return None;
    }
    var mostWins := MostWins(teams);
    var mostLosses := MostLosses(teams);
    var champion := ChooseChampion(lines);
    stats := Some(Stats(mostWins.team, mostLosses.team, champion));
  }

  /** With no table mentioning standings, a page has stats exactly when one
      of its tables passes the structural test. */
  lemma FallbackDecides(tables: seq<Table>)
    requires forall j :: 0 <= j < |tables| ==> !KeywordTable(tables[j])
    ensures TableLeaders(tables).Some? <==> exists j :: 0 <= j < |tables| && StructuralTable(tables[j])
  {
    if exists j :: 0 <= j < |tables| && StructuralTable(tables[j]) {
      StructuralTableParses(tables[SelectedTable(tables).value]);
    }
  }

  /** A page has stats exactly when a table is chosen and at least one of
      the chosen table's data rows parses. */
  lemma YearlyStatsIff(tables: seq<Table>, lines: seq<string>)
    ensures YearlyStats(tables, lines).Some? <==>
      SelectedTable(tables).Some? &&
      exists k :: 0 <= k < |DataRows(tables[SelectedTable(tables).value])| &&
        ParsableRow(DataRows(tables[SelectedTable(tables).value])[k])
  {
    if SelectedTable(tables).Some? {
      ParsedRowsNonEmpty(DataRows(tables[SelectedTable(tables).value]));
    }
  }

  /** The first table mentioning standings decides: when one of its data
      rows parses, its leaders are the page's, whatever the other tables
      hold. */
  lemma KeywordTableDecides(tables: seq<Table>, i: nat)
    requires i < |tables| && KeywordTable(tables[i])
    requires forall j :: 0 <= j < i ==> !KeywordTable(tables[j])
    requires exists k :: 0 <= k < |DataRows(tables[i])| && ParsableRow(DataRows(tables[i])[k])
    ensures TableLeaders(tables).Some? && TableLeaders(tables) == LeadersOf(tables[i])
  {
    ParsedRowsNonEmpty(DataRows(tables[i]));
  }

  /** The first table mentioning standings is final: when none of its data
      rows parses, the page has no stats, whatever the other tables hold. */
  lemma KeywordTableShadowsFallback(tables: seq<Table>, i: nat)
    requires i < |tables| && KeywordTable(tables[i])
    requires forall j :: 0 <= j < i ==> !KeywordTable(tables[j])
    requires forall k :: 0 <= k < |DataRows(tables[i])| ==> !ParsableRow(DataRows(tables[i])[k])
    ensures TableLeaders(tables) == None
  {
    ParsedRowsNonEmpty(DataRows(tables[i]));
  }

  /** The leaders are rows of the table: the first row with the most wins
      and the first with the most losses. */
  lemma LeadersOfSpec(table: Table)
    requires LeadersOf(table).Some?
    ensures exists k :: 0 <= k < |ParsedRows(DataRows(table))| &&
                 IsMostWins(ParsedRows(DataRows(table)), k) && ParsedRows(DataRows(table))[k].team == LeadersOf(table).value.0
    ensures exists k :: 0 <= k < |ParsedRows(DataRows(table))| &&
                 IsMostLosses(ParsedRows(DataRows(table)), k) && ParsedRows(DataRows(table))[k].team == LeadersOf(table).value.1
  {
    var teams := ParsedRows(DataRows(table));
    var w := MostWins(teams);
    var l := MostLosses(teams);
    var kw :| 0 <= kw < |teams| && teams[kw] == w && forall j :: 0 <= j < kw ==> teams[j].wins < w.wins;
    var kl :| 0 <= kl < |teams| && teams[kl] == l && forall j :: 0 <= j < kl ==> teams[j].losses < l.losses;
    assert IsMostWins(teams, kw);
    assert IsMostLosses(teams, kl);
  }
}
