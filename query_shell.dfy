/**
 * The query shell: how one input line is classified into a command, and
 * how `print_rows` lays out a result table.
 */
module QueryShell {
  import opened Wrappers
  import opened Text

  /** A query the shell runs, with its parameters. */
  datatype Query =
    | TeamsInYear(year: nat)
    | EventsInYear(year: nat)
    | JoinYear(year: nat)
    | FilterTeam(year: nat, sub: string)

  /** What one input line does. */
  datatype Command =
    | Exit
    | Help
    | Run(query: Query)
    | Usage(message: string)
    | Unknown

  datatype Param = IntParam(n: int) | TextParam(s: string)

  const TeamsSql: string := "SELECT team, wins, losses FROM team_stats WHERE year = ?"
  const EventsSql: string := "SELECT section, content FROM event_data WHERE year = ?"
  const JoinSql: string :=
    "\n            SELECT ts.team, ts.wins, ts.losses, ed.section, ed.content\n" +
    "            FROM team_stats ts\n" +
    "            LEFT JOIN event_data ed ON ts.year = ed.year\n" +
    "            WHERE ts.year = ?\n" +
    "            ORDER BY ts.team\n" +
    "            "
  const FilterTeamSql: string := "SELECT team, wins, losses FROM team_stats WHERE year = ? AND LOWER(team) LIKE ?"

  const TeamsUsage: string := "Invalid input. Usage: teams YEAR"
  const EventsUsage: string := "Invalid input. Usage: events YEAR"
  const JoinUsage: string := "Invalid input. Usage: join YEAR"
  const FilterTeamUsage: string := "Invalid input. Usage: filterteam YEAR TEAM_SUBSTRING"

  /** The parameters bound to the query's placeholders: the year, and for
      a team filter the LIKE pattern `%substring%`. */
  function Params(q: Query): (ps: seq<Param>)
    ensures |ps| >= 1 && ps[0] == IntParam(q.year)
    ensures q.FilterTeam? <==> |ps| == 2
    ensures q.FilterTeam? ==> ps[1] == TextParam("%" + q.sub + "%")
  {
    match q
    case FilterTeam(year, sub) => [IntParam(year), TextParam("%" + sub + "%")]
    case _ => [IntParam(q.year)]
  }

  /** The statement a query runs. */
  function Sql(q: Query): string {
    match q
    case TeamsInYear(_) => TeamsSql
    case EventsInYear(_) => EventsSql
    case JoinYear(_) => JoinSql
    case FilterTeam(_, _) => FilterTeamSql
  }

  /** A one-year command: exactly two words, the second all digits. */
  function YearArgument(input: string): (y: Option<nat>)
    ensures y.Some? <==> |Words(input)| == 2 && IsDigits(Words(input)[1])
    ensures y.Some? ==> y.value == DigitsValue(Words(input)[1])
  {
    var parts := Words(input);
    if |parts| != 2 || !IsDigits(parts[1]) then None else Some(DigitsValue(parts[1]))
  }

  /** The branches of the shell's loop for one input line. */
  function Classify(raw: string): (c: Command)
    ensures c == Exit <==> Lower(Strip(raw)) == "exit" || Lower(Strip(raw)) == "quit"
    ensures c == Help <==> Lower(Strip(raw)) == "help"
  {
    var input := Strip(raw);
    var lowered := Lower(input);
    if lowered == "exit" || lowered == "quit" then Exit
    else if lowered == "help" then Help
    else if StartsWith(input, "teams ") then
      match YearArgument(input)
      case None => Usage(TeamsUsage)
      case Some(year) => Run(TeamsInYear(year))
    else if StartsWith(input, "events ") then
      match YearArgument(input)
      case None => Usage(EventsUsage)
      case Some(year) => Run(EventsInYear(year))
    else if StartsWith(input, "join ") then
      match YearArgument(input)
      case None => Usage(JoinUsage)
      case Some(year) => Run(JoinYear(year))
    else if StartsWith(input, "filterteam ") then FilterCommand(input)
    else Unknown
  }

  /** The `filterteam` branch: at most two splits, three parts, an
      all-digit year; the substring is the lowered remainder. */
  function FilterCommand(input: string): (c: Command)
    ensures c.Run? <==> |SplitMax(input, 2)| == 3 && IsDigits(SplitMax(input, 2)[1])
    ensures !c.Run? ==> c == Usage(FilterTeamUsage)
  {
    var parts := SplitMax(input, 2);
    if |parts| != 3 || !IsDigits(parts[1]) then Usage(FilterTeamUsage)
    else Run(FilterTeam(DigitsValue(parts[1]), Lower(parts[2])))
  }

  /** The four command prefixes, in the order the shell tests them. */
  predicate HasCommandPrefix(input: string) {
    StartsWith(input, "teams ") || StartsWith(input, "events ") || StartsWith(input, "join ") ||
    StartsWith(input, "filterteam ")
  }

  /** A line is an unknown command exactly when it is none of exit, quit,
      help in any case, and carries none of the command prefixes. */
  lemma UnknownIff(raw: string)
    ensures Classify(raw) == Unknown <==>
      var input := Strip(raw);
      Lower(input) != "exit" && Lower(input) != "quit" && Lower(input) != "help" && !HasCommandPrefix(input)
  {
  }

  /** A usage message is printed, or a query run, only for input that
      carries one of the command prefixes. */
  lemma UsageOnlyForPrefixes(raw: string)
    ensures Classify(raw).Usage? || Classify(raw).Run? ==> HasCommandPrefix(Strip(raw))
  {
  }

  /** A query runs only with the arguments the shell read: for a one-year
      command, the second of exactly two words, all digits; for the team
      filter, the second of three parts and the lowered remainder. */
  lemma RunParameters(raw: string)
    requires Classify(raw).Run?
    ensures var input := Strip(raw);
      var q := Classify(raw).query;
      (q.TeamsInYear? ==> StartsWith(input, "teams ")) &&
      (q.EventsInYear? ==> StartsWith(input, "events ")) &&
      (q.JoinYear? ==> StartsWith(input, "join ")) &&
      (!q.FilterTeam? ==> |Words(input)| == 2 && IsDigits(Words(input)[1]) && q.year == DigitsValue(Words(input)[1])) &&
      (q.FilterTeam? ==>
         StartsWith(input, "filterteam ") && |SplitMax(input, 2)| == 3 &&
         IsDigits(SplitMax(input, 2)[1]) && q.year == DigitsValue(SplitMax(input, 2)[1]) &&
         q.sub == Lower(SplitMax(input, 2)[2]))
  {
  }

  /** The prefixes are case-sensitive: a line of more than four characters
      that starts with a capital letter is never a command. */
  lemma CapitalisedIsUnknown(raw: string)
    requires |Strip(raw)| > 4 && 'A' <= Strip(raw)[0] <= 'Z'
    ensures Classify(raw) == Unknown
  {
    var input := Strip(raw);
    NotAKeyword(input);
    NotPrefix(input, "teams ");
    NotPrefix(input, "events ");
    NotPrefix(input, "join ");
    NotPrefix(input, "filterteam ");
  }

  /** A command word with nothing after it is not a command: the prefixes
      include the separating space. */
  lemma CommandWordAloneIsUnknown(raw: string)
    requires Strip(raw) in {"teams", "events", "join", "filterteam"}
    ensures Classify(raw) == Unknown
  {
    var input := Strip(raw);
    assert |Lower(input)| == |input| && Lower(input)[0] == input[0];
    assert !StartsWith(input, "teams ") && !StartsWith(input, "events ");
    assert !StartsWith(input, "join ") && !StartsWith(input, "filterteam ");
  }

  /** The decimal numeral of `n`, as `str(n)` writes it. */
  function Decimal(n: nat): (d: string)
    ensures IsDigits(d)
    ensures DigitsValue(d) == n
    ensures d[0] != ' '
    decreases n
  {
    var last := ['0' + (n % 10) as char];
    if n < 10 then last
    else
      var d := Decimal(n / 10) + last;
      assert d[..|d| - 1] == Decimal(n / 10);
      d
  }

  /** A string the shell reads back as a team filter substring: non-empty,
      no whitespace at either end, already lower case. */
  predicate FilterText(sub: string) {
    sub != [] && !IsSpace(sub[0]) && !IsSpace(sub[|sub| - 1]) && Lower(sub) == sub
  }

  /** The input line that asks for a query. */
  function CommandLine(q: Query): string {
    match q
    case TeamsInYear(year) => "teams " + Decimal(year)
    case EventsInYear(year) => "events " + Decimal(year)
    case JoinYear(year) => "join " + Decimal(year)
    case FilterTeam(year, sub) => "filterteam " + Decimal(year) + " " + sub
  }

  lemma {:induction false} SpanNonSpaceWord(w: string, t: string)
    requires IsWord(w) && (t == [] || IsSpace(t[0]))
    ensures SpanNonSpace(w + t) == |w|
    decreases |w|
  {
    if |w| > 1 {
      SpanNonSpaceWord(w[1..], t);
      assert (w + t)[1..] == w[1..] + t;
    } else {
      assert (w + t)[1..] == t;
    }
  }

  lemma WordsAfterSpace(s: string)
    ensures Words(" " + s) == Words(s)
  {
    assert TrimLeft(" " + s) == TrimLeft(s) by {
      assert (" " + s)[1..] == s;
    }
  }

  /** Splitting a word followed by a space and more text splits off that
      word. */
  lemma WordsCons(w: string, rest: string)
    requires IsWord(w)
    ensures Words(w + " " + rest) == [w] + Words(rest)
  {
    var s := w + (" " + rest);
    assert s == w + " " + rest;
    assert LeadingSpace(s) == 0 by {
      assert s[0] == w[0];
    }
    assert TrimLeft(s) == s;
    SpanNonSpaceWord(w, " " + rest);
    assert s[..|w|] == w;
    assert s[|w|..] == " " + rest;
    assert Words(s) == [w] + Words(" " + rest);
    WordsAfterSpace(rest);
  }

  lemma WordsSingle(w: string)
    requires IsWord(w)
    ensures Words(w) == [w]
  {
    SpanNonSpaceWord(w, []);
    assert w + [] == w;
    assert TrimLeft(w) == w;
    assert w[|w|..] == [];
  }

  /** A text that starts with a non-space splits off its first run of
      non-space characters. */
  lemma SplitMaxStep(s: string, limit: nat)
    requires s != [] && !IsSpace(s[0]) && limit > 0
    ensures SplitMax(s, limit) == [s[..SpanNonSpace(s)]] + SplitMax(s[SpanNonSpace(s)..], limit - 1)
  {
    assert TrimLeft(s) == s;
  }

  lemma SplitMaxAfterSpace(s: string, limit: nat)
    ensures SplitMax(" " + s, limit) == SplitMax(s, limit)
  {
    assert TrimLeft(" " + s) == TrimLeft(s) by {
      assert (" " + s)[1..] == s;
    }
  }

  lemma SplitMaxCons(w: string, rest: string, limit: nat)
    requires IsWord(w) && limit > 0
    ensures SplitMax(w + " " + rest, limit) == [w] + SplitMax(rest, limit - 1)
  {
    AppendAssociates(w, " ", rest);
    SplitMaxWord(w + (" " + rest), w, rest, limit);
  }

  lemma AppendAssociates(a: string, b: string, c: string)
    ensures a + b + c == a + (b + c)
  {
  }

  /** A text made of a word, a space and more text splits off that word. */
  lemma SplitMaxWord(s: string, w: string, rest: string, limit: nat)
    requires IsWord(w) && s == w + (" " + rest) && limit > 0
    ensures SplitMax(s, limit) == [w] + SplitMax(rest, limit - 1)
  {
    var tail := " " + rest;
    assert s[0] == w[0];
    SpanNonSpaceWord(w, tail);
    assert s[..|w|] == w;
    assert s[|w|..] == tail;
    SplitMaxStep(s, limit);
    assert SplitMax(s, limit) == [w] + SplitMax(tail, limit - 1);
    SplitMaxAfterSpace(rest, limit - 1);
  }

  lemma SplitMaxLast(sub: string)
    requires sub != [] && !IsSpace(sub[0])
    ensures SplitMax(sub, 0) == [sub]
  {
    assert TrimLeft(sub) == sub;
  }

  lemma DecimalIsWord(n: nat)
    ensures IsWord(Decimal(n))
  {
    var d := Decimal(n);
    forall k | 0 <= k < |d| ensures !IsSpace(d[k]) {
      assert IsDigit(d[k]);
    }
  }

  lemma YearCommandLine(word: string, n: nat)
    requires IsWord(word)
    ensures Words(word + " " + Decimal(n)) == [word, Decimal(n)]
    ensures Strip(word + " " + Decimal(n)) == word + " " + Decimal(n)
  {
    DecimalIsWord(n);
    WordsCons(word, Decimal(n));
    WordsSingle(Decimal(n));
    var line := word + " " + Decimal(n);
    assert line[|line| - 1] == Decimal(n)[|Decimal(n)| - 1];
    assert IsDigit(Decimal(n)[|Decimal(n)| - 1]);
    StripUnchanged(line);
  }

  /** A line longer than four characters is none of exit, quit and help. */
  lemma NotAKeyword(line: string)
    requires |line| > 4
    ensures Lower(line) != "exit" && Lower(line) != "quit" && Lower(line) != "help"
  {
    assert |Lower(line)| == |line|;
  }

  lemma ClassifyYearLine(word: string, n: nat)
    requires IsWord(word)
    ensures Strip(word + " " + Decimal(n)) == word + " " + Decimal(n)
    ensures YearArgument(word + " " + Decimal(n)) == Some(n)
  {
    YearCommandLine(word, n);
  }

  lemma PrefixOf(w: string, rest: string)
    ensures StartsWith(w + rest, w)
  {
    assert (w + rest)[..|w|] == w;
  }

  lemma NotPrefix(line: string, p: string)
    requires line != [] && p != [] && line[0] != p[0]
    ensures !StartsWith(line, p)
  {
  }

  lemma ClassifyTeamsLine(year: nat)
    ensures Classify(CommandLine(TeamsInYear(year))) == Run(TeamsInYear(year))
  {
    var line := CommandLine(TeamsInYear(year));
    assert line == "teams" + " " + Decimal(year);
    ClassifyYearLine("teams", year);
    PrefixOf("teams ", Decimal(year));
    NotAKeyword(line);
  }

  lemma ClassifyEventsLine(year: nat)
    ensures Classify(CommandLine(EventsInYear(year))) == Run(EventsInYear(year))
  {
    var line := CommandLine(EventsInYear(year));
    assert line == "events" + " " + Decimal(year);
    ClassifyYearLine("events", year);
    PrefixOf("events ", Decimal(year));
    NotPrefix(line, "teams ");
    NotAKeyword(line);
  }

  lemma ClassifyJoinLine(year: nat)
    ensures Classify(CommandLine(JoinYear(year))) == Run(JoinYear(year))
  {
    var line := CommandLine(JoinYear(year));
    assert line == "join" + " " + Decimal(year);
    ClassifyYearLine("join", year);
    PrefixOf("join ", Decimal(year));
    NotPrefix(line, "teams ");
    NotPrefix(line, "events ");
    NotAKeyword(line);
  }

  lemma SplitThree(w: string, d: string, sub: string)
    requires IsWord(w) && IsWord(d) && sub != [] && !IsSpace(sub[0])
    ensures SplitMax(w + " " + (d + " " + sub), 2) == [w, d, sub]
  {
    var rest := d + " " + sub;
    SplitMaxCons(w, rest, 2);
    SplitMaxCons(d, sub, 1);
    SplitMaxLast(sub);
    calc {
      SplitMax(w + " " + rest, 2);
      [w] + SplitMax(rest, 1);
      [w] + ([d] + SplitMax(sub, 0));
      [w] + ([d] + [sub]);
    }
  }

  lemma FilterLineSplit(year: nat, sub: string)
    requires FilterText(sub)
    ensures SplitMax(CommandLine(FilterTeam(year, sub)), 2) == ["filterteam", Decimal(year), sub]
  {
    var d := Decimal(year);
    DecimalIsWord(year);
    assert IsWord("filterteam");
    assert CommandLine(FilterTeam(year, sub)) == "filterteam" + " " + (d + " " + sub);
    SplitThree("filterteam", d, sub);
  }

  lemma FilterLineStripped(year: nat, sub: string)
    requires FilterText(sub)
    ensures Strip(CommandLine(FilterTeam(year, sub))) == CommandLine(FilterTeam(year, sub))
  {
    var line := CommandLine(FilterTeam(year, sub));
    assert line[0] == 'f' && line[|line| - 1] == sub[|sub| - 1];
    StripUnchanged(line);
  }

  lemma FilterCommandLine(year: nat, sub: string)
    requires FilterText(sub)
    ensures FilterCommand(CommandLine(FilterTeam(year, sub))) == Run(FilterTeam(year, sub))
  {
    FilterLineSplit(year, sub);
  }

  lemma ClassifyFilterLine(year: nat, sub: string)
    requires FilterText(sub)
    ensures Classify(CommandLine(FilterTeam(year, sub))) == Run(FilterTeam(year, sub))
  {
    FilterLineShape(year, sub);
    ClassifyFilterPrefix(CommandLine(FilterTeam(year, sub)));
    FilterCommandLine(year, sub);
  }

  lemma FilterLineShape(year: nat, sub: string)
    requires FilterText(sub)
    ensures var line := CommandLine(FilterTeam(year, sub));
      Strip(line) == line && |line| > 4 && StartsWith(line, "filterteam ") &&
      !StartsWith(line, "teams ") && !StartsWith(line, "events ") && !StartsWith(line, "join ")
  {
    var line := CommandLine(FilterTeam(year, sub));
    FilterLineStripped(year, sub);
    PrefixOf("filterteam ", Decimal(year) + " " + sub);
    assert line == "filterteam " + (Decimal(year) + " " + sub);
    NotPrefix(line, "teams ");
    NotPrefix(line, "events ");
    NotPrefix(line, "join ");
  }

  /** A stripped line whose only command prefix is `filterteam ` goes to the
      team filter branch. */
  lemma ClassifyFilterPrefix(line: string)
    requires Strip(line) == line && |line| > 4
    requires !StartsWith(line, "teams ") && !StartsWith(line, "events ") && !StartsWith(line, "join ")
    requires StartsWith(line, "filterteam ")
    ensures Classify(line) == FilterCommand(line)
  {
    NotAKeyword(line);
  }

  /** The round trip: the command line written for a query is read back as
      that query. */
  lemma ClassifyCommandLine(q: Query)
    requires q.FilterTeam? ==> FilterText(q.sub)
    ensures Classify(CommandLine(q)) == Run(q)
  {
    match q
    case TeamsInYear(year) => ClassifyTeamsLine(year);
    case EventsInYear(year) => ClassifyEventsLine(year);
    case JoinYear(year) => ClassifyJoinLine(year);
    case FilterTeam(year, sub) => ClassifyFilterLine(year, sub);
  }

  // ---- print_rows ----

  /** The number of cells of the shortest row: `zip` stops there. */
  function ColumnCount(table: seq<seq<string>>): (n: nat)
    requires table != []
    ensures forall k :: 0 <= k < |table| ==> n <= |table[k]|
    ensures exists k :: 0 <= k < |table| && n == |table[k]|
  {
    if |table| == 1 then |table[0]|
    else
      var m := ColumnCount(table[..|table| - 1]);
      assert forall k :: 0 <= k < |table| - 1 ==> table[..|table| - 1][k] == table[k];
      if |table[|table| - 1]| < m then |table[|table| - 1]| else m
  }

  /** The longest cell of column `i`. */
  function ColumnWidth(table: seq<seq<string>>, i: nat): (w: nat)
    requires table != [] && forall k :: 0 <= k < |table| ==> i < |table[k]|
    ensures forall k :: 0 <= k < |table| ==> |table[k][i]| <= w
    ensures exists k :: 0 <= k < |table| && w == |table[k][i]|
  {
    if |table| == 1 then |table[0][i]|
    else
      var m := ColumnWidth(table[..|table| - 1], i);
      assert forall k :: 0 <= k < |table| - 1 ==> table[..|table| - 1][k] == table[k];
      if |table[|table| - 1][i]| > m then |table[|table| - 1][i]| else m
  }

  /** `col_widths`: one width per column of the header row and the rows. */
  function ColumnWidths(headers: seq<string>, rows: seq<seq<string>>): (ws: seq<nat>)
    ensures |ws| == ColumnCount([headers] + rows)
    ensures |ws| <= |headers| && forall k :: 0 <= k < |rows| ==> |ws| <= |rows[k]|
    ensures forall i :: 0 <= i < |ws| ==> ws[i] == ColumnWidth([headers] + rows, i)
  {
    var table := [headers] + rows;
    var n := ColumnCount(table);
    ColumnCountBounds(headers, rows);
    seq(n, i requires 0 <= i < n => ColumnWidth(table, i))
  }

  /** No row, the header included, is shorter than the column count. */
  lemma ColumnCountBounds(headers: seq<string>, rows: seq<seq<string>>)
    ensures ColumnCount([headers] + rows) <= |headers|
    ensures forall k :: 0 <= k < |rows| ==> ColumnCount([headers] + rows) <= |rows[k]|
  {
    var table := [headers] + rows;
    assert table[0] == headers;
    forall k | 0 <= k < |rows| ensures ColumnCount(table) <= |rows[k]| {
      assert table[k + 1] == rows[k];
    }
  }

  /** Each width is the length of the longest cell of its column, header
      included. */
  lemma ColumnWidthsSpec(headers: seq<string>, rows: seq<seq<string>>)
    ensures var ws := ColumnWidths(headers, rows);
      forall i :: 0 <= i < |ws| ==>
        |headers[i]| <= ws[i] && (forall k :: 0 <= k < |rows| ==> |rows[k][i]| <= ws[i]) &&
        (ws[i] == |headers[i]| || exists k :: 0 <= k < |rows| && ws[i] == |rows[k][i]|)
  {
    var table := [headers] + rows;
    var ws := ColumnWidths(headers, rows);
    assert table[0] == headers;
    assert forall k :: 0 <= k < |rows| ==> table[k + 1] == rows[k];
    forall i | 0 <= i < |ws|
      ensures |headers[i]| <= ws[i] && (forall k :: 0 <= k < |rows| ==> |rows[k][i]| <= ws[i]) &&
        (ws[i] == |headers[i]| || exists k :: 0 <= k < |rows| && ws[i] == |rows[k][i]|)
    {
      var m :| 0 <= m < |table| && ws[i] == |table[m][i]|;
      if m > 0 {
        assert ws[i] == |rows[m - 1][i]|;
      }
    }
  }

  function Sum(ws: seq<nat>): nat {
    if ws == [] then 0 else Sum(ws[..|ws| - 1]) + ws[|ws| - 1]
  }

  /** `"{:<w}".format(s)`: `s` padded with spaces on the right to width `w`. */
  function PadRight(s: string, w: nat): (r: string)
    ensures |r| == if |s| < w then w else |s|
    ensures r[..|s|] == s && forall k :: |s| <= k < |r| ==> r[k] == ' '
  {
    if |s| < w then s + seq(w - |s|, _ => ' ') else s
  }

  /** Cells joined by " | ". */
  function JoinCells(cells: seq<string>): string {
    if cells == [] then []
    else if |cells| == 1 then cells[0]
    else JoinCells(cells[..|cells| - 1]) + " | " + cells[|cells| - 1]
  }

  /** `row_format.format(*row)`: each of the first `|ws|` cells padded to
      its column's width, joined by " | "; cells past the last column are
      ignored. */
  function FormatRow(row: seq<string>, ws: seq<nat>): string
    requires |ws| <= |row|
  {
    JoinCells(seq(|ws|, i requires 0 <= i < |ws| => PadRight(row[i], ws[i])))
  }

  /** The length of the dashed line; Python repeats a string a negative
      number of times as the empty string. */
  function SeparatorLength(headers: seq<string>, ws: seq<nat>): nat {
    var n := Sum(ws) + 3 * (|headers| - 1);
    if n < 0 then 0 else n
  }

  function Dashes(n: nat): (r: string)
    ensures |r| == n && forall k :: 0 <= k < n ==> r[k] == '-'
  {
    seq(n, _ => '-')
  }

  /** The lines printed for column widths `ws`: the header line, the
      dashed line and one line per row. */
  function Layout(headers: seq<string>, rows: seq<seq<string>>, ws: seq<nat>): seq<string>
    requires |ws| <= |headers| && forall k :: 0 <= k < |rows| ==> |ws| <= |rows[k]|
  {
    [FormatRow(headers, ws), Dashes(SeparatorLength(headers, ws))] +
      seq(|rows|, k requires 0 <= k < |rows| => FormatRow(rows[k], ws))
  }

  /** Everything `print_rows` prints. */
  function PrintedLines(headers: seq<string>, rows: seq<seq<string>>): seq<string> {
    Layout(headers, rows, ColumnWidths(headers, rows))
  }

  lemma {:induction false} JoinCellsLength(cells: seq<string>, ws: seq<nat>)
    requires |cells| == |ws| > 0
    requires forall i :: 0 <= i < |ws| ==> |cells[i]| == ws[i]
    ensures |JoinCells(cells)| == Sum(ws) + 3 * (|ws| - 1)
  {
    if |cells| > 1 {
      JoinCellsLength(cells[..|cells| - 1], ws[..|ws| - 1]);
    } else {
      assert ws[..0] == [];
    }
  }

  /** A row whose cells all fit their columns is formatted to exactly the
      width of the dashed line. */
  lemma FormatRowLength(headers: seq<string>, row: seq<string>, ws: seq<nat>)
    requires |ws| == |headers| > 0 && |ws| <= |row|
    requires forall i :: 0 <= i < |ws| ==> |row[i]| <= ws[i]
    ensures |FormatRow(row, ws)| == SeparatorLength(headers, ws)
  {
    var cells := seq(|ws|, i requires 0 <= i < |ws| => PadRight(row[i], ws[i]));
    JoinCellsLength(cells, ws);
  }

  /** With rows as wide as the header, there is one width per header cell
      and every cell fits its column. */
  lemma WidthsFit(headers: seq<string>, rows: seq<seq<string>>)
    requires forall k :: 0 <= k < |rows| ==> |rows[k]| == |headers|
    ensures |ColumnWidths(headers, rows)| == |headers|
    ensures forall i :: 0 <= i < |headers| ==> |headers[i]| <= ColumnWidths(headers, rows)[i]
    ensures forall k, i :: 0 <= k < |rows| && 0 <= i < |headers| ==> |rows[k][i]| <= ColumnWidths(headers, rows)[i]
  {
    var table := [headers] + rows;
    ColumnWidthsSpec(headers, rows);
    var k :| 0 <= k < |table| && ColumnCount(table) == |table[k]|;
    if k > 0 {
      assert table[k] == rows[k - 1];
    }
  }

  /** With a non-empty header and rows as wide as it, every line
      `print_rows` prints is exactly as long as the dashed line. */
  lemma PrintedLinesAligned(headers: seq<string>, rows: seq<seq<string>>)
    requires headers != []
    requires forall k :: 0 <= k < |rows| ==> |rows[k]| == |headers|
    ensures |ColumnWidths(headers, rows)| == |headers|
    ensures |PrintedLines(headers, rows)| == |rows| + 2
    ensures forall j :: 0 <= j < |PrintedLines(headers, rows)| ==>
      |PrintedLines(headers, rows)[j]| == SeparatorLength(headers, ColumnWidths(headers, rows))
  {
    WidthsFit(headers, rows);
    var lines := PrintedLines(headers, rows);
    forall j | 0 <= j < |lines| ensures |lines[j]| == SeparatorLength(headers, ColumnWidths(headers, rows)) {
      LineAligned(headers, rows, j);
    }
  }

  lemma LineAligned(headers: seq<string>, rows: seq<seq<string>>, j: nat)
    requires headers != []
    requires forall k :: 0 <= k < |rows| ==> |rows[k]| == |headers|
    requires j < |rows| + 2
    ensures |PrintedLines(headers, rows)[j]| == SeparatorLength(headers, ColumnWidths(headers, rows))
  {
    var ws := ColumnWidths(headers, rows);
    RowFits(headers, rows, j);
    LayoutLine(headers, rows, ws, j);
    if j == 0 {
      FormatRowLength(headers, headers, ws);
    } else if j >= 2 {
      FormatRowLength(headers, rows[j - 2], ws);
    }
  }

  /** The lines of the layout one by one. */
  lemma LayoutLine(headers: seq<string>, rows: seq<seq<string>>, ws: seq<nat>, j: nat)
    requires |ws| <= |headers| && forall k :: 0 <= k < |rows| ==> |ws| <= |rows[k]|
    requires j < |rows| + 2
    ensures Layout(headers, rows, ws)[j] ==
      if j == 0 then FormatRow(headers, ws)
      else if j == 1 then Dashes(SeparatorLength(headers, ws))
      else FormatRow(rows[j - 2], ws)
  {
    var head := [FormatRow(headers, ws), Dashes(SeparatorLength(headers, ws))];
    var body := seq(|rows|, k requires 0 <= k < |rows| => FormatRow(rows[k], ws));
    assert Layout(headers, rows, ws) == head + body;
    if j >= 2 {
      assert (head + body)[j] == body[j - 2];
    }
  }

  /** Line `j` of `print_rows` is made of cells that fit their columns:
      the header's for the first line, row `j - 2`'s for a row line. */
  lemma RowFits(headers: seq<string>, rows: seq<seq<string>>, j: nat)
    requires forall k :: 0 <= k < |rows| ==> |rows[k]| == |headers|
    requires j < |rows| + 2
    ensures |ColumnWidths(headers, rows)| == |headers|
    ensures j == 0 ==> forall i :: 0 <= i < |headers| ==> |headers[i]| <= ColumnWidths(headers, rows)[i]
    ensures j >= 2 ==> forall i :: 0 <= i < |headers| ==> |rows[j - 2][i]| <= ColumnWidths(headers, rows)[i]
  {
    WidthsFit(headers, rows);
  }

  /** `print_rows`, with the printed lines as its result. */
  method PrintRows(rows: seq<seq<string>>, headers: seq<string>) returns (lines: seq<string>)
    ensures lines == PrintedLines(headers, rows)
  {
    var colWidths := ColumnWidths(headers, rows);
    var printed: seq<string> := [];
    var k := 0;
    while k < |rows|
      invariant 0 <= k <= |rows|
      invariant printed == seq(k, j requires 0 <= j < k => FormatRow(rows[j], colWidths))
    {
      printed := printed + [FormatRow(rows[k], colWidths)];
      k := k + 1;
    }
    lines := [FormatRow(headers, colWidths), Dashes(SeparatorLength(headers, colWidths))] + printed;
    assert lines == Layout(headers, rows, colWidths);
  }
}
