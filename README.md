# Baseball almanac scraper and query shell, modelled in Dafny

The scraper (`web_scraping.py`) visits the year pages of a baseball almanac.
It produces a season record (year, team with the most wins, team with the
most losses, champion) for each year up to 2025 whose page yields stats, and
the narrative rows of every visited page. The query shell (`query_baseball_db.py`) reads one command per line and
prints query results as an aligned text table.

This project models the logic of both programs once the browser, the HTML
parser, the CSV writer and SQLite are taken away:

- `Text` — the Python string operations the code relies on, over ASCII:
  `strip`, `lower`, `in`, `startswith`/`endswith`, `int()` on a stripped cell,
  `isdigit`, `split()` and `split(maxsplit=...)`.
- `Champion` — `clean_champion_text` and `extract_champion_team`. The two
  regular expressions are modelled by a matcher written for exactly these two
  patterns. It follows their backtracking order: leftmost start, keyword
  alternatives in order, `ship` tried before it is skipped, the shortest lazy
  run first, and at each run length the 21 nickname suffixes in list order.
- `YearIndex` — the href filter of `get_year_links`, the year it reads from
  the last path segment, and the stable sort by year.
- `Standings` — choosing the standings table (keyword pass, then the
  structural fallback), parsing its rows, and the first-maximum leaders.
- `Season` — the champion-line choice and the result of `get_yearly_stats`.
- `Content` — the block filter of `get_yearly_content`.
- `Scraper` — the loop of `main`: stop at the first year after 2025, keep
  the stats of each year that has some, and collect the narrative rows. Page
  loads are function parameters that return `None` when a load fails.
- `QueryShell` — the per-line command classifier of the shell's `main` and
  the width arithmetic of `print_rows`.

Each loop of the source is a method proved equal to a specification function.
The properties are lemmas and `ensures` clauses about those functions.

Some behaviours of the code that a reader might not expect, all kept in the
model:

- **Table selection.** The keyword pass takes the first table in document
  order whose caption *or* whole text mentions "standings". A table whose
  text mentions standings therefore wins over a later table with a
  "standings" caption; selection is not caption-first across tables.
- **Negative counts.** Win and loss counts may be negative, because `int()`
  accepts a sign.
- **No fallback after a keyword table.** Once a keyword table is chosen, the
  structural fallback is never consulted, even when that table parses to
  nothing (`Season.KeywordTableShadowsFallback`).
- **Empty team names.** A data row whose first cell has no text still
  parses when its second and third cells are integers. Its team is the empty
  string, and that row can be the win or the loss leader.

## Model

| member | source | states |
|---|---|---|
| Text.Strip | web_scraping.py:18 | `str.strip()`: empty exactly for all-whitespace text; otherwise no whitespace at either end, and the result is the text between the leading and the trailing whitespace |
| Text.ParseInt | web_scraping.py:148-149 | `int()` on a stripped cell succeeds exactly for digits with an optional leading sign |
| Text.DigitsValueBound | web_scraping.py:79-81 | a run of n digits denotes a number below 10^n |
| Text.Words | query_baseball_db.py:62 | `split()` yields only non-empty words without whitespace |
| Text.SplitMax | query_baseball_db.py:92 | `split(maxsplit=limit)` yields at most limit+1 parts, each non-empty and not starting with whitespace |
| Champion.CleanChampionTextSpec | web_scraping.py:15-28 | None, empty or whitespace-only input gives "Not found"; otherwise the result is a non-empty prefix of the stripped text with no surrounding whitespace. When the text starts with a letter, the result is the leading letters-and-whitespace run minus its trailing whitespace; otherwise it is the whole stripped text |
| Champion.SuffixesAreNicknames | web_scraping.py:31-37 | every one of the 21 suffixes starts and ends with a letter and holds only letters and spaces |
| Champion.SuffixIsNickname | web_scraping.py:31-37 | the suffix at any one index of the list starts and ends with a letter and holds only letters and spaces |
| Champion.SuffixAt | web_scraping.py:40 | a suffix found at a position occurs there in any case and is followed by a word boundary |
| Champion.SuffixAtFirst | web_scraping.py:38-40 | the suffix alternation picks the first suffix in list order that fits, and none fits when it fails |
| Champion.CaptureStartIsGap | web_scraping.py:40 | the place where the capture is tried is reached through `\s*[:\-–]?\s*` |
| Champion.CaptureStartOnly | web_scraping.py:40 | every other way through `\s*[:\-–]?\s*` stops on whitespace or on the separator, so the only letter the gap reaches is where the capture is tried |
| Champion.LazyRun | web_scraping.py:40 | the lazy run `[a-zA-Z\s]*?` plus suffix produces a capture that starts at the first letter and has the capture group's shape, with its suffix no earlier than where the run was resumed |
| Champion.TailFrom | web_scraping.py:40 | a capture after the keyword starts after the keyword and has the group's shape |
| Champion.TailFromSound | web_scraping.py:40 | a capture found after the keyword is reached through the gap `\s*[:\-–]?\s*` |
| Champion.ShipTail | web_scraping.py:40 | a match after `(?:ship)?` starts after the keyword and has the group's shape |
| Champion.ShipTailSound | web_scraping.py:40 | a match after the keyword is "ship" (any case) or nothing, then the gap, then a capture |
| Champion.KeywordAt | web_scraping.py:40 | a match at a position has the keyword there (any case) before the capture |
| Champion.KeywordAtSound | web_scraping.py:40 | a match at a position is the keyword, optional "ship", the gap and a capture: the whole pattern's shape |
| Champion.IStartsAtChar | web_scraping.py:40-42 | an `IGNORECASE` occurrence agrees with the text character by character up to case |
| Champion.IStartsAtOfChars | web_scraping.py:40-42 | agreement character by character up to case is an `IGNORECASE` occurrence |
| ChampionSearch.SuffixAtFinds | web_scraping.py:38-40 | the suffix alternation succeeds wherever a suffix fits before a word boundary, with that suffix or an earlier one |
| ChampionSearch.LazyRunFirst | web_scraping.py:40 | completeness of the lazy run: whenever a capture starts at the letter, one is found, and it is the one the regex tries first (shortest run, then first suffix in list order) |
| ChampionSearch.TailFromFirst | web_scraping.py:40 | whenever a capture follows the gap after the keyword, one is found, tried no later than it |
| ChampionSearch.TailFromStart | web_scraping.py:40 | a capture that starts where the gap ends is found, or one tried no later than it |
| ChampionSearch.ShipTailFirst | web_scraping.py:40 | `(?:ship)?` is greedy: with a capture after "ship", the match found takes "ship"; without "ship" is used only when no capture follows it; in each case the capture is the first tried |
| ChampionSearch.ShipTailFound | web_scraping.py:40 | whenever the rest of the pattern matches after the keyword, a match is found |
| ChampionSearch.KeywordAtFound | web_scraping.py:40 | whenever the pattern with one keyword matches at a position, a match is found there |
| ChampionSearch.KeywordAtFoundEnding | web_scraping.py:40 | the same, stated with the keyword's end position named |
| ChampionSearch.MatchAtIff | web_scraping.py:40 | the anchored match succeeds exactly when the pattern matches at that position |
| ChampionSearch.SearchNoneIff | web_scraping.py:43 | `search` finds nothing exactly when the pattern matches at no position of the line |
| ChampionSearch.SearchFound | web_scraping.py:43 | a match reported by `search` has the pattern's shape and no earlier position matches |
| ChampionSearch.SearchStopsBy | web_scraping.py:43 | a match at a position means `search` succeeds at or before it |
| ChampionSearch.PrimarySearchStartsWithKeyword | web_scraping.py:40-43 | a primary match starts with "champion" in any case |
| ChampionSearch.PrimaryIsAlternate | web_scraping.py:40-52 | every match of the primary pattern is a match of the alternate pattern |
| ChampionSearch.ExtractNotFoundIff | web_scraping.py:30-60 | "Not found" exactly when no position of the line matches the alternate pattern |
| ChampionSearch.GapToLetterUnique | web_scraping.py:40 | two ways through the gap that both end on a letter end at the same place |
| ChampionExample.GiantsCaptureUnique | web_scraping.py:40 | in "The 1905 World Series Champion New York Giants" the only capture from "New" is "New York Giants": "York" is no suffix and every other end is inside a word |
| ChampionExample.GiantsSearchAt | web_scraping.py:43 | the search of that line stops at "Champion" |
| ChampionExample.GiantsSpan | web_scraping.py:40-43 | the capture found in that line is "New York Giants" |
| ChampionExample.ExtractGiants | web_scraping.py:30-47 | "The 1905 World Series Champion New York Giants" yields "New York Giants" |
| Champion.AlternativeAt | web_scraping.py:50 | the keyword alternatives are tried in order: a match comes from an alternative that matches with no earlier alternative matching, and no match means none of them matches |
| Champion.SearchFrom | web_scraping.py:43 | `search` returns the leftmost position at which the pattern matches, and none when it matches nowhere |
| Champion.CaptureIsTeamName | web_scraping.py:40 | every captured name starts with a letter, holds only letters and whitespace, and ends with one of the suffixes in any case |
| Champion.CaptureIsNickname | web_scraping.py:40 | every captured name starts and ends with a letter and holds only letters and whitespace |
| Champion.CleanNickname | web_scraping.py:45 | cleaning leaves a nickname-shaped capture unchanged |
| Champion.NotFoundIsNoTeamName | web_scraping.py:60 | the sentinel "Not found" can never be an extracted team name |
| Champion.ExtractChampionTeam | web_scraping.py:30-60 | the result is the primary pattern's capture when it matches, else the alternate's, else "Not found" exactly when neither matches; any other result is a team name |
| YearIndex.LastSlash | web_scraping.py:78 | the index found is that of the last '/', and none means the text has no '/' |
| YearIndex.YearOfKeptHref | web_scraping.py:77-81 | a kept href yields exactly four year digits, so 0 <= year <= 9999 |
| YearIndex.InsertSorted | web_scraping.py:84 | inserting into a year-sorted list keeps it sorted, adds one element and invents none |
| YearIndex.InsertWithYear | web_scraping.py:84 | an inserted link goes before every link of its own year |
| YearIndex.SortByYearSpec | web_scraping.py:84 | the sort orders by year, keeps the length, and keeps each year's links in input order (stability) |
| YearIndex.GetYearLinks | web_scraping.py:73-84 | the loop keeps the filtered links in anchor order and returns them sorted by year |
| Standings.KeywordTableIsStandings | web_scraping.py:106-113 | the "team standings" test never changes the outcome: the keyword test is "standings" in caption or text |
| Standings.FirstWhere | web_scraping.py:101-134 | a scan returns the first table satisfying the test, and none when no table does |
| Standings.SelectedTable | web_scraping.py:98-138 | the first keyword table in document order is chosen when there is one. Only otherwise is it the first structural table, and no table is chosen exactly when no table passes either test |
| Standings.SelectTable | web_scraping.py:98-134 | the two selection loops with their breaks compute the chosen table |
| Standings.ParseRow | web_scraping.py:144-151 | a row gives a standings row exactly when it has three cells whose second and third parse as integers |
| Standings.ParsedRowsAppend | web_scraping.py:143-154 | parsing distributes over concatenation, so parsed rows keep document order |
| Standings.ParsedRowsFrom | web_scraping.py:143-154 | every parsed row is the parse of some input row, and there are no more parsed rows than rows |
| Standings.ParsedRowsNonEmpty | web_scraping.py:143-158 | some row parses exactly when some row is parsable |
| Standings.StructuralTableParses | web_scraping.py:117-134 | a table accepted by the structural test always yields parsed rows |
| Standings.ParseStandings | web_scraping.py:140-154 | the row loop skips the header and keeps the parsable rows in order |
| Standings.FirstMaxIndex | web_scraping.py:160-161 | `max` with a key returns the first index of a greatest key |
| Standings.MostWins | web_scraping.py:160 | the leader is a row with the most wins, and every earlier row has fewer |
| Standings.MostLosses | web_scraping.py:161 | the same over losses |
| Standings.TieGoesToFirstRow | web_scraping.py:160 | of `[("A",10,5), ("B",10,2)]` the win leader is "A" |
| Season.MentionsChampionIff | web_scraping.py:165-170 | a line is a candidate exactly when its lowered text contains "champion" or "pennant winner" |
| Season.CandidateLinesSpec | web_scraping.py:164-171 | candidates are stripped keyword lines, no more than the lines; there are none exactly when no line mentions a keyword |
| Season.CandidateLinesAppend | web_scraping.py:164-171 | the candidates of two runs of lines are those of the first followed by those of the second: page order is kept |
| Season.CandidateLinesSingle | web_scraping.py:164-171 | one line contributes its stripped text exactly when it mentions a keyword, and nothing otherwise |
| Season.CandidateLinesAllMention | web_scraping.py:164-171 | when every line mentions a keyword, candidate j is line j stripped: every keyword line contributes, in order |
| Season.NoKeywordWithoutCOrP | web_scraping.py:165-170 | a line with no "c" or "p" of either case is never a candidate |
| Season.NoKeywordLineNotFound | web_scraping.py:163-178 | a page whose only line mentions no keyword has champion "Not found" |
| SeasonExample.TeamXNotFound | web_scraping.py:163-178 | "Team X finished the season strong." alone gives "Not found" |
| Season.LongestCandidate | web_scraping.py:175 | `max(key=len)` picks a longest candidate, and every earlier candidate is shorter |
| Season.ChampionFromLines | web_scraping.py:173-178 | no candidates gives "Not found"; the champion is always "Not found" or a team name |
| Season.ChooseChampion | web_scraping.py:164-178 | the line loop and the choice compute the champion of the lines |
| Season.LeadersOf | web_scraping.py:156-161 | a table has leaders exactly when some data row parses |
| Season.LeadersOfSpec | web_scraping.py:160-161 | the leaders are the team of the first row with the most wins and that of the first row with the most losses |
| Season.TableLeaders | web_scraping.py:136-161 | no chosen table gives no leaders; a chosen table gives exactly that table's leaders |
| Season.YearlyStats | web_scraping.py:136-186 | stats exist exactly when the chosen table has leaders; they carry those leaders, and the champion is "Not found" or a team name |
| Season.GetYearlyStats | web_scraping.py:98-186 | the step-by-step `get_yearly_stats` computes these stats |
| Season.FallbackDecides | web_scraping.py:115-138 | with no keyword table, a page has stats exactly when some table passes the structural test |
| Season.YearlyStatsIff | web_scraping.py:136-186 | a page has stats exactly when a table is chosen and some data row of it parses |
| Season.KeywordTableDecides | web_scraping.py:101-161 | when the first keyword table has a parsable data row, the leaders are that table's |
| Season.KeywordTableShadowsFallback | web_scraping.py:101-158 | when the first keyword table has no parsable data row, the page has no stats, whatever the other tables hold |
| Content.Label | web_scraping.py:215 | the label is "Event Summary" exactly for that section, and "Event List" for the other |
| Content.SectionOf | web_scraping.py:214-215 | a block is an event summary exactly when its tag is `p` |
| Content.SectionRowsAppend | web_scraping.py:202-221 | the rows of consecutive block runs follow one another (input order) |
| Content.SectionRowsSpec | web_scraping.py:202-221 | every row carries the year, is neither empty nor boilerplate, and is the text of a kept block typed by its tag |
| Content.SectionRowsAllKept | web_scraping.py:202-221 | when no block is empty or boilerplate, block j yields exactly row j |
| Content.GetYearlyContent | web_scraping.py:199-221 | the block loop with its `continue`s writes exactly these rows |
| Scraper.InRange | web_scraping.py:261-264 | the visited links are the longest prefix of years up to 2025; the link after it is later than 2025 |
| Scraper.InRangeComplete | web_scraping.py:261-264 | in year order, every link up to 2025 is visited |
| Scraper.InRangeBoundary | web_scraping.py:261-264 | along the visit, the first year after 2025 is exactly where the visited prefix ends |
| Scraper.RecordsOfSpec | web_scraping.py:266-272 | each record is a visited link's stats under its year, and each link with stats gives a record |
| Scraper.RecordsSorted | web_scraping.py:261-272 | year-ordered links give year-ordered records |
| Scraper.SectionsOfAllSpec | web_scraping.py:274 | every section row holds kept text of a visited year |
| Scraper.VisitRecords | web_scraping.py:261-272 | the records are in year order and none is after 2025; each is the stats of a link under its year, and every link up to 2025 with stats gives one |
| Scraper.VisitSections | web_scraping.py:261-274 | the section rows are of years up to 2025, never empty, never boilerplate |
| Scraper.ScrapeSpec | web_scraping.py:256-259 | the run ends early exactly when there are no year links, and the links are in year order |
| Scraper.LoadYearlyStats | web_scraping.py:266 | a failed page load gives no stats, otherwise the page's stats |
| Scraper.LoadYearlyContent | web_scraping.py:274 | a failed page load gives no rows, otherwise the page's rows |
| Scraper.VisitYears | web_scraping.py:261-274 | the loop with its `break` collects the records and the section rows of the visited links |
| Scraper.RunScraper | web_scraping.py:255-274 | `main` ends early on no links and otherwise produces the visit's records and rows |
| QueryShell.Params | query_baseball_db.py:66-99 | every query binds the year first; only the team filter binds a second parameter, `%substring%` |
| QueryShell.YearArgument | query_baseball_db.py:62-66 | a year is read exactly when the line splits into two words and the second is all digits; it is that number |
| QueryShell.Classify | query_baseball_db.py:53-101 | the line exits exactly when its stripped, lowered form is "exit" or "quit", and asks for help exactly when it is "help" |
| QueryShell.FilterCommand | query_baseball_db.py:91-99 | the team filter runs exactly when the line splits into three parts with an all-digit second part; otherwise it prints its usage message |
| QueryShell.UnknownIff | query_baseball_db.py:100-101 | "Unknown command" exactly when the line is none of exit/quit/help and has no command prefix |
| QueryShell.UsageOnlyForPrefixes | query_baseball_db.py:61-99 | usage messages and queries come only from lines with a command prefix |
| QueryShell.RunParameters | query_baseball_db.py:61-99 | a query runs only with its command's prefix and arguments: the second of two all-digit words, or for the filter the year and the lowered remainder of a three-part split |
| QueryShell.CapitalisedIsUnknown | query_baseball_db.py:61-101 | the prefixes are case-sensitive: a line longer than four characters starting with a capital is unknown |
| QueryShell.CommandWordAloneIsUnknown | query_baseball_db.py:61-101 | a bare "teams", "events", "join" or "filterteam" is unknown |
| QueryShell.Decimal | query_baseball_db.py:66 | the numeral written for a year is all digits and reads back as that year |
| QueryShell.WordsCons | query_baseball_db.py:62 | `split()` of a word, a space and more text splits off that word |
| QueryShell.SplitMaxCons | query_baseball_db.py:92 | `split(maxsplit)` of a word, a space and more text splits off that word and lowers the limit by one |
| QueryShell.SplitThree | query_baseball_db.py:92 | two words and a remainder that starts with a non-space split into exactly those three parts |
| QueryShell.ClassifyTeamsLine | query_baseball_db.py:61-68 | "teams YEAR" is read back as that query |
| QueryShell.ClassifyEventsLine | query_baseball_db.py:69-76 | "events YEAR" is read back as that query |
| QueryShell.ClassifyJoinLine | query_baseball_db.py:77-90 | "join YEAR" is read back as that query |
| QueryShell.ClassifyFilterLine | query_baseball_db.py:91-99 | "filterteam YEAR SUB", with SUB lower case and not blank at either end, is read back as that query |
| QueryShell.ClassifyCommandLine | query_baseball_db.py:61-99 | round trip: the command line written for any query is classified as that query |
| QueryShell.ColumnCount | query_baseball_db.py:5 | `zip` stops at the shortest row: the count is the length of some row and no row is shorter |
| QueryShell.ColumnWidth | query_baseball_db.py:5 | a column's width is the length of one of its cells, and no cell of the column is longer |
| QueryShell.ColumnWidths | query_baseball_db.py:5 | one width per column of the header and the rows, no more columns than any row has |
| QueryShell.ColumnWidthsSpec | query_baseball_db.py:5 | each width fits the header cell and every row's cell, and equals one of them |
| QueryShell.PadRight | query_baseball_db.py:6 | `{:<w}` keeps the text and pads it with spaces to width w, never cutting it |
| QueryShell.JoinCellsLength | query_baseball_db.py:6 | cells of exactly the widths, joined by " \| ", have length sum + 3·(n−1) |
| QueryShell.FormatRowLength | query_baseball_db.py:6-8 | a row whose cells fit their columns is formatted to exactly the dashed line's length |
| QueryShell.WidthsFit | query_baseball_db.py:5 | with rows as wide as the header, there is one width per header cell and every cell fits |
| QueryShell.PrintedLinesAligned | query_baseball_db.py:5-10 | with a non-empty header and rows as wide as it, all rows+2 printed lines are exactly as long as the dashed line |
| QueryShell.PrintRows | query_baseball_db.py:3-10 | the printing loop produces the header line, the dashed line and one formatted line per row |

## Left out

- Browser, page loading and HTML parsing. Selenium, waits, sleeps, page titles, `find_all` and `get_text` are not modelled. A page is given as its tables, text lines and content blocks. A load that fails or times out is `None`.
- The catch-all exception handlers of `get_yearly_stats` and `get_yearly_content`: a failing page gives no stats or no rows.
- Writing the two CSV files. Records and section rows are returned as sequences; the field order is kept in the `Record` and `SectionRow` datatypes.
- All debug and progress output, the shell's help text, and the "No results found." message.
- `run_query`, `sqlite3`, `input()` and the shell's loop itself: the model classifies one line at a time.
- `QueryShell.Sql`: the statement text is kept, but the model does not prove that its placeholder count matches `Params`.
- Python's Unicode behaviour is out. `lower()`, `strip()`, `\s`, `\w`, `\b` and `isdigit()` are ASCII here (a word character is an ASCII letter, digit or underscore); `int()` takes a sign and ASCII digits, without underscores or Unicode digits. Case-insensitive matching compares ASCII lower case.
- `splitlines` of the page text: lines are given as input.
- `print_rows` with non-string cells: cells are strings, so `str(cell)` is the cell itself; a `None` cell from the LEFT JOIN is not modelled.
- `Champion.ExtractChampionTeam` does not model Python's `re` in general. The bespoke matcher covers exactly the two patterns of `extract_champion_team`.
- dashboard.py, SQLite_database.py, import_to_db.py and query_database.py are not part of this model.
