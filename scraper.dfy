/**
 * `main` of the scraper: fetch the year index, then visit the year pages in
 * year order up to 2025, collecting one stats record per page that yields
 * stats and the narrative rows of every page.
 *
 * The browser is a parameter. `index` is the list of `href` attributes of
 * the index page's anchors, or `None` when the page did not load within its
 * timeout. `statsLoad` and `contentLoad` give the page behind a URL, or
 * `None` when loading or reading it fails; the source loads each year page
 * twice, once for the stats and once for the narrative, so the two are
 * separate.
 */
module Scraper {
  import opened Wrappers
  import opened YearIndex
  import opened Standings
  import opened Season
  import opened Content

  /** A loaded year page: its tables, the lines of its text, and the
      paragraph and list blocks of its content container. */
  datatype Page = Page(tables: seq<Table>, lines: seq<string>, blocks: seq<Block>)

  /** One row of the stats CSV: Year, Most Wins, Most Losses, Champion. */
  datatype Record = Record(year: nat, stats: Stats)

  /** An empty year index ends the run with no records and no section rows:
      the sections file holds only its header, and the stats file is not
      written. Otherwise the run produces the stats records and the section
      rows. */
  datatype Outcome = NoYearLinks | Finished(records: seq<Record>, sections: seq<SectionRow>)

  /** The last year the run visits. */
  const LastYear: nat := 2025

  /** The result of `get_year_links`; a timeout gives no links. */
  function LinksOf(index: Option<seq<Option<string>>>): seq<YearLink> {
    match index
    case None => []
    case Some(hrefs) => SortByYear(KeptLinks(hrefs))
  }

  /** The links the loop visits before it meets a year after 2025. */
  function InRange(links: seq<YearLink>): (r: seq<YearLink>)
    ensures |r| <= |links| && r == links[..|r|]
    ensures forall k :: 0 <= k < |r| ==> r[k].year <= LastYear
    ensures |r| < |links| ==> links[|r|].year > LastYear
  {
    if links == [] || links[0].year > LastYear then []
    else [links[0]] + InRange(links[1..])
  }

  /** In year order, the loop visits every link of a year up to 2025. */
  lemma InRangeComplete(links: seq<YearLink>)
    requires SortedByYear(links)
    ensures forall j :: 0 <= j < |links| && links[j].year <= LastYear ==> j < |InRange(links)|
  {
    var r := InRange(links);
    forall j | 0 <= j < |links| && links[j].year <= LastYear ensures j < |r| {
    }
  }

  /** `get_yearly_stats(url)`: no stats when the page fails to load. */
  function StatsFor(link: YearLink, statsLoad: string -> Option<Page>): Option<Stats> {
    match statsLoad(link.href)
    case None => None
    case Some(page) => YearlyStats(page.tables, page.lines)
  }

  /** `get_yearly_content(url, year)`: no rows when the page fails to load. */
  function SectionsFor(link: YearLink, contentLoad: string -> Option<Page>): seq<SectionRow> {
    match contentLoad(link.href)
    case None => []
    case Some(page) => SectionRows(link.year, page.blocks)
  }

  /** The stats of each link's page, as a function of the link. */
  function PageStats(statsLoad: string -> Option<Page>): YearLink -> Option<Stats> {
    link => StatsFor(link, statsLoad)
  }

  /** The records of the visited links: one per link with stats, under the
      link's year, in visit order. */
  function RecordsOf(links: seq<YearLink>, statsOf: YearLink -> Option<Stats>): seq<Record> {
    if links == [] then []
    else
      var l := links[|links| - 1];
      RecordsOf(links[..|links| - 1], statsOf) +
        match statsOf(l) case Some(s) => [Record(l.year, s)] case None => []
  }

  /** The section rows of the visited links, page after page. */
  function SectionsOfAll(links: seq<YearLink>, contentLoad: string -> Option<Page>): seq<SectionRow> {
    if links == [] then []
    else SectionsOfAll(links[..|links| - 1], contentLoad) + SectionsFor(links[|links| - 1], contentLoad)
  }

  /** The whole run. */
  function Scrape(index: Option<seq<Option<string>>>, statsLoad: string -> Option<Page>,
                  contentLoad: string -> Option<Page>): Outcome
  {
    var links := LinksOf(index);
    if links == [] then NoYearLinks
    else Finished(RecordsOf(InRange(links), PageStats(statsLoad)), SectionsOfAll(InRange(links), contentLoad))
  }

  /** Each record is the stats of a link under that link's year, and each
      link with stats gives a record. */
  lemma {:induction false} RecordsOfSpec(links: seq<YearLink>, statsOf: YearLink -> Option<Stats>)
    ensures forall k :: 0 <= k < |RecordsOf(links, statsOf)| ==>
      exists j :: 0 <= j < |links| && statsOf(links[j]) == Some(RecordsOf(links, statsOf)[k].stats) &&
        RecordsOf(links, statsOf)[k].year == links[j].year
    ensures forall j :: 0 <= j < |links| && statsOf(links[j]).Some? ==>
      Record(links[j].year, statsOf(links[j]).value) in RecordsOf(links, statsOf)
  {
    if links != [] {
      var init := links[..|links| - 1];
      var last := links[|links| - 1];
      var recs := RecordsOf(links, statsOf);
      RecordsOfSpec(init, statsOf);
      forall k | 0 <= k < |recs|
        ensures exists j :: 0 <= j < |links| && statsOf(links[j]) == Some(recs[k].stats) && recs[k].year == links[j].year
      {
        if k < |RecordsOf(init, statsOf)| {
          var j :| 0 <= j < |init| && statsOf(init[j]) == Some(RecordsOf(init, statsOf)[k].stats) &&
            RecordsOf(init, statsOf)[k].year == init[j].year;
          assert links[j] == init[j];
        } else {
          assert recs[k] == Record(last.year, statsOf(last).value);
        }
      }
      forall j | 0 <= j < |links| && statsOf(links[j]).Some?
        ensures Record(links[j].year, statsOf(links[j]).value) in recs
      {
        if j < |init| {
          assert links[j] == init[j];
        }
      }
    } else {
      assert RecordsOf(links, statsOf) == [];
    }
  }

  predicate RecordsByYear(records: seq<Record>) {
    forall i, j :: 0 <= i < j < |records| ==> records[i].year <= records[j].year
  }

  /** Links in year order give records in year order. */
  lemma {:induction false} RecordsSorted(links: seq<YearLink>, statsOf: YearLink -> Option<Stats>)
    requires SortedByYear(links)
    ensures RecordsByYear(RecordsOf(links, statsOf))
  {
    if links != [] {
      var init := links[..|links| - 1];
      var last := links[|links| - 1];
      RecordsSorted(init, statsOf);
      RecordsOfSpec(init, statsOf);
      var before := RecordsOf(init, statsOf);
      forall k | 0 <= k < |before| ensures before[k].year <= last.year {
        var j :| 0 <= j < |init| && statsOf(init[j]) == Some(before[k].stats) && before[k].year == init[j].year;
        assert init[j] == links[j];
      }
    }
  }

  /** Every section row belongs to a visited year and holds kept text. */
  lemma {:induction false} SectionsOfAllSpec(links: seq<YearLink>, contentLoad: string -> Option<Page>)
    ensures forall k :: 0 <= k < |SectionsOfAll(links, contentLoad)| ==>
      SectionsOfAll(links, contentLoad)[k].content != [] &&
      !IsBoilerplate(SectionsOfAll(links, contentLoad)[k].content) &&
      exists j :: 0 <= j < |links| && SectionsOfAll(links, contentLoad)[k].year == links[j].year
  {
    if links != [] {
      var init := links[..|links| - 1];
      var last := links[|links| - 1];
      var rows := SectionsOfAll(links, contentLoad);
      SectionsOfAllSpec(init, contentLoad);
      var mine := SectionsFor(last, contentLoad);
      if contentLoad(last.href).Some? {
        SectionRowsSpec(last.year, contentLoad(last.href).value.blocks);
      }
      forall k | 0 <= k < |rows|
        ensures rows[k].content != [] && !IsBoilerplate(rows[k].content) &&
          exists j :: 0 <= j < |links| && rows[k].year == links[j].year
      {
        if k < |SectionsOfAll(init, contentLoad)| {
          var j :| 0 <= j < |init| && SectionsOfAll(init, contentLoad)[k].year == init[j].year;
          assert links[j] == init[j];
        } else {
          assert rows[k] == mine[k - |SectionsOfAll(init, contentLoad)|];
          assert rows[k].year == links[|links| - 1].year;
        }
      }
    }
  }

  /** The records of a visit of year-ordered links: in year order, none
      after 2025, each the stats of a link under its year, and one for every
      link up to 2025 with stats. */
  lemma VisitRecords(links: seq<YearLink>, statsOf: YearLink -> Option<Stats>)
    requires SortedByYear(links)
    ensures RecordsByYear(RecordsOf(InRange(links), statsOf))
    ensures forall k :: 0 <= k < |RecordsOf(InRange(links), statsOf)| ==>
      var r := RecordsOf(InRange(links), statsOf)[k];
      r.year <= LastYear && exists j :: 0 <= j < |links| && r.year == links[j].year && statsOf(links[j]) == Some(r.stats)
    ensures forall j :: 0 <= j < |links| && links[j].year <= LastYear && statsOf(links[j]).Some? ==>
      Record(links[j].year, statsOf(links[j]).value) in RecordsOf(InRange(links), statsOf)
  {
    var visited := InRange(links);
    RecordsSorted(visited, statsOf);
    RecordsOfSpec(visited, statsOf);
    InRangeComplete(links);
    var records := RecordsOf(visited, statsOf);
    forall k | 0 <= k < |records|
      ensures records[k].year <= LastYear &&
        exists j :: 0 <= j < |links| && records[k].year == links[j].year && statsOf(links[j]) == Some(records[k].stats)
    {
      var j :| 0 <= j < |visited| && statsOf(visited[j]) == Some(records[k].stats) && records[k].year == visited[j].year;
      assert visited[j] == links[j];
    }
    forall j | 0 <= j < |links| && links[j].year <= LastYear && statsOf(links[j]).Some?
      ensures Record(links[j].year, statsOf(links[j]).value) in records
    {
      assert visited[j] == links[j];
    }
  }

  /** The section rows of a visit: kept text of years up to 2025. */
  lemma VisitSections(links: seq<YearLink>, contentLoad: string -> Option<Page>)
    ensures forall k :: 0 <= k < |SectionsOfAll(InRange(links), contentLoad)| ==>
      var row := SectionsOfAll(InRange(links), contentLoad)[k];
      row.year <= LastYear && row.content != [] && !IsBoilerplate(row.content)
  {
    var visited := InRange(links);
    SectionsOfAllSpec(visited, contentLoad);
    var sections := SectionsOfAll(visited, contentLoad);
    forall k | 0 <= k < |sections| ensures sections[k].year <= LastYear {
      var j :| 0 <= j < |visited| && sections[k].year == visited[j].year;
    }
  }

  /** An empty year index ends the run, and otherwise the links come out in
      year order, so a finished run has the properties of `VisitRecords`
      and `VisitSections`. */
  lemma ScrapeSpec(index: Option<seq<Option<string>>>, statsLoad: string -> Option<Page>,
                   contentLoad: string -> Option<Page>)
    ensures Scrape(index, statsLoad, contentLoad).NoYearLinks? <==> LinksOf(index) == []
    ensures SortedByYear(LinksOf(index))
  {
    if index.Some? {
      SortByYearSpec(KeptLinks(index.value));
    }
  }

  /** `get_yearly_stats(url)`, page load included. */
  method LoadYearlyStats(link: YearLink, statsLoad: string -> Option<Page>) returns (stats: Option<Stats>)
    ensures stats == StatsFor(link, statsLoad)
    ensures stats == PageStats(statsLoad)(link)
  {
    stats := None;
    var page := statsLoad(link.href);
    if page.Some? {
      stats := GetYearlyStats(page.value.tables, page.value.lines);
    }
  }

  /** `get_yearly_content(url, year)`, page load included. */
  method LoadYearlyContent(link: YearLink, contentLoad: string -> Option<Page>) returns (rows: seq<SectionRow>)
    ensures rows == SectionsFor(link, contentLoad)
  {
    rows := [];
    var page := contentLoad(link.href);
    if page.Some? {
      rows := GetYearlyContent(link.year, page.value.blocks);
    }
  }

  /** Along the visit, the first year after 2025 is where the visited
      prefix ends. */
  lemma InRangeBoundary(links: seq<YearLink>, i: nat)
    requires i <= |InRange(links)| && i < |links|
    ensures links[i].year > LastYear <==> i == |InRange(links)|
  {
    var r := InRange(links);
    if i < |r| {
      assert links[i] == r[i];
    }
  }

  lemma RecordsOfStep(links: seq<YearLink>, i: nat, statsOf: YearLink -> Option<Stats>)
    requires i < |links|
    ensures RecordsOf(links[..i + 1], statsOf) ==
      RecordsOf(links[..i], statsOf) + match statsOf(links[i]) case Some(s) => [Record(links[i].year, s)] case None => []
  {
    assert links[..i + 1][..i] == links[..i];
  }

  lemma SectionsOfAllStep(links: seq<YearLink>, i: nat, contentLoad: string -> Option<Page>)
    requires i < |links|
    ensures SectionsOfAll(links[..i + 1], contentLoad) == SectionsOfAll(links[..i], contentLoad) + SectionsFor(links[i], contentLoad)
  {
    assert links[..i + 1][..i] == links[..i];
  }

  /** The loop of `main`: stop at the first year after 2025; otherwise keep
      the page's stats under its year when it has some, and write its
      narrative rows. */
  method VisitYears(yearLinks: seq<YearLink>, statsLoad: string -> Option<Page>, contentLoad: string -> Option<Page>)
    returns (allStats: seq<Record>, sections: seq<SectionRow>)
    ensures allStats == RecordsOf(InRange(yearLinks), PageStats(statsLoad))
    ensures sections == SectionsOfAll(InRange(yearLinks), contentLoad)
  {
    ghost var visited := InRange(yearLinks);
    ghost var statsOf := PageStats(statsLoad);
    allStats := [];
    sections := [];
    var i := 0;
    while i < |yearLinks|
      invariant 0 <= i <= |visited|
      invariant allStats == RecordsOf(yearLinks[..i], statsOf)
      invariant sections == SectionsOfAll(yearLinks[..i], contentLoad)
    {
      var link := yearLinks[i];
      InRangeBoundary(yearLinks, i);
      if link.year > LastYear {
        break;
      }
      var stats := LoadYearlyStats(link, statsLoad);
      RecordsOfStep(yearLinks, i, statsOf);
      if stats.Some? {
        allStats := allStats + [Record(link.year, stats.value)];
      }
      var rows := LoadYearlyContent(link, contentLoad);
      SectionsOfAllStep(yearLinks, i, contentLoad);
      sections := sections + rows;
      i := i + 1;
    }
    assert yearLinks[..i] == visited;
  }

  /** `main`: fetch the year index; with no year links, stop; otherwise
      visit the years. */
  method RunScraper(index: Option<seq<Option<string>>>, statsLoad: string -> Option<Page>,
                    contentLoad: string -> Option<Page>) returns (outcome: Outcome)
    ensures outcome == Scrape(index, statsLoad, contentLoad)
  {
    var yearLinks: seq<YearLink> := [];
    if index.Some? {
      yearLinks := GetYearLinks(index.value);
    }
    if yearLinks == [] {
      return NoYearLinks;
    }
    var allStats, sections := VisitYears(yearLinks, statsLoad, contentLoad);
    outcome := Finished(allStats, sections);
  }
}
