/**
 * The year index: which hyperlinks of the almanac's year menu are year
 * pages, the year each one names, and their order.
 */
module YearIndex {
  import opened Wrappers
  import opened Text

  /** A year page and the year it covers. */
  datatype YearLink = YearLink(year: nat, href: string)

  /** Index of the last '/' in `s`, if any. */
  function LastSlash(s: string): (r: Option<nat>)
    ensures r.Some? ==> r.value < |s| && s[r.value] == '/' && forall k :: r.value < k < |s| ==> s[k] != '/'
    ensures r.None? ==> forall k :: 0 <= k < |s| ==> s[k] != '/'
  {
    if s == [] then None
    else if s[|s| - 1] == '/' then Some(|s| - 1)
    else LastSlash(s[..|s| - 1])
  }

  /** `href.split("/")[-1]`: what follows the last '/'. */
  function LastSegment(s: string): string {
    match LastSlash(s)
    case None => s
    case Some(k) => s[k + 1..]
  }

  /** Python's slice `s[i:j]`, which clamps its bounds to the string. */
  function Slice(s: string, i: nat, j: nat): string {
    var a := if i <= |s| then i else |s|;
    var b := if j <= |s| then j else |s|;
    if a <= b then s[a..b] else []
  }

  /** The four characters at offsets 2-5 of the last path segment. */
  function YearText(href: string): string {
    Slice(LastSegment(href), 2, 6)
  }

  /** The filter of `get_year_links`: the attribute is present and
      non-empty, contains "yr", ends with "a.shtml", and the year text is
      all digits. */
  predicate IsYearHref(href: Option<string>) {
    href.Some? && href.value != [] && Contains(href.value, "yr") && EndsWith(href.value, "a.shtml") &&
    IsDigits(YearText(href.value))
  }

  /** The link a kept href turns into. */
  function ToLink(href: string): YearLink
    requires IsYearHref(Some(href))
  {
    YearLink(DigitsValue(YearText(href)), href)
  }

  /** The kept links, in the order of the anchors on the page. */
  function KeptLinks(hrefs: seq<Option<string>>): seq<YearLink> {
    if hrefs == [] then []
    else
      var last := hrefs[|hrefs| - 1];
      KeptLinks(hrefs[..|hrefs| - 1]) + if IsYearHref(last) then [ToLink(last.value)] else []
  }

  /** A path ending in "a.shtml" has a last segment of at least seven
      characters, so the year text is exactly four digits and the year is
      at most 9999. */
  lemma YearOfKeptHref(href: string)
    requires IsYearHref(Some(href))
    ensures |YearText(href)| == 4
    ensures 0 <= ToLink(href).year <= 9999
  {
    var seg := LastSegment(href);
    if LastSlash(href).Some? {
      var k := LastSlash(href).value;
      assert k < |href| - 7;
    }
    assert |seg| >= 7;
    DigitsValueBound(YearText(href));
    assert Pow10(4) == 10000;
  }

  predicate SortedByYear(links: seq<YearLink>) {
    forall i, j :: 0 <= i < j < |links| ==> links[i].year <= links[j].year
  }

  /** Places `x` in front of the first link whose year is not smaller. */
  function Insert(x: YearLink, links: seq<YearLink>): seq<YearLink> {
    if links == [] || x.year <= links[0].year then [x] + links
    else [links[0]] + Insert(x, links[1..])
  }

  /** `sorted(links, key=lambda x: x[0])`, Python's stable sort by year. */
  function SortByYear(links: seq<YearLink>): seq<YearLink> {
    if links == [] then [] else Insert(links[0], SortByYear(links[1..]))
  }

  /** The links for one year, in order. */
  function WithYear(links: seq<YearLink>, y: nat): seq<YearLink> {
    if links == [] then []
    else (if links[0].year == y then [links[0]] else []) + WithYear(links[1..], y)
  }

  lemma {:induction false} InsertSorted(x: YearLink, links: seq<YearLink>)
    requires SortedByYear(links)
    ensures SortedByYear(Insert(x, links))
    ensures |Insert(x, links)| == |links| + 1
    ensures forall k :: 0 <= k < |Insert(x, links)| ==> Insert(x, links)[k] == x || Insert(x, links)[k] in links
  {
    if links != [] && x.year > links[0].year {
      InsertSorted(x, links[1..]);
      var rest := Insert(x, links[1..]);
      forall k | 0 <= k < |rest| ensures links[0].year <= rest[k].year {
        if rest[k] != x {
          var m :| 0 <= m < |links[1..]| && links[1..][m] == rest[k];
          assert links[m + 1] == rest[k];
        }
      }
    }
  }

  /** Inserting a link puts it before every link of its own year. */
  lemma {:induction false} InsertWithYear(x: YearLink, links: seq<YearLink>, y: nat)
    ensures WithYear(Insert(x, links), y) == if x.year == y then [x] + WithYear(links, y) else WithYear(links, y)
  {
    var r := Insert(x, links);
    if links == [] || x.year <= links[0].year {
      assert r[0] == x && r[1..] == links;
    } else {
      InsertWithYear(x, links[1..], y);
      assert r[0] == links[0] && r[1..] == Insert(x, links[1..]);
    }
  }

  /** Sorting orders the links by year and keeps, for each year, the
      links of that year in their original order: the sort is stable. */
  lemma {:induction false} SortByYearSpec(links: seq<YearLink>)
    ensures SortedByYear(SortByYear(links))
    ensures |SortByYear(links)| == |links|
    ensures forall y: nat :: WithYear(SortByYear(links), y) == WithYear(links, y)
  {
    if links != [] {
      SortByYearSpec(links[1..]);
      InsertSorted(links[0], SortByYear(links[1..]));
      forall y: nat ensures WithYear(SortByYear(links), y) == WithYear(links, y) {
        InsertWithYear(links[0], SortByYear(links[1..]), y);
      }
    }
  }

  /** `get_year_links` after the page has loaded: collect the kept links in
      anchor order, then sort them by year. */
  method GetYearLinks(hrefs: seq<Option<string>>) returns (links: seq<YearLink>)
    ensures links == SortByYear(KeptLinks(hrefs))
  {
    var found: seq<YearLink> := [];
    var i := 0;
    while i < |hrefs|
      invariant 0 <= i <= |hrefs|
      invariant found == KeptLinks(hrefs[..i])
    {
      var href := hrefs[i];
      if href.Some? && href.value != [] && Contains(href.value, "yr") && EndsWith(href.value, "a.shtml") {
        var yearPart := LastSegment(href.value);
        var yearText := Slice(yearPart, 2, 6);
        if IsDigits(yearText) {
          found := found + [YearLink(DigitsValue(yearText), href.value)];
        }
      }
      assert hrefs[..i + 1][..i] == hrefs[..i];
      i := i + 1;
    }
    assert hrefs[..i] == hrefs;
    links := SortByYear(found);
  }
}
