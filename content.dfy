/**
 * `get_yearly_content`: the narrative rows of one year page, one per
 * paragraph or list block, with empty and boilerplate blocks skipped.
 */
module Content {
  import opened Text

  /** A `<p>`, `<ul>` or `<ol>` element of the content container: its tag
      name and its text with surrounding whitespace stripped. */
  datatype Block = Block(tag: string, text: string)

  datatype Section = EventSummary | EventList

  /** The value written to the "Section" column. */
  function Label(s: Section): (l: string)
    ensures l == "Event Summary" <==> s == EventSummary
    ensures s == EventList ==> l == "Event List"
  {
    match s
    case EventSummary => "Event Summary"
    case EventList => "Event List"
  }

  /** One row of the sections CSV: Year, Section, Content. */
  datatype SectionRow = SectionRow(year: nat, section: Section, content: string)

  /** Footer text: starts with "copyright", or mentions "preserved today"
      or "hosted by", in any case. */
  predicate IsBoilerplate(text: string) {
    var lowered := Lower(text);
    StartsWith(lowered, "copyright") || Contains(lowered, "preserved today") || Contains(lowered, "hosted by")
  }

  /** A block that yields a row. */
  predicate Kept(b: Block) {
    b.text != [] && !IsBoilerplate(b.text)
  }

  function SectionOf(tag: string): (s: Section)
    ensures s == EventSummary <==> tag == "p"
  {
    if tag == "p" then EventSummary else EventList
  }

  /** The rows a year page yields, in block order. */
  function SectionRows(year: nat, blocks: seq<Block>): seq<SectionRow> {
    if blocks == [] then []
    else
      var b := blocks[|blocks| - 1];
      SectionRows(year, blocks[..|blocks| - 1]) +
        if Kept(b) then [SectionRow(year, SectionOf(b.tag), b.text)] else []
  }

  /** The rows of consecutive runs of blocks follow one another. */
  lemma {:induction false} SectionRowsAppend(year: nat, a: seq<Block>, b: seq<Block>)
    ensures SectionRows(year, a + b) == SectionRows(year, a) + SectionRows(year, b)
    decreases |b|
  {
    if b == [] {
      assert a + b == a;
    } else {
      SectionRowsAppend(year, a, b[..|b| - 1]);
      assert (a + b)[..|a + b| - 1] == a + b[..|b| - 1];
    }
  }

  /** Every row carries the page's year and the text of a kept block, typed
      by that block's tag; no row is empty or boilerplate. */
  lemma {:induction false} SectionRowsSpec(year: nat, blocks: seq<Block>)
    ensures |SectionRows(year, blocks)| <= |blocks|
    ensures forall k :: 0 <= k < |SectionRows(year, blocks)| ==>
      var r := SectionRows(year, blocks)[k];
      r.year == year && r.content != [] && !IsBoilerplate(r.content) &&
      exists j :: 0 <= j < |blocks| && Kept(blocks[j]) && r.content == blocks[j].text && r.section == SectionOf(blocks[j].tag)
  {
    if blocks != [] {
      var init := blocks[..|blocks| - 1];
      var rows := SectionRows(year, blocks);
      SectionRowsSpec(year, init);
      forall k | 0 <= k < |rows|
        ensures rows[k].year == year && rows[k].content != [] && !IsBoilerplate(rows[k].content) &&
          exists j :: 0 <= j < |blocks| && Kept(blocks[j]) && rows[k].content == blocks[j].text &&
            rows[k].section == SectionOf(blocks[j].tag)
      {
        if k < |SectionRows(year, init)| {
          var j :| 0 <= j < |init| && Kept(init[j]) && rows[k].content == init[j].text &&
            rows[k].section == SectionOf(init[j].tag);
          assert blocks[j] == init[j];
        } else {
          var j := |blocks| - 1;
          assert rows[k] == SectionRow(year, SectionOf(blocks[j].tag), blocks[j].text);
        }
      }
    }
  }

  /** When no block is empty or boilerplate, each block yields exactly its
      own row, in order. */
  lemma {:induction false} SectionRowsAllKept(year: nat, blocks: seq<Block>)
    requires forall j :: 0 <= j < |blocks| ==> Kept(blocks[j])
    ensures |SectionRows(year, blocks)| == |blocks|
    ensures forall j :: 0 <= j < |blocks| ==>
      SectionRows(year, blocks)[j] == SectionRow(year, SectionOf(blocks[j].tag), blocks[j].text)
  {
    if blocks != [] {
      var init := blocks[..|blocks| - 1];
      SectionRowsAllKept(year, init);
      forall j | 0 <= j < |blocks|
        ensures SectionRows(year, blocks)[j] == SectionRow(year, SectionOf(blocks[j].tag), blocks[j].text)
      {
        if j < |init| {
          assert init[j] == blocks[j];
        }
      }
    }
  }

  /** The block loop of `get_yearly_content`, with the CSV writer as the
      sequence of rows written so far. */
  method GetYearlyContent(year: nat, blocks: seq<Block>) returns (rows: seq<SectionRow>)
    ensures rows == SectionRows(year, blocks)
  {
    rows := [];
    var i := 0;
    while i < |blocks|
      invariant 0 <= i <= |blocks|
      invariant rows == SectionRows(year, blocks[..i])
    {
      var para := blocks[i];
      var sectionText := para.text;
      assert blocks[..i + 1][..i] == blocks[..i];
      if sectionText == [] {
        i := i + 1;
        continue;
      }
      var lowered := Lower(sectionText);
      if StartsWith(lowered, "copyright") || Contains(lowered, "preserved today") || Contains(lowered, "hosted by") {
        i := i + 1;
        continue;
      }
      var sectionType := if para.tag == "p" then EventSummary else EventList;
      rows := rows + [SectionRow(year, sectionType, sectionText)];
      i := i + 1;
    }
    assert blocks[..i] == blocks;
  }
}
