/**
 * The standings part of `get_yearly_stats`: choosing the table that holds
 * the win/loss standings, parsing its rows, and the win and loss leaders.
 */
module Standings {
  import opened Wrappers
  import opened Text

  /** One `<table>` of a year page: the stripped text of its `<caption>`
      (empty when it has none), its whole text (the caption included), and,
      per `<tr>`, the stripped texts of the row's `<td>` cells. */
  datatype Table = Table(caption: string, text: string, rows: seq<seq<string>>)

  /** One parsed standings row. */
  datatype StandingsRow = StandingsRow(team: string, wins: int, losses: int)

  predicate CaptionMatch(t: Table) {
    Contains(Lower(t.caption), "standings") || Contains(Lower(t.caption), "team standings")
  }

  predicate TextMatch(t: Table) {
    Contains(Lower(t.text), "standings") || Contains(Lower(t.text), "team standings")
  }

  /** The keyword pass: the caption or, failing that, the table text
      mentions standings. */
  predicate KeywordTable(t: Table) {
    CaptionMatch(t) || TextMatch(t)
  }

  /** "team standings" contains "standings", so the second keyword of each
      test never changes its outcome. */
  lemma KeywordTableIsStandings(t: Table)
    ensures KeywordTable(t) <==> Contains(Lower(t.caption), "standings") || Contains(Lower(t.text), "standings")
  {
    assert StartsAt("team standings", 5, "standings");
    if Contains(Lower(t.caption), "team standings") {
      ContainsTransitive(Lower(t.caption), "team standings", "standings");
    }
    if Contains(Lower(t.text), "team standings") {
      ContainsTransitive(Lower(t.text), "team standings", "standings");
    }
  }

  /** A row with at least three cells whose second and third cells parse as
      integers. */
  predicate ParsableRow(row: seq<string>) {
    |row| >= 3 && ParseInt(row[1]).Some? && ParseInt(row[2]).Some?
  }

  /** The structural fallback: at least five rows, and some row after the
      first is parsable. */
  predicate StructuralTable(t: Table) {
    |t.rows| >= 5 && exists k :: 1 <= k < |t.rows| && ParsableRow(t.rows[k])
  }

  /** Index of the first table from `i` on that satisfies `p`. */
  function FirstWhere(tables: seq<Table>, p: Table -> bool, i: nat): (r: Option<nat>)
    requires i <= |tables|
    ensures r.Some? ==> i <= r.value < |tables| && p(tables[r.value])
    ensures r.Some? ==> forall j :: i <= j < r.value ==> !p(tables[j])
    ensures r.None? ==> forall j :: i <= j < |tables| ==> !p(tables[j])
    decreases |tables| - i
  {
    if i == |tables| then None
    else if p(tables[i]) then Some(i)
    else FirstWhere(tables, p, i + 1)
  }

  /** The table `get_yearly_stats` settles on: the first table in document
      order that passes the keyword test; only when there is none, the first
      that passes the structural test; otherwise none. */
  function SelectedTable(tables: seq<Table>): (r: Option<nat>)
    ensures r.Some? ==> r.value < |tables|
    ensures (exists j :: 0 <= j < |tables| && KeywordTable(tables[j])) ==>
      r.Some? && KeywordTable(tables[r.value]) && forall j :: 0 <= j < r.value ==> !KeywordTable(tables[j])
    ensures (forall j :: 0 <= j < |tables| ==> !KeywordTable(tables[j])) ==>
      (r.Some? ==> StructuralTable(tables[r.value]) && forall j :: 0 <= j < r.value ==> !StructuralTable(tables[j])) &&
      (r.None? <==> forall j :: 0 <= j < |tables| ==> !StructuralTable(tables[j]))
  {
    match FirstWhere(tables, KeywordTable, 0)
    case Some(i) => Some(i)
    case None => FirstWhere(tables, StructuralTable, 0)
  }

  /** The two selection loops of `get_yearly_stats`, each stopping at the
      first table it accepts; the structural loop runs only when the keyword
      loop found nothing. */
  method SelectTable(tables: seq<Table>) returns (selected: Option<nat>)
    ensures selected == SelectedTable(tables)
  {
    selected := None;
    var i := 0;
    while i < |tables|
      invariant 0 <= i <= |tables| && selected.None?
      invariant forall j :: 0 <= j < i ==> !KeywordTable(tables[j])
    {
      var lowCaption := Lower(tables[i].caption);
      var lowText := Lower(tables[i].text);
      if Contains(lowCaption, "standings") || Contains(lowCaption, "team standings") {
        selected := Some(i);
        break;
      } else if Contains(lowText, "standings") || Contains(lowText, "team standings") {
        selected := Some(i);
        break;
      }
      i := i + 1;
    }
    if selected.None? {
      var t := 0;
      while t < |tables|
        invariant 0 <= t <= |tables|
        invariant forall j :: 0 <= j < |tables| ==> !KeywordTable(tables[j])
        invariant selected.None?
        invariant forall j :: 0 <= j < t ==> !StructuralTable(tables[j])
      {
        var rows := tables[t].rows;
        if |rows| < 5 {
          t := t + 1;
          continue;
        }
        var r := 1;
        while r < |rows|
          invariant 1 <= r <= |rows|
          invariant forall k :: 1 <= k < r ==> !ParsableRow(rows[k])
          invariant selected.None?
        {
          var cols := rows[r];
          if |cols| >= 3 {
            var wins := ParseInt(cols[1]);
            if wins.Some? {
              var losses := ParseInt(cols[2]);
              if losses.Some? {
                selected := Some(t);
                break;
              }
            }
          }
          r := r + 1;
        }
        if selected.Some? {
          break;
        }
        t := t + 1;
      }
    }
  }

  /** A row turned into a standings row when it is parsable. */
  function ParseRow(row: seq<string>): (r: Option<StandingsRow>)
    ensures r.Some? <==> ParsableRow(row)
  {
    if |row| >= 3 then
      match (ParseInt(row[1]), ParseInt(row[2]))
      case (Some(w), Some(l)) => Some(StandingsRow(row[0], w, l))
      case _ => None
    else None
  }

  /** `find_all("tr")[1:]`: every row but the header row. */
  function DataRows(t: Table): seq<seq<string>> {
    if t.rows == [] then [] else t.rows[1..]
  }

  /** The parsed rows, in document order; rows that do not parse are dropped. */
  function ParsedRows(rows: seq<seq<string>>): seq<StandingsRow> {
    if rows == [] then []
    else
      var last := rows[|rows| - 1];
      ParsedRows(rows[..|rows| - 1]) + match ParseRow(last) case Some(r) => [r] case None => []
  }

  /** Parsing distributes over concatenation: the parsed rows keep the
      order of the rows they come from. */
  lemma {:induction false} ParsedRowsAppend(a: seq<seq<string>>, b: seq<seq<string>>)
    ensures ParsedRows(a + b) == ParsedRows(a) + ParsedRows(b)
    decreases |b|
  {
    if b == [] {
      assert a + b == a;
    } else {
      ParsedRowsAppend(a, b[..|b| - 1]);
      assert (a + b)[..|a + b| - 1] == a + b[..|b| - 1];
    }
  }

  /** Each parsed row is the parse of some row, and the parsed rows are
      never more than the rows. */
  lemma {:induction false} ParsedRowsFrom(rows: seq<seq<string>>)
    ensures |ParsedRows(rows)| <= |rows|
    ensures forall k :: 0 <= k < |ParsedRows(rows)| ==>
      exists j :: 0 <= j < |rows| && ParseRow(rows[j]) == Some(ParsedRows(rows)[k])
  {
    if rows != [] {
      var init := rows[..|rows| - 1];
      ParsedRowsFrom(init);
      forall k | 0 <= k < |ParsedRows(rows)|
        ensures exists j :: 0 <= j < |rows| && ParseRow(rows[j]) == Some(ParsedRows(rows)[k])
      {
        if k < |ParsedRows(init)| {
          var j :| 0 <= j < |init| && ParseRow(init[j]) == Some(ParsedRows(init)[k]);
          assert rows[j] == init[j];
        } else {
          assert ParseRow(rows[|rows| - 1]) == Some(ParsedRows(rows)[k]);
        }
      }
    }
  }

  /** Some row parses exactly when some row is parsable. */
  lemma {:induction false} ParsedRowsNonEmpty(rows: seq<seq<string>>)
    ensures ParsedRows(rows) != [] <==> exists k :: 0 <= k < |rows| && ParsableRow(rows[k])
  {
    if rows != [] {
      var init := rows[..|rows| - 1];
      ParsedRowsNonEmpty(init);
      if exists k :: 0 <= k < |init| && ParsableRow(init[k]) {
        var k :| 0 <= k < |init| && ParsableRow(init[k]);
        assert rows[k] == init[k];
      }
      if exists k :: 0 <= k < |rows| && ParsableRow(rows[k]) {
        var k :| 0 <= k < |rows| && ParsableRow(rows[k]);
        if k < |init| {
          assert init[k] == rows[k];
        }
      }
    }
  }

  /** A table accepted by the structural test always yields parsed rows. */
  lemma StructuralTableParses(t: Table)
    requires StructuralTable(t)
    ensures ParsedRows(DataRows(t)) != []
  {
    var k :| 1 <= k < |t.rows| && ParsableRow(t.rows[k]);
    assert DataRows(t)[k - 1] == t.rows[k];
    ParsedRowsNonEmpty(DataRows(t));
  }

  /** The row loop of `get_yearly_stats`: header skipped, a row appended
      when it has three cells and its wins and losses parse. */
  method ParseStandings(t: Table) returns (teams: seq<StandingsRow>)
    ensures teams == ParsedRows(DataRows(t))
  {
    var rows := DataRows(t);
    teams := [];
    var i := 0;
    while i < |rows|
      invariant 0 <= i <= |rows|
      invariant teams == ParsedRows(rows[..i])
    {
      var cols := rows[i];
      if |cols| >= 3 {
        var team := cols[0];
        var wins := ParseInt(cols[1]);
        var losses := ParseInt(cols[2]);
        if wins.Some? && losses.Some? {
          teams := teams + [StandingsRow(team, wins.value, losses.value)];
        }
      }
      assert rows[..i + 1][..i] == rows[..i];
      i := i + 1;
    }
    assert rows[..i] == rows;
  }

  /** Python's `max` with a key: the index of the first greatest key. */
  function FirstMaxIndex(keys: seq<int>): (k: nat)
    requires |keys| > 0
    ensures k < |keys|
    ensures forall j :: 0 <= j < |keys| ==> keys[j] <= keys[k]
    ensures forall j :: 0 <= j < k ==> keys[j] < keys[k]
  {
    if |keys| == 1 then 0
    else
      var k := FirstMaxIndex(keys[..|keys| - 1]);
      if keys[|keys| - 1] > keys[k] then |keys| - 1 else k
  }

  function Wins(teams: seq<StandingsRow>): seq<int> {
    seq(|teams|, i requires 0 <= i < |teams| => teams[i].wins)
  }

  function Losses(teams: seq<StandingsRow>): seq<int> {
    seq(|teams|, i requires 0 <= i < |teams| => teams[i].losses)
  }

  /** `max(all_teams, key=lambda x: x["wins"])`: no row has more wins, and
      every earlier row has fewer. */
  function MostWins(teams: seq<StandingsRow>): (r: StandingsRow)
    requires teams != []
    ensures exists k :: 0 <= k < |teams| && teams[k] == r && forall j :: 0 <= j < k ==> teams[j].wins < r.wins
    ensures forall j :: 0 <= j < |teams| ==> teams[j].wins <= r.wins
  {
    var k := FirstMaxIndex(Wins(teams));
    assert forall j :: 0 <= j < |teams| ==> Wins(teams)[j] == teams[j].wins;
    teams[k]
  }

  /** `max(all_teams, key=lambda x: x["losses"])`, likewise over losses. */
  function MostLosses(teams: seq<StandingsRow>): (r: StandingsRow)
    requires teams != []
    ensures exists k :: 0 <= k < |teams| && teams[k] == r && forall j :: 0 <= j < k ==> teams[j].losses < r.losses
    ensures forall j :: 0 <= j < |teams| ==> teams[j].losses <= r.losses
  {
    var k := FirstMaxIndex(Losses(teams));
    assert forall j :: 0 <= j < |teams| ==> Losses(teams)[j] == teams[j].losses;
    teams[k]
  }

  /** Row `k` has the most wins, and every earlier row has fewer. */
  predicate IsMostWins(teams: seq<StandingsRow>, k: nat)
    requires k < |teams|
  {
    (forall j :: 0 <= j < |teams| ==> teams[j].wins <= teams[k].wins) &&
    (forall j :: 0 <= j < k ==> teams[j].wins < teams[k].wins)
  }

  /** Row `k` has the most losses, and every earlier row has fewer. */
  predicate IsMostLosses(teams: seq<StandingsRow>, k: nat)
    requires k < |teams|
  {
    (forall j :: 0 <= j < |teams| ==> teams[j].losses <= teams[k].losses) &&
    (forall j :: 0 <= j < k ==> teams[j].losses < teams[k].losses)
  }

  /** On a tie for most wins the earlier row leads. */
  lemma TieGoesToFirstRow()
    ensures MostWins([StandingsRow("A", 10, 5), StandingsRow("B", 10, 2)]).team == "A"
  {
    var teams := [StandingsRow("A", 10, 5), StandingsRow("B", 10, 2)];
    var r := MostWins(teams);
    var k :| 0 <= k < |teams| && teams[k] == r && forall j :: 0 <= j < k ==> teams[j].wins < r.wins;
    assert k == 0;
  }
}
