/** The catalogue: the spreadsheet's rows (Title, Seasons, Eps Compressed) as an in-memory
    sequence, with lookup by exact title and append-if-absent. */
module Catalogue {
  import opened Wrappers
  import opened EpisodeCodec
  import opened TitleText

  /** One row of the spreadsheet. */
  datatype Row = Row(title: string, seasons: int, epsCompressed: string)

  /** The Title column, in row order. */
  function Titles(rows: seq<Row>): seq<string> {
    seq(|rows|, i requires 0 <= i < |rows| => rows[i].title)
  }

  /** No two rows share a title. */
  predicate UniqueTitles(rows: seq<Row>) {
    forall i, j :: 0 <= i < j < |rows| ==> rows[i].title != rows[j].title
  }

  /** The index of the first row whose Title equals `title` exactly
      (`episodes[episodes["Title"] == series]` and its `.values[0]`). */
  function FindTitle(rows: seq<Row>, title: string): (r: Option<nat>)
    ensures r.Some? ==> r.value < |rows| && rows[r.value].title == title
    ensures r.Some? ==> forall j :: 0 <= j < r.value ==> rows[j].title != title
    ensures r.None? <==> title !in Titles(rows)
  {
    if rows == [] then None
    else if rows[0].title == title then
      assert Titles(rows)[0] == title;
      Some(0)
    else
      assert Titles(rows) == [rows[0].title] + Titles(rows[1..]);
      match FindTitle(rows[1..], title)
      case None => None
      case Some(i) => Some(i + 1)
  }

  /** `extract_episode_data(series)`: the season map of the first row titled `series`, the empty
      map when there is none, and `None` when its Eps Compressed text makes `int()` raise. */
  function ExtractEpisodeData(rows: seq<Row>, series: string): (r: Option<map<int, int>>)
    ensures series !in Titles(rows) ==> r == Some(map[])
  {
    match FindTitle(rows, series)
    case None => Some(map[])
    case Some(i) =>
      match Decode(rows[i].epsCompressed)
      case None => None
      case Some(counts) => Some(SeasonMap(counts))
  }

  /** The row `add_to_database` writes for `seriesName` and its episode dictionary, the dictionary
      `{1: e1, ..., n: en}` being given by its values `counts = [e1, ..., en]`. */
  function NewRow(seriesName: string, counts: seq<int>): Row {
    Row(TitleCase(seriesName), |counts|, Encode(counts))
  }

  /** The catalogue after `add_to_database(seriesName, ...)`: unchanged when the name as typed is
      already a Title, otherwise one new row at the end. The new row is stored under the
      title-cased name, while the check compares the name as typed. */
  function AddRow(rows: seq<Row>, seriesName: string, counts: seq<int>): seq<Row> {
    if seriesName in Titles(rows) then rows else rows + [NewRow(seriesName, counts)]
  }

  /** A duplicate leaves every row as it was; otherwise the old rows stay, unchanged and in order,
      followed by exactly one row holding the title-cased name, the number of entries of the
      episode dictionary, and a text that decodes back to the counts. */
  lemma AddRowShape(rows: seq<Row>, seriesName: string, counts: seq<int>)
    ensures seriesName in Titles(rows) ==> AddRow(rows, seriesName, counts) == rows
    ensures seriesName !in Titles(rows) ==>
      var r := AddRow(rows, seriesName, counts);
      && |r| == |rows| + 1
      && r[..|rows|] == rows
      && r[|rows|].title == TitleCase(seriesName)
      && r[|rows|].seasons == |SeasonMap(counts)|
      && Decode(r[|rows|].epsCompressed) == Some(counts)
  {
    SeasonMapShape(counts);
    EncodeDecodeRoundTrip(counts);
    if seriesName !in Titles(rows) {
      assert (rows + [NewRow(seriesName, counts)])[..|rows|] == rows;
    }
  }

  /** Appending a row leaves the first match of every title already present where it was;
      a title not present before is found at the new row, if it has that title. */
  lemma {:induction false} FindTitleAppend(rows: seq<Row>, row: Row, title: string)
    ensures FindTitle(rows + [row], title) ==
      if title in Titles(rows) then FindTitle(rows, title)
      else if row.title == title then Some(|rows|)
      else None
  {
    if rows != [] {
      assert (rows + [row])[1..] == rows[1..] + [row];
      assert Titles(rows) == [rows[0].title] + Titles(rows[1..]);
      FindTitleAppend(rows[1..], row, title);
    }
  }

  /** After a successful add, looking the series up by its stored (title-cased) name yields
      exactly the season map that was added. */
  lemma LookupAfterAdd(rows: seq<Row>, seriesName: string, counts: seq<int>)
    requires seriesName !in Titles(rows) && TitleCase(seriesName) !in Titles(rows)
    ensures ExtractEpisodeData(AddRow(rows, seriesName, counts), TitleCase(seriesName))
            == Some(SeasonMap(counts))
  {
    FindTitleAppend(rows, NewRow(seriesName, counts), TitleCase(seriesName));
    EncodeDecodeRoundTrip(counts);
  }

  /** Adding a series changes no other lookup: every title other than the new row's, and every
      title already present (the first row with a title wins), reads as before. */
  lemma AddKeepsOtherLookups(rows: seq<Row>, seriesName: string, counts: seq<int>, title: string)
    requires title != TitleCase(seriesName) || title in Titles(rows)
    ensures ExtractEpisodeData(AddRow(rows, seriesName, counts), title) == ExtractEpisodeData(rows, title)
  {
    var row := NewRow(seriesName, counts);
    FindTitleAppend(rows, row, title);
    if seriesName !in Titles(rows) {
      match FindTitle(rows, title)
      case None =>
      case Some(i) =>
        assert (rows + [row])[i] == rows[i];
    }
  }

  /** When the name typed is already in title case the duplicate check is effective, and the
      catalogue keeps its titles unique. */
  lemma AddKeepsTitlesUnique(rows: seq<Row>, seriesName: string, counts: seq<int>)
    requires UniqueTitles(rows)
    requires TitleCase(seriesName) == seriesName
    ensures UniqueTitles(AddRow(rows, seriesName, counts))
  {
    if seriesName !in Titles(rows) {
      var r := AddRow(rows, seriesName, counts);
      forall i, j | 0 <= i < j < |r| ensures r[i].title != r[j].title {
        if j == |rows| {
          assert Titles(rows)[i] == rows[i].title;
        }
      }
    }
  }

  /** A name typed in a different case from its stored title passes the duplicate check: adding
      "foo" to a catalogue holding "Foo" stores a second row titled "Foo". */
  lemma CaseVariantIsNotADuplicate()
    ensures var rows := [NewRow("Foo", [3, 5])];
            && rows[0].title == "Foo"
            && AddRow(rows, "foo", [3, 5]) == rows + [NewRow("foo", [3, 5])]
            && NewRow("foo", [3, 5]).title == "Foo"
            && !UniqueTitles(AddRow(rows, "foo", [3, 5]))
  {
    var foo, cap := "foo", "Foo";
    TitleCaseAt(foo, 0);
    TitleCaseAt(foo, 1);
    TitleCaseAt(foo, 2);
    assert TitleCase(foo) == cap;
    TitleCaseAt(cap, 0);
    TitleCaseAt(cap, 1);
    TitleCaseAt(cap, 2);
    assert TitleCase(cap) == cap;
    var rows := [NewRow(cap, [3, 5])];
    assert Titles(rows) == [cap];
    assert foo !in Titles(rows);
    var r := AddRow(rows, foo, [3, 5]);
    assert r[0].title == r[1].title;
  }

  /** More generally, a name not already in title case can be added again and again: each add
      appends one more row under the same title. */
  lemma RepeatedAddOfUntitledName(rows: seq<Row>, seriesName: string, counts: seq<int>)
    requires seriesName !in Titles(rows)
    requires TitleCase(seriesName) != seriesName
    ensures var once := AddRow(rows, seriesName, counts);
            AddRow(once, seriesName, counts) == once + [NewRow(seriesName, counts)]
  {
    var once := AddRow(rows, seriesName, counts);
    assert once == rows + [NewRow(seriesName, counts)];
    assert Titles(once) == Titles(rows) + [TitleCase(seriesName)];
  }
}
