/** The program's state between user actions: the catalogue as stored, the dropdown's list of
    titles and the selected title, and the actions that change them. */
module EpisodePickerApp {
  import opened Wrappers
  import opened TitleText
  import opened Catalogue
  import opened UserInput

  class EpisodePicker {
    /** The rows of the spreadsheet. */
    var rows: seq<Row>
    /** The titles offered by the dropdown. */
    var dropdown: seq<string>
    /** The selected title. */
    var selected: string

    /** Start-up: the stored rows (none when the file had to be created), then a refresh. */
    constructor (stored: seq<Row>)
      ensures rows == stored
      ensures dropdown == Sort(Titles(stored))
      ensures selected == if dropdown == [] then "" else dropdown[0]
    {
      rows := stored;
      new;
      RefreshDropdown();
    }

    /** `refresh_dropdown`: the titles in ascending order, the first of them selected, or the
        empty string when there are none. The selection is the least title of the catalogue. */
    method RefreshDropdown()
      modifies this`dropdown, this`selected
      ensures dropdown == Sort(Titles(rows))
      ensures selected == if dropdown == [] then "" else dropdown[0]
      ensures rows == [] <==> dropdown == []
      ensures forall t :: t in Titles(rows) ==> LexLe(selected, t)
    {
      var seriesList := Sort(Titles(rows));
      assert |seriesList| == |rows| by {
        assert |multiset(seriesList)| == |multiset(Titles(rows))|;
      }
      dropdown := seriesList;
      if |seriesList| > 0 {
        selected := seriesList[0];
        forall t | t in Titles(rows) ensures LexLe(selected, t) {
          assert t in multiset(seriesList);
          SortedHeadIsLeast(seriesList, t);
        }
      } else {
        selected := "";
      }
    }

    /** `add_to_database`: refused, with nothing changed, when the name as typed is already a
        title; otherwise one row is appended and the dropdown refreshed. */
    method AddToDatabase(seriesName: string, counts: seq<int>) returns (added: bool)
      modifies this
      ensures added <==> seriesName !in Titles(old(rows))
      ensures rows == AddRow(old(rows), seriesName, counts)
      ensures added ==> dropdown == Sort(Titles(rows))
                        && selected == (if dropdown == [] then "" else dropdown[0])
      ensures !added ==> dropdown == old(dropdown) && selected == old(selected)
    {
      if seriesName in Titles(rows) {
        return false;
      }
      rows := rows + [NewRow(seriesName, counts)];
      RefreshDropdown();
      added := true;
    }

    /** `manual_entry`: an empty name does nothing; otherwise the season count and one count per
        season are checked, and only a fully valid entry reaches `add_to_database`. */
    method ManualEntry(seriesName: string, seasonCount: int, answers: seq<int>) returns (added: bool)
      modifies this
      ensures rows == if seriesName != [] && ValidEntry(seasonCount, answers)
                      then AddRow(old(rows), seriesName, answers[..seasonCount])
                      else old(rows)
      ensures added <==> seriesName != [] && ValidEntry(seasonCount, answers)
                         && seriesName !in Titles(old(rows))
      ensures added ==> dropdown == Sort(Titles(rows))
                        && selected == (if dropdown == [] then "" else dropdown[0])
      ensures !added ==> dropdown == old(dropdown) && selected == old(selected)
    {
      if seriesName == [] {
        return false;
      }
      var counts := CollectEpisodeCounts(seasonCount, answers);
      if counts.None? {
        return false;
      }
      added := AddToDatabase(seriesName, counts.value);
    }

    /** `search_online`: an empty search does nothing; otherwise the first confirmed candidate's
        per-season episode counts (`seasonsOf`, the answer of the show-metadata service) are
        added, unless no candidate is confirmed or the show has no seasons. */
    method SearchOnline(searchTerm: string, confirms: seq<bool>, seasonsOf: nat -> seq<int>)
      returns (added: bool)
      modifies this
      ensures rows == match FirstConfirmed(confirms)
                      case Some(k) =>
                        if searchTerm != [] && seasonsOf(k) != []
                        then AddRow(old(rows), searchTerm, seasonsOf(k))
                        else old(rows)
                      case None => old(rows)
      ensures added <==> searchTerm != [] && FirstConfirmed(confirms).Some?
                         && seasonsOf(FirstConfirmed(confirms).value) != []
                         && searchTerm !in Titles(old(rows))
      ensures added ==> dropdown == Sort(Titles(rows))
                        && selected == (if dropdown == [] then "" else dropdown[0])
      ensures !added ==> dropdown == old(dropdown) && selected == old(selected)
    {
      if searchTerm == [] {
        return false;
      }
      var chosen := ChooseCandidate(confirms);
      if chosen.None? {
        return false;
      }
      var episodeDict := seasonsOf(chosen.value);
      if episodeDict == [] {
        return false;
      }
      added := AddToDatabase(searchTerm, episodeDict);
    }
  }
}
