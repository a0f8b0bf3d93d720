/** The two dialog-driven loops: the episode counts typed during manual entry, and the
    yes/no confirmation of online search candidates. Dialog answers arrive already parsed. */
module UserInput {
  import opened Wrappers

  /** Manual entry is accepted when the season count is positive and one positive episode count
      was answered for each season; answers past the season count are never asked for. */
  predicate ValidEntry(seasonCount: int, answers: seq<int>) {
    && 0 < seasonCount <= |answers|
    && forall i :: 0 <= i < seasonCount ==> answers[i] > 0
  }

  /** The loop of `manual_entry`: one answer per season, in order; the first non-positive answer
      (or a dialog abandoned before every season was answered) aborts the whole entry. The
      episode dictionary `{1: e1, ..., n: en}` it builds is given by its values `[e1, ..., en]`. */
  method CollectEpisodeCounts(seasonCount: int, answers: seq<int>) returns (counts: Option<seq<int>>)
    ensures counts.Some? <==> ValidEntry(seasonCount, answers)
    ensures counts.Some? ==> |counts.value| == seasonCount && counts.value == answers[..seasonCount]
  {
    if seasonCount <= 0 {
      return None;
    }
    var episodeDict: seq<int> := [];
    for i := 0 to seasonCount
      invariant i <= |answers|
      invariant episodeDict == answers[..i]
      invariant forall j :: 0 <= j < i ==> answers[j] > 0
    {
      if i >= |answers| {
        return None;
      }
      var eps := answers[i];
      if eps <= 0 {
        return None;
      }
      episodeDict := episodeDict + [eps];
    }
    counts := Some(episodeDict);
  }

  /** The candidate of an online search that is accepted: the first one confirmed, if any. */
  function FirstConfirmed(confirms: seq<bool>): (k: Option<nat>)
    ensures k.Some? ==> k.value < |confirms| && confirms[k.value]
    ensures k.Some? ==> forall j :: 0 <= j < k.value ==> !confirms[j]
    ensures k.None? ==> forall j :: 0 <= j < |confirms| ==> !confirms[j]
  {
    if confirms == [] then None
    else if confirms[0] then Some(0)
    else match FirstConfirmed(confirms[1..])
      case None => None
      case Some(k) => Some(k + 1)
  }

  /** The loop of `get_tvmaze_data` over the search results: each candidate is offered in turn
      and the loop stops at the first one confirmed. */
  method ChooseCandidate(confirms: seq<bool>) returns (chosen: Option<nat>)
    ensures chosen == FirstConfirmed(confirms)
  {
    for k := 0 to |confirms|
      invariant forall j :: 0 <= j < k ==> !confirms[j]
    {
      if confirms[k] {
        return Some(k);
      }
    }
    return None;
  }
}
