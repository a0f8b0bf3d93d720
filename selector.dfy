/** `randomizer`: a season drawn from the keys of the episode dictionary, then an episode of it. */
module Selector {

  /** What a draw gives: nothing for an empty dictionary (`(None, None)`), a season and an
      episode, or the season whose count leaves `randint(1, count)` an empty range to draw from
      (Python raises `ValueError` there). */
  datatype Draw = NoData | Picked(season: int, episode: int) | EmptyRange(season: int)

  /** The random choices are nondeterministic: any season key, then any episode from 1 to that
      season's count, may be drawn. Their distribution is not modelled. */
  method Randomizer(seasons: map<int, int>) returns (d: Draw)
    ensures d == NoData <==> seasons == map[]
    ensures d.Picked? ==> d.season in seasons && 1 <= d.episode <= seasons[d.season]
    ensures d.EmptyRange? ==> d.season in seasons && seasons[d.season] < 1
    ensures (forall s :: s in seasons ==> seasons[s] >= 1) && seasons != map[] ==> d.Picked?
  {
    if forall s :: s !in seasons {
      // `not episode_dict`: the dictionary has no key
      assert seasons == map[];
      return NoData;
    }
    var season :| season in seasons;
    if seasons[season] < 1 {
      return EmptyRange(season);
    }
    var episode :| 1 <= episode <= seasons[season];
    d := Picked(season, episode);
  }
}
