/** A show: its seasons in order and the season numbers they take. Every
    season takes the next number as its base; a season with alternate
    episodes takes one more number, and one with "other" episodes another. */
module Shows {
  import opened Wrappers
  import opened Episodes
  import opened Seasons
  import Seqs

  /** The numbering the constructors build: the base number of every season
      (by id), the season each number leads to, and the last number used. */
  datatype Numbering = Numbering(base: map<string, int>, order: map<int, Season>, offset: int)

  /** What the model reads of a show. */
  datatype Show = Show(id: Option<string>, name: string, seasonList: seq<Season>,
                       numbering: Numbering, defaultSeason: Option<Season>)

  /** How many season numbers a season takes. */
  function Slots(s: Season): (n: nat)
    ensures 1 <= n <= 3
  {
    1 + (if |s.alternateEpisodesList| > 0 then 1 else 0) + (if |s.othersList| > 0 then 1 else 0)
  }

  /** How many season numbers the seasons take together. */
  function SlotsOf(list: seq<Season>): (n: nat)
    ensures n >= |list|
    decreases |list|
  {
    if |list| == 0 then 0 else SlotsOf(list[..|list| - 1]) + Slots(list[|list| - 1])
  }

  /** The season ids, in order. */
  function Ids(list: seq<Season>): (r: seq<string>)
    ensures |r| == |list|
    ensures forall i :: 0 <= i < |list| ==> r[i] == list[i].id
  {
    seq(|list|, i requires 0 <= i < |list| => list[i].id)
  }

  /** The numbers one season takes after `offset`. */
  function Place(n: Numbering, s: Season): (r: Numbering)
    ensures r.offset == n.offset + Slots(s)
    ensures r.base == n.base[s.id := n.offset + 1]
    ensures forall k :: k in r.order <==> k in n.order || n.offset < k <= r.offset
    ensures forall k :: k in n.order && !(n.offset < k <= r.offset) ==> r.order[k] == n.order[k]
    ensures forall k :: n.offset < k <= r.offset ==> r.order[k] == s
  {
    var b := n.offset + 1;
    var order1 := n.order[b := s];
    var o2 := if |s.alternateEpisodesList| > 0 then b + 1 else b;
    var order2 := if |s.alternateEpisodesList| > 0 then order1[o2 := s] else order1;
    var o3 := if |s.othersList| > 0 then o2 + 1 else o2;
    var order3 := if |s.othersList| > 0 then order2[o3 := s] else order2;
    Numbering(n.base[s.id := b], order3, o3)
  }

  /** The loop of the group constructor, read from the end: adding a season
      whose id is already numbered fails, as the dictionary does. */
  function Number(list: seq<Season>): (r: Option<Numbering>)
    decreases |list|
  {
    if |list| == 0 then Some(Numbering(map[], map[], 0))
    else
      match Number(list[..|list| - 1])
      case None => None
      case Some(n) =>
        var s := list[|list| - 1];
        if s.id in n.base then None else Some(Place(n, s))
  }

  /** The numbering exists exactly when the season ids are distinct; the
      numbers used are then 1 to the total slot count with no gap, and every
      season id is numbered. */
  lemma {:induction false} NumberShape(list: seq<Season>)
    ensures Number(list).Some? <==> Seqs.NoDuplicates(Ids(list))
    ensures Number(list).Some? ==>
      Number(list).value.offset == SlotsOf(list)
      && (forall k :: k in Number(list).value.order <==> 1 <= k <= SlotsOf(list))
      && (forall id :: id in Number(list).value.base <==> id in Ids(list))
    decreases |list|
  {
    if |list| > 0 {
      var prefix := list[..|list| - 1];
      var s := list[|list| - 1];
      NumberShape(prefix);
      assert Ids(list) == Ids(prefix) + [s.id];
      if Seqs.NoDuplicates(Ids(list)) {
        assert Seqs.NoDuplicates(Ids(prefix));
        assert s.id !in Ids(prefix);
      } else if Seqs.NoDuplicates(Ids(prefix)) {
        var i, j :| 0 <= i < j < |Ids(list)| && Ids(list)[i] == Ids(list)[j];
        assert j == |list| - 1;
        assert Ids(prefix)[i] == s.id;
      }
    }
  }

  /** Every season's base number leads back to it, and so do the extra
      numbers it takes right after it (one for alternate episodes, one for
      "other" episodes). */
  lemma NumberPositions(list: seq<Season>, i: nat)
    requires i < |list| && Number(list).Some?
    ensures var n := Number(list).value; var b := SlotsOf(list[..i]) + 1;
      && list[i].id in n.base && n.base[list[i].id] == b
      && forall k :: b <= k < b + Slots(list[i]) ==> k in n.order && n.order[k] == list[i]
  {
    NumberBase(list, i);
    NumberSlots(list, i);
  }

  /** A season's base number is the count of slots before it plus one. */
  lemma {:induction false} NumberBase(list: seq<Season>, i: nat)
    requires i < |list| && Number(list).Some?
    ensures list[i].id in Number(list).value.base
    ensures Number(list).value.base[list[i].id] == SlotsOf(list[..i]) + 1
    decreases |list|
  {
    var prefix := list[..|list| - 1];
    var s := list[|list| - 1];
    assert Number(list) == Some(Place(Number(prefix).value, s));
    if i < |list| - 1 {
      NumberBase(prefix, i);
      assert prefix[..i] == list[..i];
      assert list[i].id != s.id by {
        NumberShape(list);
        assert Ids(list)[i] == list[i].id && Ids(list)[|list| - 1] == s.id;
      }
    } else {
      NumberShape(prefix);
      assert list[..i] == prefix;
    }
  }

  /** The numbers from a season's base number on, one per slot, lead to it. */
  lemma {:induction false} NumberSlots(list: seq<Season>, i: nat)
    requires i < |list| && Number(list).Some?
    ensures var n := Number(list).value; var b := SlotsOf(list[..i]) + 1;
      forall k :: b <= k < b + Slots(list[i]) ==> k in n.order && n.order[k] == list[i]
    decreases |list|
  {
    var prefix := list[..|list| - 1];
    var s := list[|list| - 1];
    NumberShape(prefix);
    var n := Number(prefix).value;
    assert Number(list) == Some(Place(n, s));
    if i < |list| - 1 {
      var b := SlotsOf(list[..i]) + 1;
      assert prefix[..i] == list[..i];
      assert prefix[i] == list[i];
      NumberSlots(prefix, i);
      assert b + Slots(list[i]) <= n.offset + 1 by {
        SlotsPrefix(prefix, i + 1);
        assert prefix[..i + 1] == list[..i] + [list[i]];
        assert prefix[..i + 1][..i] == list[..i];
      }
      forall k | b <= k < b + Slots(list[i])
        ensures k in Place(n, s).order && Place(n, s).order[k] == list[i]
      {
        assert k in n.order && n.order[k] == list[i];
      }
    } else {
      assert list[..i] == prefix;
    }
  }

  /** The slots of a prefix do not exceed those of the whole list. */
  lemma {:induction false} SlotsPrefix(list: seq<Season>, k: nat)
    requires k <= |list|
    ensures SlotsOf(list[..k]) <= SlotsOf(list)
    decreases |list|
  {
    if k < |list| {
      var prefix := list[..|list| - 1];
      assert list[..k] == prefix[..k];
      SlotsPrefix(prefix, k);
    } else {
      assert list[..k] == list;
    }
  }

  /** Every number leads to a season of the list. */
  lemma {:induction false} NumberTargets(list: seq<Season>)
    requires Number(list).Some?
    ensures forall k :: k in Number(list).value.order ==> Number(list).value.order[k] in list
    decreases |list|
  {
    if |list| > 0 {
      var prefix := list[..|list| - 1];
      NumberTargets(prefix);
      forall x | x in prefix ensures x in list {
        var k :| 0 <= k < |prefix| && prefix[k] == x;
        assert list[k] == x;
      }
    }
  }

  /** The single-season constructor: base number 1, then a number for the
      alternate episodes and one for the "other" episodes, if any. */
  function SingleSeasonNumbering(s: Season): (r: Numbering)
    ensures r.base == map[s.id := 1]
    ensures 1 in r.order && r.order[1] == s
    ensures forall k :: k in r.order <==> 1 <= k <= Slots(s)
    ensures forall k :: k in r.order ==> r.order[k] == s
  {
    Place(Numbering(map[], map[], 0), s)
  }

  /** It numbers the season as the group constructor does for a one-season
      list. */
  lemma SingleSeasonAgrees(s: Season)
    ensures Number([s]) == Some(SingleSeasonNumbering(s))
  {
    assert [s][..0] == [];
  }

  /** `GetSeriesInfoBySeasonNumber`: season 0 (the specials) and unknown
      numbers have no season. */
  function SeasonByNumber(show: Show, seasonNumber: int): (r: Option<Season>)
    ensures seasonNumber == 0 ==> r.None?
    ensures r.Some? <==> seasonNumber != 0 && seasonNumber in show.numbering.order
    ensures r.Some? ==> r.value == show.numbering.order[seasonNumber]
  {
    if seasonNumber == 0 || seasonNumber !in show.numbering.order then None
    else Some(show.numbering.order[seasonNumber])
  }

  /** For a numbered show, exactly the numbers 1 to the slot count lead to a
      season, and each leads to a season of the show; a season's base number
      leads to it. */
  lemma SeasonByNumberSound(show: Show, i: nat, k: int)
    requires Number(show.seasonList) == Some(show.numbering)
    requires i < |show.seasonList|
    ensures SeasonByNumber(show, k).Some? <==> 1 <= k <= SlotsOf(show.seasonList)
    ensures SeasonByNumber(show, k).Some? ==> SeasonByNumber(show, k).value in show.seasonList
    ensures SeasonByNumber(show, SlotsOf(show.seasonList[..i]) + 1) == Some(show.seasonList[i])
  {
    SeasonByNumberRange(show, k);
    SeasonByBaseNumber(show, i);
  }

  /** The numbers that lead to a season are 1 to the slot count, and each
      leads to a season of the show. */
  lemma SeasonByNumberRange(show: Show, k: int)
    requires Number(show.seasonList) == Some(show.numbering)
    ensures SeasonByNumber(show, k).Some? <==> 1 <= k <= SlotsOf(show.seasonList)
    ensures SeasonByNumber(show, k).Some? ==> SeasonByNumber(show, k).value in show.seasonList
  {
    NumberShape(show.seasonList);
    NumberTargets(show.seasonList);
  }

  /** A season's base number leads to it. */
  lemma SeasonByBaseNumber(show: Show, i: nat)
    requires Number(show.seasonList) == Some(show.numbering)
    requires i < |show.seasonList|
    ensures SeasonByNumber(show, SlotsOf(show.seasonList[..i]) + 1) == Some(show.seasonList[i])
  {
    NumberPositions(show.seasonList, i);
  }

  // ----- The group constructor -----

  /** Which series of a group the show holds. */
  datatype GroupFilterType = NoFilter | Movies | Others

  /** How the seasons are ordered. */
  datatype OrderType = DefaultOrder | ReleaseDate | Chronological

  /** The series the filter keeps. */
  function FilterSeries(list: seq<Season>, filter: GroupFilterType): (r: seq<Season>)
    ensures filter == NoFilter ==> r == list
    ensures forall s :: s in r <==> s in list && (filter == Movies ==> s.seriesType == Movie)
                                            && (filter == Others ==> s.seriesType != Movie)
  {
    match filter
    case NoFilter => list
    case Movies => Seqs.Filter(list, (s: Season) => s.seriesType == Movie)
    case Others => Seqs.Filter(list, (s: Season) => s.seriesType != Movie)
  }

  /** The position of the default season: the first one under release-date
      order, otherwise the group's main series, falling back to the first
      season when it is not in the list. */
  function FoundIndex(list: seq<Season>, orderType: OrderType, mainSeries: string): (r: nat)
    ensures |list| > 0 ==> r < |list|
    ensures orderType == ReleaseDate ==> r == 0
    ensures orderType != ReleaseDate && mainSeries in Ids(list) ==>
      list[r].id == mainSeries && mainSeries !in Ids(list[..r])
    ensures orderType != ReleaseDate && mainSeries !in Ids(list) ==> r == 0
  {
    if orderType == ReleaseDate || mainSeries !in Ids(list) then 0
    else
      var i := Seqs.FirstIndex(Ids(list), mainSeries);
      assert Ids(list[..i]) == Ids(list)[..i];
      i
  }

  /** The group constructor, given the series after filtering and ordering
      (the order itself comes from the release dates or the chronological
      comparer). It fails when a season would be numbered twice. */
  function NewShow(groupId: string, groupName: string, ordered: seq<Season>,
                   orderType: OrderType, mainSeries: string): (r: Option<Show>)
    ensures r.Some? <==> Seqs.NoDuplicates(Ids(ordered))
    ensures r.Some? ==> r.value.seasonList == ordered && Number(ordered) == Some(r.value.numbering)
    ensures r.Some? && |ordered| == 0 ==> r.value.defaultSeason.None? && r.value.name == groupName
    ensures r.Some? && |ordered| > 0 ==>
      var d := ordered[FoundIndex(ordered, orderType, mainSeries)];
      r.value.defaultSeason == Some(d) && r.value.name == d.name
  {
    NumberShape(ordered);
    match Number(ordered)
    case None => None
    case Some(n) =>
      if |ordered| == 0 then Some(Show(Some(groupId), groupName, ordered, n, None))
      else
        var d := ordered[FoundIndex(ordered, orderType, mainSeries)];
        Some(Show(Some(groupId), d.name, ordered, n, Some(d)))
  }
}
