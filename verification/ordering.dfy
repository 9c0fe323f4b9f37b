/** Episode and season numbering within a show: the number an episode gets,
    the season it goes to, where a special is placed between the normal
    episodes, and which extra type an episode is. */
module Ordering {
  import opened Wrappers
  import opened Episodes
  import opened Seasons
  import opened Shows
  import Strings

  /** Why a number cannot be given (the source throws). */
  datatype OrderingError = SeriesNotInGroup | EpisodeNotInList

  /** Where specials go. */
  datatype SpecialOrderType =
    | DefaultPlacement | Excluded | AfterSeason | InBetweenSeasonMixed
    | InBetweenSeasonByAirDate | InBetweenSeasonByOtherData

  // ----- Season number -----

  /** The season an episode goes to: its season's base number, or the next
      one for "other" episodes. A season the show did not number is an error. */
  function GetSeasonNumber(show: Show, season: Season, episode: Episode): (r: Result<int, OrderingError>)
    ensures r.Failure? <==> season.id !in show.numbering.base
    ensures r.Success? && episode.kind != Other ==> r.value == show.numbering.base[season.id]
    ensures r.Success? && episode.kind == Other ==> r.value == show.numbering.base[season.id] + 1
  {
    if season.id !in show.numbering.base then Failure(SeriesNotInGroup)
    else if episode.kind == Other then Success(show.numbering.base[season.id] + 1)
    else Success(show.numbering.base[season.id])
  }

  /** In a numbered show, the season number of an episode leads back to its
      season: always for the base number, and for "other" episodes whenever
      the season took an extra number. */
  lemma SeasonNumberLeadsBack(show: Show, i: nat, episode: Episode)
    requires Number(show.seasonList) == Some(show.numbering)
    requires i < |show.seasonList|
    requires episode.kind == Other ==> Slots(show.seasonList[i]) > 1
    ensures GetSeasonNumber(show, show.seasonList[i], episode).Success?
    ensures SeasonByNumber(show, GetSeasonNumber(show, show.seasonList[i], episode).value)
      == Some(show.seasonList[i])
  {
    NumberPositions(show.seasonList, i);
  }

  // ----- Episode number -----

  /** `FindIndex` by id: the first position whose id matches, or -1. */
  function FindSeason(list: seq<Season>, id: string): (r: int)
    ensures -1 <= r < |list|
    ensures r >= 0 ==> list[r].id == id && forall j :: 0 <= j < r ==> list[j].id != id
    ensures r == -1 <==> forall j :: 0 <= j < |list| ==> list[j].id != id
    decreases |list|
  {
    if |list| == 0 then -1
    else if list[0].id == id then 0
    else
      var r := FindSeason(list[1..], id);
      if r == -1 then -1 else r + 1
  }

  /** `FindIndex` by id among episodes. */
  function FindEpisode(list: seq<Episode>, id: string): (r: int)
    ensures -1 <= r < |list|
    ensures r >= 0 ==> list[r].id == id && forall j :: 0 <= j < r ==> list[j].id != id
    ensures r == -1 <==> forall j :: 0 <= j < |list| ==> list[j].id != id
    decreases |list|
  {
    if |list| == 0 then -1
    else if list[0].id == id then 0
    else
      var r := FindEpisode(list[1..], id);
      if r == -1 then -1 else r + 1
  }

  /** How many extras the first seasons hold together. */
  function ExtrasCount(list: seq<Season>): (n: nat)
    decreases |list|
  {
    if |list| == 0 then 0 else ExtrasCount(list[..|list| - 1]) + |list[|list| - 1].extrasList|
  }

  /** How many specials the first seasons hold together. */
  function SpecialsCount(list: seq<Season>): (n: nat)
    decreases |list|
  {
    if |list| == 0 then 0 else SpecialsCount(list[..|list| - 1]) + |list[|list| - 1].specialsList|
  }

  /** Counting over a longer prefix counts at least as many. */
  lemma {:induction false} CountsMonotone(list: seq<Season>, j: nat, k: nat)
    requires j <= k <= |list|
    ensures ExtrasCount(list[..j]) <= ExtrasCount(list[..k])
    ensures SpecialsCount(list[..j]) <= SpecialsCount(list[..k])
    ensures j < k ==> ExtrasCount(list[..j]) + |list[j].extrasList| <= ExtrasCount(list[..k])
    ensures j < k ==> SpecialsCount(list[..j]) + |list[j].specialsList| <= SpecialsCount(list[..k])
    decreases k - j
  {
    if j < k {
      CountsMonotone(list, j, k - 1);
      assert list[..k][..k - 1] == list[..k - 1];
      if j + 1 <= k - 1 {
        CountsMonotone(list, j + 1, k - 1);
      }
      assert list[..j + 1][..j] == list[..j];
    }
  }

  /** How far down the list an episode of this type is pushed (the
      fall-through of the type switch); missing sizes count as zero. */
  function TypeOffset(kind: EpisodeType, sizes: Option<Sizes>): (r: int)
    ensures kind == Normal || kind == Other ==> r == 0
  {
    var e := if sizes.Some? then sizes.value.episodes else 0;
    var p := if sizes.Some? then sizes.value.parodies else 0;
    var c := if sizes.Some? then sizes.value.credits else 0;
    var t := if sizes.Some? then sizes.value.trailers else 0;
    match kind
    case Normal => 0
    case Other => 0
    case Parody => e
    case OpeningSong => p + e
    case Trailer => c + p + e
    case _ => t + c + p + e
  }

  /** With counts, the pushed-down types come in a fixed order: parodies,
      then opening songs, then trailers, then the rest. */
  lemma TypeOffsetOrdered(sizes: Sizes, other: EpisodeType)
    requires sizes.episodes >= 0 && sizes.parodies >= 0 && sizes.credits >= 0 && sizes.trailers >= 0
    requires other !in {Normal, Other, Parody, OpeningSong, Trailer}
    ensures 0 <= TypeOffset(Parody, Some(sizes)) <= TypeOffset(OpeningSong, Some(sizes))
    ensures TypeOffset(OpeningSong, Some(sizes)) <= TypeOffset(Trailer, Some(sizes)) <= TypeOffset(other, Some(sizes))
  {
  }

  /** The number of an episode within its season: extras and specials are
      numbered through the whole show, after the ones of earlier seasons;
      other episodes keep their AniDB number, pushed down by their type. */
  function GetEpisodeNumber(show: Show, season: Season, episode: Episode): (r: Result<int, OrderingError>)
    ensures (episode.extraType.Some? || episode.kind == Special) && FindSeason(show.seasonList, season.id) == -1 ==>
      r == Failure(SeriesNotInGroup)
    ensures episode.extraType.Some? ==>
      (r.Success? <==> FindSeason(show.seasonList, season.id) >= 0 && FindEpisode(season.extrasList, episode.id) >= 0)
    ensures episode.extraType.None? && episode.kind == Special ==>
      (r.Success? <==> FindSeason(show.seasonList, season.id) >= 0 && FindEpisode(season.specialsList, episode.id) >= 0)
    ensures r.Failure? && FindSeason(show.seasonList, season.id) >= 0 ==> r.error == EpisodeNotInList
    ensures episode.extraType.None? && episode.kind != Special ==>
      r == Success(TypeOffset(episode.kind, season.sizes) + episode.number)
    ensures r.Success? && episode.extraType.Some? ==>
      var k := FindSeason(show.seasonList, season.id);
      var i := FindEpisode(season.extrasList, episode.id);
      0 <= k && 0 <= i < |season.extrasList| && r.value == ExtrasCount(show.seasonList[..k]) + i + 1
    ensures r.Success? && episode.extraType.None? && episode.kind == Special ==>
      var k := FindSeason(show.seasonList, season.id);
      var i := FindEpisode(season.specialsList, episode.id);
      0 <= k && 0 <= i < |season.specialsList| && r.value == SpecialsCount(show.seasonList[..k]) + i + 1
  {
    if episode.extraType.Some? then
      var k := FindSeason(show.seasonList, season.id);
      if k == -1 then Failure(SeriesNotInGroup)
      else
        var i := FindEpisode(season.extrasList, episode.id);
        if i == -1 then Failure(EpisodeNotInList)
        else Success(ExtrasCount(show.seasonList[..k]) + i + 1)
    else if episode.kind == Special then
      var k := FindSeason(show.seasonList, season.id);
      if k == -1 then Failure(SeriesNotInGroup)
      else
        var i := FindEpisode(season.specialsList, episode.id);
        if i == -1 then Failure(EpisodeNotInList)
        else Success(SpecialsCount(show.seasonList[..k]) + i + 1)
    else Success(TypeOffset(episode.kind, season.sizes) + episode.number)
  }

  /** An extra's number is at least 1 and falls in its season's own block, so
      extras of different seasons never share a number. */
  lemma ExtraNumbersSeparate(show: Show, s1: Season, e1: Episode, s2: Season, e2: Episode)
    requires e1.extraType.Some? && e2.extraType.Some?
    requires GetEpisodeNumber(show, s1, e1).Success? && GetEpisodeNumber(show, s2, e2).Success?
    requires FindSeason(show.seasonList, s1.id) < FindSeason(show.seasonList, s2.id)
    requires show.seasonList[FindSeason(show.seasonList, s1.id)] == s1
    ensures 1 <= GetEpisodeNumber(show, s1, e1).value < GetEpisodeNumber(show, s2, e2).value
  {
    CountsMonotone(show.seasonList, FindSeason(show.seasonList, s1.id), FindSeason(show.seasonList, s2.id));
  }

  /** Within one season, distinct extras get distinct numbers. */
  lemma ExtraNumbersDistinctInSeason(show: Show, s: Season, e1: Episode, e2: Episode)
    requires e1.extraType.Some? && e2.extraType.Some? && e1.id != e2.id
    requires GetEpisodeNumber(show, s, e1).Success? && GetEpisodeNumber(show, s, e2).Success?
    ensures GetEpisodeNumber(show, s, e1).value != GetEpisodeNumber(show, s, e2).value
  {
  }

  // ----- Special placement -----

  /** Where a special airs: before an episode of a season, before a season,
      or after a season; the flag says whether it is a special at all. */
  datatype Placement = Placement(airsBeforeEpisode: Option<int>, airsBeforeSeason: Option<int>,
                                 airsAfterSeason: Option<int>, isSpecial: bool)

  /** A placement in the given season: after it, before it, or before one of
      its episodes, never two of these at once. */
  predicate WellPlaced(p: Placement, seasonNumber: int) {
    && p.isSpecial
    && !(p.airsBeforeSeason.Some? && p.airsAfterSeason.Some?)
    && (p.airsBeforeEpisode.Some? ==> p.airsBeforeSeason.Some?)
    && (p.airsBeforeSeason.Some? ==> p.airsBeforeSeason.value == seasonNumber)
    && (p.airsAfterSeason.Some? ==> p.airsAfterSeason.value == seasonNumber)
  }

  /** Placement by air date: before the episode after the special's anchor
      when that is inside the season, otherwise after the season. */
  function ByAirDate(show: Show, season: Season, episode: Episode, seasonNumber: int): (r: Result<Placement, OrderingError>)
    ensures r.Success? ==> WellPlaced(r.value, seasonNumber)
    ensures episode !in season.specialsAnchors ==> r == Success(Placement(None, None, Some(seasonNumber), true))
    ensures r.Success? && r.value.airsBeforeEpisode.Some? ==>
      episode in season.specialsAnchors && r.value.airsBeforeEpisode.value <= |season.episodeList|
    ensures episode in season.specialsAnchors ==>
      (r.Failure? <==> GetEpisodeNumber(show, season, season.specialsAnchors[episode]).Failure?)
    ensures episode in season.specialsAnchors && r.Success? ==>
      var n := GetEpisodeNumber(show, season, season.specialsAnchors[episode]).value;
      && (n < |season.episodeList| ==> r.value == Placement(Some(n + 1), Some(seasonNumber), None, true))
      && (n >= |season.episodeList| ==> r.value == Placement(None, None, Some(seasonNumber), true))
  {
    if episode in season.specialsAnchors then
      match GetEpisodeNumber(show, season, season.specialsAnchors[episode])
      case Failure(err) => Failure(err)
      case Success(n) =>
        if n < |season.episodeList| then Success(Placement(Some(n + 1), Some(seasonNumber), None, true))
        else Success(Placement(None, None, Some(seasonNumber), true))
    else Success(Placement(None, None, Some(seasonNumber), true))
  }

  /** The episode has TvDB numbering at the given season and episode. */
  predicate AtTvDb(e: Episode, seasonNumber: int, episodeNumber: int)
  {
    e.tvdb.Some? && e.tvdb.value.seasonNumber == seasonNumber && e.tvdb.value.episodeNumber == episodeNumber
  }

  /** The first normal episode with TvDB numbering at the given season and
      episode (`FirstOrDefault`). */
  function NextTvDbEpisode(list: seq<Episode>, seasonNumber: int, episodeNumber: int): (r: Option<Episode>)
    ensures r.Some? ==> r.value in list && r.value.tvdb.Some?
    ensures r.Some? ==> r.value.tvdb.value.seasonNumber == seasonNumber
    ensures r.Some? ==> r.value.tvdb.value.episodeNumber == episodeNumber
    ensures r.None? <==> forall k :: 0 <= k < |list| ==> !AtTvDb(list[k], seasonNumber, episodeNumber)
    ensures r.Some? ==> exists k :: 0 <= k < |list| && list[k] == r.value
                                 && forall j :: 0 <= j < k ==> !AtTvDb(list[j], seasonNumber, episodeNumber)
    decreases |list|
  {
    if |list| == 0 then None
    else if AtTvDb(list[0], seasonNumber, episodeNumber) then Some(list[0])
    else
      var r := NextTvDbEpisode(list[1..], seasonNumber, episodeNumber);
      assert forall k :: 1 <= k < |list| ==> list[k] == list[1..][k - 1];
      if r.Some? then
        var k :| 0 <= k < |list[1..]| && list[1..][k] == r.value
          && forall j :: 0 <= j < k ==> !AtTvDb(list[1..][j], seasonNumber, episodeNumber);
        assert list[k + 1] == r.value;
        r
      else r
  }

  /** Placement from TvDB's "airs before" data; the mixed mode falls back to
      the air-date placement wherever the TvDB data is missing. */
  function ByOtherData(show: Show, season: Season, episode: Episode, seasonNumber: int, mixed: bool)
    : (r: Result<Placement, OrderingError>)
    ensures r.Success? ==> WellPlaced(r.value, seasonNumber)
    ensures episode.tvdb.None? && !mixed ==> r == Success(Placement(None, None, None, true))
    ensures episode.tvdb.None? && mixed ==> r == ByAirDate(show, season, episode, seasonNumber)
    ensures episode.tvdb.Some? && episode.tvdb.value.airsBeforeEpisode.None? && episode.tvdb.value.airsBeforeSeason.Some? ==>
      r == Success(Placement(None, Some(seasonNumber), None, true))
    ensures episode.tvdb.Some? && episode.tvdb.value.airsBeforeEpisode.None? && episode.tvdb.value.airsBeforeSeason.None? ==>
      r == if mixed then ByAirDate(show, season, episode, seasonNumber) else Success(Placement(None, None, Some(seasonNumber), true))
    ensures episode.tvdb.Some? && episode.tvdb.value.airsBeforeEpisode.Some? ==>
      var next := NextTvDbEpisode(season.episodeList, seasonNumber, episode.tvdb.value.airsBeforeEpisode.value);
      && (next.None? ==>
            r == if mixed then ByAirDate(show, season, episode, seasonNumber) else Success(Placement(None, None, None, true)))
      && (next.Some? ==> (r.Failure? <==> GetEpisodeNumber(show, season, next.value).Failure?))
      && (next.Some? && r.Success? ==>
            r.value == Placement(Some(GetEpisodeNumber(show, season, next.value).value), Some(seasonNumber), None, true))
  {
    if episode.tvdb.None? then
      if mixed then ByAirDate(show, season, episode, seasonNumber)
      else Success(Placement(None, None, None, true))
    else
      var tvdb := episode.tvdb.value;
      if tvdb.airsBeforeEpisode.None? then
        if tvdb.airsBeforeSeason.Some? then Success(Placement(None, Some(seasonNumber), None, true))
        else if mixed then ByAirDate(show, season, episode, seasonNumber)
        else Success(Placement(None, None, Some(seasonNumber), true))
      else
        match NextTvDbEpisode(season.episodeList, seasonNumber, tvdb.airsBeforeEpisode.value)
        case Some(next) =>
          (match GetEpisodeNumber(show, season, next)
           case Failure(err) => Failure(err)
           case Success(n) => Success(Placement(Some(n), Some(seasonNumber), None, true)))
        case None =>
          if mixed then ByAirDate(show, season, episode, seasonNumber)
          else Success(Placement(None, None, None, true))
  }

  /** `GetSpecialPlacement`. When specials are excluded or the episode is not
      a special, nothing is placed; otherwise every placement given refers to
      the special's own season number. */
  function GetSpecialPlacement(order: SpecialOrderType, show: Show, season: Season, episode: Episode)
    : (r: Result<Placement, OrderingError>)
    ensures order == Excluded ==> r == Success(Placement(None, None, None, episode.isSpecial))
    ensures order != Excluded && !episode.isSpecial ==> r == Success(Placement(None, None, None, false))
    ensures r.Failure? ==> order != Excluded && episode.isSpecial
    ensures order != Excluded && episode.isSpecial && r.Success? ==>
      GetSeasonNumber(show, season, episode).Success?
      && WellPlaced(r.value, GetSeasonNumber(show, season, episode).value)
    ensures order in {DefaultPlacement, AfterSeason} && episode.isSpecial && r.Success? ==>
      r.value.airsAfterSeason == Some(GetSeasonNumber(show, season, episode).value)
    ensures order != Excluded && episode.isSpecial && GetSeasonNumber(show, season, episode).Failure? ==>
      r == Failure(SeriesNotInGroup)
    ensures episode.isSpecial && GetSeasonNumber(show, season, episode).Success? ==>
      var n := GetSeasonNumber(show, season, episode).value;
      && (order == InBetweenSeasonByAirDate ==> r == ByAirDate(show, season, episode, n))
      && (order == InBetweenSeasonMixed ==> r == ByOtherData(show, season, episode, n, true))
      && (order == InBetweenSeasonByOtherData ==> r == ByOtherData(show, season, episode, n, false))
  {
    if order == Excluded then Success(Placement(None, None, None, episode.isSpecial))
    else if !episode.isSpecial then Success(Placement(None, None, None, false))
    else
      match GetSeasonNumber(show, season, episode)
      case Failure(err) => Failure(err)
      case Success(seasonNumber) =>
        match order
        case InBetweenSeasonByAirDate => ByAirDate(show, season, episode, seasonNumber)
        case InBetweenSeasonMixed => ByOtherData(show, season, episode, seasonNumber, true)
        case InBetweenSeasonByOtherData => ByOtherData(show, season, episode, seasonNumber, false)
        case _ => Success(Placement(None, None, Some(seasonNumber), true))
  }

  /** A special anchored to a normal episode airs right before the episode
      numbered one higher, when the season has one. */
  lemma AirDateFollowsAnchor(show: Show, season: Season, episode: Episode, seasonNumber: int)
    requires episode in season.specialsAnchors
    requires season.specialsAnchors[episode].extraType.None? && season.specialsAnchors[episode].kind == Normal
    requires season.specialsAnchors[episode].number < |season.episodeList|
    ensures ByAirDate(show, season, episode, seasonNumber)
         == Success(Placement(Some(season.specialsAnchors[episode].number + 1), Some(seasonNumber), None, true))
  {
  }

  /** A special TvDB places before a normal episode airs before that
      episode's own number. */
  lemma OtherDataNamesEpisode(show: Show, season: Season, episode: Episode, seasonNumber: int, mixed: bool)
    requires episode.tvdb.Some? && episode.tvdb.value.airsBeforeEpisode.Some?
    requires NextTvDbEpisode(season.episodeList, seasonNumber, episode.tvdb.value.airsBeforeEpisode.value).Some?
    requires var next := NextTvDbEpisode(season.episodeList, seasonNumber, episode.tvdb.value.airsBeforeEpisode.value).value;
      next.extraType.None? && next.kind == Normal
    ensures var next := NextTvDbEpisode(season.episodeList, seasonNumber, episode.tvdb.value.airsBeforeEpisode.value).value;
      ByOtherData(show, season, episode, seasonNumber, mixed) == Success(Placement(Some(next.number), Some(seasonNumber), None, true))
  {
  }

  /** Without TvDB data the mixed placement is the air-date placement. */
  lemma MixedWithoutTvDbIsAirDate(show: Show, season: Season, episode: Episode)
    requires episode.tvdb.None?
    ensures GetSpecialPlacement(InBetweenSeasonMixed, show, season, episode)
         == GetSpecialPlacement(InBetweenSeasonByAirDate, show, season, episode)
  {
  }

  // ----- Extra type -----

  /** `s` holds `sub`, ignoring ASCII case (`sub` is lower case). */
  predicate ContainsIgnoreCase(s: string, sub: string) {
    Strings.Contains(Strings.ToLower(s), sub)
  }

  /** A lower-case text found as it is is also found ignoring case. */
  lemma {:induction false} ContainsIgnoreCaseOfContains(s: string, sub: string)
    requires Strings.IsLower(sub) && Strings.Contains(s, sub)
    ensures ContainsIgnoreCase(s, sub)
    decreases |s|
  {
    if Strings.StartsWith(s, sub) {
      var l := Strings.ToLower(s);
      assert l[..|sub|] == Strings.ToLower(s[..|sub|]);
      assert Strings.ToLower(sub) == sub;
    } else {
      ContainsIgnoreCaseOfContains(s[1..], sub);
      assert Strings.ToLower(s)[1..] == Strings.ToLower(s[1..]);
    }
  }

  /** A cinema intro or outro: the title starts with "cinema " and mentions an intro or an outro. */
  predicate IsCinemaClip(t: string)
  {
    Strings.StartsWith(Strings.ToLower(t), "cinema ") && (ContainsIgnoreCase(t, "intro") || ContainsIgnoreCase(t, "outro"))
  }

  /** A behind-the-scenes title: a making-of, a music-in or an advance screening. */
  predicate IsBehindTheScenes(t: string)
  {
    ContainsIgnoreCase(t, "making of") || ContainsIgnoreCase(t, "music in") || ContainsIgnoreCase(t, "advance screening")
  }

  /** The extra type of a special, from its English title. The tests are
      tried in turn: an interview first, then a cinema clip, then a music
      video, then behind the scenes. */
  function SpecialExtraType(title: Option<string>): (r: Option<ExtraType>)
    ensures r.Some? ==> r.value in {Interview, Clip, ThemeVideo, BehindTheScenes}
    ensures title.None? || title.value == "" ==> r.None?
    ensures r == Some(Interview) <==> title.Some? && title.value != "" && ContainsIgnoreCase(title.value, "interview")
    ensures r == Some(Clip) <==> title.Some? && title.value != "" && !ContainsIgnoreCase(title.value, "interview")
                                 && IsCinemaClip(title.value)
    ensures r == Some(ThemeVideo) <==> title.Some? && title.value != "" && !ContainsIgnoreCase(title.value, "interview")
                                       && !IsCinemaClip(title.value) && ContainsIgnoreCase(title.value, "music video")
    ensures r == Some(BehindTheScenes) <==> title.Some? && title.value != "" && !ContainsIgnoreCase(title.value, "interview")
                                            && !IsCinemaClip(title.value) && !ContainsIgnoreCase(title.value, "music video")
                                            && IsBehindTheScenes(title.value)
  {
    if title.None? || title.value == "" then None
    else
      var t := title.value;
      if ContainsIgnoreCase(t, "interview") then Some(Interview)
      else if Strings.StartsWith(Strings.ToLower(t), "cinema ")
              && (ContainsIgnoreCase(t, "intro") || ContainsIgnoreCase(t, "outro")) then Some(Clip)
      else if ContainsIgnoreCase(t, "music video") then Some(ThemeVideo)
      else if ContainsIgnoreCase(t, "making of") then Some(BehindTheScenes)
      else if ContainsIgnoreCase(t, "music in") then Some(BehindTheScenes)
      else if ContainsIgnoreCase(t, "advance screening") then Some(BehindTheScenes)
      else None
  }

  /** The extra type of an episode. Normal, other and unknown episodes are
      never extras; songs are theme videos; credits and parodies are extras
      of unknown type; specials are extras only when their title says so. */
  function GetExtraType(kind: EpisodeType, title: Option<string>): (r: Option<ExtraType>)
    ensures kind in {Normal, Other, Unknown} ==> r.None?
    ensures kind in {ThemeSong, OpeningSong, EndingSong} ==> r == Some(ThemeVideo)
    ensures r == Some(UnknownExtra) <==> kind in {Credits, Parody}
    ensures r == Some(TrailerVideo) <==> kind == Trailer
    ensures r.Some? && r.value in {Interview, Clip, BehindTheScenes} ==> kind == Special
  {
    match kind
    case Normal => None
    case Other => None
    case Unknown => None
    case ThemeSong => Some(ThemeVideo)
    case OpeningSong => Some(ThemeVideo)
    case EndingSong => Some(ThemeVideo)
    case Trailer => Some(TrailerVideo)
    case Special => SpecialExtraType(title)
    case _ => Some(UnknownExtra)
  }

  /** With extra types assigned this way, the season puts an episode among
      its extras exactly when it has an extra type, among its specials exactly
      when it is a special without one, and drops only unknown episodes. */
  lemma ExtraTypeDecidesList(e: Episode, title: Option<string>)
    requires e.extraType == GetExtraType(e.kind, title)
    ensures IsExtra(e) <==> GetExtraType(e.kind, title).Some?
    ensures IsSpecialEntry(e) <==> e.kind == Special && SpecialExtraType(title).None?
    ensures !(IsNormal(e) || IsAlternate(e) || IsExtra(e) || IsSpecialEntry(e)) <==> e.kind == Unknown
  {
  }
}
