/** The episode and series data the numbering, placement and partition logic
    reads. */
module Episodes {
  import opened Wrappers

  /** The AniDB episode types. */
  datatype EpisodeType =
    | Normal | Credits | Special | Trailer | Parody | Other | Unknown
    | ThemeSong | OpeningSong | EndingSong

  /** The Jellyfin extra types the plugin assigns. */
  datatype ExtraType = ThemeVideo | TrailerVideo | Interview | Clip | BehindTheScenes | UnknownExtra

  /** The AniDB series types. */
  datatype SeriesType = UnknownSeries | OtherSeries | TV | TVSpecial | Web | Movie | OVA

  /** TvDB numbering of an episode, with its "airs before" hints. */
  datatype TvDbEpisode = TvDbEpisode(seasonNumber: int, episodeNumber: int,
                                     airsBeforeEpisode: Option<int>, airsBeforeSeason: Option<int>)

  /** An episode: its id, AniDB type and number, the extra type assigned to
      it, whether the show treats it as a special, the size of its local
      files and its TvDB numbering. */
  datatype Episode = Episode(id: string, kind: EpisodeType, number: int, extraType: Option<ExtraType>,
                             isSpecial: bool, size: int, tvdb: Option<TvDbEpisode>)

  /** The per-type episode counts of a series. */
  datatype Sizes = Sizes(episodes: int, parodies: int, credits: int, trailers: int)
}
