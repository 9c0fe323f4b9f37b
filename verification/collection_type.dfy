/** `CollectionTypeExtensions.ConvertToCollectionType`: from the option a
    library is configured with to the collection type Jellyfin uses. */
module CollectionTypes {
  import opened Wrappers

  /** The library options; `UndefinedOption` stands for any value outside the
      named ones, which the enum type admits. */
  datatype CollectionTypeOptions =
    | MoviesOption | TvShowsOption | MusicOption | MusicVideosOption
    | HomeVideosOption | BoxSetsOption | BooksOption | MixedOption
    | UndefinedOption(value: int)

  /** Jellyfin's collection types. */
  datatype CollectionType =
    | Unknown | Movies | TvShows | Music | MusicVideos | Trailers
    | HomeVideos | BoxSets | Books | Photos | LiveTv | Playlists | Folders

  /** The collection type named as the option is, if any. */
  function SameNamed(o: CollectionTypeOptions): (r: Option<CollectionType>)
  {
    match o
    case MoviesOption => Some(Movies)
    case TvShowsOption => Some(TvShows)
    case MusicOption => Some(Music)
    case MusicVideosOption => Some(MusicVideos)
    case HomeVideosOption => Some(HomeVideos)
    case BoxSetsOption => Some(BoxSets)
    case BooksOption => Some(Books)
    case _ => None
  }

  /** The option named as the collection type is, if any. */
  function OptionFor(t: CollectionType): (r: Option<CollectionTypeOptions>)
  {
    match t
    case Movies => Some(MoviesOption)
    case TvShows => Some(TvShowsOption)
    case Music => Some(MusicOption)
    case MusicVideos => Some(MusicVideosOption)
    case HomeVideos => Some(HomeVideosOption)
    case BoxSets => Some(BoxSetsOption)
    case Books => Some(BooksOption)
    case _ => None
  }

  /** The conversion: the seven named options map to the same-named type,
      "mixed" maps to no type, and a missing or undefined option to unknown. */
  function ConvertToCollectionType(o: Option<CollectionTypeOptions>): (r: Option<CollectionType>)
    ensures o.Some? && SameNamed(o.value).Some? ==> r == SameNamed(o.value)
    ensures o == Some(MixedOption) <==> r.None?
    ensures o.None? ==> r == Some(Unknown)
    ensures o.Some? && o.value.UndefinedOption? ==> r == Some(Unknown)
  {
    match o
    case None => Some(Unknown)
    case Some(MixedOption) => None
    case Some(v) =>
      match SameNamed(v)
      case Some(t) => Some(t)
      case None => Some(Unknown)
  }

  /** A converted named option converts back to itself, so no two named
      options share a type; every other option lands on unknown or none. */
  lemma ConvertRoundTrip(o: CollectionTypeOptions)
    ensures SameNamed(o).Some? ==>
      ConvertToCollectionType(Some(o)).Some?
      && OptionFor(ConvertToCollectionType(Some(o)).value) == Some(o)
    ensures SameNamed(o).None? ==>
      ConvertToCollectionType(Some(o)) in {None, Some(Unknown)}
  {
  }

  /** Every type with a same-named option is reached from that option. */
  lemma ConvertOnto(t: CollectionType)
    requires OptionFor(t).Some?
    ensures ConvertToCollectionType(OptionFor(t)) == Some(t)
  {
  }

  /** The types a conversion can give are exactly the seven with a
      same-named option and unknown; trailers, photos, live TV, playlists and
      folders are never given. */
  lemma ConvertImage(t: CollectionType)
    ensures (exists o :: ConvertToCollectionType(o) == Some(t)) <==> OptionFor(t).Some? || t == Unknown
  {
    if OptionFor(t).Some? {
      ConvertOnto(t);
    } else if t == Unknown {
      assert ConvertToCollectionType(None) == Some(Unknown);
    } else {
      forall o ensures ConvertToCollectionType(o) != Some(t) {
        if o.Some? && SameNamed(o.value).Some? {
          ConvertRoundTrip(o.value);
        }
      }
    }
  }
}
