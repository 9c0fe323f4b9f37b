/** A season (one series of a show) built from its episodes: normal episodes,
    alternate ("other") episodes, extras and specials are separated in one
    pass, and every special is anchored to the last normal episode before it. */
module Seasons {
  import opened Wrappers
  import opened Episodes
  import Seqs

  /** What the rest of the model reads of a season. The anchors are keyed by
      the special itself; two equal episode values stand for the same
      object. */
  datatype Season = Season(
    id: string, name: string, seriesType: SeriesType,
    episodeList: seq<Episode>, alternateEpisodesList: seq<Episode>, othersList: seq<Episode>,
    extrasList: seq<Episode>, specialsList: seq<Episode>,
    specialsAnchors: map<Episode, Episode>, sizes: Option<Sizes>)

  // ----- Classification -----

  predicate IsNormal(e: Episode) { e.kind == Normal }
  predicate IsAlternate(e: Episode) { e.kind == Other }
  predicate IsExtra(e: Episode) { e.kind != Normal && e.kind != Other && e.extraType.Some? }
  predicate IsSpecialEntry(e: Episode) { e.kind == Special && e.extraType.None? }

  /** Every episode lands in at most one list; the ones in none are episodes
      that are neither normal, other, an extra, nor a special (e.g. credits
      without an extra type), which the constructor drops. */
  lemma ClassesDisjoint(e: Episode)
    ensures IsNormal(e) ==> !IsAlternate(e) && !IsExtra(e) && !IsSpecialEntry(e)
    ensures IsAlternate(e) ==> !IsExtra(e) && !IsSpecialEntry(e)
    ensures IsExtra(e) ==> !IsSpecialEntry(e)
    ensures !(IsNormal(e) || IsAlternate(e) || IsExtra(e) || IsSpecialEntry(e)) <==>
      e.kind !in {Normal, Other, Special} && e.extraType.None?
  {
  }

  /** The episodes satisfying `p`, in order; defined from the end so that
      reading one more episode extends it. */
  function Select(eps: seq<Episode>, p: Episode -> bool): (r: seq<Episode>)
    ensures |r| <= |eps|
    decreases |eps|
  {
    if |eps| == 0 then []
    else Select(eps[..|eps| - 1], p) + (if p(eps[|eps| - 1]) then [eps[|eps| - 1]] else [])
  }

  /** The selected episodes are exactly the members satisfying `p`. */
  lemma {:induction false} SelectMembers(eps: seq<Episode>, p: Episode -> bool)
    ensures forall e :: e in Select(eps, p) <==> e in eps && p(e)
    decreases |eps|
  {
    if |eps| > 0 {
      var prefix := eps[..|eps| - 1];
      SelectMembers(prefix, p);
      assert eps == prefix + [eps[|eps| - 1]];
    }
  }

  // ----- Anchors -----

  /** The position of the last normal episode. */
  function LastNormalAt(eps: seq<Episode>): (r: Option<nat>)
    ensures r.Some? ==> r.value < |eps| && IsNormal(eps[r.value])
    ensures r.Some? ==> forall j :: r.value < j < |eps| ==> !IsNormal(eps[j])
    ensures r.None? ==> forall j :: 0 <= j < |eps| ==> !IsNormal(eps[j])
    decreases |eps|
  {
    if |eps| == 0 then None
    else if IsNormal(eps[|eps| - 1]) then Some(|eps| - 1)
    else LastNormalAt(eps[..|eps| - 1])
  }

  /** The first normal episode of a range (`FirstOrDefault`). */
  function FirstNormal(eps: seq<Episode>): (r: Option<Episode>)
    ensures r.Some? ==> IsNormal(r.value) && r.value in eps
    ensures r.None? <==> forall j :: 0 <= j < |eps| ==> !IsNormal(eps[j])
    ensures |eps| > 0 && IsNormal(eps[0]) ==> r == Some(eps[0])
    decreases |eps|
  {
    if |eps| == 0 then None
    else if IsNormal(eps[0]) then Some(eps[0])
    else FirstNormal(eps[1..])
  }

  /** The anchors after reading `eps`: each special is mapped to the last normal
      episode before it, when there is one; a later equal special overwrites. */
  function Anchors(eps: seq<Episode>): (r: map<Episode, Episode>)
    decreases |eps|
  {
    if |eps| == 0 then map[]
    else
      var prefix := eps[..|eps| - 1];
      var e := eps[|eps| - 1];
      var last := LastNormalAt(prefix);
      if IsSpecialEntry(e) && last.Some? then Anchors(prefix)[e := prefix[last.value]]
      else Anchors(prefix)
  }

  /** Every anchored episode is a special of the list, anchored to a normal
      episode of the list; a special gets an anchor only when some normal
      episode comes before one of its occurrences. */
  lemma {:induction false} AnchorsSound(eps: seq<Episode>)
    ensures forall e :: e in Anchors(eps) ==>
      IsSpecialEntry(e) && IsNormal(Anchors(eps)[e]) && Anchors(eps)[e] in eps
      && exists j :: 0 <= j < |eps| && eps[j] == e && LastNormalAt(eps[..j]).Some?
    decreases |eps|
  {
    if |eps| > 0 {
      var prefix := eps[..|eps| - 1];
      AnchorsSound(prefix);
      assert forall j :: 0 <= j < |prefix| ==> prefix[..j] == eps[..j];
      forall x | x in prefix ensures x in eps {
        var k :| 0 <= k < |prefix| && prefix[k] == x;
        assert eps[k] == x;
      }
    }
  }

  /** The last special of the list is anchored to the last normal episode
      before it, and has no anchor when there is none. */
  lemma LastSpecialAnchor(eps: seq<Episode>)
    requires |eps| > 0 && IsSpecialEntry(eps[|eps| - 1])
    ensures var prefix := eps[..|eps| - 1];
      var last := LastNormalAt(prefix);
      (last.Some? ==> Anchors(eps)[eps[|eps| - 1]] == prefix[last.value])
  {
  }

  /** Reading one more episode moves the last normal position only when it
      is normal. */
  lemma LastNormalSnoc(seen: seq<Episode>, e: Episode)
    ensures LastNormalAt(seen + [e]) == if IsNormal(e) then Some(|seen|) else LastNormalAt(seen)
  {
    assert (seen + [e])[..|seen|] == seen;
  }

  /** Reading one more episode adds its anchor, if it gets one. */
  lemma AnchorsSnoc(seen: seq<Episode>, e: Episode)
    ensures Anchors(seen + [e]) ==
      if IsSpecialEntry(e) && LastNormalAt(seen).Some? then Anchors(seen)[e := seen[LastNormalAt(seen).value]]
      else Anchors(seen)
  {
    assert (seen + [e])[..|seen|] == seen;
  }

  /** The range the constructor searches, from the last normal position up to
      the current one, starts with the last normal episode when there is one. */
  lemma {:induction false} RangeFindsLastNormal(eps: seq<Episode>, lastNormal: nat)
    requires lastNormal <= |eps|
    requires LastNormalAt(eps).Some? ==> lastNormal == LastNormalAt(eps).value
    requires LastNormalAt(eps).None? ==> lastNormal == 0
    ensures LastNormalAt(eps).Some? ==> FirstNormal(eps[lastNormal..]) == Some(eps[LastNormalAt(eps).value])
    ensures LastNormalAt(eps).None? ==> FirstNormal(eps[lastNormal..]).None?
  {
    if LastNormalAt(eps).None? {
      assert eps[lastNormal..] == eps;
    }
  }

  /** What reading the episode at `index` does to the last normal position
      and the anchors. */
  lemma PassStep(episodes: seq<Episode>, index: nat)
    requires index < |episodes|
    ensures var seen, e := episodes[..index], episodes[index];
      && LastNormalAt(episodes[..index + 1]) == (if IsNormal(e) then Some(index) else LastNormalAt(seen))
      && Anchors(episodes[..index + 1]) ==
        (if IsSpecialEntry(e) && LastNormalAt(seen).Some? then Anchors(seen)[e := seen[LastNormalAt(seen).value]]
         else Anchors(seen))
  {
    var seen, e := episodes[..index], episodes[index];
    assert episodes[..index + 1] == seen + [e];
    LastNormalSnoc(seen, e);
    AnchorsSnoc(seen, e);
  }

  /** Reading the episode at `index` extends the selection by it exactly when
      it satisfies `p`. */
  lemma SelectStep(episodes: seq<Episode>, index: nat, p: Episode -> bool)
    requires index < |episodes|
    ensures Select(episodes[..index + 1], p) ==
      Select(episodes[..index], p) + (if p(episodes[index]) then [episodes[index]] else [])
  {
    assert episodes[..index + 1][..index] == episodes[..index];
  }

  /** The branch of the pass that puts one episode on its list: normal,
      other, extra, special, in that order of precedence. */
  method FileEpisode(episode: Episode, normals: seq<Episode>, alternates: seq<Episode>,
                     extras: seq<Episode>, specials: seq<Episode>)
    returns (normals': seq<Episode>, alternates': seq<Episode>, extras': seq<Episode>, specials': seq<Episode>)
    ensures normals' == normals + (if IsNormal(episode) then [episode] else [])
    ensures alternates' == alternates + (if IsAlternate(episode) then [episode] else [])
    ensures extras' == extras + (if IsExtra(episode) then [episode] else [])
    ensures specials' == specials + (if IsSpecialEntry(episode) then [episode] else [])
  {
    normals', alternates', extras', specials' := normals, alternates, extras, specials;
    if episode.kind == Normal {
      normals' := normals + [episode];
    } else if episode.kind == Other {
      alternates' := alternates + [episode];
    } else if episode.extraType.Some? {
      extras' := extras + [episode];
    } else if episode.kind == Special {
      specials' := specials + [episode];
    }
  }

  /** The branch of the pass that remembers the last normal episode and
      anchors a special to the first normal episode found from there. */
  method AnchorEpisode(episodes: seq<Episode>, index: nat, anchors: map<Episode, Episode>, lastNormal: nat)
    returns (anchors': map<Episode, Episode>, lastNormal': nat)
    requires index < |episodes| && lastNormal <= index
    requires anchors == Anchors(episodes[..index])
    requires LastNormalAt(episodes[..index]).Some? ==> lastNormal == LastNormalAt(episodes[..index]).value
    requires LastNormalAt(episodes[..index]).None? ==> lastNormal == 0
    ensures anchors' == Anchors(episodes[..index + 1])
    ensures lastNormal' <= index + 1
    ensures LastNormalAt(episodes[..index + 1]).Some? ==> lastNormal' == LastNormalAt(episodes[..index + 1]).value
    ensures LastNormalAt(episodes[..index + 1]).None? ==> lastNormal' == 0
  {
    var episode := episodes[index];
    ghost var seen := episodes[..index];
    PassStep(episodes, index);
    anchors', lastNormal' := anchors, lastNormal;
    if episode.kind == Normal {
      lastNormal' := index;
    } else if episode.kind == Special && episode.extraType.None? {
      RangeFindsLastNormal(seen, lastNormal);
      assert episodes[lastNormal..index] == seen[lastNormal..];
      var previous := FirstNormal(episodes[lastNormal..index]);
      if previous.Some? {
        anchors' := anchors[episode := previous.value];
      }
    }
  }

  /** The constructor's single pass over the episodes. */
  method Partition(episodes: seq<Episode>)
    returns (normals: seq<Episode>, alternates: seq<Episode>, extras: seq<Episode>,
             specials: seq<Episode>, anchors: map<Episode, Episode>)
    ensures normals == Select(episodes, IsNormal)
    ensures alternates == Select(episodes, IsAlternate)
    ensures extras == Select(episodes, IsExtra)
    ensures specials == Select(episodes, IsSpecialEntry)
    ensures anchors == Anchors(episodes)
  {
    normals, alternates, extras, specials, anchors := [], [], [], [], map[];
    var index := 0;
    var lastNormal := 0;
    while index < |episodes|
      invariant 0 <= index <= |episodes|
      invariant normals == Select(episodes[..index], IsNormal)
      invariant alternates == Select(episodes[..index], IsAlternate)
      invariant extras == Select(episodes[..index], IsExtra)
      invariant specials == Select(episodes[..index], IsSpecialEntry)
      invariant anchors == Anchors(episodes[..index])
      invariant lastNormal <= index
      invariant LastNormalAt(episodes[..index]).Some? ==> lastNormal == LastNormalAt(episodes[..index]).value
      invariant LastNormalAt(episodes[..index]).None? ==> lastNormal == 0
    {
      var episode := episodes[index];
      SelectStep(episodes, index, IsNormal);
      SelectStep(episodes, index, IsAlternate);
      SelectStep(episodes, index, IsExtra);
      SelectStep(episodes, index, IsSpecialEntry);
      normals, alternates, extras, specials := FileEpisode(episode, normals, alternates, extras, specials);
      anchors, lastNormal := AnchorEpisode(episodes, index, anchors, lastNormal);
      index := index + 1;
    }
    assert episodes[..index] == episodes;
  }

  // ----- After the pass -----

  /** At least one alternate episode has local files. */
  predicate AnyLocal(alternates: seq<Episode>) {
    exists j :: 0 <= j < |alternates| && alternates[j].size > 0
  }

  /** The AniDB episode number the specials are ordered by. */
  function EpisodeNumber(e: Episode): int { e.number }

  /** The specials ordered by AniDB episode number (a stable sort). */
  function SortSpecials(specials: seq<Episode>): (r: seq<Episode>)
    ensures Seqs.SortedBy(r, EpisodeNumber)
    ensures multiset(r) == multiset(specials)
  {
    Seqs.SortBy(specials, EpisodeNumber)
  }

  /** The sort is stable: specials with the same number keep their order. */
  lemma SortSpecialsStable(specials: seq<Episode>)
    ensures forall k :: Seqs.WithKey(SortSpecials(specials), EpisodeNumber, k) == Seqs.WithKey(specials, EpisodeNumber, k)
  {
    forall k ensures Seqs.WithKey(SortSpecials(specials), EpisodeNumber, k) == Seqs.WithKey(specials, EpisodeNumber, k) {
      Seqs.SortByStable(specials, EpisodeNumber, k);
    }
  }

  /** The constructor after its pass: with no normal episode and a local
      alternate one, the alternates become the episodes (and a movie becomes a
      web series); otherwise a TV special turns all its episodes into
      specials and drops the anchors. The specials end sorted by number. */
  function Finish(seriesType: SeriesType, normals: seq<Episode>, alternates: seq<Episode>,
                  specials: seq<Episode>, anchors: map<Episode, Episode>)
    : (r: (SeriesType, seq<Episode>, seq<Episode>, seq<Episode>, map<Episode, Episode>))
    ensures |normals| == 0 && AnyLocal(alternates) ==>
      r.0 == (if seriesType == Movie then Web else seriesType)
      && r.1 == alternates && r.2 == [] && r.4 == anchors
    ensures !(|normals| == 0 && AnyLocal(alternates)) && seriesType == TVSpecial ==>
      r.0 == TVSpecial && r.1 == [] && r.2 == [] && r.4 == map[]
      && multiset(r.3) == multiset(alternates) + multiset(normals) + multiset(specials)
    ensures !(|normals| == 0 && AnyLocal(alternates)) && seriesType != TVSpecial ==>
      r.0 == seriesType && r.1 == normals && r.2 == alternates && r.4 == anchors
      && multiset(r.3) == multiset(specials)
    ensures Seqs.SortedBy(r.3, EpisodeNumber)
    ensures !(|normals| == 0 && AnyLocal(alternates)) && seriesType == TVSpecial ==>
      forall k :: Seqs.WithKey(r.3, EpisodeNumber, k) == Seqs.WithKey(alternates + normals + specials, EpisodeNumber, k)
    ensures (|normals| == 0 && AnyLocal(alternates)) || seriesType != TVSpecial ==>
      forall k :: Seqs.WithKey(r.3, EpisodeNumber, k) == Seqs.WithKey(specials, EpisodeNumber, k)
  {
    SortSpecialsStable(specials);
    SortSpecialsStable(alternates + normals + specials);
    if |normals| == 0 && AnyLocal(alternates) then
      (if seriesType == Movie then Web else seriesType, alternates, [], SortSpecials(specials), anchors)
    else if seriesType == TVSpecial then
      var moved := alternates + normals + specials;
      (seriesType, [], [], SortSpecials(moved), map[])
    else
      (seriesType, normals, alternates, SortSpecials(specials), anchors)
  }

  /** No episode of the three lists is lost or duplicated by the step after
      the pass. */
  lemma FinishKeepsEpisodes(seriesType: SeriesType, normals: seq<Episode>, alternates: seq<Episode>,
                            specials: seq<Episode>, anchors: map<Episode, Episode>)
    ensures var r := Finish(seriesType, normals, alternates, specials, anchors);
      multiset(r.1) + multiset(r.2) + multiset(r.3)
        == multiset(normals) + multiset(alternates) + multiset(specials)
  {
  }

  /** Every special after the step comes from one of the three lists. */
  lemma FinishSpecialsFrom(seriesType: SeriesType, normals: seq<Episode>, alternates: seq<Episode>,
                           specials: seq<Episode>, anchors: map<Episode, Episode>)
    ensures forall e :: e in Finish(seriesType, normals, alternates, specials, anchors).3 ==>
      e in normals || e in alternates || e in specials
  {
    var r := Finish(seriesType, normals, alternates, specials, anchors);
    forall e | e in r.3 ensures e in normals || e in alternates || e in specials {
      assert e in multiset(r.3);
    }
  }

  /** The season constructor. The series' "others" list and sizes are carried
      through as given. */
  method NewSeason(id: string, name: string, seriesType: SeriesType, episodes: seq<Episode>,
                   others: seq<Episode>, sizes: Option<Sizes>) returns (s: Season)
    ensures s.id == id && s.name == name && s.othersList == others && s.sizes == sizes
    ensures s.extrasList == Select(episodes, IsExtra)
    ensures forall e :: e in s.episodeList ==> e in episodes && (IsNormal(e) || IsAlternate(e))
    ensures forall e :: e in s.alternateEpisodesList ==> e in episodes && IsAlternate(e)
    ensures forall e :: e in s.specialsList ==> e in episodes
    ensures Seqs.SortedBy(s.specialsList, EpisodeNumber)
    ensures forall e :: e in s.specialsAnchors ==> IsSpecialEntry(e) && IsNormal(s.specialsAnchors[e])
    ensures seriesType == TVSpecial ==> s.alternateEpisodesList == []
    ensures s.seriesType == Web ==> seriesType == Web || seriesType == Movie
    ensures var normals, alternates := Select(episodes, IsNormal), Select(episodes, IsAlternate);
      |normals| == 0 && AnyLocal(alternates) ==>
        && s.seriesType == (if seriesType == Movie then Web else seriesType)
        && s.episodeList == alternates && s.alternateEpisodesList == [] && s.specialsAnchors == Anchors(episodes)
        && forall k :: Seqs.WithKey(s.specialsList, EpisodeNumber, k) == Seqs.WithKey(Select(episodes, IsSpecialEntry), EpisodeNumber, k)
    ensures var normals, alternates := Select(episodes, IsNormal), Select(episodes, IsAlternate);
      !(|normals| == 0 && AnyLocal(alternates)) && seriesType == TVSpecial ==>
        && s.seriesType == TVSpecial && s.episodeList == [] && s.alternateEpisodesList == [] && s.specialsAnchors == map[]
        && forall k :: Seqs.WithKey(s.specialsList, EpisodeNumber, k)
                    == Seqs.WithKey(alternates + normals + Select(episodes, IsSpecialEntry), EpisodeNumber, k)
    ensures var normals, alternates := Select(episodes, IsNormal), Select(episodes, IsAlternate);
      !(|normals| == 0 && AnyLocal(alternates)) && seriesType != TVSpecial ==>
        && s.seriesType == seriesType && s.episodeList == normals && s.alternateEpisodesList == alternates
        && s.specialsAnchors == Anchors(episodes)
        && forall k :: Seqs.WithKey(s.specialsList, EpisodeNumber, k) == Seqs.WithKey(Select(episodes, IsSpecialEntry), EpisodeNumber, k)
  {
    var normals, alternates, extras, specials, anchors := Partition(episodes);
    AnchorsSound(episodes);
    SelectMembers(episodes, IsNormal);
    SelectMembers(episodes, IsAlternate);
    SelectMembers(episodes, IsSpecialEntry);
    var r := Finish(seriesType, normals, alternates, specials, anchors);
    FinishSpecialsFrom(seriesType, normals, alternates, specials, anchors);
    s := Season(id, name, r.0, r.1, r.2, others, extras, r.3, r.4, sizes);
  }
}
