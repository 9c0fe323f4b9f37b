/** The older counters of the resolver models (videos and subtitles, with
    removed NFO files counted but never created or skipped). */
module LinkGenerationModels {

  /** A result of generating links in one folder. */
  datatype LinkResult = LinkResult(
    paths: multiset<string>,
    createdVideos: int, fixedVideos: int, skippedVideos: int, removedVideos: int,
    createdSubtitles: int, fixedSubtitles: int, skippedSubtitles: int, removedSubtitles: int,
    removedNfos: int)
  {
    function TotalVideos(): int { createdVideos + fixedVideos + skippedVideos }
    function TotalSubtitles(): int { createdSubtitles + fixedSubtitles + skippedSubtitles }
    function Total(): int { TotalVideos() + TotalSubtitles() }
    function Created(): int { createdVideos + createdSubtitles }
    function Fixed(): int { fixedVideos + fixedSubtitles }
    function Skipped(): int { skippedVideos + skippedSubtitles }
    function Removed(): int { removedVideos + removedSubtitles + removedNfos }
  }

  /** A fresh result. */
  const Empty := LinkResult(multiset{}, 0, 0, 0, 0, 0, 0, 0, 0, 0)

  /** The total is the created, fixed and skipped links together, and NFO
      removals count toward the removed total only. */
  lemma TotalsPartition(r: LinkResult)
    ensures r.Total() == r.Created() + r.Fixed() + r.Skipped()
    ensures r.Total() == r.TotalVideos() + r.TotalSubtitles()
    ensures r.Removed() - r.removedNfos == r.removedVideos + r.removedSubtitles
  {
  }

  /** `a + b`: the paths of `b` added to `a`'s bag and every counter summed. */
  function Add(a: LinkResult, b: LinkResult): (r: LinkResult)
    ensures r.paths == a.paths + b.paths
    ensures r.Total() == a.Total() + b.Total()
    ensures r.Removed() == a.Removed() + b.Removed()
    ensures r.Created() == a.Created() + b.Created()
    ensures r.Fixed() == a.Fixed() + b.Fixed()
    ensures r.Skipped() == a.Skipped() + b.Skipped()
  {
    LinkResult(
      a.paths + b.paths,
      a.createdVideos + b.createdVideos, a.fixedVideos + b.fixedVideos,
      a.skippedVideos + b.skippedVideos, a.removedVideos + b.removedVideos,
      a.createdSubtitles + b.createdSubtitles, a.fixedSubtitles + b.fixedSubtitles,
      a.skippedSubtitles + b.skippedSubtitles, a.removedSubtitles + b.removedSubtitles,
      a.removedNfos + b.removedNfos)
  }

  /** Adding is commutative. */
  lemma AddCommutative(a: LinkResult, b: LinkResult)
    ensures Add(a, b) == Add(b, a)
  {
    assert a.paths + b.paths == b.paths + a.paths;
  }

  /** Adding is associative. */
  lemma AddAssociative(a: LinkResult, b: LinkResult, c: LinkResult)
    ensures Add(Add(a, b), c) == Add(a, Add(b, c))
  {
    assert (a.paths + b.paths) + c.paths == a.paths + (b.paths + c.paths);
  }

  /** The fresh result is the identity of adding. */
  lemma AddIdentity(a: LinkResult)
    ensures Add(a, Empty) == a
    ensures Add(Empty, a) == a
  {
    assert a.paths + Empty.paths == a.paths;
    AddCommutative(a, Empty);
  }
}
