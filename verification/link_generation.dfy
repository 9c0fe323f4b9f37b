/** The counters a link-generation pass reports, in the resolver's version
    (videos, subtitles and NFO files). The paths touched are a bag, so adding
    two results is a commutative monoid on everything the model keeps. */
module LinkGeneration {

  /** A result of generating links for one media folder. The creation time is
      only used for logging and is not modelled. */
  datatype LinkResult = LinkResult(
    paths: multiset<string>,
    createdVideos: int, fixedVideos: int, skippedVideos: int, removedVideos: int,
    createdSubtitles: int, fixedSubtitles: int, skippedSubtitles: int, removedSubtitles: int,
    createdNfos: int, skippedNfos: int, removedNfos: int)
  {
    function TotalVideos(): int { createdVideos + fixedVideos + skippedVideos }
    function TotalSubtitles(): int { createdSubtitles + fixedSubtitles + skippedSubtitles }
    function TotalNfos(): int { createdNfos + skippedNfos }
    function Total(): int { TotalVideos() + TotalSubtitles() + TotalNfos() }
    function Created(): int { createdVideos + createdSubtitles + createdNfos }
    function Fixed(): int { fixedVideos + fixedSubtitles }
    function Skipped(): int { skippedVideos + skippedSubtitles + skippedNfos }
    function Removed(): int { removedVideos + removedSubtitles + removedNfos }

    /** Every counter is a count. */
    predicate Valid() {
      createdVideos >= 0 && fixedVideos >= 0 && skippedVideos >= 0 && removedVideos >= 0
      && createdSubtitles >= 0 && fixedSubtitles >= 0 && skippedSubtitles >= 0 && removedSubtitles >= 0
      && createdNfos >= 0 && skippedNfos >= 0 && removedNfos >= 0
    }
  }

  /** A fresh result: nothing counted, no paths. */
  const Empty := LinkResult(multiset{}, 0, 0, 0, 0, 0, 0, 0, 0, 0, 0, 0)

  /** The derived totals split the counters without overlap: every link is
      created, fixed or skipped, and the total is the sum of the three, while
      removals are counted apart. */
  lemma TotalsPartition(r: LinkResult)
    ensures r.Total() == r.Created() + r.Fixed() + r.Skipped()
    ensures r.Valid() ==> r.Removed() >= 0 && r.Total() >= 0
  {
  }

  /** `a + b`: the paths of `b` added to those of `a` and every counter summed. */
  function Add(a: LinkResult, b: LinkResult): (r: LinkResult)
    ensures r.paths == a.paths + b.paths
    ensures r.Total() == a.Total() + b.Total()
    ensures r.Created() == a.Created() + b.Created()
    ensures r.Fixed() == a.Fixed() + b.Fixed()
    ensures r.Skipped() == a.Skipped() + b.Skipped()
    ensures r.Removed() == a.Removed() + b.Removed()
    ensures a.Valid() && b.Valid() ==> r.Valid()
  {
    LinkResult(
      a.paths + b.paths,
      a.createdVideos + b.createdVideos, a.fixedVideos + b.fixedVideos,
      a.skippedVideos + b.skippedVideos, a.removedVideos + b.removedVideos,
      a.createdSubtitles + b.createdSubtitles, a.fixedSubtitles + b.fixedSubtitles,
      a.skippedSubtitles + b.skippedSubtitles, a.removedSubtitles + b.removedSubtitles,
      a.createdNfos + b.createdNfos, a.skippedNfos + b.skippedNfos, a.removedNfos + b.removedNfos)
  }

  /** Adding is commutative. */
  lemma AddCommutative(a: LinkResult, b: LinkResult)
    ensures Add(a, b) == Add(b, a)
  {
    assert a.paths + b.paths == b.paths + a.paths;
  }

  /** Adding is associative. */
  lemma AddAssociative(a: LinkResult, b: LinkResult, c: LinkResult)
    ensures Add(Add(a, b), c) == Add(a, Add(b, c))
  {
    assert (a.paths + b.paths) + c.paths == a.paths + (b.paths + c.paths);
  }

  /** The fresh result is the identity of adding. */
  lemma AddIdentity(a: LinkResult)
    ensures Add(a, Empty) == a
    ensures Add(Empty, a) == a
  {
    assert a.paths + Empty.paths == a.paths;
    AddCommutative(a, Empty);
  }

  /** Counts every created or fixed link as skipped instead, per kind, when
      that kind has any created or fixed link. NFO files are never fixed. */
  function MarkSkipped(r: LinkResult): (m: LinkResult)
    ensures m.paths == r.paths && m.Removed() == r.Removed()
    ensures m.TotalVideos() == r.TotalVideos()
    ensures m.TotalSubtitles() == r.TotalSubtitles()
    ensures m.TotalNfos() == r.TotalNfos()
    ensures r.fixedSubtitles > 0 || r.createdSubtitles > 0 ==>
      m.fixedSubtitles == 0 && m.createdSubtitles == 0
      && m.skippedSubtitles == r.skippedSubtitles + r.fixedSubtitles + r.createdSubtitles
    ensures !(r.fixedSubtitles > 0 || r.createdSubtitles > 0) ==>
      m.fixedSubtitles == r.fixedSubtitles && m.createdSubtitles == r.createdSubtitles
      && m.skippedSubtitles == r.skippedSubtitles
    ensures r.fixedVideos > 0 || r.createdVideos > 0 ==>
      m.fixedVideos == 0 && m.createdVideos == 0
      && m.skippedVideos == r.skippedVideos + r.fixedVideos + r.createdVideos
    ensures !(r.fixedVideos > 0 || r.createdVideos > 0) ==>
      m.fixedVideos == r.fixedVideos && m.createdVideos == r.createdVideos
      && m.skippedVideos == r.skippedVideos
    ensures r.createdNfos > 0 ==> m.createdNfos == 0 && m.skippedNfos == r.skippedNfos + r.createdNfos
    ensures r.createdNfos <= 0 ==> m.createdNfos == r.createdNfos && m.skippedNfos == r.skippedNfos
  {
    MarkNfos(MarkVideos(MarkSubtitles(r)))
  }

  /** The subtitle step of `MarkSkipped`. */
  function MarkSubtitles(r: LinkResult): (m: LinkResult)
    ensures m.(fixedSubtitles := r.fixedSubtitles, createdSubtitles := r.createdSubtitles,
               skippedSubtitles := r.skippedSubtitles) == r
    ensures m.TotalSubtitles() == r.TotalSubtitles()
  {
    if r.fixedSubtitles > 0 || r.createdSubtitles > 0 then
      r.(skippedSubtitles := r.skippedSubtitles + r.fixedSubtitles + r.createdSubtitles,
         fixedSubtitles := 0, createdSubtitles := 0)
    else r
  }

  /** The video step of `MarkSkipped`. */
  function MarkVideos(r: LinkResult): (m: LinkResult)
    ensures m.(fixedVideos := r.fixedVideos, createdVideos := r.createdVideos,
               skippedVideos := r.skippedVideos) == r
    ensures m.TotalVideos() == r.TotalVideos()
  {
    if r.fixedVideos > 0 || r.createdVideos > 0 then
      r.(skippedVideos := r.skippedVideos + r.fixedVideos + r.createdVideos,
         fixedVideos := 0, createdVideos := 0)
    else r
  }

  /** The NFO step of `MarkSkipped`: NFO files are never fixed. */
  function MarkNfos(r: LinkResult): (m: LinkResult)
    ensures m.(createdNfos := r.createdNfos, skippedNfos := r.skippedNfos) == r
    ensures m.TotalNfos() == r.TotalNfos()
  {
    if r.createdNfos > 0 then
      r.(skippedNfos := r.skippedNfos + r.createdNfos, createdNfos := 0)
    else r
  }

  /** On counts, marking as skipped leaves nothing created or fixed, and the
      total becomes the skipped count. */
  lemma MarkSkippedAllSkipped(r: LinkResult)
    requires r.Valid()
    ensures MarkSkipped(r).Valid()
    ensures MarkSkipped(r).Created() == 0 && MarkSkipped(r).Fixed() == 0
    ensures MarkSkipped(r).Skipped() == r.Total()
  {
  }

  /** Marking twice is marking once. */
  lemma MarkSkippedIdempotent(r: LinkResult)
    ensures MarkSkipped(MarkSkipped(r)) == MarkSkipped(r)
  {
  }

  /** On counts, marking the sum is the sum of the marked parts. */
  lemma MarkSkippedAdd(a: LinkResult, b: LinkResult)
    requires a.Valid() && b.Valid()
    ensures MarkSkipped(Add(a, b)) == Add(MarkSkipped(a), MarkSkipped(b))
  {
    MarkSkippedAddVideos(a, b);
    MarkSkippedAddSubtitles(a, b);
    MarkSkippedAddNfos(a, b);
  }

  /** The video counters of `MarkSkippedAdd`. */
  lemma MarkSkippedAddVideos(a: LinkResult, b: LinkResult)
    requires a.Valid() && b.Valid()
    ensures var l, r := MarkSkipped(Add(a, b)), Add(MarkSkipped(a), MarkSkipped(b));
      l.createdVideos == r.createdVideos && l.fixedVideos == r.fixedVideos
      && l.skippedVideos == r.skippedVideos && l.removedVideos == r.removedVideos
  {
  }

  /** The subtitle counters of `MarkSkippedAdd`. */
  lemma MarkSkippedAddSubtitles(a: LinkResult, b: LinkResult)
    requires a.Valid() && b.Valid()
    ensures var l, r := MarkSkipped(Add(a, b)), Add(MarkSkipped(a), MarkSkipped(b));
      l.createdSubtitles == r.createdSubtitles && l.fixedSubtitles == r.fixedSubtitles
      && l.skippedSubtitles == r.skippedSubtitles && l.removedSubtitles == r.removedSubtitles
  {
  }

  /** The NFO counters of `MarkSkippedAdd`. */
  lemma MarkSkippedAddNfos(a: LinkResult, b: LinkResult)
    requires a.Valid() && b.Valid()
    ensures var l, r := MarkSkipped(Add(a, b)), Add(MarkSkipped(a), MarkSkipped(b));
      l.createdNfos == r.createdNfos && l.skippedNfos == r.skippedNfos && l.removedNfos == r.removedNfos
  {
  }
}
