/** The chronological comparer for seasons: direct relations decide first,
    then the sorted priorities of their relations, then the air dates. */
module RelationComparer {
  import opened Wrappers
  import Seqs

  /** How an entry relates to another one. */
  datatype RelationType =
    | Other | SameSetting | AlternativeSetting | SharedCharacters | AlternativeVersion
    | Sequel | Prequel | SideStory | MainStory | FullStory | Summary | Reboot

  /** The priority table: ten relation types take part in the indirect
      comparison; "other" and "reboot" do not. */
  function Priority(t: RelationType): (p: Option<int>)
    ensures p.Some? <==> !(t == Other || t == Reboot)
    ensures p.Some? ==> 1 <= p.value <= 99
  {
    match t
    case Prequel => Some(1)
    case MainStory => Some(2)
    case FullStory => Some(3)
    case AlternativeVersion => Some(21)
    case SameSetting => Some(22)
    case AlternativeSetting => Some(23)
    case SideStory => Some(41)
    case Summary => Some(42)
    case Sequel => Some(43)
    case SharedCharacters => Some(99)
    case Other => None
    case Reboot => None
  }

  /** Distinct prioritised types have distinct priorities, so sorting types by
      priority and sorting their priorities give the same order. */
  lemma PriorityInjective(s: RelationType, t: RelationType)
    requires Priority(s).Some? && Priority(s) == Priority(t)
    ensures s == t
  {
  }

  /** What the comparer reads of a season: its id, the relation it has to
      other ids, the types of its relations, and its air date (in ticks). */
  datatype Season = Season(id: int, relationMap: map<int, RelationType>,
                           relations: seq<RelationType>, airDate: Option<int>)

  // ----- Direct relations -----

  /** The verdict one side's relation gives: it comes first when the other
      entry is its prequel or main story, after when it is its sequel or side
      story, and nothing otherwise. */
  function DirectSide(from: Season, to: Season): (r: int)
    ensures r in {-1, 0, 1}
    ensures r == -1 <==> to.id in from.relationMap && from.relationMap[to.id] in {Prequel, MainStory}
    ensures r == 1 <==> to.id in from.relationMap && from.relationMap[to.id] in {Sequel, SideStory}
  {
    if to.id !in from.relationMap then 0
    else match from.relationMap[to.id]
      case Prequel => -1
      case MainStory => -1
      case Sequel => 1
      case SideStory => 1
      case _ => 0
  }

  /** `a`'s own relation decides first; failing that, `b`'s relation to `a`
      decides with the mirrored sign. */
  function CompareDirectRelations(a: Season, b: Season): (r: int)
    ensures r in {-1, 0, 1}
    ensures DirectSide(a, b) != 0 ==> r == DirectSide(a, b)
    ensures DirectSide(a, b) == 0 ==> r == -DirectSide(b, a)
    ensures r == 0 <==> DirectSide(a, b) == 0 && DirectSide(b, a) == 0
  {
    if DirectSide(a, b) != 0 then DirectSide(a, b) else -DirectSide(b, a)
  }

  /** The two sides do not claim opposite things (e.g. both call the other
      their prequel). */
  predicate DirectConsistent(a: Season, b: Season) {
    DirectSide(a, b) == 0 || DirectSide(b, a) == 0 || DirectSide(a, b) == -DirectSide(b, a)
  }

  /** The direct comparison is antisymmetric exactly when the two sides do not
      clash; when they clash, both orders give the same sign. */
  lemma CompareDirectAntisymmetric(a: Season, b: Season)
    ensures CompareDirectRelations(a, b) == -CompareDirectRelations(b, a) <==> DirectConsistent(a, b)
  {
  }

  // ----- Indirect relations -----

  /** The priorities of the prioritised relations, in the relations' order. */
  function Ranks(relations: seq<RelationType>): (r: seq<int>)
    ensures |r| <= |relations|
    ensures forall i :: 0 <= i < |r| ==> 1 <= r[i] <= 99
    decreases |relations|
  {
    if |relations| == 0 then []
    else
      var p := Priority(relations[0]);
      (if p.Some? then [p.value] else []) + Ranks(relations[1..])
  }

  /** A relation outside the priority table changes no rank. */
  lemma {:induction false} RanksIgnoreUnprioritised(relations: seq<RelationType>, t: RelationType)
    requires Priority(t).None?
    ensures Ranks(relations + [t]) == Ranks(relations)
    ensures Ranks([t] + relations) == Ranks(relations)
    decreases |relations|
  {
    if |relations| == 0 {
      assert relations + [t] == [t];
      assert [t] + relations == [t];
    } else {
      assert (relations + [t])[1..] == relations[1..] + [t];
      RanksIgnoreUnprioritised(relations[1..], t);
      assert ([t] + relations)[1..] == relations;
    }
  }

  /** The sorted priority list a season is compared by. */
  function SortedRanks(s: Season): (r: seq<int>)
    ensures Seqs.SortedBy(r, x => x)
    ensures multiset(r) == multiset(Ranks(s.relations))
  {
    Seqs.SortBy(Ranks(s.relations), x => x)
  }

  /** The reference order on priority lists: the first differing priority
      decides, and a list that runs out first sorts after the other. */
  function PriorityCompare(xs: seq<int>, ys: seq<int>): (r: int)
    ensures r in {-1, 0, 1}
    decreases |xs|
  {
    if |xs| == 0 && |ys| == 0 then 0
    else if |xs| == 0 then 1
    else if |ys| == 0 then -1
    else if xs[0] < ys[0] then -1
    else if xs[0] > ys[0] then 1
    else PriorityCompare(xs[1..], ys[1..])
  }

  /** Swapping the lists mirrors the result, and it is 0 only for equal lists. */
  lemma {:induction false} PriorityCompareAntisymmetric(xs: seq<int>, ys: seq<int>)
    ensures PriorityCompare(xs, ys) == -PriorityCompare(ys, xs)
    ensures PriorityCompare(xs, ys) == 0 <==> xs == ys
    decreases |xs|
  {
    if |xs| > 0 && |ys| > 0 && xs[0] == ys[0] {
      PriorityCompareAntisymmetric(xs[1..], ys[1..]);
      assert xs == [xs[0]] + xs[1..] && ys == [ys[0]] + ys[1..];
    }
  }

  /** A list that extends another sorts before it: more relations come first. */
  lemma {:induction false} PriorityCompareLonger(xs: seq<int>, ys: seq<int>)
    requires |xs| < |ys| && xs == ys[..|xs|]
    ensures PriorityCompare(xs, ys) == 1
    decreases |xs|
  {
    if |xs| > 0 {
      assert xs[1..] == ys[1..][..|xs| - 1];
      PriorityCompareLonger(xs[1..], ys[1..]);
    }
  }

  /** Equal heads leave the comparison to the tails. */
  lemma PriorityCompareStep(xs: seq<int>, ys: seq<int>, i: nat)
    requires i < |xs| && i < |ys| && xs[i] == ys[i]
    ensures PriorityCompare(xs[i + 1..], ys[i + 1..]) == PriorityCompare(xs[i..], ys[i..])
  {
    assert xs[i..][1..] == xs[i + 1..] && ys[i..][1..] == ys[i + 1..];
  }

  /** The loop over positions that compares two priority lists. */
  method ComparePriorities(xs: seq<int>, ys: seq<int>) returns (r: int)
    ensures r == PriorityCompare(xs, ys)
  {
    var bound := if |xs| > |ys| then |xs| else |ys|;
    var i := 0;
    while i < bound
      invariant 0 <= i <= |xs| && i <= |ys|
      invariant PriorityCompare(xs[i..], ys[i..]) == PriorityCompare(xs, ys)
    {
      if i >= |xs| {
        return 1;
      } else if i >= |ys| {
        return -1;
      }
      if xs[i] != ys[i] {
        return if xs[i] < ys[i] then -1 else 1;
      }
      PriorityCompareStep(xs, ys, i);
      i := i + 1;
    }
    assert xs[i..] == [] && ys[i..] == [];
    return 0;
  }

  /** The indirect comparison: the seasons' sorted priority lists compared
      position by position. */
  method CompareIndirectRelations(a: Season, b: Season) returns (r: int)
    ensures r == PriorityCompare(SortedRanks(a), SortedRanks(b))
    ensures r == 0 <==> SortedRanks(a) == SortedRanks(b)
  {
    PriorityCompareAntisymmetric(SortedRanks(a), SortedRanks(b));
    r := ComparePriorities(SortedRanks(a), SortedRanks(b));
  }

  // ----- Air dates -----

  /** Air dates compare in time order; an undated entry sorts before a dated
      one, and two undated entries are equal. */
  function CompareAirDates(a: Option<int>, b: Option<int>): (r: int)
    ensures r in {-1, 0, 1}
    ensures a.None? && b.Some? ==> r == -1
    ensures a.Some? && b.None? ==> r == 1
    ensures a.Some? && b.Some? ==> (r < 0 <==> a.value < b.value) && (r == 0 <==> a.value == b.value)
    ensures r == 0 <==> a == b
  {
    match (a, b)
    case (Some(x), Some(y)) => if x < y then -1 else if x > y then 1 else 0
    case (Some(_), None) => 1
    case (None, Some(_)) => -1
    case (None, None) => 0
  }

  /** The air-date comparison is antisymmetric. */
  lemma CompareAirDatesAntisymmetric(a: Option<int>, b: Option<int>)
    ensures CompareAirDates(a, b) == -CompareAirDates(b, a)
  {
  }

  // ----- The comparer -----

  /** The full comparison, with `null` entries sorting last. */
  function Compare(a: Option<Season>, b: Option<Season>): (r: int)
    ensures r in {-1, 0, 1}
    ensures a.None? && b.None? ==> r == 0
    ensures a.None? && b.Some? ==> r == 1
    ensures a.Some? && b.None? ==> r == -1
    ensures a.Some? && b.Some? && CompareDirectRelations(a.value, b.value) != 0 ==>
      r == CompareDirectRelations(a.value, b.value)
    ensures a.Some? && b.Some? && CompareDirectRelations(a.value, b.value) == 0 ==>
      (SortedRanks(a.value) != SortedRanks(b.value) ==>
         r == PriorityCompare(SortedRanks(a.value), SortedRanks(b.value)))
      && (SortedRanks(a.value) == SortedRanks(b.value) ==>
         r == CompareAirDates(a.value.airDate, b.value.airDate))
  {
    match (a, b)
    case (None, None) => 0
    case (None, Some(_)) => 1
    case (Some(_), None) => -1
    case (Some(x), Some(y)) =>
      var direct := CompareDirectRelations(x, y);
      if direct != 0 then direct
      else
        var indirect := PriorityCompare(SortedRanks(x), SortedRanks(y));
        PriorityCompareAntisymmetric(SortedRanks(x), SortedRanks(y));
        if indirect != 0 then indirect
        else CompareAirDates(x.airDate, y.airDate)
  }

  /** When the direct relations do not clash, swapping the entries mirrors the
      result, as a comparer must. */
  lemma CompareAntisymmetric(a: Option<Season>, b: Option<Season>)
    requires a.Some? && b.Some? ==> DirectConsistent(a.value, b.value)
    ensures Compare(a, b) == -Compare(b, a)
  {
    if a.Some? && b.Some? {
      CompareDirectAntisymmetric(a.value, b.value);
      PriorityCompareAntisymmetric(SortedRanks(a.value), SortedRanks(b.value));
      CompareAirDatesAntisymmetric(a.value.airDate, b.value.airDate);
    }
  }
}
