/** The collection manager's reconciliation: which Shoko series or groups
    deserve a box set, which existing box sets are kept, which are removed
    and which are created, and the order in which missing group collections
    are created so that every parent exists before its children. */
module Collections {
  import opened Wrappers
  import Seqs

  /** A group needs more than this many entries to get a collection: one
      when collections of a single entry are turned off, otherwise none. */
  function MinCollectionSize(collectionMinSizeOfTwo: bool): (n: nat)
    ensures collectionMinSizeOfTwo <==> n == 1
    ensures n <= 1
  {
    if collectionMinSizeOfTwo then 1 else 0
  }

  // ----- Series collections -----

  /** The keys of a sequence of pairs, in order. */
  function Keys<V>(items: seq<(string, V)>): (r: seq<string>)
    ensures |r| == |items|
    ensures forall i :: 0 <= i < |items| ==> r[i] == items[i].0
  {
    seq(|items|, i requires 0 <= i < |items| => items[i].0)
  }

  /** The value of the first pair with the key. */
  function FirstValue<V>(items: seq<(string, V)>, key: string): (r: V)
    requires key in Keys(items)
  {
    items[Seqs.FirstIndex(Keys(items), key)].1
  }

  /** The seasons of the movies, grouped by season id, keeping those with
      more movies than the minimum size; each id maps to its first season. */
  function SeasonsToCollect<V>(seasons: seq<(string, V)>, collectionMinSizeOfTwo: bool): (r: map<string, V>)
    ensures forall id :: id in r <==> multiset(Keys(seasons))[id] > MinCollectionSize(collectionMinSizeOfTwo)
    ensures forall id :: id in r ==>
      exists i :: 0 <= i < |seasons| && seasons[i].0 == id && id !in Keys(seasons)[..i] && r[id] == seasons[i].1
  {
    map id | id in Keys(seasons) && multiset(Keys(seasons))[id] > MinCollectionSize(collectionMinSizeOfTwo)
      :: FirstValue(seasons, id)
  }

  /** Every season with a movie gets a collection unless singles are turned
      off, and then exactly the seasons with two or more movies get one. */
  lemma SeasonsCollectedBySize<V>(seasons: seq<(string, V)>, id: string)
    ensures id in SeasonsToCollect(seasons, false) <==> id in Keys(seasons)
    ensures id in SeasonsToCollect(seasons, true) <==> multiset(Keys(seasons))[id] >= 2
  {
  }

  // ----- Group collections -----

  /** What the model reads of a Shoko group. */
  datatype CollectionInfo = CollectionInfo(id: string, parentId: string, topLevelId: string, isTopLevel: bool)

  /** How many entries the groups of a top-level group hold together. */
  function TreeSize(entries: seq<(Option<CollectionInfo>, nat)>, topLevelId: string): (n: nat)
    ensures (forall i :: 0 <= i < |entries| ==> entries[i].0.None? || entries[i].0.value.topLevelId != topLevelId) ==> n == 0
    decreases |entries|
  {
    if |entries| == 0 then 0
    else
      var last := entries[|entries| - 1];
      TreeSize(entries[..|entries| - 1], topLevelId)
        + (if last.0.Some? && last.0.value.topLevelId == topLevelId then last.1 else 0)
  }

  /** Whether an entry names a group whose top-level tree is large enough. */
  predicate InLargeTree(entries: seq<(Option<CollectionInfo>, nat)>, min: nat, e: (Option<CollectionInfo>, nat)) {
    e.0.Some? && TreeSize(entries, e.0.value.topLevelId) > min
  }

  /** The groups that were found, kept when their whole top-level tree holds
      more entries than the minimum size. */
  function LargeGroups(entries: seq<(Option<CollectionInfo>, nat)>, collectionMinSizeOfTwo: bool)
    : (r: seq<CollectionInfo>)
    ensures forall c :: c in r <==>
      (exists i :: 0 <= i < |entries| && entries[i].0 == Some(c))
      && TreeSize(entries, c.topLevelId) > MinCollectionSize(collectionMinSizeOfTwo)
  {
    var min := MinCollectionSize(collectionMinSizeOfTwo);
    var large := e => InLargeTree(entries, min, e);
    var kept := Seqs.Filter(entries, large);
    assert forall i :: 0 <= i < |kept| ==> kept[i] in kept;
    var r := seq(|kept|, i requires 0 <= i < |kept| => kept[i].0.value);
    KeptGroupsMembers(entries, large, kept, r);
    r
  }

  /** The groups of the entries that pass a test, as kept by a filter, are
      exactly the groups found in some passing entry. */
  lemma KeptGroupsMembers(entries: seq<(Option<CollectionInfo>, nat)>, keep: ((Option<CollectionInfo>, nat)) -> bool,
                          kept: seq<(Option<CollectionInfo>, nat)>, r: seq<CollectionInfo>)
    requires forall x :: x in kept <==> x in entries && keep(x)
    requires |r| == |kept| && forall i :: 0 <= i < |kept| ==> kept[i].0 == Some(r[i])
    ensures forall c :: c in r <==> exists i :: 0 <= i < |entries| && entries[i].0 == Some(c) && keep(entries[i])
  {
    forall c | c in r
      ensures exists i :: 0 <= i < |entries| && entries[i].0 == Some(c) && keep(entries[i])
    {
      var k :| 0 <= k < |r| && r[k] == c;
      assert kept[k] in kept;
      var i :| 0 <= i < |entries| && entries[i] == kept[k];
      assert entries[i].0 == Some(c) && keep(entries[i]);
    }
    forall c | exists i :: 0 <= i < |entries| && entries[i].0 == Some(c) && keep(entries[i])
      ensures c in r
    {
      var i :| 0 <= i < |entries| && entries[i].0 == Some(c) && keep(entries[i]);
      assert entries[i] in kept;
      var k :| 0 <= k < |kept| && kept[k] == entries[i];
      assert r[k] == c;
    }
  }

  // ----- What to add, keep and remove -----

  /** An existing box set. */
  datatype BoxSet = BoxSet(id: int, name: string)

  /** The reconciliation plan: the ids that need a new collection, the box
      set kept for each wanted id, and the box sets to delete. */
  datatype Plan = Plan(toAdd: set<string>, toCheck: map<string, BoxSet>, toRemove: set<BoxSet>)

  /** Whether every listed id has at least one box set, as grouping the
      existing box sets by id yields. */
  predicate Grouped(existing: map<string, seq<BoxSet>>) {
    forall id :: id in existing ==> |existing[id]| > 0
  }

  /** The diff: wanted ids without a box set are added; for a wanted id with
      box sets the first is kept and the others removed; every box set of an
      id no longer wanted is removed. */
  function PlanCollections(wanted: set<string>, existing: map<string, seq<BoxSet>>): (r: Plan)
    requires Grouped(existing)
    ensures r.toAdd == wanted - existing.Keys
    ensures r.toCheck.Keys == wanted * existing.Keys
    ensures forall id :: id in r.toCheck ==> r.toCheck[id] == existing[id][0]
    ensures forall b :: b in r.toRemove <==>
      exists id, i :: id in existing && 0 <= i < |existing[id]| && existing[id][i] == b && (id !in wanted || i > 0)
  {
    Plan(wanted - existing.Keys,
         map id | id in existing && id in wanted :: existing[id][0],
         set id, i | id in existing && 0 <= i < |existing[id]| && (id !in wanted || i > 0) :: existing[id][i])
  }

  /** Every wanted id ends up with exactly one collection, kept or created;
      and when no box set is listed twice, each existing box set is either
      kept or removed, never both. */
  lemma PlanCoversWanted(wanted: set<string>, existing: map<string, seq<BoxSet>>, id: string, i: nat)
    requires Grouped(existing)
    requires forall a, j, b, k ::
      (a in existing && b in existing && 0 <= j < |existing[a]| && 0 <= k < |existing[b]|
        && existing[a][j] == existing[b][k]) ==> a == b && j == k
    ensures var p := PlanCollections(wanted, existing);
      p.toAdd + p.toCheck.Keys == wanted && p.toAdd !! p.toCheck.Keys
    ensures id in existing && i < |existing[id]| ==>
      var p := PlanCollections(wanted, existing);
      var b := existing[id][i];
      (b in p.toRemove <==> !(id in p.toCheck && p.toCheck[id] == b))
  {
    var p := PlanCollections(wanted, existing);
    if id in existing && i < |existing[id]| {
      var b := existing[id][i];
      if b in p.toRemove {
        var id2, i2 :| id2 in existing && 0 <= i2 < |existing[id2]| && existing[id2][i2] == b && (id2 !in wanted || i2 > 0);
        assert id2 == id && i2 == i;
      }
    }
  }

  // ----- Creation order -----

  /** The position of the first id satisfying `p`, or -1. */
  function FindIndex(ids: seq<string>, p: string -> bool): (r: int)
    ensures -1 <= r < |ids|
    ensures r == -1 <==> forall i :: 0 <= i < |ids| ==> !p(ids[i])
    ensures r >= 0 ==> p(ids[r]) && forall i :: 0 <= i < r ==> !p(ids[i])
  {
    if |ids| == 0 then -1
    else if p(ids[0]) then 0
    else
      var r := FindIndex(ids[1..], p);
      if r == -1 then -1 else r + 1
  }

  /** Whether an id's group is top-level. */
  predicate TopLevel(groups: map<string, CollectionInfo>, id: string) {
    id in groups && groups[id].isTopLevel
  }

  /** Whether an id's parent already has a collection: one that existed, or
      one created earlier in this run. */
  predicate ParentReady(groups: map<string, CollectionInfo>, checked: set<string>, created: seq<string>, id: string) {
    id in groups && (groups[id].parentId in checked || groups[id].parentId in created)
  }

  /** The id picked next: the first top-level one, otherwise the first whose
      parent has a collection; -1 when there is none. */
  function NextIndex(toAdd: seq<string>, groups: map<string, CollectionInfo>, checked: set<string>,
                     created: seq<string>): (r: int)
    ensures -1 <= r < |toAdd|
    ensures r == -1 <==> forall i :: 0 <= i < |toAdd| ==>
      !TopLevel(groups, toAdd[i]) && !ParentReady(groups, checked, created, toAdd[i])
    ensures r >= 0 ==> TopLevel(groups, toAdd[r]) || ParentReady(groups, checked, created, toAdd[r])
    ensures r >= 0 && !TopLevel(groups, toAdd[r]) ==> forall i :: 0 <= i < |toAdd| ==> !TopLevel(groups, toAdd[i])
  {
    var top := FindIndex(toAdd, id => TopLevel(groups, id));
    if top != -1 then top else FindIndex(toAdd, id => ParentReady(groups, checked, created, id))
  }

  /** Whether `order` creates each group after its parent: every id is
      top-level or has its parent checked before it. */
  predicate ParentsFirst(order: seq<string>, groups: map<string, CollectionInfo>, checked: set<string>) {
    forall i :: 0 <= i < |order| ==> TopLevel(groups, order[i]) || ParentReady(groups, checked, order[..i], order[i])
  }

  /** Whether every top-level id comes before every other one. */
  predicate TopLevelFirst(order: seq<string>, groups: map<string, CollectionInfo>) {
    forall i, j :: 0 <= i < j < |order| && TopLevel(groups, order[j]) ==> TopLevel(groups, order[i])
  }

  /** Whether no id left is top-level once a non-top-level one was created. */
  predicate TopLevelDone(order: seq<string>, pending: seq<string>, groups: map<string, CollectionInfo>) {
    |order| > 0 && !TopLevel(groups, order[|order| - 1]) ==> forall i :: 0 <= i < |pending| ==> !TopLevel(groups, pending[i])
  }

  /** The creation loop: the order in which the missing collections are
      created, or the ids left when no remaining one is top-level or has a
      parent with a collection, where the code throws. */
  method CreationOrder(toAdd: seq<string>, groups: map<string, CollectionInfo>, checked: set<string>)
    returns (r: Result<seq<string>, seq<string>>)
    ensures r.Success? ==> multiset(r.value) == multiset(toAdd)
    ensures r.Success? ==> ParentsFirst(r.value, groups, checked)
    ensures r.Success? ==> TopLevelFirst(r.value, groups)
    ensures r.Failure? ==> |r.error| > 0 && multiset(r.error) <= multiset(toAdd)
    ensures r.Failure? ==> forall i :: 0 <= i < |r.error| ==>
      !TopLevel(groups, r.error[i]) && !(r.error[i] in groups && groups[r.error[i]].parentId in checked)
  {
    var pending := toAdd;
    var order: seq<string> := [];
    while |pending| > 0
      invariant multiset(order) + multiset(pending) == multiset(toAdd)
      invariant ParentsFirst(order, groups, checked)
      invariant TopLevelFirst(order, groups)
      invariant TopLevelDone(order, pending, groups)
      decreases |pending|
    {
      var index := NextIndex(pending, groups, checked, order);
      if index == -1 {
        return Failure(pending);
      }
      PickKeepsOrder(order, pending, index, groups, checked);
      RemoveAtMultiset(pending, index);
      order := order + [pending[index]];
      pending := pending[..index] + pending[index + 1..];
    }
    return Success(order);
  }

  /** The loop only gets stuck when some id to add is neither top-level nor
      the child of a group that already had a collection. */
  lemma StuckNeedsUnready(toAdd: seq<string>, stuck: seq<string>, groups: map<string, CollectionInfo>,
                          checked: set<string>)
    requires |stuck| > 0 && multiset(stuck) <= multiset(toAdd)
    requires forall i :: 0 <= i < |stuck| ==>
      !TopLevel(groups, stuck[i]) && !(stuck[i] in groups && groups[stuck[i]].parentId in checked)
    ensures exists i ::
      0 <= i < |toAdd| && !TopLevel(groups, toAdd[i]) && !(toAdd[i] in groups && groups[toAdd[i]].parentId in checked)
  {
    assert stuck[0] in multiset(toAdd);
    var i :| 0 <= i < |toAdd| && toAdd[i] == stuck[0];
  }

  /** Taking one element out of a sequence takes it out of its multiset. */
  lemma RemoveAtMultiset(s: seq<string>, index: nat)
    requires index < |s|
    ensures multiset(s[..index] + s[index + 1..]) + multiset{s[index]} == multiset(s)
  {
    assert s == s[..index] + [s[index]] + s[index + 1..];
  }

  /** Appending the picked id keeps both orderings. */
  lemma PickKeepsOrder(order: seq<string>, pending: seq<string>, index: int,
                       groups: map<string, CollectionInfo>, checked: set<string>)
    requires 0 <= index < |pending|
    requires index == NextIndex(pending, groups, checked, order)
    requires ParentsFirst(order, groups, checked) && TopLevelFirst(order, groups)
    requires TopLevelDone(order, pending, groups)
    ensures ParentsFirst(order + [pending[index]], groups, checked)
    ensures TopLevelFirst(order + [pending[index]], groups)
    ensures TopLevelDone(order + [pending[index]], pending[..index] + pending[index + 1..], groups)
  {
    var next := order + [pending[index]];
    assert next[..|order|] == order;
    forall i | 0 <= i < |order|
      ensures next[..i] == order[..i]
    {
    }
    var rest := pending[..index] + pending[index + 1..];
    forall i | 0 <= i < |rest|
      ensures rest[i] in pending
    {
      if i < index { assert rest[i] == pending[i]; } else { assert rest[i] == pending[i + 1]; }
    }
    if |order| > 0 && TopLevel(groups, pending[index]) {
      assert TopLevel(groups, order[|order| - 1]);
    }
  }
}
