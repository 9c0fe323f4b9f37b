/** `ListExtensions.TryRemoveAt`: remove the item at an index when the index
    is in range. The list is a value here; the result carries the list as it
    is after the call. */
module ListExtensions {
  import opened Wrappers

  /** What the call leaves behind: whether it removed anything, the removed
      item, and the list afterwards. */
  datatype Removal<T> = Removal(removed: bool, item: Option<T>, list: seq<T>)

  function TryRemoveAt<T>(list: seq<T>, index: int): (r: Removal<T>)
    ensures r.removed <==> 0 <= index < |list|
    ensures !r.removed ==> r.item.None? && r.list == list
    ensures r.removed ==> r.item == Some(list[index])
    ensures r.removed ==> |r.list| == |list| - 1
    ensures r.removed ==> forall i :: 0 <= i < index ==> r.list[i] == list[i]
    ensures r.removed ==> forall i :: index <= i < |r.list| ==> r.list[i] == list[i + 1]
  {
    if index < 0 || index >= |list| then Removal(false, None, list)
    else Removal(true, Some(list[index]), list[..index] + list[index + 1..])
  }

  /** Putting the removed item back where it was restores the list. */
  lemma TryRemoveAtInverse<T>(list: seq<T>, index: int)
    requires TryRemoveAt(list, index).removed
    ensures var r := TryRemoveAt(list, index);
      r.list[..index] + [r.item.value] + r.list[index..] == list
  {
    var r := TryRemoveAt(list, index);
    assert r.list[..index] == list[..index];
    assert r.list[index..] == list[index + 1..];
  }

  /** Removing at an index of a list with a known item there gives back that
      item and the rest of the list. */
  lemma TryRemoveAtOfInsert<T>(front: seq<T>, x: T, back: seq<T>)
    ensures TryRemoveAt(front + [x] + back, |front|) == Removal(true, Some(x), front + back)
  {
    var list := front + [x] + back;
    assert list[..|front|] == front;
    assert list[|front| + 1..] == back;
  }
}
