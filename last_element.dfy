/**
 * `getLastElement` of src/get_last_element.js: a list is split around its
 * last element-typed entry into the entries before it, the entry itself and
 * the entries after it.
 */
module LastElement {
  import opened Wrappers
  import opened Hast
  import opened Lists

  /** `[lefts, item, rights]`; `item` is `undefined` when there is no element. */
  datatype Split = Split(lefts: seq<Node>, item: Option<Node>, rights: seq<Node>)

  predicate HasElement(list: seq<Node>) {
    exists i :: 0 <= i < |list| && IsElement(list[i])
  }

  /**
   * `getLastElement(list)`: the last element's index is found in a reversed
   * copy. When there is none, `findIndex` gives -1, the index lands one past
   * the end, and the whole list is `lefts`.
   */
  function GetLastElement(list: seq<Node>): (r: Split)
    ensures HasElement(list) ==>
      && r.item.Some? && IsElement(r.item.value)
      && r.lefts + [r.item.value] + r.rights == list
      && forall j :: 0 <= j < |r.rights| ==> !IsElement(r.rights[j])
    ensures !HasElement(list) ==> r.lefts == list && r.item.None? && r.rights == []
  {
    var reversed := Reverse(list);
    var lastIdx := FindIndex(reversed, IsElement);
    var idx := |list| - 1 - lastIdx;
    var lefts := Slice(list, 0, idx);
    var rights := Slice(list, idx + 1, |list|);
    var item := if 0 <= idx < |list| then Some(list[idx]) else None;
    ReversedIndex(list, reversed, lastIdx);
    Split(lefts, item, rights)
  }

  /** The index `findIndex` reports on the reversed copy, read in the original order. */
  lemma ReversedIndex(list: seq<Node>, rev: seq<Node>, lastIdx: int)
    requires |rev| == |list| && forall i {:trigger rev[i]} :: 0 <= i < |list| ==> rev[i] == list[|list| - 1 - i]
    requires -1 <= lastIdx < |rev|
    requires lastIdx >= 0 ==> IsElement(rev[lastIdx]) && forall j :: 0 <= j < lastIdx ==> !IsElement(rev[j])
    requires lastIdx == -1 ==> forall j :: 0 <= j < |rev| ==> !IsElement(rev[j])
    ensures HasElement(list) ==>
      && 0 <= lastIdx && IsElement(list[|list| - 1 - lastIdx])
      && forall j :: |list| - 1 - lastIdx < j < |list| ==> !IsElement(list[j])
    ensures !HasElement(list) ==> lastIdx == -1
  {
    if HasElement(list) {
      var i :| 0 <= i < |list| && IsElement(list[i]);
      assert rev[|list| - 1 - i] == list[i];
      forall j | |list| - 1 - lastIdx < j < |list| ensures !IsElement(list[j]) {
        assert rev[|list| - 1 - j] == list[j];
      }
    } else {
      forall j | 0 <= j < |rev| ensures !IsElement(rev[j]) {
        assert rev[j] == list[|list| - 1 - j];
      }
    }
  }

  /** The split is determined by the list: the element is the last one in it. */
  lemma LastElementIsLast(list: seq<Node>, i: nat)
    requires i < |list| && IsElement(list[i])
    requires forall j :: i < j < |list| ==> !IsElement(list[j])
    ensures GetLastElement(list) == Split(list[..i], Some(list[i]), list[i + 1..])
  {
    var r := GetLastElement(list);
    var k := |r.lefts|;
    assert r.lefts + [r.item.value] + r.rights == list;
    assert list[k] == r.item.value;
    if k != i {
      assert false;
    }
    assert r.lefts == list[..i];
    assert r.rights == list[i + 1..];
  }
}
