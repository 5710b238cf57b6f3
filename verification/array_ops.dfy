/**
 * The sequence operations the drag-and-drop library performs on the lists it
 * is given: inserting at an index, removing at an index, and moving an item
 * from one index to another.
 */
module ArrayOps {

  /** `s` with `x` inserted so that it sits at index `i`. */
  function InsertAt<T>(s: seq<T>, i: nat, x: T): (r: seq<T>)
    requires i <= |s|
    ensures |r| == |s| + 1 && r[i] == x
    ensures forall k :: 0 <= k < i ==> r[k] == s[k]
    ensures forall k :: i < k <= |s| ==> r[k] == s[k - 1]
    ensures multiset(r) == multiset(s) + multiset{x}
  {
    assert s == s[..i] + s[i..];
    s[..i] + [x] + s[i..]
  }

  /** `s` without the item at index `i`. */
  function RemoveAt<T>(s: seq<T>, i: nat): (r: seq<T>)
    requires i < |s|
    ensures |r| == |s| - 1
    ensures forall k :: 0 <= k < i ==> r[k] == s[k]
    ensures forall k :: i <= k < |r| ==> r[k] == s[k + 1]
    ensures multiset(r) == multiset(s) - multiset{s[i]}
  {
    assert s == s[..i] + [s[i]] + s[i + 1..];
    s[..i] + s[i + 1..]
  }

  /** `s` with the item at `from` taken out and put back so that it sits at `to`. */
  function MoveItem<T>(s: seq<T>, from: nat, to: nat): (r: seq<T>)
    requires from < |s| && to < |s|
    ensures |r| == |s| && r[to] == s[from]
    ensures multiset(r) == multiset(s)
  {
    InsertAt(RemoveAt(s, from), to, s[from])
  }

  /** Moving an item onto its own position changes nothing. */
  lemma MoveItemInPlace<T>(s: seq<T>, i: nat)
    requires i < |s|
    ensures MoveItem(s, i, i) == s
  {
  }

  /** Every item lying outside the range between `from` and `to` keeps its index. */
  lemma MoveItemKeepsOutside<T>(s: seq<T>, from: nat, to: nat, k: nat)
    requires from < |s| && to < |s| && k < |s|
    requires (k < from && k < to) || (k > from && k > to)
    ensures MoveItem(s, from, to)[k] == s[k]
  {
  }
}
