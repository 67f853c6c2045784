/** `CompareAgainstHead::all_items_match` (also called `uniform`): take the
    first item, then check that every later item equals it. */
module Iter {

  /** `items.all(|x| x == head)` over the items after the head. */
  function AllEqual<T(==)>(rest: seq<T>, head: T): bool
  {
    if rest == [] then true else rest[0] == head && AllEqual(rest[1..], head)
  }

  function AllItemsMatch<T(==)>(items: seq<T>): bool
  {
    if items == [] then true else AllEqual(items[1..], items[0])
  }

  lemma {:induction false} AllEqualMeansEvery<T>(rest: seq<T>, head: T)
    ensures AllEqual(rest, head) <==> forall i :: 0 <= i < |rest| ==> rest[i] == head
  {
    if rest != [] {
      AllEqualMeansEvery(rest[1..], head);
      assert forall i :: 1 <= i < |rest| ==> rest[i] == rest[1..][i - 1];
    }
  }

  /** The result is true exactly when every item equals the first one. */
  lemma AllItemsMatchMeansEveryEqualsHead<T>(items: seq<T>)
    ensures AllItemsMatch(items) <==> forall i :: 0 <= i < |items| ==> items[i] == items[0]
  {
    if items != [] {
      AllEqualMeansEvery(items[1..], items[0]);
      assert forall i :: 1 <= i < |items| ==> items[i] == items[1..][i - 1];
    }
  }

  /** Equivalently, every two items are equal. */
  lemma AllItemsMatchMeansPairwiseEqual<T>(items: seq<T>)
    ensures AllItemsMatch(items) <==> forall i, j :: 0 <= i < |items| && 0 <= j < |items| ==> items[i] == items[j]
  {
    AllItemsMatchMeansEveryEqualsHead(items);
  }

  /** No items, or a single item, always match. */
  lemma AllItemsMatchShort<T>(items: seq<T>)
    requires |items| <= 1
    ensures AllItemsMatch(items)
  {
  }

  /** For two items this is plain equality: the use `compare_with` makes of it. */
  lemma AllItemsMatchPair<T>(a: T, b: T)
    ensures AllItemsMatch([a, b]) <==> a == b
  {
    AllItemsMatchMeansEveryEqualsHead([a, b]);
    assert [a, b][1] == b;
  }

  /** Appending keeps the result true exactly when it was true and the new
      item equals the head. */
  lemma AllItemsMatchAppend<T>(items: seq<T>, x: T)
    requires items != []
    ensures AllItemsMatch(items + [x]) <==> AllItemsMatch(items) && x == items[0]
  {
    AllItemsMatchMeansEveryEqualsHead(items);
    AllItemsMatchMeansEveryEqualsHead(items + [x]);
    assert forall i :: 0 <= i < |items| ==> (items + [x])[i] == items[i];
    assert (items + [x])[|items|] == x;
  }
}
