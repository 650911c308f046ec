/**
 * `filter` (build/lib/util.js, lines 286-297): a stream that passes on the
 * items its predicate accepts and pushes every other item, in order, to its
 * `restore` stream. The streams are modelled by the sequences of items they
 * carry.
 */
module StreamFilter {

  datatype Split<T> = Split(passed: seq<T>, restored: seq<T>)

  /** What the two outputs carry once every item of `items` has been written. */
  function Filter<T>(accept: T -> bool, items: seq<T>): (r: Split<T>)
    ensures |r.passed| + |r.restored| == |items|
  {
    if items == [] then Split([], [])
    else
      var rest := Filter(accept, items[1..]);
      if accept(items[0]) then Split([items[0]] + rest.passed, rest.restored)
      else Split(rest.passed, [items[0]] + rest.restored)
  }

  /** The main stream carries only accepted items and `restore` only rejected ones. */
  lemma {:induction false} FilterRoutes<T>(accept: T -> bool, items: seq<T>)
    ensures forall k :: 0 <= k < |Filter(accept, items).passed| ==> accept(Filter(accept, items).passed[k])
    ensures forall k :: 0 <= k < |Filter(accept, items).restored| ==> !accept(Filter(accept, items).restored[k])
  {
    if items != [] {
      FilterRoutes(accept, items[1..]);
    }
  }

  /** No item is lost or duplicated: together the two outputs carry exactly the input. */
  lemma {:induction false} FilterLosesNothing<T>(accept: T -> bool, items: seq<T>)
    ensures multiset(Filter(accept, items).passed) + multiset(Filter(accept, items).restored) == multiset(items)
  {
    if items != [] {
      var x, tail := items[0], items[1..];
      FilterLosesNothing(accept, tail);
      assert items == [x] + tail;
    }
  }

  /** Items are routed one at a time: filtering a stream in two pieces is filtering it whole. */
  lemma {:induction false} FilterAppend<T>(accept: T -> bool, a: seq<T>, b: seq<T>)
    ensures Filter(accept, a + b) ==
      Split(Filter(accept, a).passed + Filter(accept, b).passed,
            Filter(accept, a).restored + Filter(accept, b).restored)
  {
    if a != [] {
      var ab := a + b;
      assert ab[0] == a[0] && ab[1..] == a[1..] + b;
      FilterAppend(accept, a[1..], b);
    } else {
      assert a + b == b;
    }
  }

  /** Each output keeps the relative order of its items: what `restore` carries is what the negated predicate would pass. */
  lemma {:induction false} FilterKeepsOrder<T>(accept: T -> bool, items: seq<T>)
    ensures Filter(accept, items).restored == Filter(x => !accept(x), items).passed
  {
    if items != [] {
      FilterKeepsOrder(accept, items[1..]);
    }
  }
}
