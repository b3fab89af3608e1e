/** `distinct` from main.go: order-preserving removal of repeated elements,
    with a seen-set and an append loop. */
module Dedupe {
  import opened Ordering

  /** What `distinct` returns: `s` with every element after its first copy
      dropped. Defined from the back, as the loop grows its result. */
  function Dedup<T(==)>(s: seq<T>): seq<T>
  {
    if s == [] then []
    else
      var kept := Dedup(s[..|s| - 1]);
      if s[|s| - 1] in kept then kept else kept + [s[|s| - 1]]
  }

  /** Position of the first copy of `x` in `s`. */
  function FirstIndex<T(==)>(s: seq<T>, x: T): (k: nat)
    requires x in s
    ensures k < |s| && s[k] == x
    ensures forall j :: 0 <= j < k ==> s[j] != x
  {
    if s[0] == x then 0 else 1 + FirstIndex(s[1..], x)
  }

  /** The kept elements are exactly the elements of the input. */
  lemma {:induction false} DedupSameElements<T>(s: seq<T>)
    ensures forall x :: x in Dedup(s) <==> x in s
    ensures |Dedup(s)| <= |s|
  {
    if s != [] {
      var init := s[..|s| - 1];
      DedupSameElements(init);
      assert s == init + [s[|s| - 1]];
    }
  }

  /** No element is kept twice. */
  lemma {:induction false} DedupNoDuplicates<T>(s: seq<T>)
    ensures NoDuplicates(Dedup(s))
  {
    if s != [] {
      DedupNoDuplicates(s[..|s| - 1]);
    }
  }

  /** The kept elements appear in the order of their first copies in the
      input: the first-copy positions are a strictly increasing selection of
      positions of `s`, so the result is a subsequence of `s` made of the
      earliest copies. */
  lemma {:induction false} DedupFirstOccurrenceOrder<T>(s: seq<T>)
    ensures forall x :: x in Dedup(s) ==> x in s
    ensures forall k, l :: 0 <= k < l < |Dedup(s)| ==>
      FirstIndex(s, Dedup(s)[k]) < FirstIndex(s, Dedup(s)[l])
  {
    DedupSameElements(s);
    if s != [] {
      var init, last := s[..|s| - 1], s[|s| - 1];
      var kept := Dedup(init);
      DedupFirstOccurrenceOrder(init);
      DedupSameElements(init);
      assert s == init + [last];
      forall y | y in init
        ensures FirstIndex(s, y) == FirstIndex(init, y)
      {
        var k := FirstIndex(init, y);
        assert s[k] == y;
      }
      if last !in kept {
        assert last !in init;
        assert FirstIndex(s, last) == |s| - 1;
      }
    }
  }

  /** `distinct` (main.go): one pass over `items`, remembering in `keys`
      what was seen and appending each element the first time it appears. */
  method Distinct<T(==)>(items: seq<T>) returns (result: seq<T>)
    ensures result == Dedup(items)
    ensures NoDuplicates(result)
    ensures forall x :: x in result <==> x in items
    ensures |result| <= |items|
  {
    var keys: set<T> := {};
    result := [];
    for i := 0 to |items|
      invariant result == Dedup(items[..i])
      invariant forall x :: x in keys <==> x in result
    {
      assert items[..i + 1][..i] == items[..i];
      if items[i] !in keys {
        keys := keys + {items[i]};
        result := result + [items[i]];
      }
    }
    assert items[..|items|] == items;
    DedupNoDuplicates(items);
    DedupSameElements(items);
  }
}
