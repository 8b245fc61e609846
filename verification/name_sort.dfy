/**
 * Sorting the inventory by name, as the snapshot handler does: a stable sort by the names' order, here code-unit lexicographic order.
 */
module NameSort {
  import opened Types
  import JsStrings

  predicate NameLeq(x: InventoryItem, y: InventoryItem) {
    JsStrings.LessEq(x.data.name, y.data.name)
  }

  /** Every item's name is at most every later item's name. */
  predicate SortedByName(s: seq<InventoryItem>) {
    forall i, j :: 0 <= i < j < |s| ==> NameLeq(s[i], s[j])
  }

  /** Putting an item that is at most every element in front of a sorted list keeps it sorted. */
  lemma ConsSorted(y: InventoryItem, t: seq<InventoryItem>)
    requires SortedByName(t)
    requires forall e :: e in t ==> NameLeq(y, e)
    ensures SortedByName([y] + t)
  {
    var s := [y] + t;
    forall i, j | 0 <= i < j < |s|
      ensures NameLeq(s[i], s[j])
    {
      if i > 0 {
        assert s[i] == t[i - 1] && s[j] == t[j - 1];
      } else {
        assert s[j] in t;
      }
    }
  }

  /** Inserts `x` before the first element whose name is not below `x`'s; equal names keep `x` in front. */
  function Insert(x: InventoryItem, s: seq<InventoryItem>): (r: seq<InventoryItem>)
    requires SortedByName(s)
    ensures SortedByName(r)
    ensures multiset(r) == multiset(s) + multiset{x}
    ensures |s| > 0 && NameLeq(x, s[0]) ==> r == [x] + s
  {
    if |s| == 0 then [x]
    else if NameLeq(x, s[0]) then
      assert SortedByName([x] + s) by {
        forall e | e in s
          ensures NameLeq(x, e)
        {
          var i :| 0 <= i < |s| && s[i] == e;
          if i == 0 {
            JsStrings.LessEqReflexive(e.data.name);
          }
          JsStrings.LessEqTransitive(x.data.name, s[0].data.name, e.data.name);
        }
        ConsSorted(x, s);
      }
      assert s == [s[0]] + s[1..];
      [x] + s
    else
      var rest := Insert(x, s[1..]);
      assert SortedByName([s[0]] + rest) by {
        JsStrings.LessEqTotal(x.data.name, s[0].data.name);
        forall e | e in rest
          ensures NameLeq(s[0], e)
        {
          assert e in multiset(rest);
          if e != x {
            assert e in s[1..];
          }
        }
        ConsSorted(s[0], rest);
      }
      assert s == [s[0]] + s[1..];
      [s[0]] + rest
  }

  /** Insertion sort by name. */
  function SortByName(s: seq<InventoryItem>): (r: seq<InventoryItem>)
    ensures SortedByName(r)
    ensures multiset(r) == multiset(s)
    ensures |r| == |s|
  {
    if |s| == 0 then []
    else
      assert s == [s[0]] + s[1..];
      Insert(s[0], SortByName(s[1..]))
  }

  /** A list already sorted by name is left as it is: re-sorting a published list changes nothing. */
  lemma {:induction false} SortSortedIsIdentity(s: seq<InventoryItem>)
    requires SortedByName(s)
    ensures SortByName(s) == s
  {
    if |s| > 0 {
      SortSortedIsIdentity(s[1..]);
      if |s| > 1 {
        assert NameLeq(s[0], s[1]);
      }
    }
  }
}
