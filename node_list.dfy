/** NodeList: a set of node IDs, kept as a strictly increasing slice so that
    membership is a binary search and no ID appears twice. */
module Nodes {
  import opened Base

  predicate StrictlyIncreasing(s: seq<int32>)
  {
    forall i, j :: 0 <= i < j < |s| ==> s[i] < s[j]
  }

  predicate Distinct(s: seq<int32>)
  {
    forall i, j :: 0 <= i < j < |s| ==> s[i] != s[j]
  }

  /** The values a sequence holds. */
  ghost function Members(s: seq<int32>): (r: set<int32>)
    ensures forall x :: x in r <==> x in s
  {
    set x | x in s
  }

  /** A sequence without repeats has as many elements as distinct values. */
  lemma {:induction false} DistinctCount(s: seq<int32>)
    requires Distinct(s)
    ensures |Members(s)| == |s|
  {
    if s != [] {
      var t := s[1..];
      assert Distinct(t);
      DistinctCount(t);
      assert Members(s) == {s[0]} + Members(t);
      assert s[0] !in Members(t);
    }
  }

  class NodeList {
    var nodes: seq<int32>

    ghost predicate Valid()
      reads this
    {
      StrictlyIncreasing(nodes)
    }

    /** The node IDs the list holds. */
    ghost function Elems(): (r: set<int32>)
      reads this
      ensures forall x :: x in r <==> x in nodes
    {
      Members(nodes)
    }

    constructor ()
      ensures Valid() && nodes == []
    {
      nodes := [];
    }

    /** The index of the first node not below `n` (binary search over the sorted list). */
    method Search(n: int32) returns (i: nat)
      requires Valid()
      ensures i <= |nodes|
      ensures forall j :: 0 <= j < i ==> nodes[j] < n
      ensures forall j :: i <= j < |nodes| ==> n <= nodes[j]
    {
      var lo, hi := 0, |nodes|;
      while lo < hi
        invariant 0 <= lo <= hi <= |nodes|
        invariant forall j :: 0 <= j < lo ==> nodes[j] < n
        invariant forall j :: hi <= j < |nodes| ==> n <= nodes[j]
      {
        var mid := lo + (hi - lo) / 2;
        if nodes[mid] < n {
          lo := mid + 1;
        } else {
          hi := mid;
        }
      }
      i := lo;
    }

    /** NodeList.Contains */
    method Contains(n: int32) returns (found: bool)
      requires Valid()
      ensures found <==> n in Elems()
    {
      var i := Search(n);
      found := i < |nodes| && nodes[i] == n;
    }

    /** NodeList.Add: inserts `n` in order; a no-op when `n` is present. */
    method Add(n: int32)
      requires Valid()
      modifies this
      ensures Valid()
      ensures Elems() == old(Elems()) + {n}
      ensures n in old(Elems()) ==> nodes == old(nodes)
    {
      var i := Search(n);
      if i == |nodes| || nodes[i] != n {
        nodes := nodes[..i] + [n] + nodes[i..];
        assert forall x :: x in nodes <==> x == n || x in old(nodes);
      }
    }

    /** NodeList.GetNodes: every node once, as many as there are IDs. */
    function GetNodes(): (r: seq<int32>)
      reads this
      requires Valid()
      ensures Distinct(r) && |r| == |Elems()|
      ensures forall x :: x in r <==> x in Elems()
    {
      assert Distinct(nodes);
      DistinctCount(nodes);
      nodes
    }
  }

  /** In a sequence without repeats, items[i] is not among the earlier
      items, and the first i + 1 items are i + 1 distinct values. */
  lemma DistinctPrefix(items: seq<int32>, i: nat)
    requires Distinct(items) && i < |items|
    ensures items[i] !in Members(items[..i])
    ensures Members(items[..i + 1]) == Members(items[..i]) + {items[i]}
    ensures |Members(items[..i + 1])| == i + 1
  {
    assert items[..i + 1] == items[..i] + [items[i]];
    assert Distinct(items[..i + 1]);
    DistinctCount(items[..i + 1]);
  }

  /** Adds items[i], items[i - 1], ..., items[0] to `sn`, in that order. */
  method AddDownFrom(sn: NodeList, items: seq<int32>, i: nat)
    requires sn.Valid() && i < |items|
    modifies sn
    ensures sn.Valid()
    ensures sn.Elems() == old(sn.Elems()) + Members(items[..i + 1])
  {
    var j := i;
    while j >= 0
      invariant -1 <= j <= i
      invariant sn.Valid()
      invariant sn.Elems() == old(sn.Elems()) + Members(items[j + 1..i + 1])
    {
      sn.Add(items[j]);
      assert items[j..i + 1] == [items[j]] + items[j + 1..i + 1];
      j := j - 1;
    }
    assert items[0..i + 1] == items[..i + 1];
  }

  /** The NodeList test: for each item in turn, the item is absent; after
      adding it and, again, every earlier item, the list holds exactly i + 1
      nodes and contains the item. */
  method AddEachScenario(items: seq<int32>) returns (ok: bool)
    requires Distinct(items)
    ensures ok
  {
    var sn := new NodeList();
    ok := true;
    for i := 0 to |items|
      invariant sn.Valid() && sn.Elems() == Members(items[..i])
      invariant ok
    {
      var n := items[i];
      var before := sn.Contains(n);
      DistinctPrefix(items, i);
      AddDownFrom(sn, items, i);
      var nodes := sn.GetNodes();
      var after := sn.Contains(n);
      ok := !before && |nodes| == i + 1 && after;
    }
  }
}
