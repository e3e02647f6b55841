/** The list of bridge edges (bridge_list.c). */
module BridgeList {
  import opened Options

  type Mac = x: int | 0 <= x < 0x1_0000_0000_0000

  type Edge = (Mac, Mac)

  predicate Distinct(s: seq<Edge>) { forall i, j :: 0 <= i < j < |s| ==> s[i] != s[j] }

  /** No edge from a MAC to itself, every edge in both directions. */
  predicate Proper(s: set<Edge>)
  {
    forall e :: e in s ==> e.0 != e.1 && (e.1, e.0) in s
  }

  function EdgeSet(s: seq<Edge>): (r: set<Edge>) { set e | e in s }

  lemma Prepended(s: seq<Edge>, e: Edge)
    requires Distinct(s) && e !in EdgeSet(s)
    ensures Distinct([e] + s) && EdgeSet([e] + s) == EdgeSet(s) + {e}
  {
  }

  function DropAt(s: seq<Edge>, i: nat): (r: seq<Edge>)
    requires i < |s|
  {
    s[..i] + s[i + 1..]
  }

  lemma DropAtMembers(s: seq<Edge>, i: nat)
    requires i < |s| && Distinct(s)
    ensures Distinct(DropAt(s, i)) && EdgeSet(DropAt(s, i)) == EdgeSet(s) - {s[i]}
    ensures |DropAt(s, i)| == |s| - 1
    ensures forall j :: i < j < |s| ==> DropAt(s, i)[j - 1] == s[j]
    ensures forall j :: 0 <= j < i ==> DropAt(s, i)[j] == s[j]
  {
  }

  class List {
    var edges: seq<Edge>

    ghost function Edges(): (r: set<Edge>)
      reads this
    {
      EdgeSet(edges)
    }

    /** No edge is listed twice. */
    ghost predicate Valid()
      reads this
    {
      Distinct(edges) && Proper(Edges())
    }

    constructor ()
      ensures Valid() && Edges() == {}
    {
      edges := [];
    }

    /** get_bridge_mac: where the two directions of an edge are. */
    method Get(l: Mac, r: Mac) returns (left: Option<nat>, right: Option<nat>)
      ensures left.Some? <==> (l, r) in Edges()
      ensures right.Some? <==> (r, l) in Edges()
      ensures left.Some? ==> left.value < |edges| && edges[left.value] == (l, r)
      ensures right.Some? ==> right.value < |edges| && edges[right.value] == (r, l)
    {
      left, right := None, None;
      var i := 0;
      while i < |edges|
        invariant 0 <= i <= |edges|
        invariant left.Some? <==> (l, r) in edges[..i]
        invariant right.Some? <==> (r, l) in edges[..i]
        invariant left.Some? ==> left.value < i && edges[left.value] == (l, r)
        invariant right.Some? ==> right.value < i && edges[right.value] == (r, l)
      {
        if edges[i] == (l, r) {
          left := Some(i);
        }
        if edges[i] == (r, l) {
          right := Some(i);
        }
        i := i + 1;
      }
    }

    /** check_bridge_exist */
    method Exists(l: Mac, r: Mac) returns (there: bool)
      requires Valid()
      ensures there <==> (l, r) in Edges()
    {
      hide EdgeSet;
      var left, right := Get(l, r);
      there := left.Some? && right.Some?;
    }

    /** add_bridge_mac */
    method Add(l: Mac, r: Mac) returns (res: int)
      requires Valid()
      modifies this
      ensures Valid()
      ensures res == if l == r then -1 else if (l, r) in old(Edges()) then 0 else 1
      ensures Edges() == if l == r then old(Edges()) else old(Edges()) + {(l, r), (r, l)}
    {
      if l == r {
        return -1;
      }
      var left, right := Get(l, r);
      if left.Some? && right.Some? {
        return 0;
      }
      hide Distinct, EdgeSet, DropAt;
      edges := [(l, r)] + edges;
      edges := [(r, l)] + edges;
      res := 1;
    }

    /** remove_bridge_mac */
    method Remove(l: Mac, r: Mac) returns (res: int)
      requires Valid()
      modifies this
      ensures Valid() && res == 0
      ensures Edges() == old(Edges()) - {(l, r), (r, l)}
    {
      hide Distinct, EdgeSet, DropAt;
      var left, right := Get(l, r);
      if left.Some? {
        DropAtMembers(edges, left.value);
        edges := DropAt(edges, left.value);
        if right.Some? && right.value > left.value {
          right := Some(right.value - 1);
        }
      }
      if right.Some? {
        DropAtMembers(edges, right.value);
        edges := DropAt(edges, right.value);
      }
      res := 0;
    }

    /** get_src_mac_list: the other ends of the edges that start at a MAC. */
    method Neighbours(src: Mac) returns (macs: seq<Mac>)
      ensures forall m :: m in macs <==> (src, m) in Edges()
    {
      macs := [];
      var i := 0;
      while i < |edges|
        invariant 0 <= i <= |edges|
        invariant forall m :: m in macs <==> (src, m) in edges[..i]
      {
        if edges[i].0 == src {
          macs := macs + [edges[i].1];
        }
        i := i + 1;
      }
    }
  }
}
