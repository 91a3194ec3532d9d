/** The bounded search for the nodes nearest to a target. */
module Closest {
  import opened XorMetric

  datatype Node = Node(id: Hash, addr: string)

  // ---------- The simple specification: a stable sort ----------

  /** Puts n behind every node that is at most as far as it. */
  function InsertStable(t: Hash, s: seq<Node>, n: Node): (r: seq<Node>)
    ensures |r| == |s| + 1
  {
    if s == [] then [n]
    else if Dist(t, s[0].id, n.id) > 0 then [n] + s
    else [s[0]] + InsertStable(t, s[1..], n)
  }

  function StableSort(t: Hash, ns: seq<Node>): (r: seq<Node>)
    ensures |r| == |ns|
  {
    if ns == [] then [] else InsertStable(t, StableSort(t, ns[..|ns| - 1]), ns[|ns| - 1])
  }

  /** The first k elements, or all; a negative k takes none. */
  function Take<T>(s: seq<T>, k: int): (r: seq<T>)
  {
    if k <= 0 then [] else if k < |s| then s[..k] else s
  }

  ghost predicate SortedByDistance(t: Hash, s: seq<Node>)
  {
    forall i, j :: 0 <= i < j < |s| ==> Dist(t, s[i].id, s[j].id) <= 0
  }

  /** Where InsertStable puts n: behind the nodes not farther than n. */
  ghost predicate InsertAt(t: Hash, s: seq<Node>, n: Node, ix: nat)
  {
    && ix <= |s|
    && (forall i :: 0 <= i < ix ==> Dist(t, s[i].id, n.id) <= 0)
    && (ix < |s| ==> Dist(t, s[ix].id, n.id) > 0)
  }

  lemma {:induction false} InsertStableAt(t: Hash, s: seq<Node>, n: Node, ix: nat)
    requires InsertAt(t, s, n, ix)
    ensures InsertStable(t, s, n) == s[..ix] + [n] + s[ix..]
  {
    hide Dist;
    if ix == 0 {
      assert s[..0] + [n] + s[0..] == [n] + s;
    } else {
      InsertStableAt(t, s[1..], n, ix - 1);
      assert s[..ix] == [s[0]] + s[1..][..ix - 1] && s[1..][ix - 1..] == s[ix..];
    }
  }

  /** Every list has such a place. */
  lemma {:induction false} PlaceExists(t: Hash, s: seq<Node>, n: Node) returns (ix: nat)
    ensures InsertAt(t, s, n, ix)
  {
    hide Dist;
    if s == [] || Dist(t, s[0].id, n.id) > 0 {
      ix := 0;
    } else {
      var i := PlaceExists(t, s[1..], n);
      ix := i + 1;
    }
  }

  lemma InsertKeepsSorted(t: Hash, s: seq<Node>, n: Node)
    requires SortedByDistance(t, s)
    ensures SortedByDistance(t, InsertStable(t, s, n))
  {
    hide Dist, InsertStable;
    var ix := PlaceExists(t, s, n);
    InsertStableAt(t, s, n, ix);
    var r := s[..ix] + [n] + s[ix..];
    forall i, j | 0 <= i < j < |r| ensures Dist(t, r[i].id, r[j].id) <= 0 {
      if i == ix && j > ix {
        DistIsOrder(t, s[ix].id, n.id, n.id);
        DistIsOrder(t, n.id, s[ix].id, s[j - 1].id);
        DistIsOrder(t, s[ix].id, s[ix].id, s[ix].id);
      }
    }
  }

  // ---------- Binary-search insertion ----------

  /** sort.Search for the first node farther than n. */
  method Search(t: Hash, s: seq<Node>, n: Node) returns (ix: nat)
    requires SortedByDistance(t, s)
    ensures InsertAt(t, s, n, ix)
  {
    hide Dist;
    var i, j := 0, |s|;
    while i < j
      invariant 0 <= i <= j <= |s|
      invariant forall k :: 0 <= k < i ==> Dist(t, s[k].id, n.id) <= 0
      invariant j < |s| ==> Dist(t, s[j].id, n.id) > 0
    {
      var h := (i + j) / 2;
      var d := Distcmp(t, s[h].id, n.id);
      if d <= 0 {
        forall k | 0 <= k < h ensures Dist(t, s[k].id, n.id) <= 0 {
          DistIsOrder(t, s[k].id, s[h].id, n.id);
        }
        i := h + 1;
      } else {
        j := h;
      }
    }
    ix := i;
  }

  class NodesByDistance {
    const maxnum: int
    const target: Hash
    var nodes: seq<Node>

    constructor (target: Hash, maxnum: int)
      ensures this.target == target && this.maxnum == maxnum && nodes == []
    {
      this.target, this.maxnum, this.nodes := target, maxnum, [];
    }

    /** Appends while there is room, then slides the farther nodes down over the last one. */
    method Push(node: Node)
      requires SortedByDistance(target, nodes) && nodes == Take(nodes, maxnum)
      modifies `nodes
      ensures nodes == Take(InsertStable(target, old(nodes), node), maxnum)
      ensures SortedByDistance(target, nodes) && nodes == Take(nodes, maxnum)
    {
      hide Dist, InsertStable;
      var ix := Search(target, nodes, node);
      InsertStableAt(target, nodes, node, ix);
      InsertKeepsSorted(target, nodes, node);
      ghost var all := nodes[..ix] + [node] + nodes[ix..];
      if |nodes| < maxnum { nodes := nodes + [node]; }
      if ix != |nodes| {
        nodes := nodes[..ix] + [node] + nodes[ix..|nodes| - 1];
      }
      assert nodes == Take(all, maxnum);
    }
  }

  /** Truncating before inserting loses nothing that survives truncating after. */
  lemma TakeInsert(t: Hash, s: seq<Node>, n: Node, k: int)
    ensures Take(InsertStable(t, Take(s, k), n), k) == Take(InsertStable(t, s, n), k)
  {
    hide Dist, InsertStable;
    var ix := PlaceExists(t, s, n);
    InsertStableAt(t, s, n, ix);
    if 0 < k < |s| {
      var cut := if ix <= k then ix else k;
      InsertStableAt(t, s[..k], n, cut);
    }
  }

  /** Closest: pushing every stored node yields the first maxnum of the stable sort of them all. */
  method FindClosest(buckets: seq<seq<Node>>, target: Hash, maxnum: int) returns (nodes: seq<Node>)
    ensures nodes == Take(StableSort(target, Flatten(buckets)), maxnum)
  {
    hide Dist, StableSort, InsertStable;
    var close := new NodesByDistance(target, maxnum);
    ghost var seen: seq<Node> := [];
    SortNothing(target, maxnum);
    assert buckets[..0] == [];
    for i := 0 to |buckets|
      invariant seen == Flatten(buckets[..i])
      invariant close.nodes == Take(StableSort(target, seen), maxnum)
      invariant SortedByDistance(target, close.nodes) && close.nodes == Take(close.nodes, maxnum)
    {
      ghost var before := seen;
      for j := 0 to |buckets[i]|
        invariant seen == before + buckets[i][..j]
        invariant close.nodes == Take(StableSort(target, seen), maxnum)
        invariant SortedByDistance(target, close.nodes) && close.nodes == Take(close.nodes, maxnum)
      {
        SortNext(target, seen, buckets[i][j]);
        TakeInsert(target, StableSort(target, seen), buckets[i][j], maxnum);
        close.Push(buckets[i][j]);
        seen := seen + [buckets[i][j]];
      }
      assert buckets[i][..|buckets[i]|] == buckets[i];
      FlattenNext(buckets, i);
    }
    assert buckets[..|buckets|] == buckets;
    return close.nodes;
  }

  function Flatten<T>(ss: seq<seq<T>>): seq<T>
  {
    if ss == [] then [] else Flatten(ss[..|ss| - 1]) + ss[|ss| - 1]
  }

  lemma FlattenNext<T>(ss: seq<seq<T>>, i: nat)
    requires i < |ss|
    ensures Flatten(ss[..i + 1]) == Flatten(ss[..i]) + ss[i]
  {
    assert ss[..i + 1][..i] == ss[..i];
  }

  lemma SortNothing(t: Hash, k: int)
    ensures StableSort(t, []) == [] && Take(StableSort(t, []), k) == []
  {
  }

  lemma SortNext(t: Hash, ns: seq<Node>, n: Node)
    ensures StableSort(t, ns + [n]) == InsertStable(t, StableSort(t, ns), n)
  {
    assert (ns + [n])[..|ns|] == ns;
  }

  // ---------- What the specification promises ----------

  function WithId(s: seq<Node>, id: Hash): seq<Node>
  {
    if s == [] then [] else WithId(s[..|s| - 1], id) + (if s[|s| - 1].id == id then [s[|s| - 1]] else [])
  }

  lemma {:induction false} WithIdAppend(a: seq<Node>, b: seq<Node>, id: Hash)
    ensures WithId(a + b, id) == WithId(a, id) + WithId(b, id)
    decreases |b|
  {
    if b == [] {
      assert a + b == a;
    } else {
      WithIdAppend(a, b[..|b| - 1], id);
      assert (a + b)[..|a + b| - 1] == a + b[..|b| - 1];
    }
  }

  lemma {:induction false} WithIdNone(s: seq<Node>, id: Hash)
    requires forall i :: 0 <= i < |s| ==> s[i].id != id
    ensures WithId(s, id) == []
  {
    if s != [] { WithIdNone(s[..|s| - 1], id); }
  }

  lemma InsertIsStable(t: Hash, s: seq<Node>, n: Node, id: Hash)
    requires SortedByDistance(t, s)
    ensures WithId(InsertStable(t, s, n), id) == WithId(s + [n], id)
    ensures multiset(InsertStable(t, s, n)) == multiset(s) + multiset{n}
  {
    hide Dist, InsertStable, WithId;
    var ix := PlaceExists(t, s, n);
    InsertStableAt(t, s, n, ix);
    var a, b := s[..ix], s[ix..];
    assert s == a + b;
    WithIdAppend(a, b, id);
    WithIdAppend(a + b, [n], id);
    WithIdAppend(a + [n], b, id);
    WithIdAppend(a, [n], id);
    if n.id == id {
      forall i | 0 <= i < |b| ensures b[i].id != id {
        DistIsOrder(t, s[ix].id, s[ix + i].id, n.id);
        DistIsOrder(t, s[ix].id, n.id, n.id);
      }
      WithIdNone(b, id);
    } else {
      WithIdOne(n, id);
    }
  }

  lemma WithIdOne(n: Node, id: Hash)
    ensures WithId([n], id) == if n.id == id then [n] else []
  {
    assert [n][..0] == [];
  }

  /** The sort orders by distance, keeps all nodes, and keeps equally distant ones in input order. */
  lemma {:induction false} StableSortIsStable(t: Hash, ns: seq<Node>, id: Hash)
    ensures SortedByDistance(t, StableSort(t, ns))
    ensures multiset(StableSort(t, ns)) == multiset(ns)
    ensures WithId(StableSort(t, ns), id) == WithId(ns, id)
    decreases |ns|
  {
    hide Dist, InsertStable, WithId;
    if ns != [] {
      var front, last := ns[..|ns| - 1], ns[|ns| - 1];
      StableSortIsStable(t, front, id);
      InsertKeepsSorted(t, StableSort(t, front), last);
      InsertIsStable(t, StableSort(t, front), last, id);
      assert ns == front + [last];
      WithIdAppend(StableSort(t, front), [last], id);
      WithIdAppend(front, [last], id);
    }
  }

  /** As many nodes as asked for are returned, or all, and they are the first of the sort. */
  lemma ClosestCount(t: Hash, ns: seq<Node>, k: int)
    ensures var r := Take(StableSort(t, ns), k);
            && r <= StableSort(t, ns)
            && |r| == if k < 0 then 0 else if k < |ns| then k else |ns|
  {
    hide StableSort;
    StableSortIsStable(t, ns, t);
    assert |StableSort(t, ns)| == |multiset(StableSort(t, ns))| == |multiset(ns)| == |ns|;
  }

  /** No node that Closest leaves out is closer to the target than one that it returns. */
  lemma {:induction false} NothingCloserOmitted(t: Hash, ns: seq<Node>, k: int, returned: Node, omitted: Node)
    requires var r := Take(StableSort(t, ns), k);
             returned in r && omitted in multiset(ns) - multiset(r)
    ensures Dist(t, returned.id, omitted.id) <= 0
  {
    hide Dist, StableSort, WithId;
    StableSortIsStable(t, ns, returned.id);
    var all, r := StableSort(t, ns), Take(StableSort(t, ns), k);
    var rest := all[|r|..];
    assert all == r + rest;
    assert multiset(ns) == multiset(r) + multiset(rest);
    assert omitted in multiset(rest);
    var i :| 0 <= i < |r| && r[i] == returned;
    var j :| 0 <= j < |rest| && rest[j] == omitted;
    assert all[i] == returned && all[|r| + j] == omitted;
  }
}
