/** Kademlia buckets: adding nodes, sweeping out bad ones, and what every run keeps. */
module RoutingTable {
  import opened XorMetric
  import opened Closest

  // Durations in minutes.
  const BAD := 20
  const DUBIOUS := 15
  const BUCKETS := 160

  datatype AddStatus = NodeAdded | NodeNotAdded | NodeExistAndUpdated | NodeExistAndChanged

  /** A stored node and when it was last heard of. */
  datatype Entry = Entry(node: Node, lastChanged: int)

  datatype Bucket = Bucket(nodes: seq<Entry>, lastChanged: int)

  predicate IsBad(e: Entry, now: int) { now - e.lastChanged > BAD }

  // ---------- Adding to a bucket ----------

  function FindId(es: seq<Entry>, id: Hash): (i: nat)
    ensures i <= |es| && (i < |es| ==> es[i].node.id == id)
    ensures forall j :: 0 <= j < i ==> es[j].node.id != id
  {
    if es == [] || es[0].node.id == id then 0 else 1 + FindId(es[1..], id)
  }

  function FindBad(es: seq<Entry>, now: int): (i: nat)
    ensures i <= |es| && (i < |es| ==> IsBad(es[i], now))
    ensures forall j :: 0 <= j < i ==> !IsBad(es[j], now)
  {
    if es == [] || IsBad(es[0], now) then 0 else 1 + FindBad(es[1..], now)
  }

  /** Entries of one ID are pointers to one object, so all of them see its new time. */
  function Touch(es: seq<Entry>, id: Hash, now: int): (r: seq<Entry>)
    ensures |r| == |es|
    ensures forall i :: 0 <= i < |es| ==> r[i] == if es[i].node.id == id then es[i].(lastChanged := now) else es[i]
  {
    seq(|es|, i requires 0 <= i < |es| => if es[i].node.id == id then es[i].(lastChanged := now) else es[i])
  }

  /** copy(nodes[i:], nodes[i+1:]): the tail moves up one place and the last entry stays as well. */
  function ShiftUp(es: seq<Entry>, i: nat): (r: seq<Entry>)
    requires i < |es|
    ensures |r| == |es|
  {
    es[..i] + es[i + 1..] + [es[|es| - 1]]
  }

  function Add(b: Bucket, k: int, n: Node, now: int): (Bucket, AddStatus)
  {
    var i := FindId(b.nodes, n.id);
    if i < |b.nodes| then
      if b.nodes[i].node.addr == n.addr then (Bucket(Touch(b.nodes, n.id, now), now), NodeExistAndUpdated)
      else (b, NodeExistAndChanged)
    else if |b.nodes| < k then (Bucket(b.nodes + [Entry(n, now)], now), NodeAdded)
    else
      var bad := FindBad(b.nodes, now);
      if bad < |b.nodes| then (Bucket(ShiftUp(b.nodes, bad) + [Entry(n, now)], now), NodeAdded)
      else (b, NodeNotAdded)
  }

  /** bucket.AddNode: look for the ID, then for room, then for a bad node. */
  method AddToBucket(b: Bucket, k: int, n: Node, now: int) returns (r: Bucket, status: AddStatus)
    ensures (r, status) == Add(b, k, n, now)
  {
    hide Touch, IsBad;
    for i := 0 to |b.nodes|
      invariant i <= FindId(b.nodes, n.id)
    {
      if b.nodes[i].node.id == n.id {
        if b.nodes[i].node.addr == n.addr { return Bucket(Touch(b.nodes, n.id, now), now), NodeExistAndUpdated; }
        return b, NodeExistAndChanged;
      }
    }
    if |b.nodes| < k { return Bucket(b.nodes + [Entry(n, now)], now), NodeAdded; }
    for i := 0 to |b.nodes|
      invariant i <= FindBad(b.nodes, now)
    {
      if IsBad(b.nodes[i], now) { return Bucket(ShiftUp(b.nodes, i) + [Entry(n, now)], now), NodeAdded; }
    }
    return b, NodeNotAdded;
  }

  /** The bucket stays within k exactly if it is not the full bucket that replaces a bad node. */
  lemma AddWithinK(b: Bucket, k: int, n: Node, now: int)
    requires |b.nodes| <= k
    ensures |Add(b, k, n, now).0.nodes| <= k
            <==> !(|b.nodes| == k && FindId(b.nodes, n.id) == |b.nodes| && FindBad(b.nodes, now) < |b.nodes|)
  {
  }

  /**
    Replacing in a full bucket drops the bad node and doubles the last entry. When these are the
    same, the two cancel out: the new node is appended and the bad one stays.
   */
  lemma AddReplaces(b: Bucket, k: int, n: Node, now: int)
    requires FindId(b.nodes, n.id) == |b.nodes| && |b.nodes| >= k && FindBad(b.nodes, now) < |b.nodes|
    ensures var bad := FindBad(b.nodes, now);
            multiset(Add(b, k, n, now).0.nodes)
            == multiset(b.nodes) - multiset{b.nodes[bad]} + multiset{b.nodes[|b.nodes| - 1]} + multiset{Entry(n, now)}
  {
    hide FindId, FindBad, ShiftUp, IsBad;
    var bad := FindBad(b.nodes, now);
    ShiftUpHolds(b.nodes, bad);
    assert Add(b, k, n, now).0.nodes == ShiftUp(b.nodes, bad) + [Entry(n, now)];
  }

  /** No two entries have one ID. */
  ghost predicate UniqueIds(es: seq<Entry>)
  {
    forall i, j :: 0 <= i < j < |es| ==> es[i].node.id != es[j].node.id
  }

  /** IDs stay unique exactly if it is not a full bucket that replaces a bad node before its last entry. */
  lemma UniqueIdsKeptExactly(b: Bucket, k: int, n: Node, now: int)
    requires UniqueIds(b.nodes)
    ensures UniqueIds(Add(b, k, n, now).0.nodes)
            <==> !(FindId(b.nodes, n.id) == |b.nodes| && |b.nodes| >= k && FindBad(b.nodes, now) < |b.nodes| - 1)
  {
    hide FindId, FindBad, IsBad;
    var last, bad := |b.nodes| - 1, FindBad(b.nodes, now);
    if FindId(b.nodes, n.id) == |b.nodes| && |b.nodes| >= k && bad < |b.nodes| {
      var r := Add(b, k, n, now).0.nodes;
      assert bad < last ==> r[last - 1] == r[last] == b.nodes[last];
      assert bad == last ==> r == b.nodes + [Entry(n, now)];
    }
  }

  lemma ShiftUpHolds(es: seq<Entry>, i: nat)
    requires i < |es|
    ensures multiset(ShiftUp(es, i)) == multiset(es) - multiset{es[i]} + multiset{es[|es| - 1]}
  {
    assert es == es[..i] + [es[i]] + es[i + 1..];
    assert multiset(es) == multiset(es[..i]) + multiset{es[i]} + multiset(es[i + 1..]);
  }

  // ---------- Sweeping a bucket ----------

  /** The indexes of the bad nodes, ascending. */
  function BadIndexes(es: seq<Entry>, now: int, i: nat): (r: seq<nat>)
    requires i <= |es|
    ensures forall k :: 0 <= k < |r| ==> i <= r[k] < |es| && IsBad(es[r[k]], now)
    decreases |es| - i
  {
    if i == |es| then []
    else if IsBad(es[i], now) then [i] + BadIndexes(es, now, i + 1)
    else BadIndexes(es, now, i + 1)
  }

  /** What a run of deletions left, and whether it ended in an index panic. */
  datatype Swept = Swept(nodes: seq<Entry>, panicked: bool)

  /** Deleting by the indexes of the original list, one after the other, from the shrinking list. */
  function DeleteAll(es: seq<Entry>, indexes: seq<nat>): Swept
    decreases |indexes|
  {
    if indexes == [] then Swept(es, false)
    else if indexes[0] >= |es| then Swept(es, true)
    else DeleteAll(es[..indexes[0]] + es[indexes[0] + 1..], indexes[1..])
  }

  predicate Skipped(b: Bucket, now: int)
  {
    b.nodes == [] || now - b.lastChanged < DUBIOUS
  }

  function Check(b: Bucket, now: int): Swept
  {
    if Skipped(b, now) then Swept(b.nodes, false)
    else DeleteAll(b.nodes, BadIndexes(b.nodes, now, 0))
  }

  /** bucket.CheckAllNodes: collect the indexes of the bad nodes, then delete by them. */
  method CheckAllNodes(b: Bucket, now: int) returns (s: Swept)
    ensures s == Check(b, now)
  {
    if Skipped(b, now) { return Swept(b.nodes, false); }
    var indexes := CollectBad(b.nodes, now);
    s := DeleteByIndexes(b.nodes, indexes);
  }

  method CollectBad(es: seq<Entry>, now: int) returns (indexes: seq<nat>)
    ensures indexes == BadIndexes(es, now, 0)
  {
    hide IsBad, BadIndexes;
    indexes := [];
    assert [] + BadIndexes(es, now, 0) == BadIndexes(es, now, 0);
    for i := 0 to |es|
      invariant BadIndexes(es, now, 0) == indexes + BadIndexes(es, now, i)
    {
      BadIndexesStep(es, now, i, indexes);
      if IsBad(es[i], now) { indexes := indexes + [i]; }
    }
    BadIndexesEnd(es, now);
    assert indexes + [] == indexes;
  }

  lemma BadIndexesStep(es: seq<Entry>, now: int, i: nat, before: seq<nat>)
    requires i < |es|
    ensures before + BadIndexes(es, now, i)
            == (if IsBad(es[i], now) then before + [i] else before) + BadIndexes(es, now, i + 1)
  {
    hide IsBad;
    assert (before + [i]) + BadIndexes(es, now, i + 1) == before + ([i] + BadIndexes(es, now, i + 1));
  }

  lemma BadIndexesEnd(es: seq<Entry>, now: int)
    ensures BadIndexes(es, now, |es|) == []
  {
  }

  method DeleteByIndexes(es: seq<Entry>, indexes: seq<nat>) returns (s: Swept)
    ensures s == DeleteAll(es, indexes)
  {
    var nodes := es;
    ghost var wanted := DeleteAll(es, indexes);
    assert indexes[0..] == indexes;
    for i := 0 to |indexes|
      invariant wanted == DeleteAll(nodes, indexes[i..])
    {
      assert indexes[i..][0] == indexes[i] && indexes[i..][1..] == indexes[i + 1..];
      if indexes[i] >= |nodes| { return Swept(nodes, true); }
      nodes := nodes[..indexes[i]] + nodes[indexes[i] + 1..];
    }
    return Swept(nodes, false);
  }

  function NotBad(es: seq<Entry>, now: int): seq<Entry>
  {
    if es == [] then [] else (if IsBad(es[0], now) then [] else [es[0]]) + NotBad(es[1..], now)
  }

  lemma {:induction false} NotBadHasNoBad(es: seq<Entry>, now: int)
    ensures forall e :: e in NotBad(es, now) ==> !IsBad(e, now)
  {
    if es != [] { NotBadHasNoBad(es[1..], now); }
  }

  lemma {:induction false} NotBadAppend(a: seq<Entry>, b: seq<Entry>, now: int)
    ensures NotBad(a + b, now) == NotBad(a, now) + NotBad(b, now)
  {
    hide IsBad;
    if a == [] {
      assert a + b == b;
    } else {
      NotBadAppend(a[1..], b, now);
      assert (a + b)[0] == a[0] && (a + b)[1..] == a[1..] + b;
      var head := if IsBad(a[0], now) then [] else [a[0]];
      assert (head + NotBad(a[1..], now)) + NotBad(b, now) == head + (NotBad(a[1..], now) + NotBad(b, now));
    }
  }

  lemma {:induction false} NotBadAll(es: seq<Entry>, now: int)
    requires forall i :: 0 <= i < |es| ==> !IsBad(es[i], now)
    ensures NotBad(es, now) == es
  {
    if es != [] { NotBadAll(es[1..], now); }
  }

  lemma {:induction false} BadIndexesComplete(es: seq<Entry>, now: int, i: nat, j: nat)
    requires i <= j < |es| && IsBad(es[j], now)
    ensures j in BadIndexes(es, now, i)
    decreases |es| - i
  {
    if i < j { BadIndexesComplete(es, now, i + 1, j); }
  }

  ghost predicate Ascends(r: seq<nat>)
  {
    forall a, b :: 0 <= a < b < |r| ==> r[a] < r[b]
  }

  lemma AscendsCons(i: nat, r: seq<nat>)
    requires Ascends(r) && forall k :: 0 <= k < |r| ==> i < r[k]
    ensures Ascends([i] + r)
  {
  }

  lemma {:induction false} BadIndexesAscend(es: seq<Entry>, now: int, i: nat)
    requires i <= |es|
    ensures Ascends(BadIndexes(es, now, i))
    decreases |es| - i
  {
    hide IsBad, Ascends;
    if i < |es| {
      BadIndexesAscend(es, now, i + 1);
      AscendsCons(i, BadIndexes(es, now, i + 1));
    } else {
      AscendsNone();
    }
  }

  lemma AscendsNone()
    ensures Ascends([])
  {
  }

  /** Deletions behind a position leave what stands there. */
  lemma {:induction false} DeletesBehind(es: seq<Entry>, indexes: seq<nat>, p: nat)
    requires p < |es| && forall k :: 0 <= k < |indexes| ==> p < indexes[k]
    ensures es[p] in DeleteAll(es, indexes).nodes
    decreases |indexes|
  {
    if indexes == [] {
    } else if indexes[0] < |es| {
      var shorter := es[..indexes[0]] + es[indexes[0] + 1..];
      assert shorter[p] == es[p];
      DeletesBehind(shorter, indexes[1..], p);
    }
  }

  /**
    A sweep keeps exactly the nodes that are not bad if and only if there is none, or just one in a
    bucket that has not changed for 15 minutes: with two or more, the second always survives.
   */
  lemma {:induction false} SweepExactly(b: Bucket, now: int)
    ensures var bad := |BadIndexes(b.nodes, now, 0)|;
            Check(b, now) == Swept(NotBad(b.nodes, now), false) <==>
              bad == 0 || (bad == 1 && now - b.lastChanged >= 15)
  {
    hide IsBad, BadIndexes, NotBad;
    var es, bad := b.nodes, BadIndexes(b.nodes, now, 0);
    if Skipped(b, now) && |bad| > 0 {
      NotBadHasNoBad(es, now);
      assert es[bad[0]] in Check(b, now).nodes;
    } else if |bad| == 0 {
      assert DeleteAll(es, []) == Swept(es, false);
      forall i | 0 <= i < |es| ensures !IsBad(es[i], now) {
        if IsBad(es[i], now) { BadIndexesComplete(es, now, 0, i); }
      }
      NotBadAll(es, now);
    } else if |bad| == 1 {
      OneBad(es, now, bad[0]);
      var shorter := es[..bad[0]] + es[bad[0] + 1..];
      assert bad[1..] == [] && DeleteAll(shorter, []) == Swept(shorter, false);
    } else {
      BadIndexesAscend(es, now, 0);
      var shorter := es[..bad[0]] + es[bad[0] + 1..];
      assert shorter[bad[1] - 1] == es[bad[1]];
      DeletesBehind(shorter, bad[1..], bad[1] - 1);
      NotBadHasNoBad(es, now);
      assert es[bad[1]] in Check(b, now).nodes;
    }
  }

  lemma OneBad(es: seq<Entry>, now: int, i: nat)
    requires i < |es| && BadIndexes(es, now, 0) == [i]
    ensures NotBad(es, now) == es[..i] + es[i + 1..]
  {
    hide IsBad, BadIndexes, NotBad;
    forall j | 0 <= j < |es| && j != i ensures !IsBad(es[j], now) {
      if IsBad(es[j], now) { BadIndexesComplete(es, now, 0, j); }
    }
    assert IsBad(es[BadIndexes(es, now, 0)[0]], now);
    NotBadAll(es[..i], now);
    NotBadAll(es[i + 1..], now);
    NotBadNone(es[i], now);
    assert es == es[..i] + ([es[i]] + es[i + 1..]);
    NotBadAppend(es[..i], [es[i]] + es[i + 1..], now);
    NotBadAppend([es[i]], es[i + 1..], now);
  }

  lemma NotBadNone(e: Entry, now: int)
    requires IsBad(e, now)
    ensures NotBad([e], now) == []
  {
    assert [e][1..] == [];
  }

  /** A node is swept by index exactly if it has not been heard of for more than 20 minutes. */
  lemma {:induction false} BadExactly(es: seq<Entry>, now: int, i: nat)
    requires i < |es|
    ensures i in BadIndexes(es, now, 0) <==> now - es[i].lastChanged > 20
  {
    hide BadIndexes;
    if now - es[i].lastChanged > 20 {
      assert IsBad(es[i], now);
      BadIndexesComplete(es, now, 0, i);
    }
  }

  // ---------- What adding does to times ----------

  /** Entries of one ID are one object, as every run keeps it. */
  ghost predicate OneObject(es: seq<Entry>)
  {
    forall a, b :: 0 <= a < b < |es| && es[a].node.id == es[b].node.id ==> es[a] == es[b]
  }

  /** A known node at its own address is heard of now, and so is its bucket; nothing else changes. */
  lemma KnownIsRefreshed(b: Bucket, k: int, n: Node, now: int, i: nat)
    requires OneObject(b.nodes) && i < |b.nodes| && b.nodes[i].node == n
    ensures var r := Add(b, k, n, now);
            && r.1 == NodeExistAndUpdated && r.0.lastChanged == now && |r.0.nodes| == |b.nodes|
            && forall j :: 0 <= j < |b.nodes| ==>
                 r.0.nodes[j] == if b.nodes[j].node.id == n.id then Entry(n, now) else b.nodes[j]
  {
    hide FindId, FindBad, IsBad;
    var f := FindId(b.nodes, n.id);
    assert f <= i;
    assert f < i ==> b.nodes[f] == b.nodes[i];
    forall j | 0 <= j < |b.nodes| && b.nodes[j].node.id == n.id ensures b.nodes[j] == b.nodes[i] {
      assert j < i ==> b.nodes[j] == b.nodes[i];
      assert i < j ==> b.nodes[i] == b.nodes[j];
    }
  }

  /** A known ID at another address changes nothing. */
  lemma ElsewhereIsIgnored(b: Bucket, k: int, n: Node, now: int, i: nat)
    requires OneObject(b.nodes) && i < |b.nodes| && b.nodes[i].node.id == n.id && b.nodes[i].node.addr != n.addr
    ensures Add(b, k, n, now) == (b, NodeExistAndChanged)
  {
    hide FindBad, IsBad;
    var f := FindId(b.nodes, n.id);
    assert f <= i;
    assert f < i ==> b.nodes[f] == b.nodes[i];
  }

  /** A new node is added with the time of now if there is room, or a node not heard of for 20 minutes; else refused. */
  lemma NewIsAdded(b: Bucket, k: int, n: Node, now: int)
    requires forall i :: 0 <= i < |b.nodes| ==> b.nodes[i].node.id != n.id
    ensures var r := Add(b, k, n, now);
            if |b.nodes| < k || exists i :: 0 <= i < |b.nodes| && now - b.nodes[i].lastChanged > 20
            then && r.1 == NodeAdded && r.0.lastChanged == now
                 && r.0.nodes != [] && r.0.nodes[|r.0.nodes| - 1] == Entry(n, now)
                 && (|b.nodes| < k ==> r.0.nodes == b.nodes + [Entry(n, now)])
            else r == (b, NodeNotAdded)
  {
    hide FindId, FindBad;
    var f, bad := FindId(b.nodes, n.id), FindBad(b.nodes, now);
    assert f == |b.nodes|;
    if i :| 0 <= i < |b.nodes| && now - b.nodes[i].lastChanged > 20 {
      assert IsBad(b.nodes[i], now);
    }
  }

  // ---------- The table ----------

  /** Every node of bucket j belongs there, and entries of one ID are one object. */
  ghost predicate PlacedBucket(root: Hash, es: seq<Entry>, j: nat)
  {
    && (forall i :: 0 <= i < |es| ==> BucketId(root, es[i].node.id) == j)
    && (forall a, b :: 0 <= a < b < |es| && es[a].node.id == es[b].node.id ==> es[a] == es[b])
  }

  ghost predicate Placed(root: Hash, bkts: seq<Bucket>)
  {
    |bkts| == BUCKETS && forall j :: 0 <= j < BUCKETS ==> PlacedBucket(root, bkts[j].nodes, j)
  }

  lemma AddKeepsPlacement(root: Hash, b: Bucket, k: int, n: Node, now: int)
    requires PlacedBucket(root, b.nodes, BucketId(root, n.id))
    ensures PlacedBucket(root, Add(b, k, n, now).0.nodes, BucketId(root, n.id))
  {
    hide BucketId, FindId, FindBad, Touch, IsBad;
  }

  lemma {:induction false} DeleteAllKeepsPlacement(root: Hash, es: seq<Entry>, indexes: seq<nat>, j: nat)
    requires PlacedBucket(root, es, j)
    ensures PlacedBucket(root, DeleteAll(es, indexes).nodes, j)
    decreases |indexes|
  {
    hide BucketId;
    if indexes != [] && indexes[0] < |es| {
      DeleteAllKeepsPlacement(root, es[..indexes[0]] + es[indexes[0] + 1..], indexes[1..], j);
    }
  }

  /** The sweep of all buckets; a panic in one is recovered, and ends the sweep there. */
  function SweepFrom(bkts: seq<Bucket>, now: int, i: nat): (r: seq<Bucket>)
    requires i <= |bkts|
    ensures |r| == |bkts|
    decreases |bkts| - i
  {
    if i == |bkts| then bkts
    else
      var s := Check(bkts[i], now);
      var next := bkts[i := bkts[i].(nodes := s.nodes)];
      if s.panicked then next else SweepFrom(next, now, i + 1)
  }

  lemma {:induction false} SweepKeepsPlacement(root: Hash, bkts: seq<Bucket>, now: int, i: nat)
    requires Placed(root, bkts) && i <= |bkts|
    ensures Placed(root, SweepFrom(bkts, now, i))
    decreases |bkts| - i
  {
    hide PlacedBucket, DeleteAll;
    if i < |bkts| {
      var s := Check(bkts[i], now);
      DeleteAllKeepsPlacement(root, bkts[i].nodes, BadIndexes(bkts[i].nodes, now, 0), i);
      var next := bkts[i := bkts[i].(nodes := s.nodes)];
      if !s.panicked { SweepKeepsPlacement(root, next, now, i + 1); }
    }
  }

  class Table {
    const root: Hash
    const k: int
    var bkts: seq<Bucket>

    ghost predicate Valid() reads this { Placed(root, bkts) }

    /** Loading keeps the stored nodes that are not yet dubious, the root's own ID included. */
    constructor (root: Hash, k: int, stored: seq<Entry>, now: int)
      ensures this.root == root && this.k == k
      ensures bkts == Load(root, k, EmptyTable(), stored, now)
      ensures Valid()
    {
      this.root, this.k := root, k;
      this.bkts := EmptyTable();
      new;
      EmptyPlaced(root);
      ghost var wanted := Load(root, k, bkts, stored, now);
      hide Load, Placed;
      assert stored[0..] == stored;
      for i := 0 to |stored|
        invariant Placed(root, bkts)
        invariant wanted == Load(root, k, bkts, stored[i..], now)
      {
        LoadNext(root, k, bkts, stored, i, now);
        if now - stored[i].lastChanged < DUBIOUS {
          var _ := AddAt(stored[i].node, stored[i].lastChanged);
        }
      }
      LoadNone(root, k, bkts, stored[|stored|..], now);
    }

    method AddAt(n: Node, now: int) returns (r: AddStatus)
      requires Valid()
      modifies `bkts
      ensures Valid()
      ensures (bkts, r) == AddTo(root, k, old(bkts), n, now)
    {
      hide Placed, BucketId, Add;
      AddToKeepsPlacement(root, k, bkts, n, now);
      PlacedLength(root, bkts);
      var j := Bucketid(root, n.id);
      var b, status := AddToBucket(bkts[j], k, n, now);
      bkts := bkts[j := b];
      r := status;
    }

    method AddNode(n: Node, now: int) returns (r: AddStatus)
      requires Valid()
      modifies `bkts
      ensures Valid()
      ensures n.id == root ==> r == NodeNotAdded && bkts == old(bkts)
      ensures n.id != root ==> (bkts, r) == AddTo(root, k, old(bkts), n, now)
    {
      if n.id == root { return NodeNotAdded; }
      r := AddAt(n, now);
    }

    method CheckAllBuckets(now: int)
      requires Valid()
      modifies `bkts
      ensures Valid() && bkts == SweepFrom(old(bkts), now, 0)
    {
      hide Placed, Check;
      SweepKeepsPlacement(root, bkts, now, 0);
      ghost var wanted := SweepFrom(bkts, now, 0);
      var i := 0;
      while i < |bkts|
        invariant i <= |bkts| && wanted == SweepFrom(bkts, now, i)
        decreases |bkts| - i
      {
        var s := CheckAllNodes(bkts[i], now);
        bkts := bkts[i := bkts[i].(nodes := s.nodes)];
        if s.panicked { return; }
        i := i + 1;
      }
    }
  }

  function EmptyTable(): (bkts: seq<Bucket>)
    ensures |bkts| == BUCKETS
  {
    seq(BUCKETS, _ => Bucket([], 0))
  }

  lemma EmptyPlaced(root: Hash)
    ensures Placed(root, EmptyTable())
  {
  }

  lemma PlacedLength(root: Hash, bkts: seq<Bucket>)
    requires Placed(root, bkts)
    ensures |bkts| == BUCKETS
  {
  }

  function AddTo(root: Hash, k: int, bkts: seq<Bucket>, n: Node, now: int): (seq<Bucket>, AddStatus)
  {
    var j := BucketId(root, n.id);
    if j < |bkts| then var r := Add(bkts[j], k, n, now); (bkts[j := r.0], r.1) else (bkts, NodeNotAdded)
  }

  lemma AddToKeepsPlacement(root: Hash, k: int, bkts: seq<Bucket>, n: Node, now: int)
    requires Placed(root, bkts)
    ensures Placed(root, AddTo(root, k, bkts, n, now).0)
  {
    hide BucketId, Add, PlacedBucket;
    AddKeepsPlacement(root, bkts[BucketId(root, n.id)], k, n, now);
  }

  function Load(root: Hash, k: int, bkts: seq<Bucket>, stored: seq<Entry>, now: int): seq<Bucket>
    decreases |stored|
  {
    if stored == [] then bkts
    else
      var e := stored[0];
      Load(root, k, if now - e.lastChanged < DUBIOUS then AddTo(root, k, bkts, e.node, e.lastChanged).0 else bkts,
           stored[1..], now)
  }

  lemma LoadNext(root: Hash, k: int, bkts: seq<Bucket>, stored: seq<Entry>, i: nat, now: int)
    requires i < |stored|
    ensures var e := stored[i];
            Load(root, k, bkts, stored[i..], now)
            == Load(root, k, if now - e.lastChanged < DUBIOUS then AddTo(root, k, bkts, e.node, e.lastChanged).0 else bkts,
                    stored[i + 1..], now)
  {
    hide AddTo;
    assert stored[i..][1..] == stored[i + 1..];
  }

  lemma LoadNone(root: Hash, k: int, bkts: seq<Bucket>, stored: seq<Entry>, now: int)
    requires stored == []
    ensures Load(root, k, bkts, stored, now) == bkts
  {
  }

  // ---------- Every run ----------

  datatype Op = AddOp(node: Node, now: int) | SweepOp(now: int)

  function Step(root: Hash, k: int, bkts: seq<Bucket>, op: Op): seq<Bucket>
  {
    match op
    case AddOp(n, now) => if n.id == root then bkts else AddTo(root, k, bkts, n, now).0
    case SweepOp(now) => SweepFrom(bkts, now, 0)
  }

  function Run(root: Hash, k: int, bkts: seq<Bucket>, ops: seq<Op>): seq<Bucket>
    decreases |ops|
  {
    if ops == [] then bkts else Run(root, k, Step(root, k, bkts, ops[0]), ops[1..])
  }

  lemma {:induction false} LoadKeepsPlacement(root: Hash, k: int, bkts: seq<Bucket>, stored: seq<Entry>, now: int)
    requires Placed(root, bkts)
    ensures Placed(root, Load(root, k, bkts, stored, now))
    decreases |stored|
  {
    hide Placed, AddTo;
    if stored != [] {
      var e := stored[0];
      if now - e.lastChanged < DUBIOUS { AddToKeepsPlacement(root, k, bkts, e.node, e.lastChanged); }
      LoadKeepsPlacement(root, k, if now - e.lastChanged < DUBIOUS then AddTo(root, k, bkts, e.node, e.lastChanged).0 else bkts,
                         stored[1..], now);
    }
  }

  lemma {:induction false} RunKeepsPlacement(root: Hash, k: int, bkts: seq<Bucket>, ops: seq<Op>)
    requires Placed(root, bkts)
    ensures Placed(root, Run(root, k, bkts, ops))
    decreases |ops|
  {
    hide Placed, AddTo, SweepFrom;
    if ops != [] {
      match ops[0] {
        case AddOp(n, now) => AddToKeepsPlacement(root, k, bkts, n, now);
        case SweepOp(now) => SweepKeepsPlacement(root, bkts, now, 0);
      }
      RunKeepsPlacement(root, k, Step(root, k, bkts, ops[0]), ops[1..]);
    }
  }

  /**
    After any loading and any sequence of adds and sweeps, a node in a later bucket is
    strictly closer to the root than one in an earlier bucket.
   */
  lemma BucketsOrderEveryRun(root: Hash, k: int, stored: seq<Entry>, now: int, ops: seq<Op>,
                             i: nat, a: nat, j: nat, b: nat)
    requires var bkts := Run(root, k, Load(root, k, EmptyTable(), stored, now), ops);
             i < j < |bkts| && a < |bkts[i].nodes| && b < |bkts[j].nodes|
    ensures var bkts := Run(root, k, Load(root, k, EmptyTable(), stored, now), ops);
            Dist(root, bkts[j].nodes[b].node.id, bkts[i].nodes[a].node.id) < 0
  {
    hide Dist, BucketId, Run, Load;
    EmptyPlaced(root);
    LoadKeepsPlacement(root, k, EmptyTable(), stored, now);
    RunKeepsPlacement(root, k, Load(root, k, EmptyTable(), stored, now), ops);
    var bkts := Run(root, k, Load(root, k, EmptyTable(), stored, now), ops);
    assert PlacedBucket(root, bkts[i].nodes, i) && PlacedBucket(root, bkts[j].nodes, j);
    BucketOrdersDistance(root, bkts[j].nodes[b].node.id, bkts[i].nodes[a].node.id);
  }

  // ---------- Times over every run ----------

  /** Whoever has this ID in the bucket was heard of at t, or (`later`) at t or after. */
  ghost predicate Heard(es: seq<Entry>, id: Hash, t: int, later: bool)
  {
    forall i :: 0 <= i < |es| && es[i].node.id == id ==> if later then es[i].lastChanged >= t else es[i].lastChanged == t
  }

  ghost predicate HeardInAll(bkts: seq<Bucket>, id: Hash, t: int, later: bool)
  {
    forall j :: 0 <= j < |bkts| ==> Heard(bkts[j].nodes, id, t, later)
  }

  /** Other nodes, and later word from this one, leave it so. */
  lemma AddKeepsHeard(b: Bucket, k: int, n: Node, now: int, id: Hash, t: int, later: bool)
    requires Heard(b.nodes, id, t, later) && (n.id == id ==> later && now >= t)
    ensures Heard(Add(b, k, n, now).0.nodes, id, t, later)
  {
    hide FindId, FindBad, IsBad;
  }

  lemma {:induction false} DeletesKeepHeard(es: seq<Entry>, indexes: seq<nat>, id: Hash, t: int, later: bool)
    requires Heard(es, id, t, later)
    ensures Heard(DeleteAll(es, indexes).nodes, id, t, later)
    decreases |indexes|
  {
    if indexes != [] && indexes[0] < |es| {
      DeletesKeepHeard(es[..indexes[0]] + es[indexes[0] + 1..], indexes[1..], id, t, later);
    }
  }

  lemma {:induction false} SweepKeepsHeard(bkts: seq<Bucket>, now: int, i: nat, id: Hash, t: int, later: bool)
    requires HeardInAll(bkts, id, t, later) && i <= |bkts|
    ensures HeardInAll(SweepFrom(bkts, now, i), id, t, later)
    decreases |bkts| - i
  {
    hide Heard, DeleteAll;
    if i < |bkts| {
      var s := Check(bkts[i], now);
      DeletesKeepHeard(bkts[i].nodes, BadIndexes(bkts[i].nodes, now, 0), id, t, later);
      var next := bkts[i := bkts[i].(nodes := s.nodes)];
      if !s.panicked { SweepKeepsHeard(next, now, i + 1, id, t, later); }
    }
  }

  /** The operations hear of this ID not before t (`later`), or not at all. */
  predicate Hears(ops: seq<Op>, id: Hash, t: int, later: bool)
  {
    forall i :: 0 <= i < |ops| && ops[i].AddOp? && ops[i].node.id == id ==> later && ops[i].now >= t
  }

  lemma StepKeepsHeard(root: Hash, k: int, bkts: seq<Bucket>, op: Op, id: Hash, t: int, later: bool)
    requires HeardInAll(bkts, id, t, later) && Hears([op], id, t, later)
    ensures HeardInAll(Step(root, k, bkts, op), id, t, later)
  {
    hide Heard, SweepFrom, Add, BucketId;
    assert [op][0] == op;
    match op {
      case AddOp(n, now) => {
        var j := BucketId(root, n.id);
        if j < |bkts| { AddKeepsHeard(bkts[j], k, n, now, id, t, later); }
      }
      case SweepOp(now) => { SweepKeepsHeard(bkts, now, 0, id, t, later); }
    }
  }

  lemma {:induction false} RunKeepsHeard(root: Hash, k: int, bkts: seq<Bucket>, ops: seq<Op>, id: Hash, t: int, later: bool)
    requires HeardInAll(bkts, id, t, later) && Hears(ops, id, t, later)
    ensures HeardInAll(Run(root, k, bkts, ops), id, t, later)
    decreases |ops|
  {
    hide HeardInAll, Step;
    if ops != [] {
      StepKeepsHeard(root, k, bkts, ops[0], id, t, later);
      RunKeepsHeard(root, k, Step(root, k, bkts, ops[0]), ops[1..], id, t, later);
    }
  }

  /** After a node was added or refreshed, all its entries, in all buckets, have that time. */
  lemma AddedIsHeard(root: Hash, k: int, bkts: seq<Bucket>, n: Node, t: int)
    requires Placed(root, bkts) && n.id != root
    requires AddTo(root, k, bkts, n, t).1 in {NodeAdded, NodeExistAndUpdated}
    ensures HeardInAll(Step(root, k, bkts, AddOp(n, t)), n.id, t, false)
  {
    hide FindId, FindBad, IsBad, BucketId;
    var b := BucketId(root, n.id);
    var next := AddTo(root, k, bkts, n, t).0;
    forall j | 0 <= j < |next| ensures Heard(next[j].nodes, n.id, t, false) {
      assert PlacedBucket(root, bkts[j].nodes, j);
      if j == b { AddHears(bkts[b], k, n, t); }
    }
  }

  lemma AddHears(b: Bucket, k: int, n: Node, t: int)
    requires Add(b, k, n, t).1 in {NodeAdded, NodeExistAndUpdated}
    ensures Heard(Add(b, k, n, t).0.nodes, n.id, t, false)
  {
    hide FindBad, IsBad;
  }

  /**
    A node that was added or refreshed at time t is on no list of bad nodes up to t + 20 minutes,
    whatever is added and swept in between; and if nothing is heard of it after t, then its entries
    are on the list of every sweep after that.
   */
  lemma BadAfterTwentyMinutes(root: Hash, k: int, bkts: seq<Bucket>, n: Node, t: int, ops: seq<Op>,
                              now: int, j: nat, i: nat)
    requires Placed(root, bkts) && n.id != root
    requires AddTo(root, k, bkts, n, t).1 in {NodeAdded, NodeExistAndUpdated}
    requires Hears(ops, n.id, t, true)
    requires var after := Run(root, k, Step(root, k, bkts, AddOp(n, t)), ops);
             j < |after| && i < |after[j].nodes| && after[j].nodes[i].node.id == n.id
    ensures var es := Run(root, k, Step(root, k, bkts, AddOp(n, t)), ops)[j].nodes;
            && (now <= t + 20 ==> i !in BadIndexes(es, now, 0))
            && (Hears(ops, n.id, t, false) ==> (i in BadIndexes(es, now, 0) <==> now > t + 20))
  {
    hide Run, Step, BadIndexes, AddTo, Placed, IsBad;
    AddedIsHeard(root, k, bkts, n, t);
    var s := Step(root, k, bkts, AddOp(n, t));
    assert HeardInAll(s, n.id, t, true) by { HeardIsLater(s, n.id, t); }
    RunKeepsHeard(root, k, s, ops, n.id, t, true);
    var es := Run(root, k, s, ops)[j].nodes;
    assert Heard(es, n.id, t, true);
    BadExactly(es, now, i);
    if Hears(ops, n.id, t, false) {
      RunKeepsHeard(root, k, s, ops, n.id, t, false);
      assert Heard(es, n.id, t, false);
    }
  }

  lemma HeardIsLater(bkts: seq<Bucket>, id: Hash, t: int)
    requires HeardInAll(bkts, id, t, false)
    ensures HeardInAll(bkts, id, t, true)
  {
    forall j | 0 <= j < |bkts| ensures Heard(bkts[j].nodes, id, t, true) {
      assert Heard(bkts[j].nodes, id, t, false);
    }
  }

  // ---------- The root, and the order of a sweep ----------

  ghost predicate Lacks(es: seq<Entry>, id: Hash)
  {
    forall i :: 0 <= i < |es| ==> es[i].node.id != id
  }

  ghost predicate Without(bkts: seq<Bucket>, id: Hash)
  {
    forall j :: 0 <= j < |bkts| ==> Lacks(bkts[j].nodes, id)
  }

  lemma AddKeepsWithout(b: Bucket, k: int, n: Node, now: int, id: Hash)
    requires n.id != id && Lacks(b.nodes, id)
    ensures Lacks(Add(b, k, n, now).0.nodes, id)
  {
    hide FindId, FindBad, IsBad;
  }

  lemma {:induction false} DeletesKeepWithout(es: seq<Entry>, indexes: seq<nat>, id: Hash)
    requires Lacks(es, id)
    ensures Lacks(DeleteAll(es, indexes).nodes, id)
    decreases |indexes|
  {
    if indexes != [] && indexes[0] < |es| {
      DeletesKeepWithout(es[..indexes[0]] + es[indexes[0] + 1..], indexes[1..], id);
    }
  }

  lemma {:induction false} SweepKeepsWithout(bkts: seq<Bucket>, now: int, i: nat, id: Hash)
    requires Without(bkts, id) && i <= |bkts|
    ensures Without(SweepFrom(bkts, now, i), id)
    decreases |bkts| - i
  {
    hide DeleteAll, Lacks;
    if i < |bkts| {
      var s := Check(bkts[i], now);
      DeletesKeepWithout(bkts[i].nodes, BadIndexes(bkts[i].nodes, now, 0), id);
      var next := bkts[i := bkts[i].(nodes := s.nodes)];
      if !s.panicked { SweepKeepsWithout(next, now, i + 1, id); }
    }
  }

  /** However often it is offered, the root's own ID never enters a table without it. */
  lemma {:induction false} RootStaysOut(root: Hash, k: int, bkts: seq<Bucket>, ops: seq<Op>)
    requires Without(bkts, root)
    ensures Without(Run(root, k, bkts, ops), root)
    decreases |ops|
  {
    hide SweepFrom, Add, BucketId, Without;
    if ops != [] {
      match ops[0] {
        case AddOp(n, now) => { if n.id != root { AddToKeepsWithout(root, k, bkts, n, now, root); } }
        case SweepOp(now) => { SweepKeepsWithout(bkts, now, 0, root); }
      }
      RootStaysOut(root, k, Step(root, k, bkts, ops[0]), ops[1..]);
    }
  }

  lemma AddToKeepsWithout(root: Hash, k: int, bkts: seq<Bucket>, n: Node, now: int, id: Hash)
    requires Without(bkts, id) && n.id != id
    ensures Without(AddTo(root, k, bkts, n, now).0, id)
  {
    hide BucketId, Add, Lacks;
    var j := BucketId(root, n.id);
    if j < |bkts| { AddKeepsWithout(bkts[j], k, n, now, id); }
  }

  /** A sweep treats each bucket once, in order, and stops behind the first that panics. */
  lemma {:induction false} SweepsEach(bkts: seq<Bucket>, now: int, i: nat, j: nat)
    requires i <= |bkts| && j < |bkts|
    ensures var r := SweepFrom(bkts, now, i);
            if i <= j && forall b :: i <= b < j ==> !Check(bkts[b], now).panicked
            then r[j] == bkts[j].(nodes := Check(bkts[j], now).nodes)
            else r[j] == bkts[j]
    decreases |bkts| - i
  {
    hide Check;
    if i < |bkts| {
      var s := Check(bkts[i], now);
      var next := bkts[i := bkts[i].(nodes := s.nodes)];
      if !s.panicked {
        SweepsEach(next, now, i + 1, j);
        assert forall b :: i < b < |bkts| ==> next[b] == bkts[b];
      }
    }
  }

  // ---------- Loading ----------

  /** Every entry was stored and is younger than 15 minutes. */
  ghost predicate FromStore(es: seq<Entry>, stored: seq<Entry>, now: int)
  {
    forall i :: 0 <= i < |es| ==> es[i] in stored && now - es[i].lastChanged < 15
  }

  ghost predicate AllFromStore(bkts: seq<Bucket>, stored: seq<Entry>, now: int)
  {
    forall j :: 0 <= j < |bkts| ==> FromStore(bkts[j].nodes, stored, now)
  }

  lemma AddKeepsStored(b: Bucket, k: int, e: Entry, stored: seq<Entry>, now: int)
    requires OneObject(b.nodes) && FromStore(b.nodes, stored, now) && e in stored && now - e.lastChanged < 15
    ensures FromStore(Add(b, k, e.node, e.lastChanged).0.nodes, stored, now)
  {
    hide FindBad, IsBad;
    var f := FindId(b.nodes, e.node.id);
    if f < |b.nodes| && b.nodes[f].node == e.node {
      KnownIsRefreshed(b, k, e.node, e.lastChanged, f);
      assert Entry(e.node, e.lastChanged) == e;
    }
  }

  lemma PlacedIsOneObject(root: Hash, bkts: seq<Bucket>, j: nat)
    requires Placed(root, bkts) && j < |bkts|
    ensures OneObject(bkts[j].nodes)
  {
    assert PlacedBucket(root, bkts[j].nodes, j);
  }

  lemma {:induction false} LoadKeepsStored(root: Hash, k: int, bkts: seq<Bucket>, all: seq<Entry>, stored: seq<Entry>, now: int)
    requires Placed(root, bkts) && AllFromStore(bkts, all, now) && forall e :: e in stored ==> e in all
    ensures AllFromStore(Load(root, k, bkts, stored, now), all, now)
    decreases |stored|
  {
    hide FromStore, Placed, Add, BucketId;
    if stored != [] {
      var e := stored[0];
      assert e in stored && forall x :: x in stored[1..] ==> x in stored;
      var next := bkts;
      if now - e.lastChanged < DUBIOUS {
        next := AddTo(root, k, bkts, e.node, e.lastChanged).0;
        var j := BucketId(root, e.node.id);
        PlacedLength(root, bkts);
        PlacedIsOneObject(root, bkts, j);
        AddKeepsStored(bkts[j], k, e, all, now);
        AddToKeepsPlacement(root, k, bkts, e.node, e.lastChanged);
      }
      LoadKeepsStored(root, k, next, all, stored[1..], now);
    }
  }

  /** A loaded table holds only stored nodes heard of less than 15 minutes ago, each with its stored time. */
  lemma LoadedAreFresh(root: Hash, k: int, stored: seq<Entry>, now: int)
    ensures AllFromStore(Load(root, k, EmptyTable(), stored, now), stored, now)
  {
    hide Load, Placed;
    EmptyPlaced(root);
    LoadKeepsStored(root, k, EmptyTable(), stored, stored, now);
  }

  /** And a stored node that young is loaded. */
  lemma FreshIsLoaded(root: Hash, k: int, e: Entry, now: int)
    requires k > 0
    ensures Load(root, k, EmptyTable(), [e], now)
            == if now - e.lastChanged < 15 then EmptyTable()[BucketId(root, e.node.id) := Bucket([e], e.lastChanged)]
               else EmptyTable()
  {
    hide BucketId, EmptyTable;
    var j := BucketId(root, e.node.id);
    assert EmptyTable()[j] == Bucket([], 0) by { EmptyAt(j); }
    assert [] + [Entry(e.node, e.lastChanged)] == [e];
    assert Add(Bucket([], 0), k, e.node, e.lastChanged).0 == Bucket([e], e.lastChanged);
    assert [e][1..] == [];
    LoadNone(root, k, AddTo(root, k, EmptyTable(), e.node, e.lastChanged).0, [e][1..], now);
    LoadNone(root, k, EmptyTable(), [e][1..], now);
  }

  lemma EmptyAt(j: nat)
    requires j < BUCKETS
    ensures EmptyTable()[j] == Bucket([], 0)
  {
  }
}
