/** The recursive get_peers search of the DHT server: it ends, and sends boundedly many queries. */
module PeerSearch {
  import opened XorMetric
  import opened Closest
  import opened Numbers

  /** A pending get_peers query; `generation` counts the queries before it in its chain. */
  datatype Query = Query(depth: int, generation: nat)

  datatype Response = Response(hasPeers: bool, nodes: seq<Node>, nodes6: seq<Node>)

  // ---------- Handling a response ----------

  /** What the loop over the returned nodes accumulates. */
  datatype Harvest = Harvest(found: bool, ids: seq<Hash>, unseen: seq<Node>)

  /** `added[i]` tells whether the routing table takes node i when it is offered. */
  function Collect(infohash: Hash, nodes: seq<Node>, added: seq<bool>, h: Harvest): (r: Harvest)
    requires |added| == |nodes|
    ensures |r.unseen| <= |h.unseen| + |nodes|
    decreases |nodes|
  {
    if nodes == [] then h
    else
      var found := h.found || nodes[0].id == infohash;
      Collect(infohash, nodes[1..], added[1..],
              if nodes[0].id !in h.ids && added[0] then Harvest(found, h.ids + [nodes[0].id], h.unseen + [nodes[0]])
              else h.(found := found))
  }

  /** The queries that a response leads to. */
  function Children(infohash: Hash, q: Query, visited: seq<Hash>, m: Response, added: seq<bool>): (r: seq<Query>)
    requires |added| == |m.nodes| + |m.nodes6|
    ensures |r| <= |m.nodes| + |m.nodes6|
    ensures r != [] ==> q.depth >= 2
    ensures forall i :: 0 <= i < |r| ==> r[i].depth == q.depth - 1 && r[i].generation == q.generation + 1
  {
    if m.hasPeers || q.depth - 1 < 1 then []
    else
      var h := Collect(infohash, m.nodes, added[..|m.nodes|], Harvest(false, visited, []));
      var h6 := Collect(infohash, m.nodes6, added[|m.nodes|..], h);
      if h6.found then []
      else seq(|h6.unseen|, _ => Query(q.depth - 1, q.generation + 1))
  }

  method OnGetPeersResp(infohash: Hash, q: Query, visited: seq<Hash>, m: Response, added: seq<bool>)
    returns (r: seq<Query>)
    requires |added| == |m.nodes| + |m.nodes6|
    ensures r == Children(infohash, q, visited, m, added)
  {
    if m.hasPeers { return []; }
    var depth := q.depth - 1;
    if depth < 1 { return []; }
    var h := CollectNodes(infohash, m.nodes, added[..|m.nodes|], Harvest(false, visited, []));
    h := CollectNodes(infohash, m.nodes6, added[|m.nodes|..], h);
    if h.found || |h.unseen| == 0 { return []; }
    r := [];
    for i := 0 to |h.unseen|
      invariant r == seq(i, _ => Query(depth, q.generation + 1))
    {
      r := r + [Query(depth, q.generation + 1)];
    }
  }

  method CollectNodes(infohash: Hash, nodes: seq<Node>, added: seq<bool>, h0: Harvest) returns (h: Harvest)
    requires |added| == |nodes|
    ensures h == Collect(infohash, nodes, added, h0)
  {
    h := h0;
    assert nodes[0..] == nodes && added[0..] == added;
    for i := 0 to |nodes|
      invariant Collect(infohash, nodes, added, h0) == Collect(infohash, nodes[i..], added[i..], h)
    {
      assert nodes[i..][1..] == nodes[i + 1..] && added[i..][1..] == added[i + 1..];
      if nodes[i].id == infohash { h := h.(found := true); }
      if nodes[i].id in h.ids { continue; }
      if added[i] { h := Harvest(h.found, h.ids + [nodes[i].id], h.unseen + [nodes[i]]); }
    }
  }

  /** The children ask new nodes only: none seen before on this chain, none twice. */
  lemma {:induction false} CollectIsFresh(infohash: Hash, nodes: seq<Node>, added: seq<bool>, h: Harvest, seen: seq<Hash>)
    requires |added| == |nodes|
    requires h.ids == seen + Ids(h.unseen) && Distinct(Ids(h.unseen)) && Disjoint(seen, Ids(h.unseen))
    ensures var r := Collect(infohash, nodes, added, h);
            r.ids == seen + Ids(r.unseen) && Distinct(Ids(r.unseen)) && Disjoint(seen, Ids(r.unseen))
    decreases |nodes|
  {
    if nodes != [] {
      var found, n := h.found || nodes[0].id == infohash, nodes[0];
      if n.id !in h.ids && added[0] {
        assert Ids(h.unseen + [n]) == Ids(h.unseen) + [n.id];
        CollectIsFresh(infohash, nodes[1..], added[1..], Harvest(found, h.ids + [n.id], h.unseen + [n]), seen);
      } else {
        CollectIsFresh(infohash, nodes[1..], added[1..], h.(found := found), seen);
      }
    }
  }

  /** A returned node with this id that the routing table takes. */
  ghost predicate Offered(nodes: seq<Node>, added: seq<bool>, x: Hash)
    requires |added| == |nodes|
  {
    exists i :: 0 <= i < |nodes| && nodes[i].id == x && added[i]
  }

  lemma {:induction false} CollectTakes(infohash: Hash, nodes: seq<Node>, added: seq<bool>, h: Harvest, x: Hash)
    requires |added| == |nodes|
    ensures x in Ids(Collect(infohash, nodes, added, h).unseen)
            <==> x in Ids(h.unseen) || (x !in h.ids && Offered(nodes, added, x))
    ensures Collect(infohash, nodes, added, h).found <==> h.found || infohash in Ids(nodes)
    decreases |nodes|
  {
    if nodes != [] {
      var found, n := h.found || nodes[0].id == infohash, nodes[0];
      assert Ids(nodes) == [n.id] + Ids(nodes[1..]);
      assert Offered(nodes, added, x) <==> (n.id == x && added[0]) || Offered(nodes[1..], added[1..], x) by {
        OfferedStep(nodes, added, x);
      }
      if n.id !in h.ids && added[0] {
        assert Ids(h.unseen + [n]) == Ids(h.unseen) + [n.id];
        CollectTakes(infohash, nodes[1..], added[1..], Harvest(found, h.ids + [n.id], h.unseen + [n]), x);
      } else {
        CollectTakes(infohash, nodes[1..], added[1..], h.(found := found), x);
      }
    }
  }

  lemma OfferedStep(nodes: seq<Node>, added: seq<bool>, x: Hash)
    requires |added| == |nodes| > 0
    ensures Offered(nodes, added, x) <==> (nodes[0].id == x && added[0]) || Offered(nodes[1..], added[1..], x)
  {
    if Offered(nodes, added, x) {
      var i :| 0 <= i < |nodes| && nodes[i].id == x && added[i];
      assert i > 0 ==> nodes[1..][i - 1].id == x && added[1..][i - 1];
    }
    if Offered(nodes[1..], added[1..], x) {
      var i :| 0 <= i < |nodes[1..]| && nodes[1..][i].id == x && added[1..][i];
      assert nodes[i + 1].id == x && added[i + 1];
    }
  }

  /** The search stops with peers, at the last depth, or when the infohash itself is a returned node. */
  predicate Stops(infohash: Hash, q: Query, m: Response)
  {
    m.hasPeers || q.depth < 2 || infohash in Ids(m.nodes) || infohash in Ids(m.nodes6)
  }

  /**
    Unless the search stops, an answer leads to one query for each node that was not visited and
    that the routing table took, and to no other.
   */
  lemma AsksExactlyTheNew(infohash: Hash, q: Query, visited: seq<Hash>, m: Response, added: seq<bool>)
    returns (asked: seq<Hash>)
    requires |added| == |m.nodes| + |m.nodes6|
    ensures |Children(infohash, q, visited, m, added)| == |asked| && Distinct(asked)
    ensures forall x ::
              x in asked <==>
              && !Stops(infohash, q, m) && x !in visited
              && (Offered(m.nodes, added[..|m.nodes|], x) || Offered(m.nodes6, added[|m.nodes|..], x))
  {
    hide Collect, Offered, Ids;
    if m.hasPeers || q.depth < 2 { return []; }
    var h0 := Harvest(false, visited, []);
    var h := Collect(infohash, m.nodes, added[..|m.nodes|], h0);
    var h6 := Collect(infohash, m.nodes6, added[|m.nodes|..], h);
    assert Ids([]) == [] && visited + [] == visited;
    CollectIsFresh(infohash, m.nodes, added[..|m.nodes|], h0, visited);
    CollectIsFresh(infohash, m.nodes6, added[|m.nodes|..], h, visited);
    forall x ensures x in Ids(h6.unseen) <==>
        x !in visited && (Offered(m.nodes, added[..|m.nodes|], x) || Offered(m.nodes6, added[|m.nodes|..], x))
      ensures h6.found <==> infohash in Ids(m.nodes) || infohash in Ids(m.nodes6)
    {
      CollectTakes(infohash, m.nodes, added[..|m.nodes|], h0, x);
      CollectTakes(infohash, m.nodes6, added[|m.nodes|..], h, x);
    }
    CollectTakes(infohash, m.nodes, added[..|m.nodes|], h0, infohash);
    CollectTakes(infohash, m.nodes6, added[|m.nodes|..], h, infohash);
    asked := if h6.found then [] else Ids(h6.unseen);
    assert h6.found ==> Distinct([]);
  }

  function Ids(ns: seq<Node>): (r: seq<Hash>)
    ensures |r| == |ns|
  {
    seq(|ns|, i requires 0 <= i < |ns| => ns[i].id)
  }

  ghost predicate Distinct(s: seq<Hash>) { forall i, j :: 0 <= i < j < |s| ==> s[i] != s[j] }

  ghost predicate Disjoint(a: seq<Hash>, b: seq<Hash>) { forall x :: x in a ==> x !in b }

  // ---------- The search as a state machine ----------

  /** Pending queries, queries sent so far, and callbacks made so far. */
  datatype State = State(pending: seq<Query>, sent: nat, done: nat)

  /**
    An answer to pending query i, with what its visited list then holds (it may share storage
    with a sibling's, so it can hold anything) and the fate of every query it leads to (`wrote`:
    the request went out and was registered); or an error or a timeout of query i.
   */
  datatype Event =
    | Answer(i: nat, visited: seq<Hash>, m: Response, added: seq<bool>, wrote: seq<bool>)
    | Fail(i: nat)

  function Kept(qs: seq<Query>, wrote: seq<bool>): (r: seq<Query>)
    requires |wrote| == |qs|
    ensures |r| <= |qs| && forall q :: q in r ==> q in qs
    decreases |qs|
  {
    if qs == [] then []
    else (if wrote[0] then [qs[0]] else []) + Kept(qs[1..], wrote[1..])
  }

  predicate Enabled(infohash: Hash, s: State, e: Event, limit: nat)
  {
    && e.i < |s.pending|
    && (e.Answer? ==>
          && |e.added| == |e.m.nodes| + |e.m.nodes6| <= limit
          && |e.wrote| == |Children(infohash, s.pending[e.i], e.visited, e.m, e.added)|)
  }

  function Without(qs: seq<Query>, i: nat): seq<Query>
    requires i < |qs|
  {
    qs[..i] + qs[i + 1..]
  }

  function Step(infohash: Hash, s: State, e: Event, limit: nat): State
    requires Enabled(infohash, s, e, limit)
  {
    var rest := Without(s.pending, e.i);
    match e
    case Fail(i) => State(rest, s.sent, s.done + 1)
    case Answer(i, visited, m, added, wrote) =>
      var kept := Kept(Children(infohash, s.pending[i], visited, m, added), wrote);
      State(rest + kept, s.sent + |kept|, s.done + 1)
  }

  /** GetPeers: one query to each of the chosen nodes that could be reached; with none chosen, one callback at once. */
  function Start(depth: int, wrote: seq<bool>): State
  {
    var kept := Kept(seq(|wrote|, _ => Query(depth, 0)), wrote);
    State(kept, |kept|, if wrote == [] then 1 else 0)
  }

  // ---------- The measure ----------

  /** The most queries that can follow from one of the given depth, itself included. */
  function Weight(limit: nat, depth: int): (w: nat)
    ensures w >= 1
    decreases if depth < 0 then 0 else depth
  {
    if depth <= 1 then 1 else 1 + Times(limit, Weight(limit, depth - 1))
  }

  function Measure(limit: nat, qs: seq<Query>): (n: nat)
    ensures n >= |qs|
  {
    if qs == [] then 0 else Weight(limit, qs[0].depth) + Measure(limit, qs[1..])
  }

  lemma {:induction false} MeasureAppend(limit: nat, a: seq<Query>, b: seq<Query>)
    ensures Measure(limit, a + b) == Measure(limit, a) + Measure(limit, b)
  {
    hide Weight;
    if a == [] {
      assert a + b == b;
    } else {
      MeasureAppend(limit, a[1..], b);
      assert (a + b)[0] == a[0] && (a + b)[1..] == a[1..] + b;
    }
  }

  lemma MeasureWithout(limit: nat, qs: seq<Query>, i: nat)
    requires i < |qs|
    ensures Measure(limit, qs) == Measure(limit, Without(qs, i)) + Weight(limit, qs[i].depth)
  {
    hide Weight, Measure;
    assert qs == qs[..i] + ([qs[i]] + qs[i + 1..]);
    MeasureAppend(limit, qs[..i], [qs[i]] + qs[i + 1..]);
    MeasureAppend(limit, [qs[i]], qs[i + 1..]);
    MeasureAppend(limit, qs[..i], qs[i + 1..]);
    MeasureOne(limit, qs[i]);
  }

  lemma MeasureOne(limit: nat, q: Query)
    ensures Measure(limit, [q]) == Weight(limit, q.depth)
  {
    assert [q][1..] == [];
  }

  lemma {:induction false} MeasureSame(limit: nat, qs: seq<Query>, depth: int)
    requires forall q :: q in qs ==> q.depth == depth
    ensures Measure(limit, qs) == Times(|qs|, Weight(limit, depth))
  {
    hide Weight, Times;
    TimesNext(0, Weight(limit, depth));
    if qs != [] {
      assert forall q :: q in qs[1..] ==> q in qs;
      MeasureSame(limit, qs[1..], depth);
      TimesNext(|qs| - 1, Weight(limit, depth));
    }
  }

  /** The queries that one answer leads to weigh less than the query it answers. */
  lemma ChildrenWeigh(limit: nat, infohash: Hash, q: Query, visited: seq<Hash>, m: Response, added: seq<bool>,
                      wrote: seq<bool>)
    requires |added| == |m.nodes| + |m.nodes6| <= limit
    requires |wrote| == |Children(infohash, q, visited, m, added)|
    ensures Measure(limit, Kept(Children(infohash, q, visited, m, added), wrote)) + 1 <= Weight(limit, q.depth)
  {
    hide Children, Collect, Measure, Times;
    TimesNext(0, Weight(limit, 0));
    var kept := Kept(Children(infohash, q, visited, m, added), wrote);
    if kept == [] {
      MeasureSame(limit, kept, 0);
    } else {
      assert kept[0] in Children(infohash, q, visited, m, added);
      MeasureSame(limit, kept, q.depth - 1);
      TimesMonotone(|kept|, limit, Weight(limit, q.depth - 1));
    }
  }

  /** Every answer, error and timeout strictly lowers the measure. */
  lemma StepDescends(limit: nat, infohash: Hash, s: State, e: Event)
    requires Enabled(infohash, s, e, limit)
    ensures var s' := Step(infohash, s, e, limit);
            && Measure(limit, s'.pending) < Measure(limit, s.pending)
            && (s'.sent - |s'.pending|) + Measure(limit, s'.pending) <= (s.sent - |s.pending|) + Measure(limit, s.pending)
  {
    hide Measure, Weight, Children, Kept;
    MeasureWithout(limit, s.pending, e.i);
    if e.Answer? {
      var kept := Kept(Children(infohash, s.pending[e.i], e.visited, e.m, e.added), e.wrote);
      ChildrenWeigh(limit, infohash, s.pending[e.i], e.visited, e.m, e.added, e.wrote);
      MeasureAppend(limit, Without(s.pending, e.i), kept);
    }
  }

  /** Runs of the search. */
  ghost predicate Runs(limit: nat, infohash: Hash, s: State, es: seq<Event>, t: State)
    decreases |es|
  {
    if es == [] then s == t
    else Enabled(infohash, s, es[0], limit) && Runs(limit, infohash, Step(infohash, s, es[0], limit), es[1..], t)
  }

  lemma {:induction false} RunDescends(limit: nat, infohash: Hash, s: State, es: seq<Event>, t: State)
    requires Runs(limit, infohash, s, es, t)
    ensures Measure(limit, t.pending) + |es| <= Measure(limit, s.pending)
    ensures (t.sent - |t.pending|) + Measure(limit, t.pending) <= (s.sent - |s.pending|) + Measure(limit, s.pending)
    ensures t.done == s.done + |es|
    decreases |es|
  {
    hide Measure;
    if es != [] {
      StepDescends(limit, infohash, s, es[0]);
      RunDescends(limit, infohash, Step(infohash, s, es[0], limit), es[1..], t);
    }
  }

  /**
    One GetPeers call that picks |wrote| nodes: whatever the answers, errors and timeouts, at most
    |wrote| * Weight(limit, depth) queries are ever sent, and as many callbacks are made: one for
    each answer, error and timeout, or a single one if no node is chosen.
   */
  lemma SearchIsBounded(limit: nat, infohash: Hash, depth: int, wrote: seq<bool>, es: seq<Event>, t: State)
    requires Runs(limit, infohash, Start(depth, wrote), es, t)
    ensures t.sent <= Times(|wrote|, Weight(limit, depth))
    ensures if wrote == [] then t.done == 1 && es == []
            else t.done == |es| <= Times(|wrote|, Weight(limit, depth))
  {
    hide Measure, Weight, Runs, Times, Kept;
    var s := Start(depth, wrote);
    RunDescends(limit, infohash, s, es, t);
    MeasureSame(limit, s.pending, depth);
    TimesMonotone(|s.pending|, |wrote|, Weight(limit, depth));
    TimesNext(0, Weight(limit, depth));
  }

  /** Depth and chain position always add up, and a chain ends with depth one. */
  ghost predicate ChainInv(s: State, depth: int)
  {
    forall i :: 0 <= i < |s.pending| ==>
      s.pending[i].depth + s.pending[i].generation == depth && (s.pending[i].generation > 0 ==> s.pending[i].depth >= 1)
  }

  lemma {:induction false} NoChainExceedsDepth(limit: nat, infohash: Hash, s: State, es: seq<Event>, t: State, depth: int)
    requires Runs(limit, infohash, s, es, t) && ChainInv(s, depth)
    ensures ChainInv(t, depth)
    ensures forall i :: 0 <= i < |t.pending| ==> t.pending[i].generation == 0 || t.pending[i].generation < depth
    decreases |es|
  {
    hide Children;
    if es != [] {
      var s' := Step(infohash, s, es[0], limit);
      assert ChainInv(s', depth) by { StepKeepsChains(limit, infohash, s, es[0], depth); }
      NoChainExceedsDepth(limit, infohash, s', es[1..], t, depth);
    }
  }

  lemma StepKeepsChains(limit: nat, infohash: Hash, s: State, e: Event, depth: int)
    requires Enabled(infohash, s, e, limit) && ChainInv(s, depth)
    ensures ChainInv(Step(infohash, s, e, limit), depth)
  {
    hide Children, Kept;
    var q := s.pending[e.i];
    if e.Answer? {
      var kids := Children(infohash, q, e.visited, e.m, e.added);
      var kept := Kept(kids, e.wrote);
      forall i | 0 <= i < |kept|
        ensures kept[i].depth + kept[i].generation == depth && kept[i].depth >= 1
      {
        assert kept[i] in kids;
        var j :| 0 <= j < |kids| && kids[j] == kept[i];
      }
    }
  }
}
