/** FilePieces.Merge: joining contiguous stretches of the same piece. */
module Merging {
  import opened Numbers
  import opened Tiling

  // ---------- Order and sort ----------

  /** FilePieces.Less. */
  predicate Before(a: Part, b: Part)
  {
    a.index < b.index || (a.index == b.index && a.offset < b.offset)
  }

  ghost predicate Sorted(ps: seq<Part>)
  {
    forall i, j :: 0 <= i < j < |ps| ==> !Before(ps[j], ps[i])
  }

  lemma InsertedSorted(sorted: seq<Part>, i: nat, p: Part)
    requires Sorted(sorted) && i <= |sorted|
    requires i > 0 ==> !Before(p, sorted[i - 1])
    requires i < |sorted| ==> Before(p, sorted[i])
    ensures Sorted(sorted[..i] + [p] + sorted[i..])
  {
    var r := sorted[..i] + [p] + sorted[i..];
    forall a, b | 0 <= a < b < |r| ensures !Before(r[b], r[a]) {
      if a < i {
        assert r[a] == sorted[a];
        if b == i && a < i - 1 { assert !Before(sorted[i - 1], sorted[a]); }
        if b > i { assert r[b] == sorted[b - 1]; }
      } else {
        assert r[b] == sorted[b - 1];
        if a > i { assert r[a] == sorted[a - 1]; } else if b > i + 1 { assert !Before(sorted[b - 1], sorted[i]); }
      }
    }
  }

  method Insert(sorted: seq<Part>, p: Part) returns (r: seq<Part>)
    requires Sorted(sorted)
    ensures Sorted(r) && multiset(r) == multiset(sorted) + multiset{p}
  {
    hide Sorted;
    var i := |sorted|;
    while i > 0 && Before(p, sorted[i - 1])
      invariant 0 <= i <= |sorted|
      invariant i < |sorted| ==> Before(p, sorted[i])
    {
      i := i - 1;
    }
    InsertedSorted(sorted, i, p);
    r := sorted[..i] + [p] + sorted[i..];
    assert sorted == sorted[..i] + sorted[i..];
  }

  /** sort.Sort on the receiver, in place. */
  method Sort(fps: array<Part>)
    modifies fps
    ensures Sorted(fps[..]) && multiset(fps[..]) == multiset(old(fps[..]))
  {
    var r := [];
    ghost var before := fps[..];
    assert Sorted(r);
    for i := 0 to fps.Length
      invariant fps[..] == before
      invariant Sorted(r) && multiset(r) == multiset(fps[..i])
    {
      assert fps[..i + 1] == fps[..i] + [fps[i]];
      r := Insert(r, fps[i]);
    }
    assert fps[..fps.Length] == fps[..];
    assert multiset(r) == multiset(before);
    assert |r| == |multiset(r)| == |multiset(before)| == fps.Length;
    forall i | 0 <= i < fps.Length { fps[i] := r[i]; }
    assert fps[..] == r;
  }

  // ---------- Merging a sorted list ----------

  /** `cur` grows while the next stretch starts where it ends; sums are uint32. */
  function MergeFrom(cur: Part, ps: seq<Part>): (r: seq<Part>)
    ensures r != [] && r[0].index == cur.index && r[0].offset == cur.offset
    decreases |ps|
  {
    if ps == [] then [cur]
    else if ps[0].index == cur.index && (cur.offset + cur.length) % U32 == ps[0].offset then
      MergeFrom(cur.(length := (cur.length + ps[0].length) % U32), ps[1..])
    else [cur] + MergeFrom(ps[0], ps[1..])
  }

  function Merged(ps: seq<Part>): seq<Part>
  {
    if ps == [] then [] else MergeFrom(ps[0], ps[1..])
  }

  /** Where the piece index changes, the two sides merge independently. */
  lemma {:induction false} MergeFromSplits(cur: Part, a: seq<Part>, b: seq<Part>)
    requires (forall i :: 0 <= i < |a| ==> a[i].index == cur.index) && b != [] && b[0].index != cur.index
    ensures MergeFrom(cur, a + b) == MergeFrom(cur, a) + Merged(b)
    decreases |a|
  {
    if a == [] {
      assert a + b == b;
    } else {
      assert (a + b)[0] == a[0] && (a + b)[1..] == a[1..] + b;
      if (cur.offset + cur.length) % U32 == a[0].offset {
        MergeFromSplits(cur.(length := (cur.length + a[0].length) % U32), a[1..], b);
      } else {
        MergeFromSplits(a[0], a[1..], b);
      }
    }
  }

  /** One group of equal index; the code's inner merge. */
  method MergeGroup(group: seq<Part>, results: seq<Part>) returns (r: seq<Part>)
    requires forall i :: 0 <= i < |group| ==> group[i].index == group[0].index
    ensures r == results + Merged(group)
  {
    r := results;
    if |group| == 0 { return; }
    var index := group[0].index;
    var offset: nat, length: nat := group[0].offset, group[0].length;
    var i := 1;
    while i < |group|
      invariant 1 <= i <= |group|
      invariant results + Merged(group) == r + MergeFrom(Part(index, offset, length), group[i..])
    {
      var fp := group[i];
      assert group[i..][0] == fp && group[i..][1..] == group[i + 1..];
      if (offset + length) % U32 == fp.offset {
        length := (length + fp.length) % U32;
      } else {
        r := r + [Part(index, offset, length)];
        offset, length := fp.offset, fp.length;
      }
      i := i + 1;
    }
    r := r + [Part(index, offset, length)];
  }

  method Merge(fps: array<Part>) returns (results: seq<Part>)
    modifies fps
    ensures Sorted(fps[..]) && multiset(fps[..]) == multiset(old(fps[..]))
    ensures results == Merged(fps[..])
  {
    if fps.Length < 2 { return fps[..]; }
    Sort(fps);
    var sorted := fps[..];
    results := MergeGroups(sorted);
  }

  /** The loop over groups of equal index. */
  method MergeGroups(fps: seq<Part>) returns (results: seq<Part>)
    requires fps != []
    ensures results == Merged(fps)
  {
    hide Merged;
    results := [];
    var lastpos, index := 0, fps[0].index;
    ghost var wanted := Merged(fps);
    assert fps[0..] == fps && [] + wanted == wanted;
    for i := 0 to |fps|
      invariant 0 <= lastpos <= i && lastpos < |fps| && index == fps[lastpos].index
      invariant forall j :: lastpos <= j < i ==> fps[j].index == index
      invariant wanted == results + Merged(fps[lastpos..])
    {
      if fps[i].index != index {
        MergedSplits(fps, lastpos, i);
        assert results + (Merged(fps[lastpos..i]) + Merged(fps[i..])) == (results + Merged(fps[lastpos..i])) + Merged(fps[i..]);
        results := MergeGroup(fps[lastpos..i], results);
        lastpos, index := i, fps[i].index;
      }
    }
    results := MergeGroup(fps[lastpos..], results);
  }

  lemma MergedSplits(fps: seq<Part>, lo: nat, hi: nat)
    requires lo < hi < |fps| && fps[hi].index != fps[lo].index
    requires forall j :: lo <= j < hi ==> fps[j].index == fps[lo].index
    ensures Merged(fps[lo..]) == Merged(fps[lo..hi]) + Merged(fps[hi..])
  {
    hide MergeFrom;
    var group, rest := fps[lo..hi], fps[hi..];
    assert fps[lo..][0] == group[0] && fps[lo..][1..] == group[1..] + rest;
    MergeFromSplits(group[0], group[1..], rest);
  }

  // ---------- What merging means ----------

  predicate Covers(p: Part, index: nat, b: nat)
  {
    p.index == index && p.offset <= b < p.offset + p.length
  }

  /** How many stretches hold byte b of the piece. */
  function Coverage(ps: seq<Part>, index: nat, b: nat): nat
  {
    if ps == [] then 0 else (if Covers(ps[0], index, b) then 1 else 0) + Coverage(ps[1..], index, b)
  }

  /** Every stretch ends below 2^32. */
  ghost predicate NoOverflow(ps: seq<Part>)
  {
    forall i :: 0 <= i < |ps| ==> ps[i].offset + ps[i].length < U32
  }

  ghost predicate Positive(ps: seq<Part>)
  {
    forall i :: 0 <= i < |ps| ==> ps[i].length > 0
  }

  /** No byte is held twice. */
  ghost predicate AtMostOnce(ps: seq<Part>)
  {
    forall index: nat, b: nat :: Coverage(ps, index, b) <= 1
  }

  lemma {:induction false} CoverageAppend(x: seq<Part>, y: seq<Part>, index: nat, b: nat)
    ensures Coverage(x + y, index, b) == Coverage(x, index, b) + Coverage(y, index, b)
  {
    if x == [] {
      assert x + y == y;
    } else {
      CoverageAppend(x[1..], y, index, b);
      assert (x + y)[0] == x[0] && (x + y)[1..] == x[1..] + y;
    }
  }

  lemma CoverageRemove(ps: seq<Part>, i: nat, index: nat, b: nat)
    requires i < |ps|
    ensures Coverage(ps, index, b)
            == (if Covers(ps[i], index, b) then 1 else 0) + Coverage(ps[..i] + ps[i + 1..], index, b)
  {
    assert ps == ps[..i] + ps[i..] && ps[i..][1..] == ps[i + 1..];
    CoverageAppend(ps[..i], ps[i..], index, b);
    CoverageAppend(ps[..i], ps[i + 1..], index, b);
  }

  lemma RemoveOne(ps: seq<Part>, i: nat)
    requires i < |ps|
    ensures multiset(ps) == multiset{ps[i]} + multiset(ps[..i] + ps[i + 1..])
  {
    assert ps == ps[..i] + [ps[i]] + ps[i + 1..];
  }

  lemma CancelOne(x: Part, left: multiset<Part>, right: multiset<Part>)
    requires multiset{x} + left == multiset{x} + right
    ensures left == right
  {
    assert left == (multiset{x} + left) - multiset{x};
    assert right == (multiset{x} + right) - multiset{x};
  }

  /** Coverage does not depend on the order of the stretches. */
  lemma {:induction false} CoveragePermuted(ps: seq<Part>, qs: seq<Part>, index: nat, b: nat)
    requires multiset(ps) == multiset(qs)
    ensures Coverage(ps, index, b) == Coverage(qs, index, b)
    decreases |ps|
  {
    hide Coverage, Covers;
    assert |ps| == |multiset(ps)| == |multiset(qs)| == |qs|;
    if ps != [] {
      assert ps[0] in multiset(qs);
      var i :| 0 <= i < |qs| && qs[i] == ps[0];
      var left, right := ps[..0] + ps[1..], qs[..i] + qs[i + 1..];
      CoverageRemove(ps, 0, index, b);
      CoverageRemove(qs, i, index, b);
      RemoveOne(ps, 0);
      RemoveOne(qs, i);
      CancelOne(ps[0], multiset(left), multiset(right));
      CoveragePermuted(left, right, index, b);
    }
  }

  predicate Touches(cur: Part, p: Part)
  {
    p.index == cur.index && cur.offset + cur.length == p.offset
  }

  function Join(cur: Part, p: Part): Part
  {
    Part(cur.index, cur.offset, cur.length + p.length)
  }

  /** One step of merging, when nothing reaches 2^32. */
  lemma {:induction false} MergeStep(cur: Part, ps: seq<Part>)
    requires ps != [] && cur.offset + cur.length < U32 && ps[0].offset + ps[0].length < U32
    ensures MergeFrom(cur, ps) == if Touches(cur, ps[0]) then MergeFrom(Join(cur, ps[0]), ps[1..])
                                  else [cur] + MergeFrom(ps[0], ps[1..])
  {
    assert (cur.offset + cur.length) % U32 == cur.offset + cur.length;
    if Touches(cur, ps[0]) {
      assert Join(cur, ps[0]) == cur.(length := (cur.length + ps[0].length) % U32);
    }
  }

  /** A joined stretch holds exactly what its two parts hold. */
  lemma JoinCovers(cur: Part, p: Part, index: nat, b: nat)
    requires Touches(cur, p)
    ensures Covers(Join(cur, p), index, b) <==> Covers(cur, index, b) || Covers(p, index, b)
    ensures !(Covers(cur, index, b) && Covers(p, index, b))
  {
  }

  lemma CoverageCons(p: Part, ps: seq<Part>, index: nat, b: nat)
    ensures Coverage([], index, b) == 0
    ensures Coverage([p] + ps, index, b) == (if Covers(p, index, b) then 1 else 0) + Coverage(ps, index, b)
  {
    assert ([p] + ps)[1..] == ps;
  }

  lemma NoOverflowTail(ps: seq<Part>)
    requires ps != [] && NoOverflow(ps)
    ensures NoOverflow(ps[1..]) && ps[0].offset + ps[0].length < U32
    ensures ps == [ps[0]] + ps[1..]
  {
  }

  lemma {:induction false} MergeFromCoverage(cur: Part, ps: seq<Part>, index: nat, b: nat)
    requires NoOverflow(ps) && cur.offset + cur.length < U32
    ensures Coverage(MergeFrom(cur, ps), index, b)
            == (if Covers(cur, index, b) then 1 else 0) + Coverage(ps, index, b)
    decreases |ps|
  {
    hide Covers, Coverage, NoOverflow, MergeFrom;
    if ps == [] {
      CoverageCons(cur, [], index, b);
      MergeOne(cur);
    } else {
      NoOverflowTail(ps);
      CoverageCons(ps[0], ps[1..], index, b);
      MergeStep(cur, ps);
      if Touches(cur, ps[0]) {
        JoinCovers(cur, ps[0], index, b);
        MergeFromCoverage(Join(cur, ps[0]), ps[1..], index, b);
      } else {
        MergeFromCoverage(ps[0], ps[1..], index, b);
        CoverageCons(cur, MergeFrom(ps[0], ps[1..]), index, b);
      }
    }
  }

  lemma MergeOne(cur: Part)
    ensures MergeFrom(cur, []) == [cur] + [] == [cur]
  {
  }

  lemma {:induction false} MergeFromNoOverflow(cur: Part, ps: seq<Part>)
    requires NoOverflow(ps) && cur.offset + cur.length < U32
    ensures NoOverflow(MergeFrom(cur, ps))
    decreases |ps|
  {
    hide MergeFrom;
    if ps == [] {
      MergeOne(cur);
    } else {
      MergeStep(cur, ps);
      MergeFromNoOverflow(if Touches(cur, ps[0]) then Join(cur, ps[0]) else ps[0], ps[1..]);
    }
  }

  /** Merging keeps, for every byte of every piece, how often it is held. */
  lemma MergeKeepsCoverage(ps: seq<Part>, index: nat, b: nat)
    requires NoOverflow(ps)
    ensures Coverage(Merged(ps), index, b) == Coverage(ps, index, b) && NoOverflow(Merged(ps))
  {
    if ps != [] {
      MergeFromCoverage(ps[0], ps[1..], index, b);
      MergeFromNoOverflow(ps[0], ps[1..]);
    }
  }

  // ---------- Merged stretches are canonical ----------

  /** Each stretch lies, with a gap, before all later ones of its piece, and pieces ascend. */
  ghost predicate Separated(ps: seq<Part>)
  {
    forall i, j :: 0 <= i < j < |ps| ==>
      ps[i].index < ps[j].index || (ps[i].index == ps[j].index && ps[i].offset + ps[i].length < ps[j].offset)
  }

  /** The same without the gap. */
  ghost predicate Ordered(ps: seq<Part>)
  {
    forall i, j :: 0 <= i < j < |ps| ==> Follows(ps[i], ps[j])
  }

  predicate Follows(p: Part, q: Part)
  {
    p.index < q.index || (p.index == q.index && p.offset + p.length <= q.offset)
  }

  lemma CoveredTwice(ps: seq<Part>, i: nat, j: nat, index: nat, b: nat)
    requires i < j < |ps| && Covers(ps[i], index, b) && Covers(ps[j], index, b)
    ensures Coverage(ps, index, b) >= 2
  {
    CoverageRemove(ps, j, index, b);
    var rest := ps[..j] + ps[j + 1..];
    assert rest[i] == ps[i];
    CoverageRemove(rest, i, index, b);
  }

  lemma SortedIsOrdered(ps: seq<Part>)
    requires Sorted(ps) && Positive(ps) && AtMostOnce(ps)
    ensures Ordered(ps)
  {
    forall i, j | 0 <= i < j < |ps| ensures Follows(ps[i], ps[j]) {
      assert !Before(ps[j], ps[i]);
      if !Follows(ps[i], ps[j]) {
        CoveredTwice(ps, i, j, ps[j].index, ps[j].offset);
      }
    }
  }

  /** A stretch in front of a separated list whose head it does not touch. */
  lemma SeparatedCons(p: Part, ps: seq<Part>)
    requires Separated(ps) && ps != []
    requires p.index < ps[0].index || (p.index == ps[0].index && p.offset + p.length < ps[0].offset)
    ensures Separated([p] + ps)
  {
    var r := [p] + ps;
    forall i, j | 0 <= i < j < |r|
      ensures r[i].index < r[j].index || (r[i].index == r[j].index && r[i].offset + r[i].length < r[j].offset)
    {
      assert r[j] == ps[j - 1];
      if i > 0 { assert r[i] == ps[i - 1]; }
    }
  }

  lemma OrderedTail(ps: seq<Part>)
    requires ps != [] && Ordered(ps) && Positive(ps) && NoOverflow(ps)
    ensures Ordered(ps[1..]) && Positive(ps[1..]) && NoOverflow(ps[1..])
    ensures forall i :: 0 <= i < |ps[1..]| ==> Follows(ps[0], ps[1..][i])
  {
  }

  lemma {:induction false} MergeFromSeparated(cur: Part, ps: seq<Part>)
    requires Ordered(ps) && Positive(ps) && NoOverflow(ps)
    requires cur.length > 0 && cur.offset + cur.length < U32
    requires forall i :: 0 <= i < |ps| ==> Follows(cur, ps[i])
    ensures Separated(MergeFrom(cur, ps)) && Positive(MergeFrom(cur, ps))
    decreases |ps|
  {
    hide Separated, Ordered, MergeFrom;
    if ps == [] {
      MergeOne(cur);
      SeparatedOne(cur);
    } else {
      OrderedTail(ps);
      MergeStep(cur, ps);
      assert Follows(cur, ps[0]);
      if Touches(cur, ps[0]) {
        MergeFromSeparated(Join(cur, ps[0]), ps[1..]);
      } else {
        MergeFromSeparated(ps[0], ps[1..]);
        SeparatedCons(cur, MergeFrom(ps[0], ps[1..]));
      }
    }
  }

  lemma SeparatedOne(p: Part)
    ensures Separated([p])
  {
  }

  /** Disjoint stretches merge into ascending stretches with a gap between any two of a piece. */
  lemma MergeSeparates(ps: seq<Part>)
    requires Sorted(ps) && Positive(ps) && AtMostOnce(ps) && NoOverflow(ps)
    ensures Separated(Merged(ps)) && Positive(Merged(ps))
  {
    SortedIsOrdered(ps);
    if ps != [] {
      OrderedTail(ps);
      MergeFromSeparated(ps[0], ps[1..]);
    }
  }

  lemma {:induction false} BeforeAll(ps: seq<Part>, index: nat, b: nat)
    requires forall i :: 0 <= i < |ps| ==> index < ps[i].index || (index == ps[i].index && b < ps[i].offset)
    ensures Coverage(ps, index, b) == 0
  {
    if ps != [] { BeforeAll(ps[1..], index, b); }
  }

  lemma SeparatedTail(ps: seq<Part>)
    requires ps != [] && Separated(ps) && Positive(ps)
    ensures Separated(ps[1..]) && Positive(ps[1..])
    ensures forall b :: 0 <= b <= ps[0].offset + ps[0].length ==> Coverage(ps[1..], ps[0].index, b) == 0
    ensures forall index, b :: 0 <= index < ps[0].index && 0 <= b ==> Coverage(ps, index, b) == 0
    ensures forall b :: 0 <= b < ps[0].offset ==> Coverage(ps, ps[0].index, b) == 0
  {
    forall b | 0 <= b <= ps[0].offset + ps[0].length ensures Coverage(ps[1..], ps[0].index, b) == 0 {
      BeforeAll(ps[1..], ps[0].index, b);
    }
    forall index, b | 0 <= index < ps[0].index && 0 <= b ensures Coverage(ps, index, b) == 0 {
      BeforeAll(ps, index, b);
    }
    forall b | 0 <= b < ps[0].offset ensures Coverage(ps, ps[0].index, b) == 0 {
      BeforeAll(ps, ps[0].index, b);
    }
  }

  /** The first bytes held agree, so the first stretches do. */
  lemma SameHead(ps: seq<Part>, qs: seq<Part>)
    requires ps != [] && qs != [] && Separated(ps) && Positive(ps) && Separated(qs) && Positive(qs)
    requires forall index: nat, b: nat :: Coverage(ps, index, b) == Coverage(qs, index, b)
    ensures ps[0] == qs[0]
  {
    var p, q := ps[0], qs[0];
    SeparatedTail(ps);
    SeparatedTail(qs);
    assert Coverage(ps, p.index, p.offset) > 0 && Coverage(qs, q.index, q.offset) > 0;
    assert p.index == q.index && p.offset == q.offset;
    var pEnd: nat, qEnd: nat := p.offset + p.length, q.offset + q.length;
    assert Coverage(ps, p.index, pEnd) == 0 && Coverage(qs, q.index, qEnd) == 0;
    assert pEnd < qEnd ==> Coverage(qs, q.index, pEnd) > 0;
    assert qEnd < pEnd ==> Coverage(ps, p.index, qEnd) > 0;
  }

  /** Two separated lists that hold the same bytes are the same list. */
  lemma {:induction false} SeparatedUnique(ps: seq<Part>, qs: seq<Part>)
    requires Separated(ps) && Positive(ps) && Separated(qs) && Positive(qs)
    requires forall index: nat, b: nat :: Coverage(ps, index, b) == Coverage(qs, index, b)
    ensures ps == qs
    decreases |ps|
  {
    assert ps != [] ==> Coverage(ps, ps[0].index, ps[0].offset) > 0;
    assert qs != [] ==> Coverage(qs, qs[0].index, qs[0].offset) > 0;
    if ps != [] {
      SameHead(ps, qs);
      SeparatedTail(ps);
      SeparatedTail(qs);
      forall index: nat, b: nat ensures Coverage(ps[1..], index, b) == Coverage(qs[1..], index, b) {
        assert Coverage(ps, index, b) == Coverage(qs, index, b);
      }
      SeparatedUnique(ps[1..], qs[1..]);
      assert ps == [ps[0]] + ps[1..] && qs == [qs[0]] + qs[1..];
    }
  }

  /**
    The merged list depends only on which bytes are held: not on the order of the input, nor
    on how the same bytes were cut into stretches.
   */
  lemma MergeIsCanonical(ps: seq<Part>, qs: seq<Part>)
    requires Sorted(ps) && Positive(ps) && AtMostOnce(ps) && NoOverflow(ps)
    requires Sorted(qs) && Positive(qs) && NoOverflow(qs)
    requires forall index: nat, b: nat :: Coverage(ps, index, b) == Coverage(qs, index, b)
    ensures Merged(ps) == Merged(qs)
  {
    hide MergeFrom, Merged;
    assert AtMostOnce(qs);
    MergeSeparates(ps);
    MergeSeparates(qs);
    forall index: nat, b: nat ensures Coverage(Merged(ps), index, b) == Coverage(Merged(qs), index, b) {
      MergeKeepsCoverage(ps, index, b);
      MergeKeepsCoverage(qs, index, b);
    }
    SeparatedUnique(Merged(ps), Merged(qs));
  }

  /** Sorting and merging a merged list again changes nothing. */
  lemma MergeIdempotent(ps: seq<Part>, again: seq<Part>)
    requires Sorted(ps) && Positive(ps) && AtMostOnce(ps) && NoOverflow(ps)
    requires Sorted(again) && multiset(again) == multiset(Merged(ps))
    ensures Merged(again) == Merged(ps)
  {
    hide MergeFrom, Merged;
    MergeSeparates(ps);
    MergeKeepsCoverage(ps, 0, 0);
    forall index: nat, b: nat ensures Coverage(again, index, b) == Coverage(ps, index, b) {
      MergeKeepsCoverage(ps, index, b);
      CoveragePermuted(again, Merged(ps), index, b);
    }
    forall i | 0 <= i < |again| ensures again[i].length > 0 && again[i].offset + again[i].length < U32 {
      assert again[i] in multiset(Merged(ps));
    }
    MergeIsCanonical(ps, again);
  }

  /** Two halves of a 2^32-byte piece merge to nothing: the joined length wraps to zero. */
  lemma OverflowLosesCoverage()
    ensures var ps := [Part(0, 0, U32 / 2), Part(0, U32 / 2, U32 / 2)];
            Merged(ps) == [Part(0, 0, 0)] && Coverage(ps, 0, 0) == 1 && Coverage(Merged(ps), 0, 0) == 0
  {
    var ps := [Part(0, 0, U32 / 2), Part(0, U32 / 2, U32 / 2)];
    assert ps[1..] == [Part(0, U32 / 2, U32 / 2)] && ps[1..][1..] == [];
    assert MergeFrom(Part(0, 0, 0), []) == [Part(0, 0, 0)];
    assert [Part(0, 0, 0)][1..] == [];
    assert Coverage(ps[1..], 0, 0) == 0;
  }
}
