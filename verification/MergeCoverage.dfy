/** Exactly when merging keeps which bytes are held: as long as no joined length wraps. */
module MergeCoverage {
  import opened Numbers
  import opened Tiling
  import opened Merging

  /** The widths of FilePiece's fields. */
  ghost predicate Typed(ps: seq<Part>)
  {
    forall i :: 0 <= i < |ps| ==> ps[i].offset < U32 && ps[i].length < U32
  }

  /** No run of stretches that touch one another adds up to 2^32 bytes; `run` is the one that ends with `last`. */
  predicate RunsFit(run: nat, last: Part, ps: seq<Part>)
    decreases |ps|
  {
    && run < U32
    && (ps == [] || RunsFit(if Touches(last, ps[0]) then run + ps[0].length else ps[0].length, ps[0], ps[1..]))
  }

  // ---------- Coverage determines how much is held ----------

  type Cell = (nat, nat)

  /** The bytes of one stretch, and of a list with repetition. */
  ghost function CellsOf(p: Part): multiset<Cell>
    decreases p.length
  {
    if p.length == 0 then multiset{}
    else CellsOf(p.(length := p.length - 1)) + multiset{(p.index, p.offset + p.length - 1)}
  }

  ghost function Cells(ps: seq<Part>): multiset<Cell>
  {
    if ps == [] then multiset{} else CellsOf(ps[0]) + Cells(ps[1..])
  }

  lemma {:induction false} CellsOfCount(p: Part, index: nat, b: nat)
    ensures |CellsOf(p)| == p.length
    ensures CellsOf(p)[(index, b)] == if Covers(p, index, b) then 1 else 0
    decreases p.length
  {
    if p.length > 0 { CellsOfCount(p.(length := p.length - 1), index, b); }
  }

  lemma {:induction false} CellsCount(ps: seq<Part>, index: nat, b: nat)
    ensures |Cells(ps)| == SumParts(ps)
    ensures Cells(ps)[(index, b)] == Coverage(ps, index, b)
  {
    hide CellsOf, Covers;
    if ps != [] {
      CellsOfCount(ps[0], index, b);
      CellsCount(ps[1..], index, b);
    }
  }

  lemma SameCoverageHoldsAlike(ps: seq<Part>, qs: seq<Part>)
    requires forall index: nat, b: nat :: Coverage(ps, index, b) == Coverage(qs, index, b)
    ensures SumParts(ps) == SumParts(qs)
  {
    hide Cells, Coverage, SumParts;
    forall c: Cell ensures Cells(ps)[c] == Cells(qs)[c] {
      CellsCount(ps, c.0, c.1);
      CellsCount(qs, c.0, c.1);
    }
    assert Cells(ps) == Cells(qs);
    CellsCount(ps, 0, 0);
    CellsCount(qs, 0, 0);
  }

  // ---------- What wraps is lost ----------

  lemma {:induction false} MergeNeverGains(cur: Part, ps: seq<Part>)
    ensures SumParts(MergeFrom(cur, ps)) <= cur.length + SumParts(ps)
    decreases |ps|
  {
    if ps == [] {
      SumCons(cur, []);
      assert [cur] + [] == [cur];
    } else if ps[0].index == cur.index && (cur.offset + cur.length) % U32 == ps[0].offset {
      ModShrinks(cur.length + ps[0].length);
      MergeNeverGains(cur.(length := (cur.length + ps[0].length) % U32), ps[1..]);
    } else {
      MergeNeverGains(ps[0], ps[1..]);
      SumCons(cur, MergeFrom(ps[0], ps[1..]));
    }
  }

  lemma SumCons(p: Part, ps: seq<Part>)
    ensures SumParts([p] + ps) == p.length + SumParts(ps)
  {
    assert ([p] + ps)[1..] == ps;
  }

  lemma ModShrinks(x: nat)
    ensures x % U32 <= x && (x >= U32 ==> x % U32 < x)
  {
  }

  /** The stretches still to come do not start before the current one. */
  ghost predicate After(index: nat, offset: nat, ps: seq<Part>)
  {
    forall i :: 0 <= i < |ps| && ps[i].index == index ==> ps[i].offset >= offset
  }

  lemma SortedTail(ps: seq<Part>)
    requires ps != [] && Sorted(ps) && Typed(ps)
    ensures Sorted(ps[1..]) && Typed(ps[1..]) && After(ps[0].index, ps[0].offset, ps[1..])
  {
    forall i | 0 <= i < |ps[1..]| ensures ps[1..][i].index == ps[0].index ==> ps[1..][i].offset >= ps[0].offset {
      assert !Before(ps[i + 1], ps[0]);
    }
  }

  /** In a sorted list the wrapped comparison of ends and starts goes wrong nowhere. */
  lemma TouchesModulo(cur: Part, p: Part)
    requires cur.offset < U32 && cur.length < U32 && p.offset < U32
    requires p.index == cur.index ==> p.offset >= cur.offset
    ensures p.index == cur.index && (cur.offset + cur.length) % U32 == p.offset <==> Touches(cur, p)
  {
  }

  /** Merged so far: the run that ends with `last`. */
  predicate Joined(cur: Part, last: Part)
  {
    cur.index == last.index && cur.offset + cur.length == last.offset + last.length
  }

  /** One turn, as long as nothing has wrapped. */
  lemma Turn(cur: Part, last: Part, ps: seq<Part>)
    requires ps != [] && Sorted(ps) && Typed(ps) && After(cur.index, cur.offset, ps)
    requires cur.offset < U32 && cur.length < U32 && Joined(cur, last)
    ensures Touches(cur, ps[0]) <==> Touches(last, ps[0])
    ensures Sorted(ps[1..]) && Typed(ps[1..]) && ps[0].offset < U32 && ps[0].length < U32
    ensures After(ps[0].index, ps[0].offset, ps[1..]) && After(cur.index, cur.offset, ps[1..])
    ensures MergeFrom(cur, ps)
            == if Touches(cur, ps[0]) then MergeFrom(cur.(length := (cur.length + ps[0].length) % U32), ps[1..])
               else [cur] + MergeFrom(ps[0], ps[1..])
  {
    hide Sorted, MergeFrom;
    SortedTail(ps);
    TouchesModulo(cur, ps[0]);
    MergeUnfolds(cur, ps);
  }

  lemma {:induction false} MergeUnfolds(cur: Part, ps: seq<Part>)
    requires ps != []
    ensures MergeFrom(cur, ps)
            == if ps[0].index == cur.index && (cur.offset + cur.length) % U32 == ps[0].offset
               then MergeFrom(cur.(length := (cur.length + ps[0].length) % U32), ps[1..])
               else [cur] + MergeFrom(ps[0], ps[1..])
  {
  }

  lemma {:induction false} FittingKeepsCoverage(cur: Part, last: Part, ps: seq<Part>, index: nat, b: nat)
    requires Sorted(ps) && Typed(ps) && After(cur.index, cur.offset, ps) && cur.offset < U32 && Joined(cur, last)
    requires RunsFit(cur.length, last, ps)
    ensures Coverage(MergeFrom(cur, ps), index, b)
            == (if Covers(cur, index, b) then 1 else 0) + Coverage(ps, index, b)
    decreases |ps|
  {
    hide Covers, Coverage, MergeFrom, Sorted, Typed, After;
    if ps == [] {
      CoverageCons(cur, [], index, b);
      MergeOne(cur);
    } else {
      Turn(cur, last, ps);
      assert ps == [ps[0]] + ps[1..];
      CoverageCons(ps[0], ps[1..], index, b);
      if Touches(cur, ps[0]) {
        JoinCovers(cur, ps[0], index, b);
        assert Join(cur, ps[0]) == cur.(length := (cur.length + ps[0].length) % U32);
        FittingKeepsCoverage(Join(cur, ps[0]), ps[0], ps[1..], index, b);
      } else {
        FittingKeepsCoverage(ps[0], ps[0], ps[1..], index, b);
        CoverageCons(cur, MergeFrom(ps[0], ps[1..]), index, b);
      }
    }
  }

  lemma {:induction false} WrappingLoses(cur: Part, last: Part, ps: seq<Part>)
    requires Sorted(ps) && Typed(ps) && After(cur.index, cur.offset, ps) && cur.offset < U32 && cur.length < U32 && Joined(cur, last)
    requires !RunsFit(cur.length, last, ps)
    ensures SumParts(MergeFrom(cur, ps)) < cur.length + SumParts(ps)
    decreases |ps|
  {
    hide MergeFrom, Sorted, Typed, After;
    Turn(cur, last, ps);
    if Touches(cur, ps[0]) {
      var sum := cur.length + ps[0].length;
      ModShrinks(sum);
      if sum < U32 {
        WrappingLoses(cur.(length := sum % U32), ps[0], ps[1..]);
      } else {
        MergeNeverGains(cur.(length := sum % U32), ps[1..]);
      }
    } else {
      WrappingLoses(ps[0], ps[0], ps[1..]);
      SumCons(cur, MergeFrom(ps[0], ps[1..]));
    }
  }

  ghost predicate KeepsCoverage(ps: seq<Part>)
  {
    forall index: nat, b: nat :: Coverage(Merged(ps), index, b) == Coverage(ps, index, b)
  }

  lemma KeptMeansHeld(ps: seq<Part>)
    requires KeepsCoverage(ps)
    ensures SumParts(Merged(ps)) == SumParts(ps)
  {
    hide Coverage, Merged, SumParts;
    SameCoverageHoldsAlike(Merged(ps), ps);
  }

  /**
    Merge keeps, for every byte of every piece, how often it is held, if and only if no run of
    touching stretches in the sorted input is 2^32 bytes or longer.
   */
  lemma CoverageKeptExactly(ps: seq<Part>)
    requires Sorted(ps) && Typed(ps)
    ensures KeepsCoverage(ps) <==> (ps == [] || RunsFit(ps[0].length, ps[0], ps[1..]))
  {
    hide Coverage, Covers, MergeFrom, RunsFit, SumParts, KeepsCoverage;
    if ps == [] {
      assert KeepsCoverage(ps) by { NothingKept(); }
    } else {
      SortedTail(ps);
      assert ps == [ps[0]] + ps[1..];
      if RunsFit(ps[0].length, ps[0], ps[1..]) {
        FittingKept(ps);
      } else {
        WrappingLoses(ps[0], ps[0], ps[1..]);
        SumCons(ps[0], ps[1..]);
        if KeepsCoverage(ps) { KeptMeansHeld(ps); }
      }
    }
  }

  lemma NothingKept()
    ensures KeepsCoverage([])
  {
  }

  lemma FittingKept(ps: seq<Part>)
    requires ps != [] && Sorted(ps) && Typed(ps) && RunsFit(ps[0].length, ps[0], ps[1..])
    ensures KeepsCoverage(ps)
  {
    hide Coverage, Covers, MergeFrom, RunsFit, Sorted;
    SortedTail(ps);
    assert ps == [ps[0]] + ps[1..];
    forall index: nat, b: nat ensures Coverage(Merged(ps), index, b) == Coverage(ps, index, b) {
      FittingKeepsCoverage(ps[0], ps[0], ps[1..], index, b);
      CoverageCons(ps[0], ps[1..], index, b);
    }
  }
}
