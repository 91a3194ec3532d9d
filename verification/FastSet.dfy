/** The allowed-fast set: piece indexes drawn from a chain of digests. */
module FastSet {
  import opened ByteStrings
  import opened Numbers
  import opened Wire

  type Digest = b: Bytes | |b| == 20 witness [0, 0, 0, 0, 0, 0, 0, 0, 0, 0, 0, 0, 0, 0, 0, 0, 0, 0, 0, 0]

  /** The chain starts from the address with its last byte zeroed, and the infohash. */
  function Seed(ip: Bytes, infohash: Bytes): Bytes
  {
    (if ip == [] then [] else ip[..|ip| - 1] + [0]) + infohash
  }

  /** The address without its last byte, a zero, the infohash: so neighbours in a /24 start alike. */
  lemma SeedIs(ip: Bytes, other: Bytes, infohash: Bytes)
    requires ip != [] && |other| == |ip| && other[..|ip| - 1] == ip[..|ip| - 1]
    ensures var x, n := Seed(ip, infohash), |ip|;
            && |x| == n + |infohash| && x[..n - 1] == ip[..n - 1] && x[n - 1] == 0 && x[n..] == infohash
    ensures Seed(other, infohash) == Seed(ip, infohash)
  {
  }

  /** The i-th of the five numbers in a digest, reduced to a piece index. */
  function Draw(d: Digest, i: nat, sz: Uint32): (index: Uint32)
    requires i < 5 && sz > 0
    ensures index < sz
  {
    Value32(d[4 * i..4 * i + 4]) % sz
  }

  /** The draws of a digest from the i-th on. */
  function DrawsFrom(d: Digest, i: nat, sz: Uint32): seq<Uint32>
    requires i <= 5 && sz > 0
    decreases 5 - i
  {
    if i == 5 then [] else [Draw(d, i, sz)] + DrawsFrom(d, i + 1, sz)
  }

  /** All draws of the given number of rounds. */
  function Draws(sha1: Bytes -> Digest, x: Bytes, sz: Uint32, rounds: nat): seq<Uint32>
    requires sz > 0
    decreases rounds
  {
    if rounds == 0 then [] else DrawsFrom(sha1(x), 0, sz) + Draws(sha1, sha1(x), sz, rounds - 1)
  }

  /** The digest of round r, each being the digest of the one before. */
  function Link(sha1: Bytes -> Digest, x: Bytes, r: nat): Digest
  {
    if r == 0 then sha1(x) else sha1(Link(sha1, x, r - 1))
  }

  lemma {:induction false} LinkShift(sha1: Bytes -> Digest, x: Bytes, r: nat)
    ensures Link(sha1, sha1(x), r) == Link(sha1, x, r + 1)
  {
    if r > 0 { LinkShift(sha1, x, r - 1); }
  }

  lemma FiveDraws(d: Digest, sz: Uint32, i: nat)
    requires sz > 0 && i < 5
    ensures |DrawsFrom(d, 0, sz)| == 5 && DrawsFrom(d, 0, sz)[i] == Draw(d, i, sz)
  {
    hide Draw;
    assert DrawsFrom(d, 5, sz) == [];
    assert DrawsFrom(d, 4, sz) == [Draw(d, 4, sz)];
    assert DrawsFrom(d, 3, sz) == [Draw(d, 3, sz), Draw(d, 4, sz)];
    assert DrawsFrom(d, 2, sz) == [Draw(d, 2, sz), Draw(d, 3, sz), Draw(d, 4, sz)];
    assert DrawsFrom(d, 1, sz) == [Draw(d, 1, sz), Draw(d, 2, sz), Draw(d, 3, sz), Draw(d, 4, sz)];
  }

  /** Draw number 5r + i is the i-th big-endian number of the digest of round r, modulo sz. */
  lemma {:induction false} DrawsAre(sha1: Bytes -> Digest, x: Bytes, sz: Uint32, rounds: nat, r: nat, i: nat)
    requires sz > 0 && r < rounds && i < 5
    ensures var draws, d := Draws(sha1, x, sz, rounds), Link(sha1, x, r);
            |draws| == 5 * rounds && draws[5 * r + i] == Value32(d[4 * i..4 * i + 4]) % sz
    decreases rounds
  {
    hide DrawsFrom, Value32;
    FiveDraws(sha1(x), sz, i);
    if r > 0 {
      DrawsAre(sha1, sha1(x), sz, rounds - 1, r - 1, i);
      LinkShift(sha1, x, r - 1);
    } else if rounds > 1 {
      DrawsAre(sha1, sha1(x), sz, rounds - 1, 0, i);
    } else {
      assert Draws(sha1, sha1(x), sz, 0) == [];
    }
  }

  /** The first k distinct nonzero draws, those already chosen included. */
  function Select(draws: seq<Uint32>, chosen: seq<Uint32>, k: nat): (r: seq<Uint32>)
    ensures chosen <= r
    decreases |draws|
  {
    if draws == [] || |chosen| >= k then chosen
    else if draws[0] == 0 || draws[0] in chosen then Select(draws[1..], chosen, k)
    else Select(draws[1..], chosen + [draws[0]], k)
  }

  // ---------- The loop on an array ----------

  /** The set and the number of filled entries. */
  datatype Filling = Filling(entries: seq<Uint32>, cur: nat)

  /** Each draw goes into the next entry unless the whole set, unfilled entries included, has it. */
  function Fill(draws: seq<Uint32>, f: Filling): (r: Filling)
    requires f.cur <= |f.entries|
    ensures |r.entries| == |f.entries| && f.cur <= r.cur <= |r.entries|
    decreases |draws|
  {
    if draws == [] || f.cur == |f.entries| then f
    else if draws[0] in f.entries then Fill(draws[1..], f)
    else Fill(draws[1..], Filling(f.entries[f.cur := draws[0]], f.cur + 1))
  }

  method Contains(ss: array<Uint32>, s: Uint32) returns (found: bool)
    ensures found <==> s in ss[..]
  {
    for i := 0 to ss.Length
      invariant s !in ss[..i]
    {
      if ss[i] == s { return true; }
    }
    assert ss[..ss.Length] == ss[..];
    return false;
  }

  /** One digest: tries its five numbers in order until the set is full. */
  method DrawRound(set_: array<Uint32>, cur0: nat, d: Digest, sz: Uint32) returns (cur: nat)
    requires sz > 0 && cur0 <= set_.Length
    modifies set_
    ensures Filling(set_[..], cur) == Fill(DrawsFrom(d, 0, sz), Filling(old(set_[..]), cur0))
  {
    hide Draw;
    cur := cur0;
    ghost var wanted := Fill(DrawsFrom(d, 0, sz), Filling(set_[..], cur));
    var i: nat := 0;
    while i < 5 && cur < set_.Length
      invariant i <= 5 && cur <= set_.Length
      invariant wanted == Fill(DrawsFrom(d, i, sz), Filling(set_[..], cur))
    {
      var index := Draw(d, i, sz);
      assert DrawsFrom(d, i, sz) == [index] + DrawsFrom(d, i + 1, sz);
      var found := Contains(set_, index);
      if !found {
        ghost var before := set_[..];
        set_[cur] := index;
        assert set_[..] == before[cur := index];
        cur := cur + 1;
      }
      i := i + 1;
    }
  }

  /**
    Fills a set with at most `rounds` digests; `done` tells whether that was enough. The original
    goes on for as long as it takes.
   */
  method GenerateAllowedFastSet(set_: array<Uint32>, sz: Uint32, ip: Bytes, infohash: Bytes, sha1: Bytes -> Digest,
                                rounds: nat)
    returns (done: bool)
    requires sz > 0
    modifies set_
    ensures var f := Fill(Draws(sha1, Seed(ip, infohash), sz, rounds), Filling(old(set_[..]), 0));
            set_[..] == f.entries && (done <==> f.cur == set_.Length)
  {
    hide DrawsFrom, Seed, Fill;
    var x, cur: nat, left := Seed(ip, infohash), 0, rounds;
    ghost var wanted := Fill(Draws(sha1, x, sz, left), Filling(set_[..], cur));
    while cur < set_.Length && left > 0
      invariant cur <= set_.Length
      invariant wanted == Fill(Draws(sha1, x, sz, left), Filling(set_[..], cur))
    {
      var d := sha1(x);
      FillAppend(DrawsFrom(d, 0, sz), Draws(sha1, d, sz, left - 1), Filling(set_[..], cur));
      cur := DrawRound(set_, cur, d, sz);
      x, left := d, left - 1;
    }
    FillStops(Draws(sha1, x, sz, left), Filling(set_[..], cur));
    done := cur >= set_.Length;
  }

  lemma FillStep(draws: seq<Uint32>, f: Filling)
    requires f.cur < |f.entries| && draws != []
    ensures Fill(draws, f) == Fill(draws[1..], if draws[0] in f.entries then f
                                               else Filling(f.entries[f.cur := draws[0]], f.cur + 1))
  {
  }

  lemma FillStops(draws: seq<Uint32>, f: Filling)
    requires f.cur <= |f.entries|
    ensures draws == [] || f.cur == |f.entries| ==> Fill(draws, f) == f
  {
  }

  lemma {:induction false} FillAppend(a: seq<Uint32>, b: seq<Uint32>, f: Filling)
    requires f.cur <= |f.entries|
    ensures Fill(a + b, f) == Fill(b, Fill(a, f))
    decreases |a|
  {
    hide Fill;
    FillStops(a, f);
    FillStops(b, f);
    FillStops(a + b, f);
    if a == [] {
      assert a + b == b;
    } else if f.cur < |f.entries| {
      assert (a + b)[0] == a[0] && (a + b)[1..] == a[1..] + b;
      var next := if a[0] in f.entries then f else Filling(f.entries[f.cur := a[0]], f.cur + 1);
      FillStep(a, f);
      FillStep(a + b, f);
      FillAppend(a[1..], b, next);
    }
  }

  // ---------- From a zeroed set ----------

  function Zeros(n: nat): (r: seq<Uint32>)
    ensures |r| == n && forall i :: 0 <= i < n ==> r[i] == 0
  {
    seq(n, _ => 0)
  }

  /** The set holds what is chosen so far, and zeros. */
  ghost predicate Holds(f: Filling, chosen: seq<Uint32>)
  {
    f.cur == |chosen| <= |f.entries| && f.entries == chosen + Zeros(|f.entries| - |chosen|)
  }

  /** While a zero is left in the set, zero is never chosen. */
  lemma ContainsMeans(f: Filling, chosen: seq<Uint32>, x: Uint32)
    requires Holds(f, chosen) && f.cur < |f.entries|
    ensures x in f.entries <==> x == 0 || x in chosen
  {
    assert f.entries[|chosen|] == 0;
  }

  lemma HoldsNext(f: Filling, chosen: seq<Uint32>, x: Uint32)
    requires Holds(f, chosen) && f.cur < |f.entries|
    ensures Holds(Filling(f.entries[f.cur := x], f.cur + 1), chosen + [x])
  {
    assert f.entries[f.cur := x] == (chosen + [x]) + Zeros(|f.entries| - |chosen| - 1);
  }

  lemma {:induction false} FillSelects(draws: seq<Uint32>, f: Filling, chosen: seq<Uint32>)
    requires Holds(f, chosen)
    ensures Holds(Fill(draws, f), Select(draws, chosen, |f.entries|))
    decreases |draws|
  {
    hide Holds;
    HoldsFits(f, chosen);
    if draws != [] && f.cur < |f.entries| {
      ContainsMeans(f, chosen, draws[0]);
      HoldsNext(f, chosen, draws[0]);
      if draws[0] in f.entries {
        FillSelects(draws[1..], f, chosen);
      } else {
        FillSelects(draws[1..], Filling(f.entries[f.cur := draws[0]], f.cur + 1), chosen + [draws[0]]);
      }
    }
  }

  lemma HoldsFits(f: Filling, chosen: seq<Uint32>)
    requires Holds(f, chosen)
    ensures f.cur == |chosen| <= |f.entries|
  {
  }

  /** A zeroed set ends up with the first distinct nonzero draws in front and zeros behind. */
  lemma ZeroedFillSelects(draws: seq<Uint32>, k: nat)
    ensures Holds(Fill(draws, Filling(Zeros(k), 0)), Select(draws, [], k))
  {
    hide Fill, Select;
    assert [] + Zeros(k) == Zeros(k);
    FillSelects(draws, Filling(Zeros(k), 0), []);
  }

  lemma SelectStops(draws: seq<Uint32>, chosen: seq<Uint32>, k: nat)
    ensures draws == [] || |chosen| >= k ==> Select(draws, chosen, k) == chosen
  {
  }

  lemma {:induction false} SelectAppend(a: seq<Uint32>, b: seq<Uint32>, chosen: seq<Uint32>, k: nat)
    ensures Select(a + b, chosen, k) == Select(b, Select(a, chosen, k), k)
    decreases |a|
  {
    if a == [] {
      assert a + b == b;
    } else if |chosen| < k {
      assert (a + b)[0] == a[0] && (a + b)[1..] == a[1..] + b;
      SelectAppend(a[1..], b, chosen, k);
      SelectAppend(a[1..], b, chosen + [a[0]], k);
    }
  }

  // ---------- What is selected ----------

  ghost predicate Distinct(s: seq<Uint32>)
  {
    forall i, j :: 0 <= i < j < |s| ==> s[i] != s[j]
  }

  ghost predicate Within(s: seq<Uint32>, sz: Uint32)
  {
    forall i :: 0 <= i < |s| ==> 0 < s[i] < sz
  }

  lemma {:induction false} DrawsWithin(d: Digest, i: nat, sz: Uint32, x: Uint32)
    requires i <= 5 && sz > 0 && x in DrawsFrom(d, i, sz)
    ensures x < sz
    decreases 5 - i
  {
    if x != Draw(d, i, sz) { DrawsWithin(d, i + 1, sz, x); }
  }

  lemma {:induction false} AllDrawsWithin(sha1: Bytes -> Digest, x: Bytes, sz: Uint32, rounds: nat, y: Uint32)
    requires sz > 0
    ensures y in Draws(sha1, x, sz, rounds) ==> y < sz
    decreases rounds
  {
    hide DrawsFrom;
    if rounds > 0 {
      if y in DrawsFrom(sha1(x), 0, sz) { DrawsWithin(sha1(x), 0, sz, y); }
      AllDrawsWithin(sha1, sha1(x), sz, rounds - 1, y);
    }
  }

  lemma {:induction false} SelectIsSound(draws: seq<Uint32>, chosen: seq<Uint32>, k: nat, sz: Uint32)
    requires (forall x :: x in draws ==> x < sz) && Distinct(chosen) && Within(chosen, sz) && |chosen| <= k
    ensures var r := Select(draws, chosen, k); Distinct(r) && Within(r, sz) && |r| <= k
    decreases |draws|
  {
    if draws != [] && |chosen| < k {
      assert draws[0] in draws && forall x :: x in draws[1..] ==> x in draws;
      if draws[0] == 0 || draws[0] in chosen {
        SelectIsSound(draws[1..], chosen, k, sz);
      } else {
        SelectIsSound(draws[1..], chosen + [draws[0]], k, sz);
      }
    }
  }

  /** Whatever the digests, the entries of the set are distinct, nonzero and below sz. */
  lemma EntriesAreSound(sha1: Bytes -> Digest, x: Bytes, sz: Uint32, rounds: nat, k: nat)
    requires sz > 0
    ensures var r := Select(Draws(sha1, x, sz, rounds), [], k); Distinct(r) && Within(r, sz) && |r| <= k
  {
    hide Select, Draws, Distinct, Within;
    forall y | y in Draws(sha1, x, sz, rounds) ensures y < sz { AllDrawsWithin(sha1, x, sz, rounds, y); }
    assert Distinct([]) && Within([], sz) by { EmptyIsSound(sz); }
    SelectIsSound(Draws(sha1, x, sz, rounds), [], k, sz);
  }

  lemma EmptyIsSound(sz: Uint32)
    ensures Distinct([]) && Within([], sz)
  {
  }

  lemma {:induction false} SelectPrefix(draws: seq<Uint32>, chosen: seq<Uint32>, k: nat, k': nat)
    requires k <= k'
    ensures Select(draws, chosen, k) <= Select(draws, chosen, k')
    decreases |draws|
  {
    if draws != [] && |chosen| < k {
      SelectPrefix(draws[1..], chosen, k, k');
      SelectPrefix(draws[1..], chosen + [draws[0]], k, k');
    }
  }

  lemma {:induction false} DrawsGrow(sha1: Bytes -> Digest, x: Bytes, sz: Uint32, rounds: nat, more: nat)
    requires sz > 0
    ensures Draws(sha1, x, sz, rounds) <= Draws(sha1, x, sz, rounds + more)
    decreases rounds
  {
    hide DrawsFrom;
    if rounds > 0 { DrawsGrow(sha1, sha1(x), sz, rounds - 1, more); }
  }

  /** A finished set does not change with more rounds. */
  lemma FinishedIsFinal(sha1: Bytes -> Digest, x: Bytes, sz: Uint32, k: nat, rounds: nat, more: nat)
    requires sz > 0
    ensures |Select(Draws(sha1, x, sz, rounds), [], k)| >= k ==>
              Select(Draws(sha1, x, sz, rounds + more), [], k) == Select(Draws(sha1, x, sz, rounds), [], k)
  {
    hide Select, Draws;
    DrawsGrow(sha1, x, sz, rounds, more);
    var a, all := Draws(sha1, x, sz, rounds), Draws(sha1, x, sz, rounds + more);
    assert all == a + all[|a|..];
    SelectAppend(a, all[|a|..], [], k);
    SelectStops(all[|a|..], Select(a, [], k), k);
  }

  /** If both finish, however many rounds each took, the smaller set is a prefix of the larger. */
  lemma SmallerIsPrefix(sha1: Bytes -> Digest, x: Bytes, sz: Uint32, k: nat, rounds: nat, k': nat, rounds': nat)
    requires sz > 0 && k <= k'
    ensures var small, large := Select(Draws(sha1, x, sz, rounds), [], k), Select(Draws(sha1, x, sz, rounds'), [], k');
            |small| >= k && |large| >= k' ==> small <= large
  {
    hide Select, Draws;
    FinishedIsFinal(sha1, x, sz, k, rounds, rounds');
    FinishedIsFinal(sha1, x, sz, k', rounds', rounds);
    assert rounds + rounds' == rounds' + rounds;
    SelectPrefix(Draws(sha1, x, sz, rounds + rounds'), [], k, k');
  }

  // ---------- When it finishes ----------

  function Values(s: seq<Uint32>): set<Uint32>
  {
    set x | x in s
  }

  function NonZero(s: seq<Uint32>): set<Uint32>
  {
    Values(s) - {0}
  }

  lemma {:induction false} DistinctValues(s: seq<Uint32>)
    requires Distinct(s)
    ensures |Values(s)| == |s|
  {
    if s != [] {
      var n := |s| - 1;
      DistinctValues(s[..n]);
      assert s == s[..n] + [s[n]];
      assert Values(s) == Values(s[..n]) + {s[n]};
    }
  }

  lemma UnionSize(a: set<Uint32>, b: set<Uint32>)
    ensures |a + b| >= |a|
  {
    assert a + b == a + (b - a);
  }

  /** As many as wanted are chosen, or all distinct nonzero draws if these are fewer. */
  lemma {:induction false} SelectCounts(draws: seq<Uint32>, chosen: seq<Uint32>, k: nat)
    requires Distinct(chosen) && 0 !in chosen && |chosen| <= k
    ensures |Select(draws, chosen, k)| == Min(k, |Values(chosen) + NonZero(draws)|)
    decreases |draws|
  {
    hide Distinct, Values;
    DistinctValues(chosen);
    UnionSize(Values(chosen), NonZero(draws));
    if draws == [] {
      assert Values(chosen) + NonZero(draws) == Values(chosen) by { ValuesOfNone(); }
    } else if |chosen| < k {
      var d := draws[0];
      ValuesStep(chosen, draws);
      if d == 0 || d in chosen {
        SelectCounts(draws[1..], chosen, k);
      } else {
        DistinctNext(chosen, d);
        SelectCounts(draws[1..], chosen + [d], k);
      }
    }
  }

  lemma ValuesOfNone()
    ensures Values([]) == {}
  {
  }

  lemma ValuesStep(chosen: seq<Uint32>, draws: seq<Uint32>)
    requires draws != []
    ensures draws[0] == 0 || draws[0] in chosen ==>
              Values(chosen) + NonZero(draws) == Values(chosen) + NonZero(draws[1..])
    ensures draws[0] != 0 ==>
              Values(chosen) + NonZero(draws) == Values(chosen + [draws[0]]) + NonZero(draws[1..])
  {
    assert draws == [draws[0]] + draws[1..];
  }

  lemma DistinctNext(chosen: seq<Uint32>, d: Uint32)
    requires Distinct(chosen) && d !in chosen
    ensures Distinct(chosen + [d])
  {
  }

  /** Generation finishes within the given rounds if and only if they draw k distinct nonzero numbers. */
  lemma FinishesExactly(sha1: Bytes -> Digest, x: Bytes, sz: Uint32, k: nat, rounds: nat)
    requires sz > 0
    ensures |Select(Draws(sha1, x, sz, rounds), [], k)| == k <==> |NonZero(Draws(sha1, x, sz, rounds))| >= k
  {
    hide Select, Draws, Values;
    var draws := Draws(sha1, x, sz, rounds);
    EmptyIsSound(sz);
    SelectCounts(draws, [], k);
    ValuesOfNone();
    assert {} + NonZero(draws) == NonZero(draws);
  }

  lemma {:induction false} FewValues(values: set<Uint32>, n: nat)
    requires n < U32 && forall v :: v in values ==> 1 <= v <= n
    ensures |values| <= n
    decreases n
  {
    if n == 0 {
      assert values == {};
    } else {
      FewValues(values - {n}, n - 1);
    }
  }

  /** Asking for as many entries as there are pieces never ends: index zero cannot be drawn. */
  lemma NeverFinishes(sha1: Bytes -> Digest, x: Bytes, sz: Uint32, k: nat, rounds: nat)
    requires sz > 0 && k >= sz
    ensures |Select(Draws(sha1, x, sz, rounds), [], k)| < k
  {
    hide Select, Draws, Values;
    var draws := Draws(sha1, x, sz, rounds);
    forall y | y in draws ensures y < sz { AllDrawsWithin(sha1, x, sz, rounds, y); }
    assert forall y :: y in NonZero(draws) ==> y in draws by { ValuesAre(draws); }
    FewValues(NonZero(draws), sz - 1);
    FinishesExactly(sha1, x, sz, k, rounds);
    EntriesAreSound(sha1, x, sz, rounds, k);
  }

  lemma ValuesAre(s: seq<Uint32>)
    ensures forall y :: y in Values(s) <==> y in s
  {
  }

  // ---------- A hash with which it finishes ----------

  /** A digest that begins with n; its last byte tells it from x. */
  function Counted(x: Bytes, n: Uint32): (d: Digest)
    ensures d != x && d[..4] == BigEndian32(n)
  {
    var pad: Bytes := [0, 0, 0, 0, 0, 0, 0, 0, 0, 0, 0, 0, 0, 0, 0, if |x| == 20 && x[19] == 0 then 1 else 0];
    assert (BigEndian32(n) + pad)[19] == pad[15];
    BigEndian32(n) + pad
  }

  function Next(n: Uint32): Uint32 { (n + 1) % U32 }

  lemma NextIs(n: Uint32)
    ensures n + 1 < U32 ==> Next(n) == n + 1
  {
  }

  function NextCounted(x: Bytes, y: Bytes): Digest
  {
    if y == x || |y| < 4 then Counted(x, 1) else Counted(x, Next(Value32(y[..4])))
  }

  /** Counts up from one, starting at x. */
  function Counting(x: Bytes): Bytes -> Digest
  {
    y => NextCounted(x, y)
  }

  lemma CountingStep(x: Bytes, n: Uint32)
    ensures Counting(x)(x) == Counted(x, 1)
    ensures Counting(x)(Counted(x, n)) == Counted(x, Next(n))
  {
    hide Counted, BigEndian32, Value32, Next;
    BigEndianRoundTrip(n);
  }

  lemma FirstDraw(x: Bytes, n: Uint32, sz: Uint32)
    requires n < sz
    ensures n in DrawsFrom(Counted(x, n), 0, sz)
  {
    hide Counted, Draw;
    DrawOfCounted(x, n, sz);
  }

  lemma DrawOfCounted(x: Bytes, n: Uint32, sz: Uint32)
    requires n < sz
    ensures Draw(Counted(x, n), 0, sz) == n
  {
    hide Counted, BigEndian32, Value32;
    BigEndianRoundTrip(n);
    assert Counted(x, n)[0..4] == Counted(x, n)[..4];
  }

  lemma DrawsStep(sha1: Bytes -> Digest, x: Bytes, sz: Uint32, rounds: nat, v: Uint32)
    requires sz > 0 && rounds > 0
    ensures v in DrawsFrom(sha1(x), 0, sz) || v in Draws(sha1, sha1(x), sz, rounds - 1) ==> v in Draws(sha1, x, sz, rounds)
  {
    hide DrawsFrom;
  }

  lemma {:induction false} CountsOn(x: Bytes, r: nat, sz: Uint32, rounds: nat, v: nat)
    requires r < v <= r + rounds && v < sz
    ensures v in Draws(Counting(x), Counted(x, r), sz, rounds)
    decreases rounds
  {
    hide Counted, Counting, Draws, DrawsFrom, Next;
    NextIs(r);
    CountingStep(x, r);
    DrawsStep(Counting(x), Counted(x, r), sz, rounds, v);
    if v == r + 1 {
      FirstDraw(x, v, sz);
    } else {
      CountsOn(x, r + 1, sz, rounds - 1, v);
    }
  }

  lemma CountsAll(x: Bytes, sz: Uint32, k: nat, v: nat)
    requires 1 <= v <= k < sz
    ensures v in Draws(Counting(x), x, sz, k)
  {
    hide Counted, Counting, Draws, DrawsFrom;
    CountingStep(x, 0);
    DrawsStep(Counting(x), x, sz, k, v);
    if v == 1 { FirstDraw(x, 1, sz); } else { CountsOn(x, 1, sz, k - 1, v); }
  }

  lemma {:induction false} ManyValues(values: set<Uint32>, n: nat)
    requires n < U32 && forall v: Uint32 :: 1 <= v <= n ==> v in values
    ensures |values| >= n
    decreases n
  {
    if n > 0 { ManyValues(values - {n}, n - 1); }
  }

  /** Whether the set can be filled at all, by some hash in some number of rounds: if and only if k < sz. */
  lemma CanFinishExactly(x: Bytes, sz: Uint32, k: nat)
    requires sz > 0
    ensures (exists sha1: Bytes -> Digest, rounds: nat :: |Select(Draws(sha1, x, sz, rounds), [], k)| == k) <==> k < sz
  {
    hide Select, Draws, Counting, Values;
    if k < sz {
      var draws := Draws(Counting(x), x, sz, k);
      forall v: Uint32 | 1 <= v <= k ensures v in NonZero(draws) {
        CountsAll(x, sz, k, v);
        ValuesAre(draws);
      }
      ManyValues(NonZero(draws), k);
      FinishesExactly(Counting(x), x, sz, k, k);
    } else {
      forall sha1: Bytes -> Digest, rounds: nat ensures |Select(Draws(sha1, x, sz, rounds), [], k)| != k {
        NeverFinishes(sha1, x, sz, k, rounds);
      }
    }
  }
}
