/** The token manager of the DHT server as a timed state machine. */
module Token {
  import opened ByteStrings

  type Addr = Bytes

  /** The two current tokens, and when each address last asked for one. */
  datatype Tokens = Tokens(last: Bytes, new_: Bytes, addrs: map<Addr, int>)

  function Rotated(m: Tokens, token: Bytes): Tokens
  {
    m.(last := m.new_, new_ := token)
  }

  function Survivors(addrs: map<Addr, int>, now: int, expired: int): map<Addr, int>
  {
    map a | a in addrs && now - addrs[a] < expired :: addrs[a]
  }

  function Asked(m: Tokens, addr: Addr, now: int): Tokens
  {
    m.(addrs := m.addrs[addr := now])
  }

  predicate Accepts(m: Tokens, addr: Addr, token: Bytes)
  {
    (m.last == token || m.new_ == token) && addr in m.addrs
  }

  class Manager {
    var last: Bytes
    var new_: Bytes
    var addrs: map<Addr, int>

    constructor (token: Bytes)
      ensures Is() == Tokens(token, token, map[])
    {
      last, new_, addrs := token, token, map[];
    }

    function Is(): Tokens
      reads this
    {
      Tokens(last, new_, addrs)
    }

    method UpdateToken(token: Bytes)
      modifies `last, `new_
      ensures Is() == Rotated(old(Is()), token)
    {
      last, new_ := new_, token;
    }

    method Clear(now: int, expired: int)
      modifies `addrs
      ensures Is() == old(Is()).(addrs := Survivors(old(addrs), now, expired))
    {
      var all := addrs;
      var keys := addrs.Keys;
      while keys != {}
        invariant keys <= all.Keys
        invariant addrs.Keys <= all.Keys && forall a :: a in addrs ==> addrs[a] == all[a]
        invariant forall a :: a in all && a in keys ==> a in addrs
        invariant forall a :: a in all && a !in keys ==> (a in addrs <==> now - all[a] < expired)
        decreases |keys|
      {
        var k :| k in keys;
        if now - all[k] >= expired { addrs := addrs - {k}; }
        keys := keys - {k};
      }
      assert addrs == Survivors(all, now, expired);
    }

    method Token(addr: Addr, now: int) returns (token: Bytes)
      modifies `addrs
      ensures token == new_ && Is() == Asked(old(Is()), addr, now)
    {
      token := new_;
      addrs := addrs[addr := now];
    }

    method Check(addr: Addr, token: Bytes) returns (ok: bool)
      ensures ok == Accepts(Is(), addr, token)
    {
      ok := false;
      if last == token || new_ == token { ok := addr in addrs; }
    }
  }

  // ---------- Time ----------

  /** The manager, the clock, the times of the next ticks, and every token made so far. */
  datatype State = State(m: Tokens, now: int, nextRotate: int, nextClear: int, made: set<Bytes>)

  /** Ticks, requests, and the clock moving on; each random token is new. */
  datatype Event =
    | Wait(until: int)
    | Rotate(token: Bytes)
    | Clear
    | Ask(addr: Addr)
    | Check(addr: Addr, token: Bytes)

  /** The clock does not pass a tick before it is handled; at the same instant any order is possible. */
  predicate Enabled(s: State, e: Event)
  {
    match e
    case Wait(until) => s.now <= until <= s.nextRotate && until <= s.nextClear
    case Rotate(token) => s.now == s.nextRotate && token !in s.made
    case Clear => s.now == s.nextClear
    case Ask(_) => true
    case Check(_, _) => true
  }

  function Step(h: nat, s: State, e: Event): State
    requires Enabled(s, e)
  {
    match e
    case Wait(until) => s.(now := until)
    case Rotate(token) => s.(m := Rotated(s.m, token), nextRotate := s.nextRotate + h, made := s.made + {token})
    case Clear => s.(m := s.m.(addrs := Survivors(s.m.addrs, s.now, 2 * h)), nextClear := s.nextClear + 2 * h)
    case Ask(addr) => s.(m := Asked(s.m, addr, s.now))
    case Check(_, _) => s
  }

  function Start(h: nat, token: Bytes): State
  {
    State(Tokens(token, token, map[]), 0, h, 2 * h, {token})
  }

  ghost predicate Runs(h: nat, s: State, es: seq<Event>, t: State)
    decreases |es|
  {
    if es == [] then s == t else Enabled(s, es[0]) && Runs(h, Step(h, s, es[0]), es[1..], t)
  }

  // ---------- What every run keeps ----------

  /** The next rotation is at most h ahead, and the two tokens are among those made. */
  predicate Inv(h: nat, s: State)
  {
    && s.nextRotate - h <= s.now <= s.nextRotate
    && s.now <= s.nextClear
    && s.m.last in s.made && s.m.new_ in s.made
  }

  /**
    The life of a token that was current when the next rotation was due at `due`: current, then
    last, then gone for good.
   */
  predicate Life(h: nat, token: Bytes, due: int, s: State)
  {
    && token in s.made
    && (|| (s.m.new_ == token && s.nextRotate == due)
        || (s.m.new_ != token && s.m.last == token && s.nextRotate == due + h)
        || (s.m.new_ != token && s.m.last != token && s.nextRotate >= due + 2 * h))
  }

  /** An address that asked at time `at` is remembered for 2h. */
  predicate Known(h: nat, addr: Addr, at: int, s: State)
  {
    s.now < at + 2 * h ==> addr in s.m.addrs && s.m.addrs[addr] >= at
  }

  lemma StepKeeps(h: nat, s: State, e: Event, token: Bytes, due: int, addr: Addr, at: int)
    requires Enabled(s, e) && Inv(h, s) && Life(h, token, due, s) && Known(h, addr, at, s) && at <= s.now
    ensures var s' := Step(h, s, e);
            Inv(h, s') && Life(h, token, due, s') && Known(h, addr, at, s') && at <= s'.now
  {
  }

  lemma {:induction false} RunKeeps(h: nat, s: State, es: seq<Event>, t: State, token: Bytes, due: int, addr: Addr, at: int)
    requires Runs(h, s, es, t)
    requires Inv(h, s) && Life(h, token, due, s) && Known(h, addr, at, s) && at <= s.now
    ensures Inv(h, t) && Life(h, token, due, t) && Known(h, addr, at, t)
    decreases |es|
  {
    hide Inv, Life, Known, Step, Enabled;
    if es != [] {
      StepKeeps(h, s, es[0], token, due, addr, at);
      RunKeeps(h, Step(h, s, es[0]), es[1..], t, token, due, addr, at);
    }
  }

  lemma {:induction false} RunInv(h: nat, s: State, es: seq<Event>, t: State)
    requires Runs(h, s, es, t) && Inv(h, s)
    ensures Inv(h, t)
    decreases |es|
  {
    hide Survivors;
    if es != [] { RunInv(h, Step(h, s, es[0]), es[1..], t); }
  }

  /**
    A token handed to an address at time t, in any reachable state, and checked for that
    address in any state reached from there, is accepted at every instant before t + 2h exactly
    until the second rotation after it was handed out, and never after t + 2h. Hence it is
    accepted throughout [t, t + h). At t + 2h itself it is rejected unless the second rotation
    is due at that instant and not handled yet.
   */
  lemma TokenLifetime(h: nat, first: Bytes, before: seq<Event>, s: State, addr: Addr, after: seq<Event>, t: State)
    requires h > 0 && Runs(h, Start(h, first), before, s)
    requires Runs(h, Step(h, s, Ask(addr)), after, t)
    ensures t.now < s.now + h ==> Accepts(t.m, addr, s.m.new_)
    ensures t.now < s.now + 2 * h ==> (Accepts(t.m, addr, s.m.new_) <==> t.nextRotate < s.nextRotate + 2 * h)
    ensures t.now > s.now + 2 * h ==> !Accepts(t.m, addr, s.m.new_)
    ensures Accepts(t.m, addr, s.m.new_) <==> t.nextRotate < s.nextRotate + 2 * h && addr in t.m.addrs
    ensures t.now == s.now + 2 * h && t.nextRotate < s.nextRotate + 2 * h ==> t.nextRotate == t.now == s.nextRotate + h
  {
    hide Runs;
    RunInv(h, Start(h, first), before, s);
    var s' := Step(h, s, Ask(addr));
    RunKeeps(h, s', after, t, s.m.new_, s.nextRotate, addr, s.now);
  }

  /** The boundary case does occur: asked right after a rotation, checked just before the second next. */
  lemma AcceptedAtTheBoundary(h: nat, first: Bytes, second: Bytes, addr: Addr)
    requires h > 0 && first != second
    ensures exists es, t ::
              && Runs(h, Step(h, Start(h, first), Ask(addr)), es, t)
              && t.now == 2 * h && Accepts(t.m, addr, first)
  {
    var s := Step(h, Start(h, first), Ask(addr));
    var es := [Wait(h), Rotate(second), Wait(2 * h)];
    var s1 := Step(h, s, es[0]);
    var s2 := Step(h, s1, es[1]);
    var s3 := Step(h, s2, es[2]);
    RunsThree(h, s, es, s3);
    assert Runs(h, s, es, s3);
    assert s3.now == 2 * h && Accepts(s3.m, addr, first);
  }

  lemma RunsThree(h: nat, s: State, es: seq<Event>, t: State)
    requires |es| == 3 && Enabled(s, es[0])
    requires Enabled(Step(h, s, es[0]), es[1])
    requires Enabled(Step(h, Step(h, s, es[0]), es[1]), es[2])
    requires t == Step(h, Step(h, Step(h, s, es[0]), es[1]), es[2])
    ensures Runs(h, s, es, t)
  {
    hide Step, Enabled;
    assert es[1..][1..][1..] == [];
    assert Runs(h, t, es[1..][1..][1..], t);
    assert es[1..][1..][0] == es[2] && es[1..][0] == es[1];
    assert Runs(h, Step(h, Step(h, s, es[0]), es[1]), es[1..][1..], t);
    assert Runs(h, Step(h, s, es[0]), es[1..], t);
  }

  /** The stamp of an address, if it has one, is that of its last request. */
  lemma {:induction false} StampIsLast(h: nat, s: State, es: seq<Event>, t: State, addr: Addr, at: int)
    requires Runs(h, s, es, t) && (addr in s.m.addrs ==> s.m.addrs[addr] == at)
    requires forall i :: 0 <= i < |es| ==> es[i] != Ask(addr)
    ensures addr in t.m.addrs ==> t.m.addrs[addr] == at
    decreases |es|
  {
    if es != [] {
      assert es[0] != Ask(addr);
      StampIsLast(h, Step(h, s, es[0]), es[1..], t, addr, at);
    }
  }

  /**
    Clearing forgets exactly the addresses that last asked 2h ago or earlier: an address that
    asked at s and not since is known after a later clearing if and only if it was known until
    then and less than 2h have passed.
   */
  lemma ClearedExactly(h: nat, s: State, addr: Addr, es: seq<Event>, t: State)
    requires Runs(h, Step(h, s, Ask(addr)), es, t) && Enabled(t, Clear)
    requires forall i :: 0 <= i < |es| ==> es[i] != Ask(addr)
    ensures addr in Step(h, t, Clear).m.addrs <==> addr in t.m.addrs && t.now - s.now < 2 * h
    ensures forall a :: a in t.m.addrs && t.now - t.m.addrs[a] < 2 * h ==>
              a in Step(h, t, Clear).m.addrs && Step(h, t, Clear).m.addrs[a] == t.m.addrs[a]
  {
    hide Runs;
    StampIsLast(h, Step(h, s, Ask(addr)), es, t, addr, s.now);
  }

  /** An address that never asked has no valid token. */
  lemma {:induction false} StrangersAreRejected(h: nat, s: State, es: seq<Event>, t: State, addr: Addr, token: Bytes)
    requires Runs(h, s, es, t) && addr !in s.m.addrs
    requires forall i :: 0 <= i < |es| ==> es[i] != Ask(addr)
    ensures !Accepts(t.m, addr, token)
    decreases |es|
  {
    if es != [] {
      assert es[0] != Ask(addr);
      StrangersAreRejected(h, Step(h, s, es[0]), es[1..], t, addr, token);
    }
  }
}
