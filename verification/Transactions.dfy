/** The DHT transaction table: IDs, registration, and the three ways a transaction ends. */
module Transactions {
  import opened Numbers

  // ---------- Base-36 IDs ----------

  function Digit(d: nat): char
    requires d < 36
  {
    if d < 10 then '0' + d as char else 'a' + (d - 10) as char
  }

  /** strconv.FormatUint(n, 36). */
  function Base36(n: nat): (s: string)
    ensures s != []
  {
    if n < 36 then [Digit(n)] else Base36(n / 36) + [Digit(n % 36)]
  }

  lemma {:induction false} Base36Injective(a: nat, b: nat)
    requires Base36(a) == Base36(b)
    ensures a == b
    decreases a
  {
    var s, t := Base36(a), Base36(b);
    assert s[|s| - 1] == Digit(a % 36) && t[|t| - 1] == Digit(b % 36);
    assert a % 36 == b % 36;
    if a >= 36 && b >= 36 {
      assert s[..|s| - 1] == Base36(a / 36) && t[..|t| - 1] == Base36(b / 36);
      Base36Injective(a / 36, b / 36);
    }
  }

  /** The value of a digit: 0 to 9, then a to z. */
  function DigitValue(c: char): int
  {
    if '0' <= c <= '9' then c as int - '0' as int else if 'a' <= c <= 'z' then c as int - 'a' as int + 10 else -1
  }

  /** The number that base-36 digits denote. */
  function Value36(s: string): int
  {
    if s == [] then 0 else 36 * Value36(s[..|s| - 1]) + DigitValue(s[|s| - 1])
  }

  /** An ID is the plain base-36 numeral: it denotes the number and has no leading zero. */
  lemma {:induction false} Base36Exactly(n: nat)
    ensures Value36(Base36(n)) == n
    ensures Base36(n)[0] == '0' ==> Base36(n) == "0"
  {
    if n < 36 {
      assert Base36(n)[..0] == [];
      assert Value36([]) == 0;
    } else {
      Base36Exactly(n / 36);
      var s := Base36(n);
      assert s[..|s| - 1] == Base36(n / 36) && s[|s| - 1] == Digit(n % 36);
      assert s[0] == Base36(n / 36)[0];
    }
  }

  /** Two issued numbers share an ID exactly if they agree in their low 32 bits. */
  lemma {:induction false} IdsRepeatExactly(a: nat, b: nat)
    ensures Base36(a % U32) == Base36(b % U32) <==> a % U32 == b % U32
  {
    hide Base36;
    if Base36(a % U32) == Base36(b % U32) { Base36Injective(a % U32, b % U32); }
  }

  // ---------- State ----------

  /** A query; `serial` counts the IDs issued so far, of which the wire sees only 32 bits. */
  datatype Transaction = Transaction(serial: nat, addr: string, time: int)

  type Key = (string, string)

  function Id(t: Transaction): string { Base36(t.serial % U32) }

  function KeyOf(t: Transaction): Key { (Id(t), t.addr) }

  datatype Outcome = Answered | Errored | TimedOut

  datatype Done = Done(t: Transaction, outcome: Outcome)

  /**
    `sent` are queries on the wire whose registration is still to come; `log` records the
    handler calls in order, one per completed transaction.
   */
  datatype State = State(issued: nat, sent: set<Transaction>, pending: map<Key, Transaction>,
                         registered: set<Transaction>, log: seq<Done>)

  const INITIAL := State(0, {}, map[], {}, [])

  datatype Event =
    | Send(addr: string, time: int)
    | Register(t: Transaction)
    | Reply(id: string, addr: string, accepted: bool)
    | Failure(id: string, addr: string)
    | Sweep(now: int, interval: int, order: seq<Key>)

  // ---------- Steps ----------

  /** PopTransaction and the handler it leads to. */
  function Pop(s: State, key: Key, outcome: Outcome): State
  {
    if key in s.pending then
      s.(pending := s.pending - {key}, log := s.log + [Done(s.pending[key], outcome)])
    else s
  }

  predicate Expired(t: Transaction, now: int, interval: int) { now - t.time > interval }

  /** The timeout sweep over the map, in whatever order the iteration takes. */
  function SweepAll(s: State, now: int, interval: int, order: seq<Key>): State
    decreases |order|
  {
    if order == [] then s
    else
      var k := order[0];
      SweepAll(if k in s.pending && Expired(s.pending[k], now, interval) then Pop(s, k, TimedOut) else s,
               now, interval, order[1..])
  }

  /** Whether an event can happen: a registration follows its sending, a sweep visits every key. */
  ghost predicate Enabled(s: State, e: Event)
  {
    match e
    case Register(t) => t in s.sent
    case Sweep(_, _, order) => forall k :: k in s.pending ==> k in order
    case _ => true
  }

  function Step(s: State, e: Event): State
  {
    match e
    case Send(addr, time) =>
      s.(issued := s.issued + 1, sent := s.sent + {Transaction(s.issued + 1, addr, time)})
    case Register(t) =>
      s.(sent := s.sent - {t}, pending := s.pending[KeyOf(t) := t], registered := s.registered + {t})
    case Reply(id, addr, accepted) => if accepted then Pop(s, (id, addr), Answered) else s
    case Failure(id, addr) => Pop(s, (id, addr), Errored)
    case Sweep(now, interval, order) => SweepAll(s, now, interval, order)
  }

  function Run(es: seq<Event>): State
  {
    if es == [] then INITIAL else Step(Run(es[..|es| - 1]), es[|es| - 1])
  }

  /** A possible run that issues no more IDs than 32 bits can tell apart. */
  ghost predicate Legal(es: seq<Event>)
  {
    es == [] || (Legal(es[..|es| - 1]) && Enabled(Run(es[..|es| - 1]), es[|es| - 1]) && Run(es).issued <= U32)
  }

  // ---------- The invariant ----------

  ghost predicate Logged(s: State, t: Transaction)
  {
    exists i :: 0 <= i < |s.log| && s.log[i].t == t
  }

  ghost predicate Pending(s: State, t: Transaction)
  {
    KeyOf(t) in s.pending && s.pending[KeyOf(t)] == t
  }

  ghost predicate Inv(s: State)
  {
    // serial numbers are those issued, one transaction each
    && (forall t :: t in s.sent || t in s.registered ==> 1 <= t.serial <= s.issued <= U32)
    && (forall t, u :: (t in s.sent || t in s.registered) && (u in s.sent || u in s.registered) && t.serial == u.serial ==> t == u)
    && s.sent !! s.registered
    // registered = pending + completed, disjointly
    && (forall k :: k in s.pending ==> KeyOf(s.pending[k]) == k && s.pending[k] in s.registered)
    && (forall i :: 0 <= i < |s.log| ==> s.log[i].t in s.registered && !Pending(s, s.log[i].t))
    && (forall t :: t in s.registered ==> Pending(s, t) || Logged(s, t))
    // no transaction completes twice
    && (forall i, j :: 0 <= i < j < |s.log| ==> s.log[i].t != s.log[j].t)
  }

  lemma KeysDiffer(t: Transaction, u: Transaction)
    requires 1 <= t.serial <= U32 && 1 <= u.serial <= U32 && KeyOf(t) == KeyOf(u)
    ensures t.serial == u.serial
  {
    Base36Injective(t.serial % U32, u.serial % U32);
  }

  lemma PopKeepsInv(s: State, key: Key, outcome: Outcome)
    requires Inv(s)
    ensures Inv(Pop(s, key, outcome))
  {
    hide KeyOf;
    if key in s.pending {
      var s', done := Pop(s, key, outcome), s.pending[key];
      assert forall t :: Pending(s', t) <==> Pending(s, t) && t != done;
      forall t | t in s'.registered ensures Pending(s', t) || Logged(s', t) {
        if t == done {
          assert s'.log[|s.log|].t == t;
        } else if Logged(s, t) {
          var i :| 0 <= i < |s.log| && s.log[i].t == t;
          assert s'.log[i].t == t;
        }
      }
    }
  }

  lemma {:induction false} SweepKeepsInv(s: State, now: int, interval: int, order: seq<Key>)
    requires Inv(s)
    ensures Inv(SweepAll(s, now, interval, order))
    decreases |order|
  {
    hide Inv, Pop;
    if order != [] {
      var k := order[0];
      PopKeepsInv(s, k, TimedOut);
      SweepKeepsInv(if k in s.pending && Expired(s.pending[k], now, interval) then Pop(s, k, TimedOut) else s,
                    now, interval, order[1..]);
    }
  }

  lemma RegisterKeepsInv(s: State, t: Transaction)
    requires Inv(s) && t in s.sent
    ensures Inv(Step(s, Register(t))) && KeyOf(t) !in s.pending
  {
    hide Id;
    var s' := Step(s, Register(t));
    if KeyOf(t) in s.pending { KeysDiffer(t, s.pending[KeyOf(t)]); }
    forall u | u in s'.registered ensures Pending(s', u) || Logged(s', u) {
      if u != t && Pending(s, u) {
        assert KeyOf(u) != KeyOf(t);
      } else if u != t {
        assert Logged(s, u);
        var i :| 0 <= i < |s.log| && s.log[i].t == u;
        assert s'.log[i].t == u;
      }
    }
  }

  lemma SendKeepsInv(s: State, addr: string, time: int)
    requires Inv(s) && s.issued + 1 <= U32
    ensures Inv(Step(s, Send(addr, time)))
  {
    hide Id;
    var s' := Step(s, Send(addr, time));
    assert forall t :: t in s.registered ==> (Pending(s', t) <==> Pending(s, t)) && (Logged(s', t) <==> Logged(s, t));
  }

  /** Every state of every legal run satisfies the invariant. */
  lemma {:induction false} RunInv(es: seq<Event>)
    requires Legal(es)
    ensures Inv(Run(es))
    decreases |es|
  {
    hide Inv, Pop, SweepAll;
    if es == [] {
      InitialInv();
    } else {
      var before := Run(es[..|es| - 1]);
      RunInv(es[..|es| - 1]);
      match es[|es| - 1]
      case Send(addr, time) => SendKeepsInv(before, addr, time);
      case Register(t) => RegisterKeepsInv(before, t);
      case Reply(id, addr, _) => PopKeepsInv(before, (id, addr), Answered);
      case Failure(id, addr) => PopKeepsInv(before, (id, addr), Errored);
      case Sweep(now, interval, order) => SweepKeepsInv(before, now, interval, order);
    }
  }

  lemma InitialInv()
    ensures Inv(INITIAL)
  {
  }

  // ---------- What follows for every run ----------

  ghost function Completed(s: State): set<Transaction>
  {
    set i | 0 <= i < |s.log| :: s.log[i].t
  }

  lemma {:induction false} CompletedCount(log: seq<Done>)
    requires forall i, j :: 0 <= i < j < |log| ==> log[i].t != log[j].t
    ensures |set i | 0 <= i < |log| :: log[i].t| == |log|
    decreases |log|
  {
    if log != [] {
      var front, last := log[..|log| - 1], log[|log| - 1];
      CompletedCount(front);
      var small, big := set i | 0 <= i < |front| :: front[i].t, set i | 0 <= i < |log| :: log[i].t;
      forall t | t in big ensures t in small + {last.t} {
        var i :| 0 <= i < |log| && log[i].t == t;
        if i < |front| { assert front[i].t == t; }
      }
      forall t | t in small ensures t in big {
        var i :| 0 <= i < |front| && front[i].t == t;
        assert log[i].t == t;
      }
      assert log[|log| - 1].t in big;
      assert big == small + {last.t};
    }
  }

  lemma {:induction false} PendingCount(m: map<Key, Transaction>)
    requires forall k :: k in m ==> KeyOf(m[k]) == k
    ensures |m.Values| == |m|
    decreases |m|
  {
    if m == map[] {
      assert m.Values == {};
    } else {
      var k :| k in m;
      var rest := m - {k};
      PendingCount(rest);
      assert m.Values == rest.Values + {m[k]} by {
        forall t | t in m.Values ensures t in rest.Values + {m[k]} {
          var j :| j in m && m[j] == t;
          if j != k { assert rest[j] == t; }
        }
        forall t | t in rest.Values ensures t in m.Values {
          var j :| j in rest && rest[j] == t;
          assert m[j] == t;
        }
      }
      assert m[k] !in rest.Values;
      assert m.Keys == rest.Keys + {k};
    }
  }

  /**
    Conservation: the registered transactions are, disjointly, the pending ones and those
    answered, failed or timed out; each of the latter had its handler called exactly once.
   */
  lemma Conservation(es: seq<Event>)
    requires Legal(es)
    ensures var s := Run(es);
            && s.registered == s.pending.Values + Completed(s)
            && s.pending.Values !! Completed(s)
            && |s.registered| == |s.pending| + |s.log|
  {
    hide Run, Inv, Completed;
    RunInv(es);
    InvSplits(Run(es));
    InvCounts(Run(es));
  }

  lemma InvSplits(s: State)
    requires Inv(s)
    ensures s.registered == s.pending.Values + Completed(s) && s.pending.Values !! Completed(s)
  {
    hide KeyOf;
    forall t | t in s.registered ensures t in s.pending.Values + Completed(s) {
      if Pending(s, t) {
        assert s.pending[KeyOf(t)] in s.pending.Values;
      } else {
        var i :| 0 <= i < |s.log| && s.log[i].t == t;
        assert s.log[i].t in Completed(s);
      }
    }
    forall t | t in s.pending.Values ensures t in s.registered && t !in Completed(s) {
      var k :| k in s.pending && s.pending[k] == t;
      assert Pending(s, t);
    }
  }

  lemma InvCounts(s: State)
    requires Inv(s)
    ensures |s.pending.Values| == |s.pending| && |Completed(s)| == |s.log|
  {
    hide KeyOf;
    CompletedCount(s.log);
    PendingCount(s.pending);
  }

  /** A reply or an error completes a transaction only if it names its ID and comes from its address. */
  lemma OnlyTheAskedCompletes(es: seq<Event>, e: Event)
    requires Legal(es) && (e.Reply? || e.Failure?)
    ensures var s, s' := Run(es), Step(Run(es), e);
            && (s'.log == s.log || exists t, o :: s'.log == s.log + [Done(t, o)] && t.addr == e.addr && Id(t) == e.id)
            && (forall t :: Pending(s, t) && t.addr != e.addr ==> Pending(s', t))
  {
    hide Run, Id;
    RunInv(es);
    var s, s' := Run(es), Step(Run(es), e);
    var key := (e.id, e.addr);
    if s'.log != s.log {
      var t := s.pending[key];
      assert KeyOf(t) == key;
      assert s'.log == s.log + [Done(t, s'.log[|s.log|].outcome)];
    }
  }

  /** The queries on the wire are registered under the next number, and then pending. */
  lemma SentThenPending(es: seq<Event>, addr: string, time: int)
    requires Legal(es)
    ensures var s := Run(es); var t := Transaction(s.issued + 1, addr, time);
            Step(s, Send(addr, time)) == s.(issued := s.issued + 1, sent := s.sent + {t})
    ensures forall t :: t in Run(es).sent ==>
              var s' := Step(Run(es), Register(t));
              && Pending(s', t) && t in s'.registered && t !in s'.sent && s'.log == Run(es).log
              && forall u :: Pending(Run(es), u) ==> Pending(s', u)
  {
    hide Run, Inv, Id;
    RunInv(es);
    forall t | t in Run(es).sent
      ensures var s' := Step(Run(es), Register(t));
              && Pending(s', t) && t in s'.registered && t !in s'.sent && s'.log == Run(es).log
              && forall u :: Pending(Run(es), u) ==> Pending(s', u)
    {
      RegisterKeepsInv(Run(es), t);
    }
  }

  /**
    An accepted reply with the ID and from the address of a pending transaction answers it, and an
    error fails it; every other pending transaction stays pending. A reply that is not accepted
    changes nothing.
   */
  lemma MatchingCompletes(es: seq<Event>, t: Transaction)
    requires Legal(es) && Pending(Run(es), t)
    ensures Step(Run(es), Reply(Id(t), t.addr, true)).log == Run(es).log + [Done(t, Answered)]
    ensures Step(Run(es), Failure(Id(t), t.addr)).log == Run(es).log + [Done(t, Errored)]
    ensures Step(Run(es), Reply(Id(t), t.addr, false)) == Run(es)
    ensures forall u ::
              && (Pending(Step(Run(es), Reply(Id(t), t.addr, true)), u) <==> Pending(Run(es), u) && u != t)
              && (Pending(Step(Run(es), Failure(Id(t), t.addr)), u) <==> Pending(Run(es), u) && u != t)
  {
    hide Run, Id;
    RunInv(es);
  }

  /** A sweep ends exactly the transactions older than the interval, and leaves the others pending. */
  lemma {:induction false} SweepEndsExpired(s: State, now: int, interval: int, order: seq<Key>, k: Key)
    ensures var s' := SweepAll(s, now, interval, order);
            && (k in s'.pending <==> k in s.pending && !(k in order && now - s.pending[k].time > interval))
            && (k in s'.pending ==> s'.pending[k] == s.pending[k])
    decreases |order|
  {
    if order != [] {
      var first := order[0];
      var next := if first in s.pending && Expired(s.pending[first], now, interval) then Pop(s, first, TimedOut) else s;
      SweepEndsExpired(next, now, interval, order[1..], k);
      assert order == [first] + order[1..];
    }
  }

  // ---------- Which event completed what ----------

  /** The event completes the transaction with this outcome. */
  ghost predicate Completes(e: Event, d: Done)
  {
    match e
    case Reply(id, addr, accepted) => accepted && d.outcome == Answered && id == Id(d.t) && addr == d.t.addr
    case Failure(id, addr) => d.outcome == Errored && id == Id(d.t) && addr == d.t.addr
    case Sweep(now, interval, _) => d.outcome == TimedOut && now - d.t.time > interval
    case _ => false
  }

  lemma {:induction false} SweepLogs(s: State, now: int, interval: int, order: seq<Key>, i: nat)
    ensures var log := SweepAll(s, now, interval, order).log;
            && s.log <= log
            && (|s.log| <= i < |log| ==> log[i].outcome == TimedOut && now - log[i].t.time > interval)
    decreases |order|
  {
    if order != [] {
      var first := order[0];
      var next := if first in s.pending && Expired(s.pending[first], now, interval) then Pop(s, first, TimedOut) else s;
      SweepLogs(next, now, interval, order[1..], i);
      var log := SweepAll(s, now, interval, order).log;
      assert |s.log| <= i < |next.log| ==> log[i] == next.log[i];
    }
  }

  lemma StepLogs(s: State, e: Event, i: nat)
    requires Inv(s)
    ensures s.log <= Step(s, e).log
    ensures |s.log| <= i < |Step(s, e).log| ==> Completes(e, Step(s, e).log[i])
  {
    hide Id;
    if e.Sweep? { SweepLogs(s, e.now, e.interval, e.order, i); }
  }

  /** Entry i of the log was made by event p. */
  ghost predicate MadeBy(es: seq<Event>, i: nat, p: nat)
    requires p < |es|
  {
    |Run(es[..p]).log| <= i < |Run(es[..p + 1]).log|
  }

  /**
    Every completion of every run stems from an event that accounts for its outcome: answered by
    a reply, failed by an error, timed out by a sweep past its age.
   */
  lemma {:induction false} OutcomesExplained(es: seq<Event>, i: nat) returns (p: nat)
    requires Legal(es) && i < |Run(es).log|
    ensures p < |es| && MadeBy(es, i, p) && Completes(es[p], Run(es).log[i])
    decreases |es|
  {
    hide Step, Inv, Completes;
    var front, e := es[..|es| - 1], es[|es| - 1];
    RunInv(front);
    StepLogs(Run(front), e, i);
    assert es[..|es|] == es;
    if i < |Run(front).log| {
      p := OutcomesExplained(front, i);
      assert front[..p] == es[..p] && front[..p + 1] == es[..p + 1];
    } else {
      p := |es| - 1;
    }
  }

  // ---------- The manager object ----------

  class Manager {
    var trans: map<Key, Transaction>
    var tid: nat                       // a uint32
    ghost var state: State

    ghost predicate Valid()
      reads this
    {
      trans == state.pending && tid == state.issued % U32
    }

    constructor ()
      ensures Valid() && state == INITIAL
    {
      trans, tid, state := map[], 0, INITIAL;
    }

    /** GetTransactionID, for a query that is about to be sent. */
    method GetTransactionID(addr: string, time: int) returns (id: string, ghost t: Transaction)
      requires Valid()
      modifies this
      ensures Valid() && state == Step(old(state), Send(addr, time))
      ensures t == Transaction(state.issued, addr, time) && t in state.sent && id == Id(t)
    {
      tid := (tid + 1) % U32;
      state := Step(state, Send(addr, time));
      id, t := Base36(tid), Transaction(state.issued, addr, time);
    }

    method AddTransaction(t: Transaction, id: string)
      requires Valid() && t in state.sent && id == Id(t)
      modifies this
      ensures Valid() && state == Step(old(state), Register(t))
    {
      trans := trans[(id, t.addr) := t];
      state := Step(state, Register(t));
    }

    method PopTransaction(id: string, addr: string, ghost outcome: Outcome) returns (found: bool)
      requires Valid()
      modifies this
      ensures Valid() && found == ((id, addr) in old(trans)) && state == Pop(old(state), (id, addr), outcome)
    {
      found := (id, addr) in trans;
      state := Pop(state, (id, addr), outcome);
      if found { trans := trans - {(id, addr)}; }
    }

    /** One tick of the timeout loop. */
    method Tick(now: int, interval: int) returns (order: seq<Key>)
      requires Valid()
      modifies this
      ensures Valid() && state == Step(old(state), Sweep(now, interval, order))
      ensures Enabled(old(state), Sweep(now, interval, order))
    {
      hide Pop;
      order := [];
      var todo := trans.Keys;
      ghost var before := state;
      while todo != {}
        invariant todo <= trans.Keys && trans == state.pending && tid == state.issued % U32
        invariant state == SweepAll(before, now, interval, order)
        invariant forall k :: k in before.pending ==> k in order || k in todo
        decreases |todo|
      {
        var k :| k in todo;
        SweepNext(before, now, interval, order, k);
        PopPending(state, k);
        if Expired(trans[k], now, interval) {
          state := Pop(state, k, TimedOut);
          trans := trans - {k};
        }
        order, todo := order + [k], todo - {k};
      }
    }
  }

  lemma PopPending(s: State, k: Key)
    requires k in s.pending
    ensures Pop(s, k, TimedOut).pending == s.pending - {k} && Pop(s, k, TimedOut).issued == s.issued
  {
  }

  lemma {:induction false} SweepNext(s: State, now: int, interval: int, order: seq<Key>, k: Key)
    ensures var r := SweepAll(s, now, interval, order);
            SweepAll(s, now, interval, order + [k])
            == if k in r.pending && Expired(r.pending[k], now, interval) then Pop(r, k, TimedOut) else r
    decreases |order|
  {
    hide Expired, Pop;
    if order == [] {
      assert order + [k] == [k] && [k][1..] == [];
      var next := if k in s.pending && Expired(s.pending[k], now, interval) then Pop(s, k, TimedOut) else s;
      assert SweepAll(next, now, interval, []) == next;
    } else {
      var first := order[0];
      var next := if first in s.pending && Expired(s.pending[first], now, interval) then Pop(s, first, TimedOut) else s;
      SweepNext(next, now, interval, order[1..], k);
      assert (order + [k])[0] == first && (order + [k])[1..] == order[1..] + [k];
    }
  }
}
