/** The peer server's read-handle loop: what a handler can be called with, over every connection. */
module PeerServer {
  import opened ByteStrings
  import opened Wire
  import opened PeerConnection

  // ---------- The calls of one connection ----------

  /** The calls that the loop makes, the next frame being number `k`. */
  function Loop(s: State, can: Abilities, hs: Handshakes, max: Uint32, input: Bytes, answers: seq<bool>, k: nat): seq<Entry>
    decreases |input|
  {
    match Unframe(input, max)
    case Failed(_) => []
    case Got(m, rest) =>
      if !Timely(s, m) then []
      else
        var s' := After(Advance(s), can, hs, m);
        match Act(Advance(s), can, hs, m)
        case Refuse(_) => []
        case Skip => Loop(s', can, hs, max, rest, answers, k + 1)
        case Invoke(call) =>
          if Accepts(answers)
          then [Entry(call, k, true)] + Loop(s', can, hs, max, rest, Later(answers), k + 1)
          else [Entry(call, k, false)]
  }

  /** All calls of a connection that sends `input`. */
  function Serve(can: Abilities, hs: Handshakes, max: Uint32, input: Bytes, writes: bool, answers: seq<bool>): seq<Entry>
  {
    match Shake(ZERO_HASH, input, writes)
    case Unshaken => []
    case Shaken(_, rest) =>
      if Accepts(answers)
      then [Entry(OnHandShake, 0, true)] + Loop(NEW.(stage := Handshook), can, hs, max, rest, Later(answers), 0) + [CLOSED]
      else [Entry(OnHandShake, 0, false)]
  }

  /** The loop run on objects makes exactly these calls. */
  method LoopRun(pc: PeerConn, hs: Handshakes, h: Handler)
    modifies pc, pc.r, h
    ensures h.trace == old(h.trace) + Loop(old(pc.Is()), pc.can, hs, pc.maxLength, old(pc.r.input), old(h.answers), 0)
  {
    hide Unframe, Act, After, Timely, Advance, Accepts, Later;
    var k: nat := 0;
    ghost var wanted := h.trace + Loop(pc.Is(), pc.can, hs, pc.maxLength, pc.r.input, h.answers, k);
    while true
      invariant wanted == h.trace + Loop(pc.Is(), pc.can, hs, pc.maxLength, pc.r.input, h.answers, k)
      decreases |pc.r.input|
    {
      ghost var before := h.trace;
      ghost var s, input, answers := pc.Is(), pc.r.input, h.answers;
      var m := pc.ReadMsg();
      if m.None? { assert h.trace + [] == h.trace; return; }
      var ok := pc.HandleMessage(hs, m.value, h, k);
      LoopUnfolds(s, pc.can, hs, pc.maxLength, input, answers, k, before);
      if !ok { assert before + [] == before; return; }
      k := k + 1;
    }
  }

  /** One round of the loop, seen from the trace so far. */
  lemma LoopUnfolds(s: State, can: Abilities, hs: Handshakes, max: Uint32, input: Bytes, answers: seq<bool>, k: nat,
                    before: seq<Entry>)
    requires Unframe(input, max).Got? && Timely(s, Unframe(input, max).m)
    ensures var d := Unframe(input, max);
            var s' := After(Advance(s), can, hs, d.m);
            var all := before + Loop(s, can, hs, max, input, answers, k);
            match Act(Advance(s), can, hs, d.m)
            case Refuse(_) => all == before
            case Skip => all == before + Loop(s', can, hs, max, d.rest, answers, k + 1)
            case Invoke(call) =>
              if Accepts(answers)
              then all == (before + [Entry(call, k, true)]) + Loop(s', can, hs, max, d.rest, Later(answers), k + 1)
              else all == before + [Entry(call, k, false)]
  {
    hide Unframe, Act, After, Timely, Advance, Accepts, Later;
    var d := Unframe(input, max);
    var s' := After(Advance(s), can, hs, d.m);
    assert before + [] == before;
    if Act(Advance(s), can, hs, d.m).Invoke? && Accepts(answers) {
      var e := Entry(Act(Advance(s), can, hs, d.m).call, k, true);
      var rest := Loop(s', can, hs, max, d.rest, Later(answers), k + 1);
      assert (before + [e]) + rest == before + ([e] + rest);
    }
  }

  method HandlePeerMessage(pc: PeerConn, hs: Handshakes, h: Handler, writes: bool)
    requires pc.Is() == NEW && pc.infohash == ZERO_HASH
    modifies pc, pc.r, h
    ensures h.trace == old(h.trace) + Serve(pc.can, hs, pc.maxLength, old(pc.r.input), writes, old(h.answers))
  {
    hide Loop, Accepts, Later, Shake;
    ghost var before := h.trace;
    var ok := pc.Handshake(writes);
    if !ok { assert before + [] == before; return; }
    ghost var rest, answers := pc.r.input, h.answers;
    ok := h.Invoked(OnHandShake, 0);
    if !ok { return; }
    LoopRun(pc, hs, h);
    h.Close();
    ghost var calls := Loop(NEW.(stage := Handshook), pc.can, hs, pc.maxLength, rest, Later(answers), 0);
    assert ((before + [Entry(OnHandShake, 0, true)]) + calls) + [CLOSED]
        == before + ([Entry(OnHandShake, 0, true)] + calls + [CLOSED]);
  }

  // ---------- What every trace satisfies ----------

  predicate Dispatch(c: Call)
  {
    c != OnHandShake && c != OnClose
  }

  /** The k-th frame of the input. */
  function FrameAt(max: Uint32, input: Bytes, k: nat): Option<Message>
    decreases |input|
  {
    match Unframe(input, max)
    case Failed(_) => None
    case Got(m, rest) => if k == 0 then Some(m) else FrameAt(max, rest, k - 1)
  }

  /** The call carries the content of the message. */
  predicate Carries(c: Call, m: Message)
  {
    match c
    case OnMessage(x) => x == m
    case OnTyped(x) => x == m
    case OnExtHandShake => m.typ == EXTENDED && m.extendedID == 0
    case OnPayload(id, payload) => m.typ == EXTENDED && id == m.extendedID && payload == m.extendedPayload
    case _ => false
  }

  predicate Opening(c: Call)
  {
    (c.OnMessage? || c.OnTyped?) && !c.m.keepalive && OpensOnly(c.m.typ)
  }

  // What holds of the calls `t` of a loop that starts in state `s` with frame `k`.

  /** Only dispatches, in the order of the frames, and none after a refusal by the handler. */
  ghost predicate Ordered(k: nat, t: seq<Entry>)
  {
    && (forall i :: 0 <= i < |t| ==> Dispatch(t[i].call) && k <= t[i].frame)
    && (forall i :: 0 <= i < |t| - 1 ==> t[i].ok)
    && (forall i, j :: 0 <= i < j < |t| ==> t[i].frame < t[j].frame)
  }

  ghost predicate CarriesFrame(max: Uint32, input: Bytes, k: nat, e: Entry)
  {
    k <= e.frame && FrameAt(max, input, e.frame - k).Some? && Carries(e.call, FrameAt(max, input, e.frame - k).value)
  }

  ghost predicate Faithful(max: Uint32, input: Bytes, k: nat, t: seq<Entry>)
  {
    forall i :: 0 <= i < |t| ==> CarriesFrame(max, input, k, t[i])
  }

  ghost predicate CalledBefore(t: seq<Entry>, i: nat, f: nat)
  {
    exists j :: 0 <= j < i && j < |t| && t[j].frame == f
  }

  ghost predicate Accounted(max: Uint32, input: Bytes, k: nat, t: seq<Entry>, i: nat, f: nat)
    requires k <= f
  {
    && FrameAt(max, input, f - k).Some?
    && (FrameAt(max, input, f - k).value.keepalive || CalledBefore(t, i, f))
  }

  /** Before any call, every frame was a keepalive or had its own call. */
  ghost predicate Gapless(max: Uint32, input: Bytes, k: nat, t: seq<Entry>)
  {
    forall i: nat, f: nat :: i < |t| && k <= f < t[i].frame ==> Accounted(max, input, k, t, i, f)
  }

  /** A message that must open the conversation does. */
  ghost predicate Staged(s: State, k: nat, t: seq<Entry>)
  {
    forall i :: 0 <= i < |t| && Opening(t[i].call) ==> s.stage == Handshook && t[i].frame == k
  }

  ghost predicate ShakenBefore(t: seq<Entry>, j: nat)
  {
    exists i :: 0 <= i < j && i < |t| && t[i].call == OnExtHandShake && t[i].ok
  }

  /** One extended handshake at most, and no payload without one. */
  ghost predicate Extending(s: State, t: seq<Entry>)
  {
    && (s.extended > 0 ==> forall i :: 0 <= i < |t| ==> t[i].call != OnExtHandShake)
    && (forall i, j :: 0 <= i < j < |t| && t[i].call == OnExtHandShake ==> t[j].call != OnExtHandShake)
    && (forall j :: 0 <= j < |t| && t[j].call.OnPayload? ==> s.extended > 0 || ShakenBefore(t, j))
  }

  ghost predicate Safe(s: State, max: Uint32, input: Bytes, k: nat, t: seq<Entry>)
  {
    Ordered(k, t) && Faithful(max, input, k, t) && Gapless(max, input, k, t) && Staged(s, k, t) && Extending(s, t)
  }

  /** What the choice of a call tells about the message and the new state. */
  ghost predicate Means(s: State, s': State, m: Message, c: Call)
  {
    && Dispatch(c) && Carries(c, m)
    && (c == OnExtHandShake ==> s.extended == 0 < s'.extended)
    && (c != OnExtHandShake ==> s'.extended == s.extended)
    && (c.OnPayload? ==> s.extended > 0)
  }

  lemma ActMeans(s: State, can: Abilities, hs: Handshakes, m: Message)
    ensures var a, s' := Act(s, can, hs, m), After(s, can, hs, m);
            && s'.stage == s.stage
            && (a.Skip? ==> s'.extended == s.extended && m.keepalive)
            && (a.Invoke? ==> Means(s, s', m, a.call))
  {
    hide RouteOf, Flagged, ExtendedAction;
    OnlyExtended(can, m.typ);
    FlagsOnly(s, m);
    ExtendedMeans(s, hs, m);
  }

  lemma FlagsOnly(s: State, m: Message)
    ensures Flagged(s, m).stage == s.stage && Flagged(s, m).extended == s.extended
  {
  }

  lemma ExtendedMeans(s: State, hs: Handshakes, m: Message)
    ensures match ExtendedAction(s, hs, m)
            case Skip => false
            case Refuse(_) => true
            case Invoke(c) =>
              && (c == OnExtHandShake ==>
                    m.extendedID == 0 && m.extendedPayload in hs && s.extended == 0 < hs[m.extendedPayload])
              && (c != OnExtHandShake ==> c == OnPayload(m.extendedID, m.extendedPayload) && s.extended > 0)
  {
  }

  lemma FrameAtStep(max: Uint32, input: Bytes, k: nat)
    requires Unframe(input, max).Got?
    ensures FrameAt(max, input, 0) == Some(Unframe(input, max).m)
    ensures k > 0 ==> FrameAt(max, input, k) == FrameAt(max, Unframe(input, max).rest, k - 1)
  {
    hide Unframe;
  }

  lemma FaithfulSkip(max: Uint32, input: Bytes, k: nat, t: seq<Entry>)
    requires Unframe(input, max).Got? && Faithful(max, Unframe(input, max).rest, k + 1, t)
    ensures Faithful(max, input, k, t)
  {
    hide FrameAt, Unframe, Carries;
    forall i | 0 <= i < |t| ensures CarriesFrame(max, input, k, t[i]) {
      assert CarriesFrame(max, Unframe(input, max).rest, k + 1, t[i]);
      FrameAtStep(max, input, t[i].frame - k);
    }
  }

  lemma FaithfulCons(max: Uint32, input: Bytes, k: nat, e: Entry, t: seq<Entry>)
    requires Unframe(input, max).Got? && e.frame == k && Carries(e.call, Unframe(input, max).m)
    requires Faithful(max, Unframe(input, max).rest, k + 1, t)
    ensures Faithful(max, input, k, [e] + t)
  {
    hide FrameAt, Unframe, Carries;
    FaithfulSkip(max, input, k, t);
    FrameAtStep(max, input, 0);
  }

  lemma GaplessSkip(max: Uint32, input: Bytes, k: nat, t: seq<Entry>)
    requires Unframe(input, max).Got? && Unframe(input, max).m.keepalive
    requires Gapless(max, Unframe(input, max).rest, k + 1, t)
    ensures Gapless(max, input, k, t)
  {
    hide FrameAt, Unframe, CalledBefore;
    forall i: nat, f: nat | i < |t| && k <= f < t[i].frame ensures Accounted(max, input, k, t, i, f) {
      FrameAtStep(max, input, f - k);
      assert f > k ==> Accounted(max, Unframe(input, max).rest, k + 1, t, i, f);
    }
  }

  lemma GaplessCons(max: Uint32, input: Bytes, k: nat, e: Entry, t: seq<Entry>)
    requires Unframe(input, max).Got? && e.frame == k
    requires Gapless(max, Unframe(input, max).rest, k + 1, t)
    ensures Gapless(max, input, k, [e] + t)
  {
    hide FrameAt, Unframe;
    var all := [e] + t;
    forall i: nat, f: nat | i < |all| && k <= f < all[i].frame ensures Accounted(max, input, k, all, i, f) {
      assert all[0].frame == k && all[i] == t[i - 1];
      FrameAtStep(max, input, f - k);
      FrameAtStep(max, input, 0);
      if f > k {
        assert Accounted(max, Unframe(input, max).rest, k + 1, t, i - 1, f);
        if CalledBefore(t, i - 1, f) {
          var j :| 0 <= j < i - 1 && j < |t| && t[j].frame == f;
          assert all[j + 1] == t[j];
        }
      }
    }
  }

  lemma OrderedCons(k: nat, e: Entry, t: seq<Entry>)
    requires e.frame == k && Dispatch(e.call) && (e.ok || t == []) && Ordered(k + 1, t)
    ensures Ordered(k, [e] + t)
  {
    hide Dispatch;
    var all := [e] + t;
    forall i | 0 <= i < |all| ensures Dispatch(all[i].call) && k <= all[i].frame {
      assert i > 0 ==> all[i] == t[i - 1];
    }
    forall i, j | 0 <= i < j < |all| ensures all[i].frame < all[j].frame && all[i].ok {
      assert all[j] == t[j - 1];
      assert i > 0 ==> all[i] == t[i - 1];
    }
  }

  /** After the first frame the connection is past the stage that allows an opening message. */
  lemma StagedCons(s: State, s': State, k: nat, e: Entry, t: seq<Entry>)
    requires e.frame == k && (Opening(e.call) ==> s.stage == Handshook)
    requires s'.stage != Handshook && Staged(s', k + 1, t)
    ensures Staged(s, k, [e] + t) && Staged(s, k, t)
  {
    hide Opening;
    var all := [e] + t;
    assert forall i :: 0 < i < |all| ==> all[i] == t[i - 1];
  }

  lemma ExtendingCons(s: State, s': State, e: Entry, t: seq<Entry>)
    requires e.ok || t == []
    requires Extending(s', t)
    requires e.call == OnExtHandShake ==> s.extended == 0 < s'.extended
    requires e.call != OnExtHandShake ==> s'.extended == s.extended
    requires e.call.OnPayload? ==> s.extended > 0
    ensures Extending(s, [e] + t)
  {
    var all := [e] + t;
    forall i | 0 <= i < |all| && all[i].call == OnExtHandShake ensures s.extended == 0 {
      assert i > 0 ==> all[i] == t[i - 1];
    }
    forall i, j | 0 <= i < j < |all| && all[i].call == OnExtHandShake ensures all[j].call != OnExtHandShake {
      assert all[j] == t[j - 1];
      assert i > 0 ==> all[i] == t[i - 1];
    }
    forall j | 0 <= j < |all| && all[j].call.OnPayload? ensures s.extended > 0 || ShakenBefore(all, j) {
      if j > 0 && s.extended == 0 {
        assert all[j] == t[j - 1];
        if e.call == OnExtHandShake {
          assert all[0] == e;
        } else {
          var i :| 0 <= i < j - 1 && i < |t| && t[i].call == OnExtHandShake && t[i].ok;
          assert all[i + 1] == t[i];
        }
      }
    }
  }

  lemma SafeNothing(s: State, max: Uint32, input: Bytes, k: nat)
    ensures Safe(s, max, input, k, [])
  {
    hide FrameAt, Unframe;
  }

  lemma SafeCons(s: State, s': State, max: Uint32, input: Bytes, k: nat, e: Entry, t: seq<Entry>)
    requires Unframe(input, max).Got? && Timely(s, Unframe(input, max).m)
    requires e.frame == k && Means(s, s', Unframe(input, max).m, e.call) && (e.ok || t == [])
    requires s'.stage != Handshook && Safe(s', max, Unframe(input, max).rest, k + 1, t)
    ensures Safe(s, max, input, k, [e] + t)
  {
    hide Unframe, Ordered, Faithful, Gapless, Staged, Extending;
    FaithfulCons(max, input, k, e, t);
    GaplessCons(max, input, k, e, t);
    OrderedCons(k, e, t);
    StagedCons(s, s', k, e, t);
    ExtendingCons(s, s', e, t);
  }

  lemma SafeSkip(s: State, s': State, max: Uint32, input: Bytes, k: nat, t: seq<Entry>)
    requires Unframe(input, max).Got? && Unframe(input, max).m.keepalive
    requires s'.stage != Handshook && s'.extended == s.extended
    requires Safe(s', max, Unframe(input, max).rest, k + 1, t)
    ensures Safe(s, max, input, k, t)
  {
    hide Unframe, Faithful, Gapless;
    FaithfulSkip(max, input, k, t);
    GaplessSkip(max, input, k, t);
  }

  /** Every loop is safe, whatever the peer sends and however the handler answers. */
  lemma {:induction false} LoopIsSafe(s: State, can: Abilities, hs: Handshakes, max: Uint32, input: Bytes,
                                      answers: seq<bool>, k: nat)
    requires s.stage != Connected
    ensures Safe(s, max, input, k, Loop(s, can, hs, max, input, answers, k))
    decreases |input|
  {
    hide Safe, Unframe, Act, After, Means, Timely;
    var d := Unframe(input, max);
    SafeNothing(s, max, input, k);
    if d.Got? && Timely(s, d.m) {
      var s1 := Advance(s);
      var a, s' := Act(s1, can, hs, d.m), After(s1, can, hs, d.m);
      ActMeans(s1, can, hs, d.m);
      if a.Skip? {
        LoopIsSafe(s', can, hs, max, d.rest, answers, k + 1);
        SafeSkip(s, s', max, input, k, Loop(s', can, hs, max, d.rest, answers, k + 1));
      } else if a.Invoke? {
        MeansEarlier(s, s1, s', d.m, a.call);
        LoopIsSafe(s', can, hs, max, d.rest, Later(answers), k + 1);
        SafeNothing(s', max, d.rest, k + 1);
        SafeCons(s, s', max, input, k, Entry(a.call, k, true), Loop(s', can, hs, max, d.rest, Later(answers), k + 1));
        SafeCons(s, s', max, input, k, Entry(a.call, k, false), []);
        assert [Entry(a.call, k, false)] + [] == [Entry(a.call, k, false)];
      }
    }
  }

  lemma MeansEarlier(s: State, s1: State, s': State, m: Message, c: Call)
    requires Means(s1, s', m, c) && s1 == Advance(s)
    ensures Means(s, s', m, c)
  {
  }

  /**
    The calls of every connection: the handshake comes first; OnClose comes exactly once and
    last if and only if OnHandShake succeeded; between them is a safe loop.
   */
  lemma ServeIsSafe(can: Abilities, hs: Handshakes, max: Uint32, input: Bytes, writes: bool, answers: seq<bool>)
    ensures var t := Serve(can, hs, max, input, writes, answers);
            t == [] <==> Shake(ZERO_HASH, input, writes).Unshaken?
    ensures var t := Serve(can, hs, max, input, writes, answers);
            t != [] ==>
              && t[0].call == OnHandShake
              && (!t[0].ok ==> |t| == 1)
              && (t[0].ok ==> |t| >= 2 && t[|t| - 1] == CLOSED
                              && Safe(NEW.(stage := Handshook), max, input[HANDSHAKE_SIZE..], 0, t[1..|t| - 1]))
  {
    hide Safe, Loop, Accepts, Later;
    var shaken := Shake(ZERO_HASH, input, writes);
    if shaken.Shaken? {
      var s := NEW.(stage := Handshook);
      var calls := Loop(s, can, hs, max, shaken.rest, Later(answers), 0);
      LoopIsSafe(s, can, hs, max, shaken.rest, Later(answers), 0);
      assert ([Entry(OnHandShake, 0, true)] + calls + [CLOSED])[1..1 + |calls|] == calls;
    }
  }

  /** The number of times a call is made. */
  function Count(t: seq<Entry>, c: Call): nat
  {
    if t == [] then 0 else (if t[0].call == c then 1 else 0) + Count(t[1..], c)
  }

  lemma {:induction false} CountNone(t: seq<Entry>, c: Call)
    requires forall i :: 0 <= i < |t| ==> t[i].call != c
    ensures Count(t, c) == 0
  {
    if t != [] { CountNone(t[1..], c); }
  }

  lemma {:induction false} CountAppend(a: seq<Entry>, b: seq<Entry>, c: Call)
    ensures Count(a + b, c) == Count(a, c) + Count(b, c)
  {
    if a == [] {
      assert a + b == b;
    } else {
      CountAppend(a[1..], b, c);
      assert (a + b)[1..] == a[1..] + b;
    }
  }

  lemma CountOne(e: Entry, c: Call)
    ensures Count([e], c) == if e.call == c then 1 else 0
  {
    assert [e][1..] == [];
  }

  /** OnClose runs exactly once if OnHandShake succeeded, and not at all otherwise. */
  lemma CloseExactlyOnce(can: Abilities, hs: Handshakes, max: Uint32, input: Bytes, writes: bool, answers: seq<bool>)
    ensures var t := Serve(can, hs, max, input, writes, answers);
            Count(t, OnClose) == if t != [] && t[0].ok then 1 else 0
  {
    hide Serve, Count, Faithful, Gapless, Staged, Extending, Shake;
    var t := Serve(can, hs, max, input, writes, answers);
    ServeIsSafe(can, hs, max, input, writes, answers);
    if t == [] {
      CountNone(t, OnClose);
    } else {
      CountOne(t[0], OnClose);
      if t[0].ok {
        var calls := t[1..|t| - 1];
        assert t == [t[0]] + (calls + [CLOSED]);
        CountAppend([t[0]], calls + [CLOSED], OnClose);
        CountAppend(calls, [CLOSED], OnClose);
        CountNone(calls, OnClose);
        CountOne(CLOSED, OnClose);
      } else {
        assert t == [t[0]];
      }
    }
  }

  /** Spelled out over a whole connection, from the first call to the last. */
  lemma ConnectionIsSafe(can: Abilities, hs: Handshakes, max: Uint32, input: Bytes, writes: bool, answers: seq<bool>,
                         i: nat, j: nat)
    requires var t := Serve(can, hs, max, input, writes, answers); i < j < |t|
    ensures var t := Serve(can, hs, max, input, writes, answers);
            // nothing is dispatched after an error
            && (!t[i].ok ==> t[j] == CLOSED)
            // BitField, HaveAll and HaveNone only as the very first frame
            && (Opening(t[j].call) ==> t[j].frame == 0)
            // OnExtHandShake at most once, and OnPayload only after it succeeded
            && !(t[i].call == OnExtHandShake && t[j].call == OnExtHandShake)
            && (t[j].call.OnPayload? ==> ShakenBefore(t, j))
  {
    hide Serve, Faithful, Gapless, Shake;
    var t := Serve(can, hs, max, input, writes, answers);
    ServeIsSafe(can, hs, max, input, writes, answers);
    assert t[0].ok;
    var calls := t[1..|t| - 1];
    assert i > 0 && i < |t| - 1 ==> t[i] == calls[i - 1];
    assert j < |t| - 1 ==> t[j] == calls[j - 1];
    if t[j].call.OnPayload? {
      assert ShakenBefore(calls, j - 1);
      var x :| 0 <= x < j - 1 && x < |calls| && calls[x].call == OnExtHandShake && calls[x].ok;
      assert t[x + 1] == calls[x];
    }
  }

  // ---------- Extensions ----------

  /** A call that an extension governs is made only if we announced that extension. */
  predicate Gated(can: Abilities, c: Call)
  {
    match c
    case OnMessage(m) => GatedType(can, m.typ)
    case OnTyped(m) => GatedType(can, m.typ) && TypedFor(can, m.typ)
    case OnExtHandShake => can.extended && can.bep10
    case OnPayload(_, _) => can.extended && can.bep10
    case _ => true
  }

  predicate GatedType(can: Abilities, t: Byte)
  {
    && (t == PORT ==> can.dht)
    && (t in [SUGGEST, HAVE_ALL, HAVE_NONE, REJECT, ALLOWED_FAST] ==> can.fast)
    && (t == EXTENDED ==> can.extended)
  }

  /** The interface that has a method for the type. */
  predicate TypedFor(can: Abilities, t: Byte)
  {
    && (t <= CANCEL ==> can.bep3)
    && (t == PORT ==> can.bep5)
    && (t in [SUGGEST, HAVE_ALL, HAVE_NONE, REJECT, ALLOWED_FAST] ==> can.bep6)
  }

  lemma RouteIsGated(can: Abilities, t: Byte)
    ensures match RouteOf(can, t)
            case Plain(typed) => GatedType(can, t) && (typed ==> TypedFor(can, t))
            case Ext => can.extended && can.bep10
            case Blocked(_) => !GatedType(can, t)
  {
  }

  lemma ActIsGated(s: State, can: Abilities, hs: Handshakes, m: Message)
    ensures Act(s, can, hs, m).Invoke? ==> Gated(can, Act(s, can, hs, m).call)
  {
    hide RouteOf, GatedType, TypedFor;
    RouteIsGated(can, m.typ);
  }

  /** No call of any connection goes past an extension that is off or an interface that is missing. */
  lemma {:induction false} LoopIsGated(s: State, can: Abilities, hs: Handshakes, max: Uint32, input: Bytes,
                                       answers: seq<bool>, k: nat, i: nat)
    requires i < |Loop(s, can, hs, max, input, answers, k)|
    ensures Gated(can, Loop(s, can, hs, max, input, answers, k)[i].call)
    decreases |input|
  {
    hide Unframe, Act, After, Timely, Gated;
    var d, s1 := Unframe(input, max), Advance(s);
    var a, s' := Act(s1, can, hs, d.m), After(s1, can, hs, d.m);
    ActIsGated(s1, can, hs, d.m);
    if a.Skip? {
      LoopIsGated(s', can, hs, max, d.rest, answers, k + 1, i);
    } else if i > 0 {
      LoopIsGated(s', can, hs, max, d.rest, Later(answers), k + 1, i - 1);
    }
  }

  // ---------- Which frames get a call ----------

  /** An extended handshake. */
  predicate Shakes(m: Message)
  {
    !m.keepalive && m.typ == 20 && m.extendedID == 0
  }

  /** The extension bit that governs the type is on. */
  predicate BitOn(can: Abilities, t: Byte)
  {
    (t == 9 ==> can.dht) && (13 <= t <= 17 ==> can.fast) && (t == 20 ==> can.extended)
  }

  /** A frame that must get a call, once all frames before it were handled. */
  predicate Due(can: Abilities, hs: Handshakes, m: Message, first: bool, shook: bool)
  {
    && !m.keepalive
    && (m.typ in [5, 14, 15] ==> first)
    && BitOn(can, m.typ)
    && (m.typ == 20 && can.bep10 ==>
          if m.extendedID == 0 then !shook && m.extendedPayload in hs && hs[m.extendedPayload] > 0 else shook)
  }

  /** The handler has an interface with a method for the type. */
  predicate HasInterface(can: Abilities, t: Byte)
  {
    (t <= 8 && can.bep3) || (t == 9 && can.bep5) || (13 <= t <= 17 && can.bep6)
  }

  /** The call that a due frame gets. */
  function Expected(can: Abilities, m: Message): Call
  {
    if m.typ == 20 && can.bep10 then
      if m.extendedID == 0 then OnExtHandShake else OnPayload(m.extendedID, m.extendedPayload)
    else if HasInterface(can, m.typ) then OnTyped(m)
    else OnMessage(m)
  }

  lemma RouteExactly(can: Abilities, t: Byte)
    ensures RouteOf(can, t).Blocked? <==> !BitOn(can, t)
    ensures RouteOf(can, t).Ext? <==> t == 20 && can.extended && can.bep10
    ensures RouteOf(can, t).Plain? ==> (RouteOf(can, t).typed <==> HasInterface(can, t))
  {
  }

  lemma ExtendedExactly(s: State, hs: Handshakes, m: Message)
    ensures var a := ExtendedAction(s, hs, m);
            && !a.Skip?
            && (a.Invoke? <==> if m.extendedID == 0 then s.extended == 0 && m.extendedPayload in hs && hs[m.extendedPayload] > 0
                               else s.extended > 0)
            && (a.Invoke? ==> a.call == if m.extendedID == 0 then OnExtHandShake
                                        else OnPayload(m.extendedID, m.extendedPayload))
  {
  }

  lemma TimelyExactly(s: State, m: Message)
    ensures Timely(s, m) <==> (m.typ in [5, 14, 15] ==> s.stage == Handshook)
  {
  }

  lemma EarlierFlags(s: State)
    requires s.stage != Connected
    ensures Advance(s).stage == Messaging && Advance(s).extended == s.extended
  {
  }

  /** One message: it is called for exactly if it is due, and then with the expected call. */
  lemma DueExactly(s: State, can: Abilities, hs: Handshakes, m: Message, shook: bool)
    requires s.stage != Connected && (can.bep10 ==> shook == (s.extended > 0))
    ensures var a := Act(Advance(s), can, hs, m);
            && (a.Skip? <==> m.keepalive)
            && (Timely(s, m) && a.Invoke? <==> Due(can, hs, m, s.stage == Handshook, shook))
            && (a.Invoke? ==> a.call == Expected(can, m))
  {
    hide RouteOf, ExtendedAction, Timely, BitOn, HasInterface, Advance;
    EarlierFlags(s);
    RouteExactly(can, m.typ);
    BitOfExtended(can);
    ExtendedExactly(Advance(s), hs, m);
    TimelyExactly(s, m);
  }

  /** An accepted extended handshake, and nothing else, is remembered. */
  lemma ShakeIsRemembered(s: State, can: Abilities, hs: Handshakes, m: Message)
    requires can.bep10 && !Act(s, can, hs, m).Refuse?
    ensures (After(s, can, hs, m).extended > 0) == (s.extended > 0 || Shakes(m))
  {
    hide RouteOf, ExtendedAction, Flagged, BitOn, HasInterface;
    FlagsOnly(s, m);
    RouteExactly(can, m.typ);
    ExtendedExactly(s, hs, m);
    BitOfExtended(can);
  }

  lemma BitOfExtended(can: Abilities)
    ensures BitOn(can, 20) <==> can.extended
  {
  }

  ghost predicate ShookBefore(max: Uint32, input: Bytes, f: nat)
  {
    exists g: nat :: g < f && FrameAt(max, input, g).Some? && Shakes(FrameAt(max, input, g).value)
  }

  /** Frame f is due; `opening` tells whether the very first frame of the conversation is frame 0. */
  ghost predicate DueAt(can: Abilities, hs: Handshakes, max: Uint32, input: Bytes, opening: bool, shook: bool, f: nat)
  {
    && FrameAt(max, input, f).Some?
    && Due(can, hs, FrameAt(max, input, f).value, opening && f == 0, shook || ShookBefore(max, input, f))
  }

  ghost predicate HasEntry(t: seq<Entry>, n: nat)
  {
    exists i :: 0 <= i < |t| && t[i].frame == n
  }

  ghost predicate OkEntry(t: seq<Entry>, n: nat)
  {
    exists i :: 0 <= i < |t| && t[i].frame == n && t[i].ok
  }

  /** Frame f was handled and the loop went on: a keepalive, or due and accepted by the handler. */
  ghost predicate Passed(can: Abilities, hs: Handshakes, max: Uint32, input: Bytes, opening: bool, shook: bool,
                         t: seq<Entry>, k: nat, f: nat)
  {
    && FrameAt(max, input, f).Some?
    && (FrameAt(max, input, f).value.keepalive
        || (DueAt(can, hs, max, input, opening, shook, f) && OkEntry(t, k + f)))
  }

  ghost predicate AllPassed(can: Abilities, hs: Handshakes, max: Uint32, input: Bytes, opening: bool, shook: bool,
                            t: seq<Entry>, k: nat, n: nat)
  {
    forall f: nat :: f < n ==> Passed(can, hs, max, input, opening, shook, t, k, f)
  }

  lemma ShookShift(max: Uint32, input: Bytes, f: nat)
    requires Unframe(input, max).Got? && f > 0
    ensures ShookBefore(max, input, f)
            <==> Shakes(Unframe(input, max).m) || ShookBefore(max, Unframe(input, max).rest, f - 1)
  {
    hide FrameAt, Unframe, Shakes;
    var d := Unframe(input, max);
    FrameAtStep(max, input, 0);
    if ShookBefore(max, input, f) {
      var g: nat :| g < f && FrameAt(max, input, g).Some? && Shakes(FrameAt(max, input, g).value);
      FrameAtStep(max, input, g);
      assert g > 0 ==> FrameAt(max, d.rest, g - 1) == FrameAt(max, input, g);
    }
    if ShookBefore(max, d.rest, f - 1) {
      var g: nat :| g < f - 1 && FrameAt(max, d.rest, g).Some? && Shakes(FrameAt(max, d.rest, g).value);
      FrameAtStep(max, input, g + 1);
      assert FrameAt(max, input, g + 1) == FrameAt(max, d.rest, g);
    }
    if Shakes(d.m) { assert FrameAt(max, input, 0) == Some(d.m); }
  }

  /** Seen from behind the first frame, later frames are due alike. */
  lemma DueShift(can: Abilities, hs: Handshakes, max: Uint32, input: Bytes, opening: bool, shook: bool, f: nat)
    requires Unframe(input, max).Got? && f > 0
    ensures FrameAt(max, input, f) == FrameAt(max, Unframe(input, max).rest, f - 1)
    ensures DueAt(can, hs, max, input, opening, shook, f)
            <==> DueAt(can, hs, max, Unframe(input, max).rest, false, shook || Shakes(Unframe(input, max).m), f - 1)
  {
    hide FrameAt, Unframe, Shakes, Due, ShookBefore;
    FrameAtStep(max, input, f);
    ShookShift(max, input, f);
  }

  /** Before the first frame the shifted entries are those of the rest. */
  lemma EntryShift(e: Entry, t: seq<Entry>, k: nat, f: nat)
    requires e.frame == k && f > 0
    ensures HasEntry([e] + t, k + f) <==> HasEntry(t, k + f)
    ensures OkEntry([e] + t, k + f) <==> OkEntry(t, k + f)
    ensures HasEntry([e] + t, k) && (e.ok ==> OkEntry([e] + t, k))
  {
    var all := [e] + t;
    assert all[0] == e;
    assert forall i :: 0 < i < |all| ==> all[i] == t[i - 1];
    if HasEntry(t, k + f) {
      var i :| 0 <= i < |t| && t[i].frame == k + f;
      assert all[i + 1] == t[i];
    }
    if OkEntry(t, k + f) {
      var i :| 0 <= i < |t| && t[i].frame == k + f && t[i].ok;
      assert all[i + 1] == t[i];
    }
  }

  /** From frame k + 1 on, the two traces have entries alike. */
  ghost predicate SameAfter(t: seq<Entry>, t': seq<Entry>, k: nat)
  {
    forall n: nat :: n > k ==> (OkEntry(t, n) <==> OkEntry(t', n)) && (HasEntry(t, n) <==> HasEntry(t', n))
  }

  lemma ConsSameAfter(e: Entry, t: seq<Entry>, k: nat)
    requires e.frame == k
    ensures SameAfter([e] + t, t, k)
  {
    hide OkEntry, HasEntry;
    forall n: nat | n > k
      ensures (OkEntry([e] + t, n) <==> OkEntry(t, n)) && (HasEntry([e] + t, n) <==> HasEntry(t, n))
    {
      EntryShift(e, t, k, n - k);
    }
  }

  lemma PassedShiftOne(can: Abilities, hs: Handshakes, max: Uint32, input: Bytes, opening: bool, shook: bool,
                       t: seq<Entry>, t': seq<Entry>, k: nat, f: nat)
    requires Unframe(input, max).Got? && f > 0 && SameAfter(t, t', k)
    ensures Passed(can, hs, max, input, opening, shook, t, k, f)
            <==> Passed(can, hs, max, Unframe(input, max).rest, false, shook || Shakes(Unframe(input, max).m),
                        t', k + 1, f - 1)
  {
    hide FrameAt, Unframe, Shakes, DueAt, OkEntry, HasEntry;
    DueShift(can, hs, max, input, opening, shook, f);
    assert k + f == k + 1 + (f - 1);
  }

  /** If frame 0 passed, all frames below n passed exactly if those of the rest below n - 1 did. */
  lemma PassedShift(can: Abilities, hs: Handshakes, max: Uint32, input: Bytes, opening: bool, shook: bool,
                    t: seq<Entry>, t': seq<Entry>, k: nat, n: nat)
    requires Unframe(input, max).Got? && n > 0 && SameAfter(t, t', k)
    requires Passed(can, hs, max, input, opening, shook, t, k, 0)
    ensures AllPassed(can, hs, max, input, opening, shook, t, k, n)
            <==> AllPassed(can, hs, max, Unframe(input, max).rest, false, shook || Shakes(Unframe(input, max).m),
                           t', k + 1, n - 1)
  {
    hide Unframe, Shakes, Passed, SameAfter;
    var rest, shook', k' := Unframe(input, max).rest, shook || Shakes(Unframe(input, max).m), k + 1;
    if AllPassed(can, hs, max, input, opening, shook, t, k, n) {
      forall f: nat | f < n - 1 ensures Passed(can, hs, max, rest, false, shook', t', k', f) {
        PassedShiftOne(can, hs, max, input, opening, shook, t, t', k, f + 1);
        assert Passed(can, hs, max, input, opening, shook, t, k, f + 1);
      }
    }
    if AllPassed(can, hs, max, rest, false, shook', t', k', n - 1) {
      forall f: nat | f < n ensures Passed(can, hs, max, input, opening, shook, t, k, f) {
        if f > 0 {
          PassedShiftOne(can, hs, max, input, opening, shook, t, t', k, f);
          assert Passed(can, hs, max, rest, false, shook', t', k', f - 1);
        }
      }
    }
  }

  /** Frames below k have no entry. */
  lemma NoEarlierEntry(k: nat, t: seq<Entry>, n: nat)
    requires Ordered(k, t) && n < k
    ensures !HasEntry(t, n) && !OkEntry(t, n)
  {
  }

  /** Nothing was called for and nothing passed: no frame gets a call. */
  lemma Stopped(can: Abilities, hs: Handshakes, max: Uint32, input: Bytes, opening: bool, shook: bool,
                t: seq<Entry>, k: nat, n: nat)
    requires t == [] && !DueAt(can, hs, max, input, opening, shook, 0)
    requires FrameAt(max, input, 0).Some? ==> !FrameAt(max, input, 0).value.keepalive
    ensures !HasEntry(t, k + n)
    ensures !(AllPassed(can, hs, max, input, opening, shook, t, k, n) && DueAt(can, hs, max, input, opening, shook, n))
  {
    hide FrameAt, DueAt;
    if n > 0 { assert !Passed(can, hs, max, input, opening, shook, t, k, 0); }
  }

  /** A due frame that the handler refuses is the last. */
  lemma Refused(can: Abilities, hs: Handshakes, max: Uint32, input: Bytes, opening: bool, shook: bool,
                e: Entry, k: nat, n: nat)
    requires !e.ok && e.frame == k && DueAt(can, hs, max, input, opening, shook, 0)
    requires FrameAt(max, input, 0).Some? && !FrameAt(max, input, 0).value.keepalive
    ensures HasEntry([e], k + n) <==>
              AllPassed(can, hs, max, input, opening, shook, [e], k, n) && DueAt(can, hs, max, input, opening, shook, n)
  {
    hide FrameAt, DueAt;
    assert [e][0] == e;
    if n > 0 { assert !Passed(can, hs, max, input, opening, shook, [e], k, 0); }
  }

  /** Frame 0 passed: what holds of the rest holds of the whole. */
  lemma WentOn(can: Abilities, hs: Handshakes, max: Uint32, input: Bytes, opening: bool, shook: bool,
               t: seq<Entry>, t': seq<Entry>, k: nat, n: nat)
    requires Unframe(input, max).Got? && n > 0 && SameAfter(t, t', k)
    requires Passed(can, hs, max, input, opening, shook, t, k, 0)
    requires var rest, shook' := Unframe(input, max).rest, shook || Shakes(Unframe(input, max).m);
             HasEntry(t', k + 1 + (n - 1)) <==>
               AllPassed(can, hs, max, rest, false, shook', t', k + 1, n - 1)
               && DueAt(can, hs, max, rest, false, shook', n - 1)
    ensures HasEntry(t, k + n) <==>
              AllPassed(can, hs, max, input, opening, shook, t, k, n) && DueAt(can, hs, max, input, opening, shook, n)
  {
    hide FrameAt, Unframe, Shakes, DueAt, OkEntry, HasEntry, AllPassed, Passed;
    DueShift(can, hs, max, input, opening, shook, n);
    PassedShift(can, hs, max, input, opening, shook, t, t', k, n);
    assert k + 1 + (n - 1) == k + n;
  }

  /** One round of the loop, with every outcome. */
  lemma LoopRound(s: State, can: Abilities, hs: Handshakes, max: Uint32, input: Bytes, answers: seq<bool>, k: nat)
    ensures var d := Unframe(input, max);
            var t := Loop(s, can, hs, max, input, answers, k);
            && (!d.Got? ==> t == [])
            && (d.Got? ==>
                  var a, s' := Act(Advance(s), can, hs, d.m), After(Advance(s), can, hs, d.m);
                  && (!Timely(s, d.m) || a.Refuse? ==> t == [])
                  && (Timely(s, d.m) && a.Skip? ==> t == Loop(s', can, hs, max, d.rest, answers, k + 1))
                  && (Timely(s, d.m) && a.Invoke? && Accepts(answers) ==>
                        t == [Entry(a.call, k, true)] + Loop(s', can, hs, max, d.rest, Later(answers), k + 1))
                  && (Timely(s, d.m) && a.Invoke? && !Accepts(answers) ==> t == [Entry(a.call, k, false)]))
  {
    hide Unframe, Act, After, Timely, Advance, Accepts, Later;
  }

  lemma FirstDue(can: Abilities, hs: Handshakes, max: Uint32, input: Bytes, opening: bool, shook: bool)
    ensures !Unframe(input, max).Got? ==>
              FrameAt(max, input, 0) == None && !DueAt(can, hs, max, input, opening, shook, 0)
    ensures Unframe(input, max).Got? ==>
              && FrameAt(max, input, 0) == Some(Unframe(input, max).m)
              && (DueAt(can, hs, max, input, opening, shook, 0) <==> Due(can, hs, Unframe(input, max).m, opening, shook))
  {
    hide Unframe, Due;
    assert !ShookBefore(max, input, 0);
  }

  lemma KeepaliveIsTimely(s: State, max: Uint32, input: Bytes)
    requires Unframe(input, max).Got? && Unframe(input, max).m.keepalive
    ensures Timely(s, Unframe(input, max).m)
  {
    hide Unframe;
    UnframeIsNormal(input, max);
  }

  /**
    A frame gets a call if and only if all frames before it were handled and went on, and it is
    itself due: whatever the peer sends and however the handler answers.
   */
  lemma {:induction false} CalledExactly(s: State, can: Abilities, hs: Handshakes, max: Uint32, input: Bytes,
                                         answers: seq<bool>, k: nat, shook: bool, n: nat)
    requires s.stage != Connected && (can.bep10 ==> shook == (s.extended > 0))
    ensures var t := Loop(s, can, hs, max, input, answers, k);
            HasEntry(t, k + n) <==>
              && AllPassed(can, hs, max, input, s.stage == Handshook, shook, t, k, n)
              && DueAt(can, hs, max, input, s.stage == Handshook, shook, n)
    decreases |input|
  {
    hide Unframe, Act, After, Timely, Due, Shakes, HasEntry, OkEntry, Ordered, Loop, FrameAt, Expected, DueAt, Means;
    hide Advance, AllPassed;
    var t, d, opening := Loop(s, can, hs, max, input, answers, k), Unframe(input, max), s.stage == Handshook;
    LoopRound(s, can, hs, max, input, answers, k);
    FirstDue(can, hs, max, input, opening, shook);
    if !d.Got? {
      Stopped(can, hs, max, input, opening, shook, t, k, n);
    } else {
      DueExactly(s, can, hs, d.m, shook);
      var s1 := Advance(s);
      var a, s' := Act(s1, can, hs, d.m), After(s1, can, hs, d.m);
      ActMeans(s1, can, hs, d.m);
      EarlierFlags(s);
      if can.bep10 && !a.Refuse? { ShakeIsRemembered(s1, can, hs, d.m); }
      var shook' := shook || Shakes(d.m);
      if d.m.keepalive {
        KeepaliveIsTimely(s, max, input);
        LoopSkips(s', can, hs, max, d.rest, answers, k + 1, k);
        if n > 0 {
          CalledExactly(s', can, hs, max, d.rest, answers, k + 1, shook', n - 1);
          assert SameAfter(t, t, k);
          WentOn(can, hs, max, input, opening, shook, t, t, k, n);
        } else {
          NoneBefore(can, hs, max, input, opening, shook, t, k);
        }
      } else if !Due(can, hs, d.m, opening, shook) {
        Stopped(can, hs, max, input, opening, shook, t, k, n);
      } else if !Accepts(answers) {
        Refused(can, hs, max, input, opening, shook, Entry(a.call, k, false), k, n);
      } else {
        var e, t' := Entry(a.call, k, true), Loop(s', can, hs, max, d.rest, Later(answers), k + 1);
        ConsSameAfter(e, t', k);
        EntryShift(e, t', k, 1);
        if n > 0 {
          CalledExactly(s', can, hs, max, d.rest, Later(answers), k + 1, shook', n - 1);
          WentOn(can, hs, max, input, opening, shook, t, t', k, n);
        } else {
          NoneBefore(can, hs, max, input, opening, shook, t, k);
        }
      }
    }
  }

  lemma NoneBefore(can: Abilities, hs: Handshakes, max: Uint32, input: Bytes, opening: bool, shook: bool,
                   t: seq<Entry>, k: nat)
    ensures AllPassed(can, hs, max, input, opening, shook, t, k, 0)
  {
  }

  /** A loop that starts at frame k has no entry for an earlier frame. */
  lemma LoopSkips(s: State, can: Abilities, hs: Handshakes, max: Uint32, input: Bytes, answers: seq<bool>, k: nat, n: nat)
    requires s.stage != Connected && n < k
    ensures !HasEntry(Loop(s, can, hs, max, input, answers, k), n)
  {
    hide Loop, HasEntry, Ordered, Faithful, Gapless, Staged, Extending;
    LoopIsSafe(s, can, hs, max, input, answers, k);
    NoEarlierEntry(k, Loop(s, can, hs, max, input, answers, k), n);
  }

  /** Each call is the one expected for its frame, and is accepted as the handler answers it. */
  lemma {:induction false} CallsAreExpected(s: State, can: Abilities, hs: Handshakes, max: Uint32, input: Bytes,
                                            answers: seq<bool>, k: nat, i: nat)
    requires s.stage != Connected && i < |Loop(s, can, hs, max, input, answers, k)|
    ensures var e := Loop(s, can, hs, max, input, answers, k)[i];
            && k <= e.frame && FrameAt(max, input, e.frame - k).Some?
            && e.call == Expected(can, FrameAt(max, input, e.frame - k).value)
            && e.ok == (i >= |answers| || answers[i])
    decreases |input|
  {
    hide Unframe, Act, After, Timely, Loop, FrameAt, Expected, Means, Due, Advance;
    var t, d := Loop(s, can, hs, max, input, answers, k), Unframe(input, max);
    LoopRound(s, can, hs, max, input, answers, k);
    var s1 := Advance(s);
    var a, s' := Act(s1, can, hs, d.m), After(s1, can, hs, d.m);
    DueExactly(s, can, hs, d.m, s.extended > 0);
    ActMeans(s1, can, hs, d.m);
    EarlierFlags(s);
    FrameAtStep(max, input, 0);
    if a.Skip? {
      CallsAreExpected(s', can, hs, max, d.rest, answers, k + 1, i);
      FrameAtStep(max, input, t[i].frame - k);
    } else if i > 0 {
      assert Accepts(answers);
      CallsAreExpected(s', can, hs, max, d.rest, Later(answers), k + 1, i - 1);
      FrameAtStep(max, input, t[i].frame - k);
    }
  }

  /**
    Over a whole connection whose handshake and OnHandShake succeed: frame n gets a call if and only
    if it is due and every frame before it was a keepalive or due and accepted.
   */
  lemma ServedExactly(can: Abilities, hs: Handshakes, max: Uint32, input: Bytes, writes: bool, answers: seq<bool>, n: nat)
    requires Shake(ZERO_HASH, input, writes).Shaken? && Accepts(answers)
    ensures var t := Serve(can, hs, max, input, writes, answers);
            var frames := input[HANDSHAKE_SIZE..];
            && |t| >= 2
            && (HasEntry(t[1..|t| - 1], n) <==>
                  && AllPassed(can, hs, max, frames, true, false, t[1..|t| - 1], 0, n)
                  && DueAt(can, hs, max, frames, true, false, n))
  {
    hide Loop, Later, HasEntry, AllPassed, DueAt;
    var s, rest := NEW.(stage := Handshook), Shake(ZERO_HASH, input, writes).rest;
    var calls := Loop(s, can, hs, max, rest, Later(answers), 0);
    assert ([Entry(OnHandShake, 0, true)] + calls + [CLOSED])[1..1 + |calls|] == calls;
    CalledExactly(s, can, hs, max, rest, Later(answers), 0, false, n);
  }
}
