/** Two connected peers that exchange choke and interest messages over byte streams. */
module PeerLink {
  import opened ByteStrings
  import opened Wire
  import opened PeerConnection

  // ---------- The messages about one flag ----------

  predicate About(m: Message, f: Flag)
  {
    !m.keepalive && (m.typ == TypeOf(f, true) || m.typ == TypeOf(f, false))
  }

  function Announces(m: Message, f: Flag): seq<bool>
  {
    if About(m, f) then [m.typ == TypeOf(f, true)] else []
  }

  /** The values announced for a flag, in order. */
  function Announced(ms: seq<Message>, f: Flag): seq<bool>
  {
    if ms == [] then [] else Announces(ms[0], f) + Announced(ms[1..], f)
  }

  /** The receiver's view of a flag once it has handled the messages. */
  function Fold(ms: seq<Message>, f: Flag, seen: bool): bool
  {
    if ms == [] then seen
    else Fold(ms[1..], f, if About(ms[0], f) then ms[0].typ == TypeOf(f, true) else seen)
  }

  /** Each announced value differs from the one before it. */
  predicate Alternate(vs: seq<bool>, seen: bool)
  {
    forall i :: 0 <= i < |vs| ==> vs[i] == !Last(vs[..i], seen)
  }

  function Last(vs: seq<bool>, seen: bool): bool
  {
    if vs == [] then seen else vs[|vs| - 1]
  }

  lemma AlternateAppend(vs: seq<bool>, v: bool, seen: bool)
    requires Alternate(vs, seen) && v != Last(vs, seen)
    ensures Alternate(vs + [v], seen) && Last(vs + [v], seen) == v
  {
    var ws := vs + [v];
    forall i | 0 <= i < |ws| ensures ws[i] == !Last(ws[..i], seen) {
      assert i < |vs| ==> ws[i] == vs[i] && ws[..i] == vs[..i];
      assert i == |vs| ==> ws[..i] == vs;
    }
  }

  lemma AlternateDrop(vs: seq<bool>, seen: bool)
    requires vs != [] && Alternate(vs, seen)
    ensures Alternate(vs[1..], vs[0]) && Last(vs[1..], vs[0]) == Last(vs, seen)
  {
    var ws := vs[1..];
    forall i | 0 <= i < |ws| ensures ws[i] == !Last(ws[..i], vs[0]) {
      assert ws[i] == vs[i + 1] && (i > 0 ==> ws[i - 1] == vs[i]);
    }
  }

  lemma {:induction false} FoldIsLast(ms: seq<Message>, f: Flag, seen: bool)
    ensures Fold(ms, f, seen) == Last(Announced(ms, f), seen)
  {
    hide About;
    if ms != [] {
      FoldIsLast(ms[1..], f, if About(ms[0], f) then ms[0].typ == TypeOf(f, true) else seen);
    }
  }

  lemma {:induction false} AnnouncedAppend(ms: seq<Message>, m: Message, f: Flag)
    ensures Announced(ms + [m], f) == Announced(ms, f) + Announces(m, f)
  {
    hide Announces;
    if ms == [] {
      assert ms + [m] == [m] && [m][1..] == [];
      assert Announced([m][1..], f) == [];
    } else {
      AnnouncedAppend(ms[1..], m, f);
      assert (ms + [m])[0] == ms[0] && (ms + [m])[1..] == ms[1..] + [m];
      assert (Announces(ms[0], f) + Announced(ms[1..], f)) + Announces(m, f)
          == Announces(ms[0], f) + (Announced(ms[1..], f) + Announces(m, f));
    }
  }

  // ---------- One direction ----------

  /** The messages on their way. */
  function InFlight(wire: Bytes): Option<seq<Message>>
  {
    Unframes(wire, MAX_LENGTH)
  }

  ghost predicate AgreesOn(from: State, to: State, ms: seq<Message>, f: Flag)
  {
    Alternate(Announced(ms, f), Mirrored(to, f)) && Last(Announced(ms, f), Mirrored(to, f)) == Owned(from, f)
  }

  ghost predicate Agrees(from: State, to: State, wire: Bytes)
  {
    && InFlight(wire).Some?
    && (forall m :: m in InFlight(wire).value ==> Travels(m, MAX_LENGTH))
    && AgreesOn(from, to, InFlight(wire).value, Choking)
    && AgreesOn(from, to, InFlight(wire).value, Interest)
  }

  /** Sending appends one message to those in flight. */
  lemma Appended(wire: Bytes, m: Message)
    requires InFlight(wire).Some? && (forall x :: x in InFlight(wire).value ==> Travels(x, MAX_LENGTH))
    requires Travels(m, MAX_LENGTH)
    ensures InFlight(wire + Frame(m)) == Some(InFlight(wire).value + [m])
  {
    hide Travels, Frame, Unframes, Supported;
    var ms := InFlight(wire).value;
    forall x | x in ms ensures Supported(x) { TravelsSupported(x); }
    StreamReencodes(wire, MAX_LENGTH);
    StreamRoundTrip(ms + [m], MAX_LENGTH);
    FramesAppend(ms, m);
  }

  lemma TravelsSupported(m: Message)
    requires Travels(m, MAX_LENGTH)
    ensures Supported(m)
  {
  }

  lemma {:induction false} FramesAppend(ms: seq<Message>, m: Message)
    ensures Frames(ms + [m]) == Frames(ms) + Frame(m)
  {
    hide Frame;
    if ms == [] {
      assert [m][1..] == [] && Frames([m][1..]) == [];
      assert ms + [m] == [m];
    } else {
      FramesAppend(ms[1..], m);
      assert (ms + [m])[0] == ms[0] && (ms + [m])[1..] == ms[1..] + [m];
      ConcatAssociative(Frame(ms[0]), Frames(ms[1..]), Frame(m));
    }
  }

  /** Receiving takes the first message off those in flight. */
  lemma Removed(wire: Bytes)
    requires InFlight(wire).Some? && Unframe(wire, MAX_LENGTH).Got?
    ensures InFlight(wire).value != [] && InFlight(wire).value[0] == Unframe(wire, MAX_LENGTH).m
    ensures InFlight(Unframe(wire, MAX_LENGTH).rest) == Some(InFlight(wire).value[1..])
  {
    hide Unframe;
  }

  lemma NoticeTravels(f: Flag, on: bool)
    ensures Travels(Notice(f, on), MAX_LENGTH)
  {
  }

  /** A Set call keeps the sender's side of the agreement, whether or not it can write. */
  lemma AskKeeps(from: State, to: State, wire: Bytes, f: Flag, on: bool, writes: bool)
    requires Agrees(from, to, wire)
    ensures Agrees(Set(from, f, on, writes), to, wire + SetBytes(from, f, on, writes))
  {
    hide Travels, Frame, InFlight, Alternate, Announced;
    var from' := Set(from, f, on, writes);
    if writes && Owned(from, f) != on {
      var m, ms := Notice(f, on), InFlight(wire).value;
      NoticeTravels(f, on);
      Appended(wire, m);
      forall x | x in ms + [m] ensures Travels(x, MAX_LENGTH) { assert x in ms || x == m; }
      AppendAgrees(from, from', to, ms, m, Choking);
      AppendAgrees(from, from', to, ms, m, Interest);
    } else {
      assert wire + [] == wire;
    }
  }

  /** Appending a message that announces the sender's new value, or nothing about the flag. */
  lemma AppendAgrees(from: State, from': State, to: State, ms: seq<Message>, m: Message, f: Flag)
    requires AgreesOn(from, to, ms, f)
    requires if About(m, f) then Owned(from', f) == (m.typ == TypeOf(f, true)) != Owned(from, f)
             else Owned(from', f) == Owned(from, f)
    ensures AgreesOn(from', to, ms + [m], f)
  {
    hide About, Announced, Owned, Mirrored, Alternate, Last;
    AnnouncedAppend(ms, m, f);
    var vs := Announced(ms, f);
    if About(m, f) { AlternateAppend(vs, m.typ == TypeOf(f, true), Mirrored(to, f)); } else { assert vs + [] == vs; }
  }

  /** Any other message may be sent too. */
  lemma SendKeeps(from: State, to: State, wire: Bytes, m: Message)
    requires Agrees(from, to, wire) && Travels(m, MAX_LENGTH) && !About(m, Choking) && !About(m, Interest)
    ensures Agrees(from, to, wire + Frame(m))
  {
    hide Travels, Frame, InFlight, About, Announced;
    var ms := InFlight(wire).value;
    Appended(wire, m);
    forall x | x in ms + [m] ensures Travels(x, MAX_LENGTH) { assert x in ms || x == m; }
    AppendAgrees(from, from, to, ms, m, Choking);
    AppendAgrees(from, from, to, ms, m, Interest);
  }

  /** The receiver's state once it has read and handled a message. */
  function Received(s: State, can: Abilities, hs: Handshakes, m: Message): State
  {
    if Timely(s, m) then After(Advance(s), can, hs, m) else s
  }

  /** Receiving changes the mirrored flags as announced, and no flag of the receiver's own. */
  lemma ReceivedFlags(s: State, can: Abilities, hs: Handshakes, m: Message, f: Flag)
    ensures Owned(Received(s, can, hs, m), f) == Owned(s, f)
    ensures Mirrored(Received(s, can, hs, m), f) == if About(m, f) then m.typ == TypeOf(f, true) else Mirrored(s, f)
  {
    hide Act;
    OnlyExtendedShakes(Advance(s), can, hs, m);
  }

  lemma OnlyExtendedShakes(s: State, can: Abilities, hs: Handshakes, m: Message)
    ensures Act(s, can, hs, m) == Invoke(OnExtHandShake) ==> !m.keepalive && m.typ == EXTENDED
  {
    hide ExtendedAction, RouteOf;
    OnlyExtended(can, m.typ);
  }

  lemma DeliverKeeps(from: State, to: State, wire: Bytes, can: Abilities, hs: Handshakes)
    requires Agrees(from, to, wire) && Unframe(wire, MAX_LENGTH).Got?
    ensures var d := Unframe(wire, MAX_LENGTH); Agrees(from, Received(to, can, hs, d.m), d.rest)
  {
    hide Travels, Unframe, InFlight, Received, About, Announced;
    var d, ms := Unframe(wire, MAX_LENGTH), InFlight(wire).value;
    Removed(wire);
    var to' := Received(to, can, hs, d.m);
    ReceivedFlags(to, can, hs, d.m, Choking);
    ReceivedFlags(to, can, hs, d.m, Interest);
    RemoveAgrees(from, to, to', ms, Choking);
    RemoveAgrees(from, to, to', ms, Interest);
  }

  lemma RemoveAgrees(from: State, to: State, to': State, ms: seq<Message>, f: Flag)
    requires ms != [] && AgreesOn(from, to, ms, f)
    requires Mirrored(to', f) == if About(ms[0], f) then ms[0].typ == TypeOf(f, true) else Mirrored(to, f)
    ensures AgreesOn(from, to', ms[1..], f)
  {
    hide About, Owned, Mirrored, Alternate, Last;
    var vs, rest := Announced(ms, f), Announced(ms[1..], f);
    if About(ms[0], f) {
      AlternateDrop(vs, Mirrored(to, f));
      assert vs[1..] == rest;
    } else {
      assert vs == rest;
    }
  }

  // ---------- Both directions ----------

  datatype Link = Link(a: State, b: State, ab: Bytes, ba: Bytes)

  /** `left` selects the peer that acts. */
  datatype Event =
    | Ask(left: bool, f: Flag, on: bool, writes: bool)
    | Send(left: bool, m: Message)
    | Receive(left: bool, can: Abilities, hs: Handshakes)

  function Swap(l: Link): Link
  {
    Link(l.b, l.a, l.ba, l.ab)
  }

  /** Nobody announces a flag except through the Set calls, and only whole frames arrive. */
  predicate Enabled(l: Link, e: Event)
  {
    match e
    case Ask(_, _, _, _) => true
    case Send(_, m) => Travels(m, MAX_LENGTH) && !About(m, Choking) && !About(m, Interest)
    case Receive(left, _, _) => Unframe(if left then l.ba else l.ab, MAX_LENGTH).Got?
  }

  function StepLeft(l: Link, e: Event): Link
    requires Enabled(l, e) && e.left
  {
    match e
    case Ask(_, f, on, writes) => l.(a := Set(l.a, f, on, writes), ab := l.ab + SetBytes(l.a, f, on, writes))
    case Send(_, m) => l.(ab := l.ab + Frame(m))
    case Receive(_, can, hs) =>
      var d := Unframe(l.ba, MAX_LENGTH);
      l.(a := Received(l.a, can, hs, d.m), ba := d.rest)
  }

  function Step(l: Link, e: Event): Link
    requires Enabled(l, e)
  {
    if e.left then StepLeft(l, e) else Swap(StepLeft(Swap(l), e.(left := true)))
  }

  /** Two peers after their handshake, with nothing sent. */
  const START := Link(NEW.(stage := Handshook), NEW.(stage := Handshook), [], [])

  ghost predicate Linked(l: Link)
  {
    Agrees(l.a, l.b, l.ab) && Agrees(l.b, l.a, l.ba)
  }

  /** Agreement depends on the sender's own flags and the receiver's mirrored ones only. */
  lemma SameFlags(from: State, to: State, from': State, to': State, wire: Bytes)
    requires Agrees(from, to, wire)
    requires from'.choked == from.choked && from'.interested == from.interested
    requires to'.peerChoked == to.peerChoked && to'.peerInterested == to.peerInterested
    ensures Agrees(from', to', wire)
  {
  }

  lemma StepLeftKeeps(l: Link, e: Event)
    requires Enabled(l, e) && e.left && Linked(l)
    ensures Linked(StepLeft(l, e))
  {
    hide Agrees, Frame, Unframe, Received, About, Travels, SetBytes;
    var l' := StepLeft(l, e);
    match e {
      case Ask(_, f, on, writes) => {
        AskKeeps(l.a, l.b, l.ab, f, on, writes);
        SameFlags(l.b, l.a, l.b, l'.a, l.ba);
      }
      case Send(_, m) => { SendKeeps(l.a, l.b, l.ab, m); }
      case Receive(_, can, hs) => {
        DeliverKeeps(l.b, l.a, l.ba, can, hs);
        ReceivedFlags(l.a, can, hs, Unframe(l.ba, MAX_LENGTH).m, Choking);
        ReceivedFlags(l.a, can, hs, Unframe(l.ba, MAX_LENGTH).m, Interest);
        SameFlags(l.a, l.b, l'.a, l.b, l.ab);
      }
    }
  }

  lemma StepKeeps(l: Link, e: Event)
    requires Enabled(l, e) && Linked(l)
    ensures Linked(Step(l, e))
  {
    hide Agrees, StepLeft, Unframe, About, Travels;
    if e.left { StepLeftKeeps(l, e); } else { StepLeftKeeps(Swap(l), e.(left := true)); }
  }

  ghost predicate Runs(l: Link, es: seq<Event>, t: Link)
    decreases |es|
  {
    if es == [] then l == t else Enabled(l, es[0]) && Runs(Step(l, es[0]), es[1..], t)
  }

  lemma {:induction false} RunKeeps(l: Link, es: seq<Event>, t: Link)
    requires Runs(l, es, t) && Linked(l)
    ensures Linked(t)
    decreases |es|
  {
    hide Linked, Step, Enabled;
    if es != [] {
      StepKeeps(l, es[0]);
      RunKeeps(Step(l, es[0]), es[1..], t);
    }
  }

  lemma StartIsLinked()
    ensures Linked(START)
  {
    NothingToRead(MAX_LENGTH);
    assert InFlight([]) == Some([]);
  }

  /** What agreement means for one direction. */
  lemma AgreementMeans(from: State, to: State, wire: Bytes, f: Flag)
    requires Agrees(from, to, wire)
    ensures InFlight(wire).Some?
    ensures Fold(InFlight(wire).value, f, Mirrored(to, f)) == Owned(from, f)
    ensures Alternate(Announced(InFlight(wire).value, f), Mirrored(to, f))
    ensures wire == [] ==> Mirrored(to, f) == Owned(from, f)
  {
    hide Alternate, Unframe;
    FoldIsLast(InFlight(wire).value, f, Mirrored(to, f));
    NothingToRead(MAX_LENGTH);
  }

  /**
    In every interleaving of Set calls, other sends and receipts, at both ends and for both flags:
    the messages in flight lead the receiver's view to the sender's flag, they alternate, and
    when nothing is in flight the two are equal.
   */
  lemma PeersAgree(es: seq<Event>, t: Link, f: Flag)
    requires Runs(START, es, t)
    ensures InFlight(t.ab).Some? && InFlight(t.ba).Some?
    ensures Fold(InFlight(t.ab).value, f, Mirrored(t.b, f)) == Owned(t.a, f)
    ensures Fold(InFlight(t.ba).value, f, Mirrored(t.a, f)) == Owned(t.b, f)
    ensures Alternate(Announced(InFlight(t.ab).value, f), Mirrored(t.b, f))
    ensures Alternate(Announced(InFlight(t.ba).value, f), Mirrored(t.a, f))
    ensures t.ab == [] ==> Mirrored(t.b, f) == Owned(t.a, f)
    ensures t.ba == [] ==> Mirrored(t.a, f) == Owned(t.b, f)
  {
    hide Runs, Agrees, InFlight, Fold, Alternate, Announced, Owned, Mirrored;
    StartIsLinked();
    RunKeeps(START, es, t);
    AgreementMeans(t.a, t.b, t.ab, f);
    AgreementMeans(t.b, t.a, t.ba, f);
  }
}
