/** One end of a peer connection: its flags and stages, and how it treats each message. */
module PeerConnection {
  import opened ByteStrings
  import opened Wire
  import opened WireCodec

  datatype Stage = Connected | Handshook | Messaging

  /** The connection's own state; `extended` counts the ids of the peer's extended handshake. */
  datatype State = State(
    stage: Stage, choked: bool, interested: bool, peerChoked: bool, peerInterested: bool, extended: nat)

  const NEW := State(Connected, true, false, true, false, 0)

  /** The default limit on a message's body. */
  const MAX_LENGTH: Uint32 := 262144

  // ---------- The handshake ----------

  const HANDSHAKE_SIZE := 68

  const HEADER: Bytes := [0x13, 66, 105, 116, 84, 111, 114, 114, 101, 110, 116, 32, 112, 114, 111, 116, 111, 99, 111, 108]

  const ZERO_HASH: Bytes := [0, 0, 0, 0, 0, 0, 0, 0, 0, 0, 0, 0, 0, 0, 0, 0, 0, 0, 0, 0]

  datatype Shaken = Shaken(infohash: Bytes, rest: Bytes) | Unshaken

  /** `writes` tells whether our own handshake could be sent; a zero hash accepts the peer's. */
  function Shake(local: Bytes, input: Bytes, writes: bool): Shaken
  {
    if |input| < HANDSHAKE_SIZE || input[..20] != HEADER || !writes then Unshaken
    else if local == ZERO_HASH then Shaken(input[28..48], input[HANDSHAKE_SIZE..])
    else if local != input[28..48] then Unshaken
    else Shaken(local, input[HANDSHAKE_SIZE..])
  }

  /** The handshake that an end writes. */
  function HandshakeBytes(extBits: Bytes, infohash: Bytes, id: Bytes): Bytes
  {
    HEADER + extBits + infohash + id
  }

  /** A handshake is accepted if and only if the two ends want the same torrent, or one wants any. */
  lemma HandshakeAccepted(local: Bytes, extBits: Bytes, infohash: Bytes, id: Bytes, rest: Bytes)
    requires |extBits| == 8 && |infohash| == 20 && |id| == 20
    ensures Shake(local, HandshakeBytes(extBits, infohash, id) + rest, true)
            == if local == ZERO_HASH || local == infohash then Shaken(infohash, rest) else Unshaken
  {
    hide HEADER;
    var input := HandshakeBytes(extBits, infohash, id) + rest;
    assert |HEADER| == 20 by { HeaderSize(); }
    assert input[..20] == HEADER && input[28..48] == infohash && input[HANDSHAKE_SIZE..] == rest;
  }

  lemma HeaderSize()
    ensures |HEADER| == 20
  {
  }

  lemma HeaderIs()
    ensures HEADER == [19] + Ascii("BitTorrent protocol")
  {
  }

  /** Every accepted handshake is one that a peer writes, for the local torrent or any. */
  lemma AcceptedIsHandshake(local: Bytes, input: Bytes, writes: bool)
    requires Shake(local, input, writes).Shaken?
    ensures var s := Shake(local, input, writes);
            && writes && |s.infohash| == 20 && (local == ZERO_HASH || local == s.infohash)
            && input == HandshakeBytes(input[20..28], s.infohash, input[48..68]) + s.rest
  {
    hide HEADER;
    assert input == input[..20] + input[20..28] + input[28..48] + input[48..68] + input[68..];
  }

  // ---------- Reading ----------

  /** BitField, HaveAll and HaveNone must open the conversation. */
  predicate OpensOnly(t: Byte)
  {
    t == BITFIELD || t == HAVE_ALL || t == HAVE_NONE
  }

  predicate Timely(s: State, m: Message)
  {
    OpensOnly(m.typ) ==> s.stage == Handshook
  }

  function Advance(s: State): State
  {
    if s.stage == Handshook then s.(stage := Messaging) else s
  }

  // ---------- Handling ----------

  /** Our extension bits, and the optional interfaces that the handler implements. */
  datatype Abilities = Abilities(dht: bool, fast: bool, extended: bool, bep3: bool, bep5: bool, bep6: bool, bep10: bool)

  /** What decoding an extended handshake gives: the number of ids, if the payload is in the map. */
  type Handshakes = map<Bytes, nat>

  /** The calls that a handler receives. */
  datatype Call =
    | OnHandShake
    | OnMessage(m: Message)
    | OnTyped(m: Message)
    | OnExtHandShake
    | OnPayload(id: Byte, payload: Bytes)
    | OnClose

  datatype Refusal =
    | NotSupportDHT | NotSupportFast | NotSupportExtended
    | SecondExtHandshake | BadExtHandshake | NoExtMessageID | NoExtHandshake

  datatype Action = Skip | Refuse(why: Refusal) | Invoke(call: Call)

  /** The flags a message sets before anyone is called. */
  function Flagged(s: State, m: Message): State
  {
    if m.keepalive then s
    else if m.typ == CHOKE then s.(peerChoked := true)
    else if m.typ == UNCHOKE then s.(peerChoked := false)
    else if m.typ == INTERESTED then s.(peerInterested := true)
    else if m.typ == NOT_INTERESTED then s.(peerInterested := false)
    else s
  }

  lemma OthersKeepFlags(s: State, m: Message)
    ensures m.keepalive || m.typ > NOT_INTERESTED ==> Flagged(s, m) == s
  {
  }

  function ExtendedAction(s: State, hs: Handshakes, m: Message): Action
  {
    if m.extendedID == 0 then
      if s.extended > 0 then Refuse(SecondExtHandshake)
      else if m.extendedPayload !in hs then Refuse(BadExtHandshake)
      else if hs[m.extendedPayload] == 0 then Refuse(NoExtMessageID)
      else Invoke(OnExtHandShake)
    else if s.extended == 0 then Refuse(NoExtHandshake)
    else Invoke(OnPayload(m.extendedID, m.extendedPayload))
  }

  /** Where a message goes, by its type. */
  datatype Route = Blocked(why: Refusal) | Plain(typed: bool) | Ext

  function RouteOf(can: Abilities, t: Byte): Route
  {
    if t <= CANCEL then Plain(can.bep3)
    else if t == PORT then if can.dht then Plain(can.bep5) else Blocked(NotSupportDHT)
    else if SUGGEST <= t <= ALLOWED_FAST then if can.fast then Plain(can.bep6) else Blocked(NotSupportFast)
    else if t == EXTENDED then
      if !can.extended then Blocked(NotSupportExtended) else if can.bep10 then Ext else Plain(false)
    else Plain(false)
  }

  lemma OnlyExtended(can: Abilities, t: Byte)
    ensures RouteOf(can, t).Ext? ==> t == EXTENDED
  {
  }

  function Act(s: State, can: Abilities, hs: Handshakes, m: Message): Action
  {
    if m.keepalive then Skip
    else match RouteOf(can, m.typ)
      case Blocked(why) => Refuse(why)
      case Plain(typed) => Invoke(if typed then OnTyped(m) else OnMessage(m))
      case Ext => ExtendedAction(s, hs, m)
  }

  /** The state once the message is handled; an accepted extended handshake is remembered. */
  function After(s: State, can: Abilities, hs: Handshakes, m: Message): State
  {
    if Act(s, can, hs, m) == Invoke(OnExtHandShake) && m.extendedPayload in hs then s.(extended := hs[m.extendedPayload])
    else Flagged(s, m)
  }

  // ---------- The handler and the connection as objects ----------

  /** One call with the frame it stems from and whether the handler accepted. */
  datatype Entry = Entry(call: Call, frame: nat, ok: bool)

  const CLOSED := Entry(OnClose, 0, true)

  function Accepts(answers: seq<bool>): bool
  {
    answers == [] || answers[0]
  }

  function Later(answers: seq<bool>): seq<bool>
  {
    if answers == [] then [] else answers[1..]
  }

  /** A handler that answers as listed, and accepts when the list is exhausted. */
  class Handler {
    var answers: seq<bool>
    var trace: seq<Entry>

    constructor (answers: seq<bool>)
      ensures this.answers == answers && trace == []
    {
      this.answers := answers;
      trace := [];
    }

    method Invoked(call: Call, frame: nat) returns (ok: bool)
      modifies this
      ensures ok == Accepts(old(answers)) && answers == Later(old(answers))
      ensures trace == old(trace) + [Entry(call, frame, ok)]
    {
      ok := Accepts(answers);
      answers := Later(answers);
      trace := trace + [Entry(call, frame, ok)];
    }

    method Close()
      modifies `trace
      ensures trace == old(trace) + [CLOSED]
    {
      trace := trace + [CLOSED];
    }
  }

  /** The flag that a Set call changes. */
  datatype Flag = Choking | Interest

  function Owned(s: State, f: Flag): bool
  {
    if f.Choking? then s.choked else s.interested
  }

  function Mirrored(s: State, f: Flag): bool
  {
    if f.Choking? then s.peerChoked else s.peerInterested
  }

  function TypeOf(f: Flag, on: bool): Byte
  {
    if f.Choking? then (if on then CHOKE else UNCHOKE) else (if on then INTERESTED else NOT_INTERESTED)
  }

  function Notice(f: Flag, on: bool): Message
  {
    FRESH.(typ := TypeOf(f, on))
  }

  /** The state after asking for `f` to be `on`; `writes` tells whether a message could be sent. */
  function Set(s: State, f: Flag, on: bool, writes: bool): State
  {
    if !writes then s
    else match f
      case Choking => s.(choked := on)
      case Interest => s.(interested := on)
  }

  /** A message goes out only on a change. */
  function SetBytes(s: State, f: Flag, on: bool, writes: bool): Bytes
  {
    if writes && Owned(s, f) != on then Frame(Notice(f, on)) else []
  }

  /** A Set call that succeeds sets its flag and no other, and writes one message if that is a change. */
  lemma SetExactly(s: State, f: Flag, on: bool)
    ensures var s' := Set(s, f, on, true);
            && Owned(s', f) == on
            && (f.Choking? ==> s' == s.(choked := on)) && (f.Interest? ==> s' == s.(interested := on))
    ensures Set(s, f, on, false) == s && SetBytes(s, f, on, false) == []
    ensures Owned(s, f) == on ==> SetBytes(s, f, on, true) == []
    ensures !s.choked ==> SetBytes(s, Choking, true, true) == BigEndian32(1) + [0]
    ensures s.choked ==> SetBytes(s, Choking, false, true) == BigEndian32(1) + [1]
    ensures !s.interested ==> SetBytes(s, Interest, true, true) == BigEndian32(1) + [2]
    ensures s.interested ==> SetBytes(s, Interest, false, true) == BigEndian32(1) + [3]
  {
    hide Frame, BigEndian32;
    BareFormat(0);
    BareFormat(1);
    BareFormat(2);
    BareFormat(3);
  }

  class PeerConn {
    var infohash: Bytes
    var stage: Stage
    var choked: bool
    var interested: bool
    var peerChoked: bool
    var peerInterested: bool
    var extended: nat
    const can: Abilities
    const maxLength: Uint32
    /** What this end has written to the connection. */
    var sent: Bytes
    /** What the peer sends. */
    const r: Reader

    constructor (infohash: Bytes, can: Abilities, maxLength: Uint32, r: Reader)
      ensures Is() == NEW && sent == [] && this.can == can && this.r == r && this.infohash == infohash
      ensures this.maxLength == maxLength
    {
      this.infohash, this.can, this.maxLength, this.r := infohash, can, maxLength, r;
      stage, choked, interested, peerChoked, peerInterested, extended := Connected, true, false, true, false, 0;
      sent := [];
    }

    function Is(): State
      reads this
    {
      State(stage, choked, interested, peerChoked, peerInterested, extended)
    }

    /** Sends a message, or fails without sending anything. */
    method WriteMsg(m: Message, writes: bool) returns (ok: bool)
      modifies `sent
      ensures ok == writes && sent == old(sent) + if writes then Frame(m) else []
    {
      if writes {
        var buf := new Buffer();
        buf.Encode(m);
        sent := sent + buf.data;
      }
      return writes;
    }

    method SetChoked(writes: bool) returns (ok: bool)
      modifies `choked, `sent
      ensures Is() == Set(old(Is()), Choking, true, ok) && sent == old(sent) + SetBytes(old(Is()), Choking, true, ok)
      ensures ok <==> writes || old(choked)
    {
      hide Frame;
      ok := true;
      if !choked {
        ok := WriteMsg(FRESH.(typ := CHOKE), writes);
        if ok { choked := true; }
      }
    }

    method SetUnchoked(writes: bool) returns (ok: bool)
      modifies `choked, `sent
      ensures Is() == Set(old(Is()), Choking, false, ok) && sent == old(sent) + SetBytes(old(Is()), Choking, false, ok)
      ensures ok <==> writes || !old(choked)
    {
      hide Frame;
      ok := true;
      if choked {
        ok := WriteMsg(FRESH.(typ := UNCHOKE), writes);
        if ok { choked := false; }
      }
    }

    method SetInterested(writes: bool) returns (ok: bool)
      modifies `interested, `sent
      ensures Is() == Set(old(Is()), Interest, true, ok) && sent == old(sent) + SetBytes(old(Is()), Interest, true, ok)
      ensures ok <==> writes || old(interested)
    {
      hide Frame;
      ok := true;
      if !interested {
        ok := WriteMsg(FRESH.(typ := INTERESTED), writes);
        if ok { interested := true; }
      }
    }

    method SetNotInterested(writes: bool) returns (ok: bool)
      modifies `interested, `sent
      ensures Is() == Set(old(Is()), Interest, false, ok) && sent == old(sent) + SetBytes(old(Is()), Interest, false, ok)
      ensures ok <==> writes || !old(interested)
    {
      hide Frame;
      ok := true;
      if interested {
        ok := WriteMsg(FRESH.(typ := NOT_INTERESTED), writes);
        if ok { interested := false; }
      }
    }

    method Handshake(writes: bool) returns (ok: bool)
      modifies this, r
      ensures ok <==> old(stage) == Connected && Shake(old(infohash), old(r.input), writes).Shaken?
      ensures ok ==> Is() == old(Is()).(stage := Handshook)
                     && Shake(old(infohash), old(r.input), writes) == Shaken(infohash, r.input)
    {
      if stage != Connected { return false; }
      var b := r.ReadFull(HANDSHAKE_SIZE);
      if b.None? || b.value[..20] != HEADER || !writes { return false; }
      if infohash == ZERO_HASH {
        infohash := b.value[28..48];
      } else if infohash != b.value[28..48] {
        return false;
      }
      stage := Handshook;
      return true;
    }

    method ReadMsg() returns (res: Option<Message>)
      modifies `stage, r
      ensures match Unframe(old(r.input), maxLength)
              case Failed(_) => res == None && Is() == old(Is())
              case Got(m, rest) =>
                if Timely(old(Is()), m) then res == Some(m) && Is() == Advance(old(Is())) && r.input == rest
                else res == None && Is() == old(Is())
    {
      hide Unframe;
      var d := DecodeToMessage(r, maxLength);
      if d.Broken? { return None; }
      if OpensOnly(d.m.typ) && stage != Handshook { return None; }
      if stage == Handshook { stage := Messaging; }
      return Some(d.m);
    }

    method SetPeerFlags(m: Message)
      requires !m.keepalive
      modifies `peerChoked, `peerInterested
      ensures Is() == Flagged(old(Is()), m)
    {
      if m.typ == CHOKE { peerChoked := true; }
      else if m.typ == UNCHOKE { peerChoked := false; }
      else if m.typ == INTERESTED { peerInterested := true; }
      else if m.typ == NOT_INTERESTED { peerInterested := false; }
    }

    method HandleMessage(hs: Handshakes, m: Message, h: Handler, frame: nat) returns (ok: bool)
      modifies `peerChoked, `peerInterested, `extended, h
      ensures Is() == After(old(Is()), can, hs, m)
      ensures match Act(old(Is()), can, hs, m)
              case Skip => ok && h.trace == old(h.trace) && h.answers == old(h.answers)
              case Refuse(_) => !ok && h.trace == old(h.trace) && h.answers == old(h.answers)
              case Invoke(call) =>
                && ok == Accepts(old(h.answers)) && h.answers == Later(old(h.answers))
                && h.trace == old(h.trace) + [Entry(call, frame, ok)]
    {
      hide Flagged, ExtendedAction, Later, Accepts, RouteOf;
      OthersKeepFlags(Is(), m);
      OnlyExtended(can, m.typ);
      if m.keepalive { return true; }
      match RouteOf(can, m.typ) {
        case Blocked(_) => {
          SetPeerFlags(m);
          return false;
        }
        case Plain(typed) => {
          SetPeerFlags(m);
          ok := h.Invoked(if typed then OnTyped(m) else OnMessage(m), frame);
        }
        case Ext => { ok := HandleExtMsg(hs, m, h, frame); }
      }
    }

    method HandleExtMsg(hs: Handshakes, m: Message, h: Handler, frame: nat) returns (ok: bool)
      modifies `extended, h
      ensures match ExtendedAction(old(Is()), hs, m)
              case Skip => false
              case Refuse(_) => !ok && h.trace == old(h.trace) && h.answers == old(h.answers) && Is() == old(Is())
              case Invoke(call) =>
                && ok == Accepts(old(h.answers)) && h.answers == Later(old(h.answers))
                && h.trace == old(h.trace) + [Entry(call, frame, ok)]
                && Is() == if call == OnExtHandShake && m.extendedPayload in hs
                           then old(Is()).(extended := hs[m.extendedPayload]) else old(Is())
    {
      if m.extendedID == 0 {
        if extended > 0 { return false; }
        if m.extendedPayload !in hs { return false; }
        if hs[m.extendedPayload] == 0 { return false; }
        extended := hs[m.extendedPayload];
        ok := h.Invoked(OnExtHandShake, frame);
        return;
      }
      if extended == 0 { return false; }
      ok := h.Invoked(OnPayload(m.extendedID, m.extendedPayload), frame);
    }
  }
}
