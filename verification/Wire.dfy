/** The framed messages of the peer wire protocol: their encoder, their decoder, and streams of them. */
module Wire {
  import opened ByteStrings
  import opened Numbers

  type Uint32 = x: int | 0 <= x < U32

  type Uint16 = x: int | 0 <= x < 0x1_0000

  // ---------- Big-endian numbers ----------

  function BigEndian16(n: Uint16): (b: Bytes)
    ensures |b| == 2
  {
    [(n / 0x100) as Byte, (n % 0x100) as Byte]
  }

  function Value16(b: Bytes): Uint16
    requires |b| == 2
  {
    b[0] as int * 0x100 + b[1] as int
  }

  function BigEndian32(n: Uint32): (b: Bytes)
    ensures |b| == 4
  {
    BigEndian16(n / 0x1_0000) + BigEndian16(n % 0x1_0000)
  }

  function Value32(b: Bytes): Uint32
    requires |b| == 4
  {
    Value16(b[..2]) * 0x1_0000 + Value16(b[2..])
  }

  lemma ShortRoundTrip(n: Uint16)
    ensures Value16(BigEndian16(n)) == n
  {
  }

  lemma ShortValueRoundTrip(b: Bytes)
    requires |b| == 2
    ensures BigEndian16(Value16(b)) == b
  {
  }

  lemma BigEndianRoundTrip(n: Uint32)
    ensures Value32(BigEndian32(n)) == n
  {
    hide BigEndian16, Value16;
    var b := BigEndian32(n);
    assert b[..2] == BigEndian16(n / 0x1_0000) && b[2..] == BigEndian16(n % 0x1_0000);
    ShortRoundTrip(n / 0x1_0000);
    ShortRoundTrip(n % 0x1_0000);
  }

  lemma ValueRoundTrip(b: Bytes)
    requires |b| == 4
    ensures BigEndian32(Value32(b)) == b
  {
    hide BigEndian16, Value16;
    ShortValueRoundTrip(b[..2]);
    ShortValueRoundTrip(b[2..]);
    assert b == b[..2] + b[2..];
    Split(Value16(b[..2]), Value16(b[2..]));
  }

  lemma Split(hi: Uint16, lo: Uint16)
    ensures (hi * 0x1_0000 + lo) / 0x1_0000 == hi && (hi * 0x1_0000 + lo) % 0x1_0000 == lo
  {
  }

  // ---------- Messages ----------

  datatype Message = Message(
    keepalive: bool, typ: Byte,
    index: Uint32, begin: Uint32, length: Uint32, piece: Bytes, bitField: Bytes,
    extendedID: Byte, extendedPayload: Bytes, port: Uint16, unknown: Bytes)

  /** The zero value that `var msg Message` declares. */
  const FRESH := Message(false, 0, 0, 0, 0, [], [], 0, [], 0, [])

  const KEEPALIVE := FRESH.(keepalive := true)

  const CHOKE: Byte := 0
  const UNCHOKE: Byte := 1
  const INTERESTED: Byte := 2
  const NOT_INTERESTED: Byte := 3
  const HAVE: Byte := 4
  const BITFIELD: Byte := 5
  const REQUEST: Byte := 6
  const PIECE: Byte := 7
  const CANCEL: Byte := 8
  const PORT: Byte := 9
  const SUGGEST: Byte := 13
  const HAVE_ALL: Byte := 14
  const HAVE_NONE: Byte := 15
  const REJECT: Byte := 16
  const ALLOWED_FAST: Byte := 17
  const EXTENDED: Byte := 20

  /** How the bytes behind the type byte are laid out. */
  datatype Layout = Bare | Index | Triple | Bits | Block | Extended | Port | Raw

  function EncoderLayout(t: Byte): Layout
  {
    if t in [CHOKE, UNCHOKE, INTERESTED, NOT_INTERESTED, HAVE_ALL, HAVE_NONE] then Bare
    else if t == HAVE then Index
    else if t in [REQUEST, CANCEL, REJECT] then Triple
    else if t == BITFIELD then Bits
    else if t == PIECE then Block
    else if t == EXTENDED then Extended
    else if t == PORT then Port
    else Raw
  }

  /** The decoder also knows Suggest and AllowedFast; the encoder sends them as unknown types. */
  function DecoderLayout(t: Byte): Layout
  {
    if t == SUGGEST || t == ALLOWED_FAST then Index else EncoderLayout(t)
  }

  /** The payload in a given layout, and a message whose only fields are those of a layout. */
  function Payload(m: Message, layout: Layout): Bytes
  {
    match layout
    case Bare => []
    case Index => BigEndian32(m.index)
    case Triple => BigEndian32(m.index) + BigEndian32(m.begin) + BigEndian32(m.length)
    case Bits => m.bitField
    case Block => BigEndian32(m.index) + BigEndian32(m.begin) + m.piece
    case Extended => [m.extendedID] + m.extendedPayload
    case Port => BigEndian16(m.port)
    case Raw => m.unknown
  }

  function Only(m: Message, layout: Layout): Message
  {
    var z := FRESH.(typ := m.typ);
    match layout
    case Bare => z
    case Index => z.(index := m.index)
    case Triple => z.(index := m.index, begin := m.begin, length := m.length)
    case Bits => z.(bitField := m.bitField)
    case Block => z.(index := m.index, begin := m.begin, piece := m.piece)
    case Extended => z.(extendedID := m.extendedID, extendedPayload := m.extendedPayload)
    case Port => z.(port := m.port)
    case Raw => z.(unknown := m.unknown)
  }

  /** A message that holds nothing its type does not use. */
  predicate Normal(m: Message)
  {
    if m.keepalive then m == KEEPALIVE else m == Only(m, DecoderLayout(m.typ))
  }

  predicate Supported(m: Message)
  {
    m.keepalive || (m.typ != SUGGEST && m.typ != ALLOWED_FAST)
  }

  // ---------- Frames ----------

  function Body(m: Message): (b: Bytes)
    ensures b != []
  {
    [m.typ] + Payload(m, EncoderLayout(m.typ))
  }

  /** The encoding; the length field keeps only the low 32 bits of the body's length. */
  function Frame(m: Message): (b: Bytes)
    ensures |b| >= 4
  {
    if m.keepalive then [0, 0, 0, 0] else BigEndian32(|Body(m)| % U32) + Body(m)
  }

  datatype Error = Eof | ShortLength | TooLong | Short | Unused

  datatype Decoded = Got(m: Message, rest: Bytes) | Failed(error: Error)

  /** The payload's fields, with the number of bytes of the payload left unread. */
  datatype Fields = Fields(m: Message, unread: nat) | Missing

  /** Reads the fields of type `t`; `p` is what the connection delivers of a payload of `size` bytes. */
  function ReadFields(t: Byte, p: Bytes, size: nat): Fields
    requires |p| <= size
  {
    var z := FRESH.(typ := t);
    match DecoderLayout(t)
    case Bare => Fields(z, size)
    case Index => if |p| < 4 then Missing else Fields(z.(index := Value32(p[..4])), size - 4)
    case Triple =>
      if |p| < 12 then Missing
      else Fields(z.(index := Value32(p[..4]), begin := Value32(p[4..8]), length := Value32(p[8..12])), size - 12)
    case Bits => if |p| < size then Missing else Fields(z.(bitField := p), 0)
    case Block =>
      if |p| < 8 || |p| < size then Missing
      else Fields(z.(index := Value32(p[..4]), begin := Value32(p[4..8]), piece := p[8..]), 0)
    case Extended =>
      if p == [] then Missing
      else Fields(z.(extendedID := p[0], extendedPayload := p[1..]), size - |p|)
    case Port => if |p| < 2 then Missing else Fields(z.(port := Value16(p[..2])), size - 2)
    case Raw => Fields(z.(unknown := p), size - |p|)
  }

  /** Decodes one frame into a fresh message; zero for `maxLength` means no limit. */
  function Unframe(s: Bytes, maxLength: Uint32): (r: Decoded)
    ensures r.Got? ==> |r.rest| < |s|
  {
    if |s| < 4 then Failed(if s == [] then Eof else ShortLength)
    else
      var length := Value32(s[..4]);
      if length == 0 then Got(KEEPALIVE, s[4..])
      else if maxLength > 0 && length > maxLength then Failed(TooLong)
      else UnframeBody(s[4..], length)
  }

  function UnframeBody(s: Bytes, length: nat): (r: Decoded)
    requires length > 0
    ensures r.Got? ==> |r.rest| <= |s|
  {
    if s == [] then Failed(Short)
    else
      var end := if |s| < length then |s| else length;
      match ReadFields(s[0], s[1..end], length - 1)
      case Missing => Failed(Short)
      case Fields(m, unread) => if unread > 0 then Failed(Unused) else Got(m, s[end..])
  }

  // ---------- Round trips ----------

  lemma FieldsOfPayload(m: Message)
    requires !m.keepalive && Supported(m)
    ensures var p := Payload(m, EncoderLayout(m.typ));
            ReadFields(m.typ, p, |p|) == Fields(Only(m, DecoderLayout(m.typ)), 0)
  {
    hide EncoderLayout, BigEndian32, Value32, BigEndian16, Value16;
    var p := Payload(m, EncoderLayout(m.typ));
    BigEndianRoundTrip(m.index);
    BigEndianRoundTrip(m.begin);
    BigEndianRoundTrip(m.length);
    ShortRoundTrip(m.port);
    match EncoderLayout(m.typ) {
      case Index => { assert p[..4] == p; }
      case Triple => {
        assert p[..4] == BigEndian32(m.index) && p[4..8] == BigEndian32(m.begin) && p[8..12] == BigEndian32(m.length);
      }
      case Block => {
        assert p[..4] == BigEndian32(m.index) && p[4..8] == BigEndian32(m.begin) && p[8..] == m.piece;
      }
      case Extended => { assert p[1..] == m.extendedPayload; }
      case Port => { assert p[..2] == p; }
      case _ => {}
    }
  }

  lemma PayloadOfFields(t: Byte, p: Bytes)
    requires t != SUGGEST && t != ALLOWED_FAST
    requires ReadFields(t, p, |p|).Fields? && ReadFields(t, p, |p|).unread == 0
    ensures Payload(ReadFields(t, p, |p|).m, EncoderLayout(t)) == p
  {
    hide EncoderLayout, BigEndian32, Value32, BigEndian16, Value16;
    match EncoderLayout(t) {
      case Index => { ValueRoundTrip(p[..4]); assert p[..4] == p; }
      case Triple => {
        ValueRoundTrip(p[..4]);
        ValueRoundTrip(p[4..8]);
        ValueRoundTrip(p[8..12]);
        assert p == p[..4] + p[4..8] + p[8..12];
      }
      case Block => {
        ValueRoundTrip(p[..4]);
        ValueRoundTrip(p[4..8]);
        assert p == p[..4] + p[4..8] + p[8..];
      }
      case Extended => { assert p == [p[0]] + p[1..]; }
      case Port => { ShortValueRoundTrip(p[..2]); assert p[..2] == p; }
      case _ => {}
    }
  }

  /** Whatever the decoder returns is normal and is not a partial read. */
  lemma FieldsAreNormal(t: Byte, p: Bytes, size: nat)
    requires |p| <= size
    ensures ReadFields(t, p, size).Fields? ==>
              var r := ReadFields(t, p, size);
              r.m.typ == t && !r.m.keepalive && Normal(r.m) && (r.unread == 0 ==> |p| == size)
  {
    hide EncoderLayout, Value32, Value16;
  }

  lemma UnframeIsNormal(s: Bytes, maxLength: Uint32)
    ensures Unframe(s, maxLength).Got? ==> Normal(Unframe(s, maxLength).m)
  {
    hide ReadFields, Normal, Value32;
    assert Normal(KEEPALIVE) by { KeepaliveIsNormal(); }
    if |s| > 4 {
      var length := Value32(s[..4]);
      if length > 0 {
        var end := if |s[4..]| < length then |s[4..]| else length;
        FieldsAreNormal(s[4..][0], s[4..][1..end], length - 1);
      }
    }
  }

  lemma KeepaliveIsNormal()
    ensures Normal(KEEPALIVE)
  {
  }

  /** Unframing a frame whose length field is `length`, once the field has been read. */
  lemma UnframeHead(s: Bytes, length: Uint32, body: Bytes, maxLength: Uint32)
    requires s == BigEndian32(length) + body
    ensures length == 0 ==> Unframe(s, maxLength) == Got(KEEPALIVE, body)
    ensures length > 0 ==>
              Unframe(s, maxLength) == if maxLength > 0 && length > maxLength then Failed(TooLong) else UnframeBody(body, length)
  {
    hide BigEndian32, Value32, UnframeBody;
    BigEndianRoundTrip(length);
    assert s[..4] == BigEndian32(length) && s[4..] == body;
  }

  lemma UnframeOwnBody(m: Message, rest: Bytes)
    requires !m.keepalive && Supported(m)
    ensures UnframeBody(Body(m) + rest, |Body(m)|) == Got(Only(m, DecoderLayout(m.typ)), rest)
  {
    hide EncoderLayout, ReadFields, Payload, Only, DecoderLayout;
    var b := Body(m);
    var p := Payload(m, EncoderLayout(m.typ));
    assert (b + rest)[1..|b|] == p && (b + rest)[|b|..] == rest;
    FieldsOfPayload(m);
  }

  /** The frames that decode back to the message they encode, given the reader's limit. */
  predicate Travels(m: Message, maxLength: Uint32)
  {
    && Normal(m)
    && (m.keepalive
        || (Supported(m) && |Body(m)| < U32 && (maxLength > 0 ==> |Body(m)| <= maxLength)))
  }

  lemma FrameRoundTrip(m: Message, rest: Bytes, maxLength: Uint32)
    requires Travels(m, maxLength)
    ensures Unframe(Frame(m) + rest, maxLength) == Got(m, rest)
  {
    hide Unframe, UnframeBody, BigEndian32, Body, DecoderLayout, Only;
    if m.keepalive {
      KeepaliveFrame();
      UnframeHead(Frame(m) + rest, 0, rest, maxLength);
    } else {
      ConcatAssociative(BigEndian32(|Body(m)|), Body(m), rest);
      UnframeHead(Frame(m) + rest, |Body(m)|, Body(m) + rest, maxLength);
      UnframeOwnBody(m, rest);
    }
  }

  lemma KeepaliveFrame()
    ensures BigEndian32(0) == [0, 0, 0, 0]
  {
    assert BigEndian16(0) == [0, 0];
  }

  /** Decoding inverts encoding exactly for the messages that travel. */
  lemma RoundTripExactly(m: Message, rest: Bytes, maxLength: Uint32)
    ensures Unframe(Frame(m) + rest, maxLength) == Got(m, rest) <==> Travels(m, maxLength)
  {
    hide Unframe, UnframeBody, BigEndian32, Body, DecoderLayout, Only, Frame, Normal;
    if Travels(m, maxLength) {
      FrameRoundTrip(m, rest, maxLength);
    } else {
      UnframeIsNormal(Frame(m) + rest, maxLength);
      if Normal(m) { NoTravel(m, rest, maxLength); }
    }
  }

  lemma NoTravel(m: Message, rest: Bytes, maxLength: Uint32)
    requires Normal(m) && !Travels(m, maxLength)
    ensures Unframe(Frame(m) + rest, maxLength) != Got(m, rest)
  {
    hide Unframe, UnframeBody, BigEndian32, Body, DecoderLayout, Only;
    assert !m.keepalive;
    var b, length := Body(m), |Body(m)| % U32;
    ConcatAssociative(BigEndian32(length), b, rest);
    UnframeHead(Frame(m) + rest, length, b + rest, maxLength);
    if length > 0 {
      UnframeBodyLength(b + rest, length);
      if |b| == length { UnsupportedChanges(m, rest); }
    }
  }

  /** A decoded body has exactly the announced length. */
  lemma UnframeBodyLength(s: Bytes, length: nat)
    requires length > 0
    ensures UnframeBody(s, length).Got? ==>
              |s| >= length && UnframeBody(s, length).rest == s[length..] && UnframeBody(s, length).m.typ == s[0]
  {
    hide ReadFields, Normal;
    if s != [] {
      var end := if |s| < length then |s| else length;
      FieldsAreNormal(s[0], s[1..end], length - 1);
    }
  }

  /** A Suggest or AllowedFast message never comes back as it was sent. */
  lemma UnsupportedChanges(m: Message, rest: Bytes)
    requires Normal(m) && !m.keepalive
    ensures !Supported(m) ==> UnframeBody(Body(m) + rest, |Body(m)|) != Got(m, rest)
  {
    hide Value32, BigEndian32;
    var b := Body(m);
    if !Supported(m) { assert b == [m.typ]; }
  }

  /** Every accepted frame re-encodes to its own bytes, unless it is a Suggest or an AllowedFast. */
  lemma ReencodesExactly(s: Bytes, maxLength: Uint32)
    requires Unframe(s, maxLength).Got?
    ensures var r := Unframe(s, maxLength);
            s == Frame(r.m) + r.rest <==> Supported(r.m)
  {
    hide UnframeBody, BigEndian32, Body, Value32;
    var r, length := Unframe(s, maxLength), Value32(s[..4]);
    ValueRoundTrip(s[..4]);
    assert s == s[..4] + s[4..];
    if length == 0 {
      KeepaliveFrame();
    } else {
      BodyReencodes(s[4..], length);
      assert s[4..] == s[4..][..length] + s[4..][length..];
      ConcatAssociative(s[..4], s[4..][..length], s[4..][length..]);
      if !Supported(r.m) {
        UnsupportedShrinks(s[4..], length);
        assert |Frame(r.m)| < 4 + length;
      }
    }
  }

  lemma BodyReencodes(s: Bytes, length: nat)
    requires 0 < length < U32 && UnframeBody(s, length).Got?
    ensures |s| >= length && UnframeBody(s, length).rest == s[length..] && !UnframeBody(s, length).m.keepalive
    ensures Supported(UnframeBody(s, length).m) ==> Body(UnframeBody(s, length).m) == s[..length]
  {
    hide ReadFields, Normal, Payload, EncoderLayout;
    var end := if |s| < length then |s| else length;
    FieldsAreNormal(s[0], s[1..end], length - 1);
    assert s[..length] == [s[0]] + s[1..length];
    if Supported(UnframeBody(s, length).m) { PayloadOfFields(s[0], s[1..length]); }
  }

  lemma UnsupportedShrinks(s: Bytes, length: nat)
    requires 0 < length && UnframeBody(s, length).Got? && !UnframeBody(s, length).m.keepalive
    requires !Supported(UnframeBody(s, length).m)
    ensures |Body(UnframeBody(s, length).m)| == 1 && length == 5
  {
    hide Value32;
    UnframeBodyLength(s, length);
  }

  // ---------- The format, in bytes ----------

  /** Four bytes, the most significant first. */
  lemma BigEndianIs(n: Uint32)
    ensures var b := BigEndian32(n);
            n == b[0] as int * 0x100_0000 + b[1] as int * 0x1_0000 + b[2] as int * 0x100 + b[3] as int
  {
    hide BigEndian16;
    ShortIs(n / 0x1_0000);
    ShortIs(n % 0x1_0000);
  }

  lemma ShortIs(n: Uint16)
    ensures n == BigEndian16(n)[0] as int * 0x100 + BigEndian16(n)[1] as int
  {
  }

  /** What is refused before the body is read: nothing there, part of a length, a length above the limit. */
  lemma HeadErrors(s: Bytes, maxLength: Uint32)
    ensures Unframe(s, maxLength) == Failed(Eof) <==> s == []
    ensures Unframe(s, maxLength) == Failed(ShortLength) <==> 0 < |s| < 4
    ensures Unframe(s, maxLength) == Failed(TooLong) <==>
              |s| >= 4 && 0 < maxLength < s[0] as int * 0x100_0000 + s[1] as int * 0x1_0000 + s[2] as int * 0x100 + s[3] as int
  {
    hide UnframeBody, Value32, BigEndian32;
    if |s| >= 4 {
      ValueRoundTrip(s[..4]);
      BigEndianIs(Value32(s[..4]));
      BodyErrors(s[4..], Value32(s[..4]));
    }
  }

  lemma BodyErrors(s: Bytes, length: nat)
    ensures length > 0 && UnframeBody(s, length).Failed? ==> UnframeBody(s, length).error in {Short, Unused}
  {
    hide ReadFields;
  }

  /** A frame of a type with a known payload: its length and its type, then the payload. */
  lemma FrameIs(m: Message, payload: Bytes)
    requires !m.keepalive && Payload(m, EncoderLayout(m.typ)) == payload && |payload| < U32 - 1
    ensures Frame(m) == BigEndian32(1 + |payload|) + [m.typ] + payload
  {
    hide Payload, EncoderLayout, BigEndian32;
    ConcatAssociative(BigEndian32(1 + |payload|), [m.typ], payload);
  }

  /** The messages without a payload: choke, unchoke, interested, not interested, have all, have none. */
  lemma BareFormat(t: Byte)
    requires t in [0, 1, 2, 3, 14, 15]
    ensures Frame(FRESH.(typ := t)) == BigEndian32(1) + [t]
  {
    FrameIs(FRESH.(typ := t), []);
    assert BigEndian32(1) + [t] + [] == BigEndian32(1) + [t];
  }

  /** Have: the piece index. */
  lemma HaveFormat(i: Uint32)
    ensures Frame(FRESH.(typ := 4, index := i)) == BigEndian32(5) + [4] + BigEndian32(i)
  {
    FrameIs(FRESH.(typ := 4, index := i), BigEndian32(i));
  }

  /** Request, cancel and reject: index, begin and length. */
  lemma TripleFormat(t: Byte, i: Uint32, b: Uint32, n: Uint32)
    requires t in [6, 8, 16]
    ensures Frame(FRESH.(typ := t, index := i, begin := b, length := n))
            == BigEndian32(13) + [t] + (BigEndian32(i) + BigEndian32(b) + BigEndian32(n))
  {
    hide BigEndian32;
    FrameIs(FRESH.(typ := t, index := i, begin := b, length := n), BigEndian32(i) + BigEndian32(b) + BigEndian32(n));
  }

  /** Piece: index, begin and the block. */
  lemma PieceFormat(i: Uint32, b: Uint32, block: Bytes)
    requires |block| < U32 - 9
    ensures Frame(FRESH.(typ := 7, index := i, begin := b, piece := block))
            == BigEndian32(9 + |block|) + [7] + (BigEndian32(i) + BigEndian32(b) + block)
  {
    hide BigEndian32;
    FrameIs(FRESH.(typ := 7, index := i, begin := b, piece := block), BigEndian32(i) + BigEndian32(b) + block);
  }

  lemma BitFieldFormat(bits: Bytes)
    requires |bits| < U32 - 1
    ensures Frame(FRESH.(typ := 5, bitField := bits)) == BigEndian32(1 + |bits|) + [5] + bits
  {
    hide BigEndian32;
    FrameIs(FRESH.(typ := 5, bitField := bits), bits);
  }

  lemma PortFormat(p: Uint16)
    ensures Frame(FRESH.(typ := 9, port := p)) == BigEndian32(3) + [9] + BigEndian16(p)
  {
    hide BigEndian32, BigEndian16;
    FrameIs(FRESH.(typ := 9, port := p), BigEndian16(p));
  }

  /** Extended: the extension's id and its payload. */
  lemma ExtendedFormat(id: Byte, payload: Bytes)
    requires |payload| < U32 - 2
    ensures Frame(FRESH.(typ := 20, extendedID := id, extendedPayload := payload))
            == BigEndian32(2 + |payload|) + [20] + ([id] + payload)
  {
    hide BigEndian32;
    FrameIs(FRESH.(typ := 20, extendedID := id, extendedPayload := payload), [id] + payload);
  }

  /** A type that the protocol does not know: its payload as it is. */
  lemma UnknownFormat(t: Byte, payload: Bytes)
    requires (t in [10, 11, 12, 18, 19] || t > 20) && |payload| < U32 - 1
    ensures Frame(FRESH.(typ := t, unknown := payload)) == BigEndian32(1 + |payload|) + [t] + payload
  {
    hide BigEndian32;
    FrameIs(FRESH.(typ := t, unknown := payload), payload);
  }

  /** Suggest and allowed-fast are read as an index, but written without one. */
  lemma FastFormats(t: Byte, i: Uint32, rest: Bytes, maxLength: Uint32)
    requires t in [13, 17] && (maxLength == 0 || maxLength >= 5)
    ensures Unframe(BigEndian32(5) + [t] + BigEndian32(i) + rest, maxLength) == Got(FRESH.(typ := t, index := i), rest)
    ensures Frame(FRESH.(typ := t, index := i)) == BigEndian32(1) + [t]
  {
    hide BigEndian32, Value32;
    var body := [t] + BigEndian32(i) + rest;
    assert BigEndian32(5) + [t] + BigEndian32(i) + rest == BigEndian32(5) + body;
    UnframeHead(BigEndian32(5) + body, 5, body, maxLength);
    assert body[1..5] == BigEndian32(i) && body[5..] == rest && BigEndian32(i)[..4] == BigEndian32(i);
    BigEndianRoundTrip(i);
    FrameIs(FRESH.(typ := t, index := i), []);
    assert BigEndian32(1) + [t] + [] == BigEndian32(1) + [t];
  }

  // ---------- Streams ----------

  function Frames(ms: seq<Message>): Bytes
  {
    if ms == [] then [] else Frame(ms[0]) + Frames(ms[1..])
  }

  /** All the messages of a stream that ends between frames. */
  function Unframes(s: Bytes, maxLength: Uint32): Option<seq<Message>>
    decreases |s|
  {
    match Unframe(s, maxLength)
    case Failed(e) => if e.Eof? then Some([]) else None
    case Got(m, rest) =>
      match Unframes(rest, maxLength)
      case None => None
      case Some(ms) => Some([m] + ms)
  }

  /** Decoding the concatenation of any list of encoded messages returns that list. */
  lemma {:induction false} StreamRoundTrip(ms: seq<Message>, maxLength: Uint32)
    requires forall m :: m in ms ==> Travels(m, maxLength)
    ensures Unframes(Frames(ms), maxLength) == Some(ms)
  {
    hide Travels, Unframe, Frame;
    if ms == [] {
      NothingToRead(maxLength);
    } else {
      StreamRoundTrip(ms[1..], maxLength);
      FrameRoundTrip(ms[0], Frames(ms[1..]), maxLength);
      assert ms == [ms[0]] + ms[1..];
    }
  }

  lemma NothingToRead(maxLength: Uint32)
    ensures Unframe([], maxLength) == Failed(Eof)
  {
  }

  /** And every stream that decodes to supported messages is the concatenation of their encodings. */
  lemma {:induction false} StreamReencodes(s: Bytes, maxLength: Uint32)
    requires Unframes(s, maxLength).Some?
    requires forall m :: m in Unframes(s, maxLength).value ==> Supported(m)
    ensures s == Frames(Unframes(s, maxLength).value)
    decreases |s|
  {
    hide Unframe, Frame, Supported;
    var r := Unframe(s, maxLength);
    if r.Failed? {
      OnlyEmptyEnds(s, maxLength);
    } else {
      var ms := Unframes(r.rest, maxLength).value;
      assert Unframes(s, maxLength).value == [r.m] + ms;
      assert forall m :: m in ms ==> m in [r.m] + ms;
      assert r.m in [r.m] + ms;
      ReencodesExactly(s, maxLength);
      StreamReencodes(r.rest, maxLength);
      assert ([r.m] + ms)[1..] == ms;
    }
  }

  lemma OnlyEmptyEnds(s: Bytes, maxLength: Uint32)
    ensures Unframe(s, maxLength) == Failed(Eof) ==> s == []
  {
  }
}
