/** The `ut_metadata` extension message: a bencoded header with the piece's data right behind it. */
module Extension {
  import opened ByteStrings
  import opened Bencode
  import opened BencodeCodec
  import BencodeTheorems

  const MSG_TYPE: Bytes := [109, 115, 103, 95, 116, 121, 112, 101]
  const PIECE: Bytes := [112, 105, 101, 99, 101]
  const TOTAL_SIZE: Bytes := [116, 111, 116, 97, 108, 95, 115, 105, 122, 101]
  const DASH: Bytes := [45]

  const TYPE_DATA := 1

  /** The fields of UtMetadataExtendedMsg; the zero value is what `var m` declares. */
  datatype UtMetadata = UtMetadata(msgType: nat, piece: int, totalSize: nat, data: Bytes)

  const ZERO := UtMetadata(0, 0, 0, [])

  /** The Go field widths: uint8, int64 and uint64. */
  predicate Typed(um: UtMetadata)
  {
    um.msgType < 256 && 0 - HALF64 <= um.piece < HALF64 && um.totalSize < LIMIT64
  }

  /** Only data messages carry a size and data. */
  function Normal(um: UtMetadata): UtMetadata
  {
    if um.msgType == TYPE_DATA then um else um.(totalSize := 0, data := [])
  }

  /** The header struct as a dictionary; `omitempty` drops a zero size. */
  function Header(um: UtMetadata): Value
  {
    var m := map[MSG_TYPE := Int(um.msgType), PIECE := Int(um.piece)];
    Dict(if um.totalSize == 0 then m else m[TOTAL_SIZE := Int(um.totalSize)])
  }

  ghost function EncodePayload(um: UtMetadata): Bytes
  {
    Encode(Header(Normal(um))) + Normal(um).data
  }

  // ---------- Decoding into the struct ----------

  /** The failure of storing a value of another shape, once its text was read. */
  function WrongKind(s: Bytes): (e: Error)
  {
    if s == [] then Truncated
    else if s[0] == I then (match ReadTo(s[1..], E) case Err(e) => e case Ok(_, _) => BadKind)
    else if IsDigit(s[0]) then (match ParseString(s) case Err(e) => e case Ok(_, _) => BadKind)
    else if s[0] == L || s[0] == D then BadKind
    else BadToken
  }

  /** Decoding into an integer field; `signed` selects ParseInt or ParseUint on 64 bits. */
  function ParseNumber(s: Bytes, signed: bool): (r: Parsed<int>)
    ensures r.Ok? ==> Suffix(r.rest, s) && |r.rest| < |s|
    ensures r.Ok? && !signed ==> 0 <= r.value < LIMIT64
  {
    if s == [] || s[0] != I then Err(WrongKind(s))
    else match ReadTo(s[1..], E)
      case Err(e) => Err(e)
      case Ok(digits, rest) =>
        var n: Option<int> := if signed then ParseInt(digits, HALF64) else ParseUint(digits, LIMIT64);
        if n.None? then Err(BadInteger)
        else SuffixDrop(s, 1); SuffixTransitive(rest, s[1..], s); Ok(n.value, rest)
  }

  /** The tag "-" hides `Data` from the encoder but names it for the decoder, as bytes or a list of them. */
  function SkipData(s: Bytes): (r: Parsed<Skipped>)
    ensures r.Ok? ==> Suffix(r.rest, s) && |r.rest| < |s|
  {
    if s != [] && IsDigit(s[0]) then
      match ParseString(s)
      case Err(e) => Err(e)
      case Ok(_, rest) => Ok(Skipped, rest)
    else if s != [] && s[0] == L then
      var r := SkipDataItems(s[1..]);
      if r.Ok? then SuffixDrop(s, 1); SuffixTransitive(r.rest, s[1..], s); r else r
    else Err(WrongKind(s))
  }

  function SkipDataItems(s: Bytes): (r: Parsed<Skipped>)
    ensures r.Ok? ==> Suffix(r.rest, s) && |r.rest| < |s|
    decreases |s|
  {
    if s == [] then Err(Truncated)
    else if s[0] == E then Ok(Skipped, s[1..])
    else match ParseNumber(s, false)
      case Err(e) => Err(e)
      case Ok(_, rest) =>
        var r := SkipDataItems(rest);
        if r.Ok? then SuffixTransitive(r.rest, rest, s); r else r
  }

  /** The struct field that a key names. */
  datatype Field = MsgType | Piece | TotalSize | Data | NoField

  /** The names that reflection collects for the struct. */
  type FieldNames = map<Bytes, Field>

  const UT_FIELDS: FieldNames := map[MSG_TYPE := MsgType, PIECE := Piece, TOTAL_SIZE := TotalSize, DASH := Data]

  function FieldOf(vals: FieldNames, key: Bytes): Field
  {
    if key in vals then vals[key] else NoField
  }

  function SetNumber(um: UtMetadata, field: Field, n: int): UtMetadata
    requires field.MsgType? || field.Piece? || field.TotalSize?
    requires field.Piece? || 0 <= n
  {
    match field
    case MsgType => um.(msgType := n % 256)
    case Piece => um.(piece := n)
    case TotalSize => um.(totalSize := n)
  }

  /** One field of the struct; a key without a field is decoded and dropped. */
  function ParseField(s: Bytes, field: Field, um: UtMetadata): (r: Parsed<UtMetadata>)
    ensures r.Ok? ==> Suffix(r.rest, s) && |r.rest| < |s|
  {
    match field
    case Data =>
      (match SkipData(s)
       case Err(e) => Err(e)
       case Ok(_, rest) => Ok(um, rest))
    case NoField =>
      (match Parse(s, false)
       case Err(e) => Err(e)
       case Ok(_, rest) => Ok(um, rest))
    case _ =>
      match ParseNumber(s, field.Piece?)
      case Err(e) => Err(e)
      case Ok(n, rest) => Ok(SetNumber(um, field, n), rest)
  }

  function ParseFields(s: Bytes, vals: FieldNames, um: UtMetadata): (r: Parsed<UtMetadata>)
    ensures r.Ok? ==> Suffix(r.rest, s) && |r.rest| < |s|
    decreases |s|
  {
    if s == [] then Err(Truncated)
    else if s[0] == E then Ok(um, s[1..])
    else match ParseString(s)
      case Err(e) => Err(e)
      case Ok(key, s1) =>
        match ParseField(s1, FieldOf(vals, key), um)
        case Err(e) => Err(e)
        case Ok(um', s2) =>
          SuffixTransitive(s2, s1, s);
          var r := ParseFields(s2, vals, um');
          if r.Ok? then SuffixTransitive(r.rest, s2, s); r else r
  }

  /** Decodes the header into `um` and takes everything behind it as the data. */
  function DecodePayload(b: Bytes, um: UtMetadata): (r: Result<UtMetadata>)
  {
    if b == [] || b[0] != D then Failure(WrongKind(b))
    else match ParseFields(b[1..], UT_FIELDS, um)
      case Err(e) => Failure(e)
      case Ok(um', rest) => Success(um'.(data := rest))
  }

  // ---------- Where the data starts ----------

  lemma {:induction false} DataItemsAgree(s: Bytes)
    requires SkipDataItems(s).Ok?
    ensures SkipItems(s) == Ok(Skipped, SkipDataItems(s).rest)
    decreases |s|
  {
    if s[0] != E { DataItemsAgree(ParseNumber(s, false).rest); }
  }

  lemma NumberAgrees(s: Bytes, signed: bool)
    requires ParseNumber(s, signed).Ok?
    ensures Skip(s) == Ok(Skipped, ParseNumber(s, signed).rest)
  {
  }

  lemma DataAgrees(s: Bytes)
    requires SkipData(s).Ok?
    ensures Skip(s) == Ok(Skipped, SkipData(s).rest)
  {
    if s[0] == L { DataItemsAgree(s[1..]); }
  }

  lemma FieldAgrees(s: Bytes, field: Field, um: UtMetadata)
    requires ParseField(s, field, um).Ok?
    ensures Skip(s) == Ok(Skipped, ParseField(s, field, um).rest)
  {
    match field
    case Data => DataAgrees(s);
    case NoField => BencodeTheorems.RawAgrees(s, false);
    case _ => NumberAgrees(s, field.Piece?);
  }

  lemma {:induction false} FieldsAgree(s: Bytes, vals: FieldNames, um: UtMetadata)
    requires ParseFields(s, vals, um).Ok?
    ensures SkipEntries(s) == Ok(Skipped, ParseFields(s, vals, um).rest)
    decreases |s|
  {
    if s[0] != E {
      var k := ParseString(s);
      var field := FieldOf(vals, k.value);
      FieldAgrees(k.rest, field, um);
      var f := ParseField(k.rest, field, um);
      FieldsAgree(f.rest, vals, f.value);
    }
  }

  /** In every accepted payload the data begins exactly where its first bencoded value ends. */
  lemma DataFollowsHeader(b: Bytes, um: UtMetadata)
    requires DecodePayload(b, um).Success?
    ensures Skip(b) == Ok(Skipped, DecodePayload(b, um).value.data)
  {
    FieldsAgree(b[1..], UT_FIELDS, um);
  }

  // ---------- Round trip ----------

  lemma KeysSorted()
    ensures StrictlySorted([MSG_TYPE, PIECE, TOTAL_SIZE]) && StrictlySorted([MSG_TYPE, PIECE])
  {
  }

  lemma OneEntry(v: Value, a: Bytes)
    requires v.Dict? && a in v.m
    ensures EncodeEntries(v, [a]) == EncodeEntry(v, a)
  {
    assert [a][1..] == [];
    assert EncodeEntries(v, [a]) == EncodeEntry(v, a) + EncodeEntries(v, []);
  }

  lemma TwoEntries(v: Value, a: Bytes, b: Bytes)
    requires v.Dict? && v.m.Keys == {a, b} && StrictlySorted([a, b])
    ensures Encode(v) == [D] + EncodeEntry(v, a) + EncodeEntry(v, b) + [] + [E]
  {
    hide EncodeEntry, SortedKeys, Less;
    SortedIsUnique([a, b], SortedKeys(v.m.Keys));
    OneEntry(v, b);
    assert [a, b][1..] == [b];
    assert EncodeEntries(v, [a, b]) == EncodeEntry(v, a) + EncodeEntries(v, [b]);
  }

  lemma ThreeEntries(v: Value, a: Bytes, b: Bytes, c: Bytes)
    requires v.Dict? && v.m.Keys == {a, b, c} && StrictlySorted([a, b, c])
    ensures Encode(v) == [D] + EncodeEntry(v, a) + EncodeEntry(v, b) + EncodeEntry(v, c) + [E]
  {
    hide EncodeEntry, SortedKeys, Less;
    SortedIsUnique([a, b, c], SortedKeys(v.m.Keys));
    OneEntry(v, c);
    assert [b, c][1..] == [c];
    assert EncodeEntries(v, [b, c]) == EncodeEntry(v, b) + EncodeEntries(v, [c]);
    assert [a, b, c][1..] == [b, c];
    assert EncodeEntries(v, [a, b, c]) == EncodeEntry(v, a) + EncodeEntries(v, [b, c]);
  }

  function FieldText(key: Bytes, n: int): Bytes
  {
    EncodeString(key) + ([I] + SignedDecimal(n) + [E])
  }

  lemma HeaderText(um: UtMetadata)
    ensures Encode(Header(um))
            == [D] + FieldText(MSG_TYPE, um.msgType) + FieldText(PIECE, um.piece)
               + (if um.totalSize == 0 then [] else FieldText(TOTAL_SIZE, um.totalSize)) + [E]
  {
    KeysSorted();
    var v := Header(um);
    if um.totalSize == 0 {
      TwoEntries(v, MSG_TYPE, PIECE);
    } else {
      ThreeEntries(v, MSG_TYPE, PIECE, TOTAL_SIZE);
    }
  }

  lemma NumberRoundTrip(n: int, rest: Bytes, signed: bool)
    requires if signed then 0 - HALF64 <= n < HALF64 else 0 <= n < LIMIT64
    ensures ParseNumber(Encode(Int(n)) + rest, signed) == Ok(n, rest)
  {
    var digits, s := SignedDecimal(n), Encode(Int(n)) + rest;
    assert s[1..] == digits + [E] + rest;
    PrintedHasNo(n, E);
    IndexOfUnique(digits, E, rest);
    assert s[1..][..|digits|] == digits && s[1..][|digits| + 1..] == rest;
    if signed { ParsePrinted(n, HALF64); } else { ParseDecimal(n); }
  }

  lemma FieldStep(vals: FieldNames, key: Bytes, n: int, rest: Bytes, um: UtMetadata)
    requires FieldOf(vals, key) in {MsgType, Piece, TotalSize} && |key| < 100
    requires if FieldOf(vals, key).Piece? then 0 - HALF64 <= n < HALF64 else 0 <= n < LIMIT64
    ensures ParseFields(FieldText(key, n) + rest, vals, um)
            == ParseFields(rest, vals, SetNumber(um, FieldOf(vals, key), n))
  {
    hide ParseNumber, ParseString, FieldOf;
    var s := FieldText(key, n) + rest;
    assert s == EncodeString(key) + (Encode(Int(n)) + rest);
    assert s[0] == Decimal(|key|)[0];
    BencodeTheorems.StringRoundTrip(key, Encode(Int(n)) + rest);
    NumberRoundTrip(n, rest, FieldOf(vals, key).Piece?);
  }

  lemma Regroup(f1: Bytes, f2: Bytes, f3: Bytes, data: Bytes)
    ensures var b := [D] + f1 + f2 + f3 + [E] + data;
            b[0] == D && b[1..] == f1 + (f2 + (f3 + ([E] + data)))
  {
  }

  /** Three fields in a row, under whatever keys name them, and the end token. */
  lemma FieldsRoundTrip(vals: FieldNames, k1: Bytes, k2: Bytes, k3: Bytes, u: UtMetadata)
    requires Typed(u) && |k1| < 100 && |k2| < 100 && |k3| < 100
    requires FieldOf(vals, k1) == MsgType && FieldOf(vals, k2) == Piece && FieldOf(vals, k3) == TotalSize
    ensures var f3 := if u.totalSize == 0 then [] else FieldText(k3, u.totalSize);
            ParseFields(FieldText(k1, u.msgType) + (FieldText(k2, u.piece) + (f3 + ([E] + u.data))), vals, ZERO)
            == Ok(u.(data := []), u.data)
  {
    hide ParseFields, FieldText, FieldOf;
    var f3 := if u.totalSize == 0 then [] else FieldText(k3, u.totalSize);
    var s3 := f3 + ([E] + u.data);
    var u1 := ZERO.(msgType := u.msgType);
    var u2 := u1.(piece := u.piece);
    FieldStep(vals, k1, u.msgType, FieldText(k2, u.piece) + s3, ZERO);
    FieldStep(vals, k2, u.piece, s3, u1);
    if u.totalSize == 0 {
      assert s3 == [E] + u.data;
    } else {
      FieldStep(vals, k3, u.totalSize, [E] + u.data, u2);
    }
    FieldsEnd(u.data, vals, u.(data := []));
  }

  lemma FieldsEnd(rest: Bytes, vals: FieldNames, um: UtMetadata)
    ensures ParseFields([E] + rest, vals, um) == Ok(um, rest)
  {
    assert ([E] + rest)[1..] == rest;
  }

  /** Every message comes back whole from its payload: header fields and data. */
  lemma PayloadRoundTrip(um: UtMetadata)
    requires Typed(um)
    ensures DecodePayload(EncodePayload(um), ZERO) == Success(Normal(um))
  {
    var u := Normal(um);
    HeaderText(u);
    var f3 := if u.totalSize == 0 then [] else FieldText(TOTAL_SIZE, u.totalSize);
    Regroup(FieldText(MSG_TYPE, u.msgType), FieldText(PIECE, u.piece), f3, u.data);
    FieldsRoundTrip(UT_FIELDS, MSG_TYPE, PIECE, TOTAL_SIZE, u);
  }

  // ---------- The message object ----------

  /** The receiver was filled; nothing else is returned. */
  datatype Stored = Stored

  class UtMetadataMsg {
    var msgType: nat
    var piece: int
    var totalSize: nat
    var data: Bytes

    function Fields(): UtMetadata
      reads this
    {
      UtMetadata(msgType, piece, totalSize, data)
    }

    constructor ()
      ensures Fields() == ZERO
    {
      msgType, piece, totalSize, data := 0, 0, 0, [];
    }

    method EncodeToPayload(buf: Encoder)
      modifies buf
      ensures buf.w == old(buf.w) + EncodePayload(Fields())
    {
      var um := Fields();
      if um.msgType != TYPE_DATA { um := um.(totalSize := 0, data := []); }
      buf.EncodeValue(Header(um));
      buf.w := buf.w + um.data;
    }

    method DecodeFromPayload(b: Bytes) returns (res: Result<Stored>)
      modifies this
      ensures match DecodePayload(b, old(Fields()))
              case Success(um) => res == Success(Stored) && Fields() == um
              case Failure(e) => res == Failure(e)
    {
      hide ParseFields;
      if b == [] || b[0] != D { return Failure(WrongKind(b)); }
      var dec := new Decoder(b);
      var _ := dec.Consume(1);
      ghost var r1, n1, buf1 := dec.r, dec.n, dec.buf;
      var header := DecodeStruct(dec, UT_FIELDS, Fields());
      if header.Failure? { return Failure(header.error); }
      dec.SinceTransitive(b, 0, [], r1, n1, buf1);
      assert dec.Since(b, 0, []);
      var um := header.value;
      msgType, piece, totalSize, data := um.msgType, um.piece, um.totalSize, b[dec.n..];
      return Success(Stored);
    }
  }

  /** An integer token, stored into a field of 64 bits. */
  method DecodeNumber(dec: Decoder, signed: bool) returns (res: Result<int>)
    requires !dec.raw
    modifies dec`r, dec`n, dec`buf
    ensures dec.Did(res, ParseNumber(old(dec.r), signed), old(dec.r), old(dec.n), old(dec.buf))
  {
    hide ReadTo, ParseInt, ParseUint, Moved, Suffix, WrongKind;
    MovedNot(dec.raw, dec.r, dec.n, dec.buf);
    if dec.r == [] || dec.r[0] != I { return Failure(WrongKind(dec.r)); }
    var _ := dec.Consume(1);
    ghost var r2, n2, buf2 := dec.r, dec.n, dec.buf;
    var digits := dec.ReadBytes(E);
    if digits.Failure? { return Failure(digits.error); }
    dec.SinceTransitive(old(dec.r), old(dec.n), old(dec.buf), r2, n2, buf2);
    var n: Option<int> := if signed then ParseInt(digits.value, HALF64) else ParseUint(digits.value, LIMIT64);
    return if n.None? then Failure(BadInteger) else Success(n.value);
  }

  /** One value of the dictionary, decoded into the field that its key names or dropped. */
  method DecodeField(dec: Decoder, field: Field, um: UtMetadata) returns (res: Result<UtMetadata>)
    requires !dec.raw && !dec.failUnordered
    modifies dec`r, dec`n, dec`buf
    ensures dec.Did(res, ParseField(old(dec.r), field, um), old(dec.r), old(dec.n), old(dec.buf))
  {
    hide Parse, ParseNumber, SkipData, Moved, Suffix;
    match field {
      case NoField => {
        var v := dec.DecodeInto();
        return if v.Failure? then Failure(v.error) else Success(um);
      }
      case Data => {
        var v := SkipData(dec.r);
        if v.Err? { return Failure(v.error); }
        dec.ConsumeTo(v.rest);
        return Success(um);
      }
      case _ => {
        var n := DecodeNumber(dec, field.Piece?);
        return if n.Failure? then Failure(n.error) else Success(SetNumber(um, field, n.value));
      }
    }
  }

  /** The dictionary loop of the decoder on a struct, starting from the fields `um0`. */
  method DecodeStruct(dec: Decoder, vals: FieldNames, um0: UtMetadata) returns (res: Result<UtMetadata>)
    requires !dec.raw && !dec.failUnordered
    modifies dec`r, dec`n, dec`buf
    ensures dec.Did(res, ParseFields(old(dec.r), vals, um0), old(dec.r), old(dec.n), old(dec.buf))
  {
    hide ParseField, ParseString, FieldOf, Moved, Suffix;
    MovedNot(dec.raw, dec.r, dec.n, dec.buf);
    var um := um0;
    ghost var wanted := ParseFields(dec.r, vals, um);
    while true
      invariant dec.Since(old(dec.r), old(dec.n), old(dec.buf))
      invariant wanted == ParseFields(dec.r, vals, um)
      decreases |dec.r|
    {
      if dec.r == [] { return Failure(Truncated); }
      ghost var r2, n2, buf2 := dec.r, dec.n, dec.buf;
      if dec.r[0] == E {
        var _ := dec.Consume(1);
        dec.SinceTransitive(old(dec.r), old(dec.n), old(dec.buf), r2, n2, buf2);
        return Success(um);
      }
      var key := dec.DecodeString();
      if key.Failure? { return Failure(key.error); }
      dec.SinceTransitive(old(dec.r), old(dec.n), old(dec.buf), r2, n2, buf2);
      r2, n2, buf2 := dec.r, dec.n, dec.buf;
      var field := DecodeField(dec, FieldOf(vals, key.value), um);
      if field.Failure? { return Failure(field.error); }
      dec.SinceTransitive(old(dec.r), old(dec.n), old(dec.buf), r2, n2, buf2);
      um := field.value;
    }
  }
}
