/** The wire encoder and decoder as they run, on a buffer that is patched and a reader that is drained. */
module WireCodec {
  import opened ByteStrings
  import opened Numbers
  import opened Wire

  // ---------- Encoding ----------

  class Buffer {
    var data: Bytes

    constructor ()
      ensures data == []
    {
      data := [];
    }

    method Write(b: Bytes)
      modifies this
      ensures data == old(data) + b
    {
      data := data + b;
    }

    /** Appends the payload, field by field. */
    method MarshalBinaryType(m: Message)
      modifies this
      ensures data == old(data) + Payload(m, EncoderLayout(m.typ))
    {
      hide EncoderLayout, BigEndian32, BigEndian16;
      ghost var before := data;
      match EncoderLayout(m.typ) {
        case Bare => {}
        case Index => { Write(BigEndian32(m.index)); }
        case Triple => {
          Write(BigEndian32(m.index));
          Write(BigEndian32(m.begin));
          Write(BigEndian32(m.length));
          Flatten(before, BigEndian32(m.index), BigEndian32(m.begin), BigEndian32(m.length));
        }
        case Bits => { Write(m.bitField); }
        case Block => {
          Write(BigEndian32(m.index));
          Write(BigEndian32(m.begin));
          Write(m.piece);
          Flatten(before, BigEndian32(m.index), BigEndian32(m.begin), m.piece);
        }
        case Extended => {
          Write([m.extendedID]);
          Write(m.extendedPayload);
          ConcatAssociative(before, [m.extendedID], m.extendedPayload);
        }
        case Port => { Write(BigEndian16(m.port)); }
        case Raw => { Write(m.unknown); }
      }
    }

    /** Writes a placeholder for the length, then the body, and patches the length in place. */
    method Encode(m: Message)
      modifies this
      ensures data == Frame(m)
    {
      hide Payload, EncoderLayout, BigEndian32;
      data := [];
      Write([0, 0, 0, 0]);
      if !m.keepalive {
        Write([m.typ]);
        MarshalBinaryType(m);
        assert data[4..] == Body(m);
        data := BigEndian32((|data| - 4) % U32) + data[4..];
      }
    }
  }

  lemma DropThen(w: Bytes, i: nat, j: nat)
    requires i + j <= |w|
    ensures w[i..][..j] == w[i..i + j] && w[i..][j..] == w[i + j..]
  {
  }

  lemma Flatten(a: Bytes, b: Bytes, c: Bytes, d: Bytes)
    ensures a + b + c + d == a + (b + c + d)
  {
  }

  // ---------- Decoding ----------

  /** A connection, as the bytes it will still deliver. */
  class Reader {
    var input: Bytes

    constructor (input: Bytes)
      ensures this.input == input
    {
      this.input := input;
    }

    /** Reads exactly k bytes, or what there is and fails. */
    method ReadFull(k: nat) returns (b: Option<Bytes>)
      modifies this
      ensures k <= |old(input)| ==> b == Some(old(input)[..k]) && input == old(input)[k..]
      ensures k > |old(input)| ==> b == None && input == []
    {
      if k <= |input| {
        b := Some(input[..k]);
        input := input[k..];
      } else {
        b := None;
        input := [];
      }
    }
  }

  /** A reader that stops after n bytes. */
  class LimitedReader {
    const r: Reader
    var n: nat

    constructor (r: Reader, n: nat)
      ensures this.r == r && this.n == n
    {
      this.r := r;
      this.n := n;
    }

    /** The bytes that can be read through the limit. */
    ghost function Window(): Bytes
      reads this, r
    {
      if |r.input| < n then r.input else r.input[..n]
    }

    method ReadFull(k: nat) returns (b: Option<Bytes>)
      modifies this, r
      ensures k <= |old(Window())| ==>
                && b == Some(old(Window())[..k])
                && n == old(n) - k && r.input == old(r.input)[k..] && Window() == old(Window())[k..]
      ensures k > |old(Window())| ==> b == None
    {
      ghost var w := Window();
      assert k <= |w| ==> w[..k] == r.input[..k];
      if k <= n {
        b := r.ReadFull(k);
        n := if b.Some? then n - k else 0;
        assert k <= |w| ==> Window() == w[k..];
      } else {
        b := None;
        n := 0;
      }
    }

    method ReadAll() returns (b: Bytes)
      modifies this, r
      ensures b == old(Window()) && n == old(n) - |b| && r.input == old(r.input)[|b|..]
    {
      var k := if |r.input| < n then |r.input| else n;
      b := r.input[..k];
      r.input := r.input[k..];
      n := n - k;
    }

    method ReadUint32() returns (v: Option<Uint32>)
      modifies this, r
      ensures 4 <= |old(Window())| ==>
                && v == Some(Value32(old(Window())[..4]))
                && n == old(n) - 4 && r.input == old(r.input)[4..] && Window() == old(Window())[4..]
      ensures 4 > |old(Window())| ==> v == None
    {
      hide Value32;
      var b := ReadFull(4);
      v := if b.Some? then Some(Value32(b.value)) else None;
    }

    /** Reads the fields of a message of type `t`; `None` when the input ends inside them. */
    method DecodeFields(t: Byte) returns (res: Option<Message>)
      modifies this, r
      ensures match ReadFields(t, old(Window()), old(n))
              case Missing => res == None
              case Fields(m, unread) =>
                res == Some(m) && n == unread && (unread == 0 ==> r.input == old(r.input)[old(n)..])
    {
      hide EncoderLayout, DecoderLayout, Value32, Value16;
      ghost var w, all := Window(), r.input;
      assert w[..|w|] == w;
      var m := FRESH.(typ := t);
      match DecoderLayout(t) {
        case Bare => { return Some(m); }
        case Index => { res := DecodeNumbers(m, 1); }
        case Triple => { res := DecodeNumbers(m, 3); }
        case Bits => {
          var b := ReadFull(n);
          return if b.Some? then Some(m.(bitField := b.value)) else None;
        }
        case Block => {
          res := DecodeNumbers(m, 2);
          if res.Some? {
            DropThen(w, 8, |w| - 8);
            assert n == |w| - 8 ==> |w| <= |all| && all[8..][n..] == all[8 + n..];
            var b := ReadFull(n);
            res := if b.Some? then Some(res.value.(piece := b.value)) else None;
          }
        }
        case Extended => {
          var id := ReadFull(1);
          if id.None? { return None; }
          var b := ReadAll();
          return Some(m.(extendedID := id.value[0], extendedPayload := b));
        }
        case Port => {
          var b := ReadFull(2);
          return if b.Some? then Some(m.(port := Value16(b.value))) else None;
        }
        case Raw => {
          var b := ReadAll();
          return Some(m.(unknown := b));
        }
      }
    }

    /** Reads the index and, as `count` asks, the begin and the length. */
    method DecodeNumbers(m0: Message, count: nat) returns (res: Option<Message>)
      requires 1 <= count <= 3
      modifies this, r
      ensures |old(Window())| < 4 * count ==> res == None
      ensures |old(Window())| >= 4 * count ==>
                && res == Some(WithNumbers(m0, count, old(Window())))
                && n == old(n) - 4 * count && r.input == old(r.input)[4 * count..]
                && Window() == old(Window())[4 * count..]
    {
      hide Value32;
      ghost var w, all := Window(), r.input;
      assert |w| >= 8 ==> w[4..][..4] == w[4..8] && w[4..][4..] == w[8..] && all[4..][4..] == all[8..];
      assert |w| >= 12 ==> w[8..][..4] == w[8..12] && w[8..][4..] == w[12..] && all[8..][4..] == all[12..];
      var m := m0;
      var v := ReadUint32();
      if v.None? { return None; }
      m := m.(index := v.value);
      if count > 1 {
        v := ReadUint32();
        if v.None? { return None; }
        m := m.(begin := v.value);
        if count > 2 {
          v := ReadUint32();
          if v.None? { return None; }
          m := m.(length := v.value);
        }
      }
      return Some(m);
    }
  }

  function WithNumbers(m: Message, count: nat, p: Bytes): Message
    requires 1 <= count <= 3 && |p| >= 4 * count
  {
    var m1 := m.(index := Value32(p[..4]));
    var m2 := if count > 1 then m1.(begin := Value32(p[4..8])) else m1;
    if count > 2 then m2.(length := Value32(p[8..12])) else m2
  }

  datatype Outcome = Read(m: Message) | Broken(error: Error)

  method DecodeToMessage(r: Reader, maxLength: Uint32) returns (res: Outcome)
    modifies r
    ensures match Unframe(old(r.input), maxLength)
            case Got(m, rest) => res == Read(m) && r.input == rest
            case Failed(e) => res == Broken(e)
  {
    hide Value32, ReadFields, Normal;
    var empty := r.input == [];
    var b := r.ReadFull(4);
    if b.None? { return Broken(if empty then Eof else ShortLength); }
    var length := Value32(b.value);
    if length == 0 { return Read(KEEPALIVE); }
    if maxLength > 0 && length > maxLength { return Broken(TooLong); }
    ghost var body := r.input;
    var lr := new LimitedReader(r, length);
    var t := lr.ReadFull(1);
    if t.None? { return Broken(Short); }
    ghost var end := if |body| < length then |body| else length;
    assert lr.Window() == body[1..end];
    assert |body| >= length ==> body[1..][length - 1..] == body[length..];
    FieldsAreNormal(t.value[0], lr.Window(), length - 1);
    var m := lr.DecodeFields(t.value[0]);
    if m.None? { return Broken(Short); }
    return if lr.n != 0 then Broken(Unused) else Read(m.value);
  }
}
