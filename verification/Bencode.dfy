/**
  Bencode values, what the encoder writes for them, and the two modes in which
  the decoder reads: structured into an empty interface, and raw skipping.
 */
module Bencode {
  import opened ByteStrings

  const I: Byte := 105
  const L: Byte := 108
  const D: Byte := 100
  const E: Byte := 101
  const COLON: Byte := 58

  const HALF32: nat := 0x8000_0000
  const HALF64: nat := 0x8000_0000_0000_0000
  const LIMIT64: nat := 0x1_0000_0000_0000_0000

  /**
    A value handed to the encoder. `Nil` is a nil interface or pointer inside a
    list or map; `Int` covers Go's signed and unsigned widths.
   */
  datatype Value =
    | Nil
    | Int(n: int)
    | Str(s: Bytes)
    | List(items: seq<Value>)
    | Dict(m: map<Bytes, Value>)

  // ---------- Encoding ----------

  predicate StrictlySorted(keys: seq<Bytes>)
  {
    forall i, j :: 0 <= i < j < |keys| ==> Less(keys[i], keys[j])
  }

  lemma {:induction false} LeastExists(keys: set<Bytes>) returns (k: Bytes)
    requires keys != {}
    ensures k in keys && forall x :: x in keys && x != k ==> Less(k, x)
  {
    k :| k in keys;
    if keys != {k} {
      var rest := keys - {k};
      var least := LeastExists(rest);
      LessTotal(k, least);
      if Less(k, least) {
        forall x | x in keys && x != k ensures Less(k, x) {
          if x != least { LessTransitive(k, least, x); }
        }
      } else {
        k := least;
      }
    }
  }

  ghost function Least(keys: set<Bytes>): (k: Bytes)
    requires keys != {}
    ensures k in keys && forall x :: x in keys && x != k ==> Less(k, x)
  {
    assert exists k :: k in keys && forall x :: x in keys && x != k ==> Less(k, x) by {
      var least := LeastExists(keys);
    }
    var k :| k in keys && forall x :: x in keys && x != k ==> Less(k, x);
    k
  }

  /** The keys of a map in the one order that the encoder may write them. */
  ghost function SortedKeys(keys: set<Bytes>): (s: seq<Bytes>)
    ensures StrictlySorted(s)
    ensures forall k :: k in s <==> k in keys
  {
    if keys == {} then []
    else
      var k := Least(keys);
      [k] + SortedKeys(keys - {k})
  }

  function EncodeString(s: Bytes): Bytes
  {
    Decimal(|s|) + [COLON] + s
  }

  ghost function Encode(v: Value): Bytes
    decreases v, 1, 0
  {
    match v
    case Nil => []
    case Int(n) => [I] + SignedDecimal(n) + [E]
    case Str(s) => EncodeString(s)
    case List(items) => [L] + EncodeItems(items) + [E]
    case Dict(m) => [D] + EncodeEntries(v, SortedKeys(m.Keys)) + [E]
  }

  ghost function EncodeItems(items: seq<Value>): Bytes
    decreases items, 1
  {
    if items == [] then [] else Encode(items[0]) + EncodeItems(items[1..])
  }

  /** Entries with a nil value are left out, key and all. */
  ghost function EncodeEntries(v: Value, keys: seq<Bytes>): Bytes
    requires v.Dict? && forall k :: k in keys ==> k in v.m
    decreases v, 0, |keys|
  {
    if keys == [] then []
    else EncodeEntry(v, keys[0]) + EncodeEntries(v, keys[1..])
  }

  ghost function EncodeEntry(v: Value, key: Bytes): Bytes
    requires v.Dict? && key in v.m
    decreases v, 0, 0
  {
    if v.m[key].Nil? then [] else EncodeString(key) + Encode(v.m[key])
  }

  // ---------- Decoding ----------

  datatype Error = Truncated | BadToken | BadInteger | BadLength | Unordered | BadKind

  /** A parsed value and the unread input, or the reason for failing. */
  datatype Parsed<+T> = Ok(value: T, rest: Bytes) | Err(error: Error)

  /** Reading up to and including `delim`: the text before it. */
  function ReadTo(s: Bytes, delim: Byte): (r: Parsed<Bytes>)
    ensures r.Ok? ==> Suffix(r.rest, s) && |r.rest| < |s|
                      && Taken(s, r.rest) == r.value + [delim] && delim !in r.value
  {
    var i := IndexOf(s, delim);
    if i == |s| then Err(Truncated)
    else
      SuffixDrop(s, i + 1);
      assert s[..i + 1] == s[..i] + [delim];
      Ok(s[..i], s[i + 1..])
  }

  function ParseString(s: Bytes): (r: Parsed<Bytes>)
    ensures r.Ok? ==> Suffix(r.rest, s) && |r.rest| < |s|
    ensures r.Ok? ==> |r.value| < HALF32
  {
    match ReadTo(s, COLON)
    case Err(e) => Err(e)
    case Ok(line, rest) =>
      match ParseInt(line, HALF32)
      case None => Err(BadLength)
      case Some(l) =>
        if l < 0 then Err(BadLength)
        else if |rest| < l then Err(Truncated)
        else
          SuffixDrop(rest, l);
          SuffixTransitive(rest[l..], rest, s);
          Ok(rest[..l], rest[l..])
  }

  /** The structured decoder, into an empty interface. */
  function Parse(s: Bytes, ordered: bool): (r: Parsed<Value>)
    ensures r.Ok? ==> Suffix(r.rest, s) && |r.rest| < |s|
    decreases |s|, 0
  {
    if s == [] then Err(Truncated)
    else if s[0] == I then
      match ReadTo(s[1..], E)
      case Err(e) => Err(e)
      case Ok(digits, rest) =>
        match ParseInt(digits, HALF64)
        case None => Err(BadInteger)
        case Some(n) => SuffixDrop(s, 1); SuffixTransitive(rest, s[1..], s); Ok(Int(n), rest)
    else if IsDigit(s[0]) then
      match ParseString(s)
      case Err(e) => Err(e)
      case Ok(t, rest) => Ok(Str(t), rest)
    else if s[0] == L then
      match ParseItems(s[1..], ordered, [])
      case Err(e) => Err(e)
      case Ok(items, rest) => SuffixDrop(s, 1); SuffixTransitive(rest, s[1..], s); Ok(List(items), rest)
    else if s[0] == D then
      match ParseEntries(s[1..], ordered, map[], None)
      case Err(e) => Err(e)
      case Ok(m, rest) => SuffixDrop(s, 1); SuffixTransitive(rest, s[1..], s); Ok(Dict(m), rest)
    else Err(BadToken)
  }

  function ParseItems(s: Bytes, ordered: bool, items: seq<Value>): (r: Parsed<seq<Value>>)
    ensures r.Ok? ==> Suffix(r.rest, s) && |r.rest| < |s|
    decreases |s|, 1
  {
    if s == [] then Err(Truncated)
    else if s[0] == E then Ok(items, s[1..])
    else
      match Parse(s, ordered)
      case Err(e) => Err(e)
      case Ok(v, rest) =>
        var r := ParseItems(rest, ordered, items + [v]);
        if r.Ok? then SuffixTransitive(r.rest, rest, s); r else r
  }

  /** A repeated key overwrites; `ordered` rejects a key below its predecessor. */
  function ParseEntries(s: Bytes, ordered: bool, m: map<Bytes, Value>, last: Option<Bytes>)
    : (r: Parsed<map<Bytes, Value>>)
    ensures r.Ok? ==> Suffix(r.rest, s) && |r.rest| < |s|
    decreases |s|, 1
  {
    if s == [] then Err(Truncated)
    else if s[0] == E then Ok(m, s[1..])
    else
      match ParseString(s)
      case Err(e) => Err(e)
      case Ok(key, s1) =>
        if ordered && last.Some? && Less(key, last.value) then Err(Unordered)
        else
          match Parse(s1, ordered)
          case Err(e) => Err(e)
          case Ok(v, s2) =>
            SuffixTransitive(s2, s1, s);
            var r := ParseEntries(s2, ordered, m[key := v], Some(key));
            if r.Ok? then SuffixTransitive(r.rest, s2, s); r else r
  }

  /** Raw mode yields no value. */
  datatype Skipped = Skipped

  /** Raw mode: the same walk, never looking inside an integer token. */
  function Skip(s: Bytes): (r: Parsed<Skipped>)
    ensures r.Ok? ==> Suffix(r.rest, s) && |r.rest| < |s|
    decreases |s|, 0
  {
    if s == [] then Err(Truncated)
    else if s[0] == I then
      match ReadTo(s[1..], E)
      case Err(e) => Err(e)
      case Ok(_, rest) => SuffixDrop(s, 1); SuffixTransitive(rest, s[1..], s); Ok(Skipped, rest)
    else if IsDigit(s[0]) then
      match ParseString(s)
      case Err(e) => Err(e)
      case Ok(_, rest) => Ok(Skipped, rest)
    else if s[0] == L then
      var r := SkipItems(s[1..]);
      if r.Ok? then SuffixDrop(s, 1); SuffixTransitive(r.rest, s[1..], s); r else r
    else if s[0] == D then
      var r := SkipEntries(s[1..]);
      if r.Ok? then SuffixDrop(s, 1); SuffixTransitive(r.rest, s[1..], s); r else r
    else Err(BadToken)
  }

  function SkipItems(s: Bytes): (r: Parsed<Skipped>)
    ensures r.Ok? ==> Suffix(r.rest, s) && |r.rest| < |s|
    decreases |s|, 1
  {
    if s == [] then Err(Truncated)
    else if s[0] == E then Ok(Skipped, s[1..])
    else
      match Skip(s)
      case Err(e) => Err(e)
      case Ok(_, rest) =>
        var r := SkipItems(rest);
        if r.Ok? then SuffixTransitive(r.rest, rest, s); r else r
  }

  function SkipEntries(s: Bytes): (r: Parsed<Skipped>)
    ensures r.Ok? ==> Suffix(r.rest, s) && |r.rest| < |s|
    decreases |s|, 1
  {
    if s == [] then Err(Truncated)
    else if s[0] == E then Ok(Skipped, s[1..])
    else
      match ParseString(s)
      case Err(e) => Err(e)
      case Ok(_, s1) =>
        match Skip(s1)
        case Err(e) => Err(e)
        case Ok(_, s2) =>
          SuffixTransitive(s2, s1, s);
          var r := SkipEntries(s2);
          if r.Ok? then SuffixTransitive(r.rest, s2, s); r else r
  }
}
