/** What encoder and decoder promise together: round trips, prefix-freeness, raw agreement. */
module BencodeTheorems {
  import opened ByteStrings
  import opened Bencode

  // ---------- Which values survive ----------

  /** The value without its nils, which the encoder drops. */
  ghost function Strip(v: Value): Value
  {
    match v
    case List(items) => List(StripItems(items))
    case Dict(m) => Dict(map k | k in m && !m[k].Nil? :: Strip(m[k]))
    case _ => v
  }

  ghost function StripItems(items: seq<Value>): seq<Value>
  {
    if items == [] then []
    else (if items[0].Nil? then [] else [Strip(items[0])]) + StripItems(items[1..])
  }

  ghost predicate NilFree(v: Value)
  {
    match v
    case Nil => false
    case List(items) => forall i :: 0 <= i < |items| ==> NilFree(items[i])
    case Dict(m) => forall k :: k in m ==> NilFree(m[k])
    case _ => true
  }

  /** Every integer is an int64 and every string is shorter than 2^31, nils aside. */
  ghost predicate Fits(v: Value)
  {
    match v
    case Nil => true
    case Int(n) => 0 - HALF64 <= n < HALF64
    case Str(s) => |s| < HALF32
    case List(items) => forall i :: 0 <= i < |items| ==> Fits(items[i])
    case Dict(m) => forall k :: k in m && !m[k].Nil? ==> |k| < HALF32 && Fits(m[k])
  }

  lemma {:induction false} StripKeepsNilFree(v: Value)
    requires !v.Nil?
    ensures Strip(v) == v <==> NilFree(v)
  {
    match v
    case List(items) =>
      StripItemsKeepsNilFree(items);
    case Dict(m) =>
      forall k | k in m && !m[k].Nil? ensures Strip(m[k]) == m[k] <==> NilFree(m[k]) {
        StripKeepsNilFree(m[k]);
      }
      var stripped := map k | k in m && !m[k].Nil? :: Strip(m[k]);
      if NilFree(v) {
        assert forall k :: k in m ==> NilFree(m[k]) && !m[k].Nil?;
        assert stripped.Keys == m.Keys;
        assert stripped == m;
      } else {
        var k :| k in m && !NilFree(m[k]);
        assert k !in stripped || stripped[k] != m[k];
      }
    case _ =>
  }

  lemma {:induction false} StripItemsKeepsNilFree(items: seq<Value>)
    ensures |StripItems(items)| <= |items|
    ensures StripItems(items) == items <==> forall i :: 0 <= i < |items| ==> NilFree(items[i])
  {
    if items != [] {
      var rest := items[1..];
      StripItemsKeepsNilFree(rest);
      assert items == [items[0]] + rest;
      if !items[0].Nil? {
        StripKeepsNilFree(items[0]);
        assert StripItems(items)[0] == Strip(items[0]) && StripItems(items)[1..] == StripItems(rest);
        assert (forall i :: 0 <= i < |items| ==> NilFree(items[i]))
          <==> NilFree(items[0]) && forall i :: 0 <= i < |rest| ==> NilFree(rest[i]);
      } else {
        assert !NilFree(items[0]);
      }
    }
  }

  // ---------- Round trip ----------

  lemma StringRoundTrip(t: Bytes, rest: Bytes)
    ensures |t| < HALF32 ==> ParseString(EncodeString(t) + rest) == Ok(t, rest)
    ensures |t| >= HALF32 ==> ParseString(EncodeString(t) + rest).Err?
  {
    var line := Decimal(|t|);
    var s := EncodeString(t) + rest;
    PrintedHasNo(|t|, COLON);
    assert s == line + [COLON] + (t + rest);
    IndexOfUnique(line, COLON, t + rest);
    assert s[..|line|] == line && s[|line| + 1..] == t + rest;
    ParsePrinted(|t|, HALF32);
    assert (t + rest)[..|t|] == t && (t + rest)[|t|..] == rest;
  }

  lemma IntRoundTrip(n: int, rest: Bytes, ordered: bool)
    ensures Fits(Int(n)) ==> Parse(Encode(Int(n)) + rest, ordered) == Ok(Int(n), rest)
    ensures !Fits(Int(n)) ==> Parse(Encode(Int(n)) + rest, ordered).Err?
  {
    var digits := SignedDecimal(n);
    var s := Encode(Int(n)) + rest;
    assert s[1..] == digits + [E] + rest;
    PrintedHasNo(n, E);
    IndexOfUnique(digits, E, rest);
    assert s[1..][..|digits|] == digits && s[1..][|digits| + 1..] == rest;
    ParsePrinted(n, HALF64);
  }

  lemma FirstByte(v: Value)
    requires !v.Nil?
    ensures Encode(v) != [] && Encode(v)[0] != E
    ensures v.Str? <==> IsDigit(Encode(v)[0])
    ensures v.Int? <==> Encode(v)[0] == I
    ensures v.List? <==> Encode(v)[0] == L
    ensures v.Dict? <==> Encode(v)[0] == D
  {
    if v.Str? { assert Encode(v)[0] == Decimal(|v.s|)[0]; }
  }

  // How the text in front of the decoder splits, and the decoder's next step on it.

  lemma ItemsText(items: seq<Value>, rest: Bytes)
    requires items != []
    ensures EncodeItems(items) + [E] + rest == Encode(items[0]) + (EncodeItems(items[1..]) + [E] + rest)
  {
  }

  lemma EntriesText(v: Value, keys: seq<Bytes>, rest: Bytes)
    requires v.Dict? && (forall k :: k in keys ==> k in v.m) && keys != []
    ensures EncodeEntries(v, keys) + [E] + rest
            == EncodeEntry(v, keys[0]) + (EncodeEntries(v, keys[1..]) + [E] + rest)
  {
  }

  lemma ItemsEnd(rest: Bytes, ordered: bool, acc: seq<Value>)
    ensures ParseItems(EncodeItems([]) + [E] + rest, ordered, acc) == Ok(acc + StripItems([]), rest)
  {
    assert EncodeItems([]) + [E] + rest == [E] + rest;
    assert acc + StripItems([]) == acc;
    assert ([E] + rest)[1..] == rest;
  }

  lemma ItemsStep(v: Value, s: Bytes, ordered: bool, acc: seq<Value>)
    requires !v.Nil?
    ensures var r := Parse(Encode(v) + s, ordered);
            ParseItems(Encode(v) + s, ordered, acc)
            == if r.Ok? then ParseItems(r.rest, ordered, acc + [r.value]) else Err(r.error)
  {
    FirstByte(v);
    assert (Encode(v) + s)[0] == Encode(v)[0];
  }

  /**
    Decoding what was encoded, whatever follows it, gives back the value without
    its nils and leaves the following bytes unread -- if every number and length
    fits the decoder's widths, and fails otherwise.
   */
  lemma {:induction false} RoundTrip(v: Value, rest: Bytes, ordered: bool)
    requires !v.Nil?
    ensures Fits(v) ==> Parse(Encode(v) + rest, ordered) == Ok(Strip(v), rest)
    ensures !Fits(v) ==> Parse(Encode(v) + rest, ordered).Err?
    decreases v, 2, 0
  {
    hide ParseItems, ParseEntries, EncodeItems, EncodeEntries, ParseString, SortedKeys;
    match v
    case Int(n) => IntRoundTrip(n, rest, ordered);
    case Str(t) =>
      FirstByte(v);
      assert (Encode(v) + rest)[0] == Encode(v)[0];
      StringRoundTrip(t, rest);
    case List(items) =>
      ItemsRoundTrip(items, rest, ordered, []);
      assert [] + StripItems(items) == StripItems(items);
      ListText(items, rest, ordered);
    case Dict(m) =>
      var keys := SortedKeys(m.Keys);
      EntriesRoundTrip(v, keys, rest, ordered, map[], None);
      DictText(v, rest, ordered);
      StripAllEntries(v, keys);
  }

  lemma ListText(items: seq<Value>, rest: Bytes, ordered: bool)
    ensures var r := ParseItems(EncodeItems(items) + [E] + rest, ordered, []);
            Parse(Encode(List(items)) + rest, ordered) == if r.Ok? then Ok(List(r.value), r.rest) else Err(r.error)
  {
    var s := Encode(List(items)) + rest;
    assert s[0] == L && s[1..] == EncodeItems(items) + [E] + rest;
  }

  lemma DictText(v: Value, rest: Bytes, ordered: bool)
    requires v.Dict?
    ensures var keys := SortedKeys(v.m.Keys);
            var r := ParseEntries(EncodeEntries(v, keys) + [E] + rest, ordered, map[], None);
            Parse(Encode(v) + rest, ordered) == if r.Ok? then Ok(Dict(r.value), r.rest) else Err(r.error)
  {
    hide ParseEntries, EncodeEntries, SortedKeys;
    var s, keys := Encode(v) + rest, SortedKeys(v.m.Keys);
    assert s[0] == D;
    assert s[1..] == EncodeEntries(v, keys) + [E] + rest;
  }

  lemma StripAllEntries(v: Value, keys: seq<Bytes>)
    requires v.Dict? && forall k :: k in keys <==> k in v.m
    ensures map[] + StripEntries(v, keys) == Strip(v).m
  {
  }

  lemma {:induction false} ItemsRoundTrip(items: seq<Value>, rest: Bytes, ordered: bool, acc: seq<Value>)
    ensures Fits(List(items)) ==>
              ParseItems(EncodeItems(items) + [E] + rest, ordered, acc) == Ok(acc + StripItems(items), rest)
    ensures !Fits(List(items)) ==> ParseItems(EncodeItems(items) + [E] + rest, ordered, acc).Err?
    decreases items, 3, 0
  {
    if items == [] {
      ItemsEnd(rest, ordered, acc);
    } else {
      var v, tail := items[0], items[1..];
      FitsStep(items);
      ItemsText(items, rest);
      var s1 := EncodeItems(tail) + [E] + rest;
      if v.Nil? {
        assert Encode(v) + s1 == s1;
        assert StripItems(items) == StripItems(tail);
        ItemsRoundTrip(tail, rest, ordered, acc);
      } else {
        ItemsStep(v, s1, ordered, acc);
        RoundTrip(v, s1, ordered);
        ItemsRoundTrip(tail, rest, ordered, acc + [Strip(v)]);
        StripItemsStep(items, acc);
      }
    }
  }

  lemma StripItemsStep(items: seq<Value>, acc: seq<Value>)
    requires items != [] && !items[0].Nil?
    ensures acc + [Strip(items[0])] + StripItems(items[1..]) == acc + StripItems(items)
  {
  }

  lemma FitsStep(items: seq<Value>)
    requires items != []
    ensures Fits(List(items)) <==> Fits(items[0]) && Fits(List(items[1..]))
  {
    assert items == [items[0]] + items[1..];
  }

  ghost function StripEntries(v: Value, keys: seq<Bytes>): map<Bytes, Value>
    requires v.Dict? && forall k :: k in keys ==> k in v.m
  {
    map k | k in keys && !v.m[k].Nil? :: Strip(v.m[k])
  }

  ghost predicate EntriesFit(v: Value, keys: seq<Bytes>)
    requires v.Dict? && forall k :: k in keys ==> k in v.m
  {
    forall k :: k in keys && !v.m[k].Nil? ==> |k| < HALF32 && Fits(v.m[k])
  }

  lemma SortedHead(keys: seq<Bytes>)
    requires keys != [] && StrictlySorted(keys)
    ensures StrictlySorted(keys[1..]) && keys[0] !in keys[1..]
    ensures forall k :: k in keys[1..] ==> Less(keys[0], k)
    ensures forall k :: k in keys <==> k == keys[0] || k in keys[1..]
  {
    LessIrreflexive(keys[0]);
    assert keys == [keys[0]] + keys[1..];
  }

  /** One entry more, in front: what it adds to the decoded map. */
  lemma StripEntriesStep(v: Value, keys: seq<Bytes>, tail: seq<Bytes>, key: Bytes, acc: map<Bytes, Value>)
    requires v.Dict? && (forall k :: k in keys ==> k in v.m)
    requires (forall k :: k in keys <==> k == key || k in tail) && key !in tail
    requires !v.m[key].Nil?
    ensures acc + StripEntries(v, keys) == acc[key := Strip(v.m[key])] + StripEntries(v, tail)
  {
    var a, b := StripEntries(v, keys), StripEntries(v, tail);
    assert a.Keys == b.Keys + {key};
    assert forall k :: k in b ==> a[k] == b[k];
  }

  lemma EntriesEnd(v: Value, rest: Bytes, ordered: bool, acc: map<Bytes, Value>, last: Option<Bytes>)
    requires v.Dict?
    ensures ParseEntries(EncodeEntries(v, []) + [E] + rest, ordered, acc, last)
            == Ok(acc + StripEntries(v, []), rest)
  {
    assert EncodeEntries(v, []) + [E] + rest == [E] + rest;
    assert ([E] + rest)[1..] == rest;
    assert acc + StripEntries(v, []) == acc;
  }

  lemma {:induction false} EntriesRoundTrip(v: Value, keys: seq<Bytes>, rest: Bytes, ordered: bool,
                                            acc: map<Bytes, Value>, last: Option<Bytes>)
    requires v.Dict? && forall k :: k in keys ==> k in v.m
    requires StrictlySorted(keys)
    requires last.Some? ==> forall k :: k in keys ==> Less(last.value, k)
    ensures EntriesFit(v, keys) ==>
              ParseEntries(EncodeEntries(v, keys) + [E] + rest, ordered, acc, last)
              == Ok(acc + StripEntries(v, keys), rest)
    ensures !EntriesFit(v, keys) ==>
              ParseEntries(EncodeEntries(v, keys) + [E] + rest, ordered, acc, last).Err?
    decreases v, 1, |keys|
  {
    hide ParseEntries, EncodeEntries, Encode, Fits, Strip, Less;
    if keys == [] {
      EntriesEnd(v, rest, ordered, acc, last);
    } else {
      var key, tail := keys[0], keys[1..];
      SortedHead(keys);
      var s1 := EncodeEntries(v, tail) + [E] + rest;
      EntriesText(v, keys, rest);
      var w := v.m[key];
      if w.Nil? {
        assert EncodeEntry(v, key) + s1 == s1;
        EntriesRoundTrip(v, tail, rest, ordered, acc, last);
        assert StripEntries(v, keys) == StripEntries(v, tail);
      } else {
        EntryHead(key, w, s1, ordered, acc, last);
        EntriesRoundTrip(v, tail, rest, ordered, acc[key := Strip(w)], Some(key));
        StripEntriesStep(v, keys, tail, key, acc);
      }
    }
  }

  /** One encoded entry in front of the rest of a dictionary. */
  lemma {:induction false} EntryHead(key: Bytes, w: Value, s1: Bytes, ordered: bool,
                                     acc: map<Bytes, Value>, last: Option<Bytes>)
    requires !w.Nil?
    requires last.Some? ==> Less(last.value, key)
    ensures var s := EncodeString(key) + Encode(w) + s1;
            if |key| < HALF32 && Fits(w)
            then ParseEntries(s, ordered, acc, last) == ParseEntries(s1, ordered, acc[key := Strip(w)], Some(key))
            else ParseEntries(s, ordered, acc, last).Err?
    decreases w, 3, 0
  {
    hide Parse, ParseString, Encode, Fits, Strip, Less;
    var s := EncodeString(key) + Encode(w) + s1;
    assert s == EncodeString(key) + (Encode(w) + s1);
    assert s[0] == Decimal(|key|)[0];
    StringRoundTrip(key, Encode(w) + s1);
    RoundTrip(w, s1, ordered);
    if last.Some? { LessAsymmetric(last.value, key); }
  }

  /** The round trip is exact for precisely the nil-free values that fit. */
  lemma RoundTripExactly(v: Value, rest: Bytes, ordered: bool)
    requires !v.Nil?
    ensures Parse(Encode(v) + rest, ordered) == Ok(v, rest) <==> NilFree(v) && Fits(v)
  {
    RoundTrip(v, rest, ordered);
    StripKeepsNilFree(v);
  }

  /** Encodings are prefix-free: the boundary in a longer payload is never ambiguous. */
  lemma PrefixFree(v: Value, a: Bytes, w: Value, b: Bytes)
    requires NilFree(v) && Fits(v) && NilFree(w) && Fits(w)
    requires Encode(v) + a == Encode(w) + b
    ensures v == w && a == b
  {
    RoundTripExactly(v, a, true);
    RoundTripExactly(w, b, true);
  }

  // ---------- What decoding yields ----------

  lemma {:induction false} ParsedFits(s: Bytes, ordered: bool)
    requires Parse(s, ordered).Ok?
    ensures NilFree(Parse(s, ordered).value) && Fits(Parse(s, ordered).value)
    decreases |s|, 0
  {
    if s[0] == L {
      ParsedItemsFit(s[1..], ordered, []);
    } else if s[0] == D {
      ParsedEntriesFit(s[1..], ordered, map[], None);
    }
  }

  lemma {:induction false} ParsedItemsFit(s: Bytes, ordered: bool, acc: seq<Value>)
    requires ParseItems(s, ordered, acc).Ok?
    requires NilFree(List(acc)) && Fits(List(acc))
    ensures var items := ParseItems(s, ordered, acc).value; NilFree(List(items)) && Fits(List(items))
    decreases |s|, 1
  {
    if s[0] != E {
      ParsedFits(s, ordered);
      var r := Parse(s, ordered);
      ParsedItemsFit(r.rest, ordered, acc + [r.value]);
    }
  }

  lemma FitsUpdate(m: map<Bytes, Value>, k: Bytes, v: Value)
    requires NilFree(Dict(m)) && Fits(Dict(m)) && NilFree(v) && Fits(v) && |k| < HALF32
    ensures NilFree(Dict(m[k := v])) && Fits(Dict(m[k := v]))
  {
  }

  lemma {:induction false} ParsedEntriesFit(s: Bytes, ordered: bool, acc: map<Bytes, Value>, last: Option<Bytes>)
    requires ParseEntries(s, ordered, acc, last).Ok?
    requires NilFree(Dict(acc)) && Fits(Dict(acc))
    ensures var m := ParseEntries(s, ordered, acc, last).value; NilFree(Dict(m)) && Fits(Dict(m))
    decreases |s|, 1
  {
    hide Parse, ParseString, Less, Fits, NilFree;
    if s[0] != E {
      var k := ParseString(s);
      ParsedFits(k.rest, ordered);
      var r := Parse(k.rest, ordered);
      FitsUpdate(acc, k.value, r.value);
      ParsedEntriesFit(r.rest, ordered, acc[k.value := r.value], Some(k.value));
    }
  }

  /** Re-encoding any accepted input is a canonical form of it: it decodes to the same value. */
  lemma Canonical(s: Bytes, ordered: bool, rest: Bytes)
    requires Parse(s, ordered).Ok?
    ensures Parse(Encode(Parse(s, ordered).value) + rest, true) == Ok(Parse(s, ordered).value, rest)
  {
    ParsedFits(s, ordered);
    RoundTripExactly(Parse(s, ordered).value, rest, true);
  }

  // ---------- A parse depends only on what it consumes ----------

  lemma ReadToLocal(s: Bytes, delim: Byte, rest: Bytes)
    requires ReadTo(s, delim).Ok?
    ensures var r := ReadTo(s, delim);
            ReadTo(Taken(s, r.rest) + rest, delim) == Ok(r.value, rest)
  {
    var r := ReadTo(s, delim);
    IndexOfUnique(r.value, delim, rest);
    var t := r.value + [delim] + rest;
    assert t[..|r.value|] == r.value && t[|r.value| + 1..] == rest;
  }

  lemma StringLocal(s: Bytes, rest: Bytes)
    requires ParseString(s).Ok?
    ensures var r := ParseString(s);
            ParseString(Taken(s, r.rest) + rest) == Ok(r.value, rest)
  {
    var r, line := ParseString(s), ReadTo(s, COLON);
    SuffixTransitive(r.rest, line.rest, s);
    SuffixDrop(line.rest, |r.value|);
    assert Taken(s, r.rest) + rest == Taken(s, line.rest) + (r.value + rest);
    ReadToLocal(s, COLON, r.value + rest);
    assert (r.value + rest)[..|r.value|] == r.value && (r.value + rest)[|r.value|..] == rest;
  }

  /** Any other tail after the consumed bytes leads to the same value. */
  lemma {:induction false} ParseLocal(s: Bytes, ordered: bool, rest: Bytes)
    requires Parse(s, ordered).Ok?
    ensures var r := Parse(s, ordered);
            Parse(Taken(s, r.rest) + rest, ordered) == Ok(r.value, rest)
    decreases |s|, 0
  {
    var r := Parse(s, ordered);
    var t := Taken(s, r.rest) + rest;
    assert t[0] == s[0];
    SuffixDrop(s, 1);
    if IsDigit(s[0]) {
      StringLocal(s, rest);
    } else {
      SuffixTransitive(r.rest, s[1..], s);
      assert t[1..] == Taken(s[1..], r.rest) + rest;
      if s[0] == I {
        ReadToLocal(s[1..], E, rest);
      } else if s[0] == L {
        ItemsLocal(s[1..], ordered, [], rest);
      } else {
        EntriesLocal(s[1..], ordered, map[], None, rest);
      }
    }
  }

  lemma {:induction false} ItemsLocal(s: Bytes, ordered: bool, acc: seq<Value>, rest: Bytes)
    requires ParseItems(s, ordered, acc).Ok?
    ensures var r := ParseItems(s, ordered, acc);
            ParseItems(Taken(s, r.rest) + rest, ordered, acc) == Ok(r.value, rest)
    decreases |s|, 1
  {
    hide Parse, Suffix;
    var r := ParseItems(s, ordered, acc);
    var t := Taken(s, r.rest) + rest;
    assert t[0] == s[0];
    if s[0] == E {
      assert t[1..] == rest;
    } else {
      var v := Parse(s, ordered);
      SuffixTransitive(r.rest, v.rest, s);
      assert t == Taken(s, v.rest) + (Taken(v.rest, r.rest) + rest);
      ParseLocal(s, ordered, Taken(v.rest, r.rest) + rest);
      ItemsLocal(v.rest, ordered, acc + [v.value], rest);
    }
  }

  lemma {:induction false} EntriesLocal(s: Bytes, ordered: bool, acc: map<Bytes, Value>, last: Option<Bytes>,
                                        rest: Bytes)
    requires ParseEntries(s, ordered, acc, last).Ok?
    ensures var r := ParseEntries(s, ordered, acc, last);
            ParseEntries(Taken(s, r.rest) + rest, ordered, acc, last) == Ok(r.value, rest)
    decreases |s|, 1
  {
    hide Parse, ParseString, Less;
    var r := ParseEntries(s, ordered, acc, last);
    var t := Taken(s, r.rest) + rest;
    assert t[0] == s[0];
    if s[0] == E {
      assert t[1..] == rest;
    } else {
      var k := ParseString(s);
      var v := Parse(k.rest, ordered);
      var tail := Taken(v.rest, r.rest) + rest;
      EntryText(s, k.rest, v.rest, r.rest, rest);
      StringLocal(s, Taken(k.rest, v.rest) + tail);
      ParseLocal(k.rest, ordered, tail);
      EntriesLocal(v.rest, ordered, acc[k.value := v.value], Some(k.value), rest);
    }
  }

  lemma EntryText(s: Bytes, s1: Bytes, s2: Bytes, s3: Bytes, rest: Bytes)
    requires Suffix(s1, s) && Suffix(s2, s1) && Suffix(s3, s2) && Suffix(s3, s)
    ensures Taken(s, s3) + rest == Taken(s, s1) + (Taken(s1, s2) + (Taken(s2, s3) + rest))
  {
    SuffixTransitive(s3, s2, s1);
    SuffixTransitive(s3, s1, s);
  }

  // ---------- Raw mode agrees with structured mode ----------

  /** How the structured decoder may fail on input that raw mode accepts. */
  predicate ContentError(e: Error, ordered: bool)
  {
    e == BadInteger || (ordered && e == Unordered)
  }

  ghost predicate Agree<T>(structured: Parsed<T>, raw: Parsed<Skipped>, ordered: bool)
  {
    && (structured.Ok? ==> raw == Ok(Skipped, structured.rest))
    && (raw.Ok? ==> (structured.Ok? && structured.rest == raw.rest)
                    || (structured.Err? && ContentError(structured.error, ordered)))
  }

  /**
    Whatever the structured decoder accepts, raw mode accepts and consumes alike;
    whatever raw mode accepts, the structured decoder accepts too, unless an
    integer token does not parse or (when checked) keys are out of order.
   */
  lemma {:induction false} RawAgrees(s: Bytes, ordered: bool)
    ensures Agree(Parse(s, ordered), Skip(s), ordered)
    decreases |s|, 0
  {
    hide ParseItems, ParseEntries, SkipItems, SkipEntries, ParseString, Suffix;
    if s != [] && s[0] == L {
      RawItemsAgree(s[1..], ordered, []);
    } else if s != [] && s[0] == D {
      RawEntriesAgree(s[1..], ordered, map[], None);
    }
  }

  lemma {:induction false} RawItemsAgree(s: Bytes, ordered: bool, acc: seq<Value>)
    ensures Agree(ParseItems(s, ordered, acc), SkipItems(s), ordered)
    decreases |s|, 1
  {
    hide Parse, Skip, Suffix;
    if s != [] && s[0] != E {
      RawAgrees(s, ordered);
      var v := Parse(s, ordered);
      if v.Ok? { RawItemsAgree(v.rest, ordered, acc + [v.value]); }
    }
  }

  lemma {:induction false} RawEntriesAgree(s: Bytes, ordered: bool, acc: map<Bytes, Value>, last: Option<Bytes>)
    ensures Agree(ParseEntries(s, ordered, acc, last), SkipEntries(s), ordered)
    decreases |s|, 1
  {
    hide Parse, Skip, ParseString, Less, Suffix;
    var k := ParseString(s);
    if s != [] && s[0] != E && k.Ok? {
      RawAgrees(k.rest, ordered);
      var v := Parse(k.rest, ordered);
      if v.Ok? { RawEntriesAgree(v.rest, ordered, acc[k.value := v.value], Some(k.value)); }
    }
  }

  // What the structured decoder asks of input that raw mode walks through: read off the input alone.

  /** Every integer token holds a 64-bit number and, with `ordered`, no key lies below the one before it. */
  predicate Good(s: Bytes, ordered: bool)
    decreases |s|, 0
  {
    if s == [] then true
    else if s[0] == I then ReadTo(s[1..], E).Ok? ==> ParseInt(ReadTo(s[1..], E).value, HALF64).Some?
    else if s[0] == L then GoodItems(s[1..], ordered)
    else if s[0] == D then GoodEntries(s[1..], ordered, None)
    else true
  }

  predicate GoodItems(s: Bytes, ordered: bool)
    decreases |s|, 1
  {
    s == [] || s[0] == E || (Good(s, ordered) && (Skip(s).Ok? ==> GoodItems(Skip(s).rest, ordered)))
  }

  predicate GoodEntries(s: Bytes, ordered: bool, last: Option<Bytes>)
    decreases |s|, 1
  {
    var k := ParseString(s);
    s == [] || s[0] == E || k.Err? ||
    (&& !(ordered && last.Some? && Less(k.value, last.value))
     && Good(k.rest, ordered)
     && (Skip(k.rest).Ok? ==> GoodEntries(Skip(k.rest).rest, ordered, Some(k.value))))
  }

  /**
    The two modes differ on exactly the inputs with a bad integer token or, when checked, a key
    out of order: input that raw mode accepts is accepted by the structured decoder if and only
    if it is good.
   */
  lemma {:induction false} RawAcceptsExactly(s: Bytes, ordered: bool)
    requires Skip(s).Ok?
    ensures Parse(s, ordered).Ok? <==> Good(s, ordered)
    decreases |s|, 0
  {
    hide ParseItems, ParseEntries, SkipItems, SkipEntries, GoodItems, GoodEntries, ParseString, Suffix;
    if s[0] == L {
      ItemsAcceptedExactly(s[1..], ordered, []);
    } else if s[0] == D {
      EntriesAcceptedExactly(s[1..], ordered, map[], None);
    }
  }

  lemma {:induction false} ItemsAcceptedExactly(s: Bytes, ordered: bool, acc: seq<Value>)
    requires SkipItems(s).Ok?
    ensures ParseItems(s, ordered, acc).Ok? <==> GoodItems(s, ordered)
    decreases |s|, 1
  {
    hide Parse, Skip, Good, Suffix;
    if s[0] != E {
      RawAcceptsExactly(s, ordered);
      RawAgrees(s, ordered);
      var v := Parse(s, ordered);
      if v.Ok? { ItemsAcceptedExactly(v.rest, ordered, acc + [v.value]); }
    }
  }

  lemma {:induction false} EntriesAcceptedExactly(s: Bytes, ordered: bool, acc: map<Bytes, Value>, last: Option<Bytes>)
    requires SkipEntries(s).Ok?
    ensures ParseEntries(s, ordered, acc, last).Ok? <==> GoodEntries(s, ordered, last)
    decreases |s|, 1
  {
    hide Parse, Skip, Good, ParseString, Less, Suffix;
    if s[0] != E {
      var k := ParseString(s);
      RawAcceptsExactly(k.rest, ordered);
      RawAgrees(k.rest, ordered);
      var v := Parse(k.rest, ordered);
      if v.Ok? { EntriesAcceptedExactly(v.rest, ordered, acc[k.value := v.value], Some(k.value)); }
    }
  }

  /** Decoding the bytes that raw mode captured gives the value that decoding in place gives. */
  lemma CaptureThenDecode(s: Bytes, ordered: bool)
    requires Parse(s, ordered).Ok?
    ensures var r := Parse(s, ordered);
            Skip(s) == Ok(Skipped, r.rest) && Parse(Taken(s, r.rest), ordered) == Ok(r.value, [])
  {
    RawAgrees(s, ordered);
    ParseLocal(s, ordered, []);
    var r := Parse(s, ordered);
    assert Taken(s, r.rest) + [] == Taken(s, r.rest);
  }

  /** Raw mode does accept more: an integer token without digits. */
  lemma RawAcceptsMore()
    ensures Skip([I, E]) == Ok(Skipped, []) && Parse([I, E], false) == Err(BadInteger)
  {
    assert [I, E][1..] == [E];
    assert IndexOf([E], E) == 0;
    assert [E][..0] == [] && [E][1..] == [];
  }
}
