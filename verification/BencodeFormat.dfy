/** Bencoded text spelled out in characters, and dictionaries that are not canonical. */
module BencodeFormat {
  import opened ByteStrings
  import opened Bencode
  import opened BencodeCodec
  import opened BencodeTheorems
  import Extension

  lemma Marks()
    ensures Ascii("i") == [I] && Ascii("l") == [L] && Ascii("d") == [D] && Ascii("e") == [E] && Ascii(":") == [COLON]
  {
  }

  function Concat(parts: seq<Bytes>): Bytes
  {
    if parts == [] then [] else parts[0] + Concat(parts[1..])
  }

  // ---------- What the encoder writes ----------

  lemma ScalarText(n: int, t: Bytes)
    ensures Encode(Int(n)) == Ascii("i") + SignedDecimal(n) + Ascii("e")
    ensures Encode(Str(t)) == Decimal(|t|) + Ascii(":") + t
  {
    Marks();
  }

  ghost function Texts(items: seq<Value>): (r: seq<Bytes>)
    ensures |r| == |items|
  {
    seq(|items|, i requires 0 <= i < |items| => Encode(items[i]))
  }

  lemma {:induction false} ItemsConcat(items: seq<Value>)
    ensures EncodeItems(items) == Concat(Texts(items))
  {
    hide Encode;
    if items != [] {
      ItemsConcat(items[1..]);
      assert Texts(items)[1..] == Texts(items[1..]);
    }
  }

  /** A list is its items' texts, in order, between l and e. */
  lemma ListIs(items: seq<Value>)
    ensures Encode(List(items)) == Ascii("l") + Concat(Texts(items)) + Ascii("e")
  {
    hide EncodeItems;
    Marks();
    ItemsConcat(items);
  }

  ghost function EntryTexts(m: map<Bytes, Value>, keys: seq<Bytes>): (r: seq<Bytes>)
    requires forall i :: 0 <= i < |keys| ==> keys[i] in m
    ensures |r| == |keys|
  {
    seq(|keys|, i requires 0 <= i < |keys| =>
        if m[keys[i]].Nil? then [] else Encode(Str(keys[i])) + Encode(m[keys[i]]))
  }

  lemma {:induction false} EntriesConcat(m: map<Bytes, Value>, keys: seq<Bytes>)
    requires forall i :: 0 <= i < |keys| ==> keys[i] in m
    ensures EncodeEntries(Dict(m), keys) == Concat(EntryTexts(m, keys))
    decreases |keys|
  {
    hide EncodeString;
    if keys != [] {
      EntriesConcat(m, keys[1..]);
      assert EntryTexts(m, keys)[1..] == EntryTexts(m, keys[1..]);
    }
  }

  /** A dictionary is the texts of its keys and values, keys ascending, between d and e; nil values are left out. */
  lemma DictIs(m: map<Bytes, Value>, keys: seq<Bytes>)
    requires forall k :: k in keys <==> k in m
    requires forall i, j :: 0 <= i < j < |keys| ==> exists p: nat :: LessAt(keys[i], keys[j], p)
    ensures Encode(Dict(m)) == Ascii("d") + Concat(EntryTexts(m, keys)) + Ascii("e")
  {
    hide EncodeEntries, Less, SortedKeys, EntryTexts;
    Marks();
    forall i, j | 0 <= i < j < |keys| ensures Less(keys[i], keys[j]) { LessExactly(keys[i], keys[j]); }
    SortedIsUnique(keys, SortedKeys(m.Keys));
    EntriesConcat(m, keys);
  }

  // ---------- What the decoder accepts ----------

  /** The text up to the first mark, and what follows the mark. */
  ghost predicate SplitAt(s: Bytes, mark: Byte, line: Bytes, rest: Bytes)
  {
    mark !in line && s == line + [mark] + rest
  }

  lemma ReadToExactly(s: Bytes, mark: Byte, line: Bytes, rest: Bytes)
    ensures ReadTo(s, mark) == Ok(line, rest) <==> SplitAt(s, mark, line, rest)
  {
    if SplitAt(s, mark, line, rest) {
      IndexOfUnique(line, mark, rest);
      assert s[..|line|] == line && s[|line| + 1..] == rest;
    }
    var i := IndexOf(s, mark);
    if i < |s| { assert s == s[..i] + [mark] + s[i + 1..]; }
  }

  /** A string is a length below 2^31, a colon, and that many bytes; nothing else is taken for one. */
  lemma StringExactly(s: Bytes, t: Bytes, rest: Bytes)
    ensures ParseString(s) == Ok(t, rest) <==>
              exists line :: SplitAt(s, 58, line, t + rest) && ParseInt(line, 0x8000_0000) == Some(|t|)
  {
    hide ParseInt, ReadTo;
    if ParseString(s) == Ok(t, rest) {
      var r := ReadTo(s, COLON);
      ReadToExactly(s, COLON, r.value, r.rest);
      assert r.rest == t + rest;
      assert SplitAt(s, 58, r.value, t + rest);
    }
    if line :| SplitAt(s, 58, line, t + rest) && ParseInt(line, 0x8000_0000) == Some(|t|) {
      ReadToExactly(s, COLON, line, t + rest);
      assert (t + rest)[..|t|] == t && (t + rest)[|t|..] == rest;
    }
  }

  /** An integer is what stands between i and the first e, a signed 64-bit number. */
  lemma IntExactly(s: Bytes, ordered: bool, n: int, rest: Bytes)
    ensures Parse(s, ordered) == Ok(Int(n), rest) <==>
              exists line :: SplitAt(s, 101, Ascii("i") + line, rest) && ParseInt(line, 0x8000_0000_0000_0000) == Some(n)
  {
    hide ParseInt, ReadTo, ParseItems, ParseEntries, ParseString, Ascii, Parse;
    Marks();
    IntRound(s, ordered);
    if Parse(s, ordered) == Ok(Int(n), rest) {
      var r := ReadTo(s[1..], E);
      ReadToExactly(s[1..], E, r.value, r.rest);
      assert s == [s[0]] + s[1..];
      assert SplitAt(s, 101, Ascii("i") + r.value, rest);
    }
    if line :| SplitAt(s, 101, Ascii("i") + line, rest) && ParseInt(line, 0x8000_0000_0000_0000) == Some(n) {
      assert s[0] == I && s[1..] == line + [E] + rest;
      assert E !in line by { assert forall i :: 0 <= i < |line| ==> line[i] == ([I] + line)[i + 1]; }
      ReadToExactly(s[1..], E, line, rest);
    }
  }

  lemma IntRound(s: Bytes, ordered: bool)
    ensures s != [] && s[0] == I ==>
              var r := ReadTo(s[1..], E);
              Parse(s, ordered) == if r.Err? then Err(r.error)
                                   else match ParseInt(r.value, HALF64)
                                     case None => Err(BadInteger)
                                     case Some(n) => Ok(Int(n), r.rest)
    ensures Parse(s, ordered).Ok? && Parse(s, ordered).value.Int? ==> s != [] && s[0] == I
  {
    hide ReadTo, ParseInt, ParseItems, ParseEntries, ParseString;
  }

  /** The first byte tells the kind of value, and any other byte is refused. */
  lemma KindByFirstByte(s: Bytes, ordered: bool)
    requires Parse(s, ordered).Ok?
    ensures var v := Parse(s, ordered).value;
            && s != [] && !v.Nil?
            && (v.Int? <==> s[0] == 105) && (v.List? <==> s[0] == 108) && (v.Dict? <==> s[0] == 100)
            && (v.Str? <==> 48 <= s[0] <= 57) && (v.Str? ==> ParseString(s) == Ok(v.s, Parse(s, ordered).rest))
  {
    hide ReadTo, ParseItems, ParseEntries, ParseString, ParseInt;
  }

  lemma {:induction false} ItemsAccumulate(s: Bytes, ordered: bool, acc: seq<Value>)
    ensures var r, all := ParseItems(s, ordered, []), ParseItems(s, ordered, acc);
            && (r.Ok? <==> all.Ok?)
            && (r.Ok? ==> all == Ok(acc + r.value, r.rest))
    decreases |s|
  {
    hide Parse;
    if s != [] && s[0] != E {
      var v := Parse(s, ordered);
      if v.Ok? {
        ItemsAccumulate(v.rest, ordered, acc + [v.value]);
        ItemsAccumulate(v.rest, ordered, [] + [v.value]);
        var r := ParseItems(v.rest, ordered, []);
        if r.Ok? { assert (acc + [v.value]) + r.value == acc + ([] + [v.value] + r.value); }
      }
    } else if s != [] {
      assert acc + [] == acc;
    }
  }

  lemma ItemsRound(a: Bytes, ordered: bool)
    ensures var all, v := ParseItems(a, ordered, []), Parse(a, ordered);
            && (a == [] ==> all.Err?)
            && (a != [] && a[0] == E ==> all == Ok([], a[1..]))
            && (a != [] && a[0] != E && v.Err? ==> all.Err?)
            && (a != [] && a[0] != E && v.Ok? ==>
                  var r := ParseItems(v.rest, ordered, []);
                  (r.Ok? <==> all.Ok?) && (r.Ok? ==> all == Ok([v.value] + r.value, r.rest)))
  {
    hide Parse;
    var v := Parse(a, ordered);
    if v.Ok? {
      assert [] + [v.value] == [v.value];
      ItemsAccumulate(v.rest, ordered, [v.value]);
    }
  }

  /** A list is e, or a value and then again a list: `a` is the text behind its l. */
  lemma ListUnfolds(a: Bytes, ordered: bool, items: seq<Value>, rest: Bytes)
    ensures Parse([L] + a, ordered) == Ok(List(items), rest) <==>
              || (a == [E] + rest && items == [])
              || (&& a != [] && a[0] != E && items != [] && Parse(a, ordered).Ok? && Parse(a, ordered).value == items[0]
                  && Parse([L] + Parse(a, ordered).rest, ordered) == Ok(List(items[1..]), rest))
  {
    hide Parse, ParseItems;
    ListIsItems(a, ordered);
    ItemsRound(a, ordered);
    assert a != [] && a[0] == E ==> a == [E] + a[1..];
    assert ([E] + rest)[1..] == rest;
    assert items != [] ==> items == [items[0]] + items[1..];
    var v := Parse(a, ordered);
    if v.Ok? {
      ListIsItems(v.rest, ordered);
      var r := ParseItems(v.rest, ordered, []);
      if r.Ok? { assert ([v.value] + r.value)[0] == v.value && ([v.value] + r.value)[1..] == r.value; }
    }
  }

  lemma ListIsItems(a: Bytes, ordered: bool)
    ensures var r := ParseItems(a, ordered, []);
            Parse([L] + a, ordered) == if r.Ok? then Ok(List(r.value), r.rest) else Err(r.error)
  {
    hide ParseItems;
    assert ([L] + a)[1..] == a;
  }

  lemma {:induction false} EntriesAccumulate(s: Bytes, acc: map<Bytes, Value>, last: Option<Bytes>)
    ensures var r, all := ParseEntries(s, false, map[], None), ParseEntries(s, false, acc, last);
            && (r.Ok? <==> all.Ok?)
            && (r.Ok? ==> all == Ok(acc + r.value, r.rest))
    decreases |s|
  {
    hide Parse, ParseString;
    if s != [] && s[0] != E {
      var k := ParseString(s);
      if k.Ok? && Parse(k.rest, false).Ok? {
        var v := Parse(k.rest, false);
        EntriesAccumulate(v.rest, acc[k.value := v.value], Some(k.value));
        EntriesAccumulate(v.rest, map[][k.value := v.value], Some(k.value));
        var r := ParseEntries(v.rest, false, map[], None);
        if r.Ok? { UpdateFirst(acc, k.value, v.value, r.value); }
      }
    } else if s != [] {
      assert acc + map[] == acc;
    }
  }

  /** A dictionary is e, or a string, a value and then again a dictionary, whose value for the key takes precedence. */
  lemma DictUnfolds(a: Bytes)
    ensures Parse([D] + a, false).Ok? <==>
              && a != []
              && (a[0] == E
                  || (&& ParseString(a).Ok? && Parse(ParseString(a).rest, false).Ok?
                      && Parse([D] + Parse(ParseString(a).rest, false).rest, false).Ok?))
    ensures a != [] && a[0] == E ==> Parse([D] + a, false) == Ok(Dict(map[]), a[1..])
    ensures a != [] && a[0] != E && Parse([D] + a, false).Ok? ==>
              var k := ParseString(a);
              var v := Parse(k.rest, false);
              var later := Parse([D] + v.rest, false);
              && later.value.Dict? && later.rest == Parse([D] + a, false).rest
              && Parse([D] + a, false).value == Dict(map[k.value := v.value] + later.value.m)
  {
    hide Parse, ParseEntries, ParseString;
    DictIsEntries(a);
    EntriesRound(a);
    var k := ParseString(a);
    if k.Ok? && Parse(k.rest, false).Ok? { DictIsEntries(Parse(k.rest, false).rest); }
  }

  lemma EntriesRound(a: Bytes)
    ensures var all, k := ParseEntries(a, false, map[], None), ParseString(a);
            && (a == [] ==> all.Err?)
            && (a != [] && a[0] == E ==> all == Ok(map[], a[1..]))
            && (a != [] && a[0] != E && (k.Err? || Parse(k.rest, false).Err?) ==> all.Err?)
            && (a != [] && a[0] != E && k.Ok? && Parse(k.rest, false).Ok? ==>
                  var v := Parse(k.rest, false);
                  var r := ParseEntries(v.rest, false, map[], None);
                  (r.Ok? <==> all.Ok?) && (r.Ok? ==> all == Ok(map[k.value := v.value] + r.value, r.rest)))
  {
    hide Parse, ParseString;
    var k := ParseString(a);
    if k.Ok? && Parse(k.rest, false).Ok? {
      var v := Parse(k.rest, false);
      EntriesAccumulate(v.rest, map[][k.value := v.value], Some(k.value));
    }
  }

  lemma DictIsEntries(a: Bytes)
    ensures var r := ParseEntries(a, false, map[], None);
            Parse([D] + a, false) == if r.Ok? then Ok(Dict(r.value), r.rest) else Err(r.error)
  {
    hide ParseEntries;
    assert ([D] + a)[1..] == a;
  }

  // ---------- Dictionaries with keys in any order and repeated ----------

  /** One key and its value as a peer may send them. */
  datatype Pair = Pair(key: Bytes, value: Value)

  ghost predicate Sendable(p: Pair)
  {
    |p.key| < HALF32 && !p.value.Nil? && Fits(p.value)
  }

  ghost function PairText(p: Pair): Bytes
  {
    EncodeString(p.key) + Encode(p.value)
  }

  ghost function PairsText(ps: seq<Pair>): Bytes
  {
    if ps == [] then [] else PairText(ps[0]) + PairsText(ps[1..])
  }

  /** Of a repeated key the last value counts. */
  ghost function LastWins(ps: seq<Pair>): map<Bytes, Value>
  {
    if ps == [] then map[]
    else LastWins(ps[..|ps| - 1])[ps[|ps| - 1].key := Strip(ps[|ps| - 1].value)]
  }

  lemma {:induction false} LastWinsAppend(p: Pair, ps: seq<Pair>)
    ensures LastWins([p] + ps) == map[p.key := Strip(p.value)] + LastWins(ps)
    decreases |ps|
  {
    hide Strip;
    if ps == [] {
      assert [p] + ps == [p] && [p][..0] == [];
      assert LastWins([p][..0]) == map[];
    } else {
      var n := |ps| - 1;
      LastWinsAppend(p, ps[..n]);
      assert ([p] + ps)[..n + 1] == [p] + ps[..n] && ([p] + ps)[n + 1] == ps[n];
    }
  }

  lemma {:induction false} PairsParse(ps: seq<Pair>, rest: Bytes, acc: map<Bytes, Value>, last: Option<Bytes>)
    requires forall i :: 0 <= i < |ps| ==> Sendable(ps[i])
    ensures ParseEntries(PairsText(ps) + ([E] + rest), false, acc, last) == Ok(acc + LastWins(ps), rest)
    decreases |ps|
  {
    hide ParseEntries, Encode, Fits, Strip, EncodeString;
    if ps == [] {
      assert PairsText(ps) + ([E] + rest) == [E] + rest && acc + map[] == acc;
      EntriesStop(rest, acc, last);
    } else {
      var p, tail := ps[0], PairsText(ps[1..]) + ([E] + rest);
      assert Sendable(p);
      assert PairsText(ps) + ([E] + rest) == PairText(p) + tail;
      PairStep(p, tail, acc, last);
      PairsParse(ps[1..], rest, acc[p.key := Strip(p.value)], Some(p.key));
      assert ps == [p] + ps[1..];
      LastWinsAppend(p, ps[1..]);
      UpdateFirst(acc, p.key, Strip(p.value), LastWins(ps[1..]));
    }
  }

  lemma UpdateFirst(acc: map<Bytes, Value>, k: Bytes, v: Value, later: map<Bytes, Value>)
    ensures acc[k := v] + later == acc + (map[k := v] + later)
  {
  }

  lemma EntriesStop(rest: Bytes, acc: map<Bytes, Value>, last: Option<Bytes>)
    ensures ParseEntries([E] + rest, false, acc, last) == Ok(acc, rest)
  {
    assert ([E] + rest)[1..] == rest;
  }

  lemma PairStep(p: Pair, tail: Bytes, acc: map<Bytes, Value>, last: Option<Bytes>)
    requires Sendable(p)
    ensures ParseEntries(PairText(p) + tail, false, acc, last)
            == ParseEntries(tail, false, acc[p.key := Strip(p.value)], Some(p.key))
  {
    hide Parse, ParseString, Encode, Fits, Strip;
    var s1 := Encode(p.value) + tail;
    assert PairText(p) + tail == EncodeString(p.key) + s1;
    assert (EncodeString(p.key) + s1)[0] == Decimal(|p.key|)[0];
    StringRoundTrip(p.key, s1);
    RoundTrip(p.value, tail, false);
  }

  lemma DictSplits(entries: Bytes, rest: Bytes)
    ensures var s := Ascii("d") + entries + Ascii("e") + rest; s != [] && s[0] == D && s[1..] == entries + ([E] + rest)
  {
    hide Ascii;
    Marks();
  }

  /** Keys may come in any order and repeatedly: each is decoded to the last value that came for it. */
  lemma LastKeyWins(ps: seq<Pair>, rest: Bytes)
    requires forall i :: 0 <= i < |ps| ==> Sendable(ps[i])
    ensures Parse(Ascii("d") + PairsText(ps) + Ascii("e") + rest, false) == Ok(Dict(LastWins(ps)), rest)
  {
    hide ParseEntries, Sendable, PairsText, LastWins, Ascii;
    DictSplits(PairsText(ps), rest);
    PairsParse(ps, rest, map[], None);
    assert map[] + LastWins(ps) == LastWins(ps);
  }

  // ---------- The ut_metadata message ----------

  lemma KeyNames()
    ensures Extension.MSG_TYPE == Ascii("msg_type") && Extension.PIECE == Ascii("piece")
    ensures Extension.TOTAL_SIZE == Ascii("total_size") && Extension.DASH == Ascii("-")
  {
  }

  /** The header's entries; only a data message has a size, and only if it is not zero. */
  function HeaderMap(um: Extension.UtMetadata): map<Bytes, Value>
  {
    var m := map[Ascii("msg_type") := Int(um.msgType), Ascii("piece") := Int(um.piece)];
    if um.msgType == 1 && um.totalSize > 0 then m[Ascii("total_size") := Int(um.totalSize)] else m
  }

  /** A payload is the bencoded header and, for a data message, the data behind it. */
  lemma PayloadIs(um: Extension.UtMetadata)
    ensures Extension.EncodePayload(um) == Encode(Dict(HeaderMap(um))) + (if um.msgType == 1 then um.data else [])
  {
    hide Encode, Ascii, Extension.MSG_TYPE, Extension.PIECE, Extension.TOTAL_SIZE;
    KeyNames();
  }

  /** The field that a key names. */
  lemma FieldOfKey(key: Bytes)
    ensures Extension.FieldOf(Extension.UT_FIELDS, key)
            == if key == Ascii("msg_type") then Extension.MsgType
               else if key == Ascii("piece") then Extension.Piece
               else if key == Ascii("total_size") then Extension.TotalSize
               else if key == Ascii("-") then Extension.Data
               else Extension.NoField
  {
    hide Ascii, Extension.MSG_TYPE, Extension.PIECE, Extension.TOTAL_SIZE, Extension.DASH;
    KeyNames();
  }

  /** A pair that the header's struct can take: numbers for its three fields, anything for other keys. */
  ghost predicate Takes(p: Pair)
  {
    && Sendable(p)
    && (p.key in {Ascii("msg_type"), Ascii("total_size")} ==> p.value.Int? && p.value.n >= 0)
    && (p.key == Ascii("piece") ==> p.value.Int?)
    && (p.key == Ascii("-") ==> p.value.Str?)
  }

  /** What a pair changes. */
  ghost function Assign(um: Extension.UtMetadata, p: Pair): Extension.UtMetadata
    requires Takes(p)
  {
    if p.key == Ascii("msg_type") then um.(msgType := p.value.n % 256)
    else if p.key == Ascii("piece") then um.(piece := p.value.n)
    else if p.key == Ascii("total_size") then um.(totalSize := p.value.n)
    else um
  }

  ghost function AssignAll(um: Extension.UtMetadata, ps: seq<Pair>): Extension.UtMetadata
    requires forall i :: 0 <= i < |ps| ==> Takes(ps[i])
    decreases |ps|
  {
    if ps == [] then um else AssignAll(Assign(um, ps[0]), ps[1..])
  }

  /** A number for a numeric field, under whatever names. */
  lemma NumberPair(vals: Extension.FieldNames, p: Pair, rest: Bytes, um: Extension.UtMetadata)
    requires Sendable(p) && p.value.Int?
    requires var f := Extension.FieldOf(vals, p.key); f.MsgType? || f.Piece? || f.TotalSize?
    requires Extension.FieldOf(vals, p.key).Piece? || p.value.n >= 0
    ensures Extension.ParseFields(PairText(p) + rest, vals, um)
            == Extension.ParseFields(rest, vals, Extension.SetNumber(um, Extension.FieldOf(vals, p.key), p.value.n))
  {
    hide Extension.ParseNumber, ParseString, Extension.FieldOf, Encode;
    var s1 := Encode(p.value) + rest;
    assert PairText(p) + rest == EncodeString(p.key) + s1;
    assert (EncodeString(p.key) + s1)[0] == Decimal(|p.key|)[0];
    StringRoundTrip(p.key, s1);
    Extension.NumberRoundTrip(p.value.n, rest, Extension.FieldOf(vals, p.key).Piece?);
  }

  /** Any other value, and a string under the dash, is dropped. */
  lemma OtherPair(vals: Extension.FieldNames, p: Pair, rest: Bytes, um: Extension.UtMetadata)
    requires Sendable(p)
    requires var f := Extension.FieldOf(vals, p.key); f.NoField? || (f.Data? && p.value.Str?)
    ensures Extension.ParseFields(PairText(p) + rest, vals, um) == Extension.ParseFields(rest, vals, um)
  {
    hide Parse, ParseString, Extension.FieldOf, Encode, Fits;
    var s1 := Encode(p.value) + rest;
    assert PairText(p) + rest == EncodeString(p.key) + s1;
    assert (EncodeString(p.key) + s1)[0] == Decimal(|p.key|)[0];
    StringRoundTrip(p.key, s1);
    RoundTrip(p.value, rest, false);
    if p.value.Str? {
      StringFits(p.value);
      DataString(p.value.s, rest);
    }
  }

  lemma StringFits(v: Value)
    requires v.Str? && Fits(v)
    ensures |v.s| < HALF32
  {
  }

  lemma DataString(t: Bytes, rest: Bytes)
    requires |t| < HALF32
    ensures Extension.SkipData(Encode(Str(t)) + rest) == Ok(Skipped, rest)
  {
    hide ParseString;
    StringRoundTrip(t, rest);
    assert (Encode(Str(t)) + rest)[0] == Decimal(|t|)[0];
  }

  lemma TakesStep(p: Pair, rest: Bytes, um: Extension.UtMetadata)
    requires Takes(p)
    ensures Extension.ParseFields(PairText(p) + rest, Extension.UT_FIELDS, um)
            == Extension.ParseFields(rest, Extension.UT_FIELDS, Assign(um, p))
  {
    hide Extension.ParseFields, Extension.FieldOf, Ascii, Sendable, PairText;
    FieldOfKey(p.key);
    DistinctNames();
    var f := Extension.FieldOf(Extension.UT_FIELDS, p.key);
    if f.NoField? || f.Data? {
      OtherPair(Extension.UT_FIELDS, p, rest, um);
    } else {
      NumberPair(Extension.UT_FIELDS, p, rest, um);
    }
  }

  lemma DistinctNames()
    ensures Ascii("msg_type") != Ascii("piece") && Ascii("msg_type") != Ascii("total_size")
    ensures Ascii("piece") != Ascii("total_size")
    ensures Ascii("-") !in {Ascii("msg_type"), Ascii("piece"), Ascii("total_size")}
  {
    assert |Ascii("msg_type")| == 8 && |Ascii("piece")| == 5 && |Ascii("total_size")| == 10 && |Ascii("-")| == 1;
  }

  lemma {:induction false} PairsAssign(ps: seq<Pair>, data: Bytes, um: Extension.UtMetadata)
    requires forall i :: 0 <= i < |ps| ==> Takes(ps[i])
    ensures Extension.ParseFields(PairsText(ps) + ([E] + data), Extension.UT_FIELDS, um) == Ok(AssignAll(um, ps), data)
    decreases |ps|
  {
    hide Extension.ParseFields, Takes, Assign, PairText;
    if ps == [] {
      assert PairsText(ps) + ([E] + data) == [E] + data;
      Extension.FieldsEnd(data, Extension.UT_FIELDS, um);
    } else {
      assert Takes(ps[0]);
      var tail := PairsText(ps[1..]) + ([E] + data);
      assert PairsText(ps) + ([E] + data) == PairText(ps[0]) + tail;
      TakesStep(ps[0], tail, um);
      PairsAssign(ps[1..], data, Assign(um, ps[0]));
    }
  }

  /**
    A peer's header may have its keys in any order, repeated, and mixed with keys the struct does
    not know: each field takes the last value sent for it, and the data is all that follows.
   */
  lemma HeaderInAnyOrder(ps: seq<Pair>, data: Bytes)
    requires forall i :: 0 <= i < |ps| ==> Takes(ps[i])
    ensures Extension.DecodePayload(Ascii("d") + PairsText(ps) + Ascii("e") + data, Extension.ZERO)
            == Success(AssignAll(Extension.ZERO, ps).(data := data))
  {
    hide Extension.ParseFields, Takes, PairsText, AssignAll, Ascii, Extension.UT_FIELDS, Extension.WrongKind;
    DictSplits(PairsText(ps), data);
    PairsAssign(ps, data, Extension.ZERO);
  }
}
