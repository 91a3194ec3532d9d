/** The stateful decoder and encoder, proved against the functions of module Bencode. */
module BencodeCodec {
  import opened ByteStrings
  import opened Bencode

  datatype Result<+T> = Success(value: T) | Failure(error: Error)

  /** Reading took the input from `r0` to `r1`: counted in n, and in raw mode appended to buf. */
  ghost predicate Moved(raw: bool, r0: Bytes, n0: nat, buf0: Bytes, r1: Bytes, n1: nat, buf1: Bytes)
  {
    && Suffix(r1, r0)
    && n1 == n0 + |r0| - |r1|
    && buf1 == if raw then buf0 + Taken(r0, r1) else buf0
  }

  lemma MovedTransitive(raw: bool, r0: Bytes, n0: nat, buf0: Bytes, r1: Bytes, n1: nat, buf1: Bytes,
                        r2: Bytes, n2: nat, buf2: Bytes)
    requires Moved(raw, r0, n0, buf0, r1, n1, buf1) && Moved(raw, r1, n1, buf1, r2, n2, buf2)
    ensures Moved(raw, r0, n0, buf0, r2, n2, buf2)
  {
    hide Suffix, Taken;
    SuffixTransitive(r2, r1, r0);
    if raw { ConcatAssociative(buf0, Taken(r0, r1), Taken(r1, r2)); }
  }

  lemma MovedNot(raw: bool, r: Bytes, n: nat, buf: Bytes)
    ensures Moved(raw, r, n, buf, r, n, buf)
  {
  }

  class Decoder {
    var r: Bytes            // the unread input
    var raw: bool
    var buf: Bytes          // what raw mode captured
    var n: nat              // bytes parsed so far
    var failUnordered: bool

    constructor (input: Bytes)
      ensures r == input && !raw && buf == [] && n == 0 && !failUnordered
    {
      r, raw, buf, n, failUnordered := input, false, [], 0, false;
    }

    /** Since the state (r0, n0, buf0), reading consumed, counted and captured the same bytes. */
    ghost predicate Since(r0: Bytes, n0: nat, buf0: Bytes)
      reads this
    {
      Moved(raw, r0, n0, buf0, r, n, buf)
    }

    lemma SinceTransitive(r0: Bytes, n0: nat, buf0: Bytes, r1: Bytes, n1: nat, buf1: Bytes)
      requires Moved(raw, r0, n0, buf0, r1, n1, buf1)
      requires Since(r1, n1, buf1)
      ensures Since(r0, n0, buf0)
    {
      MovedTransitive(raw, r0, n0, buf0, r1, n1, buf1, r, n, buf);
    }

    /** The call did what the pure parser says: same value, same rest, same reason to fail. */
    ghost predicate Did<T>(res: Result<T>, p: Parsed<T>, r0: Bytes, n0: nat, buf0: Bytes)
      reads this
    {
      match p
      case Ok(v, rest) => res == Success(v) && r == rest && Since(r0, n0, buf0)
      case Err(e) => res == Failure(e)
    }

    method Consume(k: nat) returns (p: Bytes)
      requires k <= |r|
      modifies `r, `n, `buf
      ensures p == old(r)[..k] && r == old(r)[k..]
      ensures Since(old(r), old(n), old(buf))
    {
      p := r[..k];
      SuffixDrop(r, k);
      if raw { buf := buf + p; }
      n := n + k;
      r := r[k..];
    }

    method ConsumeTo(rest: Bytes)
      requires Suffix(rest, r)
      modifies `r, `n, `buf
      ensures r == rest && Since(old(r), old(n), old(buf))
    {
      var _ := Consume(|r| - |rest|);
    }

    method ReadBytes(delim: Byte) returns (res: Result<Bytes>)
      modifies `r, `n, `buf
      ensures Did(res, ReadTo(old(r), delim), old(r), old(n), old(buf))
    {
      var i := IndexOf(r, delim);
      if i == |r| {
        var _ := Consume(i);
        return Failure(Truncated);
      }
      var line := Consume(i + 1);
      return Success(line[..i]);
    }

    method DecodeString() returns (res: Result<Bytes>)
      modifies `r, `n, `buf
      ensures Did(res, ParseString(old(r)), old(r), old(n), old(buf))
    {
      var line := ReadBytes(COLON);
      if line.Failure? { return line; }
      var l := ParseInt(line.value, HALF32);
      if l.None? || l.value < 0 { return Failure(BadLength); }
      ghost var r1, n1, buf1 := r, n, buf;
      if |r| < l.value {
        var _ := Consume(|r|);
        return Failure(Truncated);
      }
      var s := Consume(l.value);
      SinceTransitive(old(r), old(n), old(buf), r1, n1, buf1);
      return Success(s);
    }

    /** In raw mode the digits are captured but not looked at. */
    method DecodeInt() returns (res: Result<Value>)
      requires r != [] && r[0] == I
      modifies `r, `n, `buf
      ensures !raw ==> Did(res, Parse(old(r), failUnordered), old(r), old(n), old(buf))
      ensures raw ==> Did(res, RawResult(Skip(old(r))), old(r), old(n), old(buf))
    {
      var _ := Consume(1);
      ghost var r1, n1, buf1 := r, n, buf;
      var line := ReadBytes(E);
      if line.Failure? { return Failure(line.error); }
      SinceTransitive(old(r), old(n), old(buf), r1, n1, buf1);
      if raw { return Success(Nil); }
      var i := ParseInt(line.value, HALF64);
      if i.None? { return Failure(BadInteger); }
      return Success(Int(i.value));
    }

    method DecodeList() returns (res: Result<Value>)
      requires r != [] && r[0] == L
      modifies `r, `n, `buf
      ensures !raw ==> Did(res, Parse(old(r), failUnordered), old(r), old(n), old(buf))
      ensures raw ==> Did(res, RawResult(Skip(old(r))), old(r), old(n), old(buf))
      decreases |r|, 0
    {
      hide ParseItems, SkipItems, Moved;
      var _ := Consume(1);
      ghost var r1, n1, buf1 := r, n, buf;
      if raw {
        var v := SkipList();
        res := if v.Success? then Success(Nil) else Failure(v.error);
      } else {
        var v := DecodeItems();
        res := if v.Success? then Success(List(v.value)) else Failure(v.error);
      }
      if res.Success? { SinceTransitive(old(r), old(n), old(buf), r1, n1, buf1); }
    }

    /** The list loop of raw mode, after the head token. */
    method SkipList() returns (res: Result<Skipped>)
      requires raw
      modifies `r, `n, `buf
      ensures Did(res, SkipItems(old(r)), old(r), old(n), old(buf))
      decreases |r|, 2
    {
      hide Skip, Moved;
      MovedNot(raw, r, n, buf);
      ghost var wanted := SkipItems(r);
      while true
        invariant Since(old(r), old(n), old(buf))
        invariant wanted == SkipItems(r)
        decreases |r|
      {
        if r == [] { return Failure(Truncated); }
        ghost var r2, n2, buf2 := r, n, buf;
        if r[0] == E {
          var _ := Consume(1);
          SinceTransitive(old(r), old(n), old(buf), r2, n2, buf2);
          return Success(Skipped);
        }
        var v := DecodeInto();
        if v.Failure? { return Failure(v.error); }
        SinceTransitive(old(r), old(n), old(buf), r2, n2, buf2);
      }
    }

    /** The list loop of structured mode, after the head token. */
    method DecodeItems() returns (res: Result<seq<Value>>)
      requires !raw
      modifies `r, `n, `buf
      ensures Did(res, ParseItems(old(r), failUnordered, []), old(r), old(n), old(buf))
      decreases |r|, 2
    {
      hide Parse, Moved;
      MovedNot(raw, r, n, buf);
      var items := [];
      ghost var wanted := ParseItems(r, failUnordered, items);
      while true
        invariant Since(old(r), old(n), old(buf))
        invariant wanted == ParseItems(r, failUnordered, items)
        decreases |r|
      {
        if r == [] { return Failure(Truncated); }
        ghost var r2, n2, buf2 := r, n, buf;
        if r[0] == E {
          var _ := Consume(1);
          SinceTransitive(old(r), old(n), old(buf), r2, n2, buf2);
          return Success(items);
        }
        var v := DecodeInto();
        if v.Failure? { return Failure(v.error); }
        SinceTransitive(old(r), old(n), old(buf), r2, n2, buf2);
        items := items + [v.value];
      }
    }

    method DecodeDict() returns (res: Result<Value>)
      requires r != [] && r[0] == D
      modifies `r, `n, `buf
      ensures !raw ==> Did(res, Parse(old(r), failUnordered), old(r), old(n), old(buf))
      ensures raw ==> Did(res, RawResult(Skip(old(r))), old(r), old(n), old(buf))
      decreases |r|, 0
    {
      hide ParseEntries, SkipEntries, Moved;
      var _ := Consume(1);
      ghost var r1, n1, buf1 := r, n, buf;
      if raw {
        var v := SkipDict();
        res := if v.Success? then Success(Nil) else Failure(v.error);
      } else {
        var v := DecodeEntries();
        res := if v.Success? then Success(Dict(v.value)) else Failure(v.error);
      }
      if res.Success? { SinceTransitive(old(r), old(n), old(buf), r1, n1, buf1); }
    }

    /** The dictionary loop of raw mode, after the head token. */
    method SkipDict() returns (res: Result<Skipped>)
      requires raw
      modifies `r, `n, `buf
      ensures Did(res, SkipEntries(old(r)), old(r), old(n), old(buf))
      decreases |r|, 2
    {
      hide Skip, ParseString, Moved;
      MovedNot(raw, r, n, buf);
      ghost var wanted := SkipEntries(r);
      while true
        invariant Since(old(r), old(n), old(buf))
        invariant wanted == SkipEntries(r)
        decreases |r|
      {
        if r == [] { return Failure(Truncated); }
        ghost var r2, n2, buf2 := r, n, buf;
        if r[0] == E {
          var _ := Consume(1);
          SinceTransitive(old(r), old(n), old(buf), r2, n2, buf2);
          return Success(Skipped);
        }
        var key := DecodeString();
        if key.Failure? { return Failure(key.error); }
        SinceTransitive(old(r), old(n), old(buf), r2, n2, buf2);
        r2, n2, buf2 := r, n, buf;
        var v := DecodeInto();
        if v.Failure? { return Failure(v.error); }
        SinceTransitive(old(r), old(n), old(buf), r2, n2, buf2);
      }
    }

    /** The dictionary loop of structured mode, after the head token. */
    method DecodeEntries() returns (res: Result<map<Bytes, Value>>)
      requires !raw
      modifies `r, `n, `buf
      ensures Did(res, ParseEntries(old(r), failUnordered, map[], None), old(r), old(n), old(buf))
      decreases |r|, 2
    {
      hide Parse, ParseString, Less, Moved;
      MovedNot(raw, r, n, buf);
      var m: map<Bytes, Value>, last: Option<Bytes> := map[], None;
      ghost var wanted := ParseEntries(r, failUnordered, m, last);
      while true
        invariant Since(old(r), old(n), old(buf))
        invariant wanted == ParseEntries(r, failUnordered, m, last)
        decreases |r|
      {
        if r == [] { return Failure(Truncated); }
        ghost var r2, n2, buf2 := r, n, buf;
        if r[0] == E {
          var _ := Consume(1);
          SinceTransitive(old(r), old(n), old(buf), r2, n2, buf2);
          return Success(m);
        }
        var key := DecodeString();
        if key.Failure? { return Failure(key.error); }
        SinceTransitive(old(r), old(n), old(buf), r2, n2, buf2);
        if failUnordered && last.Some? && Less(key.value, last.value) { return Failure(Unordered); }
        last := Some(key.value);
        r2, n2, buf2 := r, n, buf;
        var v := DecodeInto();
        if v.Failure? { return Failure(v.error); }
        SinceTransitive(old(r), old(n), old(buf), r2, n2, buf2);
        m := m[key.value := v.value];
      }
    }

    method DecodeInto() returns (res: Result<Value>)
      modifies `r, `n, `buf
      ensures !raw ==> Did(res, Parse(old(r), failUnordered), old(r), old(n), old(buf))
      ensures raw ==> Did(res, RawResult(Skip(old(r))), old(r), old(n), old(buf))
      decreases |r|, 1
    {
      if r == [] { return Failure(Truncated); }
      if r[0] == I {
        res := DecodeInt();
      } else if IsDigit(r[0]) {
        var s := DecodeString();
        if s.Failure? { return Failure(s.error); }
        return Success(if raw then Nil else Str(s.value));
      } else if r[0] == L {
        res := DecodeList();
      } else if r[0] == D {
        res := DecodeDict();
      } else {
        return Failure(BadToken);
      }
    }

    /** Decoding into a RawMessage: raw mode for the span of one value, then the captured bytes. */
    method DecodeRaw() returns (res: Result<Bytes>)
      requires !raw
      modifies this
      ensures !raw && failUnordered == old(failUnordered)
      ensures match Skip(old(r))
              case Ok(_, rest) =>
                && res == Success(Taken(old(r), rest)) && r == rest
                && n == old(n) + |old(r)| - |rest|
              case Err(e) => res == Failure(e)
    {
      buf := [];
      raw := true;
      var v := DecodeInto();
      raw := false;
      if v.Failure? { return Failure(v.error); }
      assert [] + Taken(old(r), r) == Taken(old(r), r);
      return Success(buf);
    }
  }

  /** Raw mode stores no value. */
  function RawResult(p: Parsed<Skipped>): Parsed<Value>
  {
    if p.Ok? then Ok(Nil, p.rest) else Err(p.error)
  }

  // ---------- Encoder ----------

  /** The keys of a map, in whatever order the map yields them. */
  method MapKeys(m: map<Bytes, Value>) returns (keys: seq<Bytes>)
    ensures multiset(keys) == multiset(m.Keys)
  {
    keys := [];
    var todo := m.Keys;
    while todo != {}
      invariant todo <= m.Keys
      invariant multiset(keys) == multiset(m.Keys - todo)
      decreases |todo|
    {
      var k :| k in todo;
      assert m.Keys - (todo - {k}) == (m.Keys - todo) + {k};
      keys, todo := keys + [k], todo - {k};
    }
    assert m.Keys - {} == m.Keys;
  }

  class Encoder {
    var w: Bytes

    constructor ()
      ensures w == []
    {
      w := [];
    }

    method EncodeValue(v: Value)
      modifies this
      ensures w == old(w) + Encode(v)
      decreases v, 1
    {
      match v
      case Nil =>
      case Int(i) => w := w + ([I] + SignedDecimal(i) + [E]);
      case Str(s) => w := w + EncodeString(s);
      case List(items) => EncodeList(v);
      case Dict(m) => EncodeDict(v);
    }

    method EncodeList(v: Value)
      requires v.List?
      modifies this
      ensures w == old(w) + Encode(v)
      decreases v, 0
    {
      hide EncodeItems;
      w := w + [L];
      WriteItems(v.items);
      w := w + [E];
    }

    method WriteItems(items: seq<Value>)
      modifies this
      ensures w == old(w) + EncodeItems(items)
      decreases items, 2
    {
      hide Encode;
      for i := 0 to |items|
        invariant w == old(w) + EncodeItems(items[..i])
      {
        EncodeValue(items[i]);
        EncodeItemsSnoc(items, i);
      }
      assert items[..|items|] == items;
    }

    method EncodeDict(v: Value)
      requires v.Dict?
      modifies this
      ensures w == old(w) + Encode(v)
      decreases v, 0, 2
    {
      hide EncodeEntries, SortedKeys, Less;
      w := w + [D];
      var keys := MapKeys(v.m);
      keys := SortKeys(keys, v.m.Keys);
      WriteEntries(v, keys);
      w := w + [E];
    }

    method WriteEntries(v: Value, keys: seq<Bytes>)
      requires v.Dict? && forall k :: k in keys ==> k in v.m
      modifies this
      ensures w == old(w) + EncodeEntries(v, keys)
      decreases v, 0, 1
    {
      for i := 0 to |keys|
        invariant w == old(w) + EncodeEntries(v, keys[..i])
      {
        WriteEntry(v, keys[i]);
        EncodeEntriesSnoc(v, keys, i);
      }
      assert keys[..|keys|] == keys;
    }

    method WriteEntry(v: Value, key: Bytes)
      requires v.Dict? && key in v.m
      modifies this
      ensures w == old(w) + EncodeEntry(v, key)
      decreases v, 0, 0
    {
      if v.m[key].Nil? { return; }
      w := w + EncodeString(key);
      EncodeValue(v.m[key]);
    }
  }

  lemma {:induction false} EncodeItemsAppend(a: seq<Value>, b: seq<Value>)
    ensures EncodeItems(a + b) == EncodeItems(a) + EncodeItems(b)
  {
    hide Encode;
    if a == [] {
      assert a + b == b;
    } else {
      EncodeItemsAppend(a[1..], b);
      assert (a + b)[0] == a[0] && (a + b)[1..] == a[1..] + b;
      ConcatAssociative(Encode(a[0]), EncodeItems(a[1..]), EncodeItems(b));
    }
  }

  lemma EncodeItemsSnoc(items: seq<Value>, i: nat)
    requires i < |items|
    ensures EncodeItems(items[..i + 1]) == EncodeItems(items[..i]) + Encode(items[i])
  {
    assert items[..i + 1] == items[..i] + [items[i]];
    EncodeItemsAppend(items[..i], [items[i]]);
    assert EncodeItems([items[i]]) == Encode(items[i]) + EncodeItems([]);
  }

  lemma {:induction false} EncodeEntriesAppend(v: Value, a: seq<Bytes>, b: seq<Bytes>)
    requires v.Dict? && (forall k :: k in a ==> k in v.m) && forall k :: k in b ==> k in v.m
    ensures EncodeEntries(v, a + b) == EncodeEntries(v, a) + EncodeEntries(v, b)
  {
    hide EncodeEntry;
    if a == [] {
      assert a + b == b;
    } else {
      EncodeEntriesAppend(v, a[1..], b);
      assert (a + b)[1..] == a[1..] + b;
    }
  }

  lemma EncodeEntriesSnoc(v: Value, keys: seq<Bytes>, i: nat)
    requires v.Dict? && (forall k :: k in keys ==> k in v.m) && i < |keys|
    ensures EncodeEntries(v, keys[..i + 1]) == EncodeEntries(v, keys[..i]) + EncodeEntry(v, keys[i])
  {
    assert keys[..i + 1] == keys[..i] + [keys[i]];
    EncodeEntriesAppend(v, keys[..i], [keys[i]]);
    assert EncodeEntries(v, [keys[i]]) == EncodeEntry(v, keys[i]) + EncodeEntries(v, []);
  }

  // ---------- The key sort ----------

  method InsertKey(sorted: seq<Bytes>, k: Bytes) returns (r: seq<Bytes>)
    requires StrictlySorted(sorted) && k !in sorted
    ensures StrictlySorted(r) && multiset(r) == multiset(sorted) + multiset{k}
  {
    var i := |sorted|;
    while i > 0 && Less(k, sorted[i - 1])
      invariant 0 <= i <= |sorted|
      invariant forall j :: i <= j < |sorted| ==> Less(k, sorted[j])
    {
      i := i - 1;
    }
    r := sorted[..i] + [k] + sorted[i..];
    assert sorted == sorted[..i] + sorted[i..];
    forall j | 0 <= j < i ensures Less(sorted[j], k) {
      LessTotal(sorted[i - 1], k);
      if j < i - 1 { LessTransitive(sorted[j], sorted[i - 1], k); }
    }
  }

  /** sort.Sort on the keys; without repeats there is only one sorted order. */
  method SortKeys(keys: seq<Bytes>, ghost all: set<Bytes>) returns (r: seq<Bytes>)
    requires multiset(keys) == multiset(all)
    ensures r == SortedKeys(all)
  {
    r := [];
    for i := 0 to |keys|
      invariant StrictlySorted(r) && multiset(r) == multiset(keys[..i])
    {
      assert keys[..i + 1] == keys[..i] + [keys[i]];
      assert keys == keys[..i + 1] + keys[i + 1..];
      assert multiset(keys)[keys[i]] <= 1;
      assert keys[i] !in multiset(keys[..i]);
      r := InsertKey(r, keys[i]);
    }
    assert keys[..|keys|] == keys;
    assert forall k :: k in r <==> k in multiset(r);
    SortedIsUnique(r, SortedKeys(all));
  }

  lemma {:induction false} SortedIsUnique(a: seq<Bytes>, b: seq<Bytes>)
    requires StrictlySorted(a) && StrictlySorted(b)
    requires forall k :: k in a <==> k in b
    ensures a == b
  {
    assert b != [] ==> b[0] in b;
    if a != [] {
      assert a[0] in b && b != [] && b[0] in a;
      if a[0] != b[0] {
        assert Less(b[0], a[0]) && Less(a[0], b[0]);
        LessAsymmetric(a[0], b[0]);
      }
      LessIrreflexive(a[0]);
      assert a == [a[0]] + a[1..] && b == [b[0]] + b[1..];
      assert a[0] !in a[1..] && b[0] !in b[1..];
      assert forall k :: k in a <==> k == a[0] || k in a[1..];
      assert forall k :: k in b <==> k == b[0] || k in b[1..];
      SortedIsUnique(a[1..], b[1..]);
    }
  }
}
