/** Byte strings, their order, and the decimal numbers that bencode writes. */
module ByteStrings {

  newtype Byte = x: int | 0 <= x < 256

  type Bytes = seq<Byte>

  datatype Option<+T> = None | Some(value: T)

  /** The bytes of ASCII text. */
  function Ascii(t: string): (b: Bytes)
    ensures |b| == |t|
  {
    seq(|t|, i requires 0 <= i < |t| => (t[i] as int % 256) as Byte)
  }

  // ---------- Go's string order ----------

  /** The bytewise lexicographic order of Go's `<` on strings. */
  predicate Less(a: Bytes, b: Bytes)
  {
    b != [] && (a == [] || a[0] < b[0] || (a[0] == b[0] && Less(a[1..], b[1..])))
  }

  lemma {:induction false} LessIrreflexive(a: Bytes)
    ensures !Less(a, a)
  {
    if a != [] { LessIrreflexive(a[1..]); }
  }

  lemma {:induction false} LessTransitive(a: Bytes, b: Bytes, c: Bytes)
    requires Less(a, b) && Less(b, c)
    ensures Less(a, c)
  {
    if a != [] && a[0] == b[0] == c[0] { LessTransitive(a[1..], b[1..], c[1..]); }
  }

  lemma {:induction false} LessTotal(a: Bytes, b: Bytes)
    ensures a == b || Less(a, b) || Less(b, a)
  {
    if a != [] && b != [] && a[0] == b[0] {
      LessTotal(a[1..], b[1..]);
      assert a == [a[0]] + a[1..] && b == [b[0]] + b[1..];
    }
  }

  lemma LessAsymmetric(a: Bytes, b: Bytes)
    requires Less(a, b)
    ensures !Less(b, a)
  {
    if Less(b, a) { LessTransitive(a, b, a); LessIrreflexive(a); }
  }

  /** The strings agree before position i, where the first ends or has the smaller byte. */
  ghost predicate LessAt(a: Bytes, b: Bytes, i: nat)
  {
    i <= |a| && i < |b| && a[..i] == b[..i] && (i == |a| || a[i] < b[i])
  }

  lemma LessAtShares(a: Bytes, b: Bytes, i: nat)
    ensures LessAt(a, b, i) && i > 0 ==> a != [] && b != [] && a[0] == b[0]
  {
    assert LessAt(a, b, i) && i > 0 ==> a[..i][0] == a[0] && b[..i][0] == b[0];
  }

  /** The order in terms of positions: a proper prefix comes first, and otherwise the first difference decides. */
  lemma {:induction false} LessExactly(a: Bytes, b: Bytes)
    ensures Less(a, b) <==> exists i: nat :: LessAt(a, b, i)
  {
    if a != [] && b != [] && a[0] == b[0] {
      LessExactly(a[1..], b[1..]);
      if i: nat :| LessAt(a, b, i) {
        assert LessAt(a[1..], b[1..], i - 1) by {
          assert a[1..][..i - 1] == a[..i][1..] && b[1..][..i - 1] == b[..i][1..];
        }
      }
      if i: nat :| LessAt(a[1..], b[1..], i) {
        assert a[..i + 1] == [a[0]] + a[1..][..i] && b[..i + 1] == [b[0]] + b[1..][..i];
        assert LessAt(a, b, i + 1);
      }
    } else if b != [] {
      assert LessAt(a, b, 0) <==> Less(a, b);
      forall i: nat ensures LessAt(a, b, i) && i > 0 ==> a != [] && a[0] == b[0] { LessAtShares(a, b, i); }
    }
  }

  // ---------- Searching and splitting ----------

  /** The position of the first `b` in `s`, or `|s|`. */
  function IndexOf(s: Bytes, b: Byte): (i: nat)
    ensures i <= |s|
    ensures i < |s| ==> s[i] == b
    ensures b !in s[..i]
  {
    if s == [] || s[0] == b then 0
    else
      var i := 1 + IndexOf(s[1..], b);
      assert s[..i] == [s[0]] + s[1..][..i - 1];
      i
  }

  /** `rest` is what remains of `s` after a prefix of it was consumed. */
  predicate Suffix(rest: Bytes, s: Bytes)
  {
    |rest| <= |s| && rest == s[|s| - |rest|..]
  }

  /** The prefix of `s` whose consumption leaves `rest`. */
  function Taken(s: Bytes, rest: Bytes): (t: Bytes)
    requires Suffix(rest, s)
    ensures t + rest == s
  {
    s[..|s| - |rest|]
  }

  lemma SuffixDrop(s: Bytes, k: nat)
    requires k <= |s|
    ensures Suffix(s[k..], s) && Taken(s, s[k..]) == s[..k]
  {
  }

  lemma SuffixTransitive(c: Bytes, b: Bytes, a: Bytes)
    requires Suffix(c, b) && Suffix(b, a)
    ensures Suffix(c, a) && Taken(a, c) == Taken(a, b) + Taken(b, c)
  {
    assert a[|a| - |b|..][|b| - |c|..] == a[|a| - |c|..];
    assert Taken(a, b) + (Taken(b, c) + c) == a;
    assert (Taken(a, b) + Taken(b, c)) + c == a == Taken(a, c) + c;
    assert a[..|a| - |c|] == Taken(a, b) + Taken(b, c);
  }

  lemma ConcatAssociative(a: Bytes, b: Bytes, c: Bytes)
    ensures (a + b) + c == a + (b + c)
  {
  }

  lemma IndexOfUnique(a: Bytes, b: Byte, rest: Bytes)
    requires b !in a
    ensures IndexOf(a + [b] + rest, b) == |a|
  {
    var s := a + [b] + rest;
    var i := IndexOf(s, b);
    assert s[|a|] == b;
    assert |a| <= i;
    assert b in s[|a|..|a| + 1];
  }

  // ---------- Decimal numbers ----------

  const MINUS: Byte := 45
  const PLUS: Byte := 43

  predicate IsDigit(b: Byte) { 48 <= b <= 57 }

  function Decimal(n: nat): (s: Bytes)
    ensures |s| >= 1 && forall i :: 0 <= i < |s| ==> IsDigit(s[i])
  {
    if n < 10 then [(48 + n) as Byte] else Decimal(n / 10) + [(48 + n % 10) as Byte]
  }

  /** The number Go's fmt prints for `%d`. */
  function SignedDecimal(n: int): (s: Bytes)
  {
    if n < 0 then [MINUS] + Decimal(-n) else Decimal(n)
  }

  /** The value of a nonempty string of digits. */
  function ParseDigits(s: Bytes): (r: Option<nat>)
  {
    if s == [] || !IsDigit(s[|s| - 1]) then None
    else if |s| == 1 then Some(s[0] as int - 48)
    else match ParseDigits(s[..|s| - 1])
      case None => None
      case Some(n) => Some(10 * n + (s[|s| - 1] as int - 48))
  }

  /** strconv.ParseUint(s, 10, bits), with limit = 2^bits. */
  function ParseUint(s: Bytes, limit: nat): (r: Option<nat>)
    ensures r.Some? ==> r.value < limit
  {
    match ParseDigits(s)
    case None => None
    case Some(n) => if n < limit then Some(n) else None
  }

  /** strconv.ParseInt(s, 10, bits), with half = 2^(bits-1); either sign may lead. */
  function ParseInt(s: Bytes, half: nat): (r: Option<int>)
    requires half > 0
    ensures r.Some? ==> 0 - half <= r.value < half
  {
    if s != [] && s[0] == MINUS then
      match ParseDigits(s[1..])
      case None => None
      case Some(n) => if n <= half then Some(0 - n) else None
    else
      ParseUint(if s != [] && s[0] == PLUS then s[1..] else s, half)
  }

  lemma {:induction false} ParseDecimal(n: nat)
    ensures ParseDigits(Decimal(n)) == Some(n)
  {
    if n >= 10 {
      ParseDecimal(n / 10);
      var s := Decimal(n);
      assert s[..|s| - 1] == Decimal(n / 10);
    }
  }

  /** Printing and parsing are inverse, exactly on the range the width allows. */
  lemma ParsePrinted(n: int, half: nat)
    requires half > 0
    ensures ParseInt(SignedDecimal(n), half) == if 0 - half <= n < half then Some(n) else None
  {
    if n < 0 {
      ParseDecimal(-n);
      assert SignedDecimal(n)[1..] == Decimal(-n);
    } else {
      ParseDecimal(n);
      var s := SignedDecimal(n);
      assert s == Decimal(n) && IsDigit(s[0]);
    }
  }

  // ---------- What the digits mean ----------

  function Power10(k: nat): nat
  {
    if k == 0 then 1 else 10 * Power10(k - 1)
  }

  ghost predicate AllDigits(s: Bytes)
  {
    forall i :: 0 <= i < |s| ==> 48 <= s[i] <= 57
  }

  /** The number that digits denote, most significant first. */
  function Number(s: Bytes): int
  {
    if s == [] then 0 else (s[0] as int - 48) * Power10(|s| - 1) + Number(s[1..])
  }

  lemma {:induction false} NumberAppend(s: Bytes, d: Byte)
    ensures Number(s + [d]) == 10 * Number(s) + (d as int - 48)
  {
    if s == [] {
      assert s + [d] == [d] && [d][1..] == [];
      assert Number([d]) == (d as int - 48) * Power10(0) + Number([]);
    } else {
      NumberAppend(s[1..], d);
      assert (s + [d])[0] == s[0] && (s + [d])[1..] == s[1..] + [d];
      var h, p := s[0] as int - 48, Power10(|s| - 1);
      assert Power10(|s|) == 10 * p;
      assert h * (10 * p) == 10 * (h * p);
    }
  }

  /** Digits are parsed exactly if there is one and all are digits, to the number they denote. */
  lemma {:induction false} DigitsExactly(s: Bytes)
    ensures ParseDigits(s).Some? <==> s != [] && AllDigits(s)
    ensures ParseDigits(s).Some? ==> ParseDigits(s).value == Number(s)
  {
    if s != [] {
      var n := |s| - 1;
      assert s == s[..n] + [s[n]];
      NumberAppend(s[..n], s[n]);
      if n > 0 {
        DigitsExactly(s[..n]);
      } else {
        assert s[..n] == [];
      }
    }
  }

  /** A signed number is parsed exactly if, behind at most one sign, there are only digits and it fits. */
  lemma ParseIntExactly(s: Bytes, half: nat)
    requires half > 0
    ensures var signed := s != [] && (s[0] == 43 || s[0] == 45);
            var digits := if signed then s[1..] else s;
            var n := if s != [] && s[0] == 45 then 0 - Number(digits) else Number(digits);
            ParseInt(s, half) == if digits != [] && AllDigits(digits) && 0 - half <= n < half then Some(n) else None
  {
    hide ParseDigits, AllDigits;
    DigitsExactly(s);
    if s != [] { DigitsExactly(s[1..]); }
    if s != [] && (s[0] == 43 || s[0] == 45) { assert !AllDigits(s) by { NotADigit(s); } }
  }

  lemma NotADigit(s: Bytes)
    requires s != [] && !(48 <= s[0] <= 57)
    ensures !AllDigits(s)
  {
  }

  /** Printed numbers are plain decimal numerals: only digits, no leading zero, and the right number. */
  lemma {:induction false} DecimalExactly(n: nat)
    ensures AllDigits(Decimal(n)) && Number(Decimal(n)) == n
    ensures Decimal(n)[0] == 48 ==> n == 0 && |Decimal(n)| == 1
  {
    ParseDecimal(n);
    DigitsExactly(Decimal(n));
    if n >= 10 {
      DecimalExactly(n / 10);
      assert Decimal(n)[0] == Decimal(n / 10)[0];
    }
  }

  lemma PrintedHasNo(n: int, b: Byte)
    requires b != MINUS && !IsDigit(b)
    ensures b !in SignedDecimal(n)
  {
  }
}
