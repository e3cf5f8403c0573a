/** `parse_int_bytes`: checked decimal parsing of directory entry names. */
module Decimal {
  import opened Base

  type Byte = b: int | 0 <= b < 256

  const ZERO: int := '0' as int

  predicate IsDigit(b: Byte) {
    ZERO <= b <= ZERO + 9
  }

  predicate AllDigits(s: seq<Byte>) {
    forall i :: 0 <= i < |s| ==> IsDigit(s[i])
  }

  /** The number a digit string denotes, without any bound. */
  ghost function Value(s: seq<Byte>): (v: nat)
    requires AllDigits(s)
  {
    if s == [] then 0 else Value(s[..|s| - 1]) * 10 + (s[|s| - 1] - ZERO)
  }

  /** Numerals that denote a C `int`: non-empty, digits only, value in range (leading zeros are fine). */
  ghost predicate Numeral(s: seq<Byte>) {
    s != [] && AllDigits(s) && Value(s) <= CINT_MAX
  }

  ghost function Parsed(s: seq<Byte>): Option<int> {
    if Numeral(s) then Some(Value(s)) else None
  }

  ghost function Pow10(n: nat): nat {
    if n == 0 then 1 else 10 * Pow10(n - 1)
  }

  /** The positional value of a string of ASCII digits, from the left: each digit times its power of ten. */
  ghost function PlaceValue(s: seq<Byte>): int {
    if s == [] then 0 else (s[0] - '0' as int) * Pow10(|s| - 1) + PlaceValue(s[1..])
  }

  lemma {:induction false} PlaceValueSnoc(s: seq<Byte>, b: Byte)
    ensures PlaceValue(s + [b]) == 10 * PlaceValue(s) + (b - '0' as int)
  {
    if s == [] {
      assert [b][1..] == [];
    } else {
      assert (s + [b])[1..] == s[1..] + [b];
      PlaceValueSnoc(s[1..], b);
      var d, p := s[0] - '0' as int, Pow10(|s| - 1);
      assert d * (10 * p) == 10 * (d * p);
    }
  }

  /** Multiplying up digit by digit gives the positional value. */
  lemma {:induction false} ValueIsPlaceValue(s: seq<Byte>)
    requires AllDigits(s)
    ensures Value(s) == PlaceValue(s)
  {
    if s != [] {
      var front := s[..|s| - 1];
      ValueIsPlaceValue(front);
      PlaceValueSnoc(front, s[|s| - 1]);
      assert s == front + [s[|s| - 1]];
    }
  }

  /** Canonical decimal printing. */
  function Digits(n: nat): (s: seq<Byte>)
    ensures s != [] && AllDigits(s)
    ensures forall i :: 0 <= i < |s| ==> '0' as int <= s[i] <= '9' as int
  {
    if n < 10 then [ZERO + n] else Digits(n / 10) + [ZERO + n % 10]
  }

  /** A prefix never denotes more than the whole string, so an overflow in a prefix is final. */
  lemma {:induction false} PrefixValue(s: seq<Byte>, i: nat)
    requires AllDigits(s) && i <= |s|
    ensures Value(s[..i]) <= Value(s)
    decreases |s|
  {
    if i < |s| {
      var front := s[..|s| - 1];
      assert front[..i] == s[..i];
      PrefixValue(front, i);
    } else {
      assert s[..i] == s;
    }
  }

  /** `num.checked_mul(10)?.checked_add(digit)?`, with `?` made explicit. */
  method PushDigit(num: CInt, digit: int) returns (r: Option<CInt>)
    requires 0 <= num && 0 <= digit <= 9
    ensures r == if num * 10 + digit <= CINT_MAX then Some(num * 10 + digit) else None
  {
    if num * 10 > CINT_MAX {
      return None;
    }
    if num * 10 + digit > CINT_MAX {
      return None;
    }
    return Some(num * 10 + digit);
  }

  /** Any string of bytes: a number exactly if there is a byte, all are ASCII digits, and the value is a C `int`. */
  method ParseIntBytes(s: seq<Byte>) returns (r: Option<CInt>)
    ensures r == Parsed(s)
    ensures r.Some? <==>
              s != [] && (forall i :: 0 <= i < |s| ==> '0' as int <= s[i] <= '9' as int) && PlaceValue(s) <= 0x7fff_ffff
    ensures r.Some? ==> r.value == PlaceValue(s)
  {
    if AllDigits(s) {
      ValueIsPlaceValue(s);
    }
    var num: CInt := 0;
    var seenAny := false;
    for i := 0 to |s|
      invariant AllDigits(s[..i])
      invariant num == Value(s[..i])
      invariant seenAny <==> i > 0
    {
      if ZERO <= s[i] <= ZERO + 9 {
        assert s[..i + 1][..i] == s[..i];
        var next := PushDigit(num, s[i] - ZERO);
        if next.None? {
          if AllDigits(s) {
            PrefixValue(s, i + 1);
          }
          return None;
        }
        num := next.value;
        seenAny := true;
      } else {
        return None;
      }
    }
    assert s[..|s|] == s;
    if seenAny {
      return Some(num);
    } else {
      return None;
    }
  }

  /** Parsing inverts printing on every C `int` that can be a descriptor. */
  lemma {:induction false} ParseInvertsPrint(n: nat)
    ensures Value(Digits(n)) == n
    ensures n <= CINT_MAX ==> Parsed(Digits(n)) == Some(n)
    ensures n > CINT_MAX ==> Parsed(Digits(n)) == None
  {
    if n >= 10 {
      ParseInvertsPrint(n / 10);
      var s := Digits(n);
      assert s[..|s| - 1] == Digits(n / 10);
    } else {
      assert Digits(n)[..0] == [];
    }
  }

  /** Printing inverts parsing on the numerals without leading zeros, and on no others. */
  lemma {:induction false} PrintInvertsParse(s: seq<Byte>)
    requires s != [] && AllDigits(s)
    ensures Digits(Value(s)) == s <==> |s| == 1 || s[0] != ZERO
  {
    var front := s[..|s| - 1];
    if |s| == 1 {
      assert front == [];
    } else {
      PrintInvertsParse(front);
      assert front[0] == s[0];
      assert s == front + [s[|s| - 1]];
      var v := Value(front);
      if s[0] != ZERO {
        LeadingDigit(front);
        assert Value(s) / 10 == v && Value(s) % 10 == s[|s| - 1] - ZERO;
      } else {
        PrintedLead(Value(s));
      }
    }
  }

  lemma {:induction false} LeadingDigit(s: seq<Byte>)
    requires s != [] && AllDigits(s) && s[0] != ZERO
    ensures Value(s) > 0
  {
    if |s| > 1 {
      LeadingDigit(s[..|s| - 1]);
    }
  }

  lemma {:induction false} PrintedLead(n: nat)
    ensures Digits(n)[0] == ZERO ==> n == 0 && |Digits(n)| == 1
  {
    if n >= 10 {
      PrintedLead(n / 10);
    }
  }

  /** The strings "0", "10", "1423", " 0", "0 ", "-1", "+1", "1." and "", as ASCII bytes. */
  lemma ParseSamples()
    ensures Parsed([48]) == Some(0) && Parsed([49, 48]) == Some(10) && Parsed([49, 52, 50, 51]) == Some(1423)
    ensures Parsed([32, 48]) == Parsed([48, 32]) == Parsed([45, 49]) == Parsed([43, 49]) == Parsed([49, 46]) == Parsed([]) == None
  {
    ParsedOne([], 49);
    ParsedOne([49], 48);
    ParsedOne([49], 52);
    ParsedOne([49, 52], 50);
    ParsedOne([49, 52, 50], 51);
    assert [49, 52] + [50] == [49, 52, 50] && [49, 52, 50] + [51] == [49, 52, 50, 51];
    ParsedOne([], 48);
    assert !IsDigit([32, 48][0]) && !IsDigit([48, 32][1]) && !IsDigit([45, 49][0]) && !IsDigit([43, 49][0]) && !IsDigit([49, 46][1]);
  }

  lemma ParsedOne(s: seq<Byte>, b: Byte)
    requires AllDigits(s) && IsDigit(b)
    ensures AllDigits(s + [b]) && Value(s + [b]) == Value(s) * 10 + (b - ZERO)
  {
    assert (s + [b])[..|s|] == s;
  }
}
