/** Unsigned 64-bit integers and their decimal text form, as Rust's
    `str::parse::<u64>` reads them: an optional leading `+`, then one or
    more ASCII digits whose value fits in 64 bits. */
module Numeric {
  import opened Base

  const U64_MAX: nat := 0xFFFF_FFFF_FFFF_FFFF

  newtype u64 = x: int | 0 <= x <= 0xFFFF_FFFF_FFFF_FFFF

  /** Rust's `char::is_ascii_digit`. */
  predicate IsDigit(c: char) {
    '0' <= c <= '9'
  }

  predicate AllDigits(s: string) {
    forall i :: 0 <= i < |s| ==> IsDigit(s[i])
  }

  lemma AppendDigit(ds: string, c: char)
    requires AllDigits(ds) && IsDigit(c)
    ensures AllDigits(ds + [c])
  {
    forall i | 0 <= i < |ds| + 1 ensures IsDigit((ds + [c])[i]) {
      if i < |ds| { assert (ds + [c])[i] == ds[i]; }
    }
  }

  function DigitValue(c: char): (d: nat)
    requires IsDigit(c)
    ensures d < 10
  {
    c as int - '0' as int
  }

  function DigitChar(d: nat): (c: char)
    requires d < 10
    ensures IsDigit(c) && DigitValue(c) == d
  {
    ('0' as int + d) as char
  }

  /** The value of a string of decimal digits, most significant digit first;
      the empty string has value 0. */
  function DecimalValue(ds: string): nat
    requires AllDigits(ds)
    decreases |ds|
  {
    if |ds| == 0 then 0 else DecimalValue(ds[..|ds| - 1]) * 10 + DigitValue(ds[|ds| - 1])
  }

  /** Canonical decimal text of `n`: no sign and no leading zero. */
  function ShowNat(n: nat): (s: string)
    ensures 0 < |s| && AllDigits(s)
    decreases n
  {
    if n < 10 then [DigitChar(n)] else ShowNat(n / 10) + [DigitChar(n % 10)]
  }

  /** `s.parse::<u64>()`: `None` for the empty string, a lone sign, any
      character that is not a digit (other than one leading `+`), and any
      value above `U64_MAX`. */
  function ParseU64(s: string): (r: Option<u64>)
    ensures r.Some? ==> 0 < |s|
    ensures (exists i :: 0 < i < |s| && !IsDigit(s[i])) ==> r.None?
    ensures 0 < |s| && !IsDigit(s[0]) && s[0] != '+' ==> r.None?
    ensures AllDigits(s) && 0 < |s| ==> (r.Some? <==> DecimalValue(s) <= U64_MAX)
    ensures AllDigits(s) && r.Some? ==> r.value as nat == DecimalValue(s)
  {
    var digits := if 0 < |s| && s[0] == '+' then s[1..] else s;
    if |digits| == 0 || !AllDigits(digits) then None
    else if DecimalValue(digits) > U64_MAX then None
    else Some(DecimalValue(digits) as u64)
  }

  /** Reading back the canonical text of a number gives the number. */
  lemma {:induction false} DecimalValueOfShowNat(n: nat)
    ensures DecimalValue(ShowNat(n)) == n
    decreases n
  {
    if n >= 10 {
      var s := ShowNat(n);
      assert s[..|s| - 1] == ShowNat(n / 10);
      DecimalValueOfShowNat(n / 10);
    }
  }

  /** A zero in front does not change the value of a digit string. */
  lemma {:induction false} DecimalValueLeadingZero(ds: string)
    requires AllDigits(ds)
    ensures AllDigits(['0'] + ds) && DecimalValue(['0'] + ds) == DecimalValue(ds)
    decreases |ds|
  {
    var zs := ['0'] + ds;
    assert AllDigits(zs) by {
      forall i | 0 <= i < |zs| ensures IsDigit(zs[i]) {
        if i > 0 { assert zs[i] == ds[i - 1]; }
      }
    }
    if |ds| > 0 {
      var init := ds[..|ds| - 1];
      assert zs[..|zs| - 1] == ['0'] + init;
      DecimalValueLeadingZero(init);
    }
  }

  /** Round trip: every u64 survives printing and parsing; every larger
      number is an overflow error. */
  lemma ParseU64ShowNat(n: nat)
    ensures n <= U64_MAX ==> ParseU64(ShowNat(n)) == Some(n as u64)
    ensures n > U64_MAX ==> ParseU64(ShowNat(n)) == None
  {
    DecimalValueOfShowNat(n);
  }

  /** Leading zeros are accepted and ignored. */
  lemma ParseU64LeadingZero(ds: string)
    requires AllDigits(ds) && 0 < |ds|
    ensures ParseU64(['0'] + ds) == ParseU64(ds)
  {
    DecimalValueLeadingZero(ds);
  }

  /** One leading `+` is accepted and ignored; a lone `+` is an error. */
  lemma ParseU64Plus(ds: string)
    requires AllDigits(ds)
    ensures ParseU64(['+'] + ds) == ParseU64(ds)
  {
    assert (['+'] + ds)[1..] == ds;
  }
}
