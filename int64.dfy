/** Parsing of `i64` from text as Rust's `str::parse::<i64>` does it, and the
    decimal rendering it inverts. Used for Int cells in
    rust/cubestore/src/sql/mod.rs. */
module Int64 {
  import opened Wrappers

  const Min: int := -0x8000_0000_0000_0000
  const Max: int := 0x7FFF_FFFF_FFFF_FFFF

  predicate InRange(n: int) { Min <= n <= Max }

  /** The kinds of `ParseIntError`. */
  datatype IntErrorKind = Empty | InvalidDigit | PosOverflow | NegOverflow

  predicate IsDigit(c: char) { '0' <= c <= '9' }

  function DigitValue(c: char): (r: nat)
    requires IsDigit(c)
    ensures r < 10
  {
    c as int - '0' as int
  }

  predicate AllDigits(d: string) {
    forall k :: 0 <= k < |d| ==> IsDigit(d[k])
  }

  /** `i64::from_str`: an optional sign, then one or more decimal digits;
      a sign alone is an invalid digit, and the accumulated value is checked
      against the i64 range after every digit. */
  function ParseI64(s: string): (r: Result<int, IntErrorKind>)
    ensures r.Ok? ==> InRange(r.value)
    ensures r.Ok? && r.value < 0 ==> s != [] && s[0] == '-'
    ensures r == Err(Empty) <==> s == []
  {
    if s == [] then Err(Empty)
    else if (s[0] == '+' || s[0] == '-') && |s| == 1 then Err(InvalidDigit)
    else if s[0] == '-' then AccumNeg(s[1..], 0)
    else if s[0] == '+' then AccumPos(s[1..], 0)
    else AccumPos(s, 0)
  }

  function AccumPos(d: string, acc: int): (r: Result<int, IntErrorKind>)
    ensures r.Ok? && acc >= 0 ==> acc <= r.value && (d != [] ==> r.value <= Max)
    ensures r != Err(Empty) && r != Err(NegOverflow)
  {
    if d == [] then Ok(acc)
    else if !IsDigit(d[0]) then Err(InvalidDigit)
    else
      var n := acc * 10 + DigitValue(d[0]);
      if n > Max then Err(PosOverflow) else AccumPos(d[1..], n)
  }

  function AccumNeg(d: string, acc: int): (r: Result<int, IntErrorKind>)
    ensures r.Ok? && acc <= 0 ==> r.value <= acc && (d != [] ==> Min <= r.value)
    ensures r != Err(Empty) && r != Err(PosOverflow)
  {
    if d == [] then Ok(acc)
    else if !IsDigit(d[0]) then Err(InvalidDigit)
    else
      var n := acc * 10 - DigitValue(d[0]);
      if n < Min then Err(NegOverflow) else AccumNeg(d[1..], n)
  }

  /** The value of a digit string read left to right after `acc`, with no
      range check: the reference the parser is compared against. */
  function Horner(d: string, acc: int): int
    requires AllDigits(d)
  {
    if d == [] then acc else Horner(d[1..], acc * 10 + DigitValue(d[0]))
  }

  lemma {:induction false} HornerGrows(d: string, acc: int)
    requires AllDigits(d) && acc >= 0
    ensures Horner(d, acc) >= acc
  {
    if d != [] {
      HornerGrows(d[1..], acc * 10 + DigitValue(d[0]));
    }
  }

  lemma {:induction false} AccumPosIsHorner(d: string, acc: int)
    requires AllDigits(d) && 0 <= acc <= Max
    ensures AccumPos(d, acc) == if Horner(d, acc) <= Max then Ok(Horner(d, acc)) else Err(PosOverflow)
  {
    if d != [] {
      var n := acc * 10 + DigitValue(d[0]);
      HornerGrows(d[1..], n);
      if n <= Max {
        AccumPosIsHorner(d[1..], n);
      }
    }
  }

  lemma {:induction false} AccumNegIsHorner(d: string, acc: int)
    requires AllDigits(d) && Min <= acc <= 0
    ensures AccumNeg(d, acc) == if -Horner(d, -acc) >= Min then Ok(-Horner(d, -acc)) else Err(NegOverflow)
  {
    if d != [] {
      var n := acc * 10 - DigitValue(d[0]);
      assert -n == -acc * 10 + DigitValue(d[0]);
      HornerGrows(d[1..], -n);
      if n >= Min {
        AccumNegIsHorner(d[1..], n);
      }
    }
  }

  lemma {:induction false} AccumPosFails(d: string, acc: int)
    requires !AllDigits(d)
    ensures AccumPos(d, acc).Err?
  {
    if IsDigit(d[0]) {
      assert !AllDigits(d[1..]) by {
        var k :| 0 <= k < |d| && !IsDigit(d[k]);
        assert d[1..][k - 1] == d[k];
      }
      var n := acc * 10 + DigitValue(d[0]);
      if n <= Max { AccumPosFails(d[1..], n); }
    }
  }

  lemma {:induction false} AccumNegFails(d: string, acc: int)
    requires !AllDigits(d)
    ensures AccumNeg(d, acc).Err?
  {
    if IsDigit(d[0]) {
      assert !AllDigits(d[1..]) by {
        var k :| 0 <= k < |d| && !IsDigit(d[k]);
        assert d[1..][k - 1] == d[k];
      }
      var n := acc * 10 - DigitValue(d[0]);
      if n >= Min { AccumNegFails(d[1..], n); }
    }
  }

  /** The text after an optional leading sign. */
  function Unsigned(s: string): string {
    if s != [] && (s[0] == '+' || s[0] == '-') then s[1..] else s
  }

  /** `ParseI64` accepts exactly an optionally signed, non-empty digit string
      whose value is in the i64 range, and returns that value. */
  lemma ParseI64Spec(s: string)
    ensures ParseI64(s).Ok? <==>
      (Unsigned(s) != [] && AllDigits(Unsigned(s)) &&
       InRange(if s[0] == '-' then -Horner(Unsigned(s), 0) else Horner(Unsigned(s), 0)))
    ensures ParseI64(s).Ok? ==>
      ParseI64(s).value == if s[0] == '-' then -Horner(Unsigned(s), 0) else Horner(Unsigned(s), 0)
  {
    if s != [] {
      var u := Unsigned(s);
      if AllDigits(u) {
        if s[0] == '-' {
          AccumNegIsHorner(u, 0);
          HornerGrows(u, 0);
        } else {
          AccumPosIsHorner(u, 0);
          HornerGrows(u, 0);
        }
      } else if s[0] == '-' {
        AccumNegFails(u, 0);
      } else {
        AccumPosFails(u, 0);
      }
    }
  }

  /** Every parsed value fits in an i64. */
  lemma ParseI64InRange(s: string)
    requires ParseI64(s).Ok?
    ensures InRange(ParseI64(s).value)
  {
    ParseI64Spec(s);
  }

  /** Decimal digits of a natural number, most significant first. */
  function NatDigits(m: nat): (r: string)
    ensures r != [] && AllDigits(r)
    decreases m
  {
    if m < 10 then [('0' as int + m) as char]
    else NatDigits(m / 10) + [('0' as int + m % 10) as char]
  }

  /** The text `i64::to_string` gives. */
  function FormatI64(n: int): string {
    if n < 0 then "-" + NatDigits(-n) else NatDigits(n)
  }

  lemma {:induction false} HornerSnoc(a: string, c: char, acc: int)
    requires AllDigits(a) && IsDigit(c)
    ensures AllDigits(a + [c]) && Horner(a + [c], acc) == Horner(a, acc) * 10 + DigitValue(c)
  {
    assert AllDigits(a + [c]) by {
      forall k | 0 <= k < |a + [c]| ensures IsDigit((a + [c])[k]) {
        if k < |a| { assert (a + [c])[k] == a[k]; }
      }
    }
    if a != [] {
      assert (a + [c])[1..] == a[1..] + [c];
      HornerSnoc(a[1..], c, acc * 10 + DigitValue(a[0]));
    } else {
      assert a + [c] == [c];
    }
  }

  lemma {:induction false} HornerNatDigits(m: nat)
    ensures Horner(NatDigits(m), 0) == m
    decreases m
  {
    if m >= 10 {
      HornerNatDigits(m / 10);
      HornerSnoc(NatDigits(m / 10), ('0' as int + m % 10) as char, 0);
    }
  }

  /** Parsing inverts decimal rendering on the whole i64 range. */
  lemma ParseFormat(n: int)
    requires InRange(n)
    ensures ParseI64(FormatI64(n)) == Ok(n)
  {
    var s := FormatI64(n);
    if n < 0 {
      HornerNatDigits(-n);
      assert Unsigned(s) == NatDigits(-n);
    } else {
      HornerNatDigits(n);
      assert Unsigned(s) == NatDigits(n);
    }
    ParseI64Spec(s);
  }
}
