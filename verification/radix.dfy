/** `decodeValue`: a share's y-value, written in some radix, read as a Java `long`.
    The program delegates to `Long.parseLong(value, base)`; this module states
    that method's behaviour: an optional sign, then digits `0-9`, `a-z`, `A-Z`
    valued 0..35, each below the radix, accumulated left to right with the
    value kept inside the signed 64-bit range. */
module Radix {
  import opened JavaInt
  import opened Results

  const MinRadix: int := 2
  const MaxRadix: int := 36

  /** The three ways `Long.parseLong` rejects its input. Java throws a
      `NumberFormatException` for each; the model names the cause. */
  datatype DecodeError = InvalidRadix | Malformed | Overflow

  predicate ValidRadix(radix: int) { MinRadix <= radix <= MaxRadix }

  /** `Character.digit(c, radix)` on ASCII: the digit's value, or -1 when `c`
      is not a digit of `radix` (or `radix` itself is out of range). */
  function Digit(c: char, radix: int): (d: int)
    ensures -1 <= d
    ensures ValidRadix(radix) ==> d < radix
    ensures !ValidRadix(radix) ==> d == -1
    ensures ValidRadix(radix) && '0' <= c <= '9' && c as int - '0' as int < radix ==>
              d == c as int - '0' as int
  {
    var v :=
      if '0' <= c <= '9' then c as int - '0' as int
      else if 'a' <= c <= 'z' then c as int - 'a' as int + 10
      else if 'A' <= c <= 'Z' then c as int - 'A' as int + 10
      else -1;
    if ValidRadix(radix) && v < radix then v else -1
  }

  predicate IsDigits(s: string, radix: int)
  {
    forall i :: 0 <= i < |s| ==> 0 <= Digit(s[i], radix)
  }

  function Pow(b: nat, e: nat): (r: nat)
    ensures b >= 1 ==> r >= 1
  {
    if e == 0 then 1 else b * Pow(b, e - 1)
  }

  /** The positional value Σ digit(s[i]) · radix^(|s|-1-i): the reference the
      decoder is measured against. */
  function Positional(s: string, radix: int): nat
    requires ValidRadix(radix) && IsDigits(s, radix)
  {
    if |s| == 0 then 0
    else Digit(s[0], radix) * Pow(radix, |s| - 1) + Positional(s[1..], radix)
  }

  predicate IsSign(c: char) { c == '-' || c == '+' }

  /** The digits after an optional leading sign. */
  function Body(s: string): string
  {
    if |s| > 0 && IsSign(s[0]) then s[1..] else s
  }

  predicate Negative(s: string) { |s| > 0 && s[0] == '-' }

  /** An optional sign followed by at least one digit of `radix`. */
  predicate WellFormed(s: string, radix: int)
  {
    |Body(s)| > 0 && IsDigits(Body(s), radix)
  }

  /** The signed number a well-formed string denotes, whatever its size. */
  function Value(s: string, radix: int): int
    requires ValidRadix(radix) && WellFormed(s, radix)
  {
    var m: int := Positional(Body(s), radix);
    if Negative(s) then -m else m
  }

  /** The left-to-right digit loop of `Long.parseLong`: magnitude `acc` so far,
      `limit` the largest magnitude the sign allows. Each character is first
      checked to be a digit, then the new magnitude against the limit. */
  function Scan(s: string, radix: int, limit: nat, acc: nat): (r: Result<nat, DecodeError>)
    requires ValidRadix(radix)
    ensures r.Err? ==> r.error != InvalidRadix
  {
    if |s| == 0 then Ok(acc)
    else
      var d := Digit(s[0], radix);
      if d < 0 then Err(Malformed)
      else
        var next := Shift(acc, radix, d);
        if next > limit then Err(Overflow)
        else Scan(s[1..], radix, limit, next)
  }

  /** The magnitude after appending digit `d`. */
  function Shift(acc: nat, radix: int, d: nat): nat
    requires ValidRadix(radix)
  {
    acc * radix + d
  }

  /** `Long.parseLong(s, radix)`: the radix is checked first, then the
      optional sign (a lone sign is malformed), then the digits. */
  function Decode(s: string, radix: int): (r: Result<int, DecodeError>)
    ensures !ValidRadix(radix) <==> r == Err(InvalidRadix)
    ensures ValidRadix(radix) && WellFormed(s, radix) ==>
              r == (if InInt64(Value(s, radix)) then Ok(Value(s, radix)) else Err(Overflow))
    ensures ValidRadix(radix) && !WellFormed(s, radix) ==> r.Err?
    ensures r.Ok? ==> InInt64(r.value)
  {
    if !ValidRadix(radix) then Err(InvalidRadix)
    else if |s| == 0 || (IsSign(s[0]) && |s| == 1) then Err(Malformed)
    else
      var neg := Negative(s);
      var limit: nat := if neg then -Int64Min else Int64Max;
      var scanned := Scan(Body(s), radix, limit, 0);
      ScanMeetsValue(Body(s), radix, limit);
      if scanned.Err? then Err(scanned.error)
      else
        var m: int := scanned.value;
        Ok(if neg then -m else m)
  }

  /** Ties the digit loop to the positional value: on digits, the loop
      succeeds exactly when the positional value fits under the limit, and on
      anything else it fails. */
  lemma ScanMeetsValue(s: string, radix: int, limit: nat)
    requires ValidRadix(radix)
    ensures IsDigits(s, radix) ==>
              Scan(s, radix, limit, 0) ==
              (if Positional(s, radix) <= limit then Ok(Positional(s, radix)) else Err(Overflow))
    ensures !IsDigits(s, radix) ==> Scan(s, radix, limit, 0).Err?
  {
    if IsDigits(s, radix) {
      ScanAccumulates(s, radix, limit, 0);
    } else {
      ScanRejectsNonDigit(s, radix, limit, 0);
    }
  }

  lemma {:induction false} ScanAccumulates(s: string, radix: int, limit: nat, acc: nat)
    requires ValidRadix(radix) && IsDigits(s, radix) && acc <= limit
    ensures var total := acc * Pow(radix, |s|) + Positional(s, radix);
            Scan(s, radix, limit, acc) == (if total <= limit then Ok(total) else Err(Overflow))
    decreases |s|
  {
    if |s| > 0 {
      var d := Digit(s[0], radix);
      var p := Pow(radix, |s| - 1);
      var v := Shift(acc, radix, d);
      assert IsDigits(s[1..], radix) by {
        forall i | 0 <= i < |s[1..]| ensures 0 <= Digit(s[1..][i], radix) {
          assert s[1..][i] == s[i + 1];
        }
      }
      Regroup(acc, radix, d, p);
      assert Scan(s, radix, limit, acc) ==
             (if v > limit then Err(Overflow) else Scan(s[1..], radix, limit, v));
      if v > limit {
        ScaleUp(v, p);
      } else {
        ScanAccumulates(s[1..], radix, limit, v);
      }
    }
  }

  lemma {:induction false} ScanRejectsNonDigit(s: string, radix: int, limit: nat, acc: nat)
    requires ValidRadix(radix) && !IsDigits(s, radix)
    ensures Scan(s, radix, limit, acc).Err?
    decreases |s|
  {
    var d := Digit(s[0], radix);
    if d >= 0 && Shift(acc, radix, d) <= limit {
      assert !IsDigits(s[1..], radix) by {
        var i :| 0 <= i < |s| && Digit(s[i], radix) < 0;
        assert i > 0 && s[1..][i - 1] == s[i];
      }
      ScanRejectsNonDigit(s[1..], radix, limit, Shift(acc, radix, d));
    }
  }

  lemma Regroup(a: nat, radix: nat, d: nat, p: nat)
    ensures a * (radix * p) + d * p == (a * radix + d) * p
  {
  }

  lemma Factor(d: nat, radix: nat, p: nat, q: nat)
    ensures d * (radix * p) + q * radix == (d * p + q) * radix
  {
  }

  lemma DivMod(n: nat, radix: nat)
    requires radix >= 2
    ensures (n / radix) * radix + n % radix == n
    ensures 0 <= n % radix < radix
    ensures n >= radix ==> n / radix < n
  {
  }

  lemma ScaleUp(v: nat, p: nat)
    requires p >= 1
    ensures v * p >= v
  {
  }

  /** `Character.forDigit(d, radix)`: the lower-case character for digit `d`. */
  function DigitChar(d: nat, radix: int): (c: char)
    requires ValidRadix(radix) && d < radix
    ensures Digit(c, radix) == d
  {
    if d < 10 then ('0' as int + d) as char else ('a' as int + d - 10) as char
  }

  /** Digits of `n` in `radix`, most significant first, without leading zeros. */
  function Digits(n: nat, radix: int): (s: string)
    requires ValidRadix(radix)
    ensures |s| > 0 && IsDigits(s, radix)
    decreases n
  {
    if n < radix then [DigitChar(n, radix)]
    else
      DivMod(n, radix);
      Digits(n / radix, radix) + [DigitChar(n % radix, radix)]
  }

  /** `Long.toString(v, radix)`: the encoding `Decode` inverts. */
  function Encode(v: int, radix: int): string
    requires ValidRadix(radix)
  {
    if v < 0 then "-" + Digits(-v, radix) else Digits(v, radix)
  }

  lemma {:induction false} PositionalAppend(s: string, c: char, radix: int)
    requires ValidRadix(radix) && IsDigits(s, radix) && 0 <= Digit(c, radix)
    ensures IsDigits(s + [c], radix)
    ensures Positional(s + [c], radix) == Positional(s, radix) * radix + Digit(c, radix)
    decreases |s|
  {
    var t := s + [c];
    assert forall i :: 0 <= i < |s| ==> t[i] == s[i];
    if |s| > 0 {
      assert t[1..] == s[1..] + [c];
      assert IsDigits(s[1..], radix) by {
        forall i | 0 <= i < |s[1..]| ensures 0 <= Digit(s[1..][i], radix) {
          assert s[1..][i] == s[i + 1];
        }
      }
      PositionalAppend(s[1..], c, radix);
      Factor(Digit(s[0], radix), radix, Pow(radix, |s| - 1), Positional(s[1..], radix));
    }
  }

  lemma {:induction false} DigitsValue(n: nat, radix: int)
    requires ValidRadix(radix)
    ensures Positional(Digits(n, radix), radix) == n
    decreases n
  {
    if n < radix {
      var c := DigitChar(n, radix);
      assert [c][1..] == [];
    } else {
      DivMod(n, radix);
      DigitsValue(n / radix, radix);
      PositionalAppend(Digits(n / radix, radix), DigitChar(n % radix, radix), radix);
    }
  }

  /** Decoding inverts `Long.toString`: every Java `long`, written in any
      radix 2..36, reads back as itself. */
  lemma EncodeDecode(v: int, radix: int)
    requires ValidRadix(radix) && InInt64(v)
    ensures Decode(Encode(v, radix), radix) == Ok(v)
  {
    var m: nat := if v < 0 then -v else v;
    DigitsValue(m, radix);
    var s := Encode(v, radix);
    assert Body(s) == Digits(m, radix);
    assert WellFormed(s, radix);
    assert Value(s, radix) == v;
  }

  /** The example of the doc comment on `decodeValue`: "111" in base 2 is 7. */
  lemma DecodeExample()
    ensures Decode("111", 2) == Ok(7)
    ensures Decode("-Ff", 16) == Ok(-255)
  {
    var s := "111";
    assert Body(s) == s && s[1..] == "11" && s[1..][1..] == "1" && s[1..][1..][1..] == [];
    assert Scan("1", 2, Int64Max, 3) == Ok(7);
    assert Scan("11", 2, Int64Max, 1) == Ok(7);
    assert Scan(s, 2, Int64Max, 0) == Ok(7);
    var t := "-Ff";
    assert Body(t) == "Ff" && "Ff"[1..] == "f" && "f"[1..] == [];
    assert Scan("f", 16, -Int64Min, 15) == Ok(255);
    assert Scan("Ff", 16, -Int64Min, 0) == Ok(255);
  }

  /** One input for each way `Long.parseLong` fails. */
  lemma DecodeErrorExamples()
    ensures Decode("12", 2) == Err(Malformed)
    ensures Decode("", 10) == Err(Malformed)
    ensures Decode("+", 10) == Err(Malformed)
    ensures Decode("1", 37) == Err(InvalidRadix)
  {
    assert "12"[1..] == "2";
    assert Scan("2", 2, Int64Max, 1) == Err(Malformed);
  }
}
