/** Decimal and hexadecimal text of numbers. */
module Numbers {
  import opened Wrappers

  type U16 = n: nat | n < 0x1_0000

  type Base = b: nat | b == 10 || b == 16 witness 10

  function DigitChar(d: nat): (c: char)
    requires d < 16
  {
    if d < 10 then ('0' as int + d) as char else ('a' as int + (d - 10)) as char
  }

  function DigitValue(c: char): Option<nat> {
    if '0' <= c <= '9' then Some(c as int - '0' as int)
    else if 'a' <= c <= 'f' then Some(c as int - 'a' as int + 10)
    else if 'A' <= c <= 'F' then Some(c as int - 'A' as int + 10)
    else None
  }

  function Quotient(n: nat, base: Base): nat {
    if base == 10 then n / 10 else n / 16
  }

  function Remainder(n: nat, base: Base): (r: nat)
    ensures r < base
  {
    if base == 10 then n % 10 else n % 16
  }

  /** The shortest text of `n` in the given base. */
  function Digits(n: nat, base: Base): (s: string)
    ensures s != ""
    decreases n
  {
    if n < base then [DigitChar(n)] else Digits(Quotient(n, base), base) + [DigitChar(Remainder(n, base))]
  }

  /** The value of a digit string; the empty string is 0 here and refused by the callers. */
  function Value(s: string, base: Base): Option<nat>
  {
    if s == "" then Some(0)
    else match (Value(s[..|s| - 1], base), DigitValue(s[|s| - 1]))
      case (Some(hi), Some(lo)) => if lo < base then Some((if base == 10 then hi * 10 else hi * 16) + lo) else None
      case _ => None
  }

  lemma {:induction false} ValueOfDigits(n: nat, base: Base)
    ensures Value(Digits(n, base), base) == Some(n)
    decreases n
  {
    var s := Digits(n, base);
    if n < base {
      assert s[..0] == "";
    } else {
      ValueOfDigits(Quotient(n, base), base);
      assert s[..|s| - 1] == Digits(Quotient(n, base), base);
    }
  }

  lemma {:induction false} DigitsAreDigits(n: nat, base: Base)
    ensures forall c :: c in Digits(n, base) ==> DigitValue(c).Some? && '0' <= c <= 'f'
    decreases n
  {
    if n >= base {
      DigitsAreDigits(Quotient(n, base), base);
    }
  }

  function Decimal(n: nat): string {
    Digits(n, 10)
  }

  /** `str::parse::<u16>`: an optional '+', at least one digit, no overflow. */
  function ParseU16(s: string): Option<U16> {
    var digits := if s != "" && s[0] == '+' then s[1..] else s;
    if digits == "" then None
    else match Value(digits, 10)
      case Some(n) => if n < 0x1_0000 then Some(n) else None
      case None => None
  }

  lemma ParseOfDecimal(n: U16)
    ensures ParseU16(Decimal(n)) == Some(n)
  {
    ValueOfDigits(n, 10);
    DigitsAreDigits(n, 10);
    assert Decimal(n)[0] in Decimal(n);
  }
}
