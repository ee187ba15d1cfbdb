/** Decimal conversions: `strconv.Atoi` and `strconv.Itoa` on the inputs
    grabref.go gives them. */
module Numbers {
  import opened Chars

  predicate AllDigits(s: string) {
    forall i :: 0 <= i < |s| ==> IsDigit(s[i])
  }

  function Pow10(n: nat): (r: nat)
    ensures r >= 1
  {
    if n == 0 then 1 else 10 * Pow10(n - 1)
  }

  function DigitValue(c: char): (d: nat)
    requires IsDigit(c)
    ensures d <= 9
  {
    c as int - '0' as int
  }

  function DigitChar(d: nat): (c: char)
    requires d <= 9
    ensures IsDigit(c) && DigitValue(c) == d
  {
    ('0' as int + d) as char
  }

  /** The value of a string of decimal digits, most significant first. */
  function DecimalValue(s: string): (v: nat)
    requires AllDigits(s)
    ensures v < Pow10(|s|)
    decreases |s|
  {
    if |s| == 0 then 0
    else
      var prefix := DecimalValue(s[..|s| - 1]);
      assert prefix * 10 <= (Pow10(|s| - 1) - 1) * 10;
      prefix * 10 + DigitValue(s[|s| - 1])
  }

  /** The decimal digits of a natural number, without leading zeros. */
  function NatDigits(n: nat): (s: string)
    ensures |s| > 0 && AllDigits(s)
    ensures DecimalValue(s) == n
    ensures |s| == 1 <==> n < 10
    ensures |s| > 1 ==> s[0] != '0'
    decreases n
  {
    if n < 10 then [DigitChar(n)]
    else
      var s := NatDigits(n / 10) + [DigitChar(n % 10)];
      assert s[..|s| - 1] == NatDigits(n / 10);
      s
  }

  /** `strconv.Itoa` */
  function Itoa(n: int): (s: string)
    ensures |s| > 0
    ensures (s[0] == '-') == (n < 0)
    ensures var digits := if n < 0 then s[1..] else s;
      && |digits| > 0 && AllDigits(digits)
      && DecimalValue(digits) == (if n < 0 then -n else n)
      && (|digits| > 1 ==> digits[0] != '0')
  {
    if n < 0 then "-" + NatDigits(-n) else NatDigits(n)
  }

  /** The outcome of `strconv.Atoi`: its value and whether the error was nil. */
  datatype Parsed = Parsed(value: int, ok: bool)

  /** `strconv.Atoi`: an optional sign followed by at least one decimal digit;
      anything else is a syntax error whose value is 0. */
  function Atoi(s: string): (r: Parsed)
    ensures !r.ok ==> r.value == 0
    ensures |s| == 0 ==> !r.ok
    ensures AllDigits(s) && |s| > 0 ==> r == Parsed(DecimalValue(s), true)
  {
    if |s| == 0 then Parsed(0, false)
    else
      var body := if s[0] == '-' || s[0] == '+' then s[1..] else s;
      if |body| == 0 || !AllDigits(body) then Parsed(0, false)
      else if s[0] == '-' then Parsed(0 - DecimalValue(body), true)
      else Parsed(DecimalValue(body), true)
  }

  /** Itoa and Atoi are inverse: every int survives the round trip. */
  lemma AtoiItoa(n: int)
    ensures Atoi(Itoa(n)) == Parsed(n, true)
  {
    if n < 0 {
      var s := Itoa(n);
      assert s[1..] == NatDigits(-n);
    }
  }
}
