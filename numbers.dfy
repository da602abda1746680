/**
 * Minutes parsing: `pd.to_numeric(str(x).replace(',', ''), errors='coerce')`,
 * restricted to the integer minute counts the statistics site publishes.
 */
module Numbers {
  import opened Wrappers
  import opened Text

  /** The text with every thousands separator removed; text without commas is unchanged. */
  function RemoveCommas(s: string): (r: string)
    ensures ',' !in r
    ensures |r| <= |s|
    ensures ',' !in s ==> r == s
  {
    if s == [] then []
    else
      var r := RemoveCommas(s[..|s| - 1]);
      if s[|s| - 1] == ',' then r else r + [s[|s| - 1]]
  }

  /** Removing the separators shortens the text by its commas and keeps every other character as often. */
  lemma {:induction false} RemoveCommasCounts(s: string)
    ensures |RemoveCommas(s)| == |s| - multiset(s)[',']
    ensures forall c :: c != ',' ==> multiset(RemoveCommas(s))[c] == multiset(s)[c]
  {
    if s != [] {
      var init := s[..|s| - 1];
      assert s == init + [s[|s| - 1]];
      RemoveCommasCounts(init);
    }
  }

  lemma {:induction false} RemoveCommasConcat(a: string, b: string)
    ensures RemoveCommas(a + b) == RemoveCommas(a) + RemoveCommas(b)
  {
    if b != [] {
      var init := b[..|b| - 1];
      assert (a + b)[..|a + b| - 1] == a + init;
      RemoveCommasConcat(a, init);
    } else {
      assert a + b == a;
    }
  }

  predicate AllDigits(s: string)
  {
    forall i :: 0 <= i < |s| ==> IsDigit(s[i])
  }

  function DigitValue(c: char): nat
    requires IsDigit(c)
  {
    (c as int - '0' as int) as nat
  }

  function DigitsValue(s: string): nat
    requires AllDigits(s)
  {
    if s == [] then 0 else DigitsValue(s[..|s| - 1]) * 10 + DigitValue(s[|s| - 1])
  }

  /** A non-empty string of decimal digits denotes a number; anything else is missing. */
  function ParseNumber(s: string): Option<nat>
  {
    if s != [] && AllDigits(s) then Some(DigitsValue(s)) else None
  }

  /** The minutes a cell holds; a missing cell (stringified as `nan`) or unparseable text is missing. */
  function ParseMinutes(v: Option<string>): Option<nat>
  {
    match v
    case None => None
    case Some(s) => ParseNumber(RemoveCommas(s))
  }

  function DigitChar(d: nat): (c: char)
    requires d < 10
    ensures IsDigit(c) && DigitValue(c) == d
  {
    ('0' as int + d) as char
  }

  /** The decimal numeral of `n`, without separators or leading zeros. */
  function DecimalString(n: nat): (s: string)
    ensures s != [] && AllDigits(s)
  {
    if n < 10 then [DigitChar(n)] else DecimalString(n / 10) + [DigitChar(n % 10)]
  }

  /** Parsing a numeral gives back its number. */
  lemma {:induction false} ParseDecimalString(n: nat)
    ensures ParseNumber(DecimalString(n)) == Some(n)
    ensures RemoveCommas(DecimalString(n)) == DecimalString(n)
  {
    var s := DecimalString(n);
    if n >= 10 {
      var init, d := DecimalString(n / 10), DigitChar(n % 10);
      assert s == init + [d];
      assert s[..|s| - 1] == init && s[|s| - 1] == d;
      ParseDecimalString(n / 10);
      assert DigitsValue(init) == n / 10;
      assert DigitsValue(s) == (n / 10) * 10 + n % 10;
      assert RemoveCommas(s) == RemoveCommas(init) + [d];
    } else {
      assert s == [DigitChar(n)] && s[..|s| - 1] == [];
      assert DigitsValue(s) == DigitsValue([]) * 10 + DigitValue(DigitChar(n));
    }
  }

  /** A thousands separator anywhere in the text does not change the minutes read. */
  lemma CommaIgnored(a: string, b: string)
    ensures ParseMinutes(Some(a + "," + b)) == ParseMinutes(Some(a + b))
  {
    RemoveCommasConcat(a + ",", b);
    RemoveCommasConcat(a, ",");
    RemoveCommasConcat(a, b);
  }
}
