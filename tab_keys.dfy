/**
  Render keys of tabs: App.js builds them with the template
  `webview-${timestamp}`, i.e. the prefix followed by the decimal digits of
  a `Date.now()` value.  Decimal rendering is modelled for natural numbers
  and paired with its parser, so that distinct stamps give distinct keys.
*/
module TabKeys {

  const KeyPrefix: string := "webview-"

  predicate IsDigit(c: char) {
    '0' <= c <= '9'
  }

  predicate AllDigits(s: string) {
    forall i :: 0 <= i < |s| ==> IsDigit(s[i])
  }

  /** The form JavaScript gives a non-negative integer: digits, no leading zero except for `0` itself. */
  predicate Canonical(s: string) {
    |s| > 0 && AllDigits(s) && (|s| > 1 ==> s[0] != '0')
  }

  function DigitChar(d: nat): (c: char)
    requires d < 10
    ensures IsDigit(c)
  {
    ('0' as int + d) as char
  }

  function DigitValue(c: char): (d: nat)
    requires IsDigit(c)
    ensures d < 10 && DigitChar(d) == c
  {
    (c as int - '0' as int) as nat
  }

  /** `${n}` for a natural number n. */
  function Decimal(n: nat): (s: string)
    ensures Canonical(s)
    ensures n > 0 ==> s[0] != '0'
  {
    if n < 10 then [DigitChar(n)]
    else Decimal(n / 10) + [DigitChar(n % 10)]
  }

  /** Reads a string of digits as a natural number, most significant digit first. */
  function ParseDecimal(s: string): nat
    requires AllDigits(s)
  {
    if s == [] then 0
    else ParseDecimal(s[..|s| - 1]) * 10 + DigitValue(s[|s| - 1])
  }

  lemma {:induction false} ParseDecimalOfDecimal(n: nat)
    ensures ParseDecimal(Decimal(n)) == n
  {
    var s := Decimal(n);
    if n >= 10 {
      ParseDecimalOfDecimal(n / 10);
      assert s[..|s| - 1] == Decimal(n / 10);
    }
  }

  lemma {:induction false} ParseDecimalPositive(s: string)
    requires Canonical(s) && s[0] != '0'
    ensures ParseDecimal(s) >= 1
  {
    if |s| > 1 {
      var p := s[..|s| - 1];
      assert p[0] == s[0];
      ParseDecimalPositive(p);
    } else {
      assert DigitChar(DigitValue(s[0])) == s[0];
    }
  }

  lemma {:induction false} DecimalOfParseDecimal(s: string)
    requires Canonical(s)
    ensures Decimal(ParseDecimal(s)) == s
  {
    var c := s[|s| - 1];
    var d := DigitValue(c);
    if |s| == 1 {
      assert s == [c];
      assert ParseDecimal(s) == d by { assert s[..0] == []; }
    } else {
      var p := s[..|s| - 1];
      assert p[0] == s[0];
      ParseDecimalPositive(p);
      DecimalOfParseDecimal(p);
      var n := ParseDecimal(s);
      assert n == ParseDecimal(p) * 10 + d;
      assert n / 10 == ParseDecimal(p) && n % 10 == d;
      assert s == p + [c];
    }
  }

  /** Decimal rendering is injective: different stamps never print alike. */
  lemma DecimalInjective(a: nat, b: nat)
    ensures Decimal(a) == Decimal(b) <==> a == b
  {
    ParseDecimalOfDecimal(a);
    ParseDecimalOfDecimal(b);
  }

  /** The render key `webview-${stamp}`. */
  function TabKey(stamp: nat): (k: string)
    ensures |k| > |KeyPrefix| && k[..|KeyPrefix|] == KeyPrefix
    ensures Canonical(k[|KeyPrefix|..])
  {
    var k := KeyPrefix + Decimal(stamp);
    assert k[|KeyPrefix|..] == Decimal(stamp);
    k
  }

  /** Recovers the stamp from a key of the form `webview-<digits>`, if it has that form. */
  function KeyStamp(k: string): (r: nat)
    requires |k| > |KeyPrefix| && AllDigits(k[|KeyPrefix|..])
  {
    ParseDecimal(k[|KeyPrefix|..])
  }

  lemma KeyStampOfTabKey(stamp: nat)
    ensures KeyStamp(TabKey(stamp)) == stamp
  {
    var k := TabKey(stamp);
    assert k[|KeyPrefix|..] == Decimal(stamp);
    ParseDecimalOfDecimal(stamp);
  }

  /** Every well-formed key is the key of exactly the stamp it spells. */
  lemma TabKeyOfKeyStamp(k: string)
    requires |k| > |KeyPrefix| && k[..|KeyPrefix|] == KeyPrefix && Canonical(k[|KeyPrefix|..])
    ensures TabKey(KeyStamp(k)) == k
  {
    DecimalOfParseDecimal(k[|KeyPrefix|..]);
    assert k == k[..|KeyPrefix|] + k[|KeyPrefix|..];
  }

  /** Tabs created from distinct stamps receive distinct render keys. */
  lemma TabKeyInjective(a: nat, b: nat)
    ensures TabKey(a) == TabKey(b) <==> a == b
  {
    KeyStampOfTabKey(a);
    KeyStampOfTabKey(b);
  }
}
