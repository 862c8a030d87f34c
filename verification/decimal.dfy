/** Decimal numerals as QString::number() prints and QString::toInt() reads them. */
module Decimal {
  predicate IsDigit(c: char)
  {
    '0' <= c <= '9'
  }

  predicate AllDigits(s: string)
  {
    forall c | c in s :: IsDigit(c)
  }

  function Digit(d: nat): (c: char)
    requires d < 10
    ensures IsDigit(c)
  {
    "0123456789"[d]
  }

  function ValueOf(c: char): (d: nat)
    requires IsDigit(c)
    ensures d < 10
  {
    (c as int) - ('0' as int)
  }

  lemma ValueOfDigit(d: nat)
    requires d < 10
    ensures ValueOf(Digit(d)) == d
  {
  }

  lemma DigitOfValue(c: char)
    requires IsDigit(c)
    ensures Digit(ValueOf(c)) == c
  {
  }

  function Print(n: nat): (s: string)
    ensures s != [] && AllDigits(s)
  {
    if n < 10 then [Digit(n)] else Print(n / 10) + [Digit(n % 10)]
  }

  function Value(s: string): nat
    requires AllDigits(s)
  {
    if s == [] then 0 else 10 * Value(s[..|s| - 1]) + ValueOf(s[|s| - 1])
  }

  lemma {:induction false} ValuePrint(n: nat)
    ensures Value(Print(n)) == n
  {
    hide Digit, ValueOf;
    ValueOfDigit(n % 10);
    if n < 10 {
      assert Print(n)[..0] == [];
    } else {
      var p := Print(n / 10);
      ValuePrint(n / 10);
      assert (p + [Digit(n % 10)])[..|p|] == p;
    }
  }

  // The last character is that of the last decimal digit, the ones before it print the rest.
  lemma PrintMeans(n: nat)
    ensures
      var s := Print(n);
      && s[|s| - 1] as int == '0' as int + n % 10
      && (n < 10 ==> |s| == 1) && (n >= 10 ==> s[..|s| - 1] == Print(n / 10))
    ensures Print(1907) == "1907"
  {
    hide Print;
    PrintLast(n);
    PrintLast(1907);
    PrintLast(190);
    PrintLast(19);
    PrintLast(1);
    assert "1907" == "190" + "7" && "190" == "19" + "0" && "19" == "1" + "9";
  }

  lemma PrintLast(n: nat)
    ensures n < 10 ==> Print(n) == [('0' as int + n) as char]
    ensures n >= 10 ==> Print(n) == Print(n / 10) + [('0' as int + n % 10) as char]
  {
    DigitChar(n % 10);
  }

  lemma DigitChar(d: nat)
    requires d < 10
    ensures Digit(d) == ('0' as int + d) as char
  {
  }

  predicate LeadingZero(s: string)
  {
    |s| > 1 && s[0] == '0'
  }

  lemma {:induction false} PrintNoLeadingZero(n: nat)
    ensures !LeadingZero(Print(n)) && (Print(n)[0] == '0' ==> n == 0)
  {
    DigitOfValue('0');
    if n >= 10 {
      PrintNoLeadingZero(n / 10);
      assert Print(n)[0] == Print(n / 10)[0];
    }
  }

  // A numeral is printed again as it was read exactly when it has no leading zero.
  lemma {:induction false} PrintValue(s: string)
    requires s != [] && AllDigits(s)
    ensures Print(Value(s)) == s <==> !LeadingZero(s)
  {
    PrintNoLeadingZero(Value(s));
    if !LeadingZero(s) {
      PrintValueBack(s);
    }
  }

  lemma {:induction false} PrintValueBack(s: string)
    requires s != [] && AllDigits(s) && !LeadingZero(s)
    ensures Print(Value(s)) == s && (s[0] != '0' ==> Value(s) > 0)
  {
    hide Digit, ValueOf, Print, Value;
    var init, last := s[..|s| - 1], s[|s| - 1];
    assert s == init + [last];
    ValueStep(init, last);
    PrintDigit(last);
    if init != [] {
      assert init[0] == s[0];
      PrintValueBack(init);
      PrintStep(Value(init), ValueOf(last));
    }
  }

  lemma ValueStep(init: string, last: char)
    requires AllDigits(init) && IsDigit(last)
    ensures Value(init + [last]) == 10 * Value(init) + ValueOf(last) && Value("") == 0
  {
    assert (init + [last])[..|init|] == init;
  }

  lemma PrintDigit(c: char)
    requires IsDigit(c)
    ensures Digit(ValueOf(c)) == c && Print(ValueOf(c)) == [c] && (c != '0' ==> ValueOf(c) > 0)
  {
    DigitOfValue(c);
  }

  lemma PrintStep(q: nat, d: nat)
    requires q > 0 && d < 10
    ensures Print(10 * q + d) == Print(q) + [Digit(d)]
  {
    assert (10 * q + d) / 10 == q && (10 * q + d) % 10 == d;
  }

  // Different numbers have different numerals.
  lemma PrintInjective(m: nat, n: nat)
    requires Print(m) == Print(n)
    ensures m == n
  {
    ValuePrint(m);
    ValuePrint(n);
  }
}
