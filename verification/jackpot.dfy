/** `parseJackpot` after the DOM selection: the advertised jackpot text (for example
    "$1,234 Million") turned into an amount in cents. */
module Jackpot {
  import opened Wrappers
  import opened Errors
  import opened Text

  const MillionStr: string := "million"
  const Million: nat := 1000000
  const CentsInDollar: nat := 100

  /** What the regular expression `\d` matches: an ASCII decimal digit. */
  predicate IsDigit(c: char) {
    '0' <= c <= '9'
  }

  /** The digits are exactly the ten characters "0" to "9". */
  lemma IsDigitListed(c: char)
    ensures IsDigit(c) <==> c in "0123456789"
  {
  }

  predicate AllDigits(s: string) {
    forall i :: 0 <= i < |s| ==> IsDigit(s[i])
  }

  /** `s.match(/\d/g).join('')`: the digits of `s`, in order, with everything else dropped. */
  function Digits(s: string): (d: string)
    ensures AllDigits(d)
    ensures |d| == 0 <==> forall i :: 0 <= i < |s| ==> !IsDigit(s[i])
    ensures AllDigits(s) ==> d == s
  {
    if |s| == 0 then ""
    else (if IsDigit(s[0]) then [s[0]] else "") + Digits(s[1..])
  }

  /** Filtering digits distributes over concatenation. */
  lemma {:induction false} DigitsAppend(a: string, b: string)
    ensures Digits(a + b) == Digits(a) + Digits(b)
    decreases |a|
  {
    if |a| > 0 {
      assert (a + b)[1..] == a[1..] + b;
      DigitsAppend(a[1..], b);
    } else {
      assert a + b == b;
    }
  }

  function DigitValue(c: char): (v: nat)
    requires IsDigit(c)
    ensures v < 10
  {
    c as int - '0' as int
  }

  function Pow10(n: nat): nat
  {
    if n == 0 then 1 else 10 * Pow10(n - 1)
  }

  /** `Number(d)` for a string of decimal digits, leading zeros allowed. A string of `n`
      digits reads as less than 10 to the `n`. */
  function DecimalValue(d: string): (v: nat)
    requires AllDigits(d)
    ensures v < Pow10(|d|)
  {
    if |d| == 0 then 0 else DecimalValue(d[..|d| - 1]) * 10 + DigitValue(d[|d| - 1])
  }

  /** The value of a concatenation of digit strings: the left part is shifted by the
      length of the right part. */
  lemma {:induction false} DecimalValueAppend(a: string, b: string)
    requires AllDigits(a) && AllDigits(b)
    ensures DecimalValue(a + b) == DecimalValue(a) * Pow10(|b|) + DecimalValue(b)
    decreases |b|
  {
    if |b| > 0 {
      var b' := b[..|b| - 1];
      var v := DigitValue(b[|b| - 1]);
      assert (a + b)[..|a + b| - 1] == a + b';
      assert DecimalValue(a + b) == DecimalValue(a + b') * 10 + v;
      DecimalValueAppend(a, b');
      var x, p, y := DecimalValue(a), Pow10(|b'|), DecimalValue(b');
      assert DecimalValue(b) == y * 10 + v;
      assert Pow10(|b|) == p * 10;
      ShiftDigit(x, p, y, v);
    } else {
      assert a + b == a;
    }
  }

  /** Appending a digit shifts what came before by one place. */
  lemma ShiftDigit(x: int, p: int, y: int, v: int)
    ensures (x * p + y) * 10 + v == x * (p * 10) + (y * 10 + v)
  {
  }

  /** `text.indexOf('million') > -1`: true exactly when "million" occurs in the text. */
  function HasMillion(text: string): (b: bool)
    ensures b <==> Contains(text, MillionStr)
  {
    IndexOfFound(text, MillionStr);
    IndexOf(text, MillionStr) > -1
  }

  /** `parseJackpot` from the selected text on: lower-case the text, note whether it says
      "million", keep its digits, read them as dollars, convert to cents and scale by a
      million if needed. With no digit at all, `match` returns `null`, `join` throws, and the
      parse fails; it never falls back to 0. */
  function ParseJackpot(text: string): (r: Result<nat, Error>)
    ensures r.Failure? <==> forall i :: 0 <= i < |text| ==> !IsDigit(text[i])
    ensures r.Failure? ==> r.error == ParseError
    ensures r.Success? ==> r.value % CentsInDollar == 0
    ensures r.Success? && Contains(Lower(text), MillionStr) ==> r.value % (CentsInDollar * Million) == 0
    ensures r.Success? ==> r.value == DecimalValue(Digits(text)) * CentsInDollar
                                      * (if Contains(Lower(text), MillionStr) then Million else 1)
  {
    var lower := Lower(text);
    var isMillion := HasMillion(lower);
    var numb := Digits(lower);
    DigitsOfLower(text);
    if |numb| == 0 then Failure(ParseError)
    else
      var dollars := DecimalValue(numb);
      var cents := dollars * CentsInDollar;
      CentsMultiples(dollars);
      Success(if isMillion then cents * Million else cents)
  }

  /** Whole dollars are a whole number of cents, and whole millions of dollars a whole
      number of hundred-million cents. */
  lemma CentsMultiples(dollars: nat)
    ensures (dollars * CentsInDollar) % CentsInDollar == 0
    ensures (dollars * CentsInDollar * Million) % CentsInDollar == 0
    ensures (dollars * CentsInDollar * Million) % (CentsInDollar * Million) == 0
  {
  }

  /** Lower-casing changes no digit and turns no other character into one. */
  lemma {:induction false} DigitsOfLower(s: string)
    ensures Digits(Lower(s)) == Digits(s)
    decreases |s|
  {
    if |s| > 0 {
      var l := Lower(s);
      assert l[1..] == Lower(s[1..]);
      DigitsOfLower(s[1..]);
    }
  }

  /** The character of a decimal digit. */
  function DigitChar(v: nat): (c: char)
    requires v < 10
    ensures IsDigit(c) && DigitValue(c) == v
  {
    ('0' as int + v) as char
  }

  /** The value of a two- or three-digit string, place by place. */
  lemma DecimalValueOfDigits(a: char, b: char, c: char)
    requires IsDigit(a) && IsDigit(b) && IsDigit(c)
    ensures DecimalValue([b, c]) == 10 * DigitValue(b) + DigitValue(c)
    ensures DecimalValue([a, b, c]) == 100 * DigitValue(a) + 10 * DigitValue(b) + DigitValue(c)
  {
    assert DecimalValue([a]) == DigitValue(a) by { assert [a][..0] == []; }
    assert DecimalValue([b]) == DigitValue(b) by { assert [b][..0] == []; }
    assert DecimalValue([a, b]) == 10 * DigitValue(a) + DigitValue(b) by { assert [a, b][..1] == [a]; }
    assert [b, c][..1] == [b];
    assert [a, b, c][..2] == [a, b];
  }

  /** A number below 1000 is its hundreds, tens and units digits. */
  lemma PlaceValues(n: nat)
    requires n < 1000
    ensures n / 10 % 10 < 10 && n / 100 < 10
    ensures n == 100 * (n / 100) + 10 * (n / 10 % 10) + n % 10
  {
    assert n == 10 * (n / 10) + n % 10;
    assert n / 10 == 10 * (n / 100) + n / 10 % 10;
  }

  /** A number below 1000 written without leading zeros, as the leading group of an amount. */
  function LeadingGroup(n: nat): (s: string)
    requires n < 1000
    ensures AllDigits(s) && DecimalValue(s) == n
  {
    PlaceValues(n);
    var h, t, u := DigitChar(n / 100), DigitChar(n / 10 % 10), DigitChar(n % 10);
    DecimalValueOfDigits(h, t, u);
    if n < 10 then
      assert [u][..0] == [];
      [u]
    else if n < 100 then [t, u]
    else [h, t, u]
  }

  /** A number below 1000 as exactly three digits, as a later group of an amount. */
  function Group3(n: nat): (s: string)
    requires n < 1000
    ensures |s| == 3 && AllDigits(s) && DecimalValue(s) == n
  {
    PlaceValues(n);
    var h, t, u := DigitChar(n / 100), DigitChar(n / 10 % 10), DigitChar(n % 10);
    DecimalValueOfDigits(h, t, u);
    [h, t, u]
  }

  /** A character the jackpot display uses besides digits and the word "Million". */
  predicate IsAmountChar(c: char) {
    IsDigit(c) || c == ',' || c == '$'
  }

  /** A dollar amount the way the page shows it, in groups of three digits separated by
      commas ("1,234"). */
  function FormatDollars(n: nat): (s: string)
    ensures forall i :: 0 <= i < |s| ==> IsAmountChar(s[i])
    decreases n
  {
    if n < 1000 then LeadingGroup(n)
    else FormatDollars(n / 1000) + "," + Group3(n % 1000)
  }

  /** Dropping the comma between the groups of an amount of 1000 or more. */
  lemma FormatDollarsDigits(n: nat)
    requires n >= 1000
    ensures Digits(FormatDollars(n)) == Digits(FormatDollars(n / 1000)) + Group3(n % 1000)
  {
    var head := FormatDollars(n / 1000);
    var tail := Group3(n % 1000);
    assert FormatDollars(n) == head + "," + tail;
    DigitsAppend(head + ",", tail);
    CommaNoDigit(head);
  }

  /** The comma after a group contributes no digit. */
  lemma CommaNoDigit(head: string)
    ensures Digits(head + ",") == Digits(head)
  {
    DigitsAppend(head, ",");
    assert Digits(",") == "" by {
      assert !IsDigit(","[0]);
    }
  }

  /** The digits of a formatted amount read back as the amount: the commas carry no value. */
  lemma {:induction false} FormatDollarsValue(n: nat)
    ensures DecimalValue(Digits(FormatDollars(n))) == n
    decreases n
  {
    if n >= 1000 {
      var head := Digits(FormatDollars(n / 1000));
      var tail := Group3(n % 1000);
      FormatDollarsValue(n / 1000);
      FormatDollarsDigits(n);
      DecimalValueAppend(head, tail);
      assert Pow10(3) == 1000 by {
        assert Pow10(1) == 10;
        assert Pow10(2) == 100;
      }
      assert DecimalValue(head + tail) == (n / 1000) * 1000 + n % 1000;
    }
  }

  /** The jackpot text as the page displays it: "$1,234 Million" or "$500". */
  function FormatJackpot(dollars: nat, inMillions: bool): string {
    "$" + FormatDollars(dollars) + (if inMillions then " Million" else "")
  }

  /** Lower-casing leaves the characters of an amount unchanged. */
  lemma LowerAmount(s: string)
    requires forall i :: 0 <= i < |s| ==> IsAmountChar(s[i])
    ensures Lower(s) == s
  {
  }

  /** The word after the amount contributes no digit. */
  lemma NoDigitsInUnit()
    ensures Digits(" Million") == ""
  {
    var unit := " Million";
    forall i | 0 <= i < |unit|
      ensures !IsDigit(unit[i])
    {
      assert unit[i] in {' ', 'M', 'i', 'l', 'o', 'n'};
    }
  }

  /** The dollar sign in front of an amount contributes no digit. */
  lemma DollarSignNoDigit(amount: string)
    ensures Digits("$" + amount) == Digits(amount)
  {
    DigitsAppend("$", amount);
    assert Digits("$") == "" by {
      assert !IsDigit("$"[0]);
    }
  }

  /** The digits of the displayed jackpot are those of the amount. */
  lemma DisplayDigits(dollars: nat, inMillions: bool)
    ensures Digits(FormatJackpot(dollars, inMillions)) == Digits(FormatDollars(dollars))
  {
    var amount := "$" + FormatDollars(dollars);
    var unit: string := if inMillions then " Million" else "";
    assert FormatJackpot(dollars, inMillions) == amount + unit;
    DigitsAppend(amount, unit);
    DollarSignNoDigit(FormatDollars(dollars));
    if inMillions {
      NoDigitsInUnit();
    } else {
      assert Digits(unit) == "";
    }
  }

  /** The digits of the displayed jackpot, once lower-cased, are those of the amount. */
  lemma FormattedDigits(dollars: nat, inMillions: bool)
    ensures Digits(Lower(FormatJackpot(dollars, inMillions))) == Digits(FormatDollars(dollars))
  {
    DigitsOfLower(FormatJackpot(dollars, inMillions));
    DisplayDigits(dollars, inMillions);
  }

  /** Whatever precedes it, a trailing " Million" is found once the text is lower-cased. */
  lemma MillionAfterAmount(amount: string)
    ensures HasMillion(Lower(amount + " Million"))
  {
    var front := Lower(amount) + " ";
    LowerAppend(amount, " Million");
    LowerUnit();
    assert Lower(amount + " Million") == front + MillionStr;
    OccursAfter(front, MillionStr);
  }

  /** The unit word, lower-cased. */
  lemma LowerUnit()
    ensures Lower(" Million") == " " + MillionStr
  {
    var l := Lower(" Million");
    assert l[1] == 'm';
  }

  /** Text made only of amount characters never says "million". */
  lemma NoMillionInAmount(amount: string)
    requires forall i :: 0 <= i < |amount| ==> IsAmountChar(amount[i])
    ensures !HasMillion(Lower(amount))
  {
    LowerAmount(amount);
    AmountNeverSaysMillion(amount);
  }

  /** No amount character is the "m" that starts "million". */
  lemma AmountNeverSaysMillion(amount: string)
    requires forall i :: 0 <= i < |amount| ==> IsAmountChar(amount[i])
    ensures IndexOf(amount, MillionStr) == -1
  {
    assert forall i :: 0 <= i < |amount| ==> amount[i] != MillionStr[0] by {
      assert MillionStr[0] == 'm';
    }
    NoFirstCharNoOccurrence(amount, MillionStr);
  }

  /** The lower-cased display says "million" exactly when the amount is in millions. */
  lemma FormattedMillion(dollars: nat, inMillions: bool)
    ensures HasMillion(Lower(FormatJackpot(dollars, inMillions))) == inMillions
  {
    var amount := "$" + FormatDollars(dollars);
    if inMillions {
      assert FormatJackpot(dollars, inMillions) == amount + " Million";
      MillionAfterAmount(amount);
    } else {
      assert FormatJackpot(dollars, inMillions) == amount;
      assert forall i :: 0 <= i < |amount| ==> IsAmountChar(amount[i]);
      NoMillionInAmount(amount);
    }
  }

  /** Parsing inverts formatting: the displayed jackpot is read back as dollars times 100
      cents, times a further million when the text says "Million". */
  lemma ParseFormattedJackpot(dollars: nat, inMillions: bool)
    ensures ParseJackpot(FormatJackpot(dollars, inMillions))
         == Success(dollars * CentsInDollar * (if inMillions then Million else 1))
  {
    var text := FormatJackpot(dollars, inMillions);
    FormattedDigits(dollars, inMillions);
    FormattedMillion(dollars, inMillions);
    FormatDollarsValue(dollars);
    assert DecimalValue(Digits(Lower(text))) == dollars;
  }

  /** A jackpot given in millions: "$1,234 Million" is 123,400,000,000 cents. */
  lemma MillionsExample()
    ensures ParseJackpot("$1,234 Million") == Success(123400000000)
  {
    assert FormatJackpot(1234, true) == "$1,234 Million" by {
      assert FormatDollars(1234) == "1,234" by {
        assert LeadingGroup(1) == "1";
        assert Group3(234) == "234";
        assert FormatDollars(1234) == FormatDollars(1) + "," + Group3(234);
      }
    }
    ParseFormattedJackpot(1234, true);
  }

  /** A jackpot given in plain dollars: the digits "500" are 50,000 cents. */
  lemma PlainExample()
    ensures ParseJackpot("500") == Success(50000)
  {
    var text := "500";
    assert AllDigits(text);
    LowerAmount(text);
    NoFirstCharNoOccurrence(text, MillionStr);
    DecimalValueOfDigits('5', '0', '0');
    assert text == ['5', '0', '0'];
  }
}
