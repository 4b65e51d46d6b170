/** The brand checks `is_visa_card` and `is_master_card`: a fixed pattern on the
    input string as given, and the generic Luhn check of `is_credit_card`. */
module CardBrands {
  import opened Text
  import opened CreditCard

  /** `^4\d{12}(\d{3})?$`: a 4, twelve digits, and optionally three more. */
  predicate VisaPattern(s: string)
  {
    |s| >= 13 && s[0] == '4' && AllIn(s[1..13], IsDigit) &&
    (|s| == 13 || (|s| == 16 && AllIn(s[13..], IsDigit)))
  }

  /** `^5[1-5]\d{14}$`: a 5, a digit from 1 to 5, and fourteen digits. */
  predicate MasterPattern(s: string)
  {
    |s| == 16 && s[0] == '5' && '1' <= s[1] <= '5' && AllIn(s[2..], IsDigit)
  }

  /** The Visa pattern read flat: 13 or 16 digits, the first of them a 4. */
  lemma VisaPatternShape(s: string)
    ensures VisaPattern(s) <==> (|s| == 13 || |s| == 16) && s[0] == '4' && AllIn(s, IsDigit)
  {
    if (|s| == 13 || |s| == 16) && s[0] == '4' && AllIn(s, IsDigit) {
      assert forall i :: 1 <= i < 13 ==> s[1..13][i - 1] == s[i];
      assert forall i :: 13 <= i < |s| ==> s[13..][i - 13] == s[i];
    }
    if VisaPattern(s) {
      forall i | 0 <= i < |s| ensures IsDigit(s[i]) {
        if 1 <= i < 13 {
          assert s[i] == s[1..13][i - 1];
        } else if i >= 13 {
          assert s[i] == s[13..][i - 13];
        }
      }
    }
  }

  /** The MasterCard pattern read flat: 16 digits, starting 51 to 55. */
  lemma MasterPatternShape(s: string)
    ensures MasterPattern(s) <==> |s| == 16 && s[0] == '5' && '1' <= s[1] <= '5' && AllIn(s, IsDigit)
  {
    if MasterPattern(s) {
      forall i | 2 <= i < |s| ensures IsDigit(s[i]) {
        assert s[i] == s[2..][i - 2];
      }
    }
    if |s| == 16 && AllIn(s, IsDigit) {
      assert forall i :: 2 <= i < |s| ==> s[2..][i - 2] == s[i];
    }
  }

  /** A string that matches a brand pattern has 13 digits or more, so the
      generic check reduces to the Luhn sum of its digits. */
  lemma BrandNumberIsLongEnough(s: string)
    requires VisaPattern(s) || MasterPattern(s)
    ensures |Digits(s)| == |s| >= 13
    ensures ValidCardNumber(s) <==> LuhnSum(Digits(s)) % 10 == 0
  {
    VisaPatternShape(s);
    MasterPatternShape(s);
    DigitsOfNumeral(s);
  }

  /** `is_visa_card`: the Visa pattern on the input as given, then the Luhn check. */
  method IsVisaCard(input: string) returns (ok: bool)
    ensures ok <==> VisaPattern(input) && ValidCardNumber(input)
    ensures ok <==> VisaPattern(input) && LuhnSum(Digits(input)) % 10 == 0
    ensures ok ==> (|input| == 13 || |input| == 16) && input[0] == '4' && AllIn(input, IsDigit)
  {
    ok := false;
    if VisaPattern(input) {
      BrandNumberIsLongEnough(input);
      VisaPatternShape(input);
      ok := IsCreditCard(input);
    }
  }

  /** `is_master_card`: the MasterCard pattern on the input as given, then the Luhn check. */
  method IsMasterCard(input: string) returns (ok: bool)
    ensures ok <==> MasterPattern(input) && ValidCardNumber(input)
    ensures ok <==> MasterPattern(input) && LuhnSum(Digits(input)) % 10 == 0
    ensures ok ==> |input| == 16 && input[0] == '5' && '1' <= input[1] <= '5' && AllIn(input, IsDigit)
  {
    ok := false;
    if MasterPattern(input) {
      BrandNumberIsLongEnough(input);
      MasterPatternShape(input);
      ok := IsCreditCard(input);
    }
  }

  /** No number is of both brands. */
  lemma BrandsDisjoint(s: string)
    ensures !(VisaPattern(s) && MasterPattern(s))
  {
  }

  // The example lemmas below take their string as a parameter equal to the
  // literal (`requires s == "..."`) instead of naming the literal in their
  // conclusion: with a literal argument the solver unfolds the recursive
  // `Digits` over it character by character and on some runs exceeds its budget.

  /** The Visa test number 4111 1111 1111 1111 passes both checks. */
  lemma VisaTestNumber(s: string)
    requires s == "4111111111111111"
    ensures VisaPattern(s) && ValidCardNumber(s)
  {
    var ds: seq<Digit> := [4, 1, 1, 1, 1, 1, 1, 1, 1, 1, 1, 1, 1, 1, 1, 1];
    DigitsOfNumeral(s);
    assert Digits(s) == ds;
    var d0: seq<Digit> := [];
    LuhnSumPair(d0, 4, 1); var d1 := d0 + [4, 1];
    LuhnSumPair(d1, 1, 1); var d2 := d1 + [1, 1];
    LuhnSumPair(d2, 1, 1); var d3 := d2 + [1, 1];
    LuhnSumPair(d3, 1, 1); var d4 := d3 + [1, 1];
    LuhnSumPair(d4, 1, 1); var d5 := d4 + [1, 1];
    LuhnSumPair(d5, 1, 1); var d6 := d5 + [1, 1];
    LuhnSumPair(d6, 1, 1); var d7 := d6 + [1, 1];
    LuhnSumPair(d7, 1, 1); var d8 := d7 + [1, 1];
    assert d8 == ds;
    assert LuhnSum(ds) == 30;
    VisaPatternShape(s);
  }

  /** The MasterCard test number 5105 1051 0510 5100 passes both checks. */
  lemma MasterTestNumber(s: string)
    requires s == "5105105105105100"
    ensures MasterPattern(s) && ValidCardNumber(s)
  {
    var ds: seq<Digit> := [5, 1, 0, 5, 1, 0, 5, 1, 0, 5, 1, 0, 5, 1, 0, 0];
    DigitsOfNumeral(s);
    assert Digits(s) == ds;
    var d0: seq<Digit> := [];
    LuhnSumPair(d0, 5, 1); var d1 := d0 + [5, 1];
    LuhnSumPair(d1, 0, 5); var d2 := d1 + [0, 5];
    LuhnSumPair(d2, 1, 0); var d3 := d2 + [1, 0];
    LuhnSumPair(d3, 5, 1); var d4 := d3 + [5, 1];
    LuhnSumPair(d4, 0, 5); var d5 := d4 + [0, 5];
    LuhnSumPair(d5, 1, 0); var d6 := d5 + [1, 0];
    LuhnSumPair(d6, 5, 1); var d7 := d6 + [5, 1];
    LuhnSumPair(d7, 0, 0); var d8 := d7 + [0, 0];
    assert d8 == ds;
    assert LuhnSum(ds) == 20;
    MasterPatternShape(s);
  }

  /** Written in groups separated by spaces, a number keeps its verdict under
      the generic check, which ignores the spaces, but a first group of four no
      longer matches the Visa pattern, which is applied to the input as given. */
  lemma GroupedNumber(a: string, b: string, c: string, d: string)
    requires |a| == 4
    ensures ValidCardNumber(a + " " + b + " " + c + " " + d) == ValidCardNumber(a + b + c + d)
    ensures !VisaPattern(a + " " + b + " " + c + " " + d)
  {
    var sp := " ";
    var s := a + sp + b + sp + c + sp + d;
    NonDigitsIgnored(a + sp + b + sp + c, sp, d);
    NonDigitsIgnored(a + sp + b, sp, c + d);
    NonDigitsIgnored(a, sp, b + c + d);
    assert a + sp + b + sp + c + d == (a + sp + b) + sp + (c + d);
    assert a + sp + b + c + d == (a + sp + b) + (c + d) == a + sp + (b + c + d);
    assert a + b + c + d == a + (b + c + d);
    assert s == a + " " + b + " " + c + " " + d;
    assert ValidCardNumber(s) == ValidCardNumber(a + sp + b + sp + c + d);
    assert ValidCardNumber(a + sp + b + sp + c + d) == ValidCardNumber(a + sp + b + c + d);
    assert ValidCardNumber(a + sp + b + c + d) == ValidCardNumber(a + b + c + d);
    assert s[4] == ' ';
    if |s| >= 13 {
      assert s[1..13][3] == s[4];
    }
  }

  /** The Visa test number in groups of four is a card number but not a Visa match. */
  lemma GroupedTestNumber(s: string)
    requires s == "4111 1111 1111 1111"
    ensures ValidCardNumber(s) && !VisaPattern(s)
  {
    var g := "1111";
    assert s == "4111" + " " + g + " " + g + " " + g;
    GroupedNumber("4111", g, g, g);
    VisaTestNumber("4111" + g + g + g);
  }
}
