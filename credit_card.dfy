/** The generic payment-card check `is_credit_card`: the Luhn checksum of
    ISO/IEC 7812-1, Annex B, over the ASCII decimal digits of the input.

    `ValidCardNumber` is the specification; the method `IsCreditCard` follows
    the source's two loops (collect the digits, then sum them from the right
    with a toggling doubling flag) and is proved to compute it. */
module CreditCard {
  import opened Text

  /** The value of one decimal digit, as the source's `Vec<u32>` holds it. */
  type Digit = d: int | 0 <= d <= 9

  /** The values of the ASCII decimal digits of `s`, in order; every other
      character is dropped. */
  function Digits(s: string): (ds: seq<Digit>)
    ensures |ds| <= |s|
  {
    if s == [] then []
    else
      var init := Digits(s[..|s| - 1]);
      var c := s[|s| - 1];
      if IsDigit(c) then init + [DigitValue(c)] else init
  }

  /** What one digit adds to the sum: itself, or, when it is doubled, twice
      itself with 9 taken off a result above 9. */
  function Contribution(d: Digit, double: bool): Digit
  {
    if !double then d else if 2 * d > 9 then 2 * d - 9 else 2 * d
  }

  /** The sum the source's reverse loop accumulates over `ds`, where `double`
      is the flag in force at the rightmost digit and flips at every step
      leftwards. */
  function LuhnFold(ds: seq<Digit>, double: bool): nat
  {
    if ds == [] then 0
    else LuhnFold(ds[..|ds| - 1], !double) + Contribution(ds[|ds| - 1], double)
  }

  /** The Luhn sum: the rightmost digit is not doubled. */
  function LuhnSum(ds: seq<Digit>): nat
  {
    LuhnFold(ds, false)
  }

  /** What `is_credit_card` accepts: at least 13 digits, and a Luhn sum that is
      a multiple of 10. */
  predicate ValidCardNumber(s: string)
  {
    var ds := Digits(s);
    |ds| >= 13 && LuhnSum(ds) % 10 == 0
  }

  /** `is_credit_card`: collects the digits of `input` into a growing vector,
      rejects fewer than 13, then adds them up from the right, doubling every
      second one. */
  method IsCreditCard(input: string) returns (ok: bool)
    ensures ok == ValidCardNumber(input)
    ensures |Digits(input)| < 13 ==> !ok
  {
    var digits: seq<Digit> := [];
    for i := 0 to |input|
      invariant digits == Digits(input[..i])
    {
      assert input[..i + 1][..i] == input[..i];
      if IsDigit(input[i]) {
        digits := digits + [DigitValue(input[i])];
      }
    }
    assert input[..|input|] == input;

    if |digits| < 13 {
      return false;
    }

    var sum: nat := 0;
    var shouldDouble := false;
    assert digits[..|digits|] == digits;
    for i := |digits| downto 0
      invariant sum + LuhnFold(digits[..i], shouldDouble) == LuhnSum(digits)
    {
      assert digits[..i + 1][..i] == digits[..i];
      var value: int := digits[i];
      if shouldDouble {
        value := value * 2;
        if value > 9 {
          value := value - 9;
        }
      }
      sum := sum + value;
      shouldDouble := !shouldDouble;
    }
    ok := sum % 10 == 0;
  }

  // ---------------------------------------------------------------------
  // Digit extraction

  /** Extraction distributes over concatenation. */
  lemma {:induction false} DigitsAppend(a: string, b: string)
    ensures Digits(a + b) == Digits(a) + Digits(b)
  {
    if b == [] {
      assert a + b == a;
    } else {
      var b' := b[..|b| - 1];
      assert (a + b)[..|a + b| - 1] == a + b';
      assert (a + b)[|a + b| - 1] == b[|b| - 1];
      DigitsAppend(a, b');
    }
  }

  /** A string without digits contributes nothing. */
  lemma {:induction false} DigitsOfNonDigits(s: string)
    requires forall i :: 0 <= i < |s| ==> !IsDigit(s[i])
    ensures Digits(s) == []
  {
    if s != [] {
      DigitsOfNonDigits(s[..|s| - 1]);
    }
  }

  /** A string of digits only yields one value per character. */
  lemma {:induction false} DigitsOfNumeral(s: string)
    requires AllIn(s, IsDigit)
    ensures |Digits(s)| == |s|
    ensures forall i :: 0 <= i < |s| ==> Digits(s)[i] == DigitValue(s[i])
  {
    if s != [] {
      DigitsOfNumeral(s[..|s| - 1]);
    }
  }

  /** The numeral that writes the digits `ds`. */
  function DigitString(ds: seq<Digit>): (s: string)
    ensures |s| == |ds| && AllIn(s, IsDigit)
  {
    seq(|ds|, i requires 0 <= i < |ds| => ('0' as int + ds[i]) as char)
  }

  /** Reading back a written numeral gives its digits. */
  lemma DigitsOfDigitString(ds: seq<Digit>)
    ensures Digits(DigitString(ds)) == ds
  {
    DigitsOfNumeral(DigitString(ds));
  }

  /** Non-digit characters (spaces, hyphens, anything else) never change the
      verdict, wherever they are inserted. */
  lemma NonDigitsIgnored(a: string, sep: string, b: string)
    requires forall i :: 0 <= i < |sep| ==> !IsDigit(sep[i])
    ensures ValidCardNumber(a + sep + b) == ValidCardNumber(a + b)
  {
    DigitsOfNonDigits(sep);
    DigitsAppend(a, sep);
    DigitsAppend(a + sep, b);
    DigitsAppend(a, b);
    assert Digits(a + sep) == Digits(a) + [] == Digits(a);
  }

  /** Inputs shorter than 13 characters cannot hold 13 digits. */
  lemma ShortInputRejected(s: string)
    requires |s| < 13
    ensures !ValidCardNumber(s)
  {
  }

  // ---------------------------------------------------------------------
  // The Luhn sum

  /** Doubling with 9 taken off is a permutation of the decimal digits. */
  lemma ContributionInjective(x: Digit, y: Digit, double: bool)
    ensures Contribution(x, double) == Contribution(y, double) ==> x == y
  {
  }

  /** The sum over `a + b` splits into the sum over `b` and the sum over `a`,
      whose starting flag has flipped once per digit of `b`. */
  lemma {:induction false} LuhnFoldAppend(a: seq<Digit>, b: seq<Digit>, double: bool)
    ensures LuhnFold(a + b, double) == LuhnFold(a, double != (|b| % 2 == 1)) + LuhnFold(b, double)
  {
    if b == [] {
      assert a + b == a;
    } else {
      var b' := b[..|b| - 1];
      assert (a + b)[..|a + b| - 1] == a + b';
      assert (a + b)[|a + b| - 1] == b[|b| - 1];
      LuhnFoldAppend(a, b', !double);
    }
  }

  /** Appending two digits adds the first doubled and the second as it is. */
  lemma LuhnSumPair(a: seq<Digit>, x: Digit, y: Digit)
    ensures LuhnSum(a + [x, y]) == LuhnSum(a) + Contribution(x, true) + y
  {
    LuhnFoldAppend(a, [x, y], false);
    assert [x, y][..1] == [x];
    assert [x][..0] == [];
    assert LuhnFold([x], true) == LuhnFold([], false) + Contribution(x, true);
    assert LuhnFold([x, y], false) == LuhnFold([x], true) + Contribution(y, false);
  }

  /** Reference reading of the rule: the digit at index `i` is doubled exactly
      when its distance `|ds| - 1 - i` from the rightmost digit is odd. */
  function PositionalSum(ds: seq<Digit>): nat
  {
    if ds == [] then 0 else Contribution(ds[0], (|ds| - 1) % 2 == 1) + PositionalSum(ds[1..])
  }

  /** The toggling right-to-left sum is the positional sum: the rightmost digit
      is not doubled and doubling alternates leftwards. */
  lemma {:induction false} LuhnSumIsPositional(ds: seq<Digit>)
    ensures LuhnSum(ds) == PositionalSum(ds)
  {
    if ds != [] {
      LuhnFoldAppend([ds[0]], ds[1..], false);
      assert [ds[0]] + ds[1..] == ds;
      assert [ds[0]][..0] == [];
      LuhnSumIsPositional(ds[1..]);
    }
  }

  /** The sum over `a + [x] + b` in terms of the sums over its parts. */
  lemma LuhnAround(a: seq<Digit>, x: Digit, b: seq<Digit>)
    ensures LuhnSum(a + [x] + b) ==
      LuhnFold(a, |b| % 2 == 0) + Contribution(x, |b| % 2 == 1) + LuhnSum(b)
  {
    LuhnFoldAppend(a + [x], b, false);
    LuhnFoldAppend(a, [x], |b| % 2 == 1);
    assert [x][..0] == [];
  }

  /** The check digit that completes `payload` to a valid Luhn sequence. */
  function CheckDigit(payload: seq<Digit>): Digit
  {
    (10 - LuhnFold(payload, true) % 10) % 10
  }

  /** Exactly one digit appended to `payload` makes its Luhn sum a multiple of 10. */
  lemma CheckDigitUnique(payload: seq<Digit>, d: Digit)
    ensures LuhnSum(payload + [d]) % 10 == 0 <==> d == CheckDigit(payload)
  {
    LuhnAround(payload, d, []);
    assert payload + [d] + [] == payload + [d];
    ModTenComplement(LuhnFold(payload, true), d);
  }

  /** The one digit that brings a number up to a multiple of 10. */
  lemma ModTenComplement(n: nat, d: Digit)
    ensures (n + d) % 10 == 0 <==> d == (10 - n % 10) % 10
  {
    var r := n % 10;
    assert n == 10 * (n / 10) + r;
    assert (n + d) % 10 == (r + d) % 10;
  }

  /** Any 12 or more digits, written out with their check digit, are accepted,
      and with any other last digit they are rejected. */
  lemma CompletedNumber(payload: seq<Digit>, d: Digit)
    requires |payload| >= 12
    ensures ValidCardNumber(DigitString(payload + [d])) <==> d == CheckDigit(payload)
  {
    DigitsOfDigitString(payload + [d]);
    CheckDigitUnique(payload, d);
  }

  /** Two different digits added to the same sum leave different remainders modulo 10. */
  lemma ModTenDistinct(s: int, x: Digit, y: Digit)
    requires x != y
    ensures (s + x) % 10 == 0 ==> (s + y) % 10 != 0
  {
  }

  /** The digits of `p + [c] + q` for a digit `c`. */
  lemma DigitsAround(p: string, c: char, q: string)
    requires IsDigit(c)
    ensures Digits(p + [c] + q) == Digits(p) + [DigitValue(c)] + Digits(q)
  {
    DigitsAppend(p + [c], q);
    DigitsAppend(p, [c]);
    assert [c][..0] == [];
  }

  /** Changing any one digit of an accepted number gives a rejected one. */
  lemma SingleDigitErrorDetected(p: string, c: char, c': char, q: string)
    requires IsDigit(c) && IsDigit(c') && c != c'
    requires ValidCardNumber(p + [c] + q)
    ensures !ValidCardNumber(p + [c'] + q)
  {
    DigitsAround(p, c, q);
    DigitsAround(p, c', q);
    var a, b := Digits(p), Digits(q);
    var x, y := DigitValue(c), DigitValue(c');
    var o := |b| % 2 == 1;
    LuhnAround(a, x, b);
    LuhnAround(a, y, b);
    ContributionInjective(x, y, o);
    ModTenDistinct(LuhnFold(a, !o) + LuhnSum(b), Contribution(x, o), Contribution(y, o));
  }

  /** The sum over `a + [x, y] + b` in terms of the sums over its parts. */
  lemma LuhnAroundPair(a: seq<Digit>, x: Digit, y: Digit, b: seq<Digit>)
    ensures LuhnSum(a + [x, y] + b) ==
      LuhnFold(a, |b| % 2 == 1) + Contribution(x, |b| % 2 == 0) + Contribution(y, |b| % 2 == 1) + LuhnSum(b)
  {
    var o := |b| % 2 == 1;
    LuhnFoldAppend(a + [x, y], b, false);
    LuhnFoldAppend(a, [x, y], o);
    assert [x, y][..1] == [x];
    assert [x][..0] == [];
    assert LuhnFold([x, y], o) == LuhnFold([x], !o) + Contribution(y, o);
    assert LuhnFold([x], !o) == Contribution(x, !o);
  }

  /** Swapping two adjacent different digits of an accepted number gives a
      rejected one, except for the pair 0 and 9. */
  lemma TranspositionDetected(p: string, c: char, c': char, q: string)
    requires IsDigit(c) && IsDigit(c') && c != c'
    requires !(c == '0' && c' == '9') && !(c == '9' && c' == '0')
    requires ValidCardNumber(p + [c, c'] + q)
    ensures !ValidCardNumber(p + [c', c] + q)
  {
    var x, y := DigitValue(c), DigitValue(c');
    DigitsPairAround(p, c, c', q);
    DigitsPairAround(p, c', c, q);
    var a, b := Digits(p), Digits(q);
    var o := |b| % 2 == 1;
    LuhnAroundPair(a, x, y, b);
    LuhnAroundPair(a, y, x, b);
    var s := LuhnFold(a, o) + LuhnSum(b);
    SwapShift(s, x, y, o);
  }

  /** The digits of `p + [c, c'] + q` for digits `c` and `c'`. */
  lemma DigitsPairAround(p: string, c: char, c': char, q: string)
    requires IsDigit(c) && IsDigit(c')
    ensures Digits(p + [c, c'] + q) == Digits(p) + [DigitValue(c), DigitValue(c')] + Digits(q)
  {
    DigitsAppend(p + [c, c'], q);
    DigitsAppend(p, [c, c']);
    DigitsOfNumeral([c, c']);
  }

  /** Exchanging the roles of two adjacent digits other than 0 and 9 changes
      the sum's remainder modulo 10. */
  lemma SwapShift(s: int, x: Digit, y: Digit, o: bool)
    requires x != y && !(x == 0 && y == 9) && !(x == 9 && y == 0)
    ensures (s + Contribution(x, !o) + Contribution(y, o)) % 10 == 0 ==>
            (s + Contribution(y, !o) + Contribution(x, o)) % 10 != 0
  {
    var dx, dy := Contribution(x, true) - x, Contribution(y, true) - y;
    assert dx == if x <= 4 then x else x - 9;
    assert dy == if y <= 4 then y else y - 9;
    var u := s + Contribution(x, !o) + Contribution(y, o);
    var v := s + Contribution(y, !o) + Contribution(x, o);
    assert u - v == if o then dy - dx else dx - dy;
    assert -10 < u - v < 10 && u - v != 0;
  }
}
