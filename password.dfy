/** `is_strong_password`. Its pattern states the rule with four look-aheads,
    which the Rust `regex` crate does not support, so the pattern never
    compiles. `IsStrongPasswordAsWritten` models the function as it stands;
    `IsStrongPassword` is the rule the pattern states. */
module Password {
  import opened Text

  /** The outcome of a call that either returns a value or aborts. */
  datatype Outcome<T> = Returns(value: T) | Panics(reason: string)

  /** The four look-ahead groups of the pattern: some lower-case letter, some
      upper-case letter, some digit, some character that is not a letter or a
      digit. */
  const LowerAhead: string := "(?=.*[a-z])"
  const UpperAhead: string := "(?=.*[A-Z])"
  const DigitAhead: string := "(?=.*\\d)"
  const SymbolAhead: string := "(?=.*[\\W_])"

  /** The pattern of `is_strong_password`: the anchor, the four look-aheads,
      and eight or more characters other than a line feed. */
  const PasswordPattern: string := "^" + LowerAhead + UpperAhead + DigitAhead + SymbolAhead + ".{8,}$"

  /** Whether a pattern holds a look-around group, which the `regex` crate
      refuses to compile. */
  predicate HasLookAround(pattern: string)
  {
    exists i :: 0 <= i < |pattern| && LookAroundAt(pattern, i)
  }

  /** A look-around group opens at index `i`: `(?=` or `(?!` (look-ahead), or
      `(?<=` or `(?<!` (look-behind). A named group `(?<name>` is not one. */
  predicate LookAroundAt(pattern: string, i: nat)
  {
    i + 3 <= |pattern| && pattern[i] == '(' && pattern[i + 1] == '?' &&
    (pattern[i + 2] == '=' || pattern[i + 2] == '!' ||
     (pattern[i + 2] == '<' && i + 4 <= |pattern| && (pattern[i + 3] == '=' || pattern[i + 3] == '!')))
  }

  predicate IsNotNewline(c: char) { c != '\n' }

  /** `[\W_]`, ASCII: anything but a letter or a digit. */
  predicate IsSymbol(c: char) { !IsWordChar(c) || c == '_' }

  /** Some character of `s` is in the class `p`. */
  predicate Has(s: string, p: char -> bool)
  {
    exists i :: 0 <= i < |s| && p(s[i])
  }

  /** The rule the pattern states: eight or more characters, none a line feed
      (`.` does not match one), among them a lower-case letter, an upper-case
      letter, a digit and a character that is not a letter or a digit. */
  predicate IsStrongPassword(s: string)
  {
    |s| >= 8 && AllIn(s, IsNotNewline) &&
    Has(s, IsLower) && Has(s, IsUpper) && Has(s, IsDigit) && Has(s, IsSymbol)
  }

  /** `is_strong_password` as written: `Regex::new(..).unwrap()` aborts when
      the pattern does not compile, before the input is looked at. */
  function IsStrongPasswordAsWritten(input: string): Outcome<bool>
  {
    if HasLookAround(PasswordPattern) then Panics("look-around is not supported")
    else Returns(IsStrongPassword(input))
  }

  /** Every call of `is_strong_password` aborts. */
  lemma AsWrittenAlwaysPanics(input: string)
    ensures IsStrongPasswordAsWritten(input).Panics?
  {
    var tail := UpperAhead + DigitAhead + SymbolAhead + ".{8,}$";
    assert PasswordPattern == "^" + (LowerAhead + tail);
    assert LookAroundAt(PasswordPattern, 1);
  }

  /** A password that meets the rule is not reported as strong as written. */
  lemma AsWrittenRejectsStrongPassword()
    ensures IsStrongPassword("Abcdef1!")
    ensures IsStrongPasswordAsWritten("Abcdef1!") != Returns(true)
  {
    AsWrittenAlwaysPanics("Abcdef1!");
    var s := "Abcdef1!";
    assert IsLower(s[1]) && IsUpper(s[0]) && IsDigit(s[6]) && IsSymbol(s[7]);
  }

  lemma AllLowerIsWeak()
    ensures !IsStrongPassword("abcdefgh")
  {
  }

  /** A strong password stays strong when anything without a line feed is
      appended to it. */
  lemma StrongPasswordExtends(s: string, t: string)
    requires IsStrongPassword(s) && AllIn(t, IsNotNewline)
    ensures IsStrongPassword(s + t)
  {
    var st := s + t;
    forall p: char -> bool | Has(s, p) ensures Has(st, p) {
      var i :| 0 <= i < |s| && p(s[i]);
      assert st[i] == s[i];
    }
    forall i | 0 <= i < |st| ensures IsNotNewline(st[i]) {
      if i >= |s| {
        assert st[i] == t[i - |s|];
      }
    }
  }

  /** The rule checked in one pass over the password, as it has to be written
      for a pattern engine without look-around: note each class as it is seen,
      and give up at a line feed. */
  method CheckStrongPassword(input: string) returns (ok: bool)
    ensures ok <==> IsStrongPassword(input)
  {
    var lower, upper, digit, symbol := false, false, false, false;
    for i := 0 to |input|
      invariant AllIn(input[..i], IsNotNewline)
      invariant lower <==> Has(input[..i], IsLower)
      invariant upper <==> Has(input[..i], IsUpper)
      invariant digit <==> Has(input[..i], IsDigit)
      invariant symbol <==> Has(input[..i], IsSymbol)
    {
      var c := input[i];
      if c == '\n' {
        assert !IsNotNewline(input[i]);
        return false;
      }
      HasSnoc(input[..i], c, IsLower);
      HasSnoc(input[..i], c, IsUpper);
      HasSnoc(input[..i], c, IsDigit);
      HasSnoc(input[..i], c, IsSymbol);
      assert input[..i + 1] == input[..i] + [c];
      lower := lower || IsLower(c);
      upper := upper || IsUpper(c);
      digit := digit || IsDigit(c);
      symbol := symbol || IsSymbol(c);
    }
    assert input[..|input|] == input;
    ok := |input| >= 8 && lower && upper && digit && symbol;
  }

  /** Appending one character adds exactly that character to what is present. */
  lemma HasSnoc(s: string, c: char, p: char -> bool)
    ensures Has(s + [c], p) <==> Has(s, p) || p(c)
  {
    var t := s + [c];
    if Has(s, p) {
      var i :| 0 <= i < |s| && p(s[i]);
      assert t[i] == s[i];
    }
    if p(c) {
      assert t[|s|] == c;
    }
    if Has(t, p) {
      var i :| 0 <= i < |t| && p(t[i]);
      if i < |s| {
        assert t[i] == s[i];
      }
    }
  }
}
