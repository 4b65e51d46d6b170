/** The text-format recognisers `is_email`, `is_url` and `is_phone_number`,
    each the language of one anchored pattern over ASCII character classes. */
module Formats {
  import opened Text

  // ---------------------------------------------------------------------
  // Email: `^[\w\.-]+@[\w\.-]+\.\w+$`

  /** `[\w\.-]` */
  predicate IsEmailChar(c: char) { IsWordChar(c) || c == '.' || c == '-' }

  /** `[\w\.-]+\.\w+`, the part after the `@`: since `\w` holds no dot, the
      final `\w+` run is the field after the last dot, and something must come
      before that dot. */
  predicate IsDomain(t: string)
  {
    var labels := Split(t, '.');
    var tld := labels[|labels| - 1];
    |labels| >= 2 && |tld| >= 1 && AllIn(tld, IsWordChar) &&
    |t| >= |tld| + 2 && AllIn(t, IsEmailChar)
  }

  /** `is_email`: no character class of the pattern holds `@`, so the address
      splits on `@` into exactly two parts. */
  predicate IsEmail(s: string)
  {
    var parts := Split(s, '@');
    |parts| == 2 && |parts[0]| >= 1 && AllIn(parts[0], IsEmailChar) && IsDomain(parts[1])
  }

  /** Every character of a piece of a string is a character of the string. */
  lemma AllInSlice(s: string, i: nat, j: nat, p: char -> bool)
    requires i <= j <= |s| && AllIn(s, p)
    ensures AllIn(s[i..j], p)
  {
    forall k | 0 <= k < j - i ensures p(s[i..j][k]) {
      assert s[i..j][k] == s[i + k];
    }
  }

  /** A host, `.` and a final label without dots form an accepted domain
      exactly when the host is a run of `[\w.-]` and the label a run of `\w`. */
  lemma DomainLanguage(h: string, w: string)
    requires '.' !in w
    ensures IsDomain(h + ['.'] + w) <==>
      |h| >= 1 && AllIn(h, IsEmailChar) && |w| >= 1 && AllIn(w, IsWordChar)
  {
    var t := h + ['.'] + w;
    SplitSnoc(h, w, '.');
    var labels := Split(t, '.');
    assert labels[|labels| - 1] == w;
    if AllIn(t, IsEmailChar) {
      AllInSlice(t, 0, |h|, IsEmailChar);
      assert t[0..|h|] == h;
    }
    if AllIn(h, IsEmailChar) && AllIn(w, IsWordChar) {
      forall k | 0 <= k < |t| ensures IsEmailChar(t[k]) {
        if k > |h| {
          assert t[k] == w[k - |h| - 1];
        }
      }
    }
  }

  /** A second `@` anywhere rules an address out. */
  lemma EmailStrayAt(l: string, h: string, w: string)
    requires '@' in l || '@' in h || '@' in w
    ensures !IsEmail(l + ['@'] + h + ['.'] + w)
    ensures !(AllIn(l, IsEmailChar) && AllIn(h, IsEmailChar) && AllIn(w, IsWordChar))
  {
    var s := l + ['@'] + h + ['.'] + w;
    assert multiset(s) == multiset(l) + multiset(['@']) + multiset(h) + multiset(['.']) + multiset(w);
    SplitCount(s, '@');
  }

  /** A local part, `@`, a host, `.` and a final label without dots form an
      accepted address exactly when the local part and the host are runs of
      `[\w.-]` and the final label is a run of `\w`. */
  lemma EmailLanguage(l: string, h: string, w: string)
    requires '.' !in w
    ensures IsEmail(l + ['@'] + h + ['.'] + w) <==>
      |l| >= 1 && AllIn(l, IsEmailChar) && |h| >= 1 && AllIn(h, IsEmailChar) &&
      |w| >= 1 && AllIn(w, IsWordChar)
  {
    if '@' in l || '@' in h || '@' in w {
      EmailStrayAt(l, h, w);
    } else {
      var t := h + ['.'] + w;
      assert l + ['@'] + h + ['.'] + w == l + ['@'] + t;
      assert '@' !in t;
      SplitSingle(t, '@');
      SplitCons(l, t, '@');
      DomainLanguage(h, w);
    }
  }

  /** An accepted address holds exactly one `@` and ends with a dot followed by
      one or more word characters. */
  lemma EmailShape(s: string)
    requires IsEmail(s)
    ensures multiset(s)['@'] == 1
    ensures exists k :: 1 <= k < |s| - 1 && s[k] == '.' && AllIn(s[k + 1..], IsWordChar)
  {
    SplitCount(s, '@');
    var parts := Split(s, '@');
    JoinSplit(s, '@');
    assert parts[1..] == [parts[1]];
    var t := parts[1];
    var pre := parts[0] + ['@'];
    assert s == pre + t;
    SplitLastIsSuffix(t, '.');
    var labels := Split(t, '.');
    var w := labels[|labels| - 1];
    var k := |s| - |w| - 1;
    assert k == |pre| + (|t| - |w| - 1);
    assert s[k] == t[|t| - |w| - 1];
    assert s[k + 1..] == t[|t| - |w|..];
  }

  // The email and URL example lemmas below take their string as a parameter equal to the
  // literal (`requires s == "..."`) instead of naming the literal in their
  // conclusion: with a literal argument the solver unfolds the recursive
  // `Split` over it character by character and on some runs exceeds its budget.

  lemma EmailAccepted(s: string)
    requires s == "user" + "@" + "example" + "." + "com"
    ensures IsEmail(s)
  {
    assert AllIn("user", IsEmailChar) && AllIn("example", IsEmailChar) && AllIn("com", IsWordChar);
    EmailLanguage("user", "example", "com");
  }

  lemma EmailDoubleAt(s: string)
    requires s == "user@@bad"
    ensures !IsEmail(s)
  {
    SplitAt(s, 4, '@');
    SplitAt(s[5..], 0, '@');
  }

  // ---------------------------------------------------------------------
  // URL: `^(http|https)://[^\s]+$`

  predicate IsNonSpace(c: char) { !IsSpace(c) }

  /** `[^\s]+` */
  predicate IsUrlRest(t: string) { |t| >= 1 && AllIn(t, IsNonSpace) }

  /** `is_url`: either scheme, `://`, and at least one non-space character. */
  predicate IsUrl(s: string)
  {
    ("http://" <= s && IsUrlRest(s[7..])) || ("https://" <= s && IsUrlRest(s[8..]))
  }

  /** After either scheme and `://`, exactly a non-empty run without
      white space is accepted. */
  lemma UrlLanguage(rest: string)
    ensures IsUrl("http://" + rest) <==> IsUrlRest(rest)
    ensures IsUrl("https://" + rest) <==> IsUrlRest(rest)
  {
    assert ("http://" + rest)[7..] == rest;
    assert ("https://" + rest)[8..] == rest;
    assert ("http://" + rest)[4] != 's';
    assert ("https://" + rest)[4] != ':';
  }

  /** An accepted URL starts with one of the two schemes, is at least eight
      characters long and holds no white space anywhere. */
  lemma UrlShape(s: string)
    requires IsUrl(s)
    ensures "http://" <= s || "https://" <= s
    ensures |s| >= 8 && AllIn(s, IsNonSpace)
  {
    var n := if "http://" <= s && IsUrlRest(s[7..]) then 7 else 8;
    forall i | 0 <= i < |s| ensures IsNonSpace(s[i]) {
      if i >= n {
        assert s[i] == s[n..][i - n];
      }
    }
  }

  lemma UrlAccepted(s: string)
    requires s == "https://" + "example.com"
    ensures IsUrl(s)
  {
    UrlLanguage("example.com");
    assert AllIn("example.com", IsNonSpace);
  }

  lemma UrlOtherScheme(s: string)
    requires s == "ftp://example.com"
    ensures !IsUrl(s)
  {
    assert s[0] != 'h';
  }

  lemma UrlEmptyRest(s: string)
    requires s == "http://"
    ensures !IsUrl(s)
  {
    UrlLanguage("");
    assert s == "http://" + "";
  }

  lemma UrlInnerSpace(s: string)
    requires s == "http://exa mple.com"
    ensures !IsUrl(s)
  {
    var rest := s[7..];
    assert s == "http://" + rest;
    UrlLanguage(rest);
    assert !IsNonSpace(rest[3]);
  }

  // ---------------------------------------------------------------------
  // Phone number: `^\+?\d[\d\s\-]{7,}$`

  /** `[\d\s\-]` */
  predicate IsPhoneChar(c: char) { IsDigit(c) || IsSpace(c) || c == '-' }

  /** `is_phone_number`: an optional `+`, a digit, and seven or more digits,
      white-space characters or hyphens. A `+` can only be taken by `\+?`,
      since neither `\d` nor `[\d\s\-]` holds it. */
  predicate IsPhoneNumber(s: string)
  {
    var body := if |s| > 0 && s[0] == '+' then s[1..] else s;
    |body| >= 8 && IsDigit(body[0]) && AllIn(body[1..], IsPhoneChar)
  }

  /** The leading `+` is optional: adding it to a number that lacks one never
      changes the verdict. */
  lemma PhoneOptionalPlus(t: string)
    requires t == [] || t[0] != '+'
    ensures IsPhoneNumber(['+'] + t) == IsPhoneNumber(t)
  {
    assert (['+'] + t)[1..] == t;
  }

  /** An accepted number holds a `+` at most at its start, and from its first
      character that is not `+` on it is eight or more characters: a digit, then
      digits, white space and hyphens only. */
  lemma PhoneShape(s: string)
    requires IsPhoneNumber(s)
    ensures forall i :: 1 <= i < |s| ==> s[i] != '+'
    ensures var start := if s[0] == '+' then 1 else 0;
      |s| - start >= 8 && IsDigit(s[start]) &&
      forall i :: start < i < |s| ==> IsPhoneChar(s[i])
  {
    var start := if s[0] == '+' then 1 else 0;
    var body := s[start..];
    forall i | start < i < |s| ensures IsPhoneChar(s[i]) {
      assert s[i] == body[1..][i - start - 1];
    }
  }

  /** With a `+` or no prefix, a first character and a rest form an accepted
      number exactly when the first is a digit and the rest is seven or more
      digits, white-space characters or hyphens. Without a prefix the first
      character is not `+`, since a leading `+` is the prefix. */
  lemma PhoneLanguage(p: string, d: char, r: string)
    requires p == "+" || (p == "" && d != '+')
    ensures IsPhoneNumber(p + [d] + r) <==> IsDigit(d) && |r| >= 7 && AllIn(r, IsPhoneChar)
  {
    var s := p + [d] + r;
    var body := [d] + r;
    if p == "+" {
      assert s == ['+'] + body;
      assert s[1..] == body;
    } else {
      assert s == body;
    }
    assert body[1..] == r;
  }

  lemma PhoneExamples()
    ensures IsPhoneNumber("+1 555-123-4567")
    ensures IsPhoneNumber("555-1234")
    ensures !IsPhoneNumber("12345")
    ensures !IsPhoneNumber("++12345678")
    ensures !IsPhoneNumber("-12345678")
  {
    assert "+1 555-123-4567"[1..] == "1 555-123-4567";
    assert "++12345678"[1..] == "+12345678";
  }
}
