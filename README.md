# Validators: a verified model of the input-validation predicates

This project models the validation library in `src/validators.rs`. The library
is a set of independent predicates that decide whether a string is an email
address, a URL, a phone number, a strong password, an IPv4, IPv6 or MAC
address, or a payment-card number. It also has a few value predicates. The
library has no state. Of the string checks modelled here, `is_email`,
`is_url`, `is_phone_number`, `is_ipv4`, `is_ipv6` and `is_mac_address` are
each one anchored regular expression, and `is_credit_card` is the Luhn
checksum. The others combine these: `is_ip_address` is the disjunction of
`is_ipv4` and `is_ipv6`, and `is_visa_card` and `is_master_card` each combine a
brand pattern with the Luhn check. `is_strong_password` is a pattern the `regex` crate
cannot compile. `is_empty` looks only at whether an optional value is
present.

Modules:

- `Text` (`text.dfy`) holds what every recogniser is built from:
  - the ASCII character classes;
  - `Split` and `Join` on a separator character, with their round trips;
  - `SeparatedBy(s, sep, n, G)`. This is the language `(G sep){n-1} G` of the
    address patterns, given that the class `G` never holds `sep`.
- `CreditCard` (`credit_card.dfy`) models `is_credit_card`.
  - `ValidCardNumber` is the rule.
  - `IsCreditCard` keeps the source's two loops and is proved to decide
    `ValidCardNumber`. The first loop collects the digits; the second adds
    them from the right with a flag that toggles the doubling.
  - Lemmas cover the rule itself:
    - it agrees with a positional reading (`PositionalSum`);
    - every payload has exactly one check digit;
    - any single changed digit is caught;
    - any swap of two adjacent different digits is caught, except 0 and 9;
    - separators are ignored.
- `CardBrands` (`card_brands.dfy`) models `is_visa_card` and `is_master_card`.
  Each is a pattern on the input as given, followed by the generic Luhn check.
- `Addresses` (`addresses.dfy`) models `is_ipv4`, `is_ipv6`, `is_ip_address`
  and `is_mac_address`.
- `Formats` (`formats.dfy`) models `is_email`, `is_url` and `is_phone_number`.
- `Values` (`values.dfy`) models `is_empty` over an option.
- `Password` (`password.dfy`) models `is_strong_password`: both the function as
  it stands (see Findings) and the rule its pattern states.

Each pattern is written as a predicate over ASCII character classes. The
predicate follows the pattern's alternatives, counts and anchors. A
characterisation lemma then states each accepted language in plain terms:

- a "language" lemma states an if-and-only-if over the pattern's parts;
- a "shape" lemma states what every accepted string looks like;
- concrete examples cover accepted and rejected inputs. Most take the string
  as a parameter equal to a literal, which keeps their proofs cheap.

Two consequences of the code as written:

- IPv4 groups with leading zeros (`001`, `010`) are accepted. The alternative
  `[01]?\d\d?` lets them through, which is looser than the `dec-octet` rule of
  section 3.2.2 of RFC 3986 (`Addresses.Ipv4LeadingZeros`).
- The pattern of `is_strong_password` states a rule that `"Abcdef1!"` meets,
  but as written the function cannot return (see Findings).

## Model

| member | source | states |
|---|---|---|
| CreditCard.Digits | src/validators.rs:183-190 | the digits the first loop of `is_credit_card` collects: the values of the ASCII decimal digits of the input, in order, never more of them than there are characters |
| CreditCard.Contribution | src/validators.rs:200-208 | what one digit adds to the sum in `is_credit_card`: itself, or twice itself with 9 taken off a result above 9 when the flag is set |
| CreditCard.LuhnFold | src/validators.rs:196-212 | the sum the second loop of `is_credit_card` accumulates from the right, with the doubling flag flipping at every digit |
| CreditCard.LuhnSum | src/validators.rs:196-212 | the Luhn sum of `is_credit_card`: the right-to-left sum with the rightmost digit not doubled |
| CreditCard.ValidCardNumber | src/validators.rs:182-215 | what `is_credit_card` accepts: at least 13 digits and a Luhn sum that is a multiple of 10 |
| CardBrands.VisaPattern | src/validators.rs:219 | the pattern of `is_visa_card`: a 4, twelve digits, and optionally three more |
| CardBrands.MasterPattern | src/validators.rs:231 | the pattern of `is_master_card`: a 5, a digit from 1 to 5, and fourteen digits |
| Addresses.Octet | src/validators.rs:157 | one group of the `is_ipv4` pattern, by its three alternatives |
| Addresses.IsIpv4 | src/validators.rs:155-162 | `is_ipv4`: four groups of its pattern separated by dots |
| Addresses.IsIpv6 | src/validators.rs:166-171 | `is_ipv6`: eight groups of one to four hex digits separated by colons |
| Addresses.IsMacAddress | src/validators.rs:174-179 | `is_mac_address`: six groups of two hex digits separated by colons |
| Formats.IsEmail | src/validators.rs:7-20 | `is_email`: a non-empty local part of word characters, dots and hyphens, one `@`, and a domain accepted by `IsDomain` |
| Formats.IsUrl | src/validators.rs:23-32 | `is_url`: `http://` or `https://` followed by one or more characters that are not white space |
| Formats.IsPhoneNumber | src/validators.rs:35-40 | `is_phone_number`: an optional `+`, a digit, and seven or more digits, white-space characters or hyphens |
| Formats.PhoneLanguage | src/validators.rs:35-40 | after a `+`, or without a prefix for a first character other than `+`, a first character and a rest are accepted exactly when the first is a digit and the rest is seven or more digits, white-space characters or hyphens |
| Values.IsEmpty | src/validators.rs:58-65 | `is_empty`: true exactly when no value is present |
| Password.IsStrongPasswordAsWritten | src/validators.rs:43-55 | `is_strong_password` as written: it aborts when its pattern holds a look-around group, and otherwise returns whether the input meets the rule |
| Password.IsStrongPassword | src/validators.rs:45-46 | the rule the pattern of `is_strong_password` states: eight or more characters other than line feeds, with a lower-case letter, an upper-case letter, a digit and a character that is not a letter or digit |
| CreditCard.IsCreditCard | src/validators.rs:182-215 | the result is true exactly when the input holds at least 13 ASCII digits and their Luhn sum is a multiple of 10; fewer than 13 digits always give false |
| CreditCard.DigitsAppend | src/validators.rs:185-190 | the digit extraction of a concatenation is the concatenation of the extractions |
| CreditCard.DigitsOfNumeral | src/validators.rs:186-189 | a string of digits only yields one value per character, each the value of that character |
| CreditCard.DigitsOfDigitString | src/validators.rs:186-189 | extracting the digits of a written numeral gives back the digit values it was written from |
| CreditCard.NonDigitsIgnored | src/validators.rs:186-190 | inserting characters that are not digits anywhere never changes the verdict |
| CreditCard.ShortInputRejected | src/validators.rs:192-194 | an input shorter than 13 characters is never accepted |
| CreditCard.ContributionInjective | src/validators.rs:200-208 | doubling with 9 taken off maps distinct digits to distinct values |
| CreditCard.LuhnFoldAppend | src/validators.rs:196-212 | the right-to-left sum over a concatenation is the sum over the right part, plus the sum over the left part with the flag flipped once per digit of the right part |
| CreditCard.LuhnSumIsPositional | src/validators.rs:196-212 | the toggling right-to-left sum equals the reference sum in which a digit is doubled exactly when its distance from the rightmost digit is odd |
| CreditCard.CheckDigitUnique | src/validators.rs:214 | exactly one last digit, `CheckDigit`, makes the Luhn sum of a payload plus that digit a multiple of 10 |
| CreditCard.CompletedNumber | src/validators.rs:182-215 | 12 or more digits written out with their check digit are accepted, and with any other last digit they are rejected |
| CreditCard.SingleDigitErrorDetected | src/validators.rs:182-215 | changing any one digit of an accepted input makes it rejected |
| CreditCard.TranspositionDetected | src/validators.rs:182-215 | swapping two adjacent different digits of an accepted input makes it rejected, except for the pair 0 and 9 |
| CardBrands.VisaPatternShape | src/validators.rs:219 | the Visa pattern accepts exactly 13 or 16 ASCII digits whose first is 4 |
| CardBrands.MasterPatternShape | src/validators.rs:231 | the MasterCard pattern accepts exactly 16 ASCII digits starting 51 to 55 |
| CardBrands.BrandNumberIsLongEnough | src/validators.rs:219-222 | a string that matches a brand pattern has at least 13 digits, so the generic check reduces to its Luhn sum |
| CardBrands.IsVisaCard | src/validators.rs:218-227 | true exactly when the input as given matches the Visa pattern and passes the generic check; every accepted input is 13 or 16 digits starting with 4 |
| CardBrands.IsMasterCard | src/validators.rs:230-239 | true exactly when the input as given matches the MasterCard pattern and passes the generic check; every accepted input is 16 digits starting 51 to 55 |
| CardBrands.BrandsDisjoint | src/validators.rs:219-231 | no input matches both brand patterns |
| CardBrands.VisaTestNumber | src/validators.rs:218-227 | 4111111111111111 matches the Visa pattern and passes the Luhn check |
| CardBrands.MasterTestNumber | src/validators.rs:230-239 | 5105105105105100 matches the MasterCard pattern and passes the Luhn check |
| CardBrands.GroupedNumber | src/validators.rs:182-227 | writing a number in space-separated groups keeps its generic verdict, but with a first group of four it no longer matches the Visa pattern |
| CardBrands.GroupedTestNumber | src/validators.rs:182-227 | "4111 1111 1111 1111" passes the generic check but does not match the Visa pattern |
| Addresses.OctetIsByte | src/validators.rs:157 | an IPv4 group is exactly one to three digits with a value of at most 255; leading zeros are allowed |
| Addresses.Ipv4ByValue | src/validators.rs:155-162 | accepted exactly when the split on dots has four fields, each one to three digits with a value of at most 255 |
| Addresses.Ipv4Language | src/validators.rs:155-162 | four groups without dots, joined with dots, are accepted exactly when each is an IPv4 group |
| Addresses.Ipv4Shape | src/validators.rs:155-162 | an accepted IPv4 address is 7 to 15 characters, digits and exactly three dots, and is its groups joined by dots |
| Addresses.Ipv4Groups | src/validators.rs:155-162 | any four IPv4 groups joined by dots are accepted |
| Addresses.Ipv4DottedQuad | src/validators.rs:155-162 | "192.168.1.1" is accepted |
| Addresses.Ipv4LeadingZeros | src/validators.rs:155-162 | "192.168.001.010" is accepted |
| Addresses.Ipv4GroupAbove255 | src/validators.rs:155-162 | "256.1.1.1" is rejected |
| Addresses.Ipv6Language | src/validators.rs:166-171 | eight groups without colons, joined with colons, are accepted exactly when each is one to four hex digits |
| Addresses.Ipv6Shape | src/validators.rs:166-171 | an accepted IPv6 address is 15 to 39 characters with exactly seven colons; it neither begins nor ends with a colon and never has two in a row |
| Addresses.Ipv6DoubleColon | src/validators.rs:166-171 | any string with two colons in a row, as in the compressed form, is rejected |
| Addresses.Ipv6FullForm | src/validators.rs:166-171 | "2001:0db8:0000:0000:0000:0000:0000:0001" is accepted |
| Addresses.Ipv6CompressedForm | src/validators.rs:166-171 | "2001:db8::1" is rejected |
| Addresses.Ipv4IsNotIpv6 | src/validators.rs:155-171 | no string is accepted as both IPv4 and IPv6 |
| Addresses.IsIpAddress | src/validators.rs:146-152 | true exactly when the input is an IPv4 or an IPv6 address; the two never both hold |
| Addresses.MacPositions | src/validators.rs:174-179 | accepted exactly when the input is 17 characters, every third one a colon and all others hex digits |
| Addresses.MacColonForm | src/validators.rs:174-179 | "00:1A:2b:3C:4d:5E" is accepted |
| Addresses.MacHyphenForm | src/validators.rs:174-179 | "00-1A-2b-3C-4d-5E" is rejected |
| Formats.DomainLanguage | src/validators.rs:9 | a host, a dot and a final label without dots form an accepted domain exactly when the host is a non-empty run of word characters, dots and hyphens and the label is a non-empty run of word characters |
| Formats.EmailLanguage | src/validators.rs:7-20 | local part, `@`, host, `.` and a final label without dots are accepted exactly when the local part and host are non-empty runs of word characters, dots and hyphens and the label is a non-empty run of word characters |
| Formats.EmailStrayAt | src/validators.rs:9 | a second `@` in any part rules the address out |
| Formats.EmailShape | src/validators.rs:7-20 | an accepted address has exactly one `@` and ends in a dot followed by word characters only |
| Formats.EmailAccepted | src/validators.rs:7-20 | "user@example.com" is accepted |
| Formats.EmailDoubleAt | src/validators.rs:7-20 | "user@@bad" is rejected |
| Formats.UrlLanguage | src/validators.rs:23-32 | after `http://` or `https://`, exactly a non-empty run without white space is accepted |
| Formats.UrlShape | src/validators.rs:23-32 | an accepted URL starts with one of the two schemes, has at least eight characters and holds no white space |
| Formats.UrlAccepted | src/validators.rs:23-32 | "https://example.com" is accepted |
| Formats.UrlOtherScheme | src/validators.rs:23-32 | "ftp://example.com" is rejected |
| Formats.UrlEmptyRest | src/validators.rs:23-32 | "http://" with nothing after it is rejected |
| Formats.UrlInnerSpace | src/validators.rs:23-32 | a URL with a space inside is rejected |
| Formats.PhoneOptionalPlus | src/validators.rs:35-40 | a leading `+` never changes the verdict on a number that lacks one |
| Formats.PhoneShape | src/validators.rs:35-40 | an accepted number has a `+` at most at its start; after it come at least eight characters, the first a digit and the rest digits, white space or hyphens |
| Formats.PhoneExamples | src/validators.rs:35-40 | "+1 555-123-4567" and "555-1234" are accepted; "12345", "++12345678" and "-12345678" are rejected |
| Values.OnlyAbsenceIsEmpty | src/validators.rs:58-65 | a value is empty exactly when it is absent; no present value, whatever it holds, is empty |
| Values.PresentEmptyStringIsNotEmpty | src/validators.rs:58-65 | a present empty string is not empty, and an absent string is |
| Password.AsWrittenAlwaysPanics | src/validators.rs:43-48 | every call aborts, because the pattern holds a look-ahead group that the pattern engine refuses to compile |
| Password.AsWrittenRejectsStrongPassword | src/validators.rs:43-55 | "Abcdef1!" meets the intended rule, yet the function as written does not return true for it |
| Password.CheckStrongPassword | src/validators.rs:45-46 | one pass over the input decides the intended rule: eight or more characters, no line feed, and at least one lower-case letter, upper-case letter, digit and character that is not a letter or digit |
| Password.AllLowerIsWeak | src/validators.rs:45-46 | "abcdefgh" does not meet the intended rule |
| Password.StrongPasswordExtends | src/validators.rs:45-46 | appending characters other than line feeds to a strong password keeps it strong |

## Left out

- `is_json` is not modelled. It delegates to the JSON parser of the `serde_json` crate, which is not part of this model.
- `is_number`, `is_string`, `is_boolean` and `is_date` are not modelled. They inspect the run-time type of a `dyn Any` value, which has no counterpart in this model.
- `is_array`, `is_object` and `is_function` are not modelled. They return a constant for every input.
- The regular-expression engine is not modelled. Each pattern is written directly as a predicate, and compiling the pattern on every call is left out.
- Text.IsDigit, Text.IsWordChar, Text.IsSpace: the classes `\d`, `\w` and `\s` are ASCII only. The source's pattern engine reads them as Unicode classes, so the model and the source differ on some non-ASCII inputs. For example, a non-ASCII letter is a word character in the source but not in the model. `char::is_digit(10)` in the Luhn extraction is ASCII in the source as well.
- CardBrands.IsVisaCard: the brand pattern is read with ASCII `\d`. In the source `\d` is Unicode, so a non-ASCII digit can match the pattern and is then dropped by the Luhn extraction; the model rejects such inputs.
- CardBrands.IsMasterCard: the same as for `IsVisaCard`. For example, `51` followed by 13 ASCII digits and one non-ASCII digit can be accepted by the source and is rejected by the model.
- CreditCard.IsCreditCard: the running sum is an unbounded integer. The source uses `u32`, which would overflow only on inputs of more than about 477 million digits.
- Password.IsStrongPasswordAsWritten: the abort is modelled as an `Outcome` value, not as a process panic.

## Findings

| source | as written | input that shows it | evidently intended | confidence | as-written member | corrected member |
|---|---|---|---|---|---|---|
| src/validators.rs:45-48 | the pattern uses four look-ahead groups `(?=...)`; the `regex` crate does not support look-around, so `Regex::new(..).unwrap()` aborts on every call before the input is examined | "Abcdef1!" (any input) | true exactly when the input has eight or more characters other than line feeds, with at least one lower-case letter, one upper-case letter, one digit and one character that is not a letter or digit | high; not executed | Password.AsWrittenAlwaysPanics | Password.CheckStrongPassword |
