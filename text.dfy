/** ASCII character classes and the split/join operations on strings from which
    the recognisers of the validator library are built.

    Every address pattern of the library is anchored at both ends and has the
    shape `(G s){n-1} G`: `n` groups of a fixed class `G` separated by one
    separator character `s`. Such a language is exactly the
    set of strings whose split on `s` has `n` fields, each in `G`
    (`SeparatedBy`), provided that `G` never contains `s`. */
module Text {

  /** `\d` of the patterns, and `char::is_digit(10)`: ASCII decimal digits. */
  predicate IsDigit(c: char) { '0' <= c <= '9' }

  /** `[0-9a-fA-F]` */
  predicate IsHexDigit(c: char) { IsDigit(c) || 'a' <= c <= 'f' || 'A' <= c <= 'F' }

  predicate IsLower(c: char) { 'a' <= c <= 'z' }

  predicate IsUpper(c: char) { 'A' <= c <= 'Z' }

  /** `\w`, ASCII: letters, digits and underscore. */
  predicate IsWordChar(c: char) { IsLower(c) || IsUpper(c) || IsDigit(c) || c == '_' }

  /** `\s`, ASCII: space, tab, line feed, vertical tab, form feed, carriage return. */
  predicate IsSpace(c: char) { c == ' ' || '\t' <= c <= '\r' }

  /** Every character of `s` is in the class `p`. */
  predicate AllIn(s: string, p: char -> bool)
  {
    forall i :: 0 <= i < |s| ==> p(s[i])
  }

  /** The value of one ASCII decimal digit, as `char::to_digit(10)` gives it. */
  function DigitValue(c: char): (d: nat)
    requires IsDigit(c)
    ensures d <= 9
  {
    c as int - '0' as int
  }

  /** The decimal number a run of digits spells, most significant first; 0 for
      the empty run. */
  function DecimalValue(s: string): nat
    requires AllIn(s, IsDigit)
  {
    if s == [] then 0 else 10 * DecimalValue(s[..|s| - 1]) + DigitValue(s[|s| - 1])
  }

  /** The fields of `s` between occurrences of `sep`, like Rust's `str::split`:
      the empty string gives one empty field, and two adjacent separators give
      an empty field between them. */
  function Split(s: string, sep: char): (fs: seq<string>)
    ensures |fs| >= 1
    ensures forall i :: 0 <= i < |fs| ==> sep !in fs[i]
  {
    if s == [] then [[]]
    else
      var rest := Split(s[1..], sep);
      if s[0] == sep then [[]] + rest
      else [[s[0]] + rest[0]] + rest[1..]
  }

  /** The fields `fs` written out with `sep` between consecutive ones. */
  function Join(fs: seq<string>, sep: char): string
    requires |fs| >= 1
  {
    if |fs| == 1 then fs[0] else fs[0] + [sep] + Join(fs[1..], sep)
  }

  /** The language `(G sep){n-1} G` for a group class `G` without `sep`. */
  predicate SeparatedBy(s: string, sep: char, n: nat, group: string -> bool)
  {
    var fs := Split(s, sep);
    |fs| == n && forall i :: 0 <= i < n ==> group(fs[i])
  }

  /** Joining the fields of a split gives the string back. */
  lemma {:induction false} JoinSplit(s: string, sep: char)
    ensures Join(Split(s, sep), sep) == s
  {
    if s != [] {
      JoinSplit(s[1..], sep);
      var rest := Split(s[1..], sep);
      if s[0] == sep {
        assert Join([[]] + rest, sep) == [sep] + Join(rest, sep);
      } else if |rest| == 1 {
        assert [s[0]] + rest[0] == s;
      } else {
        assert ([[s[0]] + rest[0]] + rest[1..])[1..] == rest[1..];
        assert Join(rest, sep) == rest[0] + [sep] + Join(rest[1..], sep);
      }
    }
  }

  /** A field without `sep` followed by `sep` is split off as the first field. */
  lemma {:induction false} SplitCons(a: string, t: string, sep: char)
    requires sep !in a
    ensures Split(a + [sep] + t, sep) == [a] + Split(t, sep)
  {
    if a == [] {
      assert ([sep] + t)[1..] == t;
    } else {
      assert (a + [sep] + t)[1..] == a[1..] + [sep] + t;
      SplitCons(a[1..], t, sep);
      assert [a[0]] + a[1..] == a;
    }
  }

  /** A string whose first separator is at index `k` splits into its first `k`
      characters and the split of what follows the separator. */
  lemma SplitAt(s: string, k: nat, sep: char)
    requires k < |s| && s[k] == sep && sep !in s[..k]
    ensures Split(s, sep) == [s[..k]] + Split(s[k + 1..], sep)
  {
    assert s == s[..k] + [sep] + s[k + 1..];
    SplitCons(s[..k], s[k + 1..], sep);
  }

  /** A group and a separator in front of `n` separated groups make `n + 1`. */
  lemma SeparatedByCons(s: string, k: nat, sep: char, n: nat, group: string -> bool)
    requires k < |s| && s[k] == sep && sep !in s[..k] && group(s[..k])
    requires SeparatedBy(s[k + 1..], sep, n, group)
    ensures SeparatedBy(s, sep, n + 1, group)
  {
    SplitAt(s, k, sep);
    var fs := Split(s, sep);
    forall i | 0 <= i < n + 1 ensures group(fs[i]) {
      if i > 0 {
        assert fs[i] == Split(s[k + 1..], sep)[i - 1];
      }
    }
  }

  /** A string without `sep` in the group class is one group. */
  lemma SeparatedBySingle(s: string, sep: char, group: string -> bool)
    requires sep !in s && group(s)
    ensures SeparatedBy(s, sep, 1, group)
  {
    SplitSingle(s, sep);
  }

  /** A string without `sep` is a single field. */
  lemma {:induction false} SplitSingle(a: string, sep: char)
    requires sep !in a
    ensures Split(a, sep) == [a]
  {
    if a != [] {
      SplitSingle(a[1..], sep);
      assert [a[0]] + a[1..] == a;
    }
  }

  /** Splitting joined fields that do not contain `sep` gives the fields back. */
  lemma {:induction false} SplitJoin(fs: seq<string>, sep: char)
    requires |fs| >= 1
    requires forall i :: 0 <= i < |fs| ==> sep !in fs[i]
    ensures Split(Join(fs, sep), sep) == fs
  {
    if |fs| == 1 {
      SplitSingle(fs[0], sep);
    } else {
      SplitJoin(fs[1..], sep);
      SplitCons(fs[0], Join(fs[1..], sep), sep);
      assert [fs[0]] + fs[1..] == fs;
    }
  }

  /** A split has one field more than there are separators. */
  lemma {:induction false} SplitCount(s: string, sep: char)
    ensures |Split(s, sep)| == multiset(s)[sep] + 1
  {
    if s != [] {
      SplitCount(s[1..], sep);
      assert s == [s[0]] + s[1..];
      assert multiset(s) == multiset([s[0]]) + multiset(s[1..]);
    }
  }

  /** A last field without `sep` is split off as the last field. */
  lemma {:induction false} SplitSnoc(h: string, w: string, sep: char)
    requires sep !in w
    ensures Split(h + [sep] + w, sep) == Split(h, sep) + [w]
  {
    if h == [] {
      SplitSingle(w, sep);
      assert ([sep] + w)[1..] == w;
    } else {
      assert (h + [sep] + w)[1..] == h[1..] + [sep] + w;
      SplitSnoc(h[1..], w, sep);
    }
  }

  /** The last field of a split is the suffix after the last separator. */
  lemma {:induction false} SplitLastIsSuffix(t: string, sep: char)
    ensures var fs := Split(t, sep); var w := fs[|fs| - 1];
      |w| <= |t| && t[|t| - |w|..] == w &&
      (|fs| >= 2 ==> |w| < |t| && t[|t| - |w| - 1] == sep)
  {
    if t != [] {
      var r := t[1..];
      SplitLastIsSuffix(r, sep);
      var rest := Split(r, sep);
      if |rest| == 1 {
        JoinSplit(r, sep);
        assert [t[0]] + r == t;
      }
    }
  }

  /** Every character of joined fields is the separator or a character of a field. */
  lemma {:induction false} JoinAllIn(fs: seq<string>, sep: char, p: char -> bool)
    requires |fs| >= 1
    requires p(sep)
    requires forall i :: 0 <= i < |fs| ==> AllIn(fs[i], p)
    ensures AllIn(Join(fs, sep), p)
  {
    if |fs| > 1 {
      JoinAllIn(fs[1..], sep, p);
      var j := Join(fs, sep);
      assert j == fs[0] + [sep] + Join(fs[1..], sep);
      forall i | 0 <= i < |j| ensures p(j[i]) {
        if i > |fs[0]| {
          assert j[i] == Join(fs[1..], sep)[i - |fs[0]| - 1];
        }
      }
    }
  }

  /** The length of `n` joined fields, each of length between `lo` and `hi`. */
  lemma {:induction false} JoinLength(fs: seq<string>, sep: char, lo: nat, hi: nat)
    requires |fs| >= 1
    requires forall i :: 0 <= i < |fs| ==> lo <= |fs[i]| <= hi
    ensures |fs| * (lo + 1) - 1 <= |Join(fs, sep)| <= |fs| * (hi + 1) - 1
  {
    if |fs| > 1 {
      JoinLength(fs[1..], sep, lo, hi);
      assert |fs| * (lo + 1) == (|fs| - 1) * (lo + 1) + lo + 1;
      assert |fs| * (hi + 1) == (|fs| - 1) * (hi + 1) + hi + 1;
    }
  }

  /** Joined non-empty fields without `sep` neither begin nor end with `sep` and
      never hold two separators in a row. */
  lemma {:induction false} JoinNoEmptyField(fs: seq<string>, sep: char)
    requires |fs| >= 1
    requires forall i :: 0 <= i < |fs| ==> fs[i] != [] && sep !in fs[i]
    ensures var j := Join(fs, sep);
      j != [] && j[0] != sep && j[|j| - 1] != sep &&
      forall i :: 0 <= i < |j| - 1 && j[i] == sep ==> j[i + 1] != sep
  {
    if |fs| > 1 {
      JoinNoEmptyField(fs[1..], sep);
      var rest := Join(fs[1..], sep);
      var j := Join(fs, sep);
      assert j == fs[0] + [sep] + rest;
      assert fs[0][0] != sep;
      forall i | 0 <= i < |j| - 1 && j[i] == sep ensures j[i + 1] != sep {
        if i == |fs[0]| {
          assert j[i + 1] == rest[0];
        } else if i > |fs[0]| {
          assert j[i] == rest[i - |fs[0]| - 1];
          assert j[i + 1] == rest[i - |fs[0]|];
        }
      }
    }
  }

  /** Joined fields of width two: every third character is the separator and the
      others are the fields' characters, two by two. */
  lemma {:induction false} JoinPairs(fs: seq<string>, sep: char)
    requires |fs| >= 1
    requires forall k :: 0 <= k < |fs| ==> |fs[k]| == 2
    ensures |Join(fs, sep)| == 3 * |fs| - 1
    ensures forall i :: 0 <= i < |Join(fs, sep)| ==>
      Join(fs, sep)[i] == if i % 3 == 2 then sep else fs[i / 3][i % 3]
  {
    if |fs| > 1 {
      JoinPairs(fs[1..], sep);
      var rest := Join(fs[1..], sep);
      var j := Join(fs, sep);
      assert j == fs[0] + [sep] + rest;
      forall i | 0 <= i < |j|
        ensures j[i] == if i % 3 == 2 then sep else fs[i / 3][i % 3]
      {
        if i >= 3 {
          assert j[i] == rest[i - 3];
          assert (i - 3) % 3 == i % 3 && (i - 3) / 3 == i / 3 - 1;
        }
      }
    }
  }
}
