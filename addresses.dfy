/** The network-address recognisers `is_ipv4`, `is_ipv6`, `is_ip_address` and
    `is_mac_address`. Each pattern is `(G s){n-1} G` for a group class `G` that
    never holds the separator `s`, so each is `SeparatedBy` with its `G`. */
module Addresses {
  import opened Text

  // ---------------------------------------------------------------------
  // IPv4: `^((25[0-5]|2[0-4]\d|[01]?\d\d?)\.){3}(25[0-5]|2[0-4]\d|[01]?\d\d?)$`

  /** One group of the IPv4 pattern, alternative by alternative:
      `25[0-5]`, `2[0-4]\d`, and `[01]?\d\d?`. */
  predicate Octet(g: string)
  {
    (|g| == 3 && g[0] == '2' && g[1] == '5' && '0' <= g[2] <= '5')
    || (|g| == 3 && g[0] == '2' && '0' <= g[1] <= '4' && IsDigit(g[2]))
    || LowOctet(g)
  }

  /** `[01]?\d\d?`: one digit, two digits, or three digits starting 0 or 1. */
  predicate LowOctet(g: string)
  {
    (|g| == 1 && IsDigit(g[0]))
    || (|g| == 2 && IsDigit(g[0]) && IsDigit(g[1]))
    || (|g| == 3 && (g[0] == '0' || g[0] == '1') && IsDigit(g[1]) && IsDigit(g[2]))
  }

  /** `is_ipv4` */
  predicate IsIpv4(s: string)
  {
    SeparatedBy(s, '.', 4, Octet)
  }

  /** A group of the IPv4 pattern is one to three digits whose value is at
      most 255; leading zeros are allowed. */
  lemma OctetIsByte(g: string)
    ensures Octet(g) <==> 1 <= |g| <= 3 && AllIn(g, IsDigit) && DecimalValue(g) <= 255
  {
    if 1 <= |g| <= 3 && AllIn(g, IsDigit) {
      var a := DigitValue(g[0]);
      assert DecimalValue(g[..0]) == 0;
      assert g[..1][..0] == g[..0];
      assert DecimalValue(g[..1]) == a;
      if |g| >= 2 {
        var b := DigitValue(g[1]);
        assert g[..2][..1] == g[..1];
        assert DecimalValue(g[..2]) == 10 * a + b;
        if |g| == 2 {
          assert g[..2] == g;
        } else {
          assert g[..3] == g;
          assert DecimalValue(g) == 100 * a + 10 * b + DigitValue(g[2]);
        }
      } else {
        assert g[..1] == g;
      }
    }
  }

  /** The IPv4 pattern accepts exactly four groups of one to three digits, each
      group's value at most 255. */
  lemma Ipv4ByValue(s: string)
    ensures IsIpv4(s) <==>
      var fs := Split(s, '.');
      |fs| == 4 && forall i :: 0 <= i < 4 ==>
        1 <= |fs[i]| <= 3 && AllIn(fs[i], IsDigit) && DecimalValue(fs[i]) <= 255
  {
    var fs := Split(s, '.');
    forall i | 0 <= i < |fs| {
      OctetIsByte(fs[i]);
    }
  }

  /** Four groups without dots, written with dots between them, are accepted
      exactly when every group is an IPv4 group. */
  lemma Ipv4Language(fs: seq<string>)
    requires |fs| == 4
    requires forall i :: 0 <= i < 4 ==> '.' !in fs[i]
    ensures IsIpv4(Join(fs, '.')) <==> forall i :: 0 <= i < 4 ==> Octet(fs[i])
  {
    SplitJoin(fs, '.');
  }

  predicate IsDigitOrDot(c: char) { IsDigit(c) || c == '.' }

  /** An accepted IPv4 address is 7 to 15 characters of digits and exactly
      three dots, and is its four groups written with dots between them. */
  lemma Ipv4Shape(s: string)
    requires IsIpv4(s)
    ensures 7 <= |s| <= 15 && AllIn(s, IsDigitOrDot) && multiset(s)['.'] == 3
    ensures s == Join(Split(s, '.'), '.')
  {
    var fs := Split(s, '.');
    JoinSplit(s, '.');
    SplitCount(s, '.');
    forall i | 0 <= i < 4 ensures 1 <= |fs[i]| <= 3 && AllIn(fs[i], IsDigitOrDot) {
      OctetIsByte(fs[i]);
    }
    JoinLength(fs, '.', 1, 3);
    JoinAllIn(fs, '.', IsDigitOrDot);
  }

  /** Four groups of the IPv4 pattern written with dots between them are accepted. */
  lemma Ipv4Groups(fs: seq<string>)
    requires |fs| == 4 && Octet(fs[0]) && Octet(fs[1]) && Octet(fs[2]) && Octet(fs[3])
    ensures IsIpv4(Join(fs, '.'))
  {
    forall i | 0 <= i < 4 ensures '.' !in fs[i] {
      OctetIsByte(fs[i]);
    }
    Ipv4Language(fs);
  }

  // The example lemmas below take their string as a parameter equal to the
  // literal (`requires s == "..."`) instead of naming the literal in their
  // conclusion: with a literal argument the solver unfolds the recursive
  // `Split` over it character by character and on some runs exceeds its budget.

  lemma Ipv4DottedQuad(s: string)
    requires s == "192.168.1.1"
    ensures IsIpv4(s)
  {
    var t1 := s[4..]; var t2 := t1[4..]; var t3 := t2[2..];
    SeparatedBySingle(t3, '.', Octet);
    SeparatedByCons(t2, 1, '.', 1, Octet);
    SeparatedByCons(t1, 3, '.', 2, Octet);
    SeparatedByCons(s, 3, '.', 3, Octet);
  }

  /** Leading zeros are accepted: `001` and `010` are groups of `[01]?\d\d?`. */
  lemma Ipv4LeadingZeros(s: string)
    requires s == "192.168.001.010"
    ensures IsIpv4(s)
  {
    var t1 := s[4..]; var t2 := t1[4..]; var t3 := t2[4..];
    SeparatedBySingle(t3, '.', Octet);
    SeparatedByCons(t2, 3, '.', 1, Octet);
    SeparatedByCons(t1, 3, '.', 2, Octet);
    SeparatedByCons(s, 3, '.', 3, Octet);
  }

  lemma Ipv4GroupAbove255(s: string)
    requires s == "256.1.1.1"
    ensures !IsIpv4(s)
  {
    SplitAt(s, 3, '.');
    assert !Octet(Split(s, '.')[0]);
  }

  // ---------------------------------------------------------------------
  // IPv6: `^([0-9a-fA-F]{1,4}:){7}[0-9a-fA-F]{1,4}$`

  /** `[0-9a-fA-F]{1,4}` */
  predicate HexGroup(g: string)
  {
    1 <= |g| <= 4 && AllIn(g, IsHexDigit)
  }

  /** `is_ipv6`: the full form of section 2.2 of RFC 4291 only. */
  predicate IsIpv6(s: string)
  {
    SeparatedBy(s, ':', 8, HexGroup)
  }

  /** Eight groups without colons, written with colons between them, are
      accepted exactly when every group is one to four hex digits. */
  lemma Ipv6Language(fs: seq<string>)
    requires |fs| == 8
    requires forall i :: 0 <= i < 8 ==> ':' !in fs[i]
    ensures IsIpv6(Join(fs, ':')) <==> forall i :: 0 <= i < 8 ==> HexGroup(fs[i])
  {
    SplitJoin(fs, ':');
  }

  /** An accepted IPv6 address has 15 to 39 characters and exactly seven
      colons; it neither begins nor ends with a colon and never holds two in a
      row, so no compressed `::` form is accepted. */
  lemma Ipv6Shape(s: string)
    requires IsIpv6(s)
    ensures 15 <= |s| <= 39 && multiset(s)[':'] == 7
    ensures s[0] != ':' && s[|s| - 1] != ':'
    ensures forall i :: 0 <= i < |s| - 1 && s[i] == ':' ==> s[i + 1] != ':'
  {
    var fs := Split(s, ':');
    JoinSplit(s, ':');
    SplitCount(s, ':');
    JoinLength(fs, ':', 1, 4);
    JoinNoEmptyField(fs, ':');
  }

  // The 39-character full form is proved in two halves of four groups each,
  // which keeps each proof within the solver's budget.

  /** Four zero groups, the last of them ending in 1. */
  lemma Ipv6LowHalf(t: string)
    requires t == "0000:0000:0000:0001"
    ensures SeparatedBy(t, ':', 4, HexGroup)
  {
    var t1 := t[5..]; var t2 := t1[5..]; var t3 := t2[5..];
    SeparatedBySingle(t3, ':', HexGroup);
    SeparatedByCons(t2, 4, ':', 1, HexGroup);
    SeparatedByCons(t1, 4, ':', 2, HexGroup);
    SeparatedByCons(t, 4, ':', 3, HexGroup);
  }

  /** The four high groups of 2001:db8::1 in front of four accepted groups. */
  lemma Ipv6HighHalf(s: string, t: string)
    requires s == "2001:0db8:0000:0000:" + t
    requires SeparatedBy(t, ':', 4, HexGroup)
    ensures IsIpv6(s)
  {
    var t1 := s[5..]; var t2 := t1[5..]; var t3 := t2[5..];
    assert t3[5..] == t;
    SeparatedByCons(t3, 4, ':', 4, HexGroup);
    SeparatedByCons(t2, 4, ':', 5, HexGroup);
    SeparatedByCons(t1, 4, ':', 6, HexGroup);
    assert s[..4] == "2001";
    SeparatedByCons(s, 4, ':', 7, HexGroup);
  }

  /** The full form of 2001:db8::1, written in two halves. */
  lemma Ipv6FullForm(s: string)
    requires s == "2001:0db8:0000:0000:" + "0000:0000:0000:0001"
    ensures IsIpv6(s)
  {
    var low := "0000:0000:0000:0001";
    Ipv6LowHalf(low);
    Ipv6HighHalf(s, low);
  }

  /** Two colons in a row, as in the compressed `::` form, rule an address out. */
  lemma Ipv6DoubleColon(s: string, i: nat)
    requires i + 1 < |s| && s[i] == ':' && s[i + 1] == ':'
    ensures !IsIpv6(s)
  {
    if IsIpv6(s) {
      Ipv6Shape(s);
    }
  }

  lemma Ipv6CompressedForm(s: string)
    requires s == "2001:db8::1"
    ensures !IsIpv6(s)
  {
    Ipv6DoubleColon(s, 8);
  }

  // ---------------------------------------------------------------------
  // Either version

  /** An IPv4 address holds no colon, so it is never an IPv6 address. */
  lemma Ipv4IsNotIpv6(s: string)
    requires IsIpv4(s)
    ensures !IsIpv6(s)
  {
    Ipv4Shape(s);
    assert ':' !in s;
    SplitSingle(s, ':');
  }

  /** `is_ip_address`: either version; at most one of them ever applies. */
  function IsIpAddress(s: string): (r: bool)
    ensures r <==> IsIpv4(s) || IsIpv6(s)
    ensures !(IsIpv4(s) && IsIpv6(s))
  {
    if IsIpv4(s) then Ipv4IsNotIpv6(s); true else IsIpv6(s)
  }

  // ---------------------------------------------------------------------
  // MAC: `^([0-9A-Fa-f]{2}:){5}[0-9A-Fa-f]{2}$`

  /** `[0-9A-Fa-f]{2}` */
  predicate HexPair(g: string)
  {
    |g| == 2 && AllIn(g, IsHexDigit)
  }

  /** `is_mac_address`: six two-digit hex groups, colon-separated (EUI-48). */
  predicate IsMacAddress(s: string)
  {
    SeparatedBy(s, ':', 6, HexPair)
  }

  /** Read character by character: 17 characters, every third one a colon and
      all others hex digits. */
  lemma MacPositions(s: string)
    ensures IsMacAddress(s) <==>
      |s| == 17 && forall i :: 0 <= i < 17 ==> if i % 3 == 2 then s[i] == ':' else IsHexDigit(s[i])
  {
    if IsMacAddress(s) {
      var fs := Split(s, ':');
      JoinSplit(s, ':');
      JoinPairs(fs, ':');
    }
    if |s| == 17 && forall i :: 0 <= i < 17 ==> if i % 3 == 2 then s[i] == ':' else IsHexDigit(s[i]) {
      var fs := seq(6, k requires 0 <= k < 6 => s[3 * k .. 3 * k + 2]);
      forall k | 0 <= k < 6 ensures HexPair(fs[k]) && ':' !in fs[k] {
        assert fs[k][0] == s[3 * k] && fs[k][1] == s[3 * k + 1];
        assert (3 * k) % 3 == 0 && (3 * k + 1) % 3 == 1;
      }
      JoinPairs(fs, ':');
      forall i | 0 <= i < 17 ensures Join(fs, ':')[i] == s[i] {
        if i % 3 != 2 {
          assert fs[i / 3][i % 3] == s[3 * (i / 3) + i % 3];
        }
      }
      assert Join(fs, ':') == s;
      SplitJoin(fs, ':');
    }
  }

  lemma MacColonForm(s: string)
    requires s == "00:1A:2b:3C:4d:5E"
    ensures IsMacAddress(s)
  {
    MacPositions(s);
  }

  lemma MacHyphenForm(s: string)
    requires s == "00-1A-2b-3C-4d-5E"
    ensures !IsMacAddress(s)
  {
    MacPositions(s);
    assert s[2] != ':';
  }
}
