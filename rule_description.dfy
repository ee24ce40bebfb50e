/**
 * The sentence printRuleDescriptionHtml (wolfram_ca.php:18-32) writes under
 * the image, for instance for rule 110:
 *
 *   Rule 110 maps 000&nbsp;to&nbsp;0, 001&nbsp;to&nbsp;1, ..., and 111&nbsp;to&nbsp;0.
 *
 * The echoed text is modelled as a string that each echo appends to.
 */
module RuleDescription {
  import opened RuleCode

  /** The character of a decimal digit. */
  function Digit(d: nat): (ch: char)
    requires d < 10
    ensures '0' <= ch <= '9'
    ensures ch as int - '0' as int == d
  {
    ('0' as int + d) as char
  }

  /** The value of a decimal digit character. */
  function DigitValue(ch: char): (d: nat)
    requires '0' <= ch <= '9'
    ensures d < 10
  {
    ch as int - '0' as int
  }

  predicate AllDigits(s: string)
  {
    forall i | 0 <= i < |s| :: '0' <= s[i] <= '9'
  }

  /** A natural number in base 2 or 10, most significant digit first, with no leading zeros (`decbin` for base 2). */
  function NatToString(n: nat, base: nat): (s: string)
    requires 2 <= base <= 10
    ensures |s| >= 1 && AllDigits(s)
    decreases n
  {
    if n < base then [Digit(n)]
    else
      DivisionShrinks(n, base);
      NatToString(n / base, base) + [Digit(n % base)]
  }

  lemma DivisionShrinks(n: nat, base: nat)
    requires 2 <= base <= n
    ensures n / base < n
  {
    var q := n / base;
    DivisionSplits(n, base);
    assert base * q == 2 * q + (base - 2) * q;
    MulNonNegative(base - 2, q);
  }

  /** No leading zeros: the rendering starts with '0' only for the number 0, which is written "0". */
  lemma {:induction false} NoLeadingZero(n: nat, base: nat)
    requires 2 <= base <= 10
    ensures NatToString(n, base)[0] == '0' <==> n == 0
    ensures n == 0 ==> NatToString(n, base) == "0"
    decreases n
  {
    if n >= base {
      var q := n / base;
      DivisionShrinks(n, base);
      DivisionSplits(n, base);
      assert q != 0;
      NoLeadingZero(q, base);
      assert NatToString(n, base)[0] == NatToString(q, base)[0];
    }
  }

  lemma DivisionSplits(n: nat, base: nat)
    requires base >= 1
    ensures n == base * (n / base) + n % base
  {
  }

  /** The number a string of digits spells in the given base. */
  function ParseNat(s: string, base: nat): nat
    requires AllDigits(s)
  {
    if s == [] then 0 else base * ParseNat(s[..|s| - 1], base) + DigitValue(s[|s| - 1])
  }

  /** Parsing a formatted number gives the number back. */
  lemma {:induction false} NatRoundTrip(n: nat, base: nat)
    requires 2 <= base <= 10
    ensures ParseNat(NatToString(n, base), base) == n
    decreases n
  {
    var s := NatToString(n, base);
    if n >= base {
      var q, r := n / base, n % base;
      DivisionShrinks(n, base);
      NatRoundTrip(q, base);
      assert s[..|s| - 1] == NatToString(q, base);
      assert DigitValue(s[|s| - 1]) == r;
      assert ParseNat(s, base) == base * q + r;
      DivisionSplits(n, base);
    }
  }

  /** PHP's decimal rendering of an integer, as in `"Rule $rule maps "`: a minus sign before negative numbers. */
  function IntToString(i: int): (s: string)
    ensures |s| >= 1
  {
    if i < 0 then "-" + NatToString(-i, 10) else NatToString(i, 10)
  }

  /** The integer a decimal rendering spells. */
  function ParseInt(s: string): int
  {
    if |s| >= 1 && s[0] == '-' && AllDigits(s[1..]) then 0 - ParseNat(s[1..], 10)
    else if AllDigits(s) then ParseNat(s, 10)
    else 0
  }

  /** Parsing the decimal rendering of an integer gives the integer back. */
  lemma IntRoundTrip(i: int)
    ensures ParseInt(IntToString(i)) == i
  {
    if i < 0 {
      NatRoundTrip(-i, 10);
      assert IntToString(i)[1..] == NatToString(-i, 10);
    } else {
      NatRoundTrip(i, 10);
    }
  }

  /** `str_pad($s, $width, $pad, STR_PAD_LEFT)`: the pad character is put in front up to the width; a longer string is left alone. */
  function PadLeft(s: string, width: nat, pad: char): (r: string)
    ensures |r| == if |s| >= width then |s| else width
    ensures forall i | 0 <= i < |r| - |s| :: r[i] == pad
    ensures forall i | 0 <= i < |s| :: r[|r| - |s| + i] == s[i]
  {
    if |s| >= width then s else seq(width - |s|, _ => pad) + s
  }

  /** The neighbourhood n as three binary digits, `str_pad(decbin($neighborhood), 3, '0', STR_PAD_LEFT)`. */
  function NeighbourhoodString(n: nat): string
    requires n < 8
  {
    PadLeft(NatToString(n, 2), 3, '0')
  }

  /** `decbin` of the numbers below 8. */
  lemma SmallBinary(n: nat)
    requires n < 8
    ensures n < 2 ==> NatToString(n, 2) == [Digit(n)]
    ensures 2 <= n < 4 ==> NatToString(n, 2) == [Digit(n / 2), Digit(n % 2)]
    ensures 4 <= n ==> NatToString(n, 2) == [Digit(n / 4), Digit((n / 2) % 2), Digit(n % 2)]
  {
    if n >= 4 {
      assert n / 2 / 2 == n / 4;
      assert NatToString(n / 2, 2) == [Digit(n / 4), Digit((n / 2) % 2)];
    }
  }

  /** Padding a string of one to three characters to width 3 with zeros. */
  lemma PadToThree(s: string)
    requires 1 <= |s| <= 3
    ensures |s| == 1 ==> PadLeft(s, 3, '0') == ['0', '0', s[0]]
    ensures |s| == 2 ==> PadLeft(s, 3, '0') == ['0', s[0], s[1]]
    ensures |s| == 3 ==> PadLeft(s, 3, '0') == s
  {
  }

  /** Neighbourhood n is written as its left, own and right cell, in that order. */
  lemma NeighbourhoodDigits(n: nat)
    requires n < 8
    ensures NeighbourhoodString(n) == [Digit(Bit(n, 2)), Digit(Bit(n, 1)), Digit(Bit(n, 0))]
  {
    SmallBits(n);
    SmallBinary(n);
    var b := NatToString(n, 2);
    PadToThree(b);
    if n < 2 {
      assert n / 4 == 0 && (n / 2) % 2 == 0 && n % 2 == n;
    } else if n < 4 {
      assert n / 4 == 0;
    }
  }

  /** The three digits read as a binary number give the neighbourhood back, so the eight are listed as 0 to 7 in ascending order. */
  lemma NeighbourhoodRoundTrip(n: nat)
    requires n < 8
    ensures |NeighbourhoodString(n)| == 3
    ensures AllDigits(NeighbourhoodString(n))
    ensures ParseNat(NeighbourhoodString(n), 2) == n
  {
    NeighbourhoodDigits(n);
    SmallBits(n);
    SmallSplit(n);
    var t := NeighbourhoodString(n);
    assert t[..2] == [t[0], t[1]];
    assert t[..2][..1] == [t[0]];
    assert ParseNat([t[0]], 2) == DigitValue(t[0]) by {
      assert [t[0]][..0] == [];
    }
  }

  /** One neighbourhood and the value the rule gives it: `"$neighborhoodString&nbsp;to&nbsp;$value"`. */
  function Item(rule: int, n: nat): string
    requires n < 8
  {
    NeighbourhoodString(n) + "&nbsp;to&nbsp;" + IntToString(Bit(rule, n))
  }

  /** What an iteration of the loop at wolfram_ca.php:20-30 echoes before its item: ", " after the first, and "and " before the last. */
  function Separator(n: nat): string
  {
    if n == 0 then "" else if n == 7 then ", and " else ", "
  }

  /** The text echoed once the loop has run for neighbourhoods 0 to k - 1. */
  function DescriptionPrefix(rule: int, k: nat): string
    requires k <= 8
  {
    if k == 0 then "Rule " + IntToString(rule) + " maps "
    else DescriptionPrefix(rule, k - 1) + Separator(k - 1) + Item(rule, k - 1)
  }

  /** The whole sentence. */
  function Description(rule: int): string
  {
    DescriptionPrefix(rule, 8) + "."
  }

  lemma AppendAssociates(a: string, b: string, c: string)
    ensures a + b + c == a + (b + c)
  {
  }

  /** printRuleDescriptionHtml, each `echo` appending to the text. */
  method DescribeRule(rule: int) returns (html: string)
    ensures html == Description(rule)
  {
    html := "Rule " + IntToString(rule) + " maps ";
    for neighborhood := 0 to 8
      invariant html == DescriptionPrefix(rule, neighborhood)
    {
      ghost var before := html;
      if neighborhood != 0 {
        html := html + ", ";
      }
      if neighborhood == 7 {
        html := html + "and ";
        AppendAssociates(before, ", ", "and ");
      }
      assert html == before + Separator(neighborhood) by {
        if neighborhood == 0 {
          assert before + "" == before;
        }
      }
      var neighborhoodString := NeighbourhoodString(neighborhood);
      var value := Bit(rule, neighborhood);
      html := html + (neighborhoodString + "&nbsp;to&nbsp;" + IntToString(value));
    }
    html := html + ".";
  }

  /**
   * The sentence is "Rule", the rule number, "maps", then the eight items
   * for neighbourhoods 0 to 7 separated by ", ", with "and " before the
   * last, and a closing full stop.
   */
  lemma DescriptionLayout(rule: int)
    ensures Description(rule)
            == "Rule " + IntToString(rule) + " maps "
               + Item(rule, 0) + ", " + Item(rule, 1) + ", " + Item(rule, 2) + ", " + Item(rule, 3)
               + ", " + Item(rule, 4) + ", " + Item(rule, 5) + ", " + Item(rule, 6)
               + ", and " + Item(rule, 7) + "."
  {
    var p := "Rule " + IntToString(rule) + " maps ";
    assert DescriptionPrefix(rule, 1) == p + Item(rule, 0) by {
      assert p + "" == p;
    }
    assert DescriptionPrefix(rule, 2) == DescriptionPrefix(rule, 1) + ", " + Item(rule, 1);
    assert DescriptionPrefix(rule, 3) == DescriptionPrefix(rule, 2) + ", " + Item(rule, 2);
    assert DescriptionPrefix(rule, 4) == DescriptionPrefix(rule, 3) + ", " + Item(rule, 3);
    assert DescriptionPrefix(rule, 5) == DescriptionPrefix(rule, 4) + ", " + Item(rule, 4);
    assert DescriptionPrefix(rule, 6) == DescriptionPrefix(rule, 5) + ", " + Item(rule, 5);
    assert DescriptionPrefix(rule, 7) == DescriptionPrefix(rule, 6) + ", " + Item(rule, 6);
    assert DescriptionPrefix(rule, 8) == DescriptionPrefix(rule, 7) + ", and " + Item(rule, 7);
  }

  /** An item is the three neighbourhood digits, "&nbsp;to&nbsp;", and the digit of the rule's bit for that neighbourhood. */
  lemma ItemLayout(rule: int, n: nat)
    requires n < 8
    ensures |Item(rule, n)| == 18
    ensures Item(rule, n)[..3] == NeighbourhoodString(n)
    ensures Item(rule, n)[3..17] == "&nbsp;to&nbsp;"
    ensures Item(rule, n)[17] == Digit(Bit(rule, n))
  {
    NeighbourhoodRoundTrip(n);
    var v := Bit(rule, n);
    assert IntToString(v) == [Digit(v)];
    var ns, arrow := NeighbourhoodString(n), "&nbsp;to&nbsp;";
    assert Item(rule, n) == ns + arrow + [Digit(v)];
    assert (ns + arrow + [Digit(v)])[3..17] == arrow;
  }

  /** Every stage of the text starts with "Rule ", the rule number and " maps ". */
  lemma {:induction false} PrefixKept(rule: int, k: nat)
    requires k <= 8
    ensures DescriptionPrefix(rule, 0) <= DescriptionPrefix(rule, k)
  {
    if k > 0 {
      PrefixKept(rule, k - 1);
      var a, b := DescriptionPrefix(rule, 0), DescriptionPrefix(rule, k - 1);
      var c := Separator(k - 1) + Item(rule, k - 1);
      AppendAssociates(b, Separator(k - 1), Item(rule, k - 1));
      assert b + c == DescriptionPrefix(rule, k);
      assert (b + c)[..|a|] == b[..|a|];
    }
  }

  /** The rule number can be read back from the sentence: it stands between "Rule " and " maps ". */
  lemma DescriptionReadsRule(rule: int)
    ensures 5 + |IntToString(rule)| <= |Description(rule)|
    ensures ParseInt(Description(rule)[5..5 + |IntToString(rule)|]) == rule
  {
    PrefixKept(rule, 8);
    var w := |IntToString(rule)|;
    var a := DescriptionPrefix(rule, 0);
    var d := Description(rule);
    assert a <= d;
    assert d[5..5 + w] == a[5..5 + w];
    assert a[5..5 + w] == IntToString(rule);
    IntRoundTrip(rule);
  }
}
