/**
 * Python's `str()` of an integer and `int()` of a string, base 10.
 * `int()` accepts surrounding whitespace, an optional sign and ASCII digits
 * in groups joined by single underscores.
 */
module Decimal {
  import opened Wrappers
  import opened Text

  predicate IsDigit(c: char)
  {
    '0' <= c <= '9'
  }

  function DigitVal(c: char): (d: nat)
    requires IsDigit(c)
    ensures d < 10
  {
    c as int - '0' as int
  }

  function DigitChar(d: nat): (c: char)
    requires d < 10
    ensures IsDigit(c) && DigitVal(c) == d
  {
    ('0' as int + d) as char
  }

  /** `str(n)` for `n >= 0`: decimal digits without leading zeros. */
  function NatToString(n: nat): (s: string)
    ensures |s| >= 1
    ensures forall k :: 0 <= k < |s| ==> IsDigit(s[k])
    ensures s[0] == '0' ==> n == 0
  {
    if n < 10 then [DigitChar(n)] else NatToString(n / 10) + [DigitChar(n % 10)]
  }

  /** `str(i)`. */
  function IntToString(i: int): (s: string)
    ensures |s| >= 1
  {
    if i < 0 then "-" + NatToString(-i) else NatToString(i)
  }

  /** The digits and underscores `int()` accepts after the sign. */
  predicate IsDigitGroups(s: string)
  {
    && |s| > 0
    && IsDigit(s[0])
    && IsDigit(s[|s| - 1])
    && (forall k :: 0 <= k < |s| ==> IsDigit(s[k]) || s[k] == '_')
    && (forall k :: 0 <= k < |s| - 1 ==> s[k] == '_' ==> s[k + 1] != '_')
  }

  /** The number the digits of `s` spell, underscores ignored. */
  function GroupsValue(s: string): nat
    requires forall k :: 0 <= k < |s| ==> IsDigit(s[k]) || s[k] == '_'
  {
    if s == [] then 0
    else if s[|s| - 1] == '_' then GroupsValue(s[..|s| - 1])
    else GroupsValue(s[..|s| - 1]) * 10 + DigitVal(s[|s| - 1])
  }

  /** `int(s)`: `None` stands for the `ValueError` it raises. */
  function ParseInt(s: string): (r: Option<int>)
    ensures r.Some? ==> |Strip(s)| > 0
    ensures (r.Some? && r.value < 0) ==> Strip(s)[0] == '-'
  {
    var t := Strip(s);
    if |t| > 0 && (t[0] == '+' || t[0] == '-') then
      if IsDigitGroups(t[1..]) then
        var v: int := GroupsValue(t[1..]);
        Some(if t[0] == '-' then -v else v)
      else
        None
    else if IsDigitGroups(t) then
      Some(GroupsValue(t))
    else
      None
  }

  /** The digits `str(n)` writes spell `n`. */
  lemma {:induction false} NatToStringValue(n: nat)
    ensures GroupsValue(NatToString(n)) == n
  {
    var s := NatToString(n);
    if n >= 10 {
      NatToStringValue(n / 10);
      assert s[..|s| - 1] == NatToString(n / 10);
    }
  }

  /** `str(n)` is a digit group `int()` accepts, spelling `n`. */
  lemma NatToStringGroups(n: nat)
    ensures IsDigitGroups(NatToString(n)) && GroupsValue(NatToString(n)) == n
  {
    NatToStringValue(n);
  }

  /** `int()` of a stripped string of digit groups after a minus sign. */
  lemma ParseNegative(t: string, v: int)
    requires Strip(t) == t && |t| > 0 && t[0] == '-'
    requires IsDigitGroups(t[1..]) && GroupsValue(t[1..]) == v
    ensures ParseInt(t) == Some(-v)
  {
  }

  /** `int()` of a stripped string of digit groups without a sign. */
  lemma ParseUnsigned(t: string, v: nat)
    requires Strip(t) == t && IsDigitGroups(t) && GroupsValue(t) == v
    ensures ParseInt(t) == Some(v)
  {
  }

  /** `str(i)` for a negative `i` is a minus sign and the digits of `-i`, already stripped. */
  lemma NegativeString(i: int)
    requires i < 0
    ensures var s := IntToString(i);
      Strip(s) == s && s[0] == '-' && IsDigitGroups(s[1..]) && GroupsValue(s[1..]) == -i
  {
    NegativeSign(i);
    NatToStringGroups(-i);
    NegativeStripped(i);
  }

  lemma NegativeSign(i: int)
    requires i < 0
    ensures IntToString(i)[0] == '-' && IntToString(i)[1..] == NatToString(-i)
  {
    assert IntToString(i) == "-" + NatToString(-i);
  }

  lemma NegativeStripped(i: int)
    requires i < 0
    ensures Strip(IntToString(i)) == IntToString(i)
  {
    var s, d := IntToString(i), NatToString(-i);
    assert s == "-" + d;
    assert s[|s| - 1] == d[|d| - 1] && IsDigit(d[|d| - 1]);
    StripOfTrimmed(s);
  }

  /** `str(i)` for `i >= 0` is the digits of `i`, already stripped. */
  lemma NonNegativeString(i: int)
    requires i >= 0
    ensures var s := IntToString(i);
      Strip(s) == s && IsDigitGroups(s) && GroupsValue(s) == i
  {
    NatToStringGroups(i);
    StripOfTrimmed(IntToString(i));
  }

  /** `int(str(i)) == i`: the round trip the update path depends on. */
  lemma ParseIntOfIntToString(i: int)
    ensures ParseInt(IntToString(i)) == Some(i)
  {
    if i < 0 {
      NegativeString(i);
      ParseNegative(IntToString(i), -i);
    } else {
      NonNegativeString(i);
      ParseUnsigned(IntToString(i), i);
    }
  }

  /** `str(i)` is made of digits and at most a leading minus sign. */
  lemma IntToStringChars(i: int)
    ensures forall k :: 0 <= k < |IntToString(i)| ==> IsDigit(IntToString(i)[k]) || IntToString(i)[k] == '-'
  {
    if i < 0 {
      var s := IntToString(i);
      assert forall k :: 1 <= k < |s| ==> s[k] == NatToString(-i)[k - 1];
    }
  }
}
