/**
 * The Python string behaviour the chat logic relies on, over `seq<char>`:
 * `str.strip()`, `str.lower()` restricted to ASCII, `in` on strings,
 * `str.join` and slicing a prefix.
 */
module Text {

  /** Python's `str.isspace()`: the characters `str.strip()` removes and `\s` matches. */
  predicate IsWs(c: char)
  {
    ('\t' <= c <= '\r') || ('\U{1C}' <= c <= ' ') || c == '\U{85}' || c == '\U{A0}'
    || c == '\U{1680}' || ('\U{2000}' <= c <= '\U{200A}') || c == '\U{2028}'
    || c == '\U{2029}' || c == '\U{202F}' || c == '\U{205F}' || c == '\U{3000}'
  }

  predicate AllWs(s: string)
  {
    forall k :: 0 <= k < |s| ==> IsWs(s[k])
  }

  /** How many whitespace characters `s` starts with: what a greedy `\s*` consumes. */
  function LeadWs(s: string): (n: nat)
    ensures n <= |s|
    ensures forall k :: 0 <= k < n ==> IsWs(s[k])
    ensures n < |s| ==> !IsWs(s[n])
  {
    if |s| > 0 && IsWs(s[0]) then 1 + LeadWs(s[1..]) else 0
  }

  /** How many whitespace characters `s` ends with. */
  function TrailWs(s: string): (n: nat)
    ensures n <= |s|
    ensures forall k :: |s| - n <= k < |s| ==> IsWs(s[k])
    ensures n < |s| ==> !IsWs(s[|s| - n - 1])
  {
    if |s| > 0 && IsWs(s[|s| - 1]) then 1 + TrailWs(s[..|s| - 1]) else 0
  }

  /**
   * `str.strip()`: the part of `s` after its leading whitespace, up to where
   * only whitespace remains; it neither starts nor ends with whitespace.
   */
  function Strip(s: string): (r: string)
    ensures |r| <= |s|
    ensures r == [] <==> AllWs(s)
    ensures r != [] ==> !IsWs(r[0]) && !IsWs(r[|r| - 1])
    ensures LeadWs(s) + |r| <= |s|
    ensures r == s[LeadWs(s)..LeadWs(s) + |r|]
    ensures forall k :: LeadWs(s) + |r| <= k < |s| ==> IsWs(s[k])
  {
    var i := LeadWs(s);
    if i == |s| then
      []
    else
      var j := |s| - TrailWs(s);
      assert !IsWs(s[i]);
      s[i..j]
  }

  /** A string that neither starts nor ends with whitespace is its own strip. */
  lemma StripOfTrimmed(s: string)
    requires s != [] ==> !IsWs(s[0]) && !IsWs(s[|s| - 1])
    ensures Strip(s) == s
  {
  }

  /** Stripping twice is stripping once. */
  lemma StripIdempotent(s: string)
    ensures Strip(Strip(s)) == Strip(s)
  {
    StripOfTrimmed(Strip(s));
  }

  /** `strip()` starts no later than the first non-whitespace character. */
  lemma StripStartsBy(s: string, k: nat)
    requires k < |s| && !IsWs(s[k])
    ensures LeadWs(s) <= k
  {
  }

  /** `strip()` ends no earlier than after the last non-whitespace character. */
  lemma StripEndsAfter(s: string, k: nat)
    requires k < |s| && !IsWs(s[k])
    ensures k < LeadWs(s) + |Strip(s)|
  {
  }

  /** Text that neither starts nor ends with whitespace survives `strip()` of a string holding it. */
  lemma StripKeepsInfix(s: string, p: string, u: string, q: string)
    requires s == p + u + q && u != [] && !IsWs(u[0]) && !IsWs(u[|u| - 1])
    ensures IsInfix(u, Strip(s))
  {
    Middle(s, p, u, q);
    StripKeepsWindow(s, |p|, u);
  }

  /** The same, for text found in `s` at position `a`. */
  lemma StripKeepsWindow(s: string, a: nat, u: string)
    requires u != [] && !IsWs(u[0]) && !IsWs(u[|u| - 1])
    requires a + |u| <= |s| && s[a..a + |u|] == u && s[a] == u[0] && s[a + |u| - 1] == u[|u| - 1]
    ensures IsInfix(u, Strip(s))
  {
    var lead, r := LeadWs(s), Strip(s);
    assert lead <= a by { StripStartsBy(s, a); }
    assert a + |u| <= lead + |r| by { StripEndsAfter(s, a + |u| - 1); }
    InfixOfWindow(s, r, lead, a, u);
  }

  /** What is written in `s` inside the window `r` occupies is written in `r`. */
  lemma InfixOfWindow(s: string, r: string, lead: nat, a: nat, u: string)
    requires lead <= a && a + |u| <= lead + |r| <= |s|
    requires r == s[lead..lead + |r|] && s[a..a + |u|] == u
    ensures InfixAt(u, r, a - lead)
  {
    SliceOfSlice(s, lead, lead + |r|, a, a + |u|);
  }

  /** The middle part of `p + u + q`, by position. */
  lemma Middle(s: string, p: string, u: string, q: string)
    requires s == p + u + q && u != []
    ensures s[|p|..|p| + |u|] == u && s[|p|] == u[0] && s[|p| + |u| - 1] == u[|u| - 1]
  {
    assert s == p + (u + q);
    assert s[|p|..] == u + q;
    assert (u + q)[..|u|] == u;
  }

  /** A slice of a slice is a slice. */
  lemma SliceOfSlice(s: string, lo: nat, hi: nat, a: nat, b: nat)
    requires lo <= a <= b <= hi <= |s|
    ensures s[lo..hi][a - lo..b - lo] == s[a..b]
  {
    var x, y := s[lo..hi][a - lo..b - lo], s[a..b];
    assert |x| == |y|;
    forall k | 0 <= k < |x| ensures x[k] == y[k] {
      assert x[k] == s[lo..hi][a - lo + k] == s[a + k];
    }
  }

  /** Python's `str.lower()` on one character, restricted to ASCII letters. */
  function LowerChar(c: char): (r: char)
    ensures 'A' <= c <= 'Z' ==> r as int == c as int + 32
    ensures !('A' <= c <= 'Z') ==> r == c
  {
    if 'A' <= c <= 'Z' then (c as int + 32) as char else c
  }

  function Lower(s: string): (r: string)
    ensures |r| == |s|
    ensures forall k :: 0 <= k < |s| ==> r[k] == LowerChar(s[k])
  {
    seq(|s|, k requires 0 <= k < |s| => LowerChar(s[k]))
  }

  /** `needle` occurs in `hay` at position `i`. */
  predicate InfixAt(needle: string, hay: string, i: nat)
  {
    i + |needle| <= |hay| && hay[i..i + |needle|] == needle
  }

  /** Python's `needle in hay` on strings: `needle` occurs somewhere in `hay`. */
  function IsInfix(needle: string, hay: string): (r: bool)
    ensures r <==> exists i: nat :: InfixAt(needle, hay, i)
    decreases |hay|
  {
    if needle <= hay then
      assert InfixAt(needle, hay, 0);
      true
    else if |hay| == 0 then
      false
    else
      var rest := IsInfix(needle, hay[1..]);
      if rest then
        var i: nat :| InfixAt(needle, hay[1..], i);
        InfixShift(needle, hay, i + 1);
        true
      else
        assert forall i: nat :: !InfixAt(needle, hay, i) by {
          forall i: nat | InfixAt(needle, hay, i)
            ensures false
          {
            if i > 0 {
              InfixShift(needle, hay, i);
            }
          }
        }
        false
  }

  /** An occurrence after the first character is an occurrence in the tail. */
  lemma InfixShift(needle: string, hay: string, i: nat)
    requires 0 < i && hay != []
    ensures InfixAt(needle, hay, i) <==> InfixAt(needle, hay[1..], i - 1)
  {
    if i + |needle| <= |hay| {
      assert hay[i..i + |needle|] == hay[1..][i - 1..i - 1 + |needle|];
    }
  }

  /** Python's `sep.join(lines)`. */
  function Join(sep: string, lines: seq<string>): string
  {
    if |lines| == 0 then ""
    else if |lines| == 1 then lines[0]
    else Join(sep, lines[..|lines| - 1]) + sep + lines[|lines| - 1]
  }

  /** Appending one line to a non-empty list appends the separator and the line. */
  lemma JoinSnoc(sep: string, lines: seq<string>, line: string)
    requires |lines| > 0
    ensures Join(sep, lines + [line]) == Join(sep, lines) + sep + line
  {
    assert (lines + [line])[..|lines|] == lines;
  }

  /** Python's `s[:n]` for `n >= 0`. */
  function Prefix(s: string, n: nat): (r: string)
    ensures |r| == if |s| < n then |s| else n
    ensures r <= s
  {
    if |s| < n then s else s[..n]
  }

  /** The character of `x` at `k`, named so that facts about whole strings stay folded. */
  function CharAt(x: string, k: nat): char
    requires k < |x|
  {
    x[k]
  }

  /** `x` is written in `s` at `lo`. */
  predicate Occurs(s: string, lo: nat, x: string)
  {
    lo + |x| <= |s| && forall k: nat :: k < |x| ==> s[lo + k] == CharAt(x, k)
  }

  lemma OccursSlice(s: string, lo: nat, x: string)
    ensures Occurs(s, lo, x) <==> lo + |x| <= |s| && s[lo..lo + |x|] == x
  {
    if lo + |x| <= |s| && s[lo..lo + |x|] == x {
      forall k: nat | k < |x| ensures s[lo + k] == CharAt(x, k) {
        assert s[lo..lo + |x|][k] == x[k];
      }
    }
    if Occurs(s, lo, x) {
      forall k | 0 <= k < |x| ensures s[lo..lo + |x|][k] == x[k] {
        assert s[lo + k] == CharAt(x, k);
      }
    }
  }

  /** Both halves of a concatenation are written in it. */
  lemma OccursHalves(x: string, y: string)
    ensures Occurs(x + y, 0, x) && Occurs(x + y, |x|, y)
  {
    forall k: nat | k < |x| ensures (x + y)[k] == CharAt(x, k) {
    }
    forall k: nat | k < |y| ensures (x + y)[|x| + k] == CharAt(y, k) {
    }
  }

  /** What is written in a string written in `s` is written in `s`. */
  lemma OccursCompose(s: string, lo: nat, t: string, k: nat, u: string)
    requires Occurs(s, lo, t) && Occurs(t, k, u)
    ensures Occurs(s, lo + k, u)
  {
    forall i: nat | i < |u| ensures s[lo + k + i] == CharAt(u, i) {
      assert t[k + i] == CharAt(u, i);
      assert s[lo + (k + i)] == CharAt(t, k + i);
    }
  }

  lemma OccursPrefix(s: string, x: string)
    requires Occurs(s, 0, x)
    ensures s[..|x|] == x
  {
    OccursSlice(s, 0, x);
  }

  lemma OccursTail(s: string, lo: nat, x: string)
    requires Occurs(s, lo, x) && |s| == lo + |x|
    ensures s[lo..] == x
  {
    OccursSlice(s, lo, x);
    assert s[lo..] == s[lo..lo + |x|];
  }

  /** The five parts of `s == x1 + x2 + x3 + x4 + x5`, each written at its offset. */
  lemma OccursFive(s: string, x1: string, x2: string, x3: string, x4: string, x5: string,
                   a: nat, b: nat, c: nat, d: nat)
    requires s == x1 + x2 + x3 + x4 + x5
    requires a == |x1| && b == a + |x2| && c == b + |x3| && d == c + |x4|
    ensures Occurs(s, 0, x1) && Occurs(s, a, x2) && Occurs(s, b, x3) && Occurs(s, c, x4)
    ensures Occurs(s, d, x5) && |s| == d + |x5|
  {
    var t4 := x1 + x2 + x3 + x4;
    var t3 := x1 + x2 + x3;
    var t2 := x1 + x2;
    OccursHalves(t4, x5);
    OccursHalves(t3, x4);
    OccursHalves(t2, x3);
    OccursHalves(x1, x2);
    OccursCompose(s, 0, t4, 0, t3);
    OccursCompose(s, 0, t4, c, x4);
    OccursCompose(s, 0, t3, 0, t2);
    OccursCompose(s, 0, t3, b, x3);
    OccursCompose(s, 0, t2, 0, x1);
    OccursCompose(s, 0, t2, a, x2);
  }
}
