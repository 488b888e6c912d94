/**
 * The dash normaliser applied to every model reply: three `re.sub` passes,
 * `\s*—\s*` to ", ", then `\s*–\s*` to ", ", then `,\s*,` to ",".
 * Each pass scans left to right; at a position where the pattern matches,
 * the greedy match is replaced and scanning resumes after it, otherwise one
 * character is kept.
 */
module Dashes {
  import opened Text

  const EmDash: char := '—'
  const EnDash: char := '–'

  predicate IsDash(c: char)
  {
    c == EmDash || c == EnDash
  }

  /** `d` does not occur in `s`. */
  predicate Without(s: string, d: char)
  {
    d !in s
  }

  /** `re.sub(r"\s*d\s*", ", ", s)` for a dash `d`. */
  function SubDash(s: string, d: char): string
    requires IsDash(d)
    decreases |s|
  {
    if s == [] then []
    else
      var n := LeadWs(s);
      if n < |s| && s[n] == d then
        var rest := s[n + 1..];
        ", " + SubDash(rest[LeadWs(rest)..], d)
      else
        [s[0]] + SubDash(s[1..], d)
  }

  /** Where a pass finds a dash first, the text after the dash and the whitespace behind it. */
  function AfterDash(s: string): (r: string)
    requires LeadWs(s) < |s|
    ensures |r| < |s|
  {
    var rest := s[LeadWs(s) + 1..];
    rest[LeadWs(rest)..]
  }

  /** One step of a pass: a match at the head becomes ", ", otherwise one character is kept. */
  lemma SubDashStep(s: string, d: char)
    requires IsDash(d) && s != []
    ensures LeadWs(s) < |s| && s[LeadWs(s)] == d ==> SubDash(s, d) == ", " + SubDash(AfterDash(s), d)
    ensures !(LeadWs(s) < |s| && s[LeadWs(s)] == d) ==> SubDash(s, d) == [s[0]] + SubDash(s[1..], d)
  {
  }

  /** `re.sub(r",\s*,", ",", s)`. */
  function SubCommas(s: string): string
    decreases |s|
  {
    if s == [] then []
    else if s[0] == ',' && LeadWs(s[1..]) < |s| - 1 && s[1 + LeadWs(s[1..])] == ',' then
      "," + SubCommas(s[2 + LeadWs(s[1..])..])
    else
      [s[0]] + SubCommas(s[1..])
  }

  /** `_strip_dashes`. */
  function StripDashes(text: string): string
  {
    SubCommas(SubDash(SubDash(text, EmDash), EnDash))
  }

  /** The normalised reply holds neither an em dash nor an en dash. */
  lemma NoDashesLeft(text: string)
    ensures Without(StripDashes(text), EmDash) && Without(StripDashes(text), EnDash)
  {
    var once := SubDash(text, EmDash);
    var twice := SubDash(once, EnDash);
    SubDashRemoves(text, EmDash);
    SubDashKeepsOut(once, EnDash, EmDash);
    SubDashRemoves(once, EnDash);
    SubCommasKeepsOut(twice, EmDash);
    SubCommasKeepsOut(twice, EnDash);
  }

  lemma WithoutTail(s: string, e: char)
    requires s != [] && Without(s, e)
    ensures Without(s[1..], e)
  {
    forall k | 0 <= k < |s| - 1 ensures s[1..][k] != e {
      assert s[1..][k] == s[k + 1];
    }
  }

  lemma WithoutSuffix(s: string, i: nat, e: char)
    requires i <= |s| && Without(s, e)
    ensures Without(s[i..], e)
  {
    forall k | 0 <= k < |s| - i ensures s[i..][k] != e {
      assert s[i..][k] == s[k + i];
    }
  }

  lemma WithoutConcat(s: string, t: string, e: char)
    requires Without(s, e) && Without(t, e)
    ensures Without(s + t, e)
  {
  }

  /** No dash `d` survives its own pass. */
  lemma {:induction false} SubDashRemoves(s: string, d: char)
    requires IsDash(d)
    ensures Without(SubDash(s, d), d)
    decreases |s|
  {
    if s != [] {
      SubDashStep(s, d);
      if LeadWs(s) < |s| && s[LeadWs(s)] == d {
        SubDashRemoves(AfterDash(s), d);
      } else {
        SubDashRemoves(s[1..], d);
      }
    }
  }

  /** A pass adds only ", ", so a character other than ',' and ' ' absent before stays absent. */
  lemma {:induction false} SubDashKeepsOut(s: string, d: char, e: char)
    requires IsDash(d) && e != ',' && e != ' ' && Without(s, e)
    ensures Without(SubDash(s, d), e)
    decreases |s|
  {
    if s != [] {
      SubDashStep(s, d);
      if LeadWs(s) < |s| && s[LeadWs(s)] == d {
        var rest := s[LeadWs(s) + 1..];
        WithoutSuffix(s, LeadWs(s) + 1, e);
        WithoutSuffix(rest, LeadWs(rest), e);
        SubDashKeepsOut(AfterDash(s), d, e);
      } else {
        WithoutTail(s, e);
        SubDashKeepsOut(s[1..], d, e);
      }
    }
  }

  /** Joining commas adds no character that was not there. */
  lemma {:induction false} SubCommasKeepsOut(s: string, e: char)
    requires Without(s, e) && e != ','
    ensures Without(SubCommas(s), e)
    decreases |s|
  {
    if s != [] {
      if s[0] == ',' && LeadWs(s[1..]) < |s| - 1 && s[1 + LeadWs(s[1..])] == ',' {
        WithoutSuffix(s, 2 + LeadWs(s[1..]), e);
        SubCommasKeepsOut(s[2 + LeadWs(s[1..])..], e);
        WithoutConcat(",", SubCommas(s[2 + LeadWs(s[1..])..]), e);
      } else {
        WithoutTail(s, e);
        SubCommasKeepsOut(s[1..], e);
        WithoutConcat([s[0]], SubCommas(s[1..]), e);
      }
    }
  }

  /** Text without the dash passes through its pass unchanged. */
  lemma {:induction false} SubDashWithout(s: string, d: char)
    requires IsDash(d) && Without(s, d)
    ensures SubDash(s, d) == s
    decreases |s|
  {
    if s != [] {
      var n := LeadWs(s);
      if n < |s| {
        assert s[n] != d;
      }
      assert Without(s[1..], d) by {
        forall k | 0 <= k < |s| - 1 ensures s[1..][k] != d {
          assert s[1..][k] == s[k + 1];
        }
      }
      SubDashWithout(s[1..], d);
      assert s == [s[0]] + s[1..];
    }
  }

  /**
   * One dash with the whitespace around it, spaced or not, becomes ", ": the
   * text before it is kept and the text after it is normalised in turn.
   */
  lemma SubDashAround(a: string, w1: string, d: char, w2: string, b: string)
    requires IsDash(d) && Without(a, d)
    requires a != [] ==> !IsWs(a[|a| - 1])
    requires AllWs(w1) && AllWs(w2)
    requires b != [] ==> !IsWs(b[0])
    ensures SubDash(a + (w1 + ([d] + (w2 + b))), d) == a + (", " + SubDash(b, d))
  {
    SubDashPrefix(a, w1 + ([d] + (w2 + b)), d);
    SubDashHere(w1, d, w2, b);
  }

  /**
   * A dash at the head of the text, spaced or not, is the first match: it and
   * the whitespace around it become ", ".
   */
  lemma SubDashHere(w1: string, d: char, w2: string, b: string)
    requires IsDash(d) && AllWs(w1) && AllWs(w2)
    requires b != [] ==> !IsWs(b[0])
    ensures SubDash(w1 + ([d] + (w2 + b)), d) == ", " + SubDash(b, d)
  {
    var s := w1 + ([d] + (w2 + b));
    LeadWsRun(w1, [d] + (w2 + b));
    assert s[|w1|] == d;
    var rest := s[|w1| + 1..];
    assert rest == w2 + b;
    LeadWsRun(w2, b);
    assert rest[|w2|..] == b;
  }

  /** Text free of the dash that ends in non-whitespace is kept as it is. */
  lemma {:induction false} SubDashPrefix(a: string, t: string, d: char)
    requires IsDash(d) && Without(a, d)
    requires a != [] ==> !IsWs(a[|a| - 1])
    ensures SubDash(a + t, d) == a + SubDash(t, d)
    decreases |a|
  {
    if a == [] {
      assert a + t == t;
    } else {
      assert (a + t)[1..] == a[1..] + t;
      assert Without(a[1..], d) by {
        WithoutTail(a, d);
      }
      NoMatchAtStart(a, t, d);
      SubDashStep(a + t, d);
      SubDashPrefix(a[1..], t, d);
      assert [a[0]] + (a[1..] + SubDash(t, d)) == a + SubDash(t, d);
    }
  }

  /** Text ending in non-whitespace and free of the dash cannot start a match. */
  lemma NoMatchAtStart(a: string, t: string, d: char)
    requires a != [] && Without(a, d) && !IsWs(a[|a| - 1])
    ensures var s := a + t; !(LeadWs(s) < |s| && s[LeadWs(s)] == d)
  {
    var s := a + t;
    var n := LeadWs(s);
    assert s[|a| - 1] == a[|a| - 1];
    if n < |a| {
      assert s[n] == a[n];
    }
  }

  /** A whitespace run followed by non-whitespace: `\s*` consumes exactly the run. */
  lemma {:induction false} LeadWsRun(w: string, t: string)
    requires AllWs(w) && (t != [] ==> !IsWs(t[0]))
    ensures LeadWs(w + t) == |w|
    decreases |w|
  {
    if w != [] {
      assert (w + t)[1..] == w[1..] + t;
      LeadWsRun(w[1..], t);
    } else {
      assert w + t == t;
    }
  }

  /** The normaliser is not idempotent: one pass leaves ", ," that a second pass joins. */
  lemma NotIdempotent()
    ensures StripDashes("a, — , b") == "a, , b"
    ensures StripDashes("a, , b") == "a, b"
  {
    FirstPass("a, — , b");
    SecondPass("a, , b");
  }

  lemma FirstPass(s: string)
    requires s == "a, — , b"
    ensures StripDashes(s) == "a, , b"
  {
    EmDashStep(s, "a,", " ", ", b");
    SubDashWithout("a,, , b", EnDash);
    CommasStep("a,, , b");
  }

  lemma SecondPass(s: string)
    requires s == "a, , b"
    ensures StripDashes(s) == "a, b"
  {
    SubDashWithout(s, EmDash);
    SubDashWithout(s, EnDash);
    CommasStep2(s);
  }

  lemma EmDashStep(s: string, pre: string, w: string, rest: string)
    requires s == "a, — , b" && pre == "a," && w == " " && rest == ", b"
    ensures SubDash(s, EmDash) == "a,, , b"
  {
    assert s == pre + (w + ([EmDash] + (w + rest)));
    assert SubDash(s, EmDash) == pre + (", " + SubDash(rest, EmDash)) by {
      SubDashAround(pre, w, EmDash, w, rest);
    }
    assert SubDash(rest, EmDash) == rest by {
      SubDashWithout(rest, EmDash);
    }
    assert pre + (", " + rest) == "a,, , b";
  }

  lemma CommasStep(s: string)
    requires s == "a,, , b"
    ensures SubCommas(s) == "a, , b"
  {
    assert LeadWs(s[2..]) == 0;
    assert SubCommas(s[1..]) == "," + SubCommas(s[3..]);
    assert LeadWs(" , b") == 1 by {
      assert " , b"[1..] == ", b";
    }
    assert SubCommas(" , b") == " " + SubCommas(", b");
    assert LeadWs(" b") == 1 by {
      assert " b"[1..] == "b";
    }
    assert SubCommas(", b") == "," + SubCommas(" b");
    assert SubCommas(" b") == " " + SubCommas("b");
    assert SubCommas("b") == "b";
    assert s[3..] == " , b";
  }

  lemma CommasStep2(s: string)
    requires s == "a, , b"
    ensures SubCommas(s) == "a, b"
  {
    assert LeadWs(s[2..]) == 1 by {
      assert s[2..][1..] == ", b";
    }
    assert SubCommas(s[1..]) == "," + SubCommas(s[4..]);
    assert s[4..] == " b";
    assert LeadWs(" b") == 1 by {
      assert " b"[1..] == "b";
    }
    assert SubCommas(" b") == " " + SubCommas("b");
    assert SubCommas("b") == "b";
  }
}
