/**
 * The two uses of Python's `re` module in the tag parsers, for a pattern
 * `open(.*?)close` compiled with `re.DOTALL | re.IGNORECASE` where `open` and
 * `close` are literal tags:
 *  - `search`: the leftmost match, whose body is as short as possible;
 *  - `sub` with an empty replacement: every non-overlapping match removed,
 *    scanning left to right.
 * Case-insensitive comparison folds ASCII letters only.
 */
module Regex {
  import opened Wrappers
  import opened Text

  function Fold(c: char): char
  {
    LowerChar(c)
  }

  /** The literal `p` matches `s` at position `i`, ignoring ASCII case. */
  predicate MatchAt(s: string, p: string, i: nat): (r: bool)
    ensures r ==> i + |p| <= |s|
    decreases |p|
  {
    if p == [] then i <= |s|
    else i < |s| && Fold(s[i]) == Fold(p[0]) && MatchAt(s, p[1..], i + 1)
  }

  /** A match, character by character. */
  lemma {:induction false} MatchAtChars(s: string, p: string, i: nat)
    ensures MatchAt(s, p, i) <==>
      i + |p| <= |s| && forall k :: 0 <= k < |p| ==> Fold(s[i + k]) == Fold(p[k])
    decreases |p|
  {
    if p != [] {
      MatchAtChars(s, p[1..], i + 1);
      if i + |p| <= |s| && forall k :: 0 <= k < |p| ==> Fold(s[i + k]) == Fold(p[k]) {
        assert Fold(s[i]) == Fold(p[0]);
        forall k | 0 <= k < |p| - 1 ensures Fold(s[i + 1 + k]) == Fold(p[1..][k]) {
          assert Fold(s[i + (k + 1)]) == Fold(p[k + 1]);
        }
      }
      if MatchAt(s, p, i) {
        forall k | 0 <= k < |p| ensures Fold(s[i + k]) == Fold(p[k]) {
          if k > 0 {
            assert Fold(s[i + 1 + (k - 1)]) == Fold(p[1..][k - 1]);
          }
        }
      }
    }
  }

  /** The first position at or after `from` where `p` matches. */
  function FindFrom(s: string, p: string, from: nat): Option<nat>
    decreases |s| - from
  {
    if from + |p| > |s| then None
    else if MatchAt(s, p, from) then Some(from)
    else FindFrom(s, p, from + 1)
  }

  /** `FindFrom` finds the least match at or after `from`, and `None` only when there is none. */
  lemma {:induction false} FindFromSpec(s: string, p: string, from: nat)
    ensures FindFrom(s, p, from).Some? ==>
      var i := FindFrom(s, p, from).value;
      from <= i && MatchAt(s, p, i) && forall j: nat :: from <= j < i ==> !MatchAt(s, p, j)
    ensures FindFrom(s, p, from).None? ==> forall j: nat :: from <= j ==> !MatchAt(s, p, j)
    ensures (forall j: nat :: from <= j ==> !MatchAt(s, p, j)) ==> FindFrom(s, p, from).None?
    decreases |s| - from
  {
    if from + |p| <= |s| && !MatchAt(s, p, from) {
      FindFromSpec(s, p, from + 1);
    }
  }

  /** `p` occurs first at `i` when searching from `from`. */
  lemma FindFromFirst(s: string, p: string, from: nat, i: nat)
    requires from <= i && MatchAt(s, p, i)
    requires forall j: nat :: from <= j < i ==> !MatchAt(s, p, j)
    ensures FindFrom(s, p, from) == Some(i)
  {
    FindFromSpec(s, p, from);
  }

  /** Where a match of `open(.*?)close` lies: the tags and the body between them. */
  datatype Span = Span(start: nat, bodyStart: nat, bodyEnd: nat, end: nat)

  /** `open` at `i` and `close` at `j`, with `close` after the whole of `open`. */
  predicate IsBlock(s: string, open: string, close: string, i: nat, j: nat)
  {
    MatchAt(s, open, i) && i + |open| <= j && MatchAt(s, close, j)
  }

  /**
   * `re.search`: the leftmost start of a block and, for that start, the
   * first closing tag (the non-greedy body).
   */
  function Search(s: string, open: string, close: string): Option<Span>
  {
    match FindFrom(s, open, 0)
    case None => None
    case Some(i) =>
      match FindFrom(s, close, i + |open|)
      case None => None
      case Some(j) => Some(Span(i, i + |open|, j, j + |close|))
  }

  /**
   * What `re.search` promises: a found block is the leftmost one and, for its
   * start, the shortest; `None` exactly when no block exists at all.
   */
  lemma SearchSpec(s: string, open: string, close: string)
    ensures var r := Search(s, open, close);
      && (r.Some? ==>
        var sp := r.value;
        && sp.bodyStart == sp.start + |open|
        && sp.end == sp.bodyEnd + |close|
        && sp.end <= |s|
        && IsBlock(s, open, close, sp.start, sp.bodyEnd)
        && (forall i: nat, j: nat :: IsBlock(s, open, close, i, j) ==> sp.start <= i)
        && (forall j: nat :: IsBlock(s, open, close, sp.start, j) ==> sp.bodyEnd <= j))
      && (r.None? <==> forall i: nat, j: nat :: !IsBlock(s, open, close, i, j))
  {
    FindFromSpec(s, open, 0);
    match FindFrom(s, open, 0)
    case None =>
    case Some(i) =>
      FindFromSpec(s, close, i + |open|);
      if FindFrom(s, close, i + |open|).None? {
        // a block starting later than `i` would also close after `i + |open|`
        forall i': nat, j: nat ensures !IsBlock(s, open, close, i', j) {
          assert IsBlock(s, open, close, i', j) ==> i <= i' && i + |open| <= j;
        }
        assert Search(s, open, close).None?;
      }
  }

  /**
   * `re.sub(pattern, "", s)`: each match found scanning left to right is
   * removed and scanning resumes after it.
   */
  function SubAll(s: string, open: string, close: string): (r: string)
    requires |open| > 0
    ensures Search(s, open, close).None? ==> r == s
    ensures Search(s, open, close).Some? ==> |r| < |s|
    decreases |s|
  {
    SearchSpec(s, open, close);
    match Search(s, open, close)
    case None => s
    case Some(sp) => s[..sp.start] + SubAll(s[sp.end..], open, close)
  }

  /** The search result is fixed by where the two tags are found. */
  lemma SearchFound(s: string, open: string, close: string, a: nat, c: nat)
    requires FindFrom(s, open, 0) == Some(a)
    requires FindFrom(s, close, a + |open|) == Some(c)
    ensures Search(s, open, close) == Some(Span(a, a + |open|, c, c + |close|))
  {
  }

  /** With no opening tag there is no block. */
  lemma SearchNone(s: string, open: string, close: string)
    requires FindFrom(s, open, 0).None?
    ensures Search(s, open, close).None?
  {
  }

  /**
   * When the text after the first block opens no block, `re.sub` leaves what
   * was before the block and what was after it.
   */
  lemma SubAllSplit(s: string, open: string, close: string, sp: Span, before: string, after: string)
    requires |open| > 0 && Search(s, open, close) == Some(sp)
    requires sp.start == |before| && Occurs(s, 0, before)
    requires Occurs(s, sp.end, after) && |s| == sp.end + |after|
    requires FindFrom(after, open, 0).None?
    ensures SubAll(s, open, close) == before + after
  {
    OccursPrefix(s, before);
    OccursTail(s, sp.end, after);
  }

  /** Removing blocks adds no character: everything left was in the text. */
  lemma {:induction false} SubAllChars(s: string, open: string, close: string)
    requires |open| > 0
    ensures forall c :: c in SubAll(s, open, close) ==> c in s
    decreases |s|
  {
    SearchSpec(s, open, close);
    match Search(s, open, close)
    case None =>
    case Some(sp) =>
      SubAllChars(s[sp.end..], open, close);
      assert forall c :: c in s[..sp.start] ==> c in s;
      assert forall c :: c in s[sp.end..] ==> c in s;
  }
}
