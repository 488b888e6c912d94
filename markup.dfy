/**
 * Text built from tags `<w>` and tag-free runs, and what the block search of
 * the Regex module finds in it. These lemmas are what the round-trip proofs of
 * the tag parsers rest on: a tag can only match where a tag with the same
 * case-folded word was written.
 */
module Markup {
  import opened Wrappers
  import opened Text
  import opened Regex

  datatype Piece = Tag(word: string) | Txt(text: string)

  function Angle(w: string): (r: string)
    ensures |r| == |w| + 2
  {
    "<" + w + ">"
  }

  function RenderPiece(p: Piece): string
  {
    match p
    case Tag(w) => Angle(w)
    case Txt(t) => t
  }

  function Render(ps: seq<Piece>): string
  {
    if ps == [] then "" else RenderPiece(ps[0]) + Render(ps[1..])
  }

  /** Free text: no `<`, so no tag can start in it. */
  predicate NoAngle(t: string)
  {
    forall k :: 0 <= k < |t| ==> t[k] != '<'
  }

  /** A tag word: no `<` or `>` inside. */
  predicate TagWord(w: string)
  {
    forall k :: 0 <= k < |w| ==> w[k] != '<' && w[k] != '>'
  }

  predicate PieceOk(p: Piece)
  {
    match p
    case Tag(w) => TagWord(w)
    case Txt(t) => NoAngle(t)
  }

  predicate WellFormed(ps: seq<Piece>)
  {
    forall k :: 0 <= k < |ps| ==> PieceOk(ps[k])
  }

  function FoldSeq(w: string): (r: string)
    ensures |r| == |w|
  {
    seq(|w|, k requires 0 <= k < |w| => Fold(w[k]))
  }

  /** Two tag words that an ASCII-case-insensitive match cannot tell apart. */
  predicate SameTag(w: string, w': string)
  {
    FoldSeq(w) == FoldSeq(w')
  }

  predicate NotTag(p: Piece, w: string)
  {
    p.Tag? ==> !SameTag(p.word, w)
  }

  /** No tag among `ps` has the word `w`, up to case. */
  predicate Absent(ps: seq<Piece>, w: string)
  {
    forall k :: 0 <= k < |ps| ==> NotTag(ps[k], w)
  }

  lemma {:induction false} RenderAppend(a: seq<Piece>, b: seq<Piece>)
    ensures Render(a + b) == Render(a) + Render(b)
  {
    if a != [] {
      calc {
        Render(a + b);
        { assert (a + b)[0] == a[0]; assert (a + b)[1..] == a[1..] + b; }
        RenderPiece(a[0]) + Render(a[1..] + b);
        { RenderAppend(a[1..], b); }
        RenderPiece(a[0]) + (Render(a[1..]) + Render(b));
      }
    } else {
      assert a + b == b;
    }
  }

  lemma FoldKeepsAngles(c: char)
    ensures Fold(c) == '<' <==> c == '<'
    ensures Fold(c) == '>' <==> c == '>'
  {
  }

  /** Inside `<w>` the only `>` is the last character. */
  lemma AngleClose(w: string, k: nat)
    requires TagWord(w) && k < |w| + 2
    ensures Angle(w)[k] == '>' <==> k == |w| + 1
    ensures Angle(w)[k] == '<' <==> k == 0
  {
    if 0 < k < |w| + 1 {
      assert Angle(w)[k] == w[k - 1];
    }
  }

  /** A match of a tag starts at a `<`. */
  lemma MatchStartsAtAngle(s: string, w: string, i: nat)
    ensures MatchAt(s, Angle(w), i) ==> s[i] == '<'
  {
    if MatchAt(s, Angle(w), i) {
      assert Fold(s[i]) == Fold(Angle(w)[0]);
      FoldKeepsAngles(s[i]);
    }
  }

  /** If `<w'>` is written at `i`, `<w>` matches there only when the words fold alike. */
  lemma TagMismatch(s: string, i: nat, w: string, w': string)
    requires TagWord(w) && TagWord(w')
    requires i + |w'| + 2 <= |s| && s[i..i + |w'| + 2] == Angle(w')
    ensures MatchAt(s, Angle(w), i) ==> SameTag(w, w')
  {
    MatchAtChars(s, Angle(w), i);
    if MatchAt(s, Angle(w), i) {
      var a, b := Angle(w), Angle(w');
      assert forall k :: 0 <= k < |b| ==> s[i + k] == b[k] by {
        forall k | 0 <= k < |b| ensures s[i + k] == b[k] {
          assert s[i..i + |w'| + 2][k] == s[i + k];
        }
      }
      // the shorter word ends first, at a '>' that the longer one cannot hold
      var m := if |w| < |w'| then |w| else |w'|;
      assert Fold(s[i + m + 1]) == Fold(a[m + 1]);
      assert s[i + m + 1] == b[m + 1];
      AngleClose(w, m + 1);
      AngleClose(w', m + 1);
      FoldKeepsAngles(a[m + 1]);
      FoldKeepsAngles(b[m + 1]);
      assert |w| == |w'|;
      forall k | 0 <= k < |w| ensures FoldSeq(w)[k] == FoldSeq(w')[k] {
        assert Fold(s[i + k + 1]) == Fold(a[k + 1]);
        assert a[k + 1] == w[k] && b[k + 1] == w'[k];
      }
    }
  }

  /** A tag written exactly where one with the same folded word is sought matches. */
  lemma TagMatches(s: string, i: nat, w: string, w': string)
    requires SameTag(w, w')
    requires i + |w'| + 2 <= |s| && s[i..i + |w'| + 2] == Angle(w')
    ensures MatchAt(s, Angle(w), i)
  {
    var a, b := Angle(w), Angle(w');
    assert |w| == |w'| by {
      assert |FoldSeq(w)| == |FoldSeq(w')|;
    }
    MatchAtChars(s, a, i);
    forall k | 0 <= k < |a| ensures Fold(s[i + k]) == Fold(a[k]) {
      assert s[i..i + |w'| + 2][k] == s[i + k];
      if 0 < k < |a| - 1 {
        assert a[k] == w[k - 1] && b[k] == w'[k - 1];
        assert FoldSeq(w)[k - 1] == FoldSeq(w')[k - 1];
      }
    }
  }

  /** `<w>` matches nowhere inside one piece that is not a tag like `w`. */
  lemma NoMatchInPiece(s: string, lo: nat, p: Piece, w: string)
    requires PieceOk(p) && NotTag(p, w) && TagWord(w)
    requires lo + |RenderPiece(p)| <= |s| && s[lo..lo + |RenderPiece(p)|] == RenderPiece(p)
    ensures forall i: nat :: lo <= i < lo + |RenderPiece(p)| ==> !MatchAt(s, Angle(w), i)
  {
    var r := RenderPiece(p);
    forall i: nat | lo <= i < lo + |r|
      ensures !MatchAt(s, Angle(w), i)
    {
      assert s[i] == r[i - lo] by {
        assert s[lo..lo + |r|][i - lo] == s[i];
      }
      MatchStartsAtAngle(s, w, i);
      match p
      case Txt(t) =>
        assert s[i] != '<';
      case Tag(w') =>
        if i == lo {
          TagMismatch(s, i, w, w');
        } else {
          AngleClose(w', i - lo);
          assert s[i] != '<';
        }
    }
  }

  /** `<w>` matches nowhere inside pieces that carry no tag like `w`. */
  lemma {:induction false} NoMatchInPieces(s: string, lo: nat, ps: seq<Piece>, w: string)
    requires WellFormed(ps) && Absent(ps, w) && TagWord(w)
    requires lo + |Render(ps)| <= |s| && s[lo..lo + |Render(ps)|] == Render(ps)
    ensures forall i: nat :: lo <= i < lo + |Render(ps)| ==> !MatchAt(s, Angle(w), i)
    decreases |ps|
  {
    if ps != [] {
      var first, rest := RenderPiece(ps[0]), Render(ps[1..]);
      var mid := lo + |first|;
      assert s[lo..mid] == first by {
        assert s[lo..mid] == s[lo..lo + |Render(ps)|][..|first|];
      }
      assert s[mid..mid + |rest|] == rest by {
        assert s[mid..mid + |rest|] == s[lo..lo + |Render(ps)|][|first|..];
      }
      assert PieceOk(ps[0]) && NotTag(ps[0], w);
      NoMatchInPiece(s, lo, ps[0], w);
      NoMatchInPieces(s, mid, ps[1..], w);
    }
  }

  /** No tag like `w` among `ps`: their rendering holds no match of `<w>`. */
  lemma NoTagNoMatch(ps: seq<Piece>, w: string)
    requires WellFormed(ps) && Absent(ps, w) && TagWord(w)
    ensures FindFrom(Render(ps), Angle(w), 0).None?
  {
    NoMatchInPieces(Render(ps), 0, ps, w);
    FindFromSpec(Render(ps), Angle(w), 0);
  }

  /** After pieces with no tag like `w`, the search for `<w>` stops at the written `<w'>`. */
  lemma FirstTagAt(s: string, lo: nat, ps: seq<Piece>, w: string, w': string, at: nat)
    requires WellFormed(ps) && Absent(ps, w) && TagWord(w) && SameTag(w, w')
    requires at == lo + |Render(ps)|
    requires Occurs(s, lo, Render(ps)) && Occurs(s, at, Angle(w'))
    ensures FindFrom(s, Angle(w), lo) == Some(at)
  {
    OccursSlice(s, lo, Render(ps));
    OccursSlice(s, at, Angle(w'));
    NoMatchInPieces(s, lo, ps, w);
    TagMatches(s, at, w, w');
    FindFromFirst(s, Angle(w), lo, at);
  }

  lemma RenderBlock(xs: seq<Piece>, o: string, mid: seq<Piece>, c: string, ys: seq<Piece>)
    ensures Render(xs + [Tag(o)] + mid + [Tag(c)] + ys)
      == Render(xs) + Angle(o) + Render(mid) + Angle(c) + Render(ys)
  {
    RenderAppend(xs + [Tag(o)] + mid + [Tag(c)], ys);
    RenderAppend(xs + [Tag(o)] + mid, [Tag(c)]);
    RenderAppend(xs + [Tag(o)], mid);
    RenderAppend(xs, [Tag(o)]);
    assert Render([Tag(o)]) == Angle(o);
    assert Render([Tag(c)]) == Angle(c);
  }

  /**
   * The block search on a string where `xs <wo'> mid <wc'>` is written from
   * the start, at offsets `0`, `a`, `b` and `c`: when `xs` holds no opening tag
   * and `mid` no closing tag, the match is exactly the written block.
   */
  lemma SearchOccurs(s: string, xs: seq<Piece>, wo: string, wo': string, mid: seq<Piece>,
                     wc: string, wc': string, a: nat, b: nat, c: nat)
    requires WellFormed(xs) && WellFormed(mid)
    requires TagWord(wo) && TagWord(wc)
    requires SameTag(wo, wo') && SameTag(wc, wc')
    requires Absent(xs, wo) && Absent(mid, wc)
    requires a == |Render(xs)| && b == a + |Angle(wo)| && c == b + |Render(mid)|
    requires Occurs(s, 0, Render(xs)) && Occurs(s, a, Angle(wo'))
    requires Occurs(s, b, Render(mid)) && Occurs(s, c, Angle(wc'))
    ensures Search(s, Angle(wo), Angle(wc)) == Some(Span(a, b, c, c + |Angle(wc)|))
  {
    FirstTagAt(s, 0, xs, wo, wo', a);
    FirstTagAt(s, b, mid, wc, wc', c);
    SearchFound(s, Angle(wo), Angle(wc), a, c);
  }

  /** Words that fold alike have the same length. */
  lemma SameTagLength(w: string, w': string)
    requires SameTag(w, w')
    ensures |w| == |w'|
  {
    assert |FoldSeq(w)| == |FoldSeq(w')|;
  }

  /**
   * The block search on rendered pieces `xs <wo'> mid <wc'> ys`: when `xs`
   * holds no opening tag and `mid` no closing tag, the match is exactly the
   * written block.
   */
  lemma SearchPieces(xs: seq<Piece>, wo: string, wo': string, mid: seq<Piece>,
                     wc: string, wc': string, ys: seq<Piece>)
    requires WellFormed(xs) && WellFormed(mid)
    requires TagWord(wo) && TagWord(wc)
    requires SameTag(wo, wo') && SameTag(wc, wc')
    requires Absent(xs, wo) && Absent(mid, wc)
    ensures
      var s := Render(xs + [Tag(wo')] + mid + [Tag(wc')] + ys);
      var a := |Render(xs)|;
      var b := a + |Angle(wo)|;
      var c := b + |Render(mid)|;
      Search(s, Angle(wo), Angle(wc)) == Some(Span(a, b, c, c + |Angle(wc)|))
  {
    var s := Render(xs + [Tag(wo')] + mid + [Tag(wc')] + ys);
    SameTagLength(wo, wo');
    SameTagLength(wc, wc');
    var a := |Render(xs)|;
    var b := a + |Angle(wo)|;
    var c := b + |Render(mid)|;
    PiecesOccur(xs, wo', mid, wc', ys, a, b, c, c + |Angle(wc)|);
    SearchOccurs(s, xs, wo, wo', mid, wc, wc', a, b, c);
  }

  /** The parts of `xs <o> mid <c> ys`, each written at its offset in the rendering. */
  lemma PiecesOccur(xs: seq<Piece>, o: string, mid: seq<Piece>, c: string, ys: seq<Piece>,
                    a: nat, b: nat, e: nat, d: nat)
    requires a == |Render(xs)| && b == a + |Angle(o)| && e == b + |Render(mid)|
    requires d == e + |Angle(c)|
    ensures
      var s := Render(xs + [Tag(o)] + mid + [Tag(c)] + ys);
      && Occurs(s, 0, Render(xs)) && Occurs(s, a, Angle(o)) && Occurs(s, b, Render(mid))
      && Occurs(s, e, Angle(c)) && Occurs(s, d, Render(ys)) && |s| == d + |Render(ys)|
  {
    RenderBlock(xs, o, mid, c, ys);
    OccursFive(Render(xs + [Tag(o)] + mid + [Tag(c)] + ys),
      Render(xs), Angle(o), Render(mid), Angle(c), Render(ys), a, b, e, d);
  }

  /** Removing every block from `xs <wo'> mid <wc'> ys` leaves `xs ys` when `ys` opens none. */
  lemma SubAllPieces(xs: seq<Piece>, wo: string, wo': string, mid: seq<Piece>,
                     wc: string, wc': string, ys: seq<Piece>)
    requires WellFormed(xs) && WellFormed(mid) && WellFormed(ys)
    requires TagWord(wo) && TagWord(wc)
    requires SameTag(wo, wo') && SameTag(wc, wc')
    requires Absent(xs, wo) && Absent(mid, wc) && Absent(ys, wo)
    ensures SubAll(Render(xs + [Tag(wo')] + mid + [Tag(wc')] + ys), Angle(wo), Angle(wc))
      == Render(xs) + Render(ys)
  {
    var s := Render(xs + [Tag(wo')] + mid + [Tag(wc')] + ys);
    SameTagLength(wo, wo');
    SameTagLength(wc, wc');
    var a := |Render(xs)|;
    var b := a + |Angle(wo)|;
    var c := b + |Render(mid)|;
    var d := c + |Angle(wc)|;
    PiecesOccur(xs, wo', mid, wc', ys, a, b, c, d);
    SearchOccurs(s, xs, wo, wo', mid, wc, wc', a, b, c);
    SubAllTail(s, ys, wo, wc, Span(a, b, c, d), Render(xs));
  }

  /** `re.sub` on a string whose first block is followed by pieces that open none. */
  lemma SubAllTail(s: string, ys: seq<Piece>, wo: string, wc: string, sp: Span, before: string)
    requires WellFormed(ys) && TagWord(wo) && Absent(ys, wo)
    requires Search(s, Angle(wo), Angle(wc)) == Some(sp)
    requires sp.start == |before| && Occurs(s, 0, before)
    requires Occurs(s, sp.end, Render(ys)) && |s| == sp.end + |Render(ys)|
    ensures SubAll(s, Angle(wo), Angle(wc)) == before + Render(ys)
  {
    NoTagNoMatch(ys, wo);
    SubAllSplit(s, Angle(wo), Angle(wc), sp, before, Render(ys));
  }

  /**
   * In `xs <wo'> mid <wc'> ys`, the first block of `<wo>...<wc>` is found and
   * its body is the rendering of `mid`.
   */
  lemma FirstBlockBody(xs: seq<Piece>, wo: string, wo': string, mid: seq<Piece>,
                       wc: string, wc': string, ys: seq<Piece>)
    requires WellFormed(xs) && WellFormed(mid)
    requires TagWord(wo) && TagWord(wc)
    requires SameTag(wo, wo') && SameTag(wc, wc')
    requires Absent(xs, wo) && Absent(mid, wc)
    ensures Search(Render(xs + [Tag(wo')] + mid + [Tag(wc')] + ys), Angle(wo), Angle(wc)).Some?
    ensures var s := Render(xs + [Tag(wo')] + mid + [Tag(wc')] + ys);
      var sp := Search(s, Angle(wo), Angle(wc)).value;
      sp.bodyStart <= sp.bodyEnd <= |s| && s[sp.bodyStart..sp.bodyEnd] == Render(mid)
  {
    var s := Render(xs + [Tag(wo')] + mid + [Tag(wc')] + ys);
    SameTagLength(wo, wo');
    SameTagLength(wc, wc');
    var a := |Render(xs)|;
    var b := a + |Angle(wo)|;
    var c := b + |Render(mid)|;
    PiecesOccur(xs, wo', mid, wc', ys, a, b, c, c + |Angle(wc)|);
    SearchOccurs(s, xs, wo, wo', mid, wc, wc', a, b, c);
    OccursSlice(s, b, Render(mid));
  }
}
