/**
 * The two tag parsers applied to a model reply. Each looks for the first
 * `<SAVE_ITEM>...</SAVE_ITEM>` (or `<UPDATE_ITEM>...</UPDATE_ITEM>`) block,
 * tags matched without regard to ASCII case, pulls the stripped sub-fields out
 * of its body, and removes every such block from the reply. The text work is
 * pure; the one store call a complete block leads to is made by the methods
 * at the end.
 */
module TagParser {
  import opened Wrappers
  import opened Text
  import opened Decimal
  import opened Regex
  import opened Markup
  import opened NewsStore

  const SaveTag := "SAVE_ITEM"
  const UpdateTag := "UPDATE_ITEM"

  function Close(w: string): string
  {
    "/" + w
  }

  /** `re.search(rf"<{tag}>(.*?)</{tag}>", block, ...)`, stripped; "" when there is no match. */
  function Extract(block: string, tag: string): string
  {
    SearchSpec(block, Angle(tag), Angle(Close(tag)));
    match Search(block, Angle(tag), Angle(Close(tag)))
    case None => ""
    case Some(sp) => Strip(block[sp.bodyStart..sp.bodyEnd])
  }

  /** The body of the first outer block, when there is one. */
  function FirstBody(text: string, tag: string): Option<string>
  {
    SearchSpec(text, Angle(tag), Angle(Close(tag)));
    match Search(text, Angle(tag), Angle(Close(tag)))
    case None => None
    case Some(sp) => Some(text[sp.bodyStart..sp.bodyEnd])
  }

  /** The reply with every outer block removed, then stripped. */
  function Cleaned(text: string, tag: string): string
  {
    Strip(SubAll(text, Angle(tag), Angle(Close(tag))))
  }

  datatype SaveFields = SaveFields(name: string, url: string, reason: string, agreedText: string)

  datatype UpdateFields = UpdateFields(id: int, name: string, url: string, reason: string, agreedText: string)

  /** The text `_parse_save_tag` returns, and the `save_news_item` arguments when it calls the store. */
  datatype SaveOutcome = SaveOutcome(text: string, call: Option<SaveFields>)

  /** The text `_parse_update_tag` returns, and the `update_news_item` arguments when it calls the store. */
  datatype UpdateOutcome = UpdateOutcome(text: string, call: Option<UpdateFields>)

  function SaveFieldsOf(block: string): SaveFields
  {
    SaveFields(Extract(block, "name"), Extract(block, "url"), Extract(block, "reason"),
               Extract(block, "agreed_text"))
  }

  predicate SaveComplete(f: SaveFields)
  {
    f.name != "" && f.url != "" && f.reason != "" && f.agreedText != ""
  }

  function ParseSave(text: string): SaveOutcome
  {
    match FirstBody(text, SaveTag)
    case None => SaveOutcome(text, None)
    case Some(block) =>
      var f := SaveFieldsOf(block);
      SaveOutcome(Cleaned(text, SaveTag), if SaveComplete(f) then Some(f) else None)
  }

  function ParseUpdate(text: string): UpdateOutcome
  {
    match FirstBody(text, UpdateTag)
    case None => UpdateOutcome(text, None)
    case Some(block) =>
      var idText := Extract(block, "id");
      var f := SaveFieldsOf(block);
      var cleaned := Cleaned(text, UpdateTag);
      if idText == "" || !SaveComplete(f) then UpdateOutcome(cleaned, None)
      else
        match ParseInt(idText)
        case None => UpdateOutcome(cleaned, None)
        case Some(id) => UpdateOutcome(cleaned, Some(UpdateFields(id, f.name, f.url, f.reason, f.agreedText)))
  }

  /**
   * With no block the reply comes back as it was, not even stripped, and the
   * store is not called. With a block, every block is removed and the rest
   * stripped, and the store is called only with four non-empty fields taken
   * from the first block.
   */
  lemma ParseSaveSpec(text: string)
    ensures var r := ParseSave(text);
      && ((forall i: nat, j: nat :: !IsBlock(text, Angle(SaveTag), Angle(Close(SaveTag)), i, j)) ==>
        r == SaveOutcome(text, None))
      && (FirstBody(text, SaveTag).Some? ==>
        && r.text == Cleaned(text, SaveTag)
        && Strip(r.text) == r.text
        && (r.call.Some? <==> SaveComplete(SaveFieldsOf(FirstBody(text, SaveTag).value)))
        && (r.call.Some? ==> r.call.value == SaveFieldsOf(FirstBody(text, SaveTag).value)))
      && (r.call.Some? ==> SaveComplete(r.call.value))
  {
    SearchSpec(text, Angle(SaveTag), Angle(Close(SaveTag)));
    StripIdempotent(SubAll(text, Angle(SaveTag), Angle(Close(SaveTag))));
  }

  /**
   * The update parser likewise, where a call also needs an `id` field that
   * `int()` accepts.
   */
  lemma ParseUpdateSpec(text: string)
    ensures var r := ParseUpdate(text);
      && ((forall i: nat, j: nat :: !IsBlock(text, Angle(UpdateTag), Angle(Close(UpdateTag)), i, j)) ==>
        r == UpdateOutcome(text, None))
      && (FirstBody(text, UpdateTag).Some? ==>
        var block := FirstBody(text, UpdateTag).value;
        var f := SaveFieldsOf(block);
        && r.text == Cleaned(text, UpdateTag)
        && Strip(r.text) == r.text
        && (r.call.Some? <==> SaveComplete(f) && ParseInt(Extract(block, "id")).Some?)
        && (r.call.Some? ==>
          r.call.value == UpdateFields(ParseInt(Extract(block, "id")).value, f.name, f.url, f.reason, f.agreedText)))
  {
    SearchSpec(text, Angle(UpdateTag), Angle(Close(UpdateTag)));
    StripIdempotent(SubAll(text, Angle(UpdateTag), Angle(Close(UpdateTag))));
    var block := FirstBody(text, UpdateTag);
    if block.Some? {
      var idText := Extract(block.value, "id");
      if idText == "" {
        // `int("")` raises as well
        assert ParseInt(idText).None?;
      }
    }
  }

  // ----- round trips -----

  /** `<tag>value</tag>`. */
  function Field(tag: string, value: string): seq<Piece>
  {
    [Tag(tag), Txt(value), Tag(Close(tag))]
  }

  /** A well-formed field pulled out of pieces that hold no earlier `<tag>` gives back its stripped value. */
  lemma ExtractField(xs: seq<Piece>, tag: string, value: string, ys: seq<Piece>)
    requires WellFormed(xs) && TagWord(tag) && Absent(xs, tag) && NoAngle(value)
    ensures Extract(Render(xs + Field(tag, value) + ys), tag) == Strip(value)
  {
    var mid := [Txt(value)];
    assert xs + Field(tag, value) + ys == xs + [Tag(tag)] + mid + [Tag(Close(tag))] + ys;
    assert WellFormed(mid) by {
      assert PieceOk(mid[0]);
    }
    assert TagWord(Close(tag)) by {
      assert forall k :: 1 <= k < |Close(tag)| ==> Close(tag)[k] == tag[k - 1];
    }
    FirstBlockBody(xs, tag, tag, mid, Close(tag), Close(tag), ys);
    assert Render(mid) == value;
  }

  /**
   * A block body as the system prompt lays it out: each `(tag, value)` field
   * as `<tag>value</tag>`, with `gap` (such as a newline) before, between and
   * after the fields.
   */
  function Layout(fs: seq<(string, string)>, gap: string): seq<Piece>
    decreases |fs|
  {
    if fs == [] then [Txt(gap)]
    else [Txt(gap)] + Field(fs[0].0, fs[0].1) + Layout(fs[1..], gap)
  }

  /** The fields of a `SAVE_ITEM` block, in the order the system prompt asks for. */
  function SaveLayout(f: SaveFields): seq<(string, string)>
  {
    [("name", f.name), ("url", f.url), ("reason", f.reason), ("agreed_text", f.agreedText)]
  }

  /** The fields of an `UPDATE_ITEM` block: `id` first, then those of a save. */
  function UpdateLayout(idText: string, f: SaveFields): seq<(string, string)>
  {
    [("id", idText)] + SaveLayout(f)
  }

  /** Tag words without angle brackets and values and gaps without `<`. */
  predicate PlainLayout(fs: seq<(string, string)>, gap: string)
  {
    NoAngle(gap) && forall i :: 0 <= i < |fs| ==> TagWord(fs[i].0) && NoAngle(fs[i].1)
  }

  /** Neither tag of the field `w` can be taken for `<w'>`. */
  predicate Apart(w: string, w': string)
  {
    !SameTag(w, w') && !SameTag(Close(w), w')
  }

  predicate PlainFields(f: SaveFields)
  {
    NoAngle(f.name) && NoAngle(f.url) && NoAngle(f.reason) && NoAngle(f.agreedText)
  }

  function Stripped(f: SaveFields): SaveFields
  {
    SaveFields(Strip(f.name), Strip(f.url), Strip(f.reason), Strip(f.agreedText))
  }

  lemma CloseWord(tag: string)
    requires TagWord(tag)
    ensures TagWord(Close(tag))
  {
    assert forall k :: 1 <= k < |Close(tag)| ==> Close(tag)[k] == tag[k - 1];
  }

  lemma FieldOk(tag: string, value: string)
    requires TagWord(tag) && NoAngle(value)
    ensures WellFormed(Field(tag, value))
  {
    CloseWord(tag);
    var p := Field(tag, value);
    assert PieceOk(p[0]) && PieceOk(p[1]) && PieceOk(p[2]);
  }

  lemma FieldAbsent(tag: string, value: string, w: string)
    requires Apart(tag, w)
    ensures Absent(Field(tag, value), w)
  {
    var p := Field(tag, value);
    assert NotTag(p[0], w) && NotTag(p[1], w) && NotTag(p[2], w);
  }

  lemma GapOk(gap: string, w: string)
    requires NoAngle(gap)
    ensures WellFormed([Txt(gap)]) && Absent([Txt(gap)], w)
  {
    assert PieceOk([Txt(gap)][0]) && NotTag([Txt(gap)][0], w);
  }

  lemma WellFormedAppend(a: seq<Piece>, b: seq<Piece>)
    requires WellFormed(a) && WellFormed(b)
    ensures WellFormed(a + b)
  {
    forall k | 0 <= k < |a + b| ensures PieceOk((a + b)[k]) {
      if k < |a| {
        assert (a + b)[k] == a[k];
      } else {
        assert (a + b)[k] == b[k - |a|];
      }
    }
  }

  lemma AbsentAppend(a: seq<Piece>, b: seq<Piece>, w: string)
    requires Absent(a, w) && Absent(b, w)
    ensures Absent(a + b, w)
  {
    forall k | 0 <= k < |a + b| ensures NotTag((a + b)[k], w) {
      if k < |a| {
        assert (a + b)[k] == a[k];
      } else {
        assert (a + b)[k] == b[k - |a|];
      }
    }
  }

  lemma PlainTail(fs: seq<(string, string)>, gap: string)
    requires fs != [] && PlainLayout(fs, gap)
    ensures PlainLayout(fs[1..], gap)
  {
    forall i | 0 <= i < |fs| - 1 ensures TagWord(fs[1..][i].0) && NoAngle(fs[1..][i].1) {
      assert fs[1..][i] == fs[i + 1];
    }
  }

  lemma {:induction false} LayoutWellFormed(fs: seq<(string, string)>, gap: string)
    requires PlainLayout(fs, gap)
    ensures WellFormed(Layout(fs, gap))
    decreases |fs|
  {
    GapOk(gap, "");
    if fs != [] {
      var f := Field(fs[0].0, fs[0].1);
      FieldOk(fs[0].0, fs[0].1);
      PlainTail(fs, gap);
      LayoutWellFormed(fs[1..], gap);
      WellFormedAppend([Txt(gap)], f);
      WellFormedAppend([Txt(gap)] + f, Layout(fs[1..], gap));
    }
  }

  lemma {:induction false} LayoutAbsent(fs: seq<(string, string)>, gap: string, w: string)
    requires NoAngle(gap)
    requires forall i :: 0 <= i < |fs| ==> Apart(fs[i].0, w)
    ensures Absent(Layout(fs, gap), w)
    decreases |fs|
  {
    GapOk(gap, w);
    if fs != [] {
      var f := Field(fs[0].0, fs[0].1);
      FieldAbsent(fs[0].0, fs[0].1, w);
      assert forall i :: 0 <= i < |fs| - 1 ==> fs[1..][i] == fs[i + 1];
      LayoutAbsent(fs[1..], gap, w);
      AbsentAppend([Txt(gap)], f, w);
      AbsentAppend([Txt(gap)] + f, Layout(fs[1..], gap), w);
    }
  }

  /**
   * Field `j` of a laid-out body is read back, stripped, when no tag before it
   * can be taken for its opening tag.
   */
  lemma {:induction false} LayoutRead(pre: seq<Piece>, fs: seq<(string, string)>, gap: string, j: nat)
    requires j < |fs| && PlainLayout(fs, gap) && WellFormed(pre) && Absent(pre, fs[j].0)
    requires forall i :: 0 <= i < j ==> Apart(fs[i].0, fs[j].0)
    ensures Extract(Render(pre + Layout(fs, gap)), fs[j].0) == Strip(fs[j].1)
    decreases j
  {
    var g := [Txt(gap)];
    var f := Field(fs[0].0, fs[0].1);
    var rest := Layout(fs[1..], gap);
    GapOk(gap, fs[j].0);
    FieldOk(fs[0].0, fs[0].1);
    WellFormedAppend(pre, g);
    AbsentAppend(pre, g, fs[j].0);
    assert pre + Layout(fs, gap) == (pre + g) + f + rest;
    if j == 0 {
      ExtractField(pre + g, fs[0].0, fs[0].1, rest);
    } else {
      var pre' := pre + g + f;
      WellFormedAppend(pre + g, f);
      FieldAbsent(fs[0].0, fs[0].1, fs[j].0);
      AbsentAppend(pre + g, f, fs[j].0);
      assert pre + Layout(fs, gap) == pre' + rest;
      PlainTail(fs, gap);
      assert forall i :: 0 <= i < |fs| - 1 ==> fs[1..][i] == fs[i + 1];
      LayoutRead(pre', fs[1..], gap, j - 1);
    }
  }

  /** No field's tags can be taken for the opening tag of a later field. */
  predicate Distinct(fs: seq<(string, string)>)
  {
    forall i, j :: 0 <= i < j < |fs| ==> Apart(fs[i].0, fs[j].0)
  }

  /** Every field of a laid-out body is read back, stripped. */
  lemma LayoutReadAll(pre: seq<Piece>, fs: seq<(string, string)>, gap: string)
    requires PlainLayout(fs, gap) && Distinct(fs) && WellFormed(pre)
    requires forall j :: 0 <= j < |fs| ==> Absent(pre, fs[j].0)
    ensures forall j :: 0 <= j < |fs| ==>
      Extract(Render(pre + Layout(fs, gap)), fs[j].0) == Strip(fs[j].1)
  {
    forall j | 0 <= j < |fs| ensures Extract(Render(pre + Layout(fs, gap)), fs[j].0) == Strip(fs[j].1) {
      LayoutRead(pre, fs, gap, j);
    }
  }

  /** The field words of a save block are told apart, and from the closing block tag `w`. */
  lemma SaveWordsApart(w: string)
    requires w == "/SAVE_ITEM" || w == "/UPDATE_ITEM"
    ensures Apart("name", "url")
    ensures Apart("name", "reason") && Apart("url", "reason")
    ensures Apart("name", "agreed_text") && Apart("url", "agreed_text") && Apart("reason", "agreed_text")
    ensures Apart("name", w) && Apart("url", w) && Apart("reason", w) && Apart("agreed_text", w)
  {
    assert FoldSeq("/agreed_text")[1] != FoldSeq("/UPDATE_ITEM")[1];
  }

  /** The `id` word is told apart from the others. */
  lemma IdWordApart()
    ensures Apart("id", "name") && Apart("id", "url") && Apart("id", "reason")
    ensures Apart("id", "agreed_text") && Apart("id", "/UPDATE_ITEM")
  {
    assert FoldSeq("/id")[0] != FoldSeq("url")[0];
  }

  lemma SaveLayoutPlain(f: SaveFields, gap: string)
    requires PlainFields(f) && NoAngle(gap)
    ensures PlainLayout(SaveLayout(f), gap) && Distinct(SaveLayout(f))
  {
    SaveWordsApart("/SAVE_ITEM");
  }

  lemma UpdateLayoutPlain(idText: string, f: SaveFields, gap: string)
    requires PlainFields(f) && NoAngle(idText) && NoAngle(gap)
    ensures PlainLayout(UpdateLayout(idText, f), gap)
  {
    var fs := UpdateLayout(idText, f);
    assert fs[0] == ("id", idText);
    assert fs[1..] == SaveLayout(f);
  }

  /** Whatever the field values, none of a block's field tags can close the block. */
  lemma LayoutCloses(idText: string, f: SaveFields)
    ensures forall i :: 0 <= i < 4 ==> Apart(SaveLayout(f)[i].0, Close(SaveTag))
    ensures forall i :: 0 <= i < 5 ==> Apart(UpdateLayout(idText, f)[i].0, Close(UpdateTag))
  {
    SaveWordsApart("/SAVE_ITEM");
    SaveWordsApart("/UPDATE_ITEM");
    IdWordApart();
  }

  /** The four fields of a laid-out save body are read back, stripped. */
  lemma SaveBodyFields(pre: seq<Piece>, f: SaveFields, gap: string)
    requires PlainFields(f) && NoAngle(gap) && WellFormed(pre)
    requires Absent(pre, "name") && Absent(pre, "url") && Absent(pre, "reason") && Absent(pre, "agreed_text")
    ensures SaveFieldsOf(Render(pre + Layout(SaveLayout(f), gap))) == Stripped(f)
  {
    var fs := SaveLayout(f);
    SaveLayoutPlain(f, gap);
    LayoutReadAll(pre, fs, gap);
    assert fs[0] == ("name", f.name) && fs[1] == ("url", f.url);
    assert fs[2] == ("reason", f.reason) && fs[3] == ("agreed_text", f.agreedText);
  }

  /** The `id` and the four fields of a laid-out update body are read back, stripped. */
  lemma UpdateBodyFields(idText: string, f: SaveFields, gap: string)
    requires PlainFields(f) && NoAngle(idText) && NoAngle(gap)
    ensures var block := Render(Layout(UpdateLayout(idText, f), gap));
      Extract(block, "id") == Strip(idText) && SaveFieldsOf(block) == Stripped(f)
  {
    var fs := UpdateLayout(idText, f);
    var none: seq<Piece> := [];
    assert none + Layout(fs, gap) == Layout(fs, gap);
    UpdateLayoutPlain(idText, f, gap);
    LayoutRead(none, fs, gap, 0);
    var pre := [Txt(gap)] + Field("id", idText);
    assert fs[1..] == SaveLayout(f);
    assert Layout(fs, gap) == pre + Layout(SaveLayout(f), gap);
    IdWordApart();
    GapOk(gap, "");
    FieldOk("id", idText);
    WellFormedAppend([Txt(gap)], Field("id", idText));
    IdPrefixAbsent(gap, idText, "name");
    IdPrefixAbsent(gap, idText, "url");
    IdPrefixAbsent(gap, idText, "reason");
    IdPrefixAbsent(gap, idText, "agreed_text");
    SaveBodyFields(pre, f, gap);
  }

  lemma IdPrefixAbsent(gap: string, idText: string, w: string)
    requires NoAngle(gap) && Apart("id", w)
    ensures Absent([Txt(gap)] + Field("id", idText), w)
  {
    GapOk(gap, w);
    FieldAbsent("id", idText, w);
    AbsentAppend([Txt(gap)], Field("id", idText), w);
  }

  /**
   * A reply holding one laid-out block, whatever the case of its tags, between
   * text with no other opening tag of that kind: the first body found is the
   * block's, and removing blocks leaves the text around it, stripped.
   */
  lemma BlockRoundTrip(xs: seq<Piece>, tag: string, wo: string, fs: seq<(string, string)>, gap: string,
                       wc: string, ys: seq<Piece>)
    requires TagWord(tag) && PlainLayout(fs, gap)
    requires forall i :: 0 <= i < |fs| ==> Apart(fs[i].0, Close(tag))
    requires WellFormed(xs) && WellFormed(ys) && Absent(xs, tag) && Absent(ys, tag)
    requires SameTag(tag, wo) && SameTag(Close(tag), wc)
    ensures var s := Render(xs + [Tag(wo)] + Layout(fs, gap) + [Tag(wc)] + ys);
      FirstBody(s, tag) == Some(Render(Layout(fs, gap))) && Cleaned(s, tag) == Strip(Render(xs) + Render(ys))
  {
    var mid := Layout(fs, gap);
    LayoutWellFormed(fs, gap);
    LayoutAbsent(fs, gap, Close(tag));
    CloseWord(tag);
    FirstBlockBody(xs, tag, wo, mid, Close(tag), wc, ys);
    SubAllPieces(xs, tag, wo, mid, Close(tag), wc, ys);
  }

  /**
   * A reply holding one save block between text with no other opening save
   * tag: the block is read field by field, and the reply comes back without
   * it, stripped.
   */
  lemma SaveRoundTrip(xs: seq<Piece>, wo: string, f: SaveFields, gap: string, wc: string, ys: seq<Piece>)
    requires WellFormed(xs) && WellFormed(ys) && Absent(xs, SaveTag) && Absent(ys, SaveTag)
    requires SameTag(SaveTag, wo) && SameTag(Close(SaveTag), wc)
    requires PlainFields(f) && NoAngle(gap)
    ensures ParseSave(Render(xs + [Tag(wo)] + Layout(SaveLayout(f), gap) + [Tag(wc)] + ys))
      == SaveOutcome(Strip(Render(xs) + Render(ys)),
                     if SaveComplete(Stripped(f)) then Some(Stripped(f)) else None)
  {
    var mid := Layout(SaveLayout(f), gap);
    SaveLayoutPlain(f, gap);
    LayoutCloses("", f);
    BlockRoundTrip(xs, SaveTag, wo, SaveLayout(f), gap, wc, ys);
    var none: seq<Piece> := [];
    assert none + mid == mid;
    SaveBodyFields(none, f, gap);
  }

  /**
   * Text after the save block that neither starts nor ends with whitespace,
   * such as an update block, is still in what the save parser returns.
   */
  lemma SaveKeepsOutside(xs: seq<Piece>, wo: string, f: SaveFields, gap: string, wc: string, ys: seq<Piece>,
                         p: string, u: string, q: string)
    requires WellFormed(xs) && WellFormed(ys) && Absent(xs, SaveTag) && Absent(ys, SaveTag)
    requires SameTag(SaveTag, wo) && SameTag(Close(SaveTag), wc)
    requires PlainFields(f) && NoAngle(gap)
    requires Render(ys) == p + u + q && u != [] && !IsWs(u[0]) && !IsWs(u[|u| - 1])
    ensures var o := ParseSave(Render(xs + [Tag(wo)] + Layout(SaveLayout(f), gap) + [Tag(wc)] + ys));
      IsInfix(u, o.text) && (SaveComplete(Stripped(f)) ==> o.call == Some(Stripped(f)))
  {
    SaveRoundTrip(xs, wo, f, gap, wc, ys);
    var x, y := Render(xs), Render(ys);
    Regroup(x, y, p, u, q);
    StripKeepsInfix(x + y, x + p, u, q);
  }

  lemma Regroup(x: string, y: string, p: string, u: string, q: string)
    requires y == p + u + q
    ensures x + y == (x + p) + u + q
  {
  }

  /**
   * A reply holding one update block whose `id` is `str(i)`: the store is
   * asked to update row `i` exactly when the four other fields are complete.
   */
  lemma UpdateRoundTrip(xs: seq<Piece>, wo: string, i: int, f: SaveFields, gap: string, wc: string,
                        ys: seq<Piece>)
    requires WellFormed(xs) && WellFormed(ys) && Absent(xs, UpdateTag) && Absent(ys, UpdateTag)
    requires SameTag(UpdateTag, wo) && SameTag(Close(UpdateTag), wc)
    requires PlainFields(f) && NoAngle(gap)
    ensures var g := Stripped(f);
      ParseUpdate(Render(xs + [Tag(wo)] + Layout(UpdateLayout(IntToString(i), f), gap) + [Tag(wc)] + ys))
      == UpdateOutcome(Strip(Render(xs) + Render(ys)),
                       if SaveComplete(g) then Some(UpdateFields(i, g.name, g.url, g.reason, g.agreedText))
                       else None)
  {
    var idText := IntToString(i);
    IntToStringChars(i);
    UpdateLayoutPlain(idText, f, gap);
    LayoutCloses(idText, f);
    BlockRoundTrip(xs, UpdateTag, wo, UpdateLayout(idText, f), gap, wc, ys);
    UpdateBodyFields(idText, f, gap);
    IdOfIntToString(i);
  }

  /** The `id` text `str(i)` is already stripped, non-empty, and parses back to `i`. */
  lemma IdOfIntToString(i: int)
    ensures Strip(IntToString(i)) == IntToString(i) != ""
    ensures ParseInt(Strip(IntToString(i))) == Some(i)
  {
    ParseIntOfIntToString(i);
    if i < 0 {
      NegativeString(i);
    } else {
      NonNegativeString(i);
    }
  }

  // ----- the store call -----

  /** The table after the save parser: one insert when it calls the store. */
  function AfterSave(t: Table, o: SaveOutcome, now: string): Table
  {
    match o.call
    case None => t
    case Some(f) => Insert(t, f.name, f.url, f.reason, f.agreedText, now)
  }

  /** What the save parser returns beside the text: the inserted row, if any. */
  function SavedRow(t: Table, o: SaveOutcome, now: string): Option<Row>
  {
    match o.call
    case None => None
    case Some(f) => Some(NewRow(t, f.name, f.url, f.reason, f.agreedText, now))
  }

  /**
   * What the update parser leads to beside the text: no call, the updated
   * row, or the failure `dict(None)` raises when no row has the id.
   */
  datatype UpdateReply = NotCalled | Returned(row: Row) | Raised

  function AfterUpdate(t: Table, o: UpdateOutcome): Table
  {
    match o.call
    case None => t
    case Some(u) => Update(t, u.id, u.name, u.url, u.reason, u.agreedText)
  }

  function UpdateReplyOf(t: Table, o: UpdateOutcome): UpdateReply
  {
    match o.call
    case None => NotCalled
    case Some(u) =>
      match Updated(t, u.id, u.name, u.url, u.reason, u.agreedText)
      case None => Raised
      case Some(r) => Returned(r)
  }

  /**
   * A save call inserts exactly the first block's fields, which are already
   * stripped, so the stored row holds them as read; without a call the table
   * is unchanged.
   */
  lemma SaveEffectSpec(t: Table, text: string, now: string)
    requires TableOk(t)
    ensures var o := ParseSave(text);
      && TableOk(AfterSave(t, o, now))
      && (o.call.None? ==> AfterSave(t, o, now) == t && SavedRow(t, o, now).None?)
      && (o.call.Some? ==>
        var row := SavedRow(t, o, now).value;
        var f := o.call.value;
        && AfterSave(t, o, now).rows == t.rows[t.nextId := row]
        && row == Row(t.nextId, f.name, f.url, f.reason, f.agreedText, now, 0))
  {
    SaveCallStripped(text);
    AfterSaveSpec(t, ParseSave(text), now);
  }

  lemma AfterSaveSpec(t: Table, o: SaveOutcome, now: string)
    requires TableOk(t) && (o.call.Some? ==> Stripped(o.call.value) == o.call.value)
    ensures && TableOk(AfterSave(t, o, now))
      && (o.call.None? ==> AfterSave(t, o, now) == t && SavedRow(t, o, now).None?)
      && (o.call.Some? ==>
        var row := SavedRow(t, o, now).value;
        var f := o.call.value;
        && AfterSave(t, o, now).rows == t.rows[t.nextId := row]
        && row == Row(t.nextId, f.name, f.url, f.reason, f.agreedText, now, 0))
  {
    if o.call.Some? {
      var f := o.call.value;
      InsertSpec(t, f.name, f.url, f.reason, f.agreedText, now);
    }
  }

  /** The fields a save call carries are already stripped. */
  lemma SaveCallStripped(text: string)
    ensures ParseSave(text).call.Some? ==> Stripped(ParseSave(text).call.value) == ParseSave(text).call.value
  {
    var b := FirstBody(text, SaveTag);
    if b.Some? {
      ExtractStripped(b.value, "name");
      ExtractStripped(b.value, "url");
      ExtractStripped(b.value, "reason");
      ExtractStripped(b.value, "agreed_text");
    }
  }

  lemma ExtractStripped(block: string, tag: string)
    ensures Strip(Extract(block, tag)) == Extract(block, tag)
  {
    SearchSpec(block, Angle(tag), Angle(Close(tag)));
    match Search(block, Angle(tag), Angle(Close(tag)))
    case None =>
    case Some(sp) => StripIdempotent(block[sp.bodyStart..sp.bodyEnd]);
  }

  /**
   * An update call rewrites the row with the block's id, which then comes
   * back; when no row has that id the table is unchanged and the call fails.
   */
  lemma UpdateEffectSpec(t: Table, text: string)
    requires TableOk(t)
    ensures var o := ParseUpdate(text);
      var r := UpdateReplyOf(t, o);
      && TableOk(AfterUpdate(t, o))
      && (o.call.None? ==> AfterUpdate(t, o) == t && r == NotCalled)
      && (r == Raised <==> o.call.Some? && o.call.value.id !in t.rows)
      && (r == Raised ==> AfterUpdate(t, o) == t)
      && (r.Returned? ==>
        var u := o.call.value;
        && u.id in t.rows && r.row == AfterUpdate(t, o).rows[u.id]
        && r.row.submitterName == u.name && r.row.url == u.url
        && r.row.reason == u.reason && r.row.agreedText == u.agreedText)
  {
    var o := ParseUpdate(text);
    ParseUpdateSpec(text);
    if o.call.Some? {
      var u := o.call.value;
      var block := FirstBody(text, UpdateTag).value;
      ExtractStripped(block, "name");
      ExtractStripped(block, "url");
      ExtractStripped(block, "reason");
      ExtractStripped(block, "agreed_text");
      UpdateSpec(t, u.id, u.name, u.url, u.reason, u.agreedText);
    }
  }

  /** `_parse_save_tag`: the cleaned reply and the saved row, if any. */
  method ParseSaveTag(text: string, db: NewsTable, now: string) returns (cleaned: string, saved: Option<Row>)
    requires db.Valid()
    modifies db
    ensures db.Valid()
    ensures cleaned == ParseSave(text).text
    ensures db.View() == AfterSave(old(db.View()), ParseSave(text), now)
    ensures saved == SavedRow(old(db.View()), ParseSave(text), now)
  {
    var o := ParseSave(text);
    cleaned := o.text;
    if o.call.Some? {
      var f := o.call.value;
      var row := db.Save(f.name, f.url, f.reason, f.agreedText, now);
      saved := Some(row);
    } else {
      saved := None;
    }
  }

  /** `_parse_update_tag`: the cleaned reply and what the store call led to. */
  method ParseUpdateTag(text: string, db: NewsTable) returns (cleaned: string, reply: UpdateReply)
    requires db.Valid()
    modifies db
    ensures db.Valid()
    ensures cleaned == ParseUpdate(text).text
    ensures db.View() == AfterUpdate(old(db.View()), ParseUpdate(text))
    ensures reply == UpdateReplyOf(old(db.View()), ParseUpdate(text))
  {
    var o := ParseUpdate(text);
    cleaned := o.text;
    if o.call.Some? {
      var u := o.call.value;
      var row := db.UpdateItem(u.id, u.name, u.url, u.reason, u.agreedText);
      reply := if row.Some? then Returned(row.value) else Raised;
    } else {
      reply := NotCalled;
    }
  }

  /** What stripping and removing blocks leave was all in the text. */
  lemma CleanedChars(text: string, tag: string)
    ensures forall c :: c in Cleaned(text, tag) ==> c in text
  {
    var u := SubAll(text, Angle(tag), Angle(Close(tag)));
    SubAllChars(text, Angle(tag), Angle(Close(tag)));
    assert forall c :: c in Strip(u) ==> c in u;
  }

  /** Neither parser adds a character to the reply. */
  lemma ParsedChars(text: string)
    ensures forall c :: c in ParseSave(text).text ==> c in text
    ensures forall c :: c in ParseUpdate(text).text ==> c in text
  {
    CleanedChars(text, SaveTag);
    CleanedChars(text, UpdateTag);
  }
}
