/**
 * The manual submission form: every field is required, the error reply
 * names each blank field, and a complete form is saved with the headline in
 * bold in front of the entry text.
 */
module Manual {
  import opened Text
  import opened NewsStore

  /** The request body of `add_manual`. */
  datatype ManualItem = ManualItem(name: string, url: string, headline: string, entry: string, reason: string)

  /** The form's fields, the keys of the error dictionary. */
  datatype FieldName = Name | Url | Headline | Entry | Reason

  /** The key a field is reported under in the error reply. */
  function Key(f: FieldName): string
  {
    match f
    case Name => "name"
    case Url => "url"
    case Headline => "headline"
    case Entry => "entry"
    case Reason => "reason"
  }

  function Message(f: FieldName): string
  {
    match f
    case Name => "Please enter your name."
    case Url => "Please enter a URL."
    case Headline => "Please enter a headline."
    case Entry => "Please enter the entry text."
    case Reason => "Please enter a reason for adding this item."
  }

  function Value(b: ManualItem, f: FieldName): string
  {
    match f
    case Name => b.name
    case Url => b.url
    case Headline => b.headline
    case Entry => b.entry
    case Reason => b.reason
  }

  /** `not value.strip()`: the field's value is all whitespace. */
  predicate Blank(b: ManualItem, f: FieldName)
  {
    AllWs(Value(b, f))
  }

  /** One check of the form: a blank field is added with its message. */
  function Check(errors: map<FieldName, string>, b: ManualItem, f: FieldName): map<FieldName, string>
  {
    if Blank(b, f) then errors[f := Message(f)] else errors
  }

  /** The errors reported once the fields in `done` have been checked. */
  function Reported(b: ManualItem, done: seq<FieldName>): map<FieldName, string>
  {
    map f | f in done && Blank(b, f) :: Message(f)
  }

  /** The fields in the order the endpoint checks them. */
  const CheckOrder: seq<FieldName> := [Name, Url, Headline, Entry, Reason]

  /**
   * The error dictionary of a form: it names exactly the blank fields, each
   * with its own message.
   */
  function Errors(b: ManualItem): (e: map<FieldName, string>)
    ensures forall f :: f in e <==> Blank(b, f)
    ensures forall f :: f in e ==> e[f] == Message(f)
  {
    FieldsListed();
    Reported(b, CheckOrder)
  }

  /** The form has no field besides these five. */
  lemma FieldsListed()
    ensures forall f :: f in CheckOrder
  {
    forall f ensures f in CheckOrder {
      match f
      case Name =>
      case Url =>
      case Headline =>
      case Entry =>
      case Reason =>
    }
  }

  /** Checking one more field extends the report by that field alone. */
  lemma CheckStep(b: ManualItem, done: seq<FieldName>, f: FieldName)
    ensures Check(Reported(b, done), b, f) == Reported(b, done + [f])
  {
  }

  /** `if not value.strip(): errors[key] = message`. */
  method Require(errors: map<FieldName, string>, b: ManualItem, f: FieldName)
    returns (errors': map<FieldName, string>)
    ensures errors' == Check(errors, b, f)
  {
    errors' := errors;
    if Strip(Value(b, f)) == "" {
      errors' := errors'[f := Message(f)];
    }
  }

  /** The validation at the top of `add_manual`: one check per field, in the endpoint's order. */
  method ValidateManual(b: ManualItem) returns (errors: map<FieldName, string>)
    ensures errors == Errors(b)
  {
    errors := map[];
    assert errors == Reported(b, []);
    errors := Require(errors, b, Name);
    CheckStep(b, [], Name);
    errors := Require(errors, b, Url);
    CheckStep(b, [Name], Url);
    errors := Require(errors, b, Headline);
    CheckStep(b, [Name, Url], Headline);
    errors := Require(errors, b, Entry);
    CheckStep(b, [Name, Url, Headline], Entry);
    errors := Require(errors, b, Reason);
    CheckStep(b, [Name, Url, Headline, Entry], Reason);
    assert [] + [Name] == [Name] && [Name] + [Url] == [Name, Url] && [Name, Url] + [Headline] == [Name, Url, Headline];
    assert [Name, Url, Headline] + [Entry] == [Name, Url, Headline, Entry];
    assert [Name, Url, Headline, Entry] + [Reason] == CheckOrder;
  }

  /** The reported keys are the five distinct names of the form's fields. */
  lemma KeysDistinct(f: FieldName, g: FieldName)
    requires f != g
    ensures Key(f) != Key(g)
  {
    assert |Key(Name)| == 4 && |Key(Url)| == 3 && |Key(Headline)| == 8;
    assert |Key(Entry)| == 5 && |Key(Reason)| == 6;
  }

  /** The composed text is already stripped, so the save keeps it exactly. */
  lemma AgreedStripped(b: ManualItem)
    requires !AllWs(b.entry)
    ensures Strip(AgreedText(b)) == AgreedText(b)
  {
    var agreed := AgreedText(b);
    assert agreed[0] == '*';
    assert agreed[|agreed| - 1] == Strip(b.entry)[|Strip(b.entry)| - 1];
    StripOfTrimmed(agreed);
  }

  /** `**{headline}** {entry}`, both stripped. */
  function AgreedText(b: ManualItem): string
  {
    "**" + Strip(b.headline) + "** " + Strip(b.entry)
  }

  /** How `add_manual` answers: 422 with the error dictionary, or the saved row. */
  datatype ManualReply = Invalid(errors: map<FieldName, string>) | Saved(item: Row)

  datatype ManualOutcome = ManualOutcome(table: Table, reply: ManualReply)

  function AddManualSpec(t: Table, b: ManualItem, now: string): ManualOutcome
  {
    var errors := Errors(b);
    if errors != map[] then ManualOutcome(t, Invalid(errors))
    else
      var agreed := AgreedText(b);
      ManualOutcome(Insert(t, Strip(b.name), Strip(b.url), Strip(b.reason), agreed, now),
                    Saved(NewRow(t, Strip(b.name), Strip(b.url), Strip(b.reason), agreed, now)))
  }

  /**
   * A form with any blank field is refused with the table unchanged and the
   * error dictionary `Errors`. A complete form adds
   * one row holding the stripped name, address and reason, and as its text
   * exactly the bold headline followed by the entry.
   */
  lemma AddManualOutcome(t: Table, b: ManualItem, now: string)
    requires TableOk(t)
    ensures var out := AddManualSpec(t, b, now);
      && (out.reply.Invalid? <==> exists f :: Blank(b, f))
      && (out.reply.Invalid? ==> out.table == t && out.reply.errors == Errors(b))
      && (out.reply.Saved? ==>
        && TableOk(out.table)
        && out.reply.item.id == t.nextId && out.reply.item.id !in t.rows
        && out.table.rows == t.rows[t.nextId := out.reply.item]
        && out.reply.item.submitterName == Strip(b.name)
        && out.reply.item.url == Strip(b.url)
        && out.reply.item.reason == Strip(b.reason)
        && out.reply.item.agreedText == "**" + Strip(b.headline) + "** " + Strip(b.entry))
  {
    var errors := Errors(b);
    if errors == map[] {
      assert forall f :: !Blank(b, f) by {
        forall f ensures !Blank(b, f) {
          assert f !in errors;
        }
      }
      assert !Blank(b, Entry);
      AgreedStripped(b);
      InsertSpec(t, Strip(b.name), Strip(b.url), Strip(b.reason), AgreedText(b), now);
      StripIdempotent(b.name);
      StripIdempotent(b.url);
      StripIdempotent(b.reason);
    } else {
      var k :| k in errors;
    }
  }

  /** `add_manual` over the news table. */
  method AddManual(db: NewsTable, b: ManualItem, now: string) returns (reply: ManualReply)
    requires db.Valid()
    modifies db
    ensures db.Valid()
    ensures ManualOutcome(db.View(), reply) == AddManualSpec(old(db.View()), b, now)
  {
    var errors := ValidateManual(b);
    if errors != map[] {
      return Invalid(errors);
    }
    var agreed := "**" + Strip(b.headline) + "** " + Strip(b.entry);
    var row := db.Save(Strip(b.name), Strip(b.url), Strip(b.reason), agreed, now);
    return Saved(row);
  }
}
