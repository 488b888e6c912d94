/**
 * One turn of the chat endpoint: rate gate, session lookup, message check,
 * feed context, the model call, dash normalising, the two tag parsers and
 * the history write-back, in that order, over the rate table, the session
 * store and the news table.
 */
module ChatApp {
  import opened Wrappers
  import opened Text
  import opened NewsStore
  import opened RateLimit
  import opened SessionStore
  import opened FeedContext
  import opened Dashes
  import opened TagParser
  import opened Llm
  import opened Markup

  const SystemNote: string := "[SYSTEM NOTE — for assistant only, do not quote verbatim]"

  /** The address used when the request has no client: `"unknown"`. */
  function ClientIp(host: Option<string>): string
  {
    match host
    case None => "unknown"
    case Some(h) => h
  }

  /** The message sent to the model: the user's, with the feed context after it when asked for. */
  function Effective(userMessage: string, t: Table): string
  {
    if WantsFeed(userMessage) then
      userMessage + "\n\n" + SystemNote + "\n" + FeedText(GetFeed(t, FeedLimit, true))
    else userMessage
  }

  datatype World = World(gate: map<string, Entry>, sessions: Sessions, table: Table)

  /** How a turn ends: one of the HTTP errors, or the cleaned reply and the item written. */
  datatype Status =
    | TooManyRequests
    | EmptyMessage
    | LlmFailed
    | ServerError
    | Answered(response: string, item: Option<Row>)

  function StatusCode(s: Status): int
  {
    match s
    case TooManyRequests => 429
    case EmptyMessage => 400
    case LlmFailed => 502
    case ServerError => 500
    case Answered(_, _) => 200
  }

  datatype Outcome = Outcome(world: World, status: Status)

  /**
   * The two tag parsers on the normalised reply: the update parser runs on
   * what the save parser returned, and only when it saved nothing. `failed`
   * is the raised update of an absent id.
   */
  datatype Parsed = Parsed(table: Table, response: string, item: Option<Row>, failed: bool)

  function ParseReply(t: Table, raw: string, createdAt: string): Parsed
  {
    var o1 := ParseSave(raw);
    if o1.call.Some? then Parsed(AfterSave(t, o1, createdAt), o1.text, SavedRow(t, o1, createdAt), false)
    else
      var o2 := ParseUpdate(o1.text);
      match UpdateReplyOf(t, o2)
      case NotCalled => Parsed(t, o2.text, None, false)
      case Returned(r) => Parsed(AfterUpdate(t, o2), o2.text, Some(r), false)
      case Raised => Parsed(t, o2.text, None, true)
  }

  /**
   * `chat_endpoint` for a request from `ip` at clock reading `clock`, where
   * the model answers `reply` and the database stamps new rows `createdAt`.
   */
  function Turn(w: World, ip: string, sid: string, message: string, clock: real, reply: LlmResult,
                createdAt: string): Outcome
  {
    var v := Gate(w.gate, ip, clock);
    if !v.accepted then Outcome(w.(gate := v.entries), TooManyRequests)
    else
      var g := GetOrCreate(w.sessions, sid);
      AfterLookup(World(v.entries, g.sessions, w.table), Trim(g.history), sid, Strip(message), reply, createdAt)
  }

  /** The turn once the gate has let it in and the session has been looked up and its history trimmed. */
  function AfterLookup(w: World, history: History, sid: string, userMessage: string, reply: LlmResult,
                       createdAt: string): Outcome
  {
    if userMessage == "" then Outcome(w, EmptyMessage)
    else
      match reply
      case Failed => Outcome(w, LlmFailed)
      case Replied(text) => Respond(w, history, sid, Effective(userMessage, w.table), text, createdAt)
  }

  /** The turn once the model has replied `text` to `effective`. */
  function Respond(w: World, history: History, sid: string, effective: string, text: string,
                   createdAt: string): Outcome
  {
    var p := ParseReply(w.table, StripDashes(text), createdAt);
    if p.failed then Outcome(w, ServerError)
    else
      var stored := WithLastContent(Chat(history, effective, text), p.response);
      Outcome(w.(sessions := Put(w.sessions, sid, stored), table := p.table), Answered(p.response, p.item))
  }

  predicate WorldOk(w: World)
  {
    SessionsOk(w.sessions) && TableOk(w.table)
  }

  // ----- what a turn promises -----

  /** A request over the rate limit changes nothing and is answered 429. */
  lemma TurnRejected(w: World, ip: string, sid: string, message: string, clock: real, reply: LlmResult,
                     createdAt: string)
    requires !Gate(w.gate, ip, clock).accepted
    ensures Turn(w, ip, sid, message, clock, reply, createdAt) == Outcome(w, TooManyRequests)
  {
    GateSpec(w.gate, ip, clock);
  }

  /**
   * The rate check and the session lookup, eviction included, happen before
   * an empty message is turned away, and they stay done.
   */
  lemma EmptyMessageKeepsEffects(w: World, ip: string, sid: string, message: string, clock: real,
                                 reply: LlmResult, createdAt: string)
    requires WorldOk(w) && Gate(w.gate, ip, clock).accepted && AllWs(message)
    ensures var out := Turn(w, ip, sid, message, clock, reply, createdAt);
      && out.status == EmptyMessage
      && out.world.gate == Gate(w.gate, ip, clock).entries
      && out.world.sessions == GetOrCreate(w.sessions, sid).sessions
      && sid in out.world.sessions.hist
      && out.world.table == w.table
  {
    GetOrCreateSpec(w.sessions, sid);
  }

  /**
   * When the model call fails the session keeps the history it had before
   * the turn (empty when the turn created it), and the table is unchanged.
   */
  lemma LlmFailureKeepsHistory(w: World, ip: string, sid: string, message: string, clock: real,
                               createdAt: string)
    requires WorldOk(w) && Gate(w.gate, ip, clock).accepted && !AllWs(message)
    ensures var out := Turn(w, ip, sid, message, clock, Failed, createdAt);
      && out.status == LlmFailed
      && out.world.table == w.table
      && out.world.sessions == GetOrCreate(w.sessions, sid).sessions
      && sid in out.world.sessions.hist
      && out.world.sessions.hist[sid] == (if sid in w.sessions.hist then w.sessions.hist[sid] else [])
  {
    GetOrCreateSpec(w.sessions, sid);
  }

  /**
   * Writing back the reply: the session keeps its place and gets the
   * history sent, the message sent and the cleaned reply.
   */
  lemma RespondHistory(w: World, history: History, sid: string, effective: string, text: string,
                       createdAt: string)
    requires SessionsOk(w.sessions) && sid in w.sessions.hist
    requires Respond(w, history, sid, effective, text, createdAt).status.Answered?
    ensures var out := Respond(w, history, sid, effective, text, createdAt);
      && SessionsOk(out.world.sessions)
      && out.world.sessions.order == w.sessions.order
      && out.world.sessions.hist[sid] ==
        history + [Message("user", effective), Message("assistant", out.status.response)]
      && (forall k :: k in out.world.sessions.hist && k != sid ==>
            k in w.sessions.hist && out.world.sessions.hist[k] == w.sessions.hist[k])
  {
    var p := ParseReply(w.table, StripDashes(text), createdAt);
    StoredHistory(history, effective, text, p.response);
    var stored := WithLastContent(Chat(history, effective, text), p.response);
    assert stored == history + [Message("user", effective), Message("assistant", p.response)];
    PutOk(w.sessions, sid, stored);
  }

  /**
   * A successful turn stores, in the session's place, the trimmed history,
   * the message sent to the model and the cleaned reply; the other
   * sessions are as the lookup left them.
   */
  lemma AnsweredHistory(w: World, ip: string, sid: string, message: string, clock: real, reply: LlmResult,
                        createdAt: string)
    requires WorldOk(w)
    requires Turn(w, ip, sid, message, clock, reply, createdAt).status.Answered?
    ensures var out := Turn(w, ip, sid, message, clock, reply, createdAt);
      var g := GetOrCreate(w.sessions, sid);
      && reply.Replied?
      && SessionsOk(out.world.sessions)
      && out.world.sessions.order == g.sessions.order
      && out.world.sessions.hist[sid] ==
        Trim(g.history) + [Message("user", Effective(Strip(message), w.table)),
                           Message("assistant", out.status.response)]
      && |out.world.sessions.hist[sid]| <= MaxHistory + 2
      && (forall k :: k in out.world.sessions.hist && k != sid ==>
            k in g.sessions.hist && out.world.sessions.hist[k] == g.sessions.hist[k])
  {
    AnsweredShape(w, ip, sid, message, clock, reply, createdAt);
    var g := GetOrCreate(w.sessions, sid);
    GetOrCreateSpec(w.sessions, sid);
    var w1 := World(Gate(w.gate, ip, clock).entries, g.sessions, w.table);
    var effective := Effective(Strip(message), w.table);
    assert Turn(w, ip, sid, message, clock, reply, createdAt)
      == Respond(w1, Trim(g.history), sid, effective, reply.text, createdAt);
    RespondHistory(w1, Trim(g.history), sid, effective, reply.text, createdAt);
    TrimSpec(g.history);
  }

  /** A turn answers only after the gate, a non-blank message and a reply, with what the parsers gave. */
  lemma AnsweredShape(w: World, ip: string, sid: string, message: string, clock: real, reply: LlmResult,
                      createdAt: string)
    requires Turn(w, ip, sid, message, clock, reply, createdAt).status.Answered?
    ensures Gate(w.gate, ip, clock).accepted && Strip(message) != "" && reply.Replied?
    ensures var p := ParseReply(w.table, StripDashes(reply.text), createdAt);
      var out := Turn(w, ip, sid, message, clock, reply, createdAt);
      !p.failed && out.status == Answered(p.response, p.item) && out.world.table == p.table
  {
  }

  /** The parsers' response is the save parser's text, or the update parser's text after it. */
  lemma ParseReplyResponse(t: Table, raw: string, createdAt: string)
    ensures var p := ParseReply(t, raw, createdAt);
      var o1 := ParseSave(raw);
      (o1.call.Some? ==> p.response == o1.text) && (o1.call.None? ==> p.response == ParseUpdate(o1.text).text)
  {
  }

  /** The reply the user sees holds no em dash and no en dash. */
  lemma AnsweredHasNoDashes(w: World, ip: string, sid: string, message: string, clock: real,
                            reply: LlmResult, createdAt: string)
    requires Turn(w, ip, sid, message, clock, reply, createdAt).status.Answered?
    ensures var r := Turn(w, ip, sid, message, clock, reply, createdAt).status.response;
      EmDash !in r && EnDash !in r
  {
    AnsweredShape(w, ip, sid, message, clock, reply, createdAt);
    var raw := StripDashes(reply.text);
    ParseReplyResponse(w.table, raw, createdAt);
    NoDashesLeft(reply.text);
    ParsedChars(raw);
    ParsedChars(ParseSave(raw).text);
    assert EmDash !in raw && EnDash !in raw;
  }

  /**
   * A reply with a complete save block is saved and the update parser does
   * not run: the response is the save parser's text, with no update made.
   */
  lemma SaveComesFirst(w: World, ip: string, sid: string, message: string, clock: real, text: string,
                       createdAt: string)
    requires Gate(w.gate, ip, clock).accepted && !AllWs(message)
    requires ParseSave(StripDashes(text)).call.Some?
    ensures var o := ParseSave(StripDashes(text));
      var out := Turn(w, ip, sid, message, clock, Replied(text), createdAt);
      && out.status == Answered(o.text, SavedRow(w.table, o, createdAt))
      && out.world.table == AfterSave(w.table, o, createdAt)
  {
  }

  /**
   * After a save, text written outside the save block that neither starts
   * nor ends with whitespace, such as an `<UPDATE_ITEM>` block, stays in the
   * response, since the update parser never runs on it.
   */
  lemma UpdateBlockSurvivesSave(w: World, ip: string, sid: string, message: string, clock: real, text: string,
                                createdAt: string, xs: seq<Piece>, wo: string, f: SaveFields, gap: string,
                                wc: string, ys: seq<Piece>, p: string, u: string, q: string)
    requires Gate(w.gate, ip, clock).accepted && !AllWs(message)
    requires WellFormed(xs) && WellFormed(ys) && Absent(xs, SaveTag) && Absent(ys, SaveTag)
    requires SameTag(SaveTag, wo) && SameTag(Close(SaveTag), wc)
    requires PlainFields(f) && NoAngle(gap) && SaveComplete(Stripped(f))
    requires StripDashes(text) == Render(xs + [Tag(wo)] + Layout(SaveLayout(f), gap) + [Tag(wc)] + ys)
    requires Render(ys) == p + u + q && u != [] && !IsWs(u[0]) && !IsWs(u[|u| - 1])
    ensures var out := Turn(w, ip, sid, message, clock, Replied(text), createdAt);
      out.status.Answered? && IsInfix(u, out.status.response)
  {
    SaveKeepsOutside(xs, wo, f, gap, wc, ys, p, u, q);
    SavedTextAnswered(w, ip, sid, message, clock, text, createdAt, u);
  }

  /** Whatever the save parser's text holds, the response of a saving turn holds too. */
  lemma SavedTextAnswered(w: World, ip: string, sid: string, message: string, clock: real, text: string,
                          createdAt: string, u: string)
    requires Gate(w.gate, ip, clock).accepted && !AllWs(message)
    requires ParseSave(StripDashes(text)).call.Some? && IsInfix(u, ParseSave(StripDashes(text)).text)
    ensures var out := Turn(w, ip, sid, message, clock, Replied(text), createdAt);
      out.status.Answered? && IsInfix(u, out.status.response)
  {
    SaveComesFirst(w, ip, sid, message, clock, text, createdAt);
  }

  /**
   * Without a save, the update parser runs on the save parser's text. The
   * turn fails with 500 exactly when it asks to update an id no row has;
   * then the table is unchanged and the session is not written.
   */
  lemma UpdateRunsWithoutSave(w: World, ip: string, sid: string, message: string, clock: real,
                              text: string, createdAt: string)
    requires WorldOk(w) && Gate(w.gate, ip, clock).accepted && !AllWs(message)
    requires ParseSave(StripDashes(text)).call.None?
    ensures var o := ParseUpdate(ParseSave(StripDashes(text)).text);
      var out := Turn(w, ip, sid, message, clock, Replied(text), createdAt);
      && (out.status == ServerError <==> o.call.Some? && o.call.value.id !in w.table.rows)
      && (out.status == ServerError ==>
        out.world.table == w.table && out.world.sessions == GetOrCreate(w.sessions, sid).sessions)
      && (out.status != ServerError ==>
        && out.status.response == o.text
        && out.world.table == AfterUpdate(w.table, o)
        && (out.status.item.Some? <==> o.call.Some?))
  {
    UpdateEffectSpec(w.table, ParseSave(StripDashes(text)).text);
  }

  /** The two parsers keep the table well formed. */
  lemma ParseReplyKeepsTable(t: Table, raw: string, createdAt: string)
    requires TableOk(t)
    ensures TableOk(ParseReply(t, raw, createdAt).table)
  {
    SaveEffectSpec(t, raw, createdAt);
    UpdateEffectSpec(t, ParseSave(raw).text);
  }

  /** Writing back a reply keeps the session store and the table well formed. */
  lemma RespondKeepsInvariants(w: World, history: History, sid: string, effective: string, text: string,
                               createdAt: string)
    requires WorldOk(w)
    ensures WorldOk(Respond(w, history, sid, effective, text, createdAt).world)
  {
    var p := ParseReply(w.table, StripDashes(text), createdAt);
    ParseReplyKeepsTable(w.table, StripDashes(text), createdAt);
    PutOk(w.sessions, sid, WithLastContent(Chat(history, effective, text), p.response));
  }

  /** A turn keeps the session store and the table well formed. */
  lemma TurnKeepsInvariants(w: World, ip: string, sid: string, message: string, clock: real,
                            reply: LlmResult, createdAt: string)
    requires WorldOk(w)
    ensures WorldOk(Turn(w, ip, sid, message, clock, reply, createdAt).world)
  {
    var v := Gate(w.gate, ip, clock);
    if v.accepted {
      var g := GetOrCreate(w.sessions, sid);
      GetOrCreateSpec(w.sessions, sid);
      var w1 := World(v.entries, g.sessions, w.table);
      assert WorldOk(w1);
      if Strip(message) != "" && reply.Replied? {
        RespondKeepsInvariants(w1, Trim(g.history), sid, Effective(Strip(message), w.table), reply.text,
                               createdAt);
      }
    }
  }

  // ----- the endpoint over the three stores -----

  class App {
    const gate: RateLimiter
    const sessions: SessionTable
    const db: NewsTable

    ghost predicate Valid()
      reads this, sessions, db
    {
      sessions.Valid() && db.Valid()
    }

    function View(): World
      reads this, gate, sessions, db
    {
      World(gate.entries, sessions.View(), db.View())
    }

    constructor ()
      ensures Valid() && View() == World(map[], Sessions([], map[]), EmptyTable)
    {
      gate := new RateLimiter();
      sessions := new SessionTable();
      db := new NewsTable();
    }

    /** `chat_endpoint`: `host` is the request's client address, `reply` the model's answer. */
    method ChatEndpoint(host: Option<string>, sid: string, message: string, clock: real, reply: LlmResult,
                        createdAt: string)
      returns (status: Status)
      requires Valid()
      modifies gate, sessions, db
      ensures Valid()
      ensures Outcome(View(), status) == Turn(old(View()), ClientIp(host), sid, message, clock, reply, createdAt)
    {
      var ip := ClientIp(host);
      var accepted := gate.Check(ip, clock);
      if !accepted {
        GateSpec(old(gate.entries), ip, clock);
        return TooManyRequests;
      }
      var history := sessions.GetOrCreateSession(sid);
      history := Trim(history);
      var userMessage := Strip(message);
      if userMessage == "" {
        return EmptyMessage;
      }
      var effective := userMessage;
      if WantsFeed(userMessage) {
        var feedContext := BuildFeedContext(GetFeed(db.View(), FeedLimit, true));
        effective := userMessage + "\n\n" + SystemNote + "\n" + feedContext;
      }
      match reply
      case Failed => return LlmFailed;
      case Replied(text) => status := HandleReply(history, sid, effective, text, createdAt);
    }

    /**
     * The part of `chat_endpoint` after the model replied `text` to
     * `effective`: dash normalising, the save parser, the update parser when
     * nothing was saved, and the history write-back.
     */
    method HandleReply(history: History, sid: string, effective: string, text: string, createdAt: string)
      returns (status: Status)
      requires Valid()
      modifies sessions, db
      ensures Valid()
      ensures Outcome(View(), status) == Respond(old(View()), history, sid, effective, text, createdAt)
    {
      var updated := Chat(history, effective, text);
      var raw := StripDashes(text);
      var cleaned, saved := ParseSaveTag(raw, db, createdAt);
      var item := saved;
      if saved.None? {
        var r;
        cleaned, r := ParseUpdateTag(cleaned, db);
        match r
        case Raised => return ServerError;
        case NotCalled => item := None;
        case Returned(row) => item := Some(row);
      }
      updated := WithLastContent(updated, cleaned);
      sessions.Assign(sid, updated);
      return Answered(cleaned, item);
    }
  }
}
