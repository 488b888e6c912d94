# Newsletter agent: chat turn and news table

This project is a Dafny model of the core of a small newsletter agent.
Contributors chat with a language model to agree on a news item. When the
model's reply carries a `<SAVE_ITEM>` (or `<UPDATE_ITEM>`) block, the item is
written to a SQLite `news_items` table. Items may also be submitted through a
plain form.

The model covers the following pieces:

- **The chat turn** (`chat_endpoint`), in this order:
  - a fixed-window rate gate per client address;
  - the in-memory session store, which evicts its 50 oldest keys whenever a new session arrives and 500 or more sessions exist;
  - history trimming;
  - rejection of blank messages;
  - the feed keyword test and the feed context appended to the message;
  - the model call, treated as an oracle: its reply is an input;
  - the dash normaliser;
  - the save-tag parser, then the update-tag parser when nothing was saved;
  - writing the history back.
- **The form submission** (`add_manual`), with its field validation.
- **The greeting** that `new_session` stores.
- **The `news_items` table**: insert, update by id, mark done, delete, count, the newest-first feed listing and the listing by name.

Modules:

| module | file | models |
|---|---|---|
| `Wrappers` | wrappers.dfy | `Option` |
| `Text` | text.dfy | `str.strip` (whitespace as `str.isspace`), ASCII `lower`, substring test, `"\n".join` |
| `Decimal` | decimal.dfy | `str()` and `int()` on integers |
| `Regex` | regex.dfy | `re.search` / `re.sub` for literal tag patterns: ASCII case-insensitive, leftmost, non-greedy, `.` matching newlines |
| `Markup` | markup.dfy | replies built from text and tag pieces, used to state the parsers' round trips |
| `Dashes` | dashes.dfy | `_strip_dashes` |
| `NewsStore` | news_store.dfy | the `news_items` table of `db.py`: the class `NewsTable` for the writes, functions for the queries |
| `TagParser` | tag_parser.dfy | `_parse_save_tag`, `_parse_update_tag` and their store calls |
| `RateLimit` | rate_limit.dfy | `_check_rate_limit`; the class `RateLimiter` holds the table |
| `SessionStore` | session_store.dfy | `sessions`, `_get_or_create_session`, `_trim_history`, the store effect of `new_session`; the class `SessionTable` |
| `FeedContext` | feed_context.dfy | `_wants_feed`, `_build_feed_context` |
| `Llm` | llm.dfy | llm.py's `chat` as an oracle: how the returned history extends the one sent |
| `ChatApp` | chat_app.dfy | `chat_endpoint`: the pure `Turn` and the class `App` over the three stores |
| `Manual` | manual.dfy | `add_manual` |

Each store that the source changes in place is a class:

- `RateLimiter` keeps the rate table.
- `SessionTable` keeps the key order and the histories.
- `NewsTable` keeps the rows and the next AUTOINCREMENT id.

Each method on these classes is proved equal to a pure function of the old state, `View() == F(old(View()), ...)`. The properties are lemmas about those functions.

`ChatApp.App.ChatEndpoint` is proved to produce exactly what `ChatApp.Turn` describes, both the status and the new state of all three stores. The lemmas about `Turn` state what a turn promises.

Two places where the code and its own comments disagree, and the model follows the code:

- The docstring of `_strip_dashes` says unspaced dashes become `-`. The code turns every em dash and en dash, together with the whitespace around it, into `", "`. `Dashes.SubDashAround` states this, and `Dashes.NotIdempotent` shows that the normaliser is not idempotent.
- The docstring of `_parse_update_tag` says it returns `None` when there is no tag. When the block names an id that no row has, `update_news_item` raises instead, because `dict(None)` fails. The model reports that as `ServerError`, a 500.

## Model

| member | source | states |
|---|---|---|
| RateLimit.GateSpec | app.py:88-106 | An unseen address, or one whose window is more than 60 s old, gets a fresh window with count 1 and is let in. In a live window, a count of 20 or more is refused and nothing changes; otherwise the count goes up by one and the request is let in. Other addresses are untouched, and no count goes above 20. |
| RateLimit.BoundaryStillLive | app.py:99-104 | At exactly 60 s the window is still live, so a full window still refuses. |
| RateLimit.WindowAccepts | app.py:92-106 | Within one live window, a client that has used `c` requests is let through exactly `min(n, 20 - c)` of `n` more. |
| RateLimit.FirstWindow | app.py:92-106 | Of the requests in a new client's first 60 s, at most 20 are let through, or all of them if fewer were made. |
| RateLimit.RateLimiter.Check | app.py:92-106 | The in-place update of the rate table equals `Gate` on the old table. |
| SessionStore.GetOrCreateSpec | app.py:113-122 | An existing id returns its history and leaves the store unchanged. For an absent id, a store holding 500 or more sessions first loses exactly its 50 oldest keys. The new id is then added last with an empty history and is never among those evicted. A store of at most 500 sessions stays at most 500. |
| SessionStore.PutOk | app.py:121 | `sessions[id] = h` keeps an existing key in its place and adds a new key last. |
| SessionStore.EvictOk | app.py:118-120 | Eviction removes exactly the first 50 keys. Every later key stays, in its order, with its history. |
| SessionStore.SessionTable.EvictOldest | app.py:118-120 | The deletion loop leaves the store as `Evict` describes. |
| SessionStore.SessionTable.GetOrCreateSession | app.py:113-122 | The in-place lookup equals `GetOrCreate`, both the store and the returned history. |
| SessionStore.SessionTable.Assign | app.py:370 | Assignment equals `Put`. |
| SessionStore.NewSessionSpec | app.py:358-371 | `new_session` stores exactly one assistant message, the fixed greeting. It skips the size check, so the store can grow past 500. |
| SessionStore.SessionTable.NewSession | app.py:364-371 | The store effect of `new_session` for the generated id; it returns the greeting. |
| SessionStore.TrimSpec | app.py:125-130 | A history of at most 60 messages is kept as it is. A longer one becomes 60 messages: its first message, then its last 59. |
| SessionStore.TrimIdempotent | app.py:125-130 | Trimming twice is the same as trimming once. |
| FeedContext.AnyInfix | app.py:136 | `any(kw in s ...)` holds exactly when some keyword occurs in `s`. |
| FeedContext.WantsFeedSpec | app.py:133-136 | A message asks for the feed exactly when some entry of `FEED_KEYWORDS` occurs in its lower-cased text. |
| FeedContext.KeywordInsideWord | app.py:133-136 | The test matches substrings: "Specialist" asks for the feed because it contains "list". |
| FeedContext.FeedTextSpec | app.py:139-152 | With no items, the context is the fixed "No items have been saved yet." line. With `n` items, it is a header naming `n`, then entries numbered 1 to `n` in list order, each after a newline. |
| FeedContext.BuildFeedContext | app.py:139-152 | The loop that collects the lines produces `FeedText` of the items. |
| Dashes.NoDashesLeft | app.py:252-263 | The normalised reply holds no em dash and no en dash. |
| Dashes.SubDashAround | app.py:257-260 | A dash with any whitespace around it, spaced or not, becomes `", "`. The text before it is kept and the text after it is normalised in turn. |
| Dashes.SubDashHere | app.py:257-260 | A dash at the head of the text, with its whitespace, is replaced by `", "`. |
| Dashes.NotIdempotent | app.py:252-263 | `"a, — , b"` normalises to `"a, , b"`, which normalises again to `"a, b"`. |
| Regex.SearchSpec | app.py:213-214 | A found block is the leftmost one, and for its start the shortest. None is returned exactly when the text contains no block. |
| Regex.SubAllSplit | app.py:231 | Removing blocks keeps the text before the first block and, when no block follows, the text after it. |
| Decimal.ParseIntOfIntToString | app.py:233-236 | `int(str(i)) == i`. |
| TagParser.ParseSaveSpec | app.py:266-305 | With no block, the reply comes back unchanged and unstripped, and the store is not called. With a block, every block is removed and the rest stripped. The store is called exactly when the four fields of the first block are non-empty, and with those fields. |
| TagParser.ParseUpdateSpec | app.py:203-249 | The same as `ParseSaveSpec`, except that a call also needs an `id` field that `int()` accepts, and carries that id. |
| TagParser.SaveRoundTrip | app.py:266-305 | A reply holding one save block with any tag case reads back the block's stripped fields. The store is called exactly when they are all non-empty, and the text around the block is returned stripped. |
| TagParser.UpdateRoundTrip | app.py:203-249 | A reply holding one update block whose id is `str(i)` calls the store for row `i` exactly when the other four fields are non-empty. |
| TagParser.SaveKeepsOutside | app.py:304 | Text after the save block that neither starts nor ends with whitespace, such as an update block, is still in the save parser's text. A complete block leads to a store call with its stripped fields. |
| TagParser.ParsedChars | app.py:231 | Neither parser adds a character to the reply. |
| TagParser.SaveEffectSpec | app.py:297-305 | A save call inserts one row holding exactly the first block's fields, under the next id. Without a call the table is unchanged. |
| TagParser.UpdateEffectSpec | app.py:240-249 | An update call on an existing id rewrites that row's four fields and returns it. On an absent id the table is unchanged and the call fails. |
| TagParser.ParseSaveTag | app.py:266-305 | The save parser over the table, as `ParseSave` plus `AfterSave`. |
| TagParser.ParseUpdateTag | app.py:203-249 | The update parser over the table, as `ParseUpdate` plus `AfterUpdate`. |
| NewsStore.InsertSpec | db.py:50-74 | An insert adds exactly one row, with stripped fields and `done = 0`, under an id above every id in use. The other rows are unchanged. |
| NewsStore.UpdateSpec | db.py:77-98 | An update on an existing id rewrites exactly the four text columns, stripped, and keeps `id`, `created_at` and `done`. An absent id changes nothing and gives no record. No other row is touched. |
| NewsStore.Updated | db.py:95-98 | A record comes back exactly when a row has the id. |
| NewsStore.MarkDoneSpec | db.py:116-123 | Only that row's `done` becomes 1 or 0. An absent id is a no-op. |
| NewsStore.DeleteSpec | db.py:142-146 | Only the row with that id goes, and the next id is kept. |
| NewsStore.CountSpec | db.py:149-154 | The count equals the number of rows, and equals the length of an unlimited listing of everything. |
| NewsStore.SortNewestSpec | db.py:131 | The sort keeps the same rows, newest `created_at` first. |
| NewsStore.Take | db.py:131 | `LIMIT n` returns a prefix of length `n`; a negative limit means no limit. |
| NewsStore.TakeSortedTop | db.py:126-139 | The first `limit` of the sorted rows are newest first, drawn from the pool, as many as the limit allows. No row left out is newer than a row returned. |
| NewsStore.NotDone | db.py:135 | `WHERE done = 0` keeps exactly the rows with `done = 0`. |
| NewsStore.NamedAs | db.py:107-111 | `WHERE lower(submitter_name) = key` keeps exactly the rows whose lowered name is the key. |
| NewsStore.GetFeedSpec | db.py:126-139 | `get_feed` returns at most `limit` rows, newest first, taken from the table's rows, or only those with `done = 0`. Its result is a top-`limit` of that pool. |
| NewsStore.InsertThenList | db.py:126-139 | After an insert, a feed listing whose limit covers every row it draws from returns the new row exactly as stored: fields, id and timestamp. |
| NewsStore.GetItemsByNameSpec | db.py:101-113 | `get_items_by_name` returns at most `limit` rows, newest first, each named as the stripped argument up to ASCII case. Its result is a top-`limit` of those rows. |
| NewsStore.NewsTable.Save | db.py:50-74 | The insert changes the table as `Insert` describes and returns the new row. |
| NewsStore.NewsTable.UpdateItem | db.py:77-98 | The update changes the table as `Update` describes and returns `Updated`. |
| NewsStore.NewsTable.SetDone | db.py:116-123 | `mark_done` changes the table as `MarkDone` describes. |
| NewsStore.NewsTable.DeleteItem | db.py:142-146 | `delete_news_item` changes the table as `Delete` describes. |
| Llm.StoredHistory | llm.py:205-218 | The stored history is the history sent, then the user message, then the assistant message holding the cleaned reply. |
| ChatApp.TurnRejected | app.py:386-388 | Over the rate limit, a turn is answered 429 and nothing changes. |
| ChatApp.EmptyMessageKeepsEffects | app.py:387-395 | The rate check and the session lookup, eviction included, happen before a blank message is refused, and their effects stay. The table is unchanged. |
| ChatApp.LlmFailureKeepsHistory | app.py:419-425 | When the model call fails, the turn gives 502. The session keeps the history it had before the turn, or an empty one if the turn created it, and the table is unchanged. |
| ChatApp.AnsweredHistory | app.py:390-437 | A successful turn stores, in the session's place, the trimmed history, the message sent and the cleaned reply. That is at most 62 messages. The other sessions stay as the lookup left them. |
| ChatApp.AnsweredHasNoDashes | app.py:428-444 | The response the user sees holds no em dash and no en dash. |
| ChatApp.UpdateBlockSurvivesSave | app.py:431-433 | After a complete save block, any text written after it that neither starts nor ends with whitespace, an `<UPDATE_ITEM>` block in particular, stays in the response, because the update parser never runs on it. |
| ChatApp.SavedTextAnswered | app.py:431-433 | When the save parser calls the store, whatever its cleaned text holds is in the turn's response. |
| ChatApp.SaveComesFirst | app.py:431-433 | A reply with a complete save block is saved and answered with the save parser's text. The update parser does not run. |
| ChatApp.UpdateRunsWithoutSave | app.py:431-437 | Without a save, the update parser runs on the save parser's text. The turn fails with 500 exactly when that text asks to update an id that no row has. In that case the table is unchanged and the session is not written. |
| ChatApp.TurnKeepsInvariants | app.py:374-444 | A turn keeps the session store's key order and the table well formed. |
| ChatApp.App.ChatEndpoint | app.py:374-444 | The endpoint over the three stores produces exactly the status and the new state that `Turn` describes. |
| ChatApp.App.HandleReply | app.py:428-437 | The part after the model call produces exactly what `Respond` describes. |
| Manual.Errors | app.py:489-499 | The error map names exactly the fields whose stripped value is empty, each with its own message. |
| Manual.ValidateManual | app.py:489-499 | The five checks, made in order, build `Errors`. |
| Manual.AgreedStripped | app.py:503 | With a non-blank entry, the composed text is already stripped, so the store keeps it exactly. |
| Manual.AddManualOutcome | app.py:480-510 | A form is refused exactly when some field is blank; the table is then unchanged and the errors are `Errors`. Otherwise exactly one row is added under the next id. It holds the stripped name, URL and reason, and as its text `"**" + strip(headline) + "** " + strip(entry)`. |
| Manual.AddManual | app.py:480-510 | The endpoint over the table produces exactly what `AddManualSpec` describes. |

## Left out

- HTTP and server plumbing are not modelled: FastAPI, routes, templates, the static mount and JSON serialisation. Outcomes are the `Status` datatype, and a refused form is `Invalid(errors)` (422).
- The text of `HTTPException` details is not modelled.
- The network client in llm.py and its system prompt are not modelled. The model's reply (or its failure) is an input to the turn; a `None` content counts as the empty reply.
- `config.py` only loads settings and is not part of this model.
- SQLite connection handling, `init_db` and its migration are not modelled. The table is a map from id to row plus the next AUTOINCREMENT id.
- `time.monotonic()`, `uuid.uuid4()` and the `created_at` default are not computed. They are parameters (`clock`, the session id, `createdAt`), so the model does not enforce that the clock is monotonic or that timestamps are ordered.
- Concurrency is left out: requests are modelled one at a time.
- `_wants_update`, `_extract_name_from_history` and `_build_items_context` are left out: their only call site is commented out.
- The routes `api_feed`, `set_done`, `feed_page` and `newsletter_page` only call the modelled queries and writes. They are not modelled as endpoints.
- Unicode case folding is not modelled. `lower` and `IGNORECASE` are ASCII-only, and whitespace is the `str.isspace` set written out. Non-ASCII digits and the digit limit of `int()` are not modelled.
- `NewsStore.SortNewestSpec`: rows with equal `created_at` come back in a fixed order (by id, oldest first), whereas SQLite leaves ties unordered. `TopNewest` states the tie-agnostic property that both satisfy.
- `TagParser.ParseUpdateSpec`: an id too large for SQLite's 64-bit integers is treated like any absent id (500). In the source, binding that id raises `OverflowError` before the update runs; the outcome is the same.
- `Manual.Errors`: the error dictionary is a map from field to message. The order in which JSON writes its keys is not modelled; `Manual.Key` gives the key strings.
- The feed context is built from the items `get_feed` returns. Its `limit` parameter is always the default 15 at the one call site.
