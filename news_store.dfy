/**
 * The `news_items` table: rows keyed by an AUTOINCREMENT id, with the
 * columns the insert and update statements write, `created_at` (an ISO-8601
 * text timestamp) and the `done` flag. Writes go through the `NewsTable`
 * class; the read-only queries are functions over the table contents.
 */
module NewsStore {
  import opened Wrappers
  import opened Text

  datatype Row = Row(
    id: int,
    submitterName: string,
    url: string,
    reason: string,
    agreedText: string,
    createdAt: string,
    done: int)

  /** The rows by id, and the id the next insert receives. */
  datatype Table = Table(rows: map<int, Row>, nextId: int)

  /** A fresh database: no rows; AUTOINCREMENT starts at 1. */
  const EmptyTable := Table(map[], 1)

  /** Every row sits under its own id, and every id is below the next one to assign. */
  predicate TableOk(t: Table)
  {
    && t.nextId >= 1
    && forall id :: id in t.rows ==> 1 <= id < t.nextId && t.rows[id].id == id
  }

  // ----- writes -----

  /** The row `save_news_item` inserts: stripped fields, the next id, `done = 0`. */
  function NewRow(t: Table, name: string, url: string, reason: string, agreed: string, now: string): Row
  {
    Row(t.nextId, Strip(name), Strip(url), Strip(reason), Strip(agreed), now, 0)
  }

  function Insert(t: Table, name: string, url: string, reason: string, agreed: string, now: string): Table
  {
    Table(t.rows[t.nextId := NewRow(t, name, url, reason, agreed, now)], t.nextId + 1)
  }

  /**
   * An insert adds exactly one row, under an id above every id in use, and
   * leaves the other rows as they were.
   */
  lemma InsertSpec(t: Table, name: string, url: string, reason: string, agreed: string, now: string)
    requires TableOk(t)
    ensures var t' := Insert(t, name, url, reason, agreed, now);
      var row := NewRow(t, name, url, reason, agreed, now);
      && TableOk(t')
      && row.id !in t.rows
      && (forall id :: id in t.rows ==> id < row.id)
      && t'.rows.Keys == t.rows.Keys + {row.id}
      && |t'.rows| == |t.rows| + 1
      && t'.rows[row.id] == row
      && (forall id :: id in t.rows ==> t'.rows[id] == t.rows[id])
      && row.done == 0
      && row.submitterName == Strip(name) && row.url == Strip(url)
      && row.reason == Strip(reason) && row.agreedText == Strip(agreed)
  {
    var t' := Insert(t, name, url, reason, agreed, now);
    assert t.nextId !in t.rows;
    assert |t'.rows.Keys| == |t.rows.Keys| + 1 by {
      assert t'.rows.Keys == t.rows.Keys + {t.nextId};
    }
  }

  /** The row after `UPDATE ... SET` of the four text columns, stripped. */
  function Edited(r: Row, name: string, url: string, reason: string, agreed: string): Row
  {
    r.(submitterName := Strip(name), url := Strip(url), reason := Strip(reason),
       agreedText := Strip(agreed))
  }

  function Update(t: Table, id: int, name: string, url: string, reason: string, agreed: string): Table
  {
    if id in t.rows then t.(rows := t.rows[id := Edited(t.rows[id], name, url, reason, agreed)])
    else t
  }

  /**
   * The record `update_news_item` returns: the updated row, or `None` when no
   * row has the id and `dict(None)` raises.
   */
  function Updated(t: Table, id: int, name: string, url: string, reason: string, agreed: string): (r: Option<Row>)
    ensures r.Some? <==> id in t.rows
  {
    if id in t.rows then Some(Edited(t.rows[id], name, url, reason, agreed)) else None
  }

  /**
   * An update on an existing id rewrites exactly the four text columns of
   * that row and keeps its id, `created_at` and `done`; on an absent id it
   * changes nothing. No other row is touched either way.
   */
  lemma UpdateSpec(t: Table, id: int, name: string, url: string, reason: string, agreed: string)
    requires TableOk(t)
    ensures var t' := Update(t, id, name, url, reason, agreed);
      && TableOk(t')
      && t'.nextId == t.nextId
      && t'.rows.Keys == t.rows.Keys
      && (forall other :: other in t.rows && other != id ==> t'.rows[other] == t.rows[other])
      && (id !in t.rows ==> t' == t)
      && (id in t.rows ==>
        var old_, new_ := t.rows[id], t'.rows[id];
        && new_.id == old_.id && new_.createdAt == old_.createdAt && new_.done == old_.done
        && new_.submitterName == Strip(name) && new_.url == Strip(url)
        && new_.reason == Strip(reason) && new_.agreedText == Strip(agreed)
        && Updated(t, id, name, url, reason, agreed) == Some(new_))
  {
  }

  /** `mark_done(id, done)`: `done` becomes `int(done)`; an absent id is a no-op. */
  function MarkDone(t: Table, id: int, done: bool): Table
  {
    if id in t.rows then t.(rows := t.rows[id := t.rows[id].(done := if done then 1 else 0)])
    else t
  }

  lemma MarkDoneSpec(t: Table, id: int, done: bool)
    requires TableOk(t)
    ensures var t' := MarkDone(t, id, done);
      && TableOk(t')
      && t'.nextId == t.nextId
      && t'.rows.Keys == t.rows.Keys
      && (forall other :: other in t.rows && other != id ==> t'.rows[other] == t.rows[other])
      && (id !in t.rows ==> t' == t)
      && (id in t.rows ==> t'.rows[id] == t.rows[id].(done := if done then 1 else 0))
  {
  }

  /** `delete_news_item`: the row goes; AUTOINCREMENT never hands its id out again. */
  function Delete(t: Table, id: int): Table
  {
    t.(rows := t.rows - {id})
  }

  lemma DeleteSpec(t: Table, id: int)
    requires TableOk(t)
    ensures var t' := Delete(t, id);
      && TableOk(t')
      && t'.nextId == t.nextId
      && t'.rows.Keys == t.rows.Keys - {id}
      && (forall other :: other in t'.rows ==> t'.rows[other] == t.rows[other])
      && |t'.rows| == if id in t.rows then |t.rows| - 1 else |t.rows|
  {
    var t' := Delete(t, id);
    if id in t.rows {
      assert t.rows.Keys == t'.rows.Keys + {id};
    } else {
      assert t'.rows.Keys == t.rows.Keys;
    }
  }

  /** `get_item_count`: `COUNT(*)`. */
  function Count(t: Table): nat
  {
    |t.rows|
  }

  // ----- ordering by created_at -----

  /**
   * `a <= b` as SQLite compares TEXT under its default collation: byte order
   * of the UTF-8 encodings, which is the order of code points.
   */
  predicate StrLe(a: string, b: string)
    decreases |a|
  {
    a == [] || (b != [] && (a[0] < b[0] || (a[0] == b[0] && StrLe(a[1..], b[1..]))))
  }

  lemma {:induction false} StrLeTotal(a: string, b: string)
    ensures StrLe(a, b) || StrLe(b, a)
    decreases |a|
  {
    if a != [] && b != [] && a[0] == b[0] {
      StrLeTotal(a[1..], b[1..]);
    }
  }

  lemma {:induction false} StrLeTrans(a: string, b: string, c: string)
    requires StrLe(a, b) && StrLe(b, c)
    ensures StrLe(a, c)
    decreases |a|
  {
    if a != [] && a[0] == b[0] && b[0] == c[0] {
      StrLeTrans(a[1..], b[1..], c[1..]);
    }
  }

  /** `r` was created no later than `n`. */
  predicate NotNewer(r: Row, n: Row)
  {
    StrLe(r.createdAt, n.createdAt)
  }

  /** Newest first: `ORDER BY created_at DESC`. */
  predicate NewestFirst(s: seq<Row>)
  {
    forall i, j :: 0 <= i < j < |s| ==> NotNewer(s[j], s[i])
  }

  /** Insertion into a newest-first list. */
  function Place(x: Row, s: seq<Row>): seq<Row>
  {
    if s == [] || NotNewer(s[0], x) then [x] + s else [s[0]] + Place(x, s[1..])
  }

  /** One order SQLite may return the rows in; rows with equal timestamps may come in any order. */
  function SortNewest(s: seq<Row>): seq<Row>
  {
    if s == [] then [] else Place(s[0], SortNewest(s[1..]))
  }

  lemma {:induction false} PlaceSpec(x: Row, s: seq<Row>)
    requires NewestFirst(s)
    ensures NewestFirst(Place(x, s)) && multiset(Place(x, s)) == multiset(s) + multiset{x}
    ensures Place(x, s)[0] == x || (s != [] && Place(x, s)[0] == s[0])
    decreases |s|
  {
    if s == [] {
    } else if NotNewer(s[0], x) {
      PlaceFront(x, s);
    } else {
      StrLeTotal(s[0].createdAt, x.createdAt);
      PlaceSpec(x, s[1..]);
      PlaceBehind(x, s, Place(x, s[1..]));
      assert s == [s[0]] + s[1..];
    }
  }

  /** A row no older than the head of a newest-first list goes in front. */
  lemma PlaceFront(x: Row, s: seq<Row>)
    requires NewestFirst(s) && s != [] && NotNewer(s[0], x)
    ensures NewestFirst([x] + s)
  {
    var r := [x] + s;
    forall i, j | 0 <= i < j < |r| ensures NotNewer(r[j], r[i]) {
      if i == 0 {
        assert r[j] == s[j - 1];
        if j > 1 {
          StrLeTrans(s[j - 1].createdAt, s[0].createdAt, x.createdAt);
        }
      } else {
        assert r[i] == s[i - 1] && r[j] == s[j - 1];
      }
    }
  }

  /** The head of `s` stays in front of `p`, the rest of `s` with `x` placed in it. */
  lemma PlaceBehind(x: Row, s: seq<Row>, p: seq<Row>)
    requires NewestFirst(s) && s != [] && NotNewer(x, s[0]) && NewestFirst(p) && p != []
    requires p[0] == x || (|s| > 1 && p[0] == s[1])
    ensures NewestFirst([s[0]] + p)
  {
    var r := [s[0]] + p;
    assert NotNewer(p[0], s[0]);
    forall i, j | 0 <= i < j < |r| ensures NotNewer(r[j], r[i]) {
      if i == 0 {
        if j > 1 {
          StrLeTrans(p[j - 1].createdAt, p[0].createdAt, s[0].createdAt);
        }
      } else {
        assert r[i] == p[i - 1] && r[j] == p[j - 1];
      }
    }
  }

  /** The sort returns the same rows, newest first. */
  lemma {:induction false} SortNewestSpec(s: seq<Row>)
    ensures NewestFirst(SortNewest(s)) && multiset(SortNewest(s)) == multiset(s)
    decreases |s|
  {
    if s != [] {
      SortNewestSpec(s[1..]);
      PlaceSpec(s[0], SortNewest(s[1..]));
      assert s == [s[0]] + s[1..];
    }
  }

  /** `LIMIT n`: a negative limit means no limit. */
  function Take(s: seq<Row>, limit: int): (r: seq<Row>)
    ensures |r| == if limit < 0 || limit >= |s| then |s| else limit
    ensures r <= s
  {
    if limit < 0 || limit >= |s| then s else s[..limit]
  }

  /**
   * `r` answers `ORDER BY created_at DESC LIMIT limit` over `pool`: newest
   * first, drawn from `pool`, as many as the limit allows, and no row left
   * out is newer than a row returned.
   */
  predicate TopNewest(r: seq<Row>, pool: seq<Row>, limit: int)
  {
    && NewestFirst(r)
    && multiset(r) <= multiset(pool)
    && |r| == (if limit < 0 || limit >= |pool| then |pool| else limit)
    && forall x, y :: x in multiset(pool) - multiset(r) && y in r ==> NotNewer(x, y)
  }

  lemma TakeSortedTop(pool: seq<Row>, limit: int)
    ensures TopNewest(Take(SortNewest(pool), limit), pool, limit)
  {
    var s := SortNewest(pool);
    SortNewestSpec(pool);
    var r := Take(s, limit);
    var k := |r|;
    assert s == r + s[k..];
    assert multiset(s) == multiset(r) + multiset(s[k..]);
    forall x, y | x in multiset(pool) - multiset(r) && y in r ensures NotNewer(x, y) {
      assert x in multiset(s[k..]);
      var j :| 0 <= j < |s[k..]| && s[k..][j] == x;
      var i :| 0 <= i < |r| && r[i] == y;
      assert s[k + j] == x && s[i] == y;
    }
  }

  // ----- queries -----

  /** The rows with ids below `n`, in id order. */
  function RowsBelow(rows: map<int, Row>, n: int): (r: seq<Row>)
    decreases n
  {
    if n <= 0 then []
    else RowsBelow(rows, n - 1) + (if n - 1 in rows then [rows[n - 1]] else [])
  }

  lemma {:induction false} RowsBelowSpec(rows: map<int, Row>, n: int)
    requires forall id :: id in rows ==> rows[id].id == id
    ensures forall i :: 0 <= i < |RowsBelow(rows, n)| ==>
      var x := RowsBelow(rows, n)[i]; x.id in rows && rows[x.id] == x && x.id < n
    ensures forall id :: id in rows && 0 <= id < n ==> rows[id] in RowsBelow(rows, n)
    ensures forall i, j :: 0 <= i < j < |RowsBelow(rows, n)| ==>
      RowsBelow(rows, n)[i].id < RowsBelow(rows, n)[j].id
    decreases n
  {
    if n > 0 {
      RowsBelowSpec(rows, n - 1);
      var p := RowsBelow(rows, n - 1);
      var r := RowsBelow(rows, n);
      if n - 1 in rows {
        assert r == p + [rows[n - 1]];
        assert r[|p|] == rows[n - 1] && rows[n - 1].id == n - 1;
        forall i, j | 0 <= i < j < |r| ensures r[i].id < r[j].id {
          assert r[i] == p[i];
          if j < |p| {
            assert r[j] == p[j];
          }
        }
      } else {
        assert r == p;
      }
    }
  }

  /** Every row of the table, in id order. */
  function AllRows(t: Table): seq<Row>
  {
    RowsBelow(t.rows, t.nextId)
  }

  /** `WHERE done = 0`. */
  function NotDone(s: seq<Row>): (r: seq<Row>)
    ensures forall x :: x in r <==> x in s && x.done == 0
    ensures multiset(r) <= multiset(s)
  {
    if s == [] then []
    else
      assert s == [s[0]] + s[1..];
      (if s[0].done == 0 then [s[0]] else []) + NotDone(s[1..])
  }

  /** `WHERE lower(submitter_name) = key`, with SQLite's ASCII-only `lower`. */
  function NamedAs(s: seq<Row>, key: string): (r: seq<Row>)
    ensures forall x :: x in r <==> x in s && Lower(x.submitterName) == key
    ensures multiset(r) <= multiset(s)
  {
    if s == [] then []
    else
      assert s == [s[0]] + s[1..];
      (if Lower(s[0].submitterName) == key then [s[0]] else []) + NamedAs(s[1..], key)
  }

  /** The rows `get_feed` chooses from. */
  function FeedPool(t: Table, includeDone: bool): seq<Row>
  {
    if includeDone then AllRows(t) else NotDone(AllRows(t))
  }

  /** `get_feed(limit, include_done)`. */
  function GetFeed(t: Table, limit: int, includeDone: bool): seq<Row>
  {
    Take(SortNewest(FeedPool(t, includeDone)), limit)
  }

  /** The rows `get_items_by_name` chooses from. */
  function NamePool(t: Table, name: string): seq<Row>
  {
    NamedAs(AllRows(t), Lower(Strip(name)))
  }

  /** `get_items_by_name(name, limit)`. */
  function GetItemsByName(t: Table, name: string, limit: int): seq<Row>
  {
    Take(SortNewest(NamePool(t, name)), limit)
  }

  /** The ids in use below `n`. */
  function IdsBelow(rows: map<int, Row>, n: int): set<int>
  {
    set id | id in rows && id < n
  }

  lemma {:induction false} RowsBelowCount(rows: map<int, Row>, n: int)
    requires forall id :: id in rows ==> id >= 0
    ensures |RowsBelow(rows, n)| == |IdsBelow(rows, n)|
    decreases n
  {
    if n <= 0 {
      assert IdsBelow(rows, n) == {};
    } else {
      RowsBelowCount(rows, n - 1);
      if n - 1 in rows {
        assert IdsBelow(rows, n) == IdsBelow(rows, n - 1) + {n - 1};
      } else {
        assert IdsBelow(rows, n) == IdsBelow(rows, n - 1);
      }
    }
  }

  /** `get_item_count` is the number of rows that a listing of everything, done or not, returns. */
  lemma CountSpec(t: Table)
    requires TableOk(t)
    ensures Count(t) == |AllRows(t)| == |GetFeed(t, -1, true)|
  {
    RowsBelowCount(t.rows, t.nextId);
    assert IdsBelow(t.rows, t.nextId) == t.rows.Keys;
    SortNewestSpec(AllRows(t));
    assert |SortNewest(AllRows(t))| == |multiset(SortNewest(AllRows(t)))|;
  }

  /** The feed pool is exactly the table's rows, less the done ones unless they are asked for. */
  lemma FeedPoolSpec(t: Table, includeDone: bool)
    requires TableOk(t)
    ensures forall x :: x in FeedPool(t, includeDone) ==>
      x.id in t.rows && t.rows[x.id] == x && (includeDone || x.done == 0)
    ensures forall id :: id in t.rows && (includeDone || t.rows[id].done == 0) ==>
      t.rows[id] in FeedPool(t, includeDone)
  {
    RowsBelowSpec(t.rows, t.nextId);
    var all := AllRows(t);
    forall x | x in FeedPool(t, includeDone)
      ensures x.id in t.rows && t.rows[x.id] == x && (includeDone || x.done == 0)
    {
      assert x in all;
      var i :| 0 <= i < |all| && all[i] == x;
      assert all[i].id in t.rows && t.rows[all[i].id] == all[i];
    }
  }

  /**
   * `get_feed` returns at most `limit` rows, newest first, from the table (or
   * from its rows with `done = 0`), and leaves out no row newer than one it
   * returns.
   */
  lemma GetFeedSpec(t: Table, limit: int, includeDone: bool)
    requires TableOk(t)
    ensures TopNewest(GetFeed(t, limit, includeDone), FeedPool(t, includeDone), limit)
    ensures forall x :: x in GetFeed(t, limit, includeDone) ==>
      x.id in t.rows && t.rows[x.id] == x && (includeDone || x.done == 0)
  {
    TakeSortedTop(FeedPool(t, includeDone), limit);
    FeedPoolSpec(t, includeDone);
    var r := GetFeed(t, limit, includeDone);
    forall x | x in r ensures x in FeedPool(t, includeDone) {
      assert x in multiset(r);
    }
  }

  /**
   * An item saved and then listed, with a limit that covers every row the
   * listing draws from, comes back exactly as stored: its fields, id and
   * timestamp.
   */
  lemma InsertThenList(t: Table, name: string, url: string, reason: string, agreed: string, now: string,
                       limit: int, includeDone: bool)
    requires TableOk(t)
    requires limit < 0 || limit >= |FeedPool(Insert(t, name, url, reason, agreed, now), includeDone)|
    ensures NewRow(t, name, url, reason, agreed, now) in GetFeed(Insert(t, name, url, reason, agreed, now), limit, includeDone)
  {
    var t' := Insert(t, name, url, reason, agreed, now);
    var row := NewRow(t, name, url, reason, agreed, now);
    var pool := FeedPool(t', includeDone);
    var r := GetFeed(t', limit, includeDone);
    assert row in pool by {
      InsertSpec(t, name, url, reason, agreed, now);
      FeedPoolSpec(t', includeDone);
      assert row.id in t'.rows && t'.rows[row.id] == row && row.done == 0;
    }
    assert multiset(r) <= multiset(pool) && |r| == |pool| by {
      InsertSpec(t, name, url, reason, agreed, now);
      GetFeedSpec(t', limit, includeDone);
    }
    CoveringSubsetHasAll(r, pool, row);
  }

  /** A sub-multiset as long as the whole holds every element of it. */
  lemma CoveringSubsetHasAll(r: seq<Row>, pool: seq<Row>, x: Row)
    requires multiset(r) <= multiset(pool) && |r| == |pool| && x in pool
    ensures x in r
  {
    var rest := multiset(pool) - multiset(r);
    assert multiset(pool) == multiset(r) + rest;
    assert |rest| == 0;
    assert x in multiset(pool);
  }

  /** The name pool is exactly the rows whose lowered name is the lowered, stripped argument. */
  lemma NamePoolSpec(t: Table, name: string)
    requires TableOk(t)
    ensures forall x :: x in NamePool(t, name) ==>
      x.id in t.rows && t.rows[x.id] == x && Lower(x.submitterName) == Lower(Strip(name))
    ensures forall id :: id in t.rows && Lower(t.rows[id].submitterName) == Lower(Strip(name)) ==>
      t.rows[id] in NamePool(t, name)
  {
    RowsBelowSpec(t.rows, t.nextId);
    var all := AllRows(t);
    forall x | x in NamePool(t, name)
      ensures x.id in t.rows && t.rows[x.id] == x
    {
      assert x in all;
      var i :| 0 <= i < |all| && all[i] == x;
      assert all[i].id in t.rows && t.rows[all[i].id] == all[i];
    }
  }

  /**
   * `get_items_by_name` returns at most `limit` rows, newest first, each with
   * the requested name up to ASCII case, and leaves out no such row newer
   * than one it returns.
   */
  lemma GetItemsByNameSpec(t: Table, name: string, limit: int)
    requires TableOk(t)
    ensures TopNewest(GetItemsByName(t, name, limit), NamePool(t, name), limit)
    ensures forall x :: x in GetItemsByName(t, name, limit) ==>
      x.id in t.rows && t.rows[x.id] == x && Lower(x.submitterName) == Lower(Strip(name))
  {
    TakeSortedTop(NamePool(t, name), limit);
    NamePoolSpec(t, name);
    var r := GetItemsByName(t, name, limit);
    forall x | x in r ensures x in NamePool(t, name) {
      assert x in multiset(r);
    }
  }

  /** The SQLite table, changed in place by the four writing operations. */
  class NewsTable {
    var rows: map<int, Row>
    var nextId: int

    function View(): Table
      reads this
    {
      Table(rows, nextId)
    }

    ghost predicate Valid()
      reads this
    {
      TableOk(View())
    }

    constructor ()
      ensures View() == EmptyTable && Valid()
    {
      rows := map[];
      nextId := 1;
    }

    /** `save_news_item`: inserts one row and returns it; `now` is the `created_at` default. */
    method Save(name: string, url: string, reason: string, agreed: string, now: string)
      returns (row: Row)
      requires Valid()
      modifies this
      ensures Valid()
      ensures View() == Insert(old(View()), name, url, reason, agreed, now)
      ensures row == NewRow(old(View()), name, url, reason, agreed, now)
    {
      InsertSpec(View(), name, url, reason, agreed, now);
      row := Row(nextId, Strip(name), Strip(url), Strip(reason), Strip(agreed), now, 0);
      rows := rows[nextId := row];
      nextId := nextId + 1;
    }

    /** `update_news_item`: `None` when no row has the id (the call then fails). */
    method UpdateItem(id: int, name: string, url: string, reason: string, agreed: string)
      returns (row: Option<Row>)
      requires Valid()
      modifies this
      ensures Valid()
      ensures View() == Update(old(View()), id, name, url, reason, agreed)
      ensures row == Updated(old(View()), id, name, url, reason, agreed)
    {
      UpdateSpec(View(), id, name, url, reason, agreed);
      if id in rows {
        var r := Edited(rows[id], name, url, reason, agreed);
        rows := rows[id := r];
        row := Some(r);
      } else {
        row := None;
      }
    }

    method SetDone(id: int, done: bool)
      requires Valid()
      modifies this
      ensures Valid()
      ensures View() == MarkDone(old(View()), id, done)
    {
      MarkDoneSpec(View(), id, done);
      if id in rows {
        rows := rows[id := rows[id].(done := if done then 1 else 0)];
      }
    }

    method DeleteItem(id: int)
      requires Valid()
      modifies this
      ensures Valid()
      ensures View() == Delete(old(View()), id)
    {
      DeleteSpec(View(), id);
      rows := rows - {id};
    }
  }
}
