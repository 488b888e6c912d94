/**
 * The in-memory session store of the chat endpoint: a dictionary from
 * session id to chat history, whose keys keep their insertion order. When it
 * holds `MaxSessions` or more, a new session first evicts its `Evicted` (50)
 * oldest keys.
 */
module SessionStore {

  datatype Message = Message(role: string, content: string)

  type History = seq<Message>

  const MaxSessions: nat := 500
  const MaxHistory: nat := 60

  /** How many of the oldest sessions a full store evicts: `MAX_SESSIONS // 10`. */
  const Evicted: nat := MaxSessions / 10

  const Greeting: string :=
    "Welcome to the newsletter agent! I'm here to help you add your news item. "
    + "If you have no idea how this works, let me know and I'll explain. "
    + "Or, if you do know how it works, just tell me your name and we'll get going."

  /** The dictionary: its keys in insertion order, and each key's history. */
  datatype Sessions = Sessions(order: seq<string>, hist: map<string, History>)

  /** The keys listed in `q`. */
  function Keys(q: seq<string>): set<string>
  {
    set k | k in q
  }

  predicate Distinct(q: seq<string>)
  {
    forall i, j :: 0 <= i < j < |q| ==> q[i] != q[j]
  }

  /** The key order lists each key of the dictionary exactly once. */
  predicate SessionsOk(s: Sessions)
  {
    Distinct(s.order) && s.hist.Keys == Keys(s.order)
  }

  /** `sessions[id] = h`: an existing key keeps its place, a new one goes last. */
  function Put(s: Sessions, id: string, h: History): Sessions
  {
    if id in s.hist then Sessions(s.order, s.hist[id := h])
    else Sessions(s.order + [id], s.hist[id := h])
  }

  /** Deleting the first `Evicted` keys in insertion order. */
  function Evict(s: Sessions): Sessions
    requires |s.order| >= Evicted
  {
    Sessions(s.order[Evicted..], s.hist - Keys(s.order[..Evicted]))
  }

  /** The store after `_get_or_create_session(id)`, and the history it returns. */
  datatype Got = Got(sessions: Sessions, history: History)

  function GetOrCreate(s: Sessions, id: string): Got
  {
    if id in s.hist then Got(s, s.hist[id])
    else
      var s' := if |s.order| >= MaxSessions then Evict(s) else s;
      Got(Put(s', id, []), [])
  }

  /** `new_session` under the id `uuid4()` produced: one assistant message, the greeting. */
  function Seeded(s: Sessions, id: string): Sessions
  {
    Put(s, id, [Message("assistant", Greeting)])
  }

  lemma {:induction false} DistinctSize(q: seq<string>)
    requires Distinct(q)
    ensures |Keys(q)| == |q|
    decreases |q|
  {
    if q != [] {
      var last := q[|q| - 1];
      var init := q[..|q| - 1];
      assert q == init + [last];
      assert Keys(q) == Keys(init) + {last};
      assert last !in Keys(init);
      DistinctSize(init);
    }
  }

  /** Deleting keys one at a time is deleting them together. */
  lemma MinusStep(m: map<string, History>, ks: set<string>, k: string)
    ensures (m - ks) - {k} == m - (ks + {k})
  {
  }

  /** In a well-formed store the number of sessions is the length of the key order. */
  lemma SizeIsOrder(s: Sessions)
    requires SessionsOk(s)
    ensures |s.hist| == |s.order|
  {
    DistinctSize(s.order);
    assert |s.hist| == |s.hist.Keys|;
  }

  /** An assignment keeps the key order listing each key exactly once. */
  lemma PutOk(s: Sessions, id: string, h: History)
    requires SessionsOk(s)
    ensures SessionsOk(Put(s, id, h)) && Put(s, id, h).hist[id] == h
    ensures id in s.hist ==> Put(s, id, h).order == s.order
    ensures id !in s.hist ==> Put(s, id, h).order == s.order + [id]
  {
    if id !in s.hist {
      assert Keys(s.order + [id]) == Keys(s.order) + {id};
    }
  }

  /** Eviction removes exactly the first `Evicted` keys and keeps the rest, in order. */
  lemma EvictOk(s: Sessions)
    requires SessionsOk(s) && |s.order| >= Evicted
    ensures SessionsOk(Evict(s))
    ensures forall i :: 0 <= i < Evicted ==> s.order[i] !in Evict(s).hist
    ensures forall k :: k in Evict(s).hist ==> k in s.hist && Evict(s).hist[k] == s.hist[k]
    ensures Evict(s).order == s.order[Evicted..]
    ensures forall i :: Evicted <= i < |s.order| ==>
      s.order[i] in Evict(s).hist && Evict(s).hist[s.order[i]] == s.hist[s.order[i]]
  {
    var e := Evict(s);
    forall k | k in Keys(s.order[Evicted..]) ensures k !in Keys(s.order[..Evicted]) {
      var j :| 0 <= j < |s.order[Evicted..]| && s.order[Evicted..][j] == k;
      assert s.order[Evicted + j] == k;
      forall i | 0 <= i < Evicted ensures s.order[..Evicted][i] != k {
        assert s.order[..Evicted][i] == s.order[i];
      }
    }
    assert s.order == s.order[..Evicted] + s.order[Evicted..];
    assert Keys(s.order) == Keys(s.order[..Evicted]) + Keys(s.order[Evicted..]);
    assert forall i :: 0 <= i < Evicted ==> s.order[i] in Keys(s.order[..Evicted]) by {
      forall i | 0 <= i < Evicted ensures s.order[i] in Keys(s.order[..Evicted]) {
        assert s.order[..Evicted][i] == s.order[i];
      }
    }
  }

  /**
   * An existing id returns its history and changes nothing. An absent id
   * gets an empty history, placed last; if the store held `MaxSessions` or
   * more, exactly the first `Evicted` keys are gone first, and the new id is
   * never one of them. A store holding at most `MaxSessions` still does.
   */
  lemma GetOrCreateSpec(s: Sessions, id: string)
    requires SessionsOk(s)
    ensures var g := GetOrCreate(s, id);
      && SessionsOk(g.sessions)
      && id in g.sessions.hist && g.history == g.sessions.hist[id]
      && (id in s.hist ==> g.sessions == s && g.history == s.hist[id])
      && (id !in s.hist ==> g.history == [])
      && (id !in s.hist && |s.order| < MaxSessions ==> g.sessions.order == s.order + [id])
      && (id !in s.hist && |s.order| >= MaxSessions ==>
        && g.sessions.order == s.order[Evicted..] + [id]
        && (forall i :: 0 <= i < Evicted ==> s.order[i] !in g.sessions.hist && s.order[i] != id))
      && (forall k :: k in g.sessions.hist && k != id ==> k in s.hist && g.sessions.hist[k] == s.hist[k])
      && (|s.order| <= MaxSessions ==> |g.sessions.order| <= MaxSessions)
  {
    if id !in s.hist {
      if |s.order| >= MaxSessions {
        EvictOk(s);
        assert forall i :: 0 <= i < Evicted ==> s.order[i] != id by {
          assert forall i :: 0 <= i < |s.order| ==> s.order[i] in Keys(s.order);
        }
        PutOk(Evict(s), id, []);
      } else {
        PutOk(s, id, []);
      }
    }
  }

  /**
   * `new_session` stores exactly one message, the greeting from the
   * assistant, and skips the size check, so it can take the store past
   * `MaxSessions`.
   */
  lemma NewSessionSpec(s: Sessions, id: string)
    requires SessionsOk(s)
    ensures SessionsOk(Seeded(s, id))
    ensures Seeded(s, id).hist[id] == [Message("assistant", Greeting)]
    ensures id !in s.hist ==> |Seeded(s, id).order| == |s.order| + 1
    ensures forall k :: k in s.hist && k != id ==> k in Seeded(s, id).hist && Seeded(s, id).hist[k] == s.hist[k]
  {
    PutOk(s, id, [Message("assistant", Greeting)]);
  }

  /** `_trim_history`: the first message and the last `MaxHistory - 1`. */
  function Trim(h: History): History
  {
    if |h| > MaxHistory then h[..1] + h[|h| - (MaxHistory - 1)..] else h
  }

  /**
   * A history of at most `MaxHistory` messages is kept as it is; a longer one
   * keeps exactly its first message and its last `MaxHistory - 1`.
   */
  lemma TrimSpec(h: History)
    ensures |h| <= MaxHistory ==> Trim(h) == h
    ensures |h| > MaxHistory ==>
      && |Trim(h)| == MaxHistory
      && Trim(h)[0] == h[0]
      && Trim(h)[1..] == h[|h| - (MaxHistory - 1)..]
    ensures |Trim(h)| <= MaxHistory
  {
    if |h| > MaxHistory {
      assert Trim(h)[1..] == h[|h| - (MaxHistory - 1)..];
    }
  }

  /** Trimming twice is trimming once. */
  lemma TrimIdempotent(h: History)
    ensures Trim(Trim(h)) == Trim(h)
  {
    TrimSpec(h);
  }

  /** The dictionary, updated in place. */
  class SessionTable {
    var order: seq<string>
    var hist: map<string, History>

    function View(): Sessions
      reads this
    {
      Sessions(order, hist)
    }

    ghost predicate Valid()
      reads this
    {
      SessionsOk(View())
    }

    constructor ()
      ensures View() == Sessions([], map[]) && Valid()
    {
      order := [];
      hist := map[];
    }

    /** `del sessions[k]` for a key listed first. */
    method DeleteFirst(k: string)
      requires Valid() && order != [] && order[0] == k
      modifies this
      ensures Valid()
      ensures order == old(order)[1..] && hist == old(hist) - {k}
    {
      assert Keys(order) == {k} + Keys(order[1..]) by {
        assert order == [k] + order[1..];
      }
      assert k !in Keys(order[1..]);
      order := order[1..];
      hist := hist - {k};
    }

    /** The eviction loop: `del sessions[k]` for each of the first `Evicted` keys. */
    method EvictOldest()
      requires Valid() && |order| >= Evicted
      modifies this
      ensures Valid()
      ensures View() == Evict(old(View()))
    {
      var evict := order[..Evicted];
      var i := 0;
      while i < |evict|
        invariant 0 <= i <= |evict| && Valid()
        invariant order == old(order)[i..]
        invariant hist == old(hist) - Keys(evict[..i])
      {
        assert Keys(evict[..i + 1]) == Keys(evict[..i]) + {evict[i]} by {
          assert evict[..i + 1] == evict[..i] + [evict[i]];
        }
        MinusStep(old(hist), Keys(evict[..i]), evict[i]);
        DeleteFirst(evict[i]);
        i := i + 1;
      }
      assert evict[..i] == old(order)[..Evicted];
    }

    /** `_get_or_create_session(id)`. */
    method GetOrCreateSession(id: string) returns (h: History)
      requires Valid()
      modifies this
      ensures Valid()
      ensures Got(View(), h) == GetOrCreate(old(View()), id)
    {
      if id !in hist {
        if |order| >= MaxSessions {
          EvictOldest();
        }
        Assign(id, []);
      }
      h := hist[id];
    }

    /** `sessions[id] = h`. */
    method Assign(id: string, h: History)
      requires Valid()
      modifies this
      ensures Valid()
      ensures View() == Put(old(View()), id, h)
    {
      PutOk(View(), id, h);
      if id !in hist {
        order := order + [id];
      }
      hist := hist[id := h];
    }

    /** The store effect of `new_session`, for the id `uuid4()` produced; returns the greeting. */
    method NewSession(id: string) returns (greeting: string)
      requires Valid()
      modifies this
      ensures Valid()
      ensures View() == Seeded(old(View()), id) && greeting == Greeting
    {
      greeting := Greeting;
      Assign(id, [Message("assistant", greeting)]);
    }
  }
}
