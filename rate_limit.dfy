/**
 * The fixed-window rate gate of the chat endpoint: per client address a
 * request count and the time its window started. Times are the readings of
 * a monotonic clock, in seconds, passed in by the caller.
 */
module RateLimit {

  /** Requests a client may make in one window. */
  const Max: int := 20

  /** Window length in seconds; a window whose age is exactly this is still live. */
  const Window: real := 60.0

  datatype Entry = Entry(count: int, start: real)

  /** The gate's table after one request, and whether the request is let through. */
  datatype Verdict = Verdict(entries: map<string, Entry>, accepted: bool)

  /** A window that began at `start` no longer covers `now`. */
  predicate Expired(start: real, now: real)
  {
    now - start > Window
  }

  /** `_check_rate_limit(ip)` at time `now`. */
  function Gate(m: map<string, Entry>, ip: string, now: real): Verdict
  {
    if ip !in m || Expired(m[ip].start, now) then Verdict(m[ip := Entry(1, now)], true)
    else if m[ip].count >= Max then Verdict(m, false)
    else Verdict(m[ip := m[ip].(count := m[ip].count + 1)], true)
  }

  /** Every client's count is between 1 and `Max`. */
  predicate Bounded(m: map<string, Entry>)
  {
    forall ip :: ip in m ==> 1 <= m[ip].count <= Max
  }

  /**
   * An unseen client, or one whose window is more than `Window` old, starts a
   * fresh window and is let in. In a live window a client at `Max` is turned
   * away with nothing changed; below `Max` its count goes up by one. Other
   * clients are never touched, and no count ever exceeds `Max`.
   */
  lemma GateSpec(m: map<string, Entry>, ip: string, now: real)
    ensures var v := Gate(m, ip, now);
      && ((ip !in m || Expired(m[ip].start, now)) ==> v.accepted && v.entries == m[ip := Entry(1, now)])
      && ((ip in m && !Expired(m[ip].start, now) && m[ip].count >= Max) ==> !v.accepted && v.entries == m)
      && ((ip in m && !Expired(m[ip].start, now) && m[ip].count < Max) ==>
        v.accepted && v.entries == m[ip := Entry(m[ip].count + 1, m[ip].start)])
      && (forall other :: other != ip ==> (other in v.entries <==> other in m))
      && (forall other :: other != ip && other in m ==> v.entries[other] == m[other])
      && ip in v.entries
      && (Bounded(m) ==> Bounded(v.entries))
  {
  }

  /** A window is still live at exactly `Window` seconds, so a full one still turns requests away. */
  lemma BoundaryStillLive(m: map<string, Entry>, ip: string, now: real)
    requires ip in m && now == m[ip].start + Window && m[ip].count >= Max
    ensures !Gate(m, ip, now).accepted
  {
  }

  /** How many of the requests at `times` the gate lets through, from `ip`, in order. */
  function Accepted(m: map<string, Entry>, ip: string, times: seq<real>): nat
    decreases |times|
  {
    if times == [] then 0
    else
      var v := Gate(m, ip, times[0]);
      (if v.accepted then 1 else 0) + Accepted(v.entries, ip, times[1..])
  }

  function Min(a: int, b: int): int
  {
    if a < b then a else b
  }

  /**
   * Within one live window, a client that has used `c` requests gets exactly
   * `Max - c` more (or as many as it asks for, if fewer) and the window's
   * start stays put.
   */
  lemma {:induction false} WindowAccepts(m: map<string, Entry>, ip: string, times: seq<real>)
    requires ip in m && 1 <= m[ip].count <= Max
    requires forall k :: 0 <= k < |times| ==> !Expired(m[ip].start, times[k])
    ensures Accepted(m, ip, times) == Min(|times|, Max - m[ip].count)
    decreases |times|
  {
    if times != [] {
      var v := Gate(m, ip, times[0]);
      assert v.entries[ip].start == m[ip].start;
      assert forall k :: 0 <= k < |times| - 1 ==> times[1..][k] == times[k + 1];
      WindowAccepts(v.entries, ip, times[1..]);
    }
  }

  /**
   * A client's first window: of requests all within `Window` seconds of the
   * first, at most `Max` are let through.
   */
  lemma FirstWindow(m: map<string, Entry>, ip: string, times: seq<real>)
    requires ip !in m && times != []
    requires forall k :: 0 <= k < |times| ==> !Expired(times[0], times[k])
    ensures Accepted(m, ip, times) == Min(|times|, Max)
  {
    var v := Gate(m, ip, times[0]);
    assert forall k :: 0 <= k < |times| - 1 ==> times[1..][k] == times[k + 1];
    WindowAccepts(v.entries, ip, times[1..]);
  }

  /** The gate's table, updated in place. */
  class RateLimiter {
    var entries: map<string, Entry>

    constructor ()
      ensures entries == map[]
    {
      entries := map[];
    }

    /** `_check_rate_limit(ip)`, with the clock reading `now`. */
    method Check(ip: string, now: real) returns (accepted: bool)
      modifies this
      ensures Verdict(entries, accepted) == Gate(old(entries), ip, now)
    {
      if ip !in entries || now - entries[ip].start > Window {
        entries := entries[ip := Entry(1, now)];
        return true;
      }
      if entries[ip].count >= Max {
        return false;
      }
      entries := entries[ip := entries[ip].(count := entries[ip].count + 1)];
      return true;
    }
  }
}
