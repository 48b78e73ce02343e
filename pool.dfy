/**
 * The bounded, expiring JDBC connection pool of `ConnectionsHandler`.
 *
 * Each `synchronized (connections)` critical section is one step of the
 * class below; waiting on the monitor becomes a `WouldBlock` result that
 * leaves the state as it was. Time is an integer `now` (seconds) passed in
 * by the caller, and the JDBC calls (`isValid`, `DriverManager.getConnection`,
 * `close`) are oracle outcomes passed in as parameters.
 */
module Pool {
  import opened Wrappers

  const MaxOpenConnections: int := 10
  const ConnectionExpirationSeconds: int := 30

  /** An opaque JDBC connection object, compared by identity. */
  type Handle = nat

  /** An idle connection and the instant after which the cleaner may close it. */
  datatype ConnectionWithExpiration = ConnectionWithExpiration(connection: Handle, expiration: int) {
    /** `expiration.before(now)`: strictly earlier than the current instant. */
    predicate IsExpired(now: int) {
      expiration < now
    }
  }

  /** The outcome of `connection.isValid(1)`. */
  datatype Probe = Live | NotValid | SqlError

  /** What `getConnection` does for its caller. */
  datatype GetResult =
    | Reused(connection: Handle)    // a pooled connection passed the probe
    | Created(connection: Handle)   // a new connection was opened
    | WouldBlock                    // list empty and the cap reached: the caller waits
    | Unavailable                   // `newConnection` failed: `UnavailableException`

  function Handles(s: seq<ConnectionWithExpiration>): (hs: seq<Handle>)
    ensures |hs| == |s|
    ensures forall i :: 0 <= i < |s| ==> hs[i] == s[i].connection
  {
    seq(|s|, i requires 0 <= i < |s| => s[i].connection)
  }

  ghost predicate DistinctHandles(s: seq<ConnectionWithExpiration>) {
    forall i, j :: 0 <= i < j < |s| ==> s[i].connection != s[j].connection
  }

  /**
   * Under the accounting invariant, once ten connections are borrowed and
   * not returned, every later `getConnection` has to wait.
   */
  lemma BorrowedToCapMustWait(connections: seq<ConnectionWithExpiration>, openConnections: int, outstanding: set<Handle>)
    requires openConnections == |connections| + |outstanding| && openConnections <= MaxOpenConnections
    requires |outstanding| >= MaxOpenConnections
    ensures MustWait(connections, openConnections)
  {
  }

  /** Expirations never increase from head (most recent) to tail (oldest). */
  ghost predicate NonIncreasing(s: seq<ConnectionWithExpiration>) {
    forall i, j :: 0 <= i < j < |s| ==> s[i].expiration >= s[j].expiration
  }

  /** The condition under which `getConnection` waits on the monitor. */
  predicate MustWait(connections: seq<ConnectionWithExpiration>, openConnections: int) {
    connections == [] && openConnections >= MaxOpenConnections
  }

  // ---------------------------------------------------------------------------
  // The scan of the idle list in `getConnection`

  /** Where the head-first scan stops, what is left, and what it threw away. */
  datatype Scan = Scan(found: Option<Handle>, rest: seq<ConnectionWithExpiration>, discarded: seq<Handle>)

  /**
   * The scan as the pool performs it: pop the head, keep it if the probe says
   * it is live, otherwise discard it and go on. A probe that throws is treated
   * like a failed one (see `ScanAsWritten` for the source's own handling).
   */
  function ScanIdle(idle: seq<ConnectionWithExpiration>, probe: Handle -> Probe): Scan
  {
    if idle == [] then Scan(None, [], [])
    else if probe(idle[0].connection) == Live then Scan(Some(idle[0].connection), idle[1..], [])
    else
      var s := ScanIdle(idle[1..], probe);
      s.(discarded := [idle[0].connection] + s.discarded)
  }

  /**
   * The scan returns the first live entry counted from the head; everything
   * before it failed the probe and was discarded in order, everything after
   * it is left untouched. With no live entry the list is drained.
   */
  lemma {:induction false} ScanIdleSplits(idle: seq<ConnectionWithExpiration>, probe: Handle -> Probe)
    ensures var s := ScanIdle(idle, probe);
      && |s.discarded| + |s.rest| + (if s.found.Some? then 1 else 0) == |idle|
      && s.rest == idle[|idle| - |s.rest|..]
      && (forall k :: 0 <= k < |s.discarded| ==> s.discarded[k] == idle[k].connection && probe(idle[k].connection) != Live)
      && (s.found.Some? ==> probe(s.found.value) == Live && s.found.value == idle[|s.discarded|].connection)
      && (s.found.None? ==> s.rest == [])
  {
    if idle != [] && probe(idle[0].connection) != Live {
      var s, t := ScanIdle(idle, probe), ScanIdle(idle[1..], probe);
      ScanIdleSplits(idle[1..], probe);
      assert s.discarded == [idle[0].connection] + t.discarded;
      forall k | 1 <= k < |s.discarded|
        ensures s.discarded[k] == idle[k].connection && probe(idle[k].connection) != Live
      {
        assert s.discarded[k] == t.discarded[k - 1] && idle[k] == idle[1..][k - 1];
      }
      if s.found.Some? {
        assert idle[|s.discarded|] == idle[1..][|t.discarded|];
      }
      assert idle[1..][|idle[1..]| - |t.rest|..] == idle[|idle| - |t.rest|..];
    }
  }

  /** A scan preceded by discarding `pending`. */
  function Discarding(pending: seq<Handle>, s: Scan): Scan {
    s.(discarded := pending + s.discarded)
  }

  /** One failed probe moves the head entry onto the discarded batch. */
  lemma DiscardingStep(pending: seq<Handle>, idle: seq<ConnectionWithExpiration>, probe: Handle -> Probe)
    requires idle != [] && probe(idle[0].connection) != Live
    ensures Discarding(pending, ScanIdle(idle, probe)) == Discarding(pending + [idle[0].connection], ScanIdle(idle[1..], probe))
  {
    var t := ScanIdle(idle[1..], probe);
    assert pending + ([idle[0].connection] + t.discarded) == (pending + [idle[0].connection]) + t.discarded;
  }

  /**
   * The loop of `getConnection` (lines 114-135): pop the head until an entry
   * passes the probe; each failed one is counted down and joins the batch.
   */
  method PopUntilLive(idle: seq<ConnectionWithExpiration>, openConnections: int, probe: Handle -> Probe)
    returns (found: Option<Handle>, rest: seq<ConnectionWithExpiration>, open: int, pending: seq<Handle>)
    ensures ScanIdle(idle, probe) == Scan(found, rest, pending)
    ensures open == openConnections - |pending|
  {
    rest, open, pending, found := idle, openConnections, [], None;
    while rest != []
      invariant open == openConnections - |pending|
      invariant ScanIdle(idle, probe) == Discarding(pending, ScanIdle(rest, probe))
    {
      var c := rest[0];
      if probe(c.connection) == Live {
        found := Some(c.connection);
        rest := rest[1..];
        return;
      }
      DiscardingStep(pending, rest, probe);
      rest := rest[1..];
      open := open - 1;
      pending := pending + [c.connection];
    }
  }

  // ---------------------------------------------------------------------------
  // The cleaner's scan from the tail

  /** The idle list after popping expired entries from the tail until a live one. */
  function Cleaned(s: seq<ConnectionWithExpiration>, now: int): seq<ConnectionWithExpiration>
  {
    if s == [] || !s[|s| - 1].IsExpired(now) then s else Cleaned(s[..|s| - 1], now)
  }

  /** The connections the cleaner collects, oldest first. */
  function ExpiredFromTail(s: seq<ConnectionWithExpiration>, now: int): seq<Handle>
  {
    if s == [] || !s[|s| - 1].IsExpired(now) then []
    else [s[|s| - 1].connection] + ExpiredFromTail(s[..|s| - 1], now)
  }

  /**
   * The cleaner keeps a prefix of the list whose last entry (if any) has not
   * expired, and removes exactly the expired suffix, collecting the tail first.
   */
  lemma {:induction false} CleanedSplits(s: seq<ConnectionWithExpiration>, now: int)
    ensures var c, e := Cleaned(s, now), ExpiredFromTail(s, now);
      && |c| + |e| == |s|
      && c == s[..|c|]
      && (c != [] ==> !c[|c| - 1].IsExpired(now))
      && (forall i :: |c| <= i < |s| ==> s[i].IsExpired(now))
      && (forall k :: 0 <= k < |e| ==> e[k] == s[|s| - 1 - k].connection)
  {
    if s == [] || !s[|s| - 1].IsExpired(now) {
      assert s[..|s|] == s;
    } else {
      var t := s[..|s| - 1];
      CleanedSplits(t, now);
      var c, e := Cleaned(t, now), ExpiredFromTail(t, now);
      assert Cleaned(s, now) == c;
      assert ExpiredFromTail(s, now) == [s[|s| - 1].connection] + e;
      assert c == t[..|c|] == s[..|c|];
      forall i | |c| <= i < |s| ensures s[i].IsExpired(now) {
        if i < |s| - 1 {
          assert s[i] == t[i];
        }
      }
      forall k | 0 <= k < |e| + 1 ensures ExpiredFromTail(s, now)[k] == s[|s| - 1 - k].connection {
        if 0 < k {
          assert t[|t| - 1 - (k - 1)] == s[|s| - 1 - k];
        }
      }
    }
  }

  /**
   * Because the list is ordered by expiration, stopping at the first live
   * entry from the tail leaves no expired entry anywhere in the list.
   */
  lemma CleanedLeavesNoExpired(s: seq<ConnectionWithExpiration>, now: int)
    requires NonIncreasing(s)
    ensures forall i :: 0 <= i < |Cleaned(s, now)| ==> !Cleaned(s, now)[i].IsExpired(now)
  {
    CleanedSplits(s, now);
  }

  /** Without the ordering the early stop is wrong: an expired entry can survive. */
  lemma UnorderedCleanerKeepsExpired()
    ensures var s := [ConnectionWithExpiration(1, 0), ConnectionWithExpiration(2, 100)];
      !NonIncreasing(s) && Cleaned(s, 50) == s && s[0].IsExpired(50)
  {
    var s := [ConnectionWithExpiration(1, 0), ConnectionWithExpiration(2, 100)];
    assert s[0].expiration < s[1].expiration;
  }

  /**
   * `returnConnection` reads the clock before it enters the monitor. Two
   * returns that read `readA < readB` but enter in the other order leave the
   * earlier expiration at the head, and a cleaner pass between the two
   * expirations keeps the expired entry.
   */
  lemma RacingReturnsKeepExpired(a: Handle, b: Handle, readA: int, readB: int, now: int)
    requires readA < readB
    requires readA + ConnectionExpirationSeconds < now <= readB + ConnectionExpirationSeconds
    ensures var s := [ConnectionWithExpiration(a, readA + ConnectionExpirationSeconds)]
                     + [ConnectionWithExpiration(b, readB + ConnectionExpirationSeconds)];
      !NonIncreasing(s) && Cleaned(s, now) == s && s[0].IsExpired(now)
  {
    var s := [ConnectionWithExpiration(a, readA + ConnectionExpirationSeconds)]
             + [ConnectionWithExpiration(b, readB + ConnectionExpirationSeconds)];
    assert s[0].expiration < s[1].expiration;
  }

  /**
   * The loop of the `cleaner` (lines 223-237): pop expired entries from the
   * tail, counting each down, until the list is empty or the last entry has
   * not expired.
   */
  method PopExpired(idle: seq<ConnectionWithExpiration>, openConnections: int, now: int)
    returns (live: seq<ConnectionWithExpiration>, open: int, expiredConnections: seq<Handle>)
    ensures live == Cleaned(idle, now)
    ensures expiredConnections == ExpiredFromTail(idle, now)
    ensures open == openConnections - |expiredConnections|
  {
    live, open, expiredConnections := idle, openConnections, [];
    var foundNotExpired := false;
    while live != [] && !foundNotExpired
      invariant open == openConnections - |expiredConnections|
      invariant Cleaned(idle, now) == Cleaned(live, now)
      invariant ExpiredFromTail(idle, now) == expiredConnections + ExpiredFromTail(live, now)
      invariant foundNotExpired ==> live != [] && !live[|live| - 1].IsExpired(now)
      decreases |live|, if foundNotExpired then 0 else 1
    {
      var c := live[|live| - 1];
      if c.IsExpired(now) {
        live := live[..|live| - 1];
        open := open - 1;
        expiredConnections := expiredConnections + [c.connection];
      } else {
        foundNotExpired := true;
      }
    }
  }

  // ---------------------------------------------------------------------------
  // `asyncCloser.run`

  /** The connections on which `asyncCloser.run` calls `close()`, in order. */
  function ClosedByCloser(batch: seq<Handle>, isValid: Handle -> Probe): seq<Handle>
  {
    if batch == [] then []
    else ClosedByCloser(batch[..|batch| - 1], isValid)
         + (if isValid(batch[|batch| - 1]) == Live then [batch[|batch| - 1]] else [])
  }

  /** The closer closes exactly the batch's connections that still pass `isValid`. */
  lemma {:induction false} ClosedByCloserExactly(batch: seq<Handle>, isValid: Handle -> Probe)
    ensures forall h :: h in ClosedByCloser(batch, isValid) <==> h in batch && isValid(h) == Live
  {
    if batch != [] {
      ClosedByCloserExactly(batch[..|batch| - 1], isValid);
      assert batch == batch[..|batch| - 1] + [batch[|batch| - 1]];
    }
  }

  /**
   * `asyncCloser.run`: every connection of the batch is probed in turn and
   * closed if still valid; an `SQLException` on one is logged and the loop
   * goes on with the next.
   */
  method AsyncCloserRun(toCloseAsync: seq<Handle>, isValid: Handle -> Probe) returns (closed: seq<Handle>)
    ensures closed == ClosedByCloser(toCloseAsync, isValid)
    ensures forall h :: h in closed <==> h in toCloseAsync && isValid(h) == Live
  {
    closed := [];
    var i := 0;
    while i < |toCloseAsync|
      invariant 0 <= i <= |toCloseAsync|
      invariant closed == ClosedByCloser(toCloseAsync[..i], isValid)
    {
      var c := toCloseAsync[i];
      if isValid(c) == Live {
        closed := closed + [c];
      }
      assert toCloseAsync[..i + 1][..i] == toCloseAsync[..i];
      i := i + 1;
    }
    assert toCloseAsync[..i] == toCloseAsync;
    ClosedByCloserExactly(toCloseAsync, isValid);
  }

  /**
   * The batch `getConnection` hands to `asyncCloser` holds exactly the
   * connections that just failed `isValid(1)`; the closer closes only those
   * that pass it, so under the same answers it closes none of them.
   */
  lemma CloserClosesNoneOfScanBatch(idle: seq<ConnectionWithExpiration>, probe: Handle -> Probe)
    ensures ClosedByCloser(ScanIdle(idle, probe).discarded, probe) == []
  {
    ScanIdleSplits(idle, probe);
    ClosedByCloserNone(ScanIdle(idle, probe).discarded, probe);
  }

  /** A batch none of whose connections passes `isValid` is closed not at all. */
  lemma {:induction false} ClosedByCloserNone(batch: seq<Handle>, isValid: Handle -> Probe)
    requires forall i :: 0 <= i < |batch| ==> isValid(batch[i]) != Live
    ensures ClosedByCloser(batch, isValid) == []
  {
    if batch != [] {
      ClosedByCloserNone(batch[..|batch| - 1], isValid);
    }
  }

  // ---------------------------------------------------------------------------
  // The pool

  /**
   * The pool's invariant: the counter is the number of idle plus borrowed
   * connections and stays within the cap; idle handles are distinct and not
   * borrowed; every expiration was set by a return at or before `latest`.
   */
  ghost predicate PoolInvariant(connections: seq<ConnectionWithExpiration>, openConnections: int,
                                outstanding: set<Handle>, latest: int) {
    && openConnections == |connections| + |outstanding|
    && openConnections <= MaxOpenConnections
    && DistinctHandles(connections)
    && (forall i :: 0 <= i < |connections| ==> connections[i].connection !in outstanding)
    && (forall i :: 0 <= i < |connections| ==> connections[i].expiration <= latest + ConnectionExpirationSeconds)
  }

  /**
   * Dropping entries from the head keeps the invariant once the counter
   * drops by as many; the last entry dropped may instead become borrowed.
   */
  lemma SuffixKeepsInvariant(connections: seq<ConnectionWithExpiration>, openConnections: int,
                             outstanding: set<Handle>, latest: int, k: nat)
    requires PoolInvariant(connections, openConnections, outstanding, latest) && k <= |connections|
    ensures PoolInvariant(connections[k..], openConnections - k, outstanding, latest)
    ensures NonIncreasing(connections) ==> NonIncreasing(connections[k..])
    ensures 1 <= k ==>
      && connections[k - 1].connection !in outstanding
      && PoolInvariant(connections[k..], openConnections - k + 1, outstanding + {connections[k - 1].connection}, latest)
  {
    var rest := connections[k..];
    assert forall i :: 0 <= i < |rest| ==> rest[i] == connections[k + i];
    if 1 <= k {
      var h := connections[k - 1].connection;
      assert forall i :: 0 <= i < |rest| ==> rest[i].connection != h;
      assert |outstanding + {h}| == |outstanding| + 1;
    }
  }

  /** After the head scan the invariant holds with the found connection borrowed. */
  lemma ScanKeepsInvariant(connections: seq<ConnectionWithExpiration>, openConnections: int,
                           outstanding: set<Handle>, latest: int, probe: Handle -> Probe)
    requires PoolInvariant(connections, openConnections, outstanding, latest)
    ensures var s := ScanIdle(connections, probe);
      && (s.found.Some? ==> s.found.value !in outstanding)
      && PoolInvariant(s.rest, openConnections - |s.discarded|,
                       outstanding + (if s.found.Some? then {s.found.value} else {}), latest)
      && (NonIncreasing(connections) ==> NonIncreasing(s.rest))
  {
    var s := ScanIdle(connections, probe);
    ScanIdleSplits(connections, probe);
    SuffixKeepsInvariant(connections, openConnections, outstanding, latest, |connections| - |s.rest|);
  }

  /** Dropping entries from the tail keeps the invariant once the counter drops by as many. */
  lemma PrefixKeepsInvariant(connections: seq<ConnectionWithExpiration>, openConnections: int,
                             outstanding: set<Handle>, latest: int, k: nat)
    requires PoolInvariant(connections, openConnections, outstanding, latest) && k <= |connections|
    ensures PoolInvariant(connections[..k], openConnections - (|connections| - k), outstanding, latest)
    ensures NonIncreasing(connections) ==> NonIncreasing(connections[..k])
  {
  }

  /** Opening a new connection when the list is drained and below the cap keeps the invariant. */
  lemma CreateKeepsInvariant(openConnections: int, outstanding: set<Handle>, latest: int, h: Handle)
    requires PoolInvariant([], openConnections, outstanding, latest) && h !in outstanding
    requires openConnections < MaxOpenConnections
    ensures PoolInvariant([], openConnections + 1, outstanding + {h}, latest)
  {
    assert |outstanding + {h}| == |outstanding| + 1;
  }

  class ConnectionsHandler {
    /** The idle list, most recently returned first. */
    var connections: seq<ConnectionWithExpiration>
    /** Connections counted against the cap: idle ones and borrowed ones. */
    var openConnections: int
    /** Connections currently borrowed by callers. */
    ghost var outstanding: set<Handle>
    /** The latest instant at which a connection was returned. */
    ghost var latest: int

    ghost predicate Valid()
      reads this
    {
      PoolInvariant(connections, openConnections, outstanding, latest)
    }

    /** The ordering the cleaner relies on. */
    ghost predicate Ordered()
      reads this
    {
      NonIncreasing(connections)
    }

    constructor (start: int)
      ensures Valid() && Ordered()
      ensures connections == [] && openConnections == 0 && outstanding == {} && latest == start
    {
      connections := [];
      openConnections := 0;
      outstanding := {};
      latest := start;
    }

    /**
     * `getConnection`. `probe` answers `isValid(1)` for each pooled connection
     * and `created` is the outcome of `newConnection` (`None` when it throws).
     * `toCloseAsync` is the batch submitted to `asyncCloser`.
     */
    method GetConnection(probe: Handle -> Probe, created: Option<Handle>) returns (r: GetResult, toCloseAsync: seq<Handle>)
      requires Valid()
      requires created.Some? ==> created.value !in outstanding
      modifies this
      ensures Valid() && latest == old(latest)
      ensures old(Ordered()) ==> Ordered()
      ensures (r.Reused? || r.Created?) ==> r.connection !in old(outstanding)
      ensures MustWait(old(connections), old(openConnections)) ==>
        && r == WouldBlock && toCloseAsync == []
        && connections == old(connections) && openConnections == old(openConnections)
        && outstanding == old(outstanding)
      ensures !MustWait(old(connections), old(openConnections)) ==>
        var s := ScanIdle(old(connections), probe);
        && connections == s.rest
        && (s.found.Some? ==>
              && r == Reused(s.found.value) && toCloseAsync == []
              && openConnections == old(openConnections) - |s.discarded|
              && outstanding == old(outstanding) + {s.found.value})
        && (s.found.None? && created.Some? ==>
              && r == Created(created.value) && toCloseAsync == s.discarded
              && openConnections == old(openConnections) - |s.discarded| + 1
              && outstanding == old(outstanding) + {created.value})
        && (s.found.None? && created.None? ==>
              && r == Unavailable && toCloseAsync == s.discarded
              && openConnections == old(openConnections) - |s.discarded|
              && outstanding == old(outstanding))
    {
      if MustWait(connections, openConnections) {
        return WouldBlock, [];
      }
      var found, pending := TakeFromHead(probe);
      ScanIdleSplits(old(connections), probe);
      if found.Some? {
        // The batch collected so far is not submitted on this path.
        return Reused(found.value), [];
      }
      assert connections == [] && openConnections < MaxOpenConnections;
      openConnections := openConnections + 1;
      toCloseAsync := pending;
      match created
      case Some(h) =>
        // The scan drained the list, so the new connection joins only the borrowed ones.
        CreateKeepsInvariant(openConnections - 1, outstanding, latest, h);
        outstanding := outstanding + {h};
        r := Created(h);
      case None =>
        openConnections := openConnections - 1;
        r := Unavailable;
    }

    /**
     * The scan of `getConnection` on the pool's own list and counter: the
     * live connection found, if any, becomes borrowed.
     */
    method TakeFromHead(probe: Handle -> Probe) returns (found: Option<Handle>, pending: seq<Handle>)
      requires Valid()
      modifies this
      ensures Valid() && latest == old(latest)
      ensures var s := ScanIdle(old(connections), probe);
        && found == s.found && pending == s.discarded && connections == s.rest
        && openConnections == old(openConnections) - |pending|
        && outstanding == old(outstanding) + (if found.Some? then {found.value} else {})
      ensures found.Some? ==> found.value !in old(outstanding)
      ensures old(Ordered()) ==> Ordered()
    {
      var rest, open;
      found, rest, open, pending := PopUntilLive(connections, openConnections, probe);
      ScanKeepsInvariant(connections, openConnections, outstanding, latest, probe);
      connections, openConnections := rest, open;
      if found.Some? {
        outstanding := outstanding + {found.value};
      }
    }

    /**
     * `returnConnection`: the borrowed connection goes back at the head of the
     * list with expiration `now + 30`.
     */
    method ReturnConnection(connection: Handle, now: int)
      requires Valid() && connection in outstanding
      modifies this
      ensures Valid()
      ensures connections == [ConnectionWithExpiration(connection, now + ConnectionExpirationSeconds)] + old(connections)
      ensures openConnections == old(openConnections)
      ensures outstanding == old(outstanding) - {connection}
      ensures latest == if now > old(latest) then now else old(latest)
      ensures old(Ordered()) && now >= old(latest) ==> Ordered()
    {
      connections := [ConnectionWithExpiration(connection, now + ConnectionExpirationSeconds)] + connections;
      outstanding := outstanding - {connection};
      if now > latest {
        latest := now;
      }
    }

    /**
     * One tick of the `cleaner`: pop expired entries from the tail, stopping at
     * the first one that has not expired. With an empty list the cleaner waits,
     * which leaves the state as it was.
     */
    method Cleaner(now: int) returns (expiredConnections: seq<Handle>)
      requires Valid()
      modifies this
      ensures Valid() && outstanding == old(outstanding) && latest == old(latest)
      ensures connections == Cleaned(old(connections), now)
      ensures expiredConnections == ExpiredFromTail(old(connections), now)
      ensures openConnections == old(openConnections) - |expiredConnections|
      ensures old(Ordered()) ==> Ordered() && forall i :: 0 <= i < |connections| ==> !connections[i].IsExpired(now)
    {
      var live, open;
      live, open, expiredConnections := PopExpired(connections, openConnections, now);
      CleanedSplits(connections, now);
      PrefixKeepsInvariant(connections, openConnections, outstanding, latest, |live|);
      if Ordered() {
        CleanedLeavesNoExpired(connections, now);
      }
      connections, openConnections := live, open;
    }

    /**
     * The drain in `contextDestroyed`: `close()` is called on every idle
     * connection in list order, and an `SQLException` from one (`closeFails`)
     * is logged without stopping the loop. The list and the counter are left
     * as they are.
     */
    method ContextDestroyed(closeFails: Handle -> bool) returns (closeAttempts: seq<Handle>, failures: seq<Handle>)
      requires Valid()
      ensures closeAttempts == Handles(connections)
      ensures forall i, j :: 0 <= i < j < |closeAttempts| ==> closeAttempts[i] != closeAttempts[j]
      ensures forall h :: h in failures <==> h in closeAttempts && closeFails(h)
    {
      closeAttempts, failures := [], [];
      for i := 0 to |connections|
        invariant closeAttempts == Handles(connections[..i])
        invariant forall h :: h in failures <==> h in closeAttempts && closeFails(h)
      {
        var c := connections[i];
        closeAttempts := closeAttempts + [c.connection];
        if closeFails(c.connection) {
          failures := failures + [c.connection];
        }
      }
      assert connections[..|connections|] == connections;
    }
  }

  // ---------------------------------------------------------------------------
  // The probe-error path as the source writes it

  /** The as-written scan: `dropped` are the entries whose probe threw. */
  datatype ScanAsWrittenResult = ScanAsWrittenResult(
    found: Option<Handle>, rest: seq<ConnectionWithExpiration>, toCloseAsync: seq<Handle>, dropped: seq<Handle>)

  /**
   * Lines 114-135 as written: an entry whose `isValid` throws is removed
   * from the list, but neither counted down nor queued for closing.
   */
  function ScanAsWritten(idle: seq<ConnectionWithExpiration>, probe: Handle -> Probe): ScanAsWrittenResult
  {
    if idle == [] then ScanAsWrittenResult(None, [], [], [])
    else
      var h := idle[0].connection;
      match probe(h)
      case Live => ScanAsWrittenResult(Some(h), idle[1..], [], [])
      case NotValid =>
        var s := ScanAsWritten(idle[1..], probe);
        s.(toCloseAsync := [h] + s.toCloseAsync)
      case SqlError =>
        var s := ScanAsWritten(idle[1..], probe);
        s.(dropped := [h] + s.dropped)
  }

  /** `openConnections` after `getConnection` as written (before a failed create undoes its +1). */
  function OpenAfterAsWritten(idle: seq<ConnectionWithExpiration>, openConnections: int, probe: Handle -> Probe): int
  {
    var s := ScanAsWritten(idle, probe);
    openConnections - |s.toCloseAsync| + (if s.found.None? then 1 else 0)
  }

  /**
   * As written, every dropped entry keeps its slot: the counter ends up
   * `|dropped|` above the number of idle plus borrowed connections.
   */
  lemma {:induction false} ScanAsWrittenLeaksDropped(idle: seq<ConnectionWithExpiration>, openConnections: int, probe: Handle -> Probe)
    ensures var s := ScanAsWritten(idle, probe);
      OpenAfterAsWritten(idle, openConnections, probe)
        == (openConnections - |idle|) + |s.rest| + 1 + |s.dropped|
  {
    if idle != [] && probe(idle[0].connection) != Live {
      ScanAsWrittenLeaksDropped(idle[1..], openConnections, probe);
    }
  }

  /**
   * The cap is broken: one idle connection, nine borrowed, a probe that
   * throws, and `openConnections` reaches 11 while a new connection is opened.
   */
  lemma ProbeErrorExceedsCap()
    ensures var idle := [ConnectionWithExpiration(1, 30)];
      && !MustWait(idle, MaxOpenConnections)
      && ScanAsWritten(idle, _ => SqlError).found.None?
      && OpenAfterAsWritten(idle, MaxOpenConnections, _ => SqlError) == MaxOpenConnections + 1
  {
  }
}
