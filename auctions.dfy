/**
 * The pure parts of `Auction` (time left, `isOpen`, identity, the copy
 * constructor) and the connection handling of `createAuctionWithArticles`.
 */
module Auctions {
  import opened Wrappers
  import opened Text
  import opened Pool

  /** A Java `int`. */
  type Int32 = x: int | -0x8000_0000 <= x < 0x8000_0000

  /** Two's-complement wrap-around of a Java `int` result. */
  function Wrap32(x: int): (r: Int32)
    ensures (r - x) % 0x1_0000_0000 == 0
  {
    (x + 0x8000_0000) % 0x1_0000_0000 - 0x8000_0000
  }

  /** Timestamps are instants in milliseconds. */
  datatype Auction = Auction(
    id: Int32, creatorUserId: int, creatorUserUsername: string,
    createdAt: int, terminatesAt: int, closedByUser: bool, minimumBidWedge: int)

  /** The copy constructor: every field is copied. */
  function Copy(a: Auction): (r: Auction)
    ensures r == a
  {
    Auction(a.id, a.creatorUserId, a.creatorUserUsername, a.createdAt, a.terminatesAt, a.closedByUser, a.minimumBidWedge)
  }

  /** `equals`: same identifier. */
  predicate Equals(a: Auction, b: Auction) {
    a.id == b.id
  }

  /** `hashCode`: `Objects.hash(id)`, that is `31 * 1 + id` in `int` arithmetic. */
  function HashCode(a: Auction): Int32 {
    Wrap32(31 + a.id)
  }

  /** The `equals`/`hashCode` contract: equal auctions hash alike, and (ids being `int`s) only they do. */
  lemma HashCodeMatchesEquals(a: Auction, b: Auction)
    ensures Equals(a, b) <==> HashCode(a) == HashCode(b)
  {
    var x, y := 31 + a.id, 31 + b.id;
    if HashCode(a) == HashCode(b) {
      WrapInjective(x, y);
    }
  }

  lemma WrapInjective(x: int, y: int)
    requires -0x8000_0000 + 31 <= x < 0x8000_0000 + 31 && -0x8000_0000 + 31 <= y < 0x8000_0000 + 31
    requires Wrap32(x) == Wrap32(y)
    ensures x == y
  {
    var u, v := x + 0x8000_0000, y + 0x8000_0000;
    assert 0 <= u < 0x1_0000_0000 + 31 && 0 <= v < 0x1_0000_0000 + 31;
    assert u % 0x1_0000_0000 == (if u < 0x1_0000_0000 then u else u - 0x1_0000_0000);
    assert v % 0x1_0000_0000 == (if v < 0x1_0000_0000 then v else v - 0x1_0000_0000);
  }

  /**
   * `isOpen`: the termination instant is strictly after `now`. The hours
   * left that `calculate_delta_to_termination` shows for an open auction are
   * never negative, and for a closed one never positive; in its last hour an
   * open auction shows `0d 0h`.
   */
  predicate IsOpen(a: Auction, now: int): (r: bool)
    ensures r ==> HoursUntil(now, a.terminatesAt) >= 0
    ensures !r ==> HoursUntil(now, a.terminatesAt) <= 0
    ensures r && a.terminatesAt - now < MillisPerHour ==> DeltaToTermination(HoursUntil(now, a.terminatesAt)) == "0d 0h"
  {
    a.terminatesAt > now
  }

  const MillisPerHour: int := 3_600_000

  /** `from.until(to, ChronoUnit.HOURS)` on millisecond instants: complete hours, truncated toward zero. */
  function HoursUntil(from: int, to: int): int {
    JavaDiv(to - from, MillisPerHour)
  }

  /** Java's `/` on `long`: truncation toward zero. */
  function JavaDiv(a: int, b: int): int
    requires b > 0
  {
    if a >= 0 then a / b else -((-a) / b)
  }

  /** Java's `%` on `long`: the sign follows the dividend. */
  function JavaRem(a: int, b: int): int
    requires b > 0
  {
    a - b * JavaDiv(a, b)
  }

  /** `calculate_delta_to_termination`, given the whole hours from the other date to the termination. */
  function DeltaToTermination(delta: int): string
  {
    IntToString(JavaDiv(delta, 24)) + "d " + IntToString(JavaRem(delta, 24)) + "h"
  }

  /** Days and hours recombine to the delta; both are non-negative ahead of the end, non-positive after it. */
  lemma DeltaSplit(delta: int)
    ensures 24 * JavaDiv(delta, 24) + JavaRem(delta, 24) == delta
    ensures delta >= 0 ==> JavaDiv(delta, 24) >= 0 && 0 <= JavaRem(delta, 24) <= 23
    ensures delta < 0 ==> JavaDiv(delta, 24) <= 0 && -23 <= JavaRem(delta, 24) <= 0
  {
  }

  /** Ahead of the end the text reads back as the delta: days, then fewer than 24 hours in at most two digits. */
  lemma DeltaReadsBack(delta: int)
    requires delta >= 0
    ensures var days, hours := NatToString(delta / 24), NatToString(delta % 24);
      && DeltaToTermination(delta) == days + "d " + hours + "h"
      && 24 * DecimalValue(days) + DecimalValue(hours) == delta
      && |hours| <= 2
  {
    DecimalValueOfNatToString(delta / 24);
    DecimalValueOfNatToString(delta % 24);
    NatToStringLength(delta % 24, 2);
  }

  /** After the end both parts carry the sign of the remainder: five hours late is `0d -5h`. */
  lemma DeltaPastEnd()
    ensures DeltaToTermination(-5) == "0d -5h"
    ensures DeltaToTermination(-29) == "-1d -5h"
  {
  }

  /** How `createAuctionWithArticles` ends. */
  datatype CreateOutcome =
    | Committed(auctionId: int)   // transaction committed
    | NoArticles                  // `InsertIntoDBFailedException`: empty article list
    | InsertFailed                // `InsertIntoDBFailedException` or `UnavailableException` from the transaction
    | NoConnection                // `getConnection` threw `UnavailableException`
    | Waiting                     // `getConnection` is waiting on the pool

  /**
   * `createAuctionWithArticles` as written: the connection is taken first and
   * the empty-list check throws before the `try` whose `finally` returns it.
   * `transaction` is the outcome of the SQL work (the new id, or `None`).
   */
  method CreateAuctionWithArticles(pool: ConnectionsHandler, probe: Handle -> Probe, created: Option<Handle>,
                                   articleIds: seq<int>, transaction: Option<int>, now: int)
    returns (r: CreateOutcome, kept: Option<Handle>)
    requires pool.Valid()
    requires created.Some? ==> created.value !in pool.outstanding
    modifies pool
    ensures pool.Valid()
    ensures r == NoArticles ==> articleIds == [] && kept.Some?
    ensures articleIds == [] && !MustWait(old(pool.connections), old(pool.openConnections)) && created.Some? ==>
      r == NoArticles && kept.Some?
    ensures kept.Some? ==> kept.value !in old(pool.outstanding) && pool.outstanding == old(pool.outstanding) + {kept.value}
    ensures kept.None? ==> pool.outstanding == old(pool.outstanding)
    ensures articleIds != [] ==> kept.None?
  {
    var got, batch := pool.GetConnection(probe, created);
    if got == WouldBlock {
      return Waiting, None;
    } else if got == Unavailable {
      return NoConnection, None;
    }
    var connection := got.connection;
    if articleIds == [] {
      return NoArticles, Some(connection);
    }
    pool.ReturnConnection(connection, now);
    r := if transaction.Some? then Committed(transaction.value) else InsertFailed;
    kept := None;
  }

  /** The same with the empty-list check moved before `getConnection`: no call keeps a connection. */
  method CreateAuctionWithArticlesFixed(pool: ConnectionsHandler, probe: Handle -> Probe, created: Option<Handle>,
                                        articleIds: seq<int>, transaction: Option<int>, now: int)
    returns (r: CreateOutcome)
    requires pool.Valid()
    requires created.Some? ==> created.value !in pool.outstanding
    modifies pool
    ensures pool.Valid()
    ensures pool.outstanding == old(pool.outstanding)
    ensures articleIds == [] ==>
      r == NoArticles && pool.connections == old(pool.connections) && pool.openConnections == old(pool.openConnections)
  {
    if articleIds == [] {
      return NoArticles;
    }
    var got, batch := pool.GetConnection(probe, created);
    if got == WouldBlock {
      return Waiting;
    } else if got == Unavailable {
      return NoConnection;
    }
    pool.ReturnConnection(got.connection, now);
    r := if transaction.Some? then Committed(transaction.value) else InsertFailed;
  }
}
