/**
 * The part of the Twitter client library that the extractor relies on:
 * Java `long` status ids, statuses, the `Paging` request and the outcome of
 * one timeline request. The client itself (network I/O) is not modelled;
 * a run is driven by a script of responses instead.
 */
module Twitter {

  /** Bounds of Java's signed 64-bit `long`. */
  const LONG_MIN: int := -0x8000_0000_0000_0000
  const LONG_MAX: int := 0x7FFF_FFFF_FFFF_FFFF

  /** Modulus of 64-bit two's-complement arithmetic. */
  const LONG_MODULUS: int := 0x1_0000_0000_0000_0000

  type Long = x: int | LONG_MIN <= x <= LONG_MAX

  /**
   * Wraps an integer into the `long` range the way Java's `long`
   * arithmetic does (two's complement, modulo 2^64).
   */
  function WrapLong(x: int): Long
  {
    (x - LONG_MIN) % LONG_MODULUS + LONG_MIN
  }

  /** A point in time (`java.util.Date`), kept as milliseconds since the epoch; never inspected. */
  datatype Date = Date(epochMillis: Long)

  /** One timeline entry as returned by the API (`twitter4j.Status`). */
  datatype Status = Status(id: Long, createdAt: Date, text: string)

  /**
   * One timeline request (`twitter4j.Paging`): page number, page size and
   * the inclusive upper bound on the ids to return.
   */
  datatype Paging = Paging(page: int, count: int, maxId: Long)

  /**
   * The outcome of one `getUserTimeline` call: a page of statuses, or an
   * exception (a `TwitterException` or any other one; both end the loop alike).
   */
  datatype Response = Page(statuses: seq<Status>) | Failure

  /** The statuses a response carries; a failed call carries none. */
  function Statuses(r: Response): seq<Status>
  {
    if r.Page? then r.statuses else []
  }

  /** A response after which the extraction loop breaks: an exception or an empty page. */
  predicate Ends(r: Response)
  {
    r.Failure? || |r.statuses| == 0
  }
}
