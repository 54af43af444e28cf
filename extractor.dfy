/**
 * The timeline extractor: the cursor-driven pagination loop that walks a
 * user's timeline from newest to oldest, and the configuration check that
 * guards it.
 *
 * The Twitter API is replaced by a script: `responses[k]` is what the
 * k-th `getUserTimeline` call returns (a page or an exception). The
 * functions below give, for a script, what the loop has collected and
 * which cursor it holds after k calls; the method `RetrieveTweets` is
 * proved against them.
 */
module Extractor {
  import opened Wrappers
  import opened Twitter
  import opened Util

  /** `min_id` before the first request: one less than `Long.MAX_VALUE`. */
  const INITIAL_MIN_ID: Long := LONG_MAX - 1

  /** Every request asks for page 1 ... */
  const FIRST_PAGE: int := 1

  /** ... of 100 statuses. */
  const PAGE_SIZE: int := 100

  /** `min_id - 1` in Java `long` arithmetic: wraps to `Long.MAX_VALUE` below `Long.MIN_VALUE`. */
  function PrevCursor(minId: Long): (r: Long)
    ensures r < minId <==> LONG_MIN < minId
    ensures r == LONG_MAX <==> minId == LONG_MIN
  {
    if minId == LONG_MIN then LONG_MAX else minId - 1
  }

  /** `PrevCursor` is subtraction of one in 64-bit two's-complement arithmetic. */
  lemma PrevCursorIsLongDecrement(minId: Long)
    ensures PrevCursor(minId) == WrapLong(minId - 1)
    ensures LONG_MIN < minId ==> PrevCursor(minId) < minId
  {
  }

  /** The tweets built from a page of statuses, in the order received. */
  function Tweets(statuses: seq<Status>): seq<Tweet>
  {
    seq(|statuses|, i requires 0 <= i < |statuses| => FromStatus(statuses[i]))
  }

  /** The tweets one response contributes to the list. */
  function Items(r: Response): seq<Tweet>
  {
    Tweets(Statuses(r))
  }

  /**
   * `min_id` after starting at `start` and then seeing `tweets` one by one,
   * lowering it whenever an id is below it: the minimum of `start` and
   * every id in `tweets`.
   */
  function MinId(start: Long, tweets: seq<Tweet>): (m: Long)
    ensures m <= start
    ensures forall i :: 0 <= i < |tweets| ==> m <= tweets[i].id
    decreases |tweets|
  {
    if tweets == [] then start
    else
      var before := MinId(start, tweets[..|tweets| - 1]);
      var last := tweets[|tweets| - 1];
      if last.id < before then last.id else before
  }

  /**
   * The loop's state after some calls: the tweets appended so far, the
   * value of `min_id`, and every request issued so far.
   */
  datatype Progress = Progress(collected: seq<Tweet>, minId: Long, requests: seq<Paging>)

  /**
   * The state after the first `k` calls of a run driven by `responses`.
   * Each call issues `new Paging(1, 100)` with `setMaxId(min_id - 1)`
   * (unconditionally, the first call included), then appends the tweets
   * of the page received and lowers `min_id` by their ids.
   */
  function AfterCalls(responses: seq<Response>, k: nat): (p: Progress)
    requires k <= |responses|
    ensures |p.requests| == k
    ensures p.minId <= INITIAL_MIN_ID
  {
    if k == 0 then Progress([], INITIAL_MIN_ID, [])
    else
      var p := AfterCalls(responses, k - 1);
      var page := Items(responses[k - 1]);
      Progress(p.collected + page, MinId(p.minId, page),
               p.requests + [Paging(FIRST_PAGE, PAGE_SIZE, PrevCursor(p.minId))])
  }

  /** Some call returns an empty page or throws, so the loop ends. */
  ghost predicate EventuallyStops(responses: seq<Response>)
  {
    exists k :: 0 <= k < |responses| && Ends(responses[k])
  }

  /** The index of the first ending response at or after `i`. */
  function FirstStopFrom(responses: seq<Response>, i: nat): (k: nat)
    requires i <= |responses|
    requires exists k :: i <= k < |responses| && Ends(responses[k])
    ensures i <= k < |responses| && Ends(responses[k])
    ensures forall j :: i <= j < k ==> !Ends(responses[j])
    decreases |responses| - i
  {
    if Ends(responses[i]) then i else FirstStopFrom(responses, i + 1)
  }

  /** The index of the call that ends the loop (the loop makes `FirstStop + 1` calls). */
  function FirstStop(responses: seq<Response>): (k: nat)
    requires EventuallyStops(responses)
    ensures k < |responses| && Ends(responses[k])
    ensures forall j :: 0 <= j < k ==> !Ends(responses[j])
  {
    FirstStopFrom(responses, 0)
  }

  /**
   * `buildConfiguration`: fails, before any request is made, when one of
   * the four API keys is missing, and otherwise hands over the four keys
   * as configured.
   */
  function BuildConfiguration(config: TwitterConfiguration): (r: Result<Credentials, ConfigError>)
    ensures r.Err? <==> None in [config.consumerKey, config.consumerSecret,
                                  config.accessToken, config.accessTokenSecret]
    ensures r.Ok? ==>
              && Some(r.value.consumerKey) == config.consumerKey
              && Some(r.value.consumerSecret) == config.consumerSecret
              && Some(r.value.accessToken) == config.accessToken
              && Some(r.value.accessTokenSecret) == config.accessTokenSecret
  {
    if config.consumerKey.None? || config.consumerSecret.None?
       || config.accessToken.None? || config.accessTokenSecret.None?
    then Err(ApiKeysNotSet)
    else Ok(Credentials(config.consumerKey.value, config.consumerSecret.value,
                        config.accessToken.value, config.accessTokenSecret.value))
  }

  /** Seeing `a` and then `b` lowers `min_id` exactly as seeing `a + b` does. */
  lemma {:induction false} MinIdAppend(start: Long, a: seq<Tweet>, b: seq<Tweet>)
    ensures MinId(start, a + b) == MinId(MinId(start, a), b)
    decreases |b|
  {
    if b == [] {
      assert a + b == a;
    } else {
      var front := b[..|b| - 1];
      assert (a + b)[..|a + b| - 1] == a + front;
      MinIdAppend(start, a, front);
    }
  }

  class TweetExtractor {
    /** The tweets extracted so far, in the order they were appended. */
    var tweetList: seq<Tweet>
    const jmsUrl: string
    const queueName: string
    const userToSearch: Option<string>
    const credentials: Credentials

    constructor (jmsUrl: string, queueName: string, credentials: Credentials, userToSearch: Option<string>)
      ensures this.jmsUrl == jmsUrl && this.queueName == queueName
      ensures this.credentials == credentials && this.userToSearch == userToSearch
      ensures tweetList == []
    {
      this.jmsUrl := jmsUrl;
      this.queueName := queueName;
      this.credentials := credentials;
      this.userToSearch := userToSearch;
      tweetList := [];
    }

    /**
     * The Java constructor: stores the queue coordinates and runs
     * `buildConfiguration`, which throws when an API key is missing.
     */
    static method Create(jmsUrl: string, queueName: string, config: TwitterConfiguration)
      returns (r: Result<TweetExtractor, ConfigError>)
      ensures r.Err? <==> BuildConfiguration(config).Err?
      ensures r.Ok? ==>
                && fresh(r.value) && r.value.tweetList == []
                && r.value.jmsUrl == jmsUrl && r.value.queueName == queueName
                && r.value.credentials == BuildConfiguration(config).value
                && r.value.userToSearch == config.userToSearch
    {
      var built := BuildConfiguration(config);
      if built.Err? {
        return Err(built.error);
      }
      var extractor := new TweetExtractor(jmsUrl, queueName, built.value, config.userToSearch);
      return Ok(extractor);
    }

    /**
     * The inner `for` loop of `retrieveTweets`: appends a tweet for every
     * status of the page, in the order received, and lowers `min_id` to
     * every smaller id it meets.
     */
    method AppendPage(results: seq<Status>, minId: Long) returns (newMinId: Long)
      modifies this
      ensures tweetList == old(tweetList) + Tweets(results)
      ensures newMinId == MinId(minId, Tweets(results))
    {
      newMinId := minId;
      for j := 0 to |results|
        invariant tweetList == old(tweetList) + Tweets(results[..j])
        invariant newMinId == MinId(minId, Tweets(results[..j]))
      {
        var s := results[j];
        assert Tweets(results[..j + 1]) == Tweets(results[..j]) + [FromStatus(s)];
        assert Tweets(results[..j + 1])[..j] == Tweets(results[..j]);
        tweetList := tweetList + [FromStatus(s)];
        if s.id < newMinId {
          newMinId := s.id;
        }
      }
      assert results[..|results|] == results;
    }

    /**
     * `retrieveTweets`: requests pages older than `min_id` until a page is
     * empty or a call throws, appending every status to `tweetList` in the
     * order received. `requests` records every request issued and
     * `minId` the final value of `min_id`.
     */
    method RetrieveTweets(responses: seq<Response>) returns (ghost requests: seq<Paging>, ghost minId: Long)
      requires EventuallyStops(responses)
      modifies this
      ensures var run := AfterCalls(responses, FirstStop(responses) + 1);
              && tweetList == old(tweetList) + run.collected
              && minId == run.minId
              && requests == run.requests
    {
      ghost var stop := FirstStop(responses);
      ghost var initial := tweetList;
      var cursor: Long := INITIAL_MIN_ID;
      var calls: nat := 0;
      requests := [];
      while true
        invariant calls <= stop
        invariant tweetList == initial + AfterCalls(responses, calls).collected
        invariant cursor == AfterCalls(responses, calls).minId
        invariant requests == AfterCalls(responses, calls).requests
        decreases stop - calls
      {
        // new Paging(1, 100), then setMaxId(min_id - 1) on every iteration
        var paging := Paging(FIRST_PAGE, PAGE_SIZE, PrevCursor(cursor));
        requests := requests + [paging];
        var response := responses[calls];
        calls := calls + 1;
        if response.Failure? {
          assert calls - 1 == stop;
          minId := cursor;
          break;
        }
        var results := response.statuses;
        cursor := AppendPage(results, cursor);
        if |results| == 0 {
          assert calls - 1 == stop;
          minId := cursor;
          break;
        }
        assert !Ends(response);
      }
    }
  }
}
