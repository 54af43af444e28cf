/**
 * What the pagination loop of `retrieveTweets` guarantees, stated over
 * `AfterCalls`, the state the loop holds after each call (the method
 * `TweetExtractor.RetrieveTweets` is proved to end in that state).
 */
module ExtractorProperties {
  import opened Twitter
  import opened Util
  import opened Extractor

  /** After every call, `min_id` is the minimum of its start value and every id appended so far. */
  lemma {:induction false} CursorIsMinimum(responses: seq<Response>, k: nat)
    requires k <= |responses|
    ensures AfterCalls(responses, k).minId == MinId(INITIAL_MIN_ID, AfterCalls(responses, k).collected)
    decreases k
  {
    if k > 0 {
      CursorIsMinimum(responses, k - 1);
      MinIdAppend(INITIAL_MIN_ID, AfterCalls(responses, k - 1).collected, Items(responses[k - 1]));
    }
  }

  /** `min_id` starts at `Long.MAX_VALUE - 1` and never increases from one call to a later one. */
  lemma {:induction false} CursorNeverIncreases(responses: seq<Response>, j: nat, k: nat)
    requires j <= k <= |responses|
    ensures AfterCalls(responses, 0).minId == LONG_MAX - 1
    ensures AfterCalls(responses, k).minId <= AfterCalls(responses, j).minId <= INITIAL_MIN_ID
    decreases k
  {
    if k > j {
      CursorNeverIncreases(responses, j, k - 1);
    } else {
      CursorIsMinimum(responses, j);
    }
  }

  /**
   * Call `k` sends page 1, size 100 and `maxId = min_id - 1` (in `long`
   * arithmetic, see `PrevCursorIsLongDecrement`), where `min_id` is its
   * value before the call; the very first call already sends
   * `Long.MAX_VALUE - 2`.
   */
  lemma {:induction false} RequestsIssued(responses: seq<Response>, n: nat)
    requires n <= |responses|
    ensures |AfterCalls(responses, n).requests| == n
    ensures forall k :: 0 <= k < n ==>
              AfterCalls(responses, n).requests[k]
              == Paging(1, 100, PrevCursor(AfterCalls(responses, k).minId))
    ensures n > 0 ==> AfterCalls(responses, n).requests[0].maxId == LONG_MAX - 2
    decreases n
  {
    if n > 0 {
      RequestsIssued(responses, n - 1);
      if n - 1 == 0 {
        assert AfterCalls(responses, n).requests[0].maxId == PrevCursor(INITIAL_MIN_ID);
      } else {
        assert AfterCalls(responses, n).requests[0] == AfterCalls(responses, n - 1).requests[0];
      }
    }
  }

  /**
   * A successful call appends exactly the page received, tweet for tweet
   * in the order received, after what was there.
   */
  lemma ListGrowsByPage(responses: seq<Response>, k: nat)
    requires k < |responses|
    ensures var before := AfterCalls(responses, k).collected;
            var after := AfterCalls(responses, k + 1).collected;
            var page := Statuses(responses[k]);
            && |after| == |before| + |page|
            && after[..|before|] == before
            && forall i :: 0 <= i < |page| ==> after[|before| + i] == FromStatus(page[i])
  {
  }

  /** Entries once appended are never changed, removed or reordered by later calls. */
  lemma {:induction false} EarlierEntriesUnchanged(responses: seq<Response>, j: nat, k: nat)
    requires j <= k <= |responses|
    ensures AfterCalls(responses, j).collected <= AfterCalls(responses, k).collected
    decreases k
  {
    if k > j {
      EarlierEntriesUnchanged(responses, j, k - 1);
    }
  }

  /**
   * When the first `n - 1` calls return non-empty pages and call `n`
   * returns an empty page, the loop makes exactly `n` calls and keeps the
   * tweets of pages 1 to `n - 1`; an empty first page leaves nothing.
   */
  lemma EmptyPageEndsRun(responses: seq<Response>, n: nat)
    requires 0 < n <= |responses|
    requires forall j :: 0 <= j < n - 1 ==> responses[j].Page? && |responses[j].statuses| > 0
    requires responses[n - 1] == Page([])
    ensures EventuallyStops(responses) && FirstStop(responses) + 1 == n
    ensures AfterCalls(responses, n).collected == AfterCalls(responses, n - 1).collected
    ensures AfterCalls(responses, n).minId == AfterCalls(responses, n - 1).minId
    ensures n == 1 ==> AfterCalls(responses, n).collected == []
  {
  }

  /**
   * When call `k` throws after `k - 1` non-empty pages, the loop stops at
   * once: it keeps the tweets of pages 1 to `k - 1` and `min_id` is left
   * as it was; a failure of the first call leaves nothing.
   */
  lemma FailureEndsRun(responses: seq<Response>, k: nat)
    requires 0 < k <= |responses|
    requires forall j :: 0 <= j < k - 1 ==> responses[j].Page? && |responses[j].statuses| > 0
    requires responses[k - 1].Failure?
    ensures EventuallyStops(responses) && FirstStop(responses) + 1 == k
    ensures AfterCalls(responses, k).collected == AfterCalls(responses, k - 1).collected
    ensures AfterCalls(responses, k).minId == AfterCalls(responses, k - 1).minId
    ensures k == 1 ==> AfterCalls(responses, k).collected == []
  {
  }

  /** Every status of the response has an id no greater than `maxId`. */
  ghost predicate PageWithin(r: Response, maxId: Long)
  {
    forall i :: 0 <= i < |Statuses(r)| ==> Statuses(r)[i].id <= maxId
  }

  /**
   * The source honours every request: page `k` of the script holds only
   * ids no greater than the `maxId` that request `k` carries.
   */
  ghost predicate Honours(responses: seq<Response>)
  {
    var requests := AfterCalls(responses, |responses|).requests;
    forall k :: 0 <= k < |responses| && k < |requests| ==> PageWithin(responses[k], requests[k].maxId)
  }

  /** Every status of the response has an id above `Long.MIN_VALUE`. */
  ghost predicate PageAboveLongMin(r: Response)
  {
    forall i :: 0 <= i < |Statuses(r)| ==> LONG_MIN < Statuses(r)[i].id
  }

  /** No status of the script carries the id `Long.MIN_VALUE` (Twitter ids are positive). */
  ghost predicate IdsAboveLongMin(responses: seq<Response>)
  {
    forall k :: 0 <= k < |responses| ==> PageAboveLongMin(responses[k])
  }

  /** Under an honouring source, page `k` lies at or below `min_id - 1` as it stood before call `k`. */
  lemma HonouredPage(responses: seq<Response>, k: nat)
    requires k < |responses|
    requires Honours(responses)
    ensures PageWithin(responses[k], PrevCursor(AfterCalls(responses, k).minId))
  {
    RequestsIssued(responses, |responses|);
  }

  /** No two tweets share an id. */
  ghost predicate DistinctIds(tweets: seq<Tweet>)
  {
    forall i, j :: 0 <= i < j < |tweets| ==> tweets[i].id != tweets[j].id
  }

  /** No page of the script holds an id twice. */
  ghost predicate PagesDistinct(responses: seq<Response>)
  {
    forall k :: 0 <= k < |responses| ==> DistinctIds(Items(responses[k]))
  }

  /** A minimum over values all above `low` is above `low`. */
  lemma {:induction false} MinIdAbove(start: Long, tweets: seq<Tweet>, low: int)
    requires low < start
    requires forall i :: 0 <= i < |tweets| ==> low < tweets[i].id
    ensures low < MinId(start, tweets)
    decreases |tweets|
  {
    if tweets != [] {
      MinIdAbove(start, tweets[..|tweets| - 1], low);
    }
  }

  /**
   * When no status carries the id `Long.MIN_VALUE`, `min_id` never reaches
   * `Long.MIN_VALUE`, so `min_id - 1` never wraps.
   */
  lemma {:induction false} CursorAboveLongMin(responses: seq<Response>, k: nat)
    requires k <= |responses|
    requires IdsAboveLongMin(responses)
    ensures LONG_MIN < AfterCalls(responses, k).minId
    ensures PrevCursor(AfterCalls(responses, k).minId) == AfterCalls(responses, k).minId - 1
    decreases k
  {
    if k > 0 {
      CursorAboveLongMin(responses, k - 1);
      var r := responses[k - 1];
      assert PageAboveLongMin(r);
      var tweets := Items(r);
      forall i | 0 <= i < |tweets|
        ensures LONG_MIN < tweets[i].id
      {
        assert tweets[i].id == Statuses(r)[i].id;
      }
      MinIdAbove(AfterCalls(responses, k - 1).minId, tweets, LONG_MIN);
    }
  }

  /**
   * Against an honouring source, page `k` holds only ids below `min_id` as
   * it stood before call `k` — unless `min_id` has reached
   * `Long.MIN_VALUE`, where `min_id - 1` wraps and the request reaches
   * back to `Long.MAX_VALUE` (see `WrapRepeatsId`).
   */
  lemma PageBelowCursor(responses: seq<Response>, k: nat)
    requires k < |responses|
    requires Honours(responses)
    ensures LONG_MIN < AfterCalls(responses, k).minId ==>
              forall i :: 0 <= i < |Items(responses[k])| ==>
                Items(responses[k])[i].id < AfterCalls(responses, k).minId
  {
    HonouredPage(responses, k);
  }

  /** Every id collected so far is at or above the current `min_id`. */
  lemma CollectedAtOrAboveCursor(responses: seq<Response>, k: nat)
    requires k <= |responses|
    ensures forall i :: 0 <= i < |AfterCalls(responses, k).collected| ==>
              AfterCalls(responses, k).minId <= AfterCalls(responses, k).collected[i].id
  {
  }

  /**
   * Against an honouring source, every non-empty page strictly lowers
   * `min_id`, unless `min_id` is already `Long.MIN_VALUE`, where it stays.
   */
  lemma StrictProgress(responses: seq<Response>, k: nat)
    requires k < |responses|
    requires Honours(responses)
    requires |Statuses(responses[k])| > 0
    ensures LONG_MIN < AfterCalls(responses, k).minId ==>
              AfterCalls(responses, k + 1).minId < AfterCalls(responses, k).minId
    ensures AfterCalls(responses, k).minId == LONG_MIN ==>
              AfterCalls(responses, k + 1).minId == LONG_MIN
  {
    PageBelowCursor(responses, k);
    if LONG_MIN < AfterCalls(responses, k).minId {
      assert Items(responses[k])[0].id < AfterCalls(responses, k).minId;
    }
  }

  /**
   * Against an honouring source whose pages hold no id twice, no id is
   * appended twice as long as `min_id` stayed above `Long.MIN_VALUE`
   * before the last call: request windows never overlap.
   */
  lemma {:induction false} DistinctBeforeWrap(responses: seq<Response>, n: nat)
    requires n <= |responses|
    requires Honours(responses)
    requires PagesDistinct(responses)
    requires n == 0 || LONG_MIN < AfterCalls(responses, n - 1).minId
    ensures DistinctIds(AfterCalls(responses, n).collected)
    decreases n
  {
    if n > 0 {
      if n > 1 {
        CursorNeverIncreases(responses, n - 2, n - 1);
      }
      DistinctBeforeWrap(responses, n - 1);
      DistinctAfterCall(responses, n);
    }
  }

  /**
   * Against an honouring source whose pages hold no id twice and whose ids
   * are all above `Long.MIN_VALUE`, no id is ever appended twice.
   */
  lemma NoIdAppendedTwice(responses: seq<Response>, n: nat)
    requires n <= |responses|
    requires Honours(responses)
    requires PagesDistinct(responses)
    requires IdsAboveLongMin(responses)
    ensures DistinctIds(AfterCalls(responses, n).collected)
  {
    if n > 0 {
      CursorAboveLongMin(responses, n - 1);
    }
    DistinctBeforeWrap(responses, n);
  }

  /**
   * One honoured call, made while `min_id` is above `Long.MIN_VALUE`, whose
   * page holds no id twice keeps the list free of repeated ids.
   */
  lemma DistinctAfterCall(responses: seq<Response>, n: nat)
    requires 0 < n <= |responses|
    requires Honours(responses)
    requires DistinctIds(AfterCalls(responses, n - 1).collected)
    requires PagesDistinct(responses)
    requires LONG_MIN < AfterCalls(responses, n - 1).minId
    ensures DistinctIds(AfterCalls(responses, n).collected)
  {
    var k := n - 1;
    assert DistinctIds(Items(responses[k]));
    CollectedAtOrAboveCursor(responses, k);
    PageBelowCursor(responses, k);
    DistinctConcat(AfterCalls(responses, k).collected, Items(responses[k]),
                   AfterCalls(responses, k).minId);
  }

  /** Two id-distinct lists, one wholly at or above `m` and the other wholly below, concatenate to an id-distinct list. */
  lemma DistinctConcat(a: seq<Tweet>, b: seq<Tweet>, m: int)
    requires DistinctIds(a) && DistinctIds(b)
    requires forall i :: 0 <= i < |a| ==> m <= a[i].id
    requires forall i :: 0 <= i < |b| ==> b[i].id < m
    ensures DistinctIds(a + b)
  {
    var all := a + b;
    forall i, j | 0 <= i < j < |all|
      ensures all[i].id != all[j].id
    {
      if j < |a| {
        assert all[i] == a[i] && all[j] == a[j];
      } else if i < |a| {
        assert all[i] == a[i] && all[j] == b[j - |a|];
      } else {
        assert all[i] == b[i - |a|] && all[j] == b[j - |a|];
      }
    }
  }

  /**
   * A two-tweet timeline: page 1 holds ids 100 and 99, page 2 is empty.
   * Two requests go out (`maxId` `Long.MAX_VALUE - 2`, then 98) and the
   * list ends as the two tweets in the order received, with `min_id` at 99.
   */
  lemma TwoPageTimeline(d: Date)
    ensures var responses := [Page([Status(100, d, "hi"), Status(99, d, "bye")]), Page([])];
            && EventuallyStops(responses)
            && FirstStop(responses) == 1
            && AfterCalls(responses, 2).collected == [Tweet(100, d, "hi"), Tweet(99, d, "bye")]
            && AfterCalls(responses, 2).requests == [Paging(1, 100, LONG_MAX - 2), Paging(1, 100, 98)]
            && AfterCalls(responses, 2).minId == 99
  {
    var responses := [Page([Status(100, d, "hi"), Status(99, d, "bye")]), Page([])];
    assert Ends(responses[1]);
    assert !Ends(responses[0]);
    var page := Items(responses[0]);
    assert page == [Tweet(100, d, "hi"), Tweet(99, d, "bye")];
    assert page[..1] == [Tweet(100, d, "hi")];
    assert MinId(INITIAL_MIN_ID, page[..1]) == 100;
    assert MinId(INITIAL_MIN_ID, page) == 99;
    assert PrevCursor(INITIAL_MIN_ID) == LONG_MAX - 2;
    assert AfterCalls(responses, 1) == Progress(page, 99, [Paging(1, 100, LONG_MAX - 2)]);
    assert Items(responses[1]) == [];
    assert MinId(99, []) == 99;
    assert AfterCalls(responses, 2) == Progress(page + [], 99, [Paging(1, 100, LONG_MAX - 2), Paging(1, 100, 98)]);
  }

  /**
   * Why `NoIdAppendedTwice` needs ids above `Long.MIN_VALUE`: a status with
   * id `Long.MIN_VALUE` drives `min_id` there, the next request's
   * `min_id - 1` wraps to `Long.MAX_VALUE`, and a source that honours every
   * request and never repeats an id within a page hands the same status
   * back, so the list holds its id twice.
   */
  lemma WrapRepeatsId(d: Date)
    ensures var s := Status(LONG_MIN, d, "a");
            var responses := [Page([s]), Page([s]), Page([])];
            && Honours(responses) && PagesDistinct(responses)
            && !IdsAboveLongMin(responses)
            && EventuallyStops(responses) && FirstStop(responses) == 2
            && AfterCalls(responses, 3).requests
               == [Paging(1, 100, LONG_MAX - 2), Paging(1, 100, LONG_MAX), Paging(1, 100, LONG_MAX)]
            && !DistinctIds(AfterCalls(responses, 3).collected)
  {
    var s := Status(LONG_MIN, d, "a");
    var responses := [Page([s]), Page([s]), Page([])];
    WrapRun(s, responses);
    WrapHonoured(s, responses);
    assert !PageAboveLongMin(responses[0]);
    assert !Ends(responses[0]) && !Ends(responses[1]) && Ends(responses[2]);
    var collected := AfterCalls(responses, 3).collected;
    assert collected[0].id == collected[1].id;
  }

  /** The run of `WrapRepeatsId`: the status is collected twice and `min_id` sits at `Long.MIN_VALUE`. */
  lemma WrapRun(s: Status, responses: seq<Response>)
    requires s.id == LONG_MIN
    requires responses == [Page([s]), Page([s]), Page([])]
    ensures AfterCalls(responses, 3)
            == Progress([FromStatus(s), FromStatus(s)], LONG_MIN,
                        [Paging(1, 100, LONG_MAX - 2), Paging(1, 100, LONG_MAX), Paging(1, 100, LONG_MAX)])
  {
    var t := FromStatus(s);
    assert Items(responses[0]) == [t];
    assert Items(responses[1]) == [t];
    assert Items(responses[2]) == [];
    assert AfterCalls(responses, 1) == Progress([t], LONG_MIN, [Paging(1, 100, LONG_MAX - 2)]);
    assert AfterCalls(responses, 2)
           == Progress([t, t], LONG_MIN, [Paging(1, 100, LONG_MAX - 2), Paging(1, 100, LONG_MAX)]);
    assert [t, t] + [] == [t, t];
  }

  /** The source of `WrapRepeatsId` honours every request and repeats no id within a page. */
  lemma WrapHonoured(s: Status, responses: seq<Response>)
    requires s.id == LONG_MIN
    requires responses == [Page([s]), Page([s]), Page([])]
    requires AfterCalls(responses, 3).requests
             == [Paging(1, 100, LONG_MAX - 2), Paging(1, 100, LONG_MAX), Paging(1, 100, LONG_MAX)]
    ensures Honours(responses) && PagesDistinct(responses)
  {
    var requests := AfterCalls(responses, 3).requests;
    forall k | 0 <= k < 3
      ensures PageWithin(responses[k], requests[k].maxId)
    {
    }
    forall k | 0 <= k < 3
      ensures DistinctIds(Items(responses[k]))
    {
    }
  }
}
