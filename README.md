# TweetExtractor — a Dafny model

TweetExtractor is a command-line tool. It walks one Twitter user's timeline
from the newest tweet to the oldest and turns every status into a `Tweet`
(id, creation date, text). It then enqueues the text of each tweet, in
order, as a JMS text message on an ActiveMQ queue. The broker URL and the
queue name are the two command-line arguments. The four OAuth keys and the
user to search come from a configuration file.

This project models the parts of that program that decide what gets
fetched and sent:

- **the argument guard** in `main`: exactly two arguments, both non-empty,
  or the run stops with a usage message;
- **`buildConfiguration`**: the run fails before any request is made when
  any of the four API keys is missing;
- **`retrieveTweets`**: the pagination loop. The cursor `min_id` starts at
  `Long.MAX_VALUE - 1`. Each iteration requests page 1 of 100 statuses with
  `maxId = min_id - 1`. It appends every status of the page to `tweetList`
  in the order received, and lowers `min_id` to the smallest id seen. The
  loop stops at the first empty page or at the first exception;
- **the publish loop** in `main`: one message per tweet, in list order,
  whose payload is the tweet's text.

The Twitter API is a parameter. A run is driven by a script
`responses: seq<Response>`: `responses[k]` is what the k-th
`getUserTimeline` call returns, either a page of statuses or `Failure`
(any exception). `Extractor.AfterCalls(responses, k)` is the specification
of the loop. It gives the tweets collected, the cursor, and the requests
issued after the first `k` calls. `Extractor.FirstStop(responses)` is the
index of the call that ends the loop. The imperative method
`TweetExtractor.RetrieveTweets` is proved to end in exactly the state
`AfterCalls(responses, FirstStop(responses) + 1)`. The lemmas in
`ExtractorProperties` are proved about `AfterCalls`.

Java `long` is the subset type `Twitter.Long`. The only arithmetic that
could overflow is `min_id - 1`. It is written out as `Extractor.PrevCursor`,
which wraps to `Long.MAX_VALUE` below `Long.MIN_VALUE`. The wrap matters only
if a status carries the id `Long.MIN_VALUE`. Twitter ids are positive, but
the code does not check this. `ExtractorProperties.WrapRepeatsId` shows
what happens then: the next request reaches back to `Long.MAX_VALUE`, and
the same tweet is collected twice.

Files:

- `wrappers.dfy`: `Option` and `Result`.
- `twitter.dfy`: the client-library types the loop sees (`Status`,
  `Paging`, a response), and `long`.
- `util.dfy`: the repository's `Tweet` and `TwitterConfiguration`
  records.
- `extractor.dfy`: the `TweetExtractor` class, its specification functions
  and the configuration check.
- `extractor_properties.dfy`: properties of the pagination loop.
- `publisher.dfy`: `main`, meaning the argument guard and the publish loop.

Two points of the code are easy to misread:

- Tweet ids are a signed 64-bit `long`.
- `setMaxId(min_id - 1)` is issued on every request, the first one
  included. It sits outside the unbraced `if (count != 0)` that only
  guards the log line. The first request therefore carries
  `maxId = Long.MAX_VALUE - 2`; `ExtractorProperties.RequestsIssued`
  states this.

## Model

| member | source | states |
|---|---|---|
| Extractor.PrevCursorIsLongDecrement | src/main/java/org/wso2/cep/uima/demo/TweetExtractor.java:118 | the next request's `maxId` is `min_id - 1` in 64-bit two's-complement arithmetic, and it is strictly below `min_id` unless `min_id` is `Long.MIN_VALUE` |
| Extractor.PrevCursor | src/main/java/org/wso2/cep/uima/demo/TweetExtractor.java:118 | `min_id - 1` lies below `min_id` exactly when `min_id` is above `Long.MIN_VALUE`, and it is `Long.MAX_VALUE` exactly when `min_id` is `Long.MIN_VALUE` |
| Extractor.MinId | src/main/java/org/wso2/cep/uima/demo/TweetExtractor.java:129-132 | lowering `min_id` over a run of tweets gives a value at most the start and at most every id seen |
| Extractor.MinIdAppend | src/main/java/org/wso2/cep/uima/demo/TweetExtractor.java:124-133 | lowering `min_id` page by page gives the same cursor as lowering it over all the tweets at once |
| Extractor.AfterCalls | src/main/java/org/wso2/cep/uima/demo/TweetExtractor.java:110-133 | after k calls exactly k requests have been issued, one per call, and `min_id` has never risen above its start value `Long.MAX_VALUE - 1` |
| Extractor.FirstStopFrom | src/main/java/org/wso2/cep/uima/demo/TweetExtractor.java:107-148 | the loop ends at the first response that is an empty page or an exception, and no earlier response ends it |
| Extractor.FirstStop | src/main/java/org/wso2/cep/uima/demo/TweetExtractor.java:137-147 | the index of the call that ends the loop is a response that ends it, and every earlier response carries statuses |
| Extractor.BuildConfiguration | src/main/java/org/wso2/cep/uima/demo/TweetExtractor.java:156-178 | fails exactly when at least one of the four API keys is missing; otherwise it hands over the four keys unchanged |
| Extractor.TweetExtractor.constructor | src/main/java/org/wso2/cep/uima/demo/TweetExtractor.java:26-36 | a new extractor holds the broker URL, the queue name, the credentials and the user, with an empty tweet list |
| Extractor.TweetExtractor.Create | src/main/java/org/wso2/cep/uima/demo/TweetExtractor.java:33-43 | constructing the extractor fails exactly when `buildConfiguration` does; otherwise it returns a fresh extractor with an empty list, the given URL and queue, and the configured keys and user |
| Extractor.TweetExtractor.AppendPage | src/main/java/org/wso2/cep/uima/demo/TweetExtractor.java:124-133 | the inner loop appends one tweet per status, in the order received, after the existing entries, and lowers `min_id` to the minimum of it and the page's ids |
| Extractor.TweetExtractor.RetrieveTweets | src/main/java/org/wso2/cep/uima/demo/TweetExtractor.java:96-150 | the loop makes `FirstStop + 1` calls; afterwards the list is the old list followed by every page's tweets in order, and the cursor and the issued requests are those of the specification |
| ExtractorProperties.CursorIsMinimum | src/main/java/org/wso2/cep/uima/demo/TweetExtractor.java:101-132 | after any number of calls, `min_id` is the minimum of `Long.MAX_VALUE - 1` and every id collected so far |
| ExtractorProperties.CursorNeverIncreases | src/main/java/org/wso2/cep/uima/demo/TweetExtractor.java:101-132 | `min_id` starts at `Long.MAX_VALUE - 1` and never increases from one call to a later one |
| ExtractorProperties.RequestsIssued | src/main/java/org/wso2/cep/uima/demo/TweetExtractor.java:113-121 | call k issues exactly one request: page 1, 100 statuses, `maxId` one below the cursor held before the call; the first request's `maxId` is `Long.MAX_VALUE - 2` |
| ExtractorProperties.ListGrowsByPage | src/main/java/org/wso2/cep/uima/demo/TweetExtractor.java:124-127 | one call lengthens the list by the size of the page and appends the page's tweets, built field by field from the statuses, after the unchanged earlier entries |
| ExtractorProperties.EarlierEntriesUnchanged | src/main/java/org/wso2/cep/uima/demo/TweetExtractor.java:124-127 | the list only grows at its end: what was collected after j calls is a prefix of what is collected after any later call |
| ExtractorProperties.EmptyPageEndsRun | src/main/java/org/wso2/cep/uima/demo/TweetExtractor.java:137-139 | an empty page after non-empty pages is the last call; it changes neither the list nor the cursor, and an empty first page leaves the list empty |
| ExtractorProperties.FailureEndsRun | src/main/java/org/wso2/cep/uima/demo/TweetExtractor.java:141-147 | an exception after non-empty pages is the last call; it changes neither the list nor the cursor, and an exception on the first call leaves the list empty |
| ExtractorProperties.HonouredPage | src/main/java/org/wso2/cep/uima/demo/TweetExtractor.java:118-121 | when the API honours every request's `maxId`, the page of call k holds only ids at most one below the cursor held before that call |
| ExtractorProperties.MinIdAbove | src/main/java/org/wso2/cep/uima/demo/TweetExtractor.java:129-132 | lowering `min_id` never goes below a bound that the start and every id exceed |
| ExtractorProperties.CursorAboveLongMin | src/main/java/org/wso2/cep/uima/demo/TweetExtractor.java:118-132 | when no status carries the id `Long.MIN_VALUE`, `min_id` stays above `Long.MIN_VALUE`, so `min_id - 1` never wraps |
| ExtractorProperties.PageBelowCursor | src/main/java/org/wso2/cep/uima/demo/TweetExtractor.java:118-132 | when the API honours every request's `maxId` and `min_id` is above `Long.MIN_VALUE`, every id on the page of call k is strictly below the cursor held before it |
| ExtractorProperties.CollectedAtOrAboveCursor | src/main/java/org/wso2/cep/uima/demo/TweetExtractor.java:124-132 | every collected id is at or above the current `min_id` |
| ExtractorProperties.StrictProgress | src/main/java/org/wso2/cep/uima/demo/TweetExtractor.java:118-132 | when the API honours every request's `maxId`, a non-empty page strictly lowers `min_id` while it is above `Long.MIN_VALUE`, and leaves it at `Long.MIN_VALUE` once it is there |
| ExtractorProperties.DistinctAfterCall | src/main/java/org/wso2/cep/uima/demo/TweetExtractor.java:118-132 | a call made while `min_id` is above `Long.MIN_VALUE`, against an API that honours `maxId` and repeats no id within a page, keeps the list free of duplicate ids |
| ExtractorProperties.DistinctBeforeWrap | src/main/java/org/wso2/cep/uima/demo/TweetExtractor.java:118-132 | against an API that honours `maxId` and repeats no id within a page, no id is collected twice as long as `min_id` stayed above `Long.MIN_VALUE` before the last call |
| ExtractorProperties.NoIdAppendedTwice | src/main/java/org/wso2/cep/uima/demo/TweetExtractor.java:118-132 | against an API that honours `maxId`, repeats no id within a page and returns no id equal to `Long.MIN_VALUE`, no tweet id is ever collected twice |
| ExtractorProperties.DistinctConcat | src/main/java/org/wso2/cep/uima/demo/TweetExtractor.java:124-126 | appending a page whose ids all lie below every id already collected keeps the ids distinct |
| ExtractorProperties.WrapRepeatsId | src/main/java/org/wso2/cep/uima/demo/TweetExtractor.java:118-132 | a status with id `Long.MIN_VALUE` lets `min_id - 1` wrap: the second request carries `maxId = Long.MAX_VALUE`, and an API that honours every `maxId` and repeats no id within a page still gets the same id collected twice |
| ExtractorProperties.TwoPageTimeline | src/main/java/org/wso2/cep/uima/demo/TweetExtractor.java:96-150 | for a page with ids 100 and 99 followed by an empty page: two requests (`maxId` `Long.MAX_VALUE - 2`, then 98), both tweets in order, and a final cursor of 99 |
| Publisher.ValidArgs | src/main/java/org/wso2/cep/uima/demo/TweetExtractor.java:47 | the run goes ahead only with exactly two arguments, neither of them empty |
| Publisher.Publish | src/main/java/org/wso2/cep/uima/demo/TweetExtractor.java:75-79 | one message per tweet, in list order, each carrying exactly that tweet's text |
| Publisher.RunMain | src/main/java/org/wso2/cep/uima/demo/TweetExtractor.java:45-89 | a usage error exactly when the arguments are not two non-empty strings; a configuration error exactly when the arguments are valid and a key is missing (no request made in either case); otherwise the extracted list is published in order to the queue named by the arguments, and the enqueued count equals the extracted count |

## Left out

- The Twitter client is not modelled. `getUserTimeline` is replaced by the scripted `responses`, and every exception it or `Paging` may raise (rate limits, network errors, argument checks inside the library) is one `Failure` response. The user whose timeline is read is carried along but does not influence the script.
- Extractor.TweetExtractor.RetrieveTweets: requires that some response in the script ends the loop. An API that answers every request with a non-empty page would make the Java loop run forever; such a script has no final state to state.
- ExtractorProperties.NoIdAppendedTwice, ExtractorProperties.DistinctBeforeWrap, ExtractorProperties.DistinctAfterCall, ExtractorProperties.PageBelowCursor, ExtractorProperties.StrictProgress: hold only for scripts in which the API honours each request's `maxId` and returns no duplicate within one page. The Java code checks neither, so these are properties of well-behaved servers, not guarantees of the code.
- ExtractorProperties.NoIdAppendedTwice, ExtractorProperties.CursorAboveLongMin: also require that no status carries the id `Long.MIN_VALUE`, because Twitter ids are positive. The Java code does not check this; `ExtractorProperties.WrapRepeatsId` shows that a duplicate id follows without it.
- The ActiveMQ connection factory, connection, session, queue and producer, and closing them, are not modelled. The publish loop yields the payloads it sends.
- Publisher.Publish: a `JMSException` thrown by `send` would abort `main` part-way through the list. The model assumes every send succeeds.
- Loading `twitterConfig.xml` (`TwitterConfigurationBuiler`) and its XML and I/O exceptions are not modelled. The configuration is an input whose keys may be missing.
- Logging, `printStackTrace`, the debug counter `index`, `count`, which only decides whether a log line is written,, `System.exit` and the `log4j` set-up are not modelled. None of them affect what is fetched or sent.
- `Date` is an opaque value carried from status to tweet. `Tweet`'s own methods (`toString`, getters other than the text) are not part of this model.
