/**
 * The program's entry point: the argument check, building the extractor
 * (which checks the API keys), the extraction, and the publish loop that
 * sends one text message per extracted tweet to the queue.
 *
 * The ActiveMQ connection, session and producer are not modelled; the
 * publish loop yields the payloads it sends, in order.
 */
module Publisher {
  import opened Wrappers
  import opened Twitter
  import opened Util
  import opened Extractor

  /** The run goes ahead only with exactly two arguments, both non-empty: the broker URL and the queue name. */
  predicate ValidArgs(args: seq<string>)
  {
    |args| == 2 && args[0] != "" && args[1] != ""
  }

  /**
   * The publish loop: for each tweet of the list, in list order, one text
   * message whose payload is the tweet's text and nothing else.
   */
  method Publish(tweetList: seq<Tweet>) returns (sent: seq<string>)
    ensures |sent| == |tweetList|
    ensures forall i :: 0 <= i < |tweetList| ==> sent[i] == tweetList[i].text
  {
    sent := [];
    for i := 0 to |tweetList|
      invariant |sent| == i
      invariant forall j :: 0 <= j < i ==> sent[j] == tweetList[j].text
    {
      var message := tweetList[i].text;
      sent := sent + [message];
    }
  }

  /** How a run of the program ends. */
  datatype RunOutcome =
    | UsageError
    | ConfigError
    | Completed(jmsUrl: string, queueName: string, extracted: nat, sent: seq<string>, enqueued: nat)

  /**
   * `main`: checks the arguments, builds the extractor, extracts the
   * timeline of the configured user (the API answering with `responses`)
   * and publishes every tweet. `requests` records every timeline request.
   */
  method RunMain(args: seq<string>, config: TwitterConfiguration, responses: seq<Response>)
    returns (outcome: RunOutcome, ghost requests: seq<Paging>)
    requires ValidArgs(args) && BuildConfiguration(config).Ok? ==> EventuallyStops(responses)
    ensures outcome.UsageError? <==> !ValidArgs(args)
    ensures outcome.ConfigError? <==> ValidArgs(args) && BuildConfiguration(config).Err?
    ensures !outcome.Completed? ==> requests == []
    ensures outcome.Completed? ==>
              var run := AfterCalls(responses, FirstStop(responses) + 1);
              && outcome.jmsUrl == args[0] && outcome.queueName == args[1]
              && requests == run.requests
              && outcome.extracted == |run.collected| == |outcome.sent| == outcome.enqueued
              && forall i :: 0 <= i < |run.collected| ==> outcome.sent[i] == run.collected[i].text
  {
    requests := [];
    if !ValidArgs(args) {
      return UsageError, requests;
    }
    var created := TweetExtractor.Create(args[0], args[1], config);
    if created.Err? {
      return ConfigError, requests;
    }
    var extractor := created.value;
    ghost var minId;
    requests, minId := extractor.RetrieveTweets(responses);
    var extracted := |extractor.tweetList|;
    var sent := Publish(extractor.tweetList);
    outcome := Completed(extractor.jmsUrl, extractor.queueName, extracted, sent, |extractor.tweetList|);
  }
}
