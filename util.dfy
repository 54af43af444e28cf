/** The application's own value types (the `Util` package of the extractor). */
module Util {
  import opened Wrappers
  import opened Twitter

  /** An extracted tweet: immutable once built from a status. */
  datatype Tweet = Tweet(id: Long, createdAt: Date, text: string)

  /** `new Tweet(s.getId(), s.getCreatedAt(), s.getText())`. */
  function FromStatus(s: Status): Tweet
  {
    Tweet(s.id, s.createdAt, s.text)
  }

  /**
   * The settings read from the configuration file; a field the file does
   * not set is `None` (Java `null`).
   */
  datatype TwitterConfiguration = TwitterConfiguration(
    consumerKey: Option<string>,
    consumerSecret: Option<string>,
    accessToken: Option<string>,
    accessTokenSecret: Option<string>,
    userToSearch: Option<string>)

  /** The four OAuth secrets handed to the client's configuration builder. */
  datatype Credentials = Credentials(
    consumerKey: string,
    consumerSecret: string,
    accessToken: string,
    accessTokenSecret: string)

  /** Raised when an API key is missing (`buildConfiguration` throws a `NullPointerException`). */
  datatype ConfigError = ApiKeysNotSet
}
