/** SyncConfig: the settings of one crawl, fixed for its whole lifetime. */
module Config {
  import opened Wrappers

  /**
   * maxPages and maxDepth are C# ints; every integer the command line can
   * produce lies in the 32-bit range. allowedUrlPrefix is None where the C#
   * property is null.
   */
  datatype SyncConfig = SyncConfig(
    startingUrl: string,
    maxPages: int,
    maxDepth: int,
    urlFilterRegex: string,
    skipHrefSubstrings: seq<string>,
    allowPagesWith: seq<string>,
    allowedUrlPrefix: Option<string>,
    useJavaScriptRendering: bool)

  /** string.IsNullOrEmpty(AllowedUrlPrefix). */
  predicate PrefixUnset(prefix: Option<string>) {
    prefix.None? || prefix.value == ""
  }
}
