/**
 * Where the dictionary files are fetched from: under the `/manuscript-editor` base when
 * the site is served from a public host, at the root otherwise.
 */
module Paths {
  import opened Wrappers

  const BASE_PATH: string := "/manuscript-editor"
  const DICTIONARIES: string := "/dictionaries/"

  /**
   * `getDictionaryPath(filename)`. `hostname` is `window.location.hostname` in a browser
   * and `None` outside one.
   */
  function GetDictionaryPath(filename: string, hostname: Option<string>): (r: string)
    ensures hostname.Some? && hostname.value != "localhost" && hostname.value != "127.0.0.1"
            ==> r == BASE_PATH + DICTIONARIES + filename
    ensures (hostname.None? || hostname.value == "localhost" || hostname.value == "127.0.0.1")
            ==> r == DICTIONARIES + filename
  {
    if hostname.Some? then
      var isProduction := hostname.value != "localhost" && hostname.value != "127.0.0.1";
      var basePath := if isProduction then BASE_PATH else "";
      basePath + DICTIONARIES + filename
    else DICTIONARIES + filename
  }

  /** Wherever it runs, the path ends in the dictionaries folder and the file name. */
  lemma PathEndsWithFile(filename: string, hostname: Option<string>)
    ensures var r := GetDictionaryPath(filename, hostname);
            |r| >= |DICTIONARIES + filename| && r[|r| - |DICTIONARIES + filename|..] == DICTIONARIES + filename
  {
    var r := GetDictionaryPath(filename, hostname);
    var tail := DICTIONARIES + filename;
    if r != tail {
      assert r == BASE_PATH + tail;
      assert r[|BASE_PATH|..] == tail;
    }
  }
}
