/**
 * The router base path the client computes from the build's `BASE_URL`.
 */
module Basename {
  import opened Wrappers
  import opened Text

  /**
   * `basename`: `BASE_URL`, or "/" without one, with one trailing '/'
   * dropped when it is longer than one character, and "/" for an empty
   * result.
   */
  function Basename(baseUrl: Option<string>): (r: string)
    ensures r != ""
    ensures baseUrl.None? ==> r == "/"
    ensures var base := baseUrl.GetOr("/");
      && (EndsWith(base, "/") && |base| > 1 ==> r == base[..|base| - 1])
      && (base != "" && !EndsWith(base, "/") ==> r == base)
      && (base == "" || base == "/" ==> r == "/")
  {
    var base := baseUrl.GetOr("/");
    var trimmed := if EndsWith(base, "/") && |base| > 1 then base[..|base| - 1] else base;
    if trimmed == "" then "/" else trimmed
  }

  /** Only one trailing '/' goes: "a//" becomes "a/". */
  lemma OneSlashOnly()
    ensures Basename(Some("a//")) == "a/"
  {
    assert EndsWith("a//", "/");
  }

  /** Adding a '/' to a base without one and computing the basename gives the base back. */
  lemma BasenameDropsAddedSlash(base: string)
    requires base != ""
    ensures Basename(Some(base + "/")) == base
  {
    var b := base + "/";
    assert EndsWith(b, "/");
    assert b[..|b| - 1] == base;
  }

  /** What is passed to the router: nothing for "/". */
  function RouterBasename(baseUrl: Option<string>): (r: Option<string>)
    ensures r.None? <==> Basename(baseUrl) == "/"
    ensures r.Some? ==> r.value != "" && r.value != "/"
  {
    var b := Basename(baseUrl);
    if b == "/" then None else Some(b)
  }
}
