/**
  The string and path operations the pipeline relies on: strings.HasPrefix,
  strings.HasSuffix, path.Base for the file names it is applied to, and the
  rewrite that puts a crawled link under the path of the page it was found on.
*/
module Paths {

  predicate HasPrefix(s: string, prefix: string)
  {
    |prefix| <= |s| && s[..|prefix|] == prefix
  }

  predicate HasSuffix(s: string, suffix: string)
  {
    |suffix| <= |s| && s[|s| - |suffix|..] == suffix
  }

  /** The file extensions the parse stage indexes as plain text. */
  predicate IsTextPath(p: string)
  {
    HasSuffix(p, ".txt") || HasSuffix(p, ".md")
  }

  /** The index of the last `/` in `p`, or -1 when it has none. */
  function LastSlash(p: string): (i: int)
    ensures -1 <= i < |p|
    ensures i >= 0 ==> p[i] == '/'
    ensures forall k :: i < k < |p| ==> p[k] != '/'
    decreases |p|
  {
    if p == [] then -1
    else if p[|p| - 1] == '/' then |p| - 1
    else LastSlash(p[..|p| - 1])
  }

  /**
    path.Base for a path that does not end in a slash: the text after the
    last `/`, or the whole path when it has none.
  */
  function Base(p: string): (r: string)
    ensures HasSuffix(p, r)
    ensures forall k :: 0 <= k < |r| ==> r[k] != '/'
    ensures |r| < |p| ==> p[|p| - |r| - 1] == '/'
  {
    p[LastSlash(p) + 1..]
  }

  /** The base name keeps an extension without slashes: a text file's title is never empty. */
  lemma BaseKeepsSuffix(p: string, ext: string)
    requires HasSuffix(p, ext)
    requires forall k :: 0 <= k < |ext| ==> ext[k] != '/'
    ensures HasSuffix(Base(p), ext)
  {
    var n := |p| - |ext|;
    assert forall k :: n <= k < |p| ==> p[k] == ext[k - n];
    var r := Base(p);
    assert r[|r| - |ext|..] == p[n..];
  }

  lemma TextPathHasTitle(p: string)
    requires IsTextPath(p)
    ensures Base(p) != ""
  {
    if HasSuffix(p, ".txt") {
      BaseKeepsSuffix(p, ".txt");
    } else {
      BaseKeepsSuffix(p, ".md");
    }
  }

  /**
    The path a crawled link is fetched at: the link's path when it already
    starts with the page's path, otherwise the page's path followed by it.
  */
  function CrawlPath(linkPath: string, pagePath: string): (r: string)
    ensures HasPrefix(r, pagePath)
    ensures HasSuffix(r, linkPath)
    ensures HasPrefix(linkPath, pagePath) ==> r == linkPath
  {
    if HasPrefix(linkPath, pagePath) then linkPath
    else
      assert (pagePath + linkPath)[..|pagePath|] == pagePath;
      assert (pagePath + linkPath)[|pagePath|..] == linkPath;
      pagePath + linkPath
  }

  /** Rewriting an already rewritten path changes nothing. */
  lemma CrawlPathIdempotent(linkPath: string, pagePath: string)
    ensures CrawlPath(CrawlPath(linkPath, pagePath), pagePath) == CrawlPath(linkPath, pagePath)
  {
  }
}
