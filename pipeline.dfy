/**
  The pipeline's stages (pipeline.go): the path filter, the validate stage
  that defers, accepts or rejects a record against the dedup cache, and the
  parse stage that classifies a record, extracts its title, strips its markup
  and computes the paths a crawl would fetch.

  The regular-expression engine and the URL parser are not part of the model:
  a pipeline holds them as functions it is given. The goroutines and channels
  that connect the stages, the indexer hand-off and the crawl fetches
  themselves are left out; the parse stage returns the paths it would fetch.
*/
module Search {
  import opened Markup
  import opened Html
  import opened Paths
  import opened Dedup

  type Pattern = string

  datatype Url = Url(host: string, path: string)

  datatype Option<T> = None | Some(value: T)

  /** The configuration the pipeline reads; `crawl` empty disables crawling. */
  datatype Config = Config(
    excludePaths: seq<Pattern>,
    includePaths: seq<Pattern>,
    crawl: string,
    hostName: string,
    expire: Seconds)

  /** The name of the element the parse stage takes the title from. */
  const TitleTag: string := "title"

  /** A record as the stages see it; the parse stage updates it in place. */
  class Record {
    var path: string
    var body: seq<byte>
    var title: string
    var ignored: bool

    constructor (path: string, body: seq<byte>)
      ensures this.path == path && this.body == body && title == "" && !ignored
    {
      this.path := path;
      this.body := body;
      title := "";
      ignored := false;
    }
  }

  /** The value of a link's `href` attribute; a missing key reads as "". */
  function Href(link: map<string, string>): string
  {
    if "href" in link then link["href"] else ""
  }

  /** The three outcomes of the parse stage. */
  datatype Kind = HtmlDoc | TextDoc | Unindexed

  /** A title makes an HTML document; otherwise a text-file path makes a text document. */
  function Classify(title: string, path: string): (k: Kind)
    ensures k == HtmlDoc <==> title != ""
    ensures k == TextDoc <==> title == "" && IsTextPath(path)
  {
    if title != "" then HtmlDoc
    else if IsTextPath(path) then TextDoc
    else Unindexed
  }

  class Pipeline {
    const config: Config
    /** Whether a compiled pattern matches a path (regexp MatchString). */
    const matches: (Pattern, string) -> bool
    /** url.Parse: None on a parse error. */
    const parseUrl: string -> Option<Url>
    /** The dedup cache: path to the second its entry expires. */
    var cache: Cache

    constructor (config: Config, matches: (Pattern, string) -> bool, parseUrl: string -> Option<Url>)
      ensures this.config == config && this.matches == matches && this.parseUrl == parseUrl
      ensures cache == map[]
    {
      this.config := config;
      this.matches := matches;
      this.parseUrl := parseUrl;
      cache := map[];
    }

    /** A path is eligible when no exclude pattern matches it and some include pattern does. */
    predicate Eligible(path: string)
    {
      && (forall i :: 0 <= i < |config.excludePaths| ==> !matches(config.excludePaths[i], path))
      && (exists i :: 0 <= i < |config.includePaths| && matches(config.includePaths[i], path))
    }

    /** The two pattern loops of ValidatePath: exclusion wins, otherwise the first matching include. */
    method ValidatePath(path: string) returns (ok: bool)
      ensures ok <==> Eligible(path)
      ensures (exists i :: 0 <= i < |config.excludePaths| && matches(config.excludePaths[i], path)) ==> !ok
      ensures config.includePaths == [] ==> !ok
    {
      for i := 0 to |config.excludePaths|
        invariant forall k :: 0 <= k < i ==> !matches(config.excludePaths[k], path)
      {
        if matches(config.excludePaths[i], path) {
          return false;
        }
      }
      for i := 0 to |config.includePaths|
        invariant forall k :: 0 <= k < i ==> !matches(config.includePaths[k], path)
      {
        if matches(config.includePaths[i], path) {
          return true;
        }
      }
      return false;
    }

    /**
      The validate stage at time `now`: defer an empty body that is not
      ignored; otherwise accept, and store the path until `now` plus the
      configured expiry, exactly when the path is eligible and not in the
      cache; otherwise reject.
    */
    method Validate(record: Record, now: int) returns (v: Verdict)
      modifies this`cache
      ensures (v, cache) == Admit(old(cache), Submission(record.path, |record.body| == 0, record.ignored, now),
                                  Eligible(record.path), config.expire)
    {
      if |record.body| == 0 && !record.ignored {
        return Defer;
      }
      var exist := Live(cache, record.path, now);
      var ok := ValidatePath(record.path);
      if ok && !exist {
        cache := cache[record.path := now + config.expire];
        return Accept;
      }
      return Reject;
    }

    /** The crawl target of one link, if any. */
    function CrawlTarget(link: map<string, string>, pagePath: string): seq<string>
    {
      match parseUrl(Href(link))
      case None => []
      case Some(u) =>
        if u.host == config.hostName || u.host == "" then [CrawlPath(u.path, pagePath)] else []
    }

    /**
      The paths fetched for a page's links, in link order: one for each link
      whose href parses and whose host is empty or the configured host name,
      always under the page's path.
    */
    function CrawlTargets(links: seq<map<string, string>>, pagePath: string): (r: seq<string>)
      ensures |r| <= |links|
      ensures forall k :: 0 <= k < |r| ==> HasPrefix(r[k], pagePath)
      decreases |links|
    {
      if links == [] then []
      else CrawlTargets(links[..|links| - 1], pagePath) + CrawlTarget(links[|links| - 1], pagePath)
    }

    /** Link `link` on the page at `pagePath` leads to a fetch of `f`. */
    predicate LeadsTo(link: map<string, string>, pagePath: string, f: string)
    {
      f in CrawlTarget(link, pagePath)
    }

    /** A path is fetched exactly when some link on the page leads to it. */
    lemma CrawlTargetsFromLinks(links: seq<map<string, string>>, pagePath: string, f: string)
      ensures f in CrawlTargets(links, pagePath) <==> exists i :: 0 <= i < |links| && LeadsTo(links[i], pagePath, f)
    {
      if f in CrawlTargets(links, pagePath) {
        var i := CrawlTargetSource(links, pagePath, f);
      }
      forall i | 0 <= i < |links| && LeadsTo(links[i], pagePath, f)
        ensures f in CrawlTargets(links, pagePath)
      {
        CrawlTargetReached(links, pagePath, f, i);
      }
    }

    lemma {:induction false} CrawlTargetSource(links: seq<map<string, string>>, pagePath: string, f: string)
      returns (i: nat)
      requires f in CrawlTargets(links, pagePath)
      ensures i < |links| && LeadsTo(links[i], pagePath, f)
      decreases |links|
    {
      var init := links[..|links| - 1];
      if f in CrawlTarget(links[|links| - 1], pagePath) {
        i := |links| - 1;
      } else {
        i := CrawlTargetSource(init, pagePath, f);
        assert links[i] == init[i];
      }
    }

    lemma {:induction false} CrawlTargetReached(links: seq<map<string, string>>, pagePath: string, f: string, i: nat)
      requires i < |links| && LeadsTo(links[i], pagePath, f)
      ensures f in CrawlTargets(links, pagePath)
      decreases |links|
    {
      var init := links[..|links| - 1];
      if i < |links| - 1 {
        assert links[i] == init[i];
        CrawlTargetReached(init, pagePath, f, i);
      }
    }

    /** The crawl loop of the parse stage, over the links of one page. */
    method CrawlPaths(links: seq<map<string, string>>, pagePath: string) returns (fetches: seq<string>)
      ensures fetches == CrawlTargets(links, pagePath)
    {
      fetches := [];
      for i := 0 to |links|
        invariant fetches == CrawlTargets(links[..i], pagePath)
      {
        assert links[..i + 1][..i] == links[..i];
        var plink := parseUrl(Href(links[i]));
        if plink.None? {
          continue;
        }
        var u := plink.value;
        if u.host == config.hostName || u.host == "" {
          var p := u.path;
          if !HasPrefix(p, pagePath) {
            p := pagePath + p;
          }
          fetches := fetches + [p];
        }
      }
      assert links[..|links|] == links;
    }

    /**
      The parse stage. `titleTokens` and `linkTokens` are the token streams
      the title and the links are read from. A record with a title keeps it
      and has its markup stripped; one without a title whose path names a
      text file takes its base name as title; any other record is marked
      ignored and not passed on. `fetches` are the paths a crawl fetches.
    */
    method Parse(record: Record, titleTokens: seq<Token>, linkTokens: seq<Token>)
      returns (forwarded: bool, fetches: seq<string>)
      modifies record
      ensures record.path == old(record.path)
      ensures forwarded ==> record.title != ""
      ensures var kind := Classify(Content(titleTokens, TitleTag).text, record.path);
        && (forwarded <==> kind != Unindexed)
        && (kind == HtmlDoc ==>
              && record.title == Content(titleTokens, TitleTag).text
              && record.body == Strip(old(record.body))
              && record.ignored == old(record.ignored)
              && fetches == if config.crawl != "" then CrawlTargets(Links(linkTokens), record.path) else [])
        && (kind == TextDoc ==>
              && record.title == Base(record.path)
              && record.body == old(record.body)
              && record.ignored == old(record.ignored)
              && fetches == [])
        && (kind == Unindexed ==>
              && record.ignored
              && record.title == old(record.title)
              && record.body == old(record.body)
              && fetches == [])
    {
      fetches := [];
      var title, _ := GetHTMLContent(titleTokens, TitleTag);
      if title != "" {
        var links := GetLinks(linkTokens);
        record.title := title;
        record.body := StripHTML(record.body);
        if config.crawl != "" {
          fetches := CrawlPaths(links, record.path);
        }
        return true, fetches;
      } else if HasSuffix(record.path, ".txt") || HasSuffix(record.path, ".md") {
        record.title := Base(record.path);
        TextPathHasTitle(record.path);
        return true, fetches;
      } else {
        record.ignored := true;
        return false, fetches;
      }
    }
  }
}
