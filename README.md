# caddy-search ingestion pipeline, in Dafny

This project models the decision and transformation logic of the search
plugin's ingestion pipeline (`pipeline.go`). A page record passes three stages:
validate, then parse, then index. The model proves what each stage decides.

- **Markup stripping** (`markup.dfy`, module `Markup`). `StripHTML` is the
  byte scanner of `stripHTML`. It has the same `inTag`, `inQuotes` and
  `tagStart` state and writes into a buffer. It is proved equal to `Strip`, a
  reference definition that reads the input one tag at a time. The lemmas
  prove these facts:
  - Input without `<` is unchanged.
  - The output is a subsequence of the input, so it is never longer.
  - An unquoted tag `<...>` is dropped.
  - A `>` or `<` between double quotes neither closes nor restarts a tag.
  - An unquoted second `<` flushes the pending tag text verbatim.
  - A tag still open at the end of input is written out verbatim.
- **Title and link extraction** (`html.dfy`, module `Html`). `GetHTMLContent`
  and `GetLinks` are the token loops of `getHTMLContent` and `getLinks`. They
  run over an abstract token stream (`Start`, `End`, `Text`, `Other`, `Error`).
  `GetHTMLContent` is proved to return the first text token inside a `title`
  element, unless an error token comes first. The `valid` flag is shown to
  mean "some matching start tag has been seen and no matching end tag since".
  `GetLinks` is proved to return one attribute map per `a` start tag, in
  order, up to the first error token. In each map the last duplicate key wins.
- **Paths** (`paths.dfy`, module `Paths`). This module has prefix and suffix
  tests and `path.Base` for file names. It also has the crawl rewrite, which
  puts a link's path under the page's path.
- **Dedup decision** (`dedup.dfy`, module `Dedup`). The validate stage's choice
  between defer, accept and reject is made over an explicit cache. The cache
  maps each path to the second its entry expires, and the time `now` is an
  explicit input. The lemmas prove these facts:
  - A path accepted once is rejected until its entry expires.
  - After expiry the path is accepted again.
  - Other paths are untouched.
  - Over any series of submissions, two acceptances of one path are at least
    one time-to-live apart.
- **Stages** (`pipeline.dfy`, module `Search`). `Record` is a class with
  `path`, `body`, `title` and `ignored` fields. `Pipeline` is a class that
  holds the configuration and the cache. Its methods are `ValidatePath` (the
  two pattern loops), `Validate` (which updates the cache), `CrawlPaths` (the
  crawl loop) and `Parse`. `Parse` updates the record in place. It returns
  whether the record is passed on and which paths a crawl would fetch.

The regular-expression engine and the URL parser are given to a `Pipeline` as
functions, with no assumption about what they compute. The HTML tokenizer is
represented by the token sequences the extractors receive.

Bare angle brackets around text are read as a tag: `"a < b > c"` strips to
`"a  c"` (`Markup.BareBracketsExample`).

## Model

| member | source | states |
|---|---|---|
| Markup.StripHTML | pipeline.go:91-121 | the byte scanner returns exactly `Strip(s)`, the tag-by-tag reading of the input |
| Markup.Strip | pipeline.go:91-121 | the stripped output is never longer than the input |
| Markup.TagEnd | pipeline.go:96-106 | scanning inside a tag stops at a `>` or `<`, or at the end of input |
| Markup.TagEndFirstBracket | pipeline.go:96-106 | the stop is the first unquoted `>` or `<`: every bracket passed over was between double quotes, and the quotes are closed where it stops |
| Markup.InTagStep | pipeline.go:96-106 | each byte read inside a tag keeps the scanner's state consistent with `Strip`: close on unquoted `>`, flush and restart on unquoted `<`, toggle on `"` |
| Markup.OutsideStep | pipeline.go:108-113 | each byte read outside a tag keeps the scanner's state consistent with `Strip`: `<` opens a tag, any other byte is copied |
| Markup.NoTagUnchanged | pipeline.go:95-114 | input containing no `<` is returned byte for byte |
| Markup.PlainPrefix | pipeline.go:108-113 | text without `<` before the rest of the input is copied through unchanged |
| Markup.StripIsSubsequence | pipeline.go:92-120 | the output is a subsequence of the input: only input bytes, in order |
| Markup.TagEndAcross | pipeline.go:96-106 | a stretch with no unquoted bracket does not end a tag, and the scan leaves it in the quote state it ends with |
| Markup.InertConcat | pipeline.go:103-104 | two such stretches in a row form one, with the quote state carried across |
| Markup.QuotedValueInert | pipeline.go:97-104 | a double-quoted value holds no tag-ending bracket, whatever brackets it contains |
| Markup.PlainInert | pipeline.go:97-106 | inside a tag, text with no bracket and no double quote neither ends the tag nor leaves a quote open |
| Markup.TagDropped | pipeline.go:96-98 | an unquoted, unnested `<...>` is dropped entirely |
| Markup.FalseStartFlushed | pipeline.go:99-102 | an unquoted `<` inside a tag writes the pending tag text verbatim and restarts the tag there |
| Markup.UnterminatedFlushed | pipeline.go:115-119 | a tag open at the end of input is written out verbatim |
| Markup.TagBetweenText | pipeline.go:96-113 | a tag between two runs of text without `<` is removed and both runs are kept |
| Markup.BareBracketsExample | pipeline.go:108-110 | `"a < b > c"` strips to `"a  c"` |
| Markup.QuotedBracketExample | pipeline.go:97-104 | `<a t=">">x` strips to `"x"`: the quoted `>` does not close the tag |
| Html.InsideAtIsOpenElement | pipeline.go:191-199 | the `valid` flag holds exactly when a start tag named `tag` came earlier with no end tag named `tag` since |
| Html.FirstStop | pipeline.go:181-190 | finds the first token that ends the title scan: an error token, or a text token inside the element |
| Html.Content | pipeline.go:175-202 | the result is the first text token inside the element when no error token precedes it; otherwise the empty string with an error |
| Html.GetHTMLContent | pipeline.go:175-202 | the token loop with its `valid` flag returns exactly `Content` |
| Html.TitleExample | pipeline.go:187-199 | the title of `<html><head><title>Hello</title>...` is `"Hello"` |
| Html.AttrMap | pipeline.go:216-219 | a link's keys are exactly the attribute names of its tag |
| Html.AttrMapLastWins | pipeline.go:217-219 | for a duplicated attribute name, the value of its last occurrence wins |
| Html.Links | pipeline.go:204-224 | what getLinks returns: one attribute map per `a` start tag before the first error token, in stream order, so never more links than tokens |
| Html.LinksAppend | pipeline.go:207-223 | the links of an error-free prefix come first, in order, then those of the rest |
| Html.LinksStopAtError | pipeline.go:210-212 | nothing after the first error token contributes a link |
| Html.GetLinks | pipeline.go:204-224 | the token loop, with its inner attribute loop, returns one map per `a` start tag in stream order, up to the first error |
| Html.LinksExample | pipeline.go:213-221 | `<a href="/a">x</a><a href="/b">y</a>` yields the two maps with hrefs `/a` then `/b` |
| Paths.HasPrefix | pipeline.go:143 | strings.HasPrefix: the string begins with the prefix |
| Paths.HasSuffix | pipeline.go:159 | strings.HasSuffix: the string ends with the suffix |
| Paths.LastSlash | pipeline.go:162 | finds the last `/` of a path, or none |
| Paths.Base | pipeline.go:162 | the base name is a suffix of the path, holds no `/`, and is preceded by a `/` when shorter than the path |
| Paths.BaseKeepsSuffix | pipeline.go:159-162 | the base name of a path keeps the path's extension |
| Paths.TextPathHasTitle | pipeline.go:159-162 | a `.txt` or `.md` path has a non-empty base name |
| Paths.CrawlPath | pipeline.go:143-145 | a crawl path always starts with the page's path and ends with the link's path; a link path already under the page is kept |
| Paths.CrawlPathIdempotent | pipeline.go:143-145 | rewriting a rewritten crawl path changes nothing |
| Dedup.Live | pipeline.go:76-78 | the cache hit of the validate stage: the path has an entry that expires after `now` |
| Dedup.Admit | pipeline.go:69-82 | defer iff the body is empty and the record not ignored; otherwise accept iff the path is eligible and not live in the cache, and only acceptance stores the path with expiry `now + ttl` |
| Dedup.RejectedWithinWindow | pipeline.go:75-81 | a path accepted at `t` is rejected when submitted again before `t + ttl` |
| Dedup.AcceptedAfterExpiry | pipeline.go:75-81 | once the entry has expired, an eligible path is accepted again |
| Dedup.OtherPathsUntouched | pipeline.go:79 | storing one path changes nothing the cache says about any other path |
| Dedup.NoAcceptBeforeExpiry | pipeline.go:75-81 | while an entry for a path expires at `t` or later, no submission of that path before `t` is accepted |
| Dedup.AcceptedOncePerWindow | pipeline.go:75-81 | in any series of submissions, two acceptances of one path are at least one time-to-live apart |
| Search.Classify | pipeline.go:129-169 | a record is an HTML document iff it has a title, a text document iff it has none and its path ends in `.txt` or `.md`, and unindexed otherwise |
| Search.Pipeline.constructor | pipeline.go:35-36 | a new pipeline starts with an empty dedup cache |
| Search.Pipeline.ValidatePath | pipeline.go:236-250 | the path is eligible iff no exclude pattern matches and some include pattern matches; any matching exclude pattern gives false; an empty include list gives false |
| Search.Pipeline.Validate | pipeline.go:67-85 | the verdict and the new cache are those of `Admit` for the record, its path's eligibility and the configured expiry |
| Search.Pipeline.CrawlTargets | pipeline.go:136-155 | at most one fetch per link, each one under the page's path |
| Search.Pipeline.CrawlTargetsFromLinks | pipeline.go:137-146 | a path is fetched iff some link's href parses, has an empty or configured host, and rewrites to that path |
| Search.Pipeline.CrawlTargetSource | pipeline.go:137-146 | every fetched path comes from some link of the page |
| Search.Pipeline.CrawlTargetReached | pipeline.go:137-146 | every link that leads to a path makes that path fetched |
| Search.Pipeline.CrawlPaths | pipeline.go:137-155 | the crawl loop fetches exactly `CrawlTargets` of the page's links, in order |
| Search.Pipeline.Parse | pipeline.go:125-173 | every record passed on carries a non-empty title. With a title: the record gets it, its body becomes `Strip` of the old body, and crawl paths are computed when crawling is on. Without a title, a `.txt` or `.md` path gets its base name and keeps its body. Otherwise the record is marked ignored and not passed on |

## Left out

- The stage wiring is left out: `NewPipeline`'s piper stages, the output-draining goroutine and its ticker (pipeline.go:19-50). Only the empty initial cache is kept. This is concurrency and library plumbing.
- `Pipe` and the re-injection `go p.Pipe(record)` (pipeline.go:61-63, 71) are left out as goroutines. The `Defer` verdict stands for the re-injection.
- The index stage (pipeline.go:227-233) is left out. It is a fire-and-forget hand-off to the external indexer.
- The crawl fetches `http.Get` (pipeline.go:147-153) are network I/O. The model returns the paths that would be fetched.
- `url.Parse` and regexp `MatchString` are library code. They are opaque function fields of `Pipeline`: `parseUrl` returns `None` on a parse error, and `matches` answers a pattern against a path.
- The HTML tokenizer is library code. The extractors receive token sequences. A sequence that runs out counts as the tokenizer's end-of-input error token. Tag names are compared as the tokenizer delivers them.
- `getLinks` reads the same reader that `getHTMLContent` has already consumed (pipeline.go:127-130). What it then sees depends on the tokenizer's buffering, so `Parse` takes the link tokens as a separate input.
- Html.GetHTMLContent: returns only whether an error ended the scan, not which error; the parse stage does not use the error.
- Search.Pipeline.Parse: the value returned for an ignored record is the extraction error (pipeline.go:168). The index stage drops it because it is not a record, so the model reports "not passed on".
- Input that is not a record (the failing type assertions in pipeline.go:68, 126) is not modelled. Every stage here takes a `Record`.
- Paths.Base: models `path.Base` only for non-empty paths that do not end in `/`. These are the only paths it is applied to, since they end in `.txt` or `.md`.
- The dedup cache's internals are left out: memory-pressure eviction, the 512 MiB size, lookup errors other than "not found", and its 32-bit seconds clock. The configured expiry is a positive number of whole seconds (`Dedup.Seconds`). The conversion of the expiry duration to seconds (pipeline.go:79) and the meaning of a non-positive expiry are not modelled.
- Concurrent access to the cache from several workers is not modelled. Each validate call is one atomic step.
