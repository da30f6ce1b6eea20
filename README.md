# ECUST academic-affairs notices route, modelled in Dafny

This project models the logic of the RSSHub route `lib/routes/ecust/jwc/notice.ts`.
The route publishes the notice listings of the East China University of Science and
Technology academic-affairs office (jwc.ecust.edu.cn) as a feed. The model covers four
pieces of that route.

- **Link normalisation** (`links.dfy`, module `Links`). A listing row's `href` is
  made absolute against `https://jwc.ecust.edu.cn` when it does not start with `http`.
  Then two start-anchored rewrites turn the campus SSL-VPN mirror hosts back into the
  canonical hosts. The regular expressions are written out as prefix tests and a
  maximal scan of `\w` characters (`Text.Run`).
- **Row extraction** (`listing.dfy`, module `Listing`). The listing's rows are mapped,
  in document order, to stubs `{title, link, pubDate}`. A row without `href` makes the
  whole page fail.
- **The description collapse** (`markup.dfy`, module `Markup`). One pass is the global
  `replaceAll` of `/<\/(p|span|strong)>\s*<\1>/g` by the empty string: a left-to-right
  scan that deletes each match and resumes behind it (`Text.DeleteAll`). The stored
  description is exactly two passes.
- **Category resolution, enrichment and the feed** (`route.dfy`, module `Route`). The
  optional category (default `all`) selects one listing or all five, plus the feed
  title and link. The stubs of all pages are concatenated in URL order. Each stub is
  enriched with the description of its article when the article's content container is
  non-empty.

Shared pieces: `results.dfy` (Option and Result) and `text.dfy` (prefixes, the `\w` and
`\s` classes, the generic delete-all scan and its lemmas).

Requests are parameters of the model. `Route.Env` carries three functions:

- `listing` yields a page's rows, or fails.
- `article` yields an article's container HTML, or fails.
- `parseDate` is the date parser, left uninterpreted.

## Model

| member | source | states |
|---|---|---|
| Text.IsWordChar | lib/routes/ecust/jwc/notice.ts:28 | the class `\w`: ASCII letters, digits and `_`; a predicate with no contract |
| Text.IsSpace | lib/routes/ecust/jwc/notice.ts:79 | the class `\s`: the ECMAScript white-space and line-terminator characters; a predicate with no contract |
| Text.Run | lib/routes/ecust/jwc/notice.ts:28 | a greedy `\w+` or `\s*`: the run is a prefix whose characters all qualify, and it stops only at the end or at a character that does not qualify |
| Text.DeleteAll | lib/routes/ecust/jwc/notice.ts:79 | the `replaceAll` scan with an empty replacement never lengthens the text; `DeleteAllIdentity` and `DeleteAllCopies` state which text it keeps |
| Text.DeleteAllIdentity | lib/routes/ecust/jwc/notice.ts:79 | the scan returns its input unchanged exactly when no match starts anywhere |
| Text.DeleteAllCopies | lib/routes/ecust/jwc/notice.ts:79 | a prefix in which no match starts is copied, and the scan continues on what follows |
| Links.Absolute | lib/routes/ecust/jwc/notice.ts:24-27 | the link starts with `http`; an `href` already starting with `http` is kept, any other becomes the site root followed by the `href` |
| Links.SubdomainMirror | lib/routes/ecust/jwc/notice.ts:28 | a match of the first rewrite's pattern splits the URL into `https://`, a non-empty `\w` label, the mirror host tail and the rest |
| Links.SubdomainMirrorExact | lib/routes/ecust/jwc/notice.ts:28 | every `https://W-ecust-edu-cn-s.sslvpn.ecust.edu.cn:8118…` with `W` a non-empty `\w` run is matched, with exactly that `W` and rest |
| Links.UnwrapSubdomainMirror | lib/routes/ecust/jwc/notice.ts:28 | the first `.replace`: a URL its pattern does not match is returned as it is, and its result never matches that pattern again |
| Links.SubdomainMirrorUnwrapped | lib/routes/ecust/jwc/notice.ts:28 | such a URL normalises to `https://W.ecust.edu.cn` followed by the same rest |
| Links.BareMirrorUnwrapped | lib/routes/ecust/jwc/notice.ts:28 | `https://ecust-edu-cn-s.sslvpn.ecust.edu.cn:8118` + rest normalises to `https://ecust.edu.cn` + rest |
| Links.UnwrapBareMirror | lib/routes/ecust/jwc/notice.ts:28 | the second `.replace`: a URL not starting with the bare mirror prefix is returned as it is, and its result never starts with that prefix |
| Links.Normalize | lib/routes/ecust/jwc/notice.ts:24-28 | the stored link: `Absolute`, then the two rewrites in source order. It has no contract of its own; its properties are stated by `NormalizeIsCanonical`, `CanonicalIsFixed`, `NormalizeIdempotent`, `RelativeHref`, `PlainHttpUntouched`, `SubdomainMirrorUnwrapped` and `BareMirrorUnwrapped` |
| Links.RelativeHref | lib/routes/ecust/jwc/notice.ts:25-28 | an `href` not starting with `http` normalises to `https://jwc.ecust.edu.cn` + `href` exactly; neither rewrite fires on it |
| Links.PlainHttpUntouched | lib/routes/ecust/jwc/notice.ts:25-28 | only the start of the link is examined: any `http://` link is returned unchanged, whatever mirror text it contains later |
| Links.DottedHostIsCanonical | lib/routes/ecust/jwc/notice.ts:28 | any `https://W.X` with `W` a `\w` label is left alone by both rewrites |
| Links.RulesExclusive | lib/routes/ecust/jwc/notice.ts:28 | no URL matches both rewrite patterns |
| Links.NormalizeIsCanonical | lib/routes/ecust/jwc/notice.ts:24-28 | every normalised link starts with `http` and matches neither rewrite pattern |
| Links.CanonicalIsFixed | lib/routes/ecust/jwc/notice.ts:24-28 | a link that starts with `http` and matches neither pattern is returned unchanged |
| Links.NormalizeIdempotent | lib/routes/ecust/jwc/notice.ts:24-28 | normalising a normalised link changes nothing |
| Listing.StubOf | lib/routes/ecust/jwc/notice.ts:29-33 | a stub's title is the anchor text, its link the normalised `href`, its date the parser applied to the date text |
| Listing.ExtractRows | lib/routes/ecust/jwc/notice.ts:18-34 | a successful page has one stub per row; a failure names a row index inside the page |
| Listing.ExtractRowsSucceeds | lib/routes/ecust/jwc/notice.ts:18-34 | success exactly when every row has an `href`; then the i-th stub is the i-th row's stub, in row order |
| Listing.ExtractRowsFails | lib/routes/ecust/jwc/notice.ts:18-34 | a failure names the first row without `href`: that row has none and every row before it has one |
| Listing.ExtractedLinksCanonical | lib/routes/ecust/jwc/notice.ts:18-34 | every stub of an extracted page carries a normalised, canonical link |
| Markup.ClosingTagAt | lib/routes/ecust/jwc/notice.ts:79 | the tag group, alternatives p, span and strong tried in that order: an alternative is selected only when its closing tag starts the text |
| Markup.BoundaryAt | lib/routes/ecust/jwc/notice.ts:79 | a match at the start is a closing tag of p, span or strong, a run of `\s` characters, and the opening tag of the same name |
| Markup.ClosingTagAtClose | lib/routes/ecust/jwc/notice.ts:79 | a closing tag `</p>`, `</span>` or `</strong>` selects its own alternative of the tag group, whatever follows |
| Markup.MatchLength | lib/routes/ecust/jwc/notice.ts:79 | the match length is 0 exactly when no match starts there; a match is at least 7 characters and starts with `</` |
| Markup.BoundaryAfterClose | lib/routes/ecust/jwc/notice.ts:79 | behind a closing tag, the pattern takes the whole space run and matches exactly when the same tag's opening tag follows |
| Markup.BoundaryAtExact | lib/routes/ecust/jwc/notice.ts:79 | `</T>` + spaces + `<T>` is matched, for each of the three names and any run of spaces |
| Markup.Pass | lib/routes/ecust/jwc/notice.ts:79 | one pass never makes the text longer |
| Markup.PassIdentity | lib/routes/ecust/jwc/notice.ts:79 | a pass returns its input unchanged exactly when no match starts at any position |
| Markup.PassShort | lib/routes/ecust/jwc/notice.ts:79 | text shorter than seven characters is unchanged |
| Markup.PassDeletes | lib/routes/ecust/jwc/notice.ts:79 | a boundary in front is deleted whole and the scan continues behind it |
| Markup.PassCopies | lib/routes/ecust/jwc/notice.ts:79 | text in which no closing tag starts is copied, and the scan continues behind it |
| Markup.PassKeepsClose | lib/routes/ecust/jwc/notice.ts:79 | a closing tag followed by a run of spaces and then anything but its own opening tag is copied, and the scan resumes at the spaces |
| Markup.ElementKept | lib/routes/ecust/jwc/notice.ts:79 | a lone element `<T>w</T>` with plain text is unchanged |
| Markup.MergesTwo | lib/routes/ecust/jwc/notice.ts:78-79 | `<T>x</T>` + spaces + `<T>y</T>` becomes `<T>xy</T>` |
| Markup.MergesParagraphs | lib/routes/ecust/jwc/notice.ts:79 | `<p>a</p><p>b</p>` becomes `<p>ab</p>` |
| Markup.MergesThree | lib/routes/ecust/jwc/notice.ts:78-79 | a chain `<T>x</T>` spaces `<T>y</T>` spaces `<T>z</T>` becomes `<T>xyz</T>` in one pass, and the description is the same: unlike a nesting, a chain collapses fully |
| Markup.MergesSpans | lib/routes/ecust/jwc/notice.ts:78-79 | `<span>a</span><span>b</span><span>c</span>` becomes `<span>abc</span>` after one pass and after the description step |
| Markup.MismatchKept | lib/routes/ecust/jwc/notice.ts:79 | a closing tag followed, after any run of spaces, by the opening tag of another merged name is kept with the spaces and that tag, whatever follows |
| Markup.ParagraphSpanKept | lib/routes/ecust/jwc/notice.ts:79 | `</p><span>` is unchanged by one pass and by the description step |
| Markup.OtherTagKept | lib/routes/ecust/jwc/notice.ts:79 | `</N><N>` for any word-character tag name other than p, span and strong is unchanged |
| Markup.PreKept | lib/routes/ecust/jwc/notice.ts:79 | `</pre><pre>` is unchanged |
| Markup.Describe | lib/routes/ecust/jwc/notice.ts:78-79 | the description, two passes, is never longer than the body |
| Markup.NestedBoundary | lib/routes/ecust/jwc/notice.ts:78-79 | for `</T></T>` + spaces + `<T><T>`, one pass leaves `</T><T>` and two passes leave nothing |
| Markup.NestedParagraphs | lib/routes/ecust/jwc/notice.ts:78-79 | `</p></p> <p><p>` is `</p><p>` after one pass and empty after two |
| Markup.PassStack | lib/routes/ecust/jwc/notice.ts:78-79 | for n+1 nested boundaries, a pass removes exactly the innermost one |
| Markup.DescribeStack | lib/routes/ecust/jwc/notice.ts:78-79 | two passes remove exactly two nesting levels |
| Markup.StackNotFixed | lib/routes/ecust/jwc/notice.ts:78-79 | any nesting of one or more levels is changed by a further pass |
| Markup.DescribedStackNotFixed | lib/routes/ecust/jwc/notice.ts:78-79 | with three or more nested levels the description is not a fixed point of the pass: a third pass would still change it |
| Markup.ThreeDeepParagraphs | lib/routes/ecust/jwc/notice.ts:78-79 | `</p></p></p><p><p><p>` still leaves `</p><p>` after two passes, and a third pass would change it |
| Route.Find | lib/routes/ecust/jwc/notice.ts:8-14 | the lookup finds a category with the requested key exactly when one exists, and nothing otherwise |
| Route.CategoryLookups | lib/routes/ecust/jwc/notice.ts:8-14 | the five entries of the category map, each returned with its path and name when looked up by its key |
| Route.FindOwnKey | lib/routes/ecust/jwc/notice.ts:60 | each category of the map is found under its own key |
| Route.ListingUrl | lib/routes/ecust/jwc/notice.ts:61 | a listing URL is the site root followed by a non-empty path |
| Route.Resolve | lib/routes/ecust/jwc/notice.ts:59-61 | one page exactly when the key is known, all five otherwise; every page lies below the site root; the title starts with `华理教务处 - ` |
| Route.ResolveKnown | lib/routes/ecust/jwc/notice.ts:59-86 | a known key yields its single URL `baseUrl + link + "/list.htm"`, the title `华理教务处 - ` + name, and that URL as the feed link |
| Route.ResolveFallback | lib/routes/ecust/jwc/notice.ts:59-86 | an absent or unknown category yields the five listing URLs in the order mto, mttb, gi, mpt, fai, the title `华理教务处 - 全部` and the link `https://jwc.ecust.edu.cn` |
| Route.AllListingUrls | lib/routes/ecust/jwc/notice.ts:8-14 | the five listing URLs, written out, in declaration order |
| Route.DefaultIsAll | lib/routes/ecust/jwc/notice.ts:59 | a missing parameter behaves as the key `all`, which selects all five pages |
| Route.ResolveAll | lib/routes/ecust/jwc/notice.ts:60-61 | without a parameter, every category's listing is fetched, with the site root as the link |
| Route.AllPagesAreCategoryPages | lib/routes/ecust/jwc/notice.ts:61 | the i-th page of the "all" feed is the one page of the i-th category's feed |
| Route.Enrich | lib/routes/ecust/jwc/notice.ts:77-79 | the stub's fields are kept; a description is set exactly when the container HTML exists and is non-empty, and it is the two-pass collapse of that HTML, never longer |
| Route.EnrichKeepsPlainBody | lib/routes/ecust/jwc/notice.ts:79 | a body without any boundary is stored verbatim |
| Route.ExtractPage | lib/routes/ecust/jwc/notice.ts:15-36 | a page fails when its request fails or a row lacks `href`, naming that row; otherwise it yields the page's stubs |
| Route.ExtractAll | lib/routes/ecust/jwc/notice.ts:62 | the extraction succeeds exactly when every page does; a failure is the failure of one of the pages |
| Route.ExtractAllAppend | lib/routes/ecust/jwc/notice.ts:62 | the stubs of two URL lists in a row are the stubs of their concatenation: the order is the URL order |
| Route.ExtractOne | lib/routes/ecust/jwc/notice.ts:62 | one URL yields exactly that page's stubs |
| Route.EnrichAll | lib/routes/ecust/jwc/notice.ts:63-83 | success exactly when every article request succeeds; then one item per stub, in stub order, each the stub enriched with its article; a failure names a failing article link |
| Route.EnrichAllAppend | lib/routes/ecust/jwc/notice.ts:63-83 | enriching two stub lists in a row is enriching their concatenation |
| Route.Items | lib/routes/ecust/jwc/notice.ts:62-83 | the items are the enriched stubs of all pages; a listing failure stops the pipeline before any article |
| Route.ItemsAppend | lib/routes/ecust/jwc/notice.ts:62-83 | the items for two URL lists in a row are the items of their concatenation |
| Route.Handle | lib/routes/ecust/jwc/notice.ts:58-88 | the feed carries the resolved title and link and the items of the resolved pages, and fails exactly when those items fail |
| Route.FeedLinksCanonical | lib/routes/ecust/jwc/notice.ts:28-31 | every item of a feed links to a normalised, canonical URL |
| Route.AllFeedIsCategoryFeeds | lib/routes/ecust/jwc/notice.ts:60-62 | when every category feed succeeds, the "all" feed succeeds and its items are the five category feeds' items concatenated in the order mto, mttb, gi, mpt, fai |

## Left out

- HTTP requests through `got` (lines 16 and 66) are not modelled. The listing rows and the article HTML are functions in `Route.Env`, and a failed request is their `None`.
- `cache.tryGet` (line 65) is not modelled. Every article is fetched and enriched; a cache hit, which would return an item stored earlier under the same link, is not represented.
- cheerio parsing and the selectors (lines 17-22 and 67) are not modelled. A row is given as its anchor text, its optional `href` and its date text. An anchor missing or holding several links is only what its `href` and text yield.
- The sanitising loop (lines 69-76), which removes empty nodes and all attributes, is not modelled. The container's HTML after it is the input `article` yields.
- `parseDate` (line 32) is an uninterpreted function; the date type is a type parameter.
- `Promise.all` (lines 62-83) runs concurrently in the source; the model runs the requests in sequence. On success the order is the same. On failure the model reports the first failing page or article in order, while the source rejects with whichever fails first in time. `Route.ExtractAll` and `Route.EnrichAll` therefore only promise that the error is one of the failures.
- The `route` metadata object (lines 37-56) is configuration only.
- Route.Find: `categoryMap[category]` also finds properties inherited from `Object.prototype` (e.g. `constructor`), which are truthy. The model treats such keys as unknown and resolves them to all five listings.
- Route.Enrich: the source assigns `item.description` on the stub object in place; the model returns a new item record.
- Characters are Unicode characters, not UTF-16 code units. Every character the patterns mention lies in the Basic Multilingual Plane, so no match and no rewrite differs. Lengths do differ: `Markup.Pass` and `Markup.Describe` bound the result's length in characters.
