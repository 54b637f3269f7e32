# sitemap-builder core in Dafny

A model of the Go sitemap builder's link extraction (`pkg/link`) and crawl (`pkg/crawler`), with
the stack they use (`pkg/collections`) and the older helpers of `internal/utils`, and proofs
about them.

- **Anchor extraction** (`pkg/link/parser.go`). A parsed HTML document is walked depth-first with
  an explicit stack (`pkg/collections/stack.go`) and a visited set. A node processor decides which
  nodes qualify and what happens to them. The link processor collects `<a>` elements. The text
  processor appends the trimmed data of every text node to a buffer. `buildHTMLLink` pairs the
  first `href` attribute with the text of the anchor's subtree, and `Parse` builds one link per
  anchor found.
- **Breadth-first crawl** (`pkg/crawler/crawler.go`). Starting from a seed URL, `Crawl` runs
  `maxDepth + 1` rounds. Each round swaps in the frontier the previous round built, skips what was
  already seen, marks the rest seen, and collects the normalized links of every page it fetches.
  `filterAndNormalizeLinks` puts the page's origin (`baseURL`) in front of root-relative hrefs and
  lets every other href through only when `keepFn` accepts it.
- **The older utilities** (`internal/utils/utils.go`). They hold a predicate filter
  (`FilterExternal`) and a normalizer that keeps hrefs starting with `http` instead of asking
  `keepFn`.

Modules (one concept per module, following the Go packages):

| file | module | contents |
|---|---|---|
| collections.dfy | Collections | `Option`, the `Stack` class, LIFO lemmas |
| strings.dfy | Strings | `HasPrefix`, `TrimSpace` (Go's `unicode.IsSpace` set) |
| link.dfy | Link | arena document tree, `NodeProcessor` class, the walk specification `Walk`, `Dfs`, `GetLinkText`, `BuildHTMLLink`, `Parse` |
| link_tree.dfy | LinkTree | what the walk does on a proper tree: reverse-children preorder, coverage of the subtree, one link per anchor |
| link_examples.dfy | LinkExamples | the subtrees the tests of `parser_test.go` walk, and what the extractor yields on them |
| urls.dfy | Urls | `URL`, `BaseURL`, `Normalized` (specification of both normalizers) |
| utils.dfy | Utils | `FilterExternal`, the `http`-prefix normalizer |
| crawler.dfy | Crawler | `ParsePageLinks`, `FilterAndNormalizeLinks`, `CrawlRound`, `Crawl`, the round function `Rounds` and the reference definition `Within` (URLs at most d links from the seed) |
| crawler_examples.dfy | CrawlerExamples | the scenarios of `crawler_test.go` |

How the model represents the source:

- **Document.** The tree is an arena: a sequence of nodes whose `children` are indices listed first
  child to last, the order of the `FirstChild`/`NextSibling` chain. The visited map keyed by node
  pointer becomes a set of indices.
- **Proper trees.** `Walk` is defined, and its properties proved, for any arena, cycles and shared
  children included. On a proper tree numbered in preorder, `LinkTree` proves that the walk is the
  reverse-children preorder. Node `ends[n]` is the end of `n`'s subtree interval; every finite
  tree can be numbered this way.
- **Network.** It is the parameter `fetch`. `fetch(u)` is `None` when `http.Get` fails. Otherwise
  it is the URL the request resolved to together with the anchors `link.Parse` found in the body.
- **Go maps used as sets.** They are Dafny sets. Ranging over a map is the choice of any element
  not yet taken (`:|`), so the proofs hold for every iteration order.

## Model

| member | source | states |
|---|---|---|
| Collections.Stack.constructor | pkg/collections/stack.go:5-7 | a new stack (the zero `Stack{}`) holds no items |
| Collections.Stack.Push | pkg/collections/stack.go:9-11 | the item is appended on top, and the length grows by one |
| Collections.Stack.Pop | pkg/collections/stack.go:13-22 | on an empty stack: returns nil (None) and changes nothing. Otherwise: returns the top item, which is what Peek showed, and removes exactly it |
| Collections.Stack.IsEmpty | pkg/collections/stack.go:24-26 | true exactly when the length is 0 |
| Collections.Stack.Peek | pkg/collections/stack.go:28-34 | the item Pop would return: nil when empty, else the top |
| Collections.Stack.Len | pkg/collections/stack.go:36-38 | the number of items |
| Collections.PopResult | pkg/collections/stack.go:13-22 | popping a non-empty stack splits it into the rest and the top item; an empty stack gives nil and stays empty |
| Collections.PushThenPop | pkg/collections/stack.go:9-22 | Push then Pop returns the pushed item and restores the previous items |
| Collections.PushAllPopAll | pkg/collections/stack.go:9-22 | pushing xs and popping \|xs\| times yields xs in reverse and leaves the items below untouched (LIFO) |
| Collections.PopEmpty | pkg/collections/stack.go:13-16 | any number of pops on an empty stack return only nil and leave it empty |
| Strings.HasPrefix | pkg/crawler/crawler.go:92 | Go's strings.HasPrefix: the string is at least as long as the prefix and begins with it |
| Strings.IsSpace | pkg/link/parser.go:57 | the characters Go's unicode.IsSpace accepts, which TrimSpace removes: tab, newline, vertical tab, form feed, carriage return, space, U+0085, U+00A0, U+1680, U+2000-U+200A, U+2028, U+2029, U+202F, U+205F, U+3000 |
| Strings.TrimSpace | pkg/link/parser.go:57 | the trim is no longer than its input; when non-empty it neither starts nor ends with white space |
| Strings.TrimSpaceSlice | pkg/link/parser.go:57 | the trim is a contiguous slice of the input with only white space before and after it |
| Strings.TrimSpaceKeeps | pkg/link/parser.go:57 | a string with no white space at either end is its own trim |
| Strings.TrimSpaceIdempotent | pkg/link/parser.go:57 | trimming twice is trimming once |
| Link.Qualifies | pkg/link/parser.go:52-65 | the text processor accepts exactly text nodes (lines 52-54); the link processor accepts exactly element nodes whose tag is "a" (lines 63-65) |
| Link.Contribution | pkg/link/parser.go:56-67 | what processNode writes: the trimmed node data for the text processor, nothing for the link processor |
| Link.NodeProcessor.constructor | pkg/link/parser.go:139-140 | a processor of the given policy with an empty text buffer |
| Link.NodeProcessor.ProcessNode | pkg/link/parser.go:56-58 | the text processor appends the trimmed node data to its buffer; the link processor (line 67) leaves it unchanged |
| Link.Walk | pkg/link/parser.go:93-118 | the visit order of the stack walk from any stack: pop the top, skip it if visited, else visit it and push its children first to last; only nodes of the document are visited |
| Link.WalkPop | pkg/link/parser.go:100-108 | one step of the walk: a visited top is skipped; a new top is visited and its children are pushed on the rest of the stack |
| Link.Selected | pkg/link/parser.go:110-113 | the qualifying nodes of a visit order, in that order, never more than it has |
| Link.SelectedMembers | pkg/link/parser.go:110-113 | a node is selected exactly when it is in the visit order and qualifies |
| Link.SelectedDistinct | pkg/link/parser.go:110-113 | selection from an order without repeats has no repeats |
| Link.HrefOf | pkg/link/parser.go:123-128 | the value of the first attribute keyed "href", "" when there is none |
| Link.HrefOfFirst | pkg/link/parser.go:123-128 | the href is the value of the first attribute keyed "href", and "" when there is none |
| Link.WalkVisitsOnce | pkg/link/parser.go:95-104 | the walk visits each node at most once, never one already visited, and only nodes of the document, even on arenas with cycles or shared children |
| Link.FoundQualifyOnce | pkg/link/parser.go:93-118 | dfsHTMLNodes returns no node twice, and a node exactly when the walk visits it and it qualifies |
| Link.Found | pkg/link/parser.go:93-118 | the nodes dfsHTMLNodes returns: the qualifying nodes of the walk from the seed, in visit order |
| Link.LinkText | pkg/link/parser.go:137-145 | the text getLinkText returns: the contributions of the text nodes of the walk from the node, in visit order |
| Link.PushChildren | pkg/link/parser.go:106-108 | the children are pushed first to last on top of what the stack held, so the last child ends up on top |
| Link.Dfs | pkg/link/parser.go:93-118 | returns the qualifying nodes in the walk's visit order, and the processor's buffer gains exactly their contributions, in that order |
| Link.GetLinkText | pkg/link/parser.go:137-145 | the concatenated trimmed text of the text nodes the walk from the node meets, in walk order |
| Link.BuildHTMLLink | pkg/link/parser.go:120-133 | the first "href" value (or "") paired with the node's link text |
| Link.Parse | pkg/link/parser.go:71-88 | one link per anchor dfsHTMLNodes finds, the i-th link built from the i-th anchor |
| LinkTree.WalkIsReversePreorder | pkg/link/parser.go:93-118 | on a tree the walk is the node followed by its children's subtrees from the last child to the first; it visits exactly the node's subtree, each node once |
| LinkTree.RevPreCovers | pkg/link/parser.go:106-108 | the reverse-children preorder of a node lists exactly the nodes of its subtree |
| LinkTree.ParseFindsEveryAnchor | pkg/link/parser.go:71-88 | on a tree, the anchors Parse builds links from are exactly the `<a>` elements of the document, each once, and there are as many of them as the document has |
| LinkTree.LinkTextCoversSubtree | pkg/link/parser.go:135-145 | on a tree, getLinkText reads exactly the text nodes of the node's subtree, each once |
| LinkExamples.NestedWalk | pkg/link/parser_test.go:82-94 | on `<a><span>Nested</span> Text</a>` the walk is the anchor, " Text", the span, "Nested" |
| LinkExamples.NestedTextNodes | pkg/link/parser_test.go:82-94 | the text processor meets " Text" before "Nested" |
| LinkExamples.NestedLinkText | pkg/link/parser_test.go:82-94 | getLinkText yields "TextNested", and the link is ("http://example.com", "TextNested") |
| LinkExamples.ParaWalk | pkg/link/parser_test.go:96-107 | on the subtree of `<p>This is a <span>test</span> text.</p>` the walk visits the last child's subtree first |
| LinkExamples.ParaTextNodes | pkg/link/parser_test.go:96-107 | the text nodes are met as " text.", "test", "This is a " |
| LinkExamples.ParaText | pkg/link/parser_test.go:96-107 | the buffer ends up holding "text.testThis is a" |
| Urls.BaseURL | pkg/crawler/crawler.go:102-109 | scheme "://" host when both are present; no "scheme:" without a scheme; always starts with "scheme:" when there is one |
| Urls.BaseIgnoresPath | pkg/crawler/crawler.go:102-109 | the base does not depend on the path |
| Urls.BaseOfExamplePage | pkg/crawler/crawler_test.go:128-140 | the base of https://example.com/path/to/page is https://example.com |
| Urls.Normalize | pkg/crawler/crawler.go:91-96 | one href: a root-relative href gets the base in front; any other is kept unchanged when keepFn accepts it and dropped otherwise |
| Urls.Normalized | pkg/crawler/crawler.go:88-100 | normalizing never yields more URLs than there are links |
| Urls.NormalizedAppend | pkg/crawler/crawler.go:88-100 | the links are handled one at a time, in order: normalizing a concatenation concatenates the results |
| Urls.RootRelativeKept | pkg/crawler/crawler.go:92-93 | an href starting with "/" becomes base + href whatever keepFn says |
| Urls.OtherGatedByAccept | pkg/crawler/crawler.go:94-95 | any other href is kept unchanged exactly when keepFn accepts it |
| Urls.NormalizedMembers | pkg/crawler/crawler.go:88-100 | a URL is in the result exactly when one of the links normalizes to it |
| Utils.Kept | internal/utils/utils.go:26-36 | filtering never yields more links than it is given |
| Utils.FilterExternal | internal/utils/utils.go:26-36 | returns the accepted links in their original order |
| Utils.KeptAppend | internal/utils/utils.go:26-36 | filtering a concatenation concatenates the filtered parts |
| Utils.KeptMembers | internal/utils/utils.go:26-36 | a link is in the result exactly when it is in the input and accepted |
| Utils.KeptIdempotent | internal/utils/utils.go:26-36 | filtering the result again changes nothing |
| Utils.FilterAndNormalizeLinks | internal/utils/utils.go:38-51 | the normalization of the crawler with "starts with http" in place of keepFn |
| Utils.HttpRuleDropsExactly | internal/utils/utils.go:42-47 | a link is dropped exactly when its href starts with neither "/" nor "http" |
| Utils.DroppedByFirstChar | internal/utils/utils.go:42-47 | an empty href, or one whose first character is neither '/' nor 'h', is dropped |
| Utils.HttpRuleDrops | internal/utils/utils.go:42-47 | fragments, mailto: links, empty hrefs and relative paths without a leading slash are dropped |
| Utils.HttpRuleKeeps | internal/utils/utils.go:43-46 | an https URL is kept unchanged and "/about" is put under the base |
| Crawler.FilterAndNormalizeLinks | pkg/crawler/crawler.go:88-100 | returns the normalization of the links: root-relative hrefs prefixed by the base, others kept when keepFn accepts them, in order |
| Crawler.ParsePageLinks | pkg/crawler/crawler.go:71-84 | no links when the fetch fails; otherwise the page's links normalized against the base of the URL the request resolved to |
| Crawler.PageLinks | pkg/crawler/crawler.go:71-84 | the links parsePageLinks returns for a URL: none when the fetch fails, else the page's links normalized against the base of the URL the request resolved to |
| Crawler.Succ | pkg/crawler/crawler.go:55-57 | every URL that a page of the given set links to |
| Crawler.Rounds | pkg/crawler/crawler.go:46-58 | k more rounds: each takes the frontier, adds it to seen, and makes the links of its pages not seen before the next frontier |
| Crawler.CrawlResult | pkg/crawler/crawler.go:36-67 | the set of URLs Crawl returns: maxDepth + 1 rounds from the frontier {seed}, nothing for a negative depth |
| Crawler.FailedFetchAddsNothing | pkg/crawler/crawler.go:72-75 | a page whose fetch fails contributes no link to the next frontier |
| Crawler.AddAll | pkg/crawler/crawler.go:55-57 | the next frontier gains exactly the page's links |
| Crawler.CrawlRound | pkg/crawler/crawler.go:47-58 | after a round, seen is the old seen plus the whole frontier, and the next frontier is exactly the links of the frontier's pages that were not seen before; each is fetched once, and the fetch record only grows at its end |
| Crawler.SetToSeq | pkg/crawler/crawler.go:61-64 | the seen set as a slice that holds every URL of it exactly once |
| Crawler.Crawl | pkg/crawler/crawler.go:36-67 | returns every URL of maxDepth + 1 rounds from the seed, each exactly once; no URL is fetched twice and every returned URL was fetched |
| Crawler.RoundsWithin | pkg/crawler/crawler.go:46-59 | the k rounds that start from the URLs within distance r reach exactly the URLs within distance r + k - 1 |
| Crawler.CrawlIsWithin | pkg/crawler/crawler.go:36-67 | the crawl to depth d returns exactly the URLs at most d links from the seed |
| Crawler.CrawlIncludesSeed | pkg/crawler/crawler.go:42-53 | the seed is always in the result of a non-negative depth |
| Crawler.CrawlDepthZero | pkg/crawler/crawler.go:46-59 | depth 0 returns exactly the seed, whatever it links to |
| Crawler.CrawlNegativeDepth | pkg/crawler/crawler.go:46 | a negative depth runs no round and returns nothing |
| Crawler.CrawlMonotone | pkg/crawler/crawler.go:46-59 | a larger depth never loses a URL |
| Crawler.CrawlProvenance | pkg/crawler/crawler.go:46-59 | a URL is in the result of depth d >= 1 exactly when it is the seed or a link of a page in the result of depth d - 1 |
| CrawlerExamples.TestCrawl | pkg/crawler/crawler_test.go:15-61 | the depth-2 crawl of the test server returns exactly the server, /page1 and /page2; the external link is absent |
| CrawlerExamples.TestServer | pkg/crawler/crawler_test.go:17-25 | the test server as a fetch function, answering by path: the bare server URL and server + "/" give the home page |
| CrawlerExamples.HomeLinks | pkg/crawler/crawler_test.go:18-19 | server + "/" yields the same links as the bare server URL: both name the home page |
| CrawlerExamples.TestCrawlStopsAtDepth | pkg/crawler/crawler_test.go:22-34 | /page2's link back to "/" is found but not visited at depth 2 |
| CrawlerExamples.TestCrawlRevisitsHome | pkg/crawler/crawler_test.go:17-25 | one level deeper, "/" is visited under the name server + "/", which differs from the seed |
| CrawlerExamples.TestParsePageLinks | pkg/crawler/crawler_test.go:66-96 | parsePageLinks yields server + "/about" and "https://external.com" |
| CrawlerExamples.TestFilterAndNormalize | pkg/crawler/crawler_test.go:99-125 | the root-relative link gets the base and the external one is dropped: exactly ["https://example.com/contact"] |

## Left out

- HTML tokenization and tree construction (`html.Parse`) belong to golang.org/x/net/html, which is
  not part of this model. `Link.Parse` starts from the parsed tree, so its error return (lines
  72-76 of parser.go) is not modelled.
- Link.Parse: says nothing of the Go result being nil rather than empty when there are no anchors;
  the two are the same sequence here.
- The network: `http.Get`, redirects, closing the body and reading it. All of these sit behind the
  `fetch` parameter described above.
- Crawler.Crawl: does not model 64-bit wrap-around of the loop counter `i`. With `maxDepth` equal
  to the largest Go int, `i <= maxDepth` never fails and the Go loop does not end; the model's
  integers are unbounded.
- Crawler.Crawl: states which URLs `ret` holds and that none repeats, but not their order. The Go
  order is that of map iteration, which is unspecified.
- Crawler.Crawl: the `error` result is always nil in the source, so it is dropped.
- `utils.ParsePageLinks` (utils.go lines 13-24) is not modelled. It aborts the process through
  `log.Fatalf` when the fetch fails, and otherwise is the `http`-rule normalizer applied to the page.
- Utils.FilterAndNormalizeLinks: starts from the links `link.Parse` returned rather than from the
  reader. Reading and parsing the body are outside the model.
- The duplicate `baseURL` in utils.go (lines 53-60) is the same function as the crawler's and is
  modelled once, as `Urls.BaseURL`.
- Urls.BaseURL: only the scheme and the host are modelled. `url.URL.String()` escaping, user
  info, and the remaining URL fields are not.
- Strings.TrimSpace: works on Unicode code points. Go trims the UTF-8 bytes of a string, which
  gives the same result for valid UTF-8.
- Collections.Stack: holds elements of one type `T` (a `Stack<nat>` of node indices in the walk).
  The Go stack holds `interface{}` items and the walk asserts them back to `*html.Node`.
- The crawler's "fetched at most once" is stated over a ghost record of the fetches in order,
  because the URLs are fetched through a pure parameter.
- The thread-safe stack (`pkg/collections/thread-safe/stack.go`), the command line (`cmd/main.go`),
  the sitemap XML writer (`cmd/builder.go`) and all concurrency are outside the core.
- The test documents appear only as the subtrees the tests walk (the anchor handed to
  getLinkText, the paragraph under the wrapper html.ParseFragment builds). The nodes around them
  hold no text that would change what is collected.
- The `TestParse_MultipleLinks` and `TestParse_Empty` documents are not given concretely.
  `LinkTree.ParseFindsEveryAnchor` covers them for every tree: one link per anchor, and none when
  there is no anchor. `LinkTree.WalkIsReversePreorder` gives the reversed sibling order the test
  expects.

## Behaviour notes

- A visited URL is not re-fetched, but it still enters the next frontier, where the round skips
  it. So the frontier is not limited to new URLs.
- URLs are compared as strings. The server's own URL `http://host:port` and the link `"/"` (which
  becomes `http://host:port/`) name the same page. A crawl deep enough fetches that page twice
  (`CrawlerExamples.TestCrawlRevisitsHome`).
- The text of an anchor is its text nodes in the walk's order: the last child's subtree first. So
  `<a><span>Nested</span> Text</a>` reads "TextNested", as parser_test.go expects.
