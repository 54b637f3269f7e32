/** The breadth-first crawl of pkg/crawler/crawler.go.

    The network is a parameter: `fetch(u)` is what http.Get of `u` followed by link.Parse of the
    body yields, namely the URL the request finally resolved to and the anchors of the page, or
    None when the request fails. Go's maps used as sets are Dafny sets, and ranging over a map
    is a choice of any element not yet taken. */
module Crawler {
  import opened Collections
  import opened Strings
  import opened Link
  import opened Urls

  /** A fetched page: the URL the request resolved to and the links found on it. */
  datatype Page = Page(url: URL, links: seq<HTMLLink>)

  /** The URLs parsePageLinks returns for `u`: none when the fetch fails, otherwise the page's
      links normalized against the origin of the URL the request resolved to. */
  function PageLinks(fetch: string -> Option<Page>, keep: string -> bool, u: string): seq<string>
  {
    match fetch(u)
    case None => []
    case Some(p) => Normalized(p.links, BaseURL(p.url), keep)
  }

  /** filterAndNormalizeLinks: root-relative hrefs get the base in front, every other href is
      kept unchanged when `keepFn` accepts it. */
  method FilterAndNormalizeLinks(links: seq<HTMLLink>, base: string, keepFn: string -> bool)
    returns (hrefs: seq<string>)
    ensures hrefs == Normalized(links, base, keepFn)
  {
    hrefs := [];
    for i := 0 to |links|
      invariant hrefs == Normalized(links[..i], base, keepFn)
    {
      assert links[..i + 1][..i] == links[..i];
      var l := links[i];
      if HasPrefix(l.href, "/") {
        hrefs := hrefs + [base + l.href];
      } else if keepFn(l.href) {
        hrefs := hrefs + [l.href];
      }
    }
    assert links[..|links|] == links;
  }

  /** parsePageLinks: fetch `urlStr`; on failure no links, otherwise the page's links filtered
      and normalized against the base of the resolved URL. */
  method ParsePageLinks(urlStr: string, fetch: string -> Option<Page>, keepFn: string -> bool)
    returns (r: seq<string>)
    ensures r == PageLinks(fetch, keepFn, urlStr)
    ensures fetch(urlStr) == None ==> r == []
  {
    var resp := fetch(urlStr);
    if resp == None {
      return [];
    }
    var base := BaseURL(resp.value.url);
    r := FilterAndNormalizeLinks(resp.value.links, base, keepFn);
  }

  /** The elements of `s`. */
  ghost function Elems(s: seq<string>): set<string>
  {
    set x | x in s
  }

  /** The link graph the crawl explores: each URL to the URLs parsePageLinks returns for it. The
      breadth-first theory below is stated for any graph `out`. */
  ghost function Out(fetch: string -> Option<Page>, keep: string -> bool): string -> seq<string>
  {
    u => PageLinks(fetch, keep, u)
  }

  /** Every URL some page of `pages` links to. */
  ghost function Succ(out: string -> seq<string>, pages: set<string>): set<string>
  {
    set u, l | u in pages && l in out(u) :: l
  }

  /** What is seen after `k` more rounds, each of which visits the frontier `next` minus what was
      already seen and makes the links of the newly visited pages the next frontier. */
  ghost function Rounds(out: string -> seq<string>, seen: set<string>, next: set<string>, k: nat): set<string>
    decreases k
  {
    if k == 0 then seen
    else Rounds(out, seen + next, Succ(out, next - seen), k - 1)
  }

  /** The set of URLs Crawl returns: maxDepth + 1 rounds from the frontier {seed}. */
  ghost function CrawlResult(fetch: string -> Option<Page>, keep: string -> bool, seed: string, maxDepth: int): set<string>
  {
    if maxDepth < 0 then {} else Rounds(Out(fetch, keep), {}, {seed}, maxDepth + 1)
  }

  /** Reference definition: the URLs at most `d` links away from `seed`. */
  ghost function Within(out: string -> seq<string>, seed: string, d: nat): set<string>
  {
    if d == 0 then {seed}
    else Within(out, seed, d - 1) + Succ(out, Within(out, seed, d - 1))
  }

  lemma SuccUnion(out: string -> seq<string>, a: set<string>, b: set<string>)
    ensures Succ(out, a + b) == Succ(out, a) + Succ(out, b)
  {
  }

  lemma SuccAdd(out: string -> seq<string>, a: set<string>, u: string)
    ensures Succ(out, a + {u}) == Succ(out, a) + Elems(out(u))
  {
    SuccUnion(out, a, {u});
    assert Succ(out, {u}) == Elems(out(u));
  }

  lemma SuccEmpty(out: string -> seq<string>)
    ensures Succ(out, {}) == {}
  {
  }

  lemma SuccMono(out: string -> seq<string>, a: set<string>, b: set<string>)
    requires a <= b
    ensures Succ(out, a) <= Succ(out, b)
  {
  }

  /** A page whose fetch fails still counts as visited but adds no links. */
  lemma FailedFetchAddsNothing(fetch: string -> Option<Page>, keep: string -> bool, a: set<string>, u: string)
    requires fetch(u) == None
    ensures Succ(Out(fetch, keep), a + {u}) == Succ(Out(fetch, keep), a)
  {
    SuccAdd(Out(fetch, keep), a, u);
    assert Out(fetch, keep)(u) == [];
  }

  /** One round, when what was seen and the frontier together are the URLs within distance r and
      the links of the pages seen are all among them, reaches distance r + 1 with the same
      property. */
  lemma RoundStep(out: string -> seq<string>, seed: string, seen: set<string>, next: set<string>, r: nat)
    requires seen + next == Within(out, seed, r)
    requires Succ(out, seen) <= seen + next
    ensures (seen + next) + Succ(out, next - seen) == Within(out, seed, r + 1)
    ensures Succ(out, seen + next) <= (seen + next) + Succ(out, next - seen)
  {
    assert seen + next == seen + (next - seen);
    SuccUnion(out, seen, next - seen);
  }

  /** Running k >= 1 rounds from such a state yields the URLs within distance r + k - 1. */
  lemma {:induction false} RoundsWithin(out: string -> seq<string>, seed: string,
                                        seen: set<string>, next: set<string>, r: nat, k: nat)
    requires k >= 1
    requires seen + next == Within(out, seed, r)
    requires Succ(out, seen) <= seen + next
    ensures Rounds(out, seen, next, k) == Within(out, seed, r + k - 1)
    decreases k
  {
    var seen', next' := seen + next, Succ(out, next - seen);
    RoundsUnfold(out, seen, next, k);
    if k == 1 {
      assert Rounds(out, seen', next', 0) == seen';
    } else {
      RoundStep(out, seed, seen, next, r);
      RoundsWithin(out, seed, seen', next', r + 1, k - 1);
      assert (r + 1) + (k - 1) - 1 == r + k - 1;
    }
  }

  lemma RoundsUnfold(out: string -> seq<string>, seen: set<string>, next: set<string>, k: nat)
    requires k >= 1
    ensures Rounds(out, seen, next, k) == Rounds(out, seen + next, Succ(out, next - seen), k - 1)
  {
  }

  /** Crawl to depth maxDepth returns exactly the URLs at most maxDepth links from the seed. */
  lemma CrawlIsWithin(fetch: string -> Option<Page>, keep: string -> bool, seed: string, maxDepth: nat)
    ensures CrawlResult(fetch, keep, seed, maxDepth) == Within(Out(fetch, keep), seed, maxDepth)
  {
    RoundsFromSeed(Out(fetch, keep), seed, maxDepth);
  }

  /** k + 1 rounds from the frontier {seed} reach the URLs within distance k. */
  lemma RoundsFromSeed(out: string -> seq<string>, seed: string, k: nat)
    ensures Rounds(out, {}, {seed}, k + 1) == Within(out, seed, k)
  {
    SuccEmpty(out);
    assert {} + {seed} == Within(out, seed, 0);
    RoundsWithin(out, seed, {}, {seed}, 0, k + 1);
    assert 0 + (k + 1) - 1 == k;
  }

  lemma SubsetTrans(a: set<string>, b: set<string>, c: set<string>)
    requires a <= b && b <= c
    ensures a <= c
  {
  }

  lemma WithinGrows(out: string -> seq<string>, seed: string, d: nat)
    ensures Within(out, seed, d) <= Within(out, seed, d + 1)
  {
    var w := Within(out, seed, d);
    assert Within(out, seed, d + 1) == w + Succ(out, w);
  }

  lemma {:induction false} WithinMono(out: string -> seq<string>, seed: string, d1: nat, d2: nat)
    requires d1 <= d2
    ensures Within(out, seed, d1) <= Within(out, seed, d2)
    decreases d2
  {
    if d1 < d2 {
      WithinMono(out, seed, d1, d2 - 1);
      WithinGrows(out, seed, d2 - 1);
      SubsetTrans(Within(out, seed, d1), Within(out, seed, d2 - 1), Within(out, seed, d2));
    }
  }

  /** Distance at most d >= 1 means being the seed or a link of a page at distance at most d - 1. */
  lemma {:induction false} WithinStep(out: string -> seq<string>, seed: string, d: nat)
    requires d >= 1
    ensures Within(out, seed, d) == {seed} + Succ(out, Within(out, seed, d - 1))
    decreases d
  {
    var w := Within(out, seed, d - 1);
    assert Within(out, seed, d) == w + Succ(out, w);
    if d > 1 {
      var e := d - 2;
      assert e + 1 == d - 1;
      var v := Within(out, seed, e);
      WithinStep(out, seed, d - 1);
      WithinGrows(out, seed, e);
      SuccMono(out, v, w);
      Absorb(Within(out, seed, d), w, {seed}, Succ(out, v), Succ(out, w));
    }
  }

  /** Set algebra for WithinStep: w + sw where w is a + sv and sv is within sw. */
  lemma Absorb(whole: set<string>, w: set<string>, a: set<string>, sv: set<string>, sw: set<string>)
    requires whole == w + sw && w == a + sv && sv <= sw
    ensures whole == a + sw
  {
  }

  /** The seed is always in the result when maxDepth >= 0. */
  lemma CrawlIncludesSeed(fetch: string -> Option<Page>, keep: string -> bool, seed: string, maxDepth: int)
    requires maxDepth >= 0
    ensures seed in CrawlResult(fetch, keep, seed, maxDepth)
  {
    CrawlIsWithin(fetch, keep, seed, maxDepth);
    WithinMono(Out(fetch, keep), seed, 0, maxDepth);
  }

  /** Depth 0 visits the seed and nothing else, however many links it has. */
  lemma CrawlDepthZero(fetch: string -> Option<Page>, keep: string -> bool, seed: string)
    ensures CrawlResult(fetch, keep, seed, 0) == {seed}
  {
    CrawlIsWithin(fetch, keep, seed, 0);
  }

  /** A negative depth runs no round and returns nothing. */
  lemma CrawlNegativeDepth(fetch: string -> Option<Page>, keep: string -> bool, seed: string, maxDepth: int)
    requires maxDepth < 0
    ensures CrawlResult(fetch, keep, seed, maxDepth) == {}
  {
  }

  /** A larger depth never loses a URL. */
  lemma CrawlMonotone(fetch: string -> Option<Page>, keep: string -> bool, seed: string, d1: nat, d2: nat)
    requires d1 <= d2
    ensures CrawlResult(fetch, keep, seed, d1) <= CrawlResult(fetch, keep, seed, d2)
  {
    CrawlIsWithin(fetch, keep, seed, d1);
    CrawlIsWithin(fetch, keep, seed, d2);
    WithinMono(Out(fetch, keep), seed, d1, d2);
  }

  /** A URL is in the result of depth d >= 1 exactly when it is the seed or parsePageLinks returns
      it for a URL of the result of depth d - 1. */
  lemma CrawlProvenance(fetch: string -> Option<Page>, keep: string -> bool, seed: string, d: nat, x: string)
    requires d >= 1
    ensures x in CrawlResult(fetch, keep, seed, d)
      <==> x == seed || exists u :: u in CrawlResult(fetch, keep, seed, d - 1) && x in PageLinks(fetch, keep, u)
  {
    var out := Out(fetch, keep);
    CrawlIsWithin(fetch, keep, seed, d);
    CrawlIsWithin(fetch, keep, seed, d - 1);
    WithinStep(out, seed, d);
    var prev := CrawlResult(fetch, keep, seed, d - 1);
    if x in Succ(out, prev) {
      var u :| u in prev && x in out(u);
      assert x in PageLinks(fetch, keep, u);
    }
    if exists u :: u in prev && x in PageLinks(fetch, keep, u) {
      var u :| u in prev && x in PageLinks(fetch, keep, u);
      assert x in out(u);
    }
  }

  /** Taking a URL already seen changes neither what is seen nor what was newly visited. */
  lemma SkipSeen(queue: set<string>, seen0: set<string>, remaining: set<string>, url: string)
    requires url in remaining && remaining <= queue && url in seen0 + (queue - remaining)
    ensures seen0 + (queue - (remaining - {url})) == seen0 + (queue - remaining)
    ensures (queue - (remaining - {url})) - seen0 == (queue - remaining) - seen0
  {
  }

  /** Taking a URL not seen yet adds it to both. */
  lemma TakeNew(queue: set<string>, seen0: set<string>, remaining: set<string>, url: string)
    requires url in remaining && remaining <= queue && url !in seen0 + (queue - remaining)
    ensures seen0 + (queue - (remaining - {url})) == seen0 + (queue - remaining) + {url}
    ensures (queue - (remaining - {url})) - seen0 == ((queue - remaining) - seen0) + {url}
  {
  }

  lemma FetchedSnoc(fetched: seq<string>, url: string)
    requires Distinct(fetched) && url !in Elems(fetched)
    ensures Distinct(fetched + [url]) && Elems(fetched + [url]) == Elems(fetched) + {url}
  {
  }

  /** The inner loop of a visit: every link of the page goes into the next frontier. */
  method AddAll(queue: set<string>, links: seq<string>) returns (r: set<string>)
    ensures r == queue + Elems(links)
  {
    r := queue;
    for j := 0 to |links|
      invariant r == queue + Elems(links[..j])
    {
      assert Elems(links[..j + 1]) == Elems(links[..j]) + {links[j]};
      r := r + {links[j]};
    }
    assert links[..|links|] == links;
  }

  /** One depth level of Crawl: every URL of `queue` not seen before is marked seen, fetched, and
      its links are added to the next frontier. `fetched` grows by the URLs fetched, in order. */
  method CrawlRound(queue: set<string>, seen0: set<string>, fetch: string -> Option<Page>, keepFn: string -> bool,
                    ghost fetched0: seq<string>)
    returns (seen: set<string>, nextQueue: set<string>, ghost fetched: seq<string>)
    requires Distinct(fetched0) && Elems(fetched0) == seen0
    ensures seen == seen0 + queue
    ensures nextQueue == Succ(Out(fetch, keepFn), queue - seen0)
    ensures Distinct(fetched) && Elems(fetched) == seen
    ensures |fetched0| <= |fetched| && fetched[..|fetched0|] == fetched0
  {
    seen, nextQueue, fetched := seen0, {}, fetched0;
    var remaining := queue;
    while remaining != {}
      invariant remaining <= queue
      invariant seen == seen0 + (queue - remaining)
      invariant nextQueue == Succ(Out(fetch, keepFn), (queue - remaining) - seen0)
      invariant Distinct(fetched) && Elems(fetched) == seen
      invariant |fetched0| <= |fetched| && fetched[..|fetched0|] == fetched0
      decreases remaining
    {
      var url :| url in remaining;
      ghost var done := (queue - remaining) - seen0;
      if url in seen {
        SkipSeen(queue, seen0, remaining, url);
        remaining := remaining - {url};
        continue;
      }
      TakeNew(queue, seen0, remaining, url);
      FetchedSnoc(fetched, url);
      remaining := remaining - {url};
      seen := seen + {url};
      assert (fetched + [url])[..|fetched0|] == fetched[..|fetched0|];
      fetched := fetched + [url];
      var links := ParsePageLinks(url, fetch, keepFn);
      nextQueue := AddAll(nextQueue, links);
      assert Out(fetch, keepFn)(url) == links;
      SuccAdd(Out(fetch, keepFn), done, url);
    }
    assert queue - {} == queue;
  }

  /** The final loop of Crawl: the seen set as a slice, each URL once, in iteration order. */
  method SetToSeq(seen: set<string>) returns (ret: seq<string>)
    ensures Distinct(ret)
    ensures forall x :: x in ret <==> x in seen
  {
    ret := [];
    var rest := seen;
    while rest != {}
      invariant rest <= seen
      invariant Distinct(ret)
      invariant forall x :: x in ret <==> x in seen && x !in rest
      decreases rest
    {
      var url :| url in rest;
      ret := ret + [url];
      rest := rest - {url};
    }
  }

  /** Crawl: maxDepth + 1 rounds, each over the frontier the previous one built; the result lists
      every URL seen exactly once, and `fetched` lists the fetches in the order they happen, so
      no URL is fetched twice. */
  method Crawl(urlStr: string, maxDepth: int, fetch: string -> Option<Page>, keepFn: string -> bool)
    returns (ret: seq<string>, ghost fetched: seq<string>)
    ensures Distinct(ret)
    ensures forall x :: x in ret <==> x in CrawlResult(fetch, keepFn, urlStr, maxDepth)
    ensures Distinct(fetched) && Elems(fetched) == Elems(ret)
  {
    var seen: set<string> := {};
    var queue: set<string>;
    var nextQueue: set<string> := {urlStr};
    fetched := [];

    var i := 0;
    while i <= maxDepth
      invariant 0 <= i && (maxDepth >= 0 ==> i <= maxDepth + 1)
      invariant maxDepth >= 0 ==> Rounds(Out(fetch, keepFn), seen, nextQueue, maxDepth + 1 - i) == CrawlResult(fetch, keepFn, urlStr, maxDepth)
      invariant maxDepth < 0 ==> seen == {}
      invariant Distinct(fetched) && Elems(fetched) == seen
      decreases maxDepth + 1 - i
    {
      ghost var seen0 := seen;
      queue, nextQueue := nextQueue, {};
      seen, nextQueue, fetched := CrawlRound(queue, seen, fetch, keepFn, fetched);
      assert Rounds(Out(fetch, keepFn), seen0, queue, maxDepth + 1 - i) == Rounds(Out(fetch, keepFn), seen, nextQueue, maxDepth - i);
      i := i + 1;
    }

    ret := SetToSeq(seen);
    assert Elems(ret) == seen;
  }
}
