/** The scenarios of pkg/crawler/crawler_test.go, with the test server's pages given directly as
    the fetch function. */
module CrawlerExamples {
  import opened Collections
  import opened Strings
  import opened Link
  import opened Urls
  import opened Crawler

  const Host: string := "127.0.0.1:8080"
  /** The test server's URL, as httptest reports it: scheme and host, no path. */
  const Seed: string := "http://127.0.0.1:8080"
  const Page1: string := Seed + "/page1"
  const Page2: string := Seed + "/page2"
  const Home: string := Seed + "/"

  /** keepFn of the crawl test: only URLs of the test server. */
  predicate SameOrigin(link: string)
  {
    HasPrefix(link, Seed)
  }

  /** The links of the test server's home page. */
  const HomeAnchors: seq<HTMLLink> := [HTMLLink("/page1", "Page 1"), HTMLLink("https://external.com", "External")]

  /** The test server, which answers by path: "/" (asked for as the bare server URL or as the
      server URL followed by "/") links to /page1 and to an external site, /page1 to /page2,
      /page2 back to "/". Any other path gets an empty reply, and the model lists no links for
      it. */
  function TestServer(u: string): Option<Page>
  {
    if u == Seed then
      Some(Page(URL("http", Host, ""), HomeAnchors))
    else if u == Home then
      Some(Page(URL("http", Host, "/"), HomeAnchors))
    else if u == Page1 then
      Some(Page(URL("http", Host, "/page1"), [HTMLLink("/page2", "Page 2")]))
    else if u == Page2 then
      Some(Page(URL("http", Host, "/page2"), [HTMLLink("/", "Home")]))
    else None
  }

  lemma TestBase(path: string)
    ensures BaseURL(URL("http", Host, path)) == Seed
  {
    assert "http" + "://" + Host == Seed;
  }

  lemma NotRootRelative(s: string)
    requires s != [] && s[0] == 'h'
    ensures !HasPrefix(s, "/")
  {
    assert s[..1][0] == 'h';
  }

  /** The home page's links under the crawl test's keepFn: only /page1. */
  lemma HomeAnchorLinks()
    ensures Normalized(HomeAnchors, Seed, SameOrigin) == [Page1]
  {
    var links := HomeAnchors;
    assert links == [links[0]] + [links[1]];
    NormalizedAppend([links[0]], [links[1]], Seed, SameOrigin);
    RootRelativeKept(links[0], Seed, SameOrigin);
    NotRootRelative("https://external.com");
    assert |"https://external.com"| < |Seed|;
    OtherGatedByAccept(links[1], Seed, SameOrigin);
  }

  lemma SeedLinks()
    ensures PageLinks(TestServer, SameOrigin, Seed) == [Page1]
  {
    TestBase("");
    HomeAnchorLinks();
  }

  /** Asked for as server + "/", the home page yields the same links as under the bare server
      URL. */
  lemma HomeLinks()
    ensures PageLinks(TestServer, SameOrigin, Home) == PageLinks(TestServer, SameOrigin, Seed)
  {
    assert Home != Seed by {
      assert |Home| != |Seed|;
    }
    TestBase("/");
    HomeAnchorLinks();
    SeedLinks();
  }

  lemma Page1Links()
    ensures PageLinks(TestServer, SameOrigin, Page1) == [Page2]
  {
    assert Page1 != Seed && Page1 != Home by {
      assert |Page1| != |Seed| && |Page1| != |Home|;
    }
    TestBase("/page1");
    RootRelativeKept(HTMLLink("/page2", "Page 2"), Seed, SameOrigin);
  }

  lemma Page2Links()
    ensures PageLinks(TestServer, SameOrigin, Page2) == [Home]
  {
    assert Page2 != Seed && Page2 != Home by {
      assert |Page2| != |Seed| && |Page2| != |Home|;
    }
    assert Page2 != Page1 by {
      assert Page2[|Seed| + 5] != Page1[|Seed| + 5];
    }
    TestBase("/page2");
    RootRelativeKept(HTMLLink("/", "Home"), Seed, SameOrigin);
  }

  lemma OneLink(out: string -> seq<string>, u: string, v: string)
    requires out(u) == [v]
    ensures Succ(out, {u}) == {v}
  {
    SuccAdd(out, {}, u);
    SuccEmpty(out);
    assert Elems([v]) == {v};
  }

  /** Crawl(server, 2, keepFn) of the test: the server, /page1 and /page2. */
  lemma TestCrawl()
    ensures CrawlResult(TestServer, SameOrigin, Seed, 2) == {Seed, Page1, Page2}
  {
    var out := Out(TestServer, SameOrigin);
    SeedLinks();
    Page1Links();
    assert |Page1| != |Seed| && |Page2| != |Seed|;
    assert Page2[|Seed| + 5] != Page1[|Seed| + 5];
    OneLink(out, Seed, Page1);
    OneLink(out, Page1, Page2);
    RoundsUnfold(out, {}, {Seed}, 3);
    assert {} + {Seed} == {Seed} && {Seed} - {} == {Seed};
    RoundsUnfold(out, {Seed}, {Page1}, 2);
    assert {Page1} - {Seed} == {Page1};
    RoundsUnfold(out, {Seed, Page1}, {Page2}, 1);
  }

  /** /page2 links back to "/", which comes back as the server URL followed by "/". Found only
      in the last round of the depth-2 crawl, it is not visited. */
  lemma TestCrawlStopsAtDepth()
    ensures Home in PageLinks(TestServer, SameOrigin, Page2)
    ensures Home !in CrawlResult(TestServer, SameOrigin, Seed, 2)
  {
    TestCrawl();
    Page2Links();
    assert |Home| != |Seed| && |Home| != |Page1| && |Home| != |Page2|;
  }

  /** Home is a URL different from the server's own, so one more level fetches the home page a
      second time under that name. */
  lemma TestCrawlRevisitsHome()
    ensures Home in CrawlResult(TestServer, SameOrigin, Seed, 3)
    ensures Home != Seed
  {
    TestCrawlStopsAtDepth();
    TestCrawl();
    assert |Home| != |Seed|;
    CrawlProvenance(TestServer, SameOrigin, Seed, 3, Home);
  }

  /** keepFn of the parsePageLinks test: strings.Contains(link, "external"). */
  predicate MentionsExternal(link: string)
  {
    exists i :: 0 <= i <= |link| && HasPrefix(link[i..], "external")
  }

  /** The server of the parsePageLinks test, which answers every path with the same page. */
  function AboutServer(u: string): Option<Page>
  {
    Some(Page(URL("http", Host, ""), [HTMLLink("/about", "About"), HTMLLink("https://external.com", "External")]))
  }

  /** Test of parsePageLinks: "/about" gets the server's base, the external link passes keepFn. */
  lemma TestParsePageLinks()
    ensures PageLinks(AboutServer, MentionsExternal, Seed) == [Seed + "/about", "https://external.com"]
  {
    TestBase("");
    var links := [HTMLLink("/about", "About"), HTMLLink("https://external.com", "External")];
    assert links == [links[0]] + [links[1]];
    NormalizedAppend([links[0]], [links[1]], Seed, MentionsExternal);
    RootRelativeKept(links[0], Seed, MentionsExternal);
    NotRootRelative("https://external.com");
    assert "https://external.com"[8..][..8] == "external";
    assert MentionsExternal(links[1].href);
    OtherGatedByAccept(links[1], Seed, MentionsExternal);
  }

  /** keepFn of the filterAndNormalizeLinks test: only URLs beginning with the base. */
  predicate ExampleDomain(link: string)
  {
    HasPrefix(link, "https://example.com")
  }

  /** Test of filterAndNormalizeLinks: the root-relative link gets the base, the external one is
      dropped by keepFn. */
  lemma TestFilterAndNormalize()
    ensures Normalized([HTMLLink("/contact", "Contact"), HTMLLink("https://external.com", "External")],
                       "https://example.com", ExampleDomain)
         == ["https://example.com/contact"]
  {
    var links := [HTMLLink("/contact", "Contact"), HTMLLink("https://external.com", "External")];
    assert links == [links[0]] + [links[1]];
    NormalizedAppend([links[0]], [links[1]], "https://example.com", ExampleDomain);
    RootRelativeKept(links[0], "https://example.com", ExampleDomain);
    NotRootRelative("https://external.com");
    assert "https://external.com"[..19][10] != "https://example.com"[10];
    assert !ExampleDomain(links[1].href);
    OtherGatedByAccept(links[1], "https://example.com", ExampleDomain);
    assert "https://example.com" + "/contact" == "https://example.com/contact";
  }
}
