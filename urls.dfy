/** The origin of a fetched page and the classification of the hrefs found on it, shared by
    pkg/crawler/crawler.go and internal/utils/utils.go. */
module Urls {
  import opened Collections
  import opened Strings
  import opened Link

  /** The parts of a net/url URL the core reads: the scheme, the host (with its port) and the
      path. */
  datatype URL = URL(scheme: string, host: string, path: string)

  /** baseURL: the string form of a URL holding only the scheme and host of `u`, as
      url.URL.String() writes it: "scheme:" when there is a scheme, then "//host" when there is
      a host. */
  function BaseURL(u: URL): (r: string)
    ensures u.scheme != "" && u.host != "" ==> r == u.scheme + "://" + u.host
    ensures u.scheme == "" ==> r == (if u.host == "" then "" else "//" + u.host)
    ensures u.scheme != "" ==> HasPrefix(r, u.scheme + ":")
  {
    (if u.scheme == "" then "" else u.scheme + ":") + (if u.host == "" then "" else "//" + u.host)
  }

  /** The base depends on the scheme and host only: the path and everything else are dropped. */
  lemma BaseIgnoresPath(u: URL, path: string)
    ensures BaseURL(u.(path := path)) == BaseURL(u)
  {
  }

  /** `https://example.com/path/to/page` has the base `https://example.com`. */
  lemma BaseOfExamplePage()
    ensures BaseURL(URL("https", "example.com", "/path/to/page")) == "https://example.com"
  {
    assert "https" + "://" + "example.com" == "https://example.com";
  }

  /** One href: a root-relative href (starting with "/") is appended to the base and always
      kept; any other href is kept unchanged when `accept` admits it and dropped otherwise. */
  function Normalize(href: string, base: string, accept: string -> bool): Option<string>
  {
    if HasPrefix(href, "/") then Some(base + href)
    else if accept(href) then Some(href)
    else None
  }

  /** What Normalize yields for `l`, as a sequence of zero or one URLs. */
  function Emit(l: HTMLLink, base: string, accept: string -> bool): seq<string>
  {
    match Normalize(l.href, base, accept)
    case None => []
    case Some(u) => [u]
  }

  /** The URLs the normalizer emits for `links`, in the order of `links`. */
  function Normalized(links: seq<HTMLLink>, base: string, accept: string -> bool): (r: seq<string>)
    ensures |r| <= |links|
  {
    if links == [] then []
    else Normalized(links[..|links| - 1], base, accept) + Emit(links[|links| - 1], base, accept)
  }

  /** Normalizing a concatenation normalizes each part, in order. */
  lemma {:induction false} NormalizedAppend(a: seq<HTMLLink>, b: seq<HTMLLink>, base: string, accept: string -> bool)
    ensures Normalized(a + b, base, accept) == Normalized(a, base, accept) + Normalized(b, base, accept)
    decreases |b|
  {
    if b == [] {
      assert a + b == a;
    } else {
      var front := b[..|b| - 1];
      assert (a + b)[..|a + b| - 1] == a + front;
      NormalizedAppend(a, front, base, accept);
    }
  }

  /** A single root-relative href becomes base + href whatever `accept` says. */
  lemma RootRelativeKept(l: HTMLLink, base: string, accept: string -> bool)
    requires HasPrefix(l.href, "/")
    ensures Normalized([l], base, accept) == [base + l.href]
  {
    assert [l][..0] == [];
  }

  /** A single href that is not root-relative is kept unchanged exactly when `accept` admits it. */
  lemma OtherGatedByAccept(l: HTMLLink, base: string, accept: string -> bool)
    requires !HasPrefix(l.href, "/")
    ensures Normalized([l], base, accept) == (if accept(l.href) then [l.href] else [])
  {
    assert [l][..0] == [];
  }

  /** A URL is emitted exactly when some link normalizes to it. */
  lemma {:induction false} NormalizedMembers(links: seq<HTMLLink>, base: string, accept: string -> bool)
    ensures forall x :: (x in Normalized(links, base, accept)
      <==> exists i :: 0 <= i < |links| && Normalize(links[i].href, base, accept) == Some(x))
  {
    if links != [] {
      var front := links[..|links| - 1];
      NormalizedMembers(front, base, accept);
      forall x
        ensures (x in Normalized(links, base, accept)
          <==> exists i :: 0 <= i < |links| && Normalize(links[i].href, base, accept) == Some(x))
      {
        if x in Normalized(links, base, accept) {
          if x in Normalized(front, base, accept) {
            var i :| 0 <= i < |front| && Normalize(front[i].href, base, accept) == Some(x);
            assert links[i] == front[i];
          } else {
            assert Normalize(links[|links| - 1].href, base, accept) == Some(x);
          }
        }
        if exists i :: 0 <= i < |links| && Normalize(links[i].href, base, accept) == Some(x) {
          var i :| 0 <= i < |links| && Normalize(links[i].href, base, accept) == Some(x);
          if i < |front| {
            assert front[i] == links[i];
          }
        }
      }
    }
  }
}
