/** The older link filter of internal/utils/utils.go. Its baseURL is the same function as the
    crawler's and is modelled once, as Urls.BaseURL. */
module Utils {
  import opened Strings
  import opened Link
  import opened Urls

  /** The elements of `links` that `keep` accepts, in their original order. */
  function Kept(links: seq<string>, keep: string -> bool): (r: seq<string>)
    ensures |r| <= |links|
  {
    if links == [] then []
    else Kept(links[..|links| - 1], keep) + (if keep(links[|links| - 1]) then [links[|links| - 1]] else [])
  }

  /** FilterExternal: appends, in order, every link that `keep` accepts. */
  method FilterExternal(links: seq<string>, keep: string -> bool) returns (retLinks: seq<string>)
    ensures retLinks == Kept(links, keep)
  {
    retLinks := [];
    for i := 0 to |links|
      invariant retLinks == Kept(links[..i], keep)
    {
      assert links[..i + 1][..i] == links[..i];
      if keep(links[i]) {
        retLinks := retLinks + [links[i]];
      }
    }
    assert links[..|links|] == links;
  }

  /** Filtering a concatenation filters each part, in order. */
  lemma {:induction false} KeptAppend(a: seq<string>, b: seq<string>, keep: string -> bool)
    ensures Kept(a + b, keep) == Kept(a, keep) + Kept(b, keep)
    decreases |b|
  {
    if b == [] {
      assert a + b == a;
    } else {
      var front := b[..|b| - 1];
      assert (a + b)[..|a + b| - 1] == a + front;
      KeptAppend(a, front, keep);
    }
  }

  /** A link is in the result exactly when it is in the input and `keep` accepts it. */
  lemma {:induction false} KeptMembers(links: seq<string>, keep: string -> bool)
    ensures forall x :: x in Kept(links, keep) <==> x in links && keep(x)
  {
    if links != [] {
      var front := links[..|links| - 1];
      KeptMembers(front, keep);
      assert links == front + [links[|links| - 1]];
    }
  }

  /** Every link of the result is accepted: filtering again changes nothing. */
  lemma {:induction false} KeptIdempotent(links: seq<string>, keep: string -> bool)
    ensures Kept(Kept(links, keep), keep) == Kept(links, keep)
  {
    if links != [] {
      var front := links[..|links| - 1];
      var last := links[|links| - 1];
      KeptIdempotent(front, keep);
      if keep(last) {
        KeptAppend(Kept(front, keep), [last], keep);
        assert [last][..0] == [];
      } else {
        assert Kept(links, keep) == Kept(front, keep);
      }
    }
  }

  /** The absolute-link rule of this filter: the href starts with "http". */
  predicate HttpLike(href: string)
  {
    HasPrefix(href, "http")
  }

  /** filterAndNormalizeLinks, on the links link.Parse returned: root-relative hrefs get the
      base in front, hrefs starting with "http" are kept unchanged, all others are dropped. */
  method FilterAndNormalizeLinks(links: seq<HTMLLink>, base: string) returns (hrefs: seq<string>)
    ensures hrefs == Normalized(links, base, HttpLike)
  {
    hrefs := [];
    for i := 0 to |links|
      invariant hrefs == Normalized(links[..i], base, HttpLike)
    {
      assert links[..i + 1][..i] == links[..i];
      var l := links[i];
      if HasPrefix(l.href, "/") {
        hrefs := hrefs + [base + l.href];
      } else if HasPrefix(l.href, "http") {
        hrefs := hrefs + [l.href];
      }
    }
    assert links[..|links|] == links;
  }

  /** Under the "http" rule a link is dropped exactly when its href starts with neither "/"
      nor "http". */
  lemma HttpRuleDropsExactly(l: HTMLLink, base: string)
    ensures Normalized([l], base, HttpLike) == [] <==> !HasPrefix(l.href, "/") && !HttpLike(l.href)
  {
    assert [l][..0] == [];
  }

  /** An href whose first character is neither '/' nor 'h' is dropped. */
  lemma DroppedByFirstChar(l: HTMLLink, base: string)
    requires l.href == [] || (l.href[0] != '/' && l.href[0] != 'h')
    ensures Normalized([l], base, HttpLike) == []
  {
    HttpRuleDropsExactly(l, base);
    if l.href != [] {
      assert l.href[..1][0] == l.href[0];
      if |l.href| >= 4 {
        assert l.href[..4][0] == l.href[0];
      }
    }
  }

  /** A fragment, a mailto: link, an empty href and a relative path without a leading slash
      are all dropped. */
  lemma HttpRuleDrops(base: string, text: string)
    ensures Normalized([HTMLLink("#frag", text)], base, HttpLike) == []
    ensures Normalized([HTMLLink("mailto:a@b.com", text)], base, HttpLike) == []
    ensures Normalized([HTMLLink("", text)], base, HttpLike) == []
    ensures Normalized([HTMLLink("about.html", text)], base, HttpLike) == []
  {
    DroppedByFirstChar(HTMLLink("#frag", text), base);
    DroppedByFirstChar(HTMLLink("mailto:a@b.com", text), base);
    DroppedByFirstChar(HTMLLink("", text), base);
    DroppedByFirstChar(HTMLLink("about.html", text), base);
  }

  /** Under the "http" rule an absolute http(s) URL is kept unchanged and "/about" is put under
      the base. */
  lemma HttpRuleKeeps(base: string, text: string)
    ensures Normalized([HTMLLink("https://external.com", text)], base, HttpLike) == ["https://external.com"]
    ensures Normalized([HTMLLink("/about", text)], base, HttpLike) == [base + "/about"]
  {
    assert "https://external.com"[..1] == "h" && "https://external.com"[..4] == "http";
    OtherGatedByAccept(HTMLLink("https://external.com", text), base, HttpLike);
    assert "/about"[..1] == "/";
    RootRelativeKept(HTMLLink("/about", text), base, HttpLike);
  }
}
