/**
 * What a worker keeps from one fetched page: the links of anchors whose
 * `href` looks absolute, trimmed, and only when the response status is 200.
 */
module LinkFilter {
  import opened Text
  import opened LinkTable

  /** The outcome of `requests.get(url.link, ...)`: a response with its
      status code and the `href` of every anchor that has one (what the HTML
      parser would find in the body), or a `RequestException`. */
  datatype FetchOutcome = Response(status: int, hrefs: seq<string>) | RequestError

  /** `"http://" in link or "https://" in link`. */
  predicate IsAbsoluteLooking(href: string) {
    Contains(href, "http://") || Contains(href, "https://")
  }

  /** `link.strip()` of every absolute-looking `href`. */
  function KeptLinks(hrefs: seq<string>): set<string> {
    set h | h in hrefs && IsAbsoluteLooking(h) :: Strip(h)
  }

  /** Filtering one more `href` adds its trimmed form exactly when it looks
      absolute. */
  lemma KeptLinksAppend(hrefs: seq<string>, h: string)
    ensures KeptLinks(hrefs + [h]) ==
      KeptLinks(hrefs) + (if IsAbsoluteLooking(h) then {Strip(h)} else {})
  {
    var all := hrefs + [h];
    forall x | x in KeptLinks(all)
      ensures x in KeptLinks(hrefs) + (if IsAbsoluteLooking(h) then {Strip(h)} else {})
    {
      var g :| g in all && IsAbsoluteLooking(g) && Strip(g) == x;
      if g != h {
        assert g in hrefs;
      }
    }
    forall x | x in KeptLinks(hrefs) ensures x in KeptLinks(all) {
      var g :| g in hrefs && IsAbsoluteLooking(g) && Strip(g) == x;
      assert g in all;
    }
    if IsAbsoluteLooking(h) {
      assert h in all;
    }
  }

  /** The links a worker adds for one URL: those of a 200 response only. */
  function PageLinks(outcome: FetchOutcome): set<string> {
    if outcome.Response? && outcome.status == 200 then KeptLinks(outcome.hrefs) else {}
  }

  /** The links added while processing `urls` in order, one fetch each. */
  function LinksFound(urls: seq<Record>, fetch: string -> FetchOutcome): set<string> {
    if urls == [] then {}
    else LinksFound(urls[..|urls| - 1], fetch) + PageLinks(fetch(urls[|urls| - 1].link))
  }

  /** A link is found exactly when some 200 response in `urls` has an
      absolute-looking `href` that trims to it. */
  lemma {:induction false} LinksFoundExactly(urls: seq<Record>, fetch: string -> FetchOutcome, x: string)
    ensures x in LinksFound(urls, fetch) <==>
      exists i :: 0 <= i < |urls| && x in PageLinks(fetch(urls[i].link))
  {
    if urls != [] {
      var init := urls[..|urls| - 1];
      LinksFoundExactly(init, fetch, x);
      if x in LinksFound(init, fetch) {
        var i :| 0 <= i < |init| && x in PageLinks(fetch(init[i].link));
        assert urls[i] == init[i];
      }
      if exists i :: 0 <= i < |urls| && x in PageLinks(fetch(urls[i].link)) {
        var i :| 0 <= i < |urls| && x in PageLinks(fetch(urls[i].link));
        if i < |init| {
          assert urls[i] == init[i];
        }
      }
    }
  }

  /** Processing `a` then `b` finds the links of both. */
  lemma {:induction false} LinksFoundAppend(a: seq<Record>, b: seq<Record>, fetch: string -> FetchOutcome)
    ensures LinksFound(a + b, fetch) == LinksFound(a, fetch) + LinksFound(b, fetch)
    decreases |b|
  {
    if b != [] {
      var init := b[..|b| - 1];
      assert (a + b)[..|a + b| - 1] == a + init;
      LinksFoundAppend(a, init, fetch);
    } else {
      assert a + b == a;
    }
  }

  /** A kept link is still absolute-looking after the trim. */
  lemma KeptLinksAbsolute(hrefs: seq<string>)
    ensures forall x :: x in KeptLinks(hrefs) ==> IsAbsoluteLooking(x)
  {
    forall x | x in KeptLinks(hrefs) ensures IsAbsoluteLooking(x) {
      var h :| h in hrefs && IsAbsoluteLooking(h) && Strip(h) == x;
      if Contains(h, "http://") {
        StripKeepsOccurrence(h, "http://");
      } else {
        StripKeepsOccurrence(h, "https://");
      }
    }
  }

  /** The three anchors `https://example.com/x`, `/relative` and
      `mailto:foo@bar` give exactly the first link. */
  lemma KeptLinksExample()
    ensures KeptLinks(["https://example.com/x", "/relative", "mailto:foo@bar"]) == {"https://example.com/x"}
  {
    var abs := "https://example.com/x";
    assert IsAbsoluteLooking(abs) by { assert abs[..8] == "https://"; }
    assert Strip(abs) == abs by { StripUnpadded(abs); }
    NonWebLinksDropped();
    KeptLinksOfFirst(abs, "/relative", "mailto:foo@bar");
  }

  /** A relative link and a `mailto:` link have no scheme, so both are
      dropped. */
  lemma NonWebLinksDropped()
    ensures !IsAbsoluteLooking("/relative")
    ensures !IsAbsoluteLooking("mailto:foo@bar")
  {
    NoLetterH("/relative");
    NoLetterH("mailto:foo@bar");
  }

  /** When only the first of three `href`s looks absolute, only its trim is
      kept. */
  lemma KeptLinksOfFirst(a: string, b: string, c: string)
    requires IsAbsoluteLooking(a) && !IsAbsoluteLooking(b) && !IsAbsoluteLooking(c)
    ensures KeptLinks([a, b, c]) == {Strip(a)}
  {
    var hrefs := [a, b, c];
    forall x | x in KeptLinks(hrefs) ensures x == Strip(a) {
      var h :| h in hrefs && IsAbsoluteLooking(h) && Strip(h) == x;
    }
    assert Strip(a) in KeptLinks(hrefs) by { assert a in hrefs; }
  }

  /** Without an `h` an `href` cannot look absolute. */
  lemma NoLetterH(href: string)
    requires 'h' !in href
    ensures !IsAbsoluteLooking(href)
  {
    if Contains(href, "http://") { ContainsFirstChar(href, "http://"); }
    if Contains(href, "https://") { ContainsFirstChar(href, "https://"); }
  }

  /** A failed or non-200 fetch adds no links; the other URLs of the chunk
      are unaffected. */
  lemma FailureIsolated(a: Record, b: Record, fetch: string -> FetchOutcome)
    requires fetch(a.link) == RequestError || (fetch(a.link).Response? && fetch(a.link).status != 200)
    ensures LinksFound([a, b], fetch) == PageLinks(fetch(b.link))
  {
    assert [a, b][..1] == [a];
    assert [a][..0] == [];
    assert LinksFound([a], fetch) == {};
  }
}
