/**
 Discovery of the webinars to poll when none are configured: page through the
 account's webinar listing, following the next-page token until a page has none.
 */
module WebinarPagination {
  import opened Wrappers

  datatype Webinar = Webinar(id: string)

  /** One response of the webinar listing; an empty next-page token means it is the last page. */
  datatype WebinarPage = WebinarPage(webinars: seq<Webinar>, nextPageToken: string)

  function PageIds(page: WebinarPage): seq<string>
  {
    seq(|page.webinars|, i requires 0 <= i < |page.webinars| => page.webinars[i].id)
  }

  /** The webinar ids of the given pages, page after page. */
  function ConcatIds(pages: seq<WebinarPage>): seq<string>
  {
    if pages == [] then [] else PageIds(pages[0]) + ConcatIds(pages[1..])
  }

  function Prepend(ids: seq<string>, rest: Option<seq<string>>): Option<seq<string>>
  {
    match rest
    case Some(r) => Some(ids + r)
    case None => None
  }

  /**
   The ids gathered from the successive responses of the listing (`pages[k]`
   answers the k-th request); `None` when the responses run out before a last
   page, that is, when a listing request fails.
   */
  function CollectWebinars(pages: seq<WebinarPage>): Option<seq<string>>
  {
    if pages == [] then None
    else if pages[0].nextPageToken == "" then Some(PageIds(pages[0]))
    else Prepend(PageIds(pages[0]), CollectWebinars(pages[1..]))
  }

  lemma PrependNothing(rest: Option<seq<string>>)
    ensures Prepend([], rest) == rest
  {
    if rest.Some? {
      assert [] + rest.value == rest.value;
    }
  }

  lemma PrependTwice(a: seq<string>, b: seq<string>, rest: Option<seq<string>>)
    ensures Prepend(a, Prepend(b, rest)) == Prepend(a + b, rest)
  {
    if rest.Some? {
      assert a + (b + rest.value) == (a + b) + rest.value;
    }
  }

  /** The listing succeeds exactly when some response is a last page. */
  lemma {:induction false} CollectWebinarsSucceedsIff(pages: seq<WebinarPage>)
    ensures CollectWebinars(pages).Some? <==> exists k :: 0 <= k < |pages| && pages[k].nextPageToken == ""
  {
    if pages != [] {
      if pages[0].nextPageToken == "" {
        assert pages[0].nextPageToken == "";
      } else {
        CollectWebinarsSucceedsIff(pages[1..]);
        if CollectWebinars(pages).Some? {
          var k :| 0 <= k < |pages[1..]| && pages[1..][k].nextPageToken == "";
          assert pages[k + 1].nextPageToken == "";
        }
        if exists k :: 0 <= k < |pages| && pages[k].nextPageToken == "" {
          var k :| 0 <= k < |pages| && pages[k].nextPageToken == "";
          assert pages[1..][k - 1].nextPageToken == "";
        }
      }
    }
  }

  /**
   When page `k` is the first last page, the listing yields the ids of every
   page up to and including it, in page order, and nothing from the responses
   after it.
   */
  lemma {:induction false} CollectWebinarsUpToFirstLastPage(pages: seq<WebinarPage>, k: nat)
    requires k < |pages| && pages[k].nextPageToken == ""
    requires forall j :: 0 <= j < k ==> pages[j].nextPageToken != ""
    ensures CollectWebinars(pages) == Some(ConcatIds(pages[..k + 1]))
  {
    if k == 0 {
      assert pages[..1][1..] == [];
      assert ConcatIds(pages[..1]) == PageIds(pages[0]) + ConcatIds([]);
      assert PageIds(pages[0]) + [] == PageIds(pages[0]);
    } else {
      assert pages[0].nextPageToken != "";
      assert pages[1..][k - 1].nextPageToken == "";
      assert forall j :: 0 <= j < k - 1 ==> pages[1..][j].nextPageToken == pages[j + 1].nextPageToken;
      CollectWebinarsUpToFirstLastPage(pages[1..], k - 1);
      assert pages[..k + 1][1..] == pages[1..][..k];
    }
  }

  /**
   The do-while loop of the listing: request a page, push the ids of its
   webinars, and go on while the response carries a next-page token.
   */
  method ListAllWebinars(pages: seq<WebinarPage>) returns (r: Option<seq<string>>)
    ensures r == CollectWebinars(pages)
  {
    var webinars: seq<string> := [];
    var i := 0;
    PrependNothing(CollectWebinars(pages));
    while true
      invariant 0 <= i <= |pages|
      invariant CollectWebinars(pages) == Prepend(webinars, CollectWebinars(pages[i..]))
      decreases |pages| - i
    {
      if i == |pages| {
        // the next listing request fails
        return None;
      }
      var resp := pages[i];
      ghost var before := webinars;
      for k := 0 to |resp.webinars|
        invariant webinars == before + PageIds(resp)[..k]
      {
        webinars := webinars + [resp.webinars[k].id];
      }
      assert PageIds(resp)[..|resp.webinars|] == PageIds(resp);
      assert pages[i..][1..] == pages[i + 1..];
      if resp.nextPageToken == "" {
        return Some(webinars);
      }
      PrependTwice(before, PageIds(resp), CollectWebinars(pages[i + 1..]));
      i := i + 1;
    }
  }

  /**
   The webinars to poll: the configured ones when there are any, and otherwise
   those the listing yields (`None` when the listing fails).
   */
  function WebinarsToPoll(configured: seq<string>, pages: seq<WebinarPage>): (r: Option<seq<string>>)
    ensures |configured| > 0 ==> r == Some(configured)
    ensures configured == [] ==> r == CollectWebinars(pages)
  {
    if |configured| > 0 then Some(configured) else CollectWebinars(pages)
  }

  /**
   The webinars to poll are known exactly when some are configured or the
   listing reaches a page without a next-page token.
   */
  lemma WebinarsToPollKnownIff(configured: seq<string>, pages: seq<WebinarPage>)
    ensures WebinarsToPoll(configured, pages).Some? <==>
      |configured| > 0 || exists k :: 0 <= k < |pages| && pages[k].nextPageToken == ""
  {
    CollectWebinarsSucceedsIff(pages);
  }
}
