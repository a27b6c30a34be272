/** `fetch_web_page`: the decision it takes on each HTTP response, and the
    redirect-following recursion built from it. The network is an oracle
    `respond` from the URL requested to the response received, and
    `urljoin` (reference resolution, section 5.2 of RFC 3986) is an opaque
    function `join`. */
module Fetch {
  import opened Results

  /** What `getresponse()` yields, as far as the decision reads it: the
      status code, the `Location` header (`None` when absent), the reason
      phrase and the decoded body. */
  datatype Response = Response(status: int, location: Option<string>, reason: string, body: string)

  /** A fetched page: the body and the URL of the request that returned it. */
  datatype Page = Page(body: string, url: string)

  /** The decision on one response. */
  datatype Step =
    | Follow(next: string)                  // request `next` instead
    | Deliver(body: string)                 // the page is this body
    | Reject(status: int, reason: string)   // raise with this status

  /** A redirect the source follows: status 301 or 302 with a `Location`
      header that is present and non-empty (`if redirect_url:` treats the
      empty string as missing). */
  predicate IsFollowedRedirect(resp: Response) {
    resp.status in {301, 302} && resp.location.Some? && |resp.location.value| > 0
  }

  function Decide(url: string, resp: Response, join: (string, string) -> string): (r: Step)
    ensures r.Follow? <==> IsFollowedRedirect(resp)
    ensures r.Follow? ==> r.next == join(url, resp.location.value)
    ensures r.Deliver? <==> resp.status == 200
    ensures r.Deliver? ==> r.body == resp.body
    ensures r.Reject? <==> !IsFollowedRedirect(resp) && resp.status != 200
    ensures r.Reject? ==> r.status == resp.status && r.reason == resp.reason
  {
    if IsFollowedRedirect(resp) then Follow(join(url, resp.location.value))
    else if resp.status != 200 then Reject(resp.status, resp.reason)
    else Deliver(resp.body)
  }

  /** `fetch_web_page(url)` allowed at most `fuel` requests; running out
      stands for the interpreter's recursion limit on a redirect cycle. */
  function FetchPage(url: string, respond: string -> Response, join: (string, string) -> string, fuel: nat): (r: Result<Page>)
    ensures r.Ok? ==> respond(r.value.url).status == 200 && respond(r.value.url).body == r.value.body
    ensures r.Err? ==> r.error == TooManyRedirects || r.error.HttpStatus?
    ensures r.Err? && r.error.HttpStatus? ==> r.error.status != 200
    decreases fuel
  {
    if fuel == 0 then Err(TooManyRedirects)
    else match Decide(url, respond(url), join)
      case Follow(next) => FetchPage(next, respond, join, fuel - 1)
      case Deliver(body) => Ok(Page(body, url))
      case Reject(status, reason) => Err(HttpStatus(status, reason))
  }

  /** The URL reached from `url` after `k` followed redirects, if the first
      `k` responses along the way are all followed redirects. */
  function Hops(url: string, respond: string -> Response, join: (string, string) -> string, k: nat): Option<string>
    decreases k
  {
    if k == 0 then Some(url)
    else match Decide(url, respond(url), join)
      case Follow(next) => Hops(next, respond, join, k - 1)
      case _ => None
  }

  /** After `k` redirects from `url` the chain stands at `final`, whose
      response is a 200 carrying `body`. */
  predicate DeliversAt(url: string, respond: string -> Response, join: (string, string) -> string,
                       k: nat, body: string, final: string) {
    Hops(url, respond, join, k) == Some(final) && respond(final).status == 200 && respond(final).body == body
  }

  /** After `k` redirects from `url` the chain stands at `final`, whose
      response is neither a 200 nor a followed redirect. */
  predicate RejectsAt(url: string, respond: string -> Response, join: (string, string) -> string,
                      k: nat, status: int, reason: string, final: string) {
    && Hops(url, respond, join, k) == Some(final)
    && !IsFollowedRedirect(respond(final)) && respond(final).status != 200
    && respond(final).status == status && respond(final).reason == reason
  }

  /** A fetch returns a page exactly when some chain of fewer than `fuel`
      redirects ends at a URL whose response is 200; the page is that
      response's body paired with that URL. */
  lemma {:induction false} FetchPageOk(url: string, respond: string -> Response, join: (string, string) -> string,
                                       fuel: nat, body: string, final: string)
    ensures FetchPage(url, respond, join, fuel) == Ok(Page(body, final)) <==>
            exists k :: 0 <= k < fuel && DeliversAt(url, respond, join, k, body, final)
    decreases fuel
  {
    if fuel > 0 {
      var resp := respond(url);
      match Decide(url, resp, join)
      case Follow(next) =>
        assert FetchPage(url, respond, join, fuel) == FetchPage(next, respond, join, fuel - 1);
        FetchPageOk(next, respond, join, fuel - 1, body, final);
        forall k: nat
          ensures DeliversAt(url, respond, join, k + 1, body, final) <==> DeliversAt(next, respond, join, k, body, final)
        {
          assert Hops(url, respond, join, k + 1) == Hops(next, respond, join, k);
        }
        assert !DeliversAt(url, respond, join, 0, body, final);
        if exists k :: 0 <= k < fuel && DeliversAt(url, respond, join, k, body, final) {
          var k :| 0 <= k < fuel && DeliversAt(url, respond, join, k, body, final);
          assert DeliversAt(next, respond, join, k - 1, body, final);
        }
        if exists k :: 0 <= k < fuel - 1 && DeliversAt(next, respond, join, k, body, final) {
          var k :| 0 <= k < fuel - 1 && DeliversAt(next, respond, join, k, body, final);
          assert DeliversAt(url, respond, join, k + 1, body, final);
        }
      case Deliver(b) =>
        assert FetchPage(url, respond, join, fuel) == Ok(Page(b, url));
        forall k: nat | 0 < k
          ensures !DeliversAt(url, respond, join, k, body, final)
        {
        }
        assert DeliversAt(url, respond, join, 0, body, final) <==> final == url && body == b;
      case Reject(s, why) =>
        assert FetchPage(url, respond, join, fuel) == Err(HttpStatus(s, why));
        forall k: nat
          ensures !DeliversAt(url, respond, join, k, body, final)
        {
        }
    }
  }

  /** A fetch fails with a status exactly when some chain of fewer than
      `fuel` redirects ends at a response that is neither 200 nor a followed
      redirect; the error carries that response's status and reason. */
  lemma {:induction false} FetchPageRejected(url: string, respond: string -> Response, join: (string, string) -> string,
                                             fuel: nat, status: int, reason: string)
    ensures FetchPage(url, respond, join, fuel) == Err(HttpStatus(status, reason)) <==>
            exists k, final :: 0 <= k < fuel && RejectsAt(url, respond, join, k, status, reason, final)
    decreases fuel
  {
    if fuel > 0 {
      var resp := respond(url);
      match Decide(url, resp, join)
      case Follow(next) =>
        assert FetchPage(url, respond, join, fuel) == FetchPage(next, respond, join, fuel - 1);
        FetchPageRejected(next, respond, join, fuel - 1, status, reason);
        forall k: nat, final
          ensures RejectsAt(url, respond, join, k + 1, status, reason, final)
                  <==> RejectsAt(next, respond, join, k, status, reason, final)
        {
          assert Hops(url, respond, join, k + 1) == Hops(next, respond, join, k);
        }
        forall final
          ensures !RejectsAt(url, respond, join, 0, status, reason, final)
        {
        }
        if exists k, final :: 0 <= k < fuel && RejectsAt(url, respond, join, k, status, reason, final) {
          var k, final :| 0 <= k < fuel && RejectsAt(url, respond, join, k, status, reason, final);
          assert RejectsAt(next, respond, join, k - 1, status, reason, final);
        }
        if exists k, final :: 0 <= k < fuel - 1 && RejectsAt(next, respond, join, k, status, reason, final) {
          var k, final :| 0 <= k < fuel - 1 && RejectsAt(next, respond, join, k, status, reason, final);
          assert RejectsAt(url, respond, join, k + 1, status, reason, final);
        }
      case Deliver(b) =>
        assert FetchPage(url, respond, join, fuel) == Ok(Page(b, url));
        forall k: nat, final
          ensures !RejectsAt(url, respond, join, k, status, reason, final)
        {
        }
      case Reject(s, why) =>
        assert FetchPage(url, respond, join, fuel) == Err(HttpStatus(s, why));
        forall k: nat, final | 0 < k
          ensures !RejectsAt(url, respond, join, k, status, reason, final)
        {
        }
        assert RejectsAt(url, respond, join, 0, status, reason, url) <==> s == status && why == reason;
    }
  }

  /** A fetch runs out of requests exactly when the first `fuel` responses
      are all followed redirects. */
  lemma {:induction false} FetchPageExhausted(url: string, respond: string -> Response, join: (string, string) -> string,
                                              fuel: nat)
    ensures FetchPage(url, respond, join, fuel) == Err(TooManyRedirects) <==> Hops(url, respond, join, fuel).Some?
    decreases fuel
  {
    if fuel > 0 {
      match Decide(url, respond(url), join)
      case Follow(next) =>
        FetchPageExhausted(next, respond, join, fuel - 1);
      case _ =>
    }
  }
}
