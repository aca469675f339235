/**
 * The scraper's module-level state and the two callbacks that change it:
 * the request-interception handler, which captures the Calendar call's
 * authorization header into `authToken`, and `keepScraping`, which turns a
 * shift-search response into at most one e-mail and remembers the last body
 * sent in `previousEmail`. The response is an input: fetching it, the
 * browser and the mail transport are outside the model.
 */
module Scraper {
  import opened Wrappers
  import opened Shifts
  import opened EmailBody

  const CalendarEndpoint := "https://bank.nhsp.uk/mybankapi/api/Calendar"

  /** An intercepted request: its URL and its headers, with lower-case names. */
  datatype Request = Request(url: string, headers: map<string, string>)

  /** `request.headers().authorization`: None when the header is missing (undefined). */
  function Authorization(request: Request): Option<string> {
    if "authorization" in request.headers then Some(request.headers["authorization"]) else None
  }

  /** The token after the handler, watching for calls to `endpoint`, has seen one more request. */
  function TokenAfter(token: Option<string>, request: Request, endpoint: string): Option<string> {
    if request.url == endpoint then Authorization(request) else token
  }

  /** The token after the handler has seen `requests`, in order. */
  function CapturedToken(token: Option<string>, requests: seq<Request>, endpoint: string): Option<string>
    decreases requests
  {
    if requests == [] then token
    else CapturedToken(TokenAfter(token, requests[0], endpoint), requests[1..], endpoint)
  }

  lemma {:induction false} CapturedTokenSnoc(token: Option<string>, requests: seq<Request>, request: Request,
                                             endpoint: string)
    ensures CapturedToken(token, requests + [request], endpoint)
         == TokenAfter(CapturedToken(token, requests, endpoint), request, endpoint)
    decreases requests
  {
    if requests != [] {
      assert (requests + [request])[1..] == requests[1..] + [request];
      CapturedTokenSnoc(TokenAfter(token, requests[0], endpoint), requests[1..], request, endpoint);
    }
  }

  /** Requests that are not calls to the endpoint leave the token alone. */
  lemma {:induction false} NoCallKeepsToken(token: Option<string>, requests: seq<Request>, endpoint: string)
    requires forall k :: 0 <= k < |requests| ==> requests[k].url != endpoint
    ensures CapturedToken(token, requests, endpoint) == token
    decreases requests
  {
    if requests != [] {
      assert forall k :: 0 <= k < |requests[1..]| ==> requests[1..][k] == requests[k + 1];
      NoCallKeepsToken(token, requests[1..], endpoint);
    }
  }

  /**
   * Last writer wins: after the j-th request, the last call to the endpoint,
   * the token is that request's authorization header.
   */
  lemma {:induction false} LastCallWins(token: Option<string>, requests: seq<Request>, endpoint: string, j: nat)
    requires j < |requests| && requests[j].url == endpoint
    requires forall k :: j < k < |requests| ==> requests[k].url != endpoint
    ensures CapturedToken(token, requests, endpoint) == Authorization(requests[j])
    decreases j
  {
    assert forall k :: 0 <= k < |requests[1..]| ==> requests[1..][k] == requests[k + 1];
    if j == 0 {
      NoCallKeepsToken(Authorization(requests[0]), requests[1..], endpoint);
    } else {
      LastCallWins(TokenAfter(token, requests[0], endpoint), requests[1..], endpoint, j - 1);
    }
  }

  // ---- one poll cycle ----

  /** What a cycle does, and the line it logs. */
  datatype Outcome =
    | ZeroShifts                       // no Shifts field: "0 shifts found"
    | NoNewShifts                      // "No new shifts found"
    | Sent(body: string, count: nat)   // sendEmail(body, count)
    | Threw                            // a start or end time without 'T': TypeError

  datatype Transition = Transition(previousEmail: Option<string>, outcome: Outcome)

  /**
   * `keepScraping` on a response, from the stored body `previousEmail`;
   * `render` is `generateEmailHtml` (EmailBody.Renderer).
   */
  function Cycle(previousEmail: Option<string>, response: Response, render: seq<Shift> -> string)
    : (t: Transition)
    ensures t.outcome.ZeroShifts? <==> response.shifts.None?
    ensures response.shifts.None? ==> t.previousEmail == None
    ensures t.outcome.Threw? <==> response.shifts.Some? && Normalise(response.shifts.value).None?
    ensures t.outcome.Sent? <==>
      && response.shifts.Some?
      && Normalise(response.shifts.value).Some?
      && |response.shifts.value| > 0
      && previousEmail != Some(render(Normalise(response.shifts.value).value))
    ensures t.outcome.Sent? ==>
      && t.outcome.body == render(Normalise(response.shifts.value).value)
      && t.outcome.count == |response.shifts.value|
      && t.previousEmail == Some(t.outcome.body)
    ensures response.shifts.Some? && !t.outcome.Sent? ==> t.previousEmail == previousEmail
    ensures response.shifts == Some([]) ==> t == Transition(previousEmail, NoNewShifts)
  {
    match response.shifts
    case None => Transition(None, ZeroShifts)
    case Some(raw) =>
      match Normalise(raw)
      case None => Transition(previousEmail, Threw)
      case Some(formatted) =>
        var body := render(formatted);
        if Some(body) != previousEmail && |formatted| > 0 then
          Transition(Some(body), Sent(body, |formatted|))
        else
          Transition(previousEmail, NoNewShifts)
  }

  /** Two cycles on the same shifts: the first sends, the second does not. */
  lemma SameShiftsSendOnce(previousEmail: Option<string>, response: Response, render: seq<Shift> -> string)
    requires Cycle(previousEmail, response, render).outcome.Sent?
    ensures var t := Cycle(previousEmail, response, render);
      Cycle(t.previousEmail, response, render) == Transition(t.previousEmail, NoNewShifts)
  {
  }

  /** After a response without Shifts, any response with shifts sends, whatever was sent before. */
  lemma DroughtRearms(previousEmail: Option<string>, empty: Response, response: Response,
                      render: seq<Shift> -> string)
    requires empty.shifts.None?
    requires response.shifts.Some? && |response.shifts.value| > 0
    requires Normalise(response.shifts.value).Some?
    ensures var t := Cycle(previousEmail, empty, render);
      Cycle(t.previousEmail, response, render).outcome.Sent?
  {
  }

  // ---- many poll cycles ----

  /** The transitions of consecutive cycles over `responses`. */
  function Run(previousEmail: Option<string>, responses: seq<Response>, render: seq<Shift> -> string)
    : (ts: seq<Transition>)
    ensures |ts| == |responses|
    decreases responses
  {
    if responses == [] then []
    else
      var t := Cycle(previousEmail, responses[0], render);
      [t] + Run(t.previousEmail, responses[1..], render)
  }

  /** The stored body before the k-th cycle. */
  function Before(previousEmail: Option<string>, ts: seq<Transition>, k: nat): Option<string>
    requires k <= |ts|
  {
    if k == 0 then previousEmail else ts[k - 1].previousEmail
  }

  lemma {:induction false} RunStep(previousEmail: Option<string>, responses: seq<Response>,
                                   render: seq<Shift> -> string, k: nat)
    requires k < |responses|
    ensures var ts := Run(previousEmail, responses, render);
      ts[k] == Cycle(Before(previousEmail, ts, k), responses[k], render)
    decreases k
  {
    if k > 0 {
      var t := Cycle(previousEmail, responses[0], render);
      RunStep(t.previousEmail, responses[1..], render, k - 1);
    }
  }

  /** The body of the last e-mail sent since the last response without Shifts. */
  function LastSent(previousEmail: Option<string>, ts: seq<Transition>): Option<string> {
    if ts == [] then previousEmail
    else match ts[|ts| - 1].outcome
      case ZeroShifts => None
      case Sent(body, _) => Some(body)
      case _ => LastSent(previousEmail, ts[..|ts| - 1])
  }

  /**
   * The stored body is always that of the last e-mail sent since the last
   * response without Shifts (or the starting value when there was neither).
   */
  lemma {:induction false} StoredIsLastSent(previousEmail: Option<string>, responses: seq<Response>,
                                            render: seq<Shift> -> string, k: nat)
    requires k <= |responses|
    ensures var ts := Run(previousEmail, responses, render);
      Before(previousEmail, ts, k) == LastSent(previousEmail, ts[..k])
  {
    var ts := Run(previousEmail, responses, render);
    if k > 0 {
      StoredIsLastSent(previousEmail, responses, render, k - 1);
      RunStep(previousEmail, responses, render, k - 1);
      assert ts[..k][..k - 1] == ts[..k - 1];
      var last := ts[k - 1];
      assert LastSent(previousEmail, ts[..k])
          == match last.outcome
             case ZeroShifts => None
             case Sent(body, _) => Some(body)
             case _ => LastSent(previousEmail, ts[..k - 1]);
    }
  }

  lemma {:induction false} StoredSinceSend(previousEmail: Option<string>, responses: seq<Response>,
                                           render: seq<Shift> -> string, i: nat, m: nat)
    requires i <= m < |responses|
    requires var ts := Run(previousEmail, responses, render);
      && ts[i].outcome.Sent?
      && forall k :: i < k <= m ==> !ts[k].outcome.Sent? && !ts[k].outcome.ZeroShifts?
    ensures var ts := Run(previousEmail, responses, render);
      ts[m].previousEmail == Some(ts[i].outcome.body)
  {
    RunStep(previousEmail, responses, render, m);
    if m > i {
      StoredSinceSend(previousEmail, responses, render, i, m - 1);
    }
  }

  /**
   * No duplicate e-mails: two sends with no send and no response without
   * Shifts between them carry different bodies.
   */
  lemma NoRepeatWithoutDrought(previousEmail: Option<string>, responses: seq<Response>,
                               render: seq<Shift> -> string, i: nat, j: nat)
    requires i < j < |responses|
    requires var ts := Run(previousEmail, responses, render);
      && ts[i].outcome.Sent? && ts[j].outcome.Sent?
      && forall k :: i < k < j ==> !ts[k].outcome.Sent? && !ts[k].outcome.ZeroShifts?
    ensures var ts := Run(previousEmail, responses, render);
      ts[i].outcome.body != ts[j].outcome.body
  {
    StoredSinceSend(previousEmail, responses, render, i, j - 1);
    RunStep(previousEmail, responses, render, j);
  }

  // ---- the module state ----

  /** The module-level variables of the scraper and its two callbacks. */
  class Scraper {
    var authToken: Option<string>
    var previousEmail: Option<string>
    /** The requests the handler has let through, in order. */
    var continued: seq<Request>
    /** How a shift date is written in the e-mail (locale formatting). */
    const dateText: string -> string
    /** The portal URL the "Book Now" link points to. */
    const website: string

    constructor (dateText: string -> string, website: string)
      ensures authToken == None && previousEmail == None && continued == []
      ensures this.dateText == dateText && this.website == website
    {
      authToken, previousEmail, continued := None, None, [];
      this.dateText, this.website := dateText, website;
    }

    /** The `page.on('request', ...)` handler for one request. */
    method OnRequest(request: Request)
      modifies this
      ensures authToken == TokenAfter(old(authToken), request, CalendarEndpoint)
      ensures continued == old(continued) + [request]
      ensures previousEmail == old(previousEmail)
    {
      if request.url == CalendarEndpoint {
        authToken := Authorization(request);
      }
      continued := continued + [request];
    }

    /** The handler run on each request of `requests`, in order. */
    method OnRequests(requests: seq<Request>)
      modifies this
      ensures authToken == CapturedToken(old(authToken), requests, CalendarEndpoint)
      ensures continued == old(continued) + requests
      ensures previousEmail == old(previousEmail)
    {
      for i := 0 to |requests|
        invariant authToken == CapturedToken(old(authToken), requests[..i], CalendarEndpoint)
        invariant continued == old(continued) + requests[..i]
        invariant previousEmail == old(previousEmail)
      {
        CapturedTokenSnoc(old(authToken), requests[..i], requests[i], CalendarEndpoint);
        assert requests[..i + 1] == requests[..i] + [requests[i]];
        OnRequest(requests[i]);
      }
      assert requests[..|requests|] == requests;
    }

    /** `keepScraping` once `fetchShifts` has returned `response`. */
    method KeepScraping(response: Response) returns (outcome: Outcome)
      modifies this
      ensures Transition(previousEmail, outcome)
           == Cycle(old(previousEmail), response, Renderer(dateText, website))
      ensures authToken == old(authToken) && continued == old(continued)
    {
      if response.shifts.None? {
        previousEmail := None;
        return ZeroShifts;
      }
      var formattedShifts := Normalise(response.shifts.value);
      if formattedShifts.None? {
        return Threw;
      }
      var emailBody := GenerateEmailHtml(formattedShifts.value, dateText, website);
      assert emailBody == Renderer(dateText, website)(formattedShifts.value);
      if Some(emailBody) != previousEmail && |formattedShifts.value| > 0 {
        previousEmail := Some(emailBody);
        outcome := Sent(emailBody, |formattedShifts.value|);
      } else {
        outcome := NoNewShifts;
      }
    }
  }

  /**
   * A fresh scraper given the same shifts twice sends once, then logs "No new
   * shifts found"; a response without Shifts then clears the stored body, and
   * the same shifts are sent again.
   */
  method RepeatedResponses(response: Response, dateText: string -> string, website: string)
    returns (first: Outcome, second: Outcome, third: Outcome, fourth: Outcome)
    requires response.shifts.Some? && |response.shifts.value| > 0
    requires Normalise(response.shifts.value).Some?
    ensures first.Sent? && first.count == |response.shifts.value|
    ensures second == NoNewShifts && third == ZeroShifts
    ensures fourth == first
  {
    var scraper := new Scraper(dateText, website);
    first := scraper.KeepScraping(response);
    second := scraper.KeepScraping(response);
    third := scraper.KeepScraping(Response(None));
    fourth := scraper.KeepScraping(response);
  }

  /** Only the third of three requests is the Calendar call: its header is captured
      and all three go through. */
  method CaptureFromThirdRequest(first: Request, second: Request, third: Request)
    returns (token: Option<string>, passed: seq<Request>)
    requires first.url != CalendarEndpoint && second.url != CalendarEndpoint
    requires third.url == CalendarEndpoint
    ensures token == Authorization(third)
    ensures passed == [first, second, third]
  {
    var scraper := new Scraper(s => s, "");
    scraper.OnRequests([first, second, third]);
    token, passed := scraper.authToken, scraper.continued;
    var requests := [first, second, third];
    LastCallWins(None, requests, CalendarEndpoint, 2);
    assert requests[2].url == CalendarEndpoint && requests[2] == third;
  }
}
