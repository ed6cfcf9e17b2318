/** The upstream transport: trying the candidates of a repository in turn, and following the
    redirects of the response that was chosen. */
module Redirects {
  import opened Text

  /** A parsed URL; `port` is empty when the URL names none. */
  datatype Url = Url(scheme: string, host: string, port: string, path: string, query: string)

  // ---------------------------------------------------------------- origins

  function EffectivePort(value: Url): string {
    if value.port != "" then value.port
    else if EqualFold(value.scheme, "https") then "443"
    else if EqualFold(value.scheme, "http") then "80"
    else ""
  }

  predicate SameOrigin(left: Option<Url>, right: Option<Url>) {
    && left.Some? && right.Some?
    && EqualFold(left.value.scheme, right.value.scheme)
    && EqualFold(TrimSuffix(left.value.host, "."), TrimSuffix(right.value.host, "."))
    && EffectivePort(left.value) == EffectivePort(right.value)
  }

  /** The origin as scheme, host and port (section 5 of RFC 6454). */
  datatype Origin = Origin(scheme: string, host: string, port: string)

  function OriginOf(value: Url): Origin {
    Origin(Fold(value.scheme), Fold(TrimSuffix(value.host, ".")), EffectivePort(value))
  }

  /** Comparing part by part is comparing origins, so `SameOrigin` is an equivalence. */
  lemma SameOriginExactly(left: Url, right: Url)
    ensures SameOrigin(Some(left), Some(right)) <==> OriginOf(left) == OriginOf(right)
  {
  }

  /** Scheme and host count up to case, the host without its final dot; the port is the written
      one, and without one that of the scheme. */
  lemma OriginExactly(value: Url, host: string, port: string)
    requires value.host == host || value.host == host + "."
    requires host == "" || host[|host| - 1] != '.'
    requires port != ""
    ensures OriginOf(value).scheme == Fold(value.scheme) && OriginOf(value).host == Fold(host)
    ensures OriginOf(value).port == port <==>
            || value.port == port
            || (value.port == "" && Fold(value.scheme) == "https" && port == "443")
            || (value.port == "" && Fold(value.scheme) == "http" && port == "80")
  {
    assert Fold("https") == "https" && Fold("http") == "http";
    assert (host + ".")[|host|..] == "." && (host + ".")[..|host|] == host;
  }

  lemma OriginsAreKnown(left: Option<Url>, right: Option<Url>)
    requires SameOrigin(left, right)
    ensures left.Some? && right.Some?
  {
  }

  // ---------------------------------------------------------------- requests and replies

  const AUTHORIZATION := "Authorization"
  const COOKIE := "Cookie"
  const CREDENTIALS := {AUTHORIZATION, COOKIE}

  datatype Request = Request(verb: string, header: map<string, string>, body: Option<string>)

  /** A response; `open` until its body is closed. */
  datatype Response = Response(status: int, location: string, open: bool)

  datatype Reply = Failed | Answer(status: int, location: string)

  /** What the transport cannot decide itself. `clean` is what becomes of one header of a request
      that passes through it, and `added(i)` the headers of its own that it sets on redirect
      request `i`; `approved(i)` is the address check before that request and `replies(i)` its
      outcome. */
  datatype Environment = Environment(
    maxHops: int,
    show: Url -> string,
    resolve: (Url, string) -> Option<Url>,
    validTarget: Url -> bool,
    allowedOrigin: Url -> bool,
    clean: (string, string) -> Option<string>,
    added: nat -> map<string, string>,
    approved: nat -> bool,
    replies: nat -> Reply)

  datatype Error =
    | LimitExceeded
    | InvalidLocation
    | InvalidTarget
    | OriginNotAllowed
    | LoopDetected
    | AddressRejected
    | TransportFailed

  datatype Outcome = Delivered(response: Response, logical: Option<Url>) | Refused(error: Error)

  /** A request that left for `url`. */
  datatype Sent = Sent(url: Url, request: Request)

  datatype Chain = Chain(sent: seq<Sent>, outcome: Outcome)

  predicate IsRedirect(status: int) {
    status == 301 || status == 302 || status == 303 || status == 307 || status == 308
  }

  function StripCrossOriginCredentials(header: map<string, string>, origin: Option<Url>,
      target: Url): map<string, string> {
    if SameOrigin(origin, Some(target)) then header else header - CREDENTIALS
  }

  function NextRedirectRequest(previous: Request, current: Url, target: Url, status: int): Request {
    var header := StripCrossOriginCredentials(previous.header, Some(current), target);
    if status == 303 && previous.verb != "HEAD" then Request("GET", header, None)
    else Request(previous.verb, header, previous.body)
  }

  /** Where one redirect response leads. */
  datatype Turn = Stop(outcome: Outcome) | Go(target: Url)

  function NextTarget(env: Environment, hop: nat, response: Response, current: Option<Url>,
      visited: set<string>): Turn {
    if hop >= env.maxHops then Stop(Refused(LimitExceeded))
    else if response.location == "" then Stop(Delivered(response, current))
    else if current.None? || env.resolve(current.value, response.location).None? then Stop(Refused(InvalidLocation))
    else
      var target := env.resolve(current.value, response.location).value;
      if !env.validTarget(target) then Stop(Refused(InvalidTarget))
      else if !env.allowedOrigin(target) then Stop(Refused(OriginNotAllowed))
      else if env.show(target) in visited then Stop(Refused(LoopDetected))
      else Go(target)
  }

  /** The header as the transport passes it on. None of its own headers is a credential. */
  function Prepared(env: Environment, hop: nat, header: map<string, string>): map<string, string> {
    (map name | name in header && env.clean(name, header[name]).Some? :: env.clean(name, header[name]).value) +
    (env.added(hop) - CREDENTIALS)
  }

  function Outgoing(env: Environment, hop: nat, request: Request, origin: Option<Url>, target: Url): Sent {
    Sent(target, request.(header := StripCrossOriginCredentials(Prepared(env, hop, request.header), origin, target)))
  }

  /** The requests that follow `response` and what comes out of them. `origin` is the origin
      the client's credentials are meant for. */
  function Follow(env: Environment, hop: nat, response: Response, current: Option<Url>, origin: Option<Url>,
                  request: Request, visited: set<string>): Chain
    decreases if hop < env.maxHops then env.maxHops - hop else 0
  {
    if !IsRedirect(response.status) then Chain([], Delivered(response, current))
    else
      match NextTarget(env, hop, response, current, visited)
      case Stop(outcome) => Chain([], outcome)
      case Go(target) =>
        var next := NextRedirectRequest(request, current.value, target, response.status);
        if !env.approved(hop) then Chain([], Refused(AddressRejected))
        else
          match env.replies(hop)
          case Failed => Chain([Outgoing(env, hop, next, origin, target)], Refused(TransportFailed))
          case Answer(status, location) =>
            var rest := Follow(env, hop + 1, Response(status, location, true), Some(target), origin, next,
                visited + {env.show(target)});
            Chain([Outgoing(env, hop, next, origin, target)] + rest.sent, rest.outcome)
  }

  function FirstVisited(env: Environment, current: Option<Url>): set<string> {
    if current.None? then {} else {env.show(current.value)}
  }

  function FollowFromStart(env: Environment, response: Response, current: Option<Url>, origin: Option<Url>,
      request: Request): Chain {
    Follow(env, 0, response, current, origin, request, FirstVisited(env, current))
  }

  method FollowRedirects(env: Environment, original: Request, first: Response, logicalUrl: Option<Url>,
      origin: Option<Url>)
    returns (chain: Chain)
    ensures chain == FollowFromStart(env, first, logicalUrl, origin, original)
  {
    hide SameOrigin, IsRedirect, NextRedirectRequest, Outgoing;
    var visited: set<string> := {};
    if logicalUrl.Some? {
      visited := visited + {env.show(logicalUrl.value)};
    }
    var redirectRequest, response, current := original, first, logicalUrl;
    var sent: seq<Sent> := [];
    var hop: nat := 0;
    assert visited == FirstVisited(env, current);
    assert sent + FollowFromStart(env, first, logicalUrl, origin, original).sent
           == FollowFromStart(env, first, logicalUrl, origin, original).sent;
    while IsRedirect(response.status)
      invariant FollowFromStart(env, first, logicalUrl, origin, original) ==
                var rest := Follow(env, hop, response, current, origin, redirectRequest, visited);
                Chain(sent + rest.sent, rest.outcome)
      decreases if hop < env.maxHops then env.maxHops - hop else 0
    {
      if hop >= env.maxHops {
        return Chain(sent, Refused(LimitExceeded));
      }
      if response.location == "" {
        return Chain(sent, Delivered(response, current));
      }
      if current.None? || env.resolve(current.value, response.location).None? {
        return Chain(sent, Refused(InvalidLocation));
      }
      var target := env.resolve(current.value, response.location).value;
      if !env.validTarget(target) {
        return Chain(sent, Refused(InvalidTarget));
      }
      if !env.allowedOrigin(target) {
        return Chain(sent, Refused(OriginNotAllowed));
      }
      if env.show(target) in visited {
        return Chain(sent, Refused(LoopDetected));
      }
      visited := visited + {env.show(target)};
      var next := NextRedirectRequest(redirectRequest, current.value, target, response.status);
      current := Some(target);
      if !env.approved(hop) {
        return Chain(sent, Refused(AddressRejected));
      }
      ghost var before, out := sent, Outgoing(env, hop, next, origin, target);
      sent := sent + [Outgoing(env, hop, next, origin, target)];
      assert forall rest :: before + ([out] + rest) == sent + rest;
      match env.replies(hop) {
        case Failed =>
          return Chain(sent, Refused(TransportFailed));
        case Answer(status, location) =>
          response := Response(status, location, true);
      }
      redirectRequest := next;
      hop := hop + 1;
    }
    return Chain(sent, Delivered(response, current));
  }

  // ---------------------------------------------------------------- what every chain keeps

  /** The first request of a chain, and the chain after it. */
  lemma ChainUnfolds(env: Environment, hop: nat, response: Response, current: Option<Url>, origin: Option<Url>,
                     request: Request, visited: set<string>)
    requires Follow(env, hop, response, current, origin, request, visited).sent != []
    ensures IsRedirect(response.status) && NextTarget(env, hop, response, current, visited).Go?
    ensures var sent := Follow(env, hop, response, current, origin, request, visited).sent;
            var target := NextTarget(env, hop, response, current, visited).target;
            var next := NextRedirectRequest(request, current.value, target, response.status);
            var answer := env.replies(hop);
            && sent[0] == Outgoing(env, hop, next, origin, target)
            && (|sent| > 1 ==> answer.Answer?)
            && sent[1..] == (if answer.Failed? then [] else
                 Follow(env, hop + 1, Response(answer.status, answer.location, true), Some(target), origin, next,
                        visited + {env.show(target)}).sent)
  {
    hide IsRedirect, NextRedirectRequest, Outgoing;
  }

  /** A chain sends at most `maxHops` requests, to URLs that read differently from each other
      and from every URL visited before, all of which passed both target checks. */
  lemma {:induction false} ChainsAreBounded(env: Environment, hop: nat, response: Response, current: Option<Url>,
                                            origin: Option<Url>, request: Request, visited: set<string>)
    ensures var sent := Follow(env, hop, response, current, origin, request, visited).sent;
            && hop + |sent| <= (if hop < env.maxHops then env.maxHops else hop)
            && (forall i | 0 <= i < |sent| :: env.validTarget(sent[i].url) && env.allowedOrigin(sent[i].url))
            && (forall i | 0 <= i < |sent| :: env.show(sent[i].url) !in visited)
            && (forall i, j | 0 <= i < j < |sent| :: env.show(sent[i].url) != env.show(sent[j].url))
    decreases if hop < env.maxHops then env.maxHops - hop else 0
  {
    hide Follow, IsRedirect, NextRedirectRequest;
    var sent := Follow(env, hop, response, current, origin, request, visited).sent;
    if sent != [] {
      ChainUnfolds(env, hop, response, current, origin, request, visited);
      var target := NextTarget(env, hop, response, current, visited).target;
      assert sent[0].url == target;
      if env.replies(hop).Answer? {
        var next := NextRedirectRequest(request, current.value, target, response.status);
        var answered := Response(env.replies(hop).status, env.replies(hop).location, true);
        ChainsAreBounded(env, hop + 1, answered, Some(target), origin, next, visited + {env.show(target)});
      }
      assert forall i | 1 <= i < |sent| :: sent[i] == sent[1..][i - 1];
    }
  }

  /** Redirect chains end, never come back, and only go to checked targets. */
  lemma RedirectsAreSafe(env: Environment, response: Response, current: Option<Url>, origin: Option<Url>,
      request: Request)
    ensures var sent := FollowFromStart(env, response, current, origin, request).sent;
            && |sent| <= (if env.maxHops > 0 then env.maxHops else 0)
            && (forall i | 0 <= i < |sent| :: env.validTarget(sent[i].url) && env.allowedOrigin(sent[i].url))
            && (forall i | 0 <= i < |sent| :: current.Some? && env.show(sent[i].url) != env.show(current.value))
            && (forall i, j | 0 <= i < j < |sent| :: env.show(sent[i].url) != env.show(sent[j].url))
  {
    hide Follow;
    ChainsAreBounded(env, 0, response, current, origin, request, FirstVisited(env, current));
    if FollowFromStart(env, response, current, origin, request).sent != [] {
      ChainUnfolds(env, 0, response, current, origin, request, FirstVisited(env, current));
    }
  }

  /** The URL that hop `k` leaves. */
  function Before(sent: seq<Sent>, current: Option<Url>, k: nat): Option<Url>
    requires k <= |sent|
  {
    if k == 0 then current else Some(sent[k - 1].url)
  }

  /** The response that leads to hop `k`. */
  function Redirecting(env: Environment, hop: nat, response: Response, k: nat): Reply {
    if k == 0 then Answer(response.status, response.location) else env.replies(hop + k - 1)
  }

  /** Every URL from the first to that of hop `k` has the origin the credentials are for. */
  predicate AllSameOrigin(sent: seq<Sent>, current: Option<Url>, origin: Option<Url>, k: nat)
    requires k < |sent|
  {
    forall i | 0 <= i <= k + 1 :: SameOrigin(origin, Before(sent, current, i))
  }

  predicate SawSeeOther(env: Environment, hop: nat, response: Response, k: nat) {
    exists i | 0 <= i <= k :: Redirecting(env, hop, response, i).Answer? &&
        Redirecting(env, hop, response, i).status == 303
  }

  /** What is sent at hop `k`. */
  function Expected(env: Environment, hop: nat, response: Response, current: Option<Url>, origin: Option<Url>,
                    request: Request, sent: seq<Sent>, k: nat): Request
    requires k < |sent|
  {
    var prepared := Prepared(env, hop + k, request.header);
    var header := if AllSameOrigin(sent, current, origin, k) then prepared
                  else prepared - {"Authorization", "Cookie"};
    if request.verb != "HEAD" && SawSeeOther(env, hop, response, k) then Request("GET", header, None)
    else Request(request.verb, header, request.body)
  }

  lemma SameOriginRest(sent: seq<Sent>, current: Option<Url>, origin: Option<Url>, k: nat)
    requires 0 < k < |sent|
    ensures AllSameOrigin(sent, current, origin, k) <==>
            SameOrigin(origin, current) && AllSameOrigin(sent[1..], Some(sent[0].url), origin, k - 1)
  {
    hide SameOrigin;
    var rest := sent[1..];
    assert forall i | 0 <= i <= k :: Before(rest, Some(sent[0].url), i) == Before(sent, current, i + 1);
    assert Before(sent, current, 0) == current;
    if SameOrigin(origin, current) && AllSameOrigin(rest, Some(sent[0].url), origin, k - 1) {
      forall i | 0 <= i <= k + 1 ensures SameOrigin(origin, Before(sent, current, i)) {
        if i > 0 { assert SameOrigin(origin, Before(rest, Some(sent[0].url), i - 1)); }
      }
    }
  }

  lemma SeeOtherRest(env: Environment, hop: nat, response: Response, k: nat)
    requires k > 0 && env.replies(hop).Answer?
    ensures var answered := Response(env.replies(hop).status, env.replies(hop).location, true);
            SawSeeOther(env, hop, response, k) <==> response.status == 303 || SawSeeOther(env, hop + 1, answered, k - 1)
  {
    var answered := Response(env.replies(hop).status, env.replies(hop).location, true);
    assert Redirecting(env, hop, response, 0) == Answer(response.status, response.location);
    if SawSeeOther(env, hop, response, k) && response.status != 303 {
      var i :| 0 <= i <= k && Redirecting(env, hop, response, i).Answer? &&
          Redirecting(env, hop, response, i).status == 303;
      assert Redirecting(env, hop + 1, answered, i - 1) == Redirecting(env, hop, response, i);
    }
    if SawSeeOther(env, hop + 1, answered, k - 1) {
      var i :| 0 <= i <= k - 1 && Redirecting(env, hop + 1, answered, i).Answer? &&
          Redirecting(env, hop + 1, answered, i).status == 303;
      assert Redirecting(env, hop, response, i + 1) == Redirecting(env, hop + 1, answered, i);
    }
  }

  lemma FirstHop(env: Environment, hop: nat, response: Response, current: Option<Url>, origin: Option<Url>,
                 request: Request, sent: seq<Sent>, target: Url)
    requires current.Some? && sent != []
    requires sent[0] == Outgoing(env, hop, NextRedirectRequest(request, current.value, target, response.status),
             origin, target)
    ensures sent[0].request == Expected(env, hop, response, current, origin, request, sent, 0)
  {
    assert Before(sent, current, 0) == current && Before(sent, current, 1) == Some(target);
    assert Redirecting(env, hop, response, 0) == Answer(response.status, response.location);
    assert AllSameOrigin(sent, current, origin, 0) <==> SameOrigin(origin, current) && SameOrigin(origin, Some(target));
    assert SawSeeOther(env, hop, response, 0) <==> response.status == 303;
    PreparedSplits(env, hop, request.header);
  }

  lemma PreparedSplits(env: Environment, hop: nat, header: map<string, string>)
    ensures Prepared(env, hop, header - CREDENTIALS) == Prepared(env, hop, header) - CREDENTIALS
    ensures Prepared(env, hop, header - CREDENTIALS) - CREDENTIALS == Prepared(env, hop, header) - CREDENTIALS
    ensures forall name | name in CREDENTIALS ::
              name in Prepared(env, hop, header) <==> name in header && env.clean(name, header[name]).Some?
  {
  }

  /** Hop `k` goes where response `k` of the chain points, with the client's own request:
      its credentials are there exactly when every URL up to this hop has the origin they are
      for, its other headers are passed on as the transport does, and the verb and body are dropped exactly after
      a 303. */
  lemma {:induction false} HopExactly(env: Environment, hop: nat, response: Response, current: Option<Url>,
      origin: Option<Url>,
                                      request: Request, visited: set<string>, k: nat)
    requires k < |Follow(env, hop, response, current, origin, request, visited).sent|
    ensures var sent := Follow(env, hop, response, current, origin, request, visited).sent;
            var redirecting := Redirecting(env, hop, response, k);
            && redirecting.Answer? && IsRedirect(redirecting.status) && Before(sent, current, k).Some?
            && env.resolve(Before(sent, current, k).value, redirecting.location) == Some(sent[k].url)
            && sent[k].request == Expected(env, hop, response, current, origin, request, sent, k)
    decreases k
  {
    hide Follow, SameOrigin, IsRedirect, StripCrossOriginCredentials, AllSameOrigin, SawSeeOther;
    var sent := Follow(env, hop, response, current, origin, request, visited).sent;
    ChainUnfolds(env, hop, response, current, origin, request, visited);
    var target := NextTarget(env, hop, response, current, visited).target;
    if k == 0 {
      FirstHop(env, hop, response, current, origin, request, sent, target);
    } else {
      var next := NextRedirectRequest(request, current.value, target, response.status);
      var answered := Response(env.replies(hop).status, env.replies(hop).location, true);
      HopExactly(env, hop + 1, answered, Some(target), origin, next, visited + {env.show(target)}, k - 1);
      SameOriginRest(sent, current, origin, k);
      SeeOtherRest(env, hop, response, k);
      LaterHop(env, hop, response, current, origin, request, sent, target, k);
    }
  }

  lemma LaterHop(env: Environment, hop: nat, response: Response, current: Option<Url>, origin: Option<Url>,
                 request: Request, sent: seq<Sent>, target: Url, k: nat)
    requires 0 < k < |sent| && current.Some? && sent[0].url == target && env.replies(hop).Answer?
    requires var next := NextRedirectRequest(request, current.value, target, response.status);
             var answered := Response(env.replies(hop).status, env.replies(hop).location, true);
             sent[k].request == Expected(env, hop + 1, answered, Some(target), origin, next, sent[1..], k - 1)
    ensures sent[k].request == Expected(env, hop, response, current, origin, request, sent, k)
  {
    hide SawSeeOther, Prepared, SameOrigin;
    SameOriginRest(sent, current, origin, k);
    SeeOtherRest(env, hop, response, k);
    assert Before(sent[1..], Some(target), 0) == Some(target);
    assert AllSameOrigin(sent[1..], Some(target), origin, k - 1) ==> SameOrigin(origin, Some(target));
    if SameOrigin(origin, Some(target)) {
      OneOrigin(origin, current, Some(target));
    }
    PreparedSplits(env, hop + k, request.header);
  }

  lemma OneOrigin(origin: Option<Url>, current: Option<Url>, target: Option<Url>)
    requires SameOrigin(origin, target)
    ensures SameOrigin(origin, current) <==> SameOrigin(current, target)
  {
  }

  /** Credentials are present at hop `k` only while the chain stays at their origin. */
  lemma CredentialsStayAtTheirOrigin(env: Environment, response: Response, current: Option<Url>, origin: Option<Url>,
                                     request: Request, name: string, k: nat)
    requires (name == "Authorization" || name == "Cookie")
    requires k < |FollowFromStart(env, response, current, origin, request).sent|
    ensures var sent := FollowFromStart(env, response, current, origin, request).sent;
            name in sent[k].request.header <==>
            name in request.header && env.clean(name, request.header[name]).Some?
            && origin.Some? && current.Some? && OriginOf(current.value) == OriginOf(origin.value)
            && forall i | 0 <= i <= k :: OriginOf(sent[i].url) == OriginOf(origin.value)
  {
    hide Follow, OriginOf, SameOrigin, Prepared, SawSeeOther;
    PreparedSplits(env, k, request.header);
    HopExactly(env, 0, response, current, origin, request, FirstVisited(env, current), k);
    var sent := FollowFromStart(env, response, current, origin, request).sent;
    assert Before(sent, current, 0) == current;
    if SameOrigin(origin, current) { OriginsAreKnown(origin, current); }
    if origin.Some? && current.Some? {
      SameOriginExactly(origin.value, current.value);
      forall i | 0 <= i <= k
        ensures SameOrigin(origin, Before(sent, current, i + 1)) <==> OriginOf(sent[i].url) == OriginOf(origin.value)
      {
        SameOriginExactly(origin.value, sent[i].url);
      }
    }
  }

  // ---------------------------------------------------------------- how a chain ends

  predicate LeadsOn(status: int) {
    status in {301, 302, 303, 307, 308}
  }

  /** The redirect `last` points from `at` to `target`. */
  predicate Points(env: Environment, at: Option<Url>, last: Reply, target: Url) {
    last.Answer? && LeadsOn(last.status) && last.location != "" && at.Some? &&
    env.resolve(at.value, last.location) == Some(target)
  }

  /** Why a chain that sent `k` requests, the last answered by `last` from `at`, ended with this
      outcome. `seen` are the URLs it went to. */
  ghost predicate EndsBecause(env: Environment, k: nat, last: Reply, at: Option<Url>, seen: set<string>,
      outcome: Outcome) {
    match outcome
    case Delivered(response, logical) =>
      && last.Answer? && response.status == last.status && response.location == last.location && logical == at
      && (LeadsOn(last.status) ==> k < env.maxHops && last.location == "")
    case Refused(TransportFailed) => last.Failed?
    case Refused(LimitExceeded) => last.Answer? && LeadsOn(last.status) && k >= env.maxHops
    case Refused(InvalidLocation) =>
      && last.Answer? && LeadsOn(last.status) && k < env.maxHops && last.location != ""
      && (at.None? || env.resolve(at.value, last.location).None?)
    case Refused(InvalidTarget) =>
      k < env.maxHops && exists target :: Points(env, at, last, target) && !env.validTarget(target)
    case Refused(OriginNotAllowed) =>
      k < env.maxHops &&
      exists target :: Points(env, at, last, target) && env.validTarget(target) && !env.allowedOrigin(target)
    case Refused(LoopDetected) =>
      k < env.maxHops &&
      exists target :: Points(env, at, last, target) && env.validTarget(target) && env.allowedOrigin(target) &&
        env.show(target) in seen
    case Refused(AddressRejected) =>
      k < env.maxHops && !env.approved(k) &&
      exists target :: Points(env, at, last, target) && env.validTarget(target) && env.allowedOrigin(target) &&
        env.show(target) !in seen
  }

  function Shown(env: Environment, sent: seq<Sent>): set<string> {
    set i | 0 <= i < |sent| :: env.show(sent[i].url)
  }

  lemma EndsNow(env: Environment, hop: nat, response: Response, current: Option<Url>, origin: Option<Url>,
                request: Request, visited: set<string>)
    requires Follow(env, hop, response, current, origin, request, visited).sent == []
    ensures EndsBecause(env, hop, Answer(response.status, response.location), current, visited,
                        Follow(env, hop, response, current, origin, request, visited).outcome)
  {
    hide Outgoing, NextRedirectRequest;
    if IsRedirect(response.status) && current.Some? {
      var target := env.resolve(current.value, response.location);
      assert target.Some? && response.location != "" ==>
               Points(env, current, Answer(response.status, response.location), target.value);
    }
  }

  lemma {:induction false} EndsLater(env: Environment, hop: nat, response: Response, current: Option<Url>,
                                     origin: Option<Url>, request: Request, visited: set<string>)
    ensures var chain := Follow(env, hop, response, current, origin, request, visited);
            EndsBecause(env, hop + |chain.sent|, Redirecting(env, hop, response, |chain.sent|),
                        Before(chain.sent, current, |chain.sent|), visited + Shown(env, chain.sent), chain.outcome)
    decreases if hop < env.maxHops then env.maxHops - hop else 0
  {
    hide Follow, IsRedirect, NextRedirectRequest, Outgoing, EndsBecause, LeadsOn;
    var chain := Follow(env, hop, response, current, origin, request, visited);
    if chain.sent == [] {
      EndsNow(env, hop, response, current, origin, request, visited);
      assert visited + Shown(env, []) == visited;
    } else {
      ChainUnfolds(env, hop, response, current, origin, request, visited);
      OutcomeUnfolds(env, hop, response, current, origin, request, visited);
      var target := NextTarget(env, hop, response, current, visited).target;
      var rest := chain.sent[1..];
      GoesTo(env, hop, origin, NextRedirectRequest(request, current.value, target, response.status), target);
      assert Shown(env, chain.sent) == {env.show(target)} + Shown(env, rest) by {
        assert forall i | 0 <= i < |rest| :: rest[i] == chain.sent[i + 1];
        assert forall i | 1 <= i < |chain.sent| :: chain.sent[i] == rest[i - 1];
      }
      if env.replies(hop).Answer? {
        var next := NextRedirectRequest(request, current.value, target, response.status);
        var answered := Response(env.replies(hop).status, env.replies(hop).location, true);
        EndsLater(env, hop + 1, answered, Some(target), origin, next, visited + {env.show(target)});
        assert visited + {env.show(target)} + Shown(env, rest) == visited + Shown(env, chain.sent);
        assert Redirecting(env, hop + 1, answered, |rest|) == Redirecting(env, hop, response, |chain.sent|);
        assert Before(rest, Some(target), |rest|) == Before(chain.sent, current, |chain.sent|);
      } else {
        FailsBecause(env, hop + 1, Before(chain.sent, current, 1), visited + Shown(env, chain.sent));
      }
    }
  }

  lemma GoesTo(env: Environment, hop: nat, origin: Option<Url>, next: Request, target: Url)
    ensures Outgoing(env, hop, next, origin, target).url == target
  {
  }

  lemma FailsBecause(env: Environment, k: nat, at: Option<Url>, seen: set<string>)
    ensures EndsBecause(env, k, Failed, at, seen, Refused(TransportFailed))
  {
  }

  lemma OutcomeUnfolds(env: Environment, hop: nat, response: Response, current: Option<Url>, origin: Option<Url>,
                       request: Request, visited: set<string>)
    requires Follow(env, hop, response, current, origin, request, visited).sent != []
    ensures NextTarget(env, hop, response, current, visited).Go? && current.Some?
    ensures var target := NextTarget(env, hop, response, current, visited).target;
            var next := NextRedirectRequest(request, current.value, target, response.status);
            var answer := env.replies(hop);
            Follow(env, hop, response, current, origin, request, visited).outcome ==
            if answer.Failed? then Refused(TransportFailed)
            else Follow(env, hop + 1, Response(answer.status, answer.location, true), Some(target), origin, next,
                        visited + {env.show(target)}).outcome
  {
    hide NextRedirectRequest, Outgoing, IsRedirect;
  }

  /** Every chain ends for one of the reasons there are, at the point where it holds: an answer
      that is no redirect is delivered, and a redirect that passes every check is followed. */
  lemma ChainsEndForCause(env: Environment, response: Response, current: Option<Url>, origin: Option<Url>,
      request: Request)
    ensures var chain := FollowFromStart(env, response, current, origin, request);
            var n := |chain.sent|;
            var last := if n == 0 then Answer(response.status, response.location) else env.replies(n - 1);
            var at := if n == 0 then current else Some(chain.sent[n - 1].url);
            var seen := (if current.Some? then {env.show(current.value)} else {}) + Shown(env, chain.sent);
            EndsBecause(env, n, last, at, seen, chain.outcome)
  {
    hide Follow, EndsBecause;
    EndsLater(env, 0, response, current, origin, request, FirstVisited(env, current));
  }

  // ---------------------------------------------------------------- failover

  /** What trying one candidate upstream comes to; `Unusable` when no request can be built. */
  datatype Attempt = Unusable | Tried(reply: Reply)

  datatype Selection = NoUpstream | Error(candidate: nat) | Selected(response: Response, candidate: nat)

  predicate RetryableUpstreamStatus(status: int) {
    status == 502 || status == 503 || status == 504
  }

  /** An answer the client gets as it is. */
  predicate Usable(attempt: Attempt) {
    attempt.Tried? && attempt.reply.Answer? && attempt.reply.status !in {502, 503, 504}
  }

  /** A failure after which the next candidate is tried. */
  predicate Retried(attempt: Attempt) {
    attempt.Tried? && !Usable(attempt)
  }

  /** The loop over the candidates: the first usable answer; otherwise whatever the last
      candidate came to, its response with the body already closed. */
  method SelectUpstream(attempts: seq<Attempt>) returns (selection: Selection)
    ensures selection.NoUpstream? <==> attempts == []
    ensures attempts != [] ==>
              && selection.candidate < |attempts|
              && (forall i | 0 <= i < selection.candidate :: Retried(attempts[i]))
              && (Retried(attempts[selection.candidate]) ==> selection.candidate == |attempts| - 1)
              && (selection.Error? <==>
                    attempts[selection.candidate].Unusable? || attempts[selection.candidate].reply.Failed?)
              && (selection.Selected? ==>
                    && selection.response.status == attempts[selection.candidate].reply.status
                    && selection.response.location == attempts[selection.candidate].reply.location
                    && (selection.response.open <==> Usable(attempts[selection.candidate])))
  {
    if |attempts| == 0 {
      return NoUpstream;
    }
    for index := 0 to |attempts|
      invariant forall i | 0 <= i < index :: Retried(attempts[i])
      invariant index < |attempts|
    {
      match attempts[index] {
        case Unusable =>
          return Error(index);
        case Tried(reply) =>
          if reply.Answer? && !RetryableUpstreamStatus(reply.status) {
            return Selected(Response(reply.status, reply.location, true), index);
          }
          if index == |attempts| - 1 {
            if reply.Failed? {
              return Error(index);
            }
            return Selected(Response(reply.status, reply.location, false), index);
          }
      }
    }
  }
}
