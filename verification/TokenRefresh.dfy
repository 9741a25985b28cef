/**
 The axios client of api.ts: a 401 on a request makes it wait for a token refresh that all waiting
 requests share, and then be sent once more.

 The browser runs one callback at a time, so a run is a sequence of events; which event comes next
 is up to the network and the scheduler.
*/
module TokenRefresh {
  import opened Tables

  /** Where a request is. `retried` is the `_refreshRetried` mark on its config. */
  datatype Phase =
    | InFlight(retried: bool)
    | Waiting(refresh: nat)
    | Resolved
    | Rejected

  datatype Request = Request(isAuthEndpoint: bool, phase: Phase, sends: nat, authorization: Option<string>)

  datatype Response = Success | Unauthorized | OtherError

  datatype Event =
    | Issue(isAuthEndpoint: bool)             // a caller makes a request
    | StoreChanged(token: Option<string>)     // a login or logout elsewhere in the application
    | Respond(request: nat, response: Response)
    | RefreshSettles(token: Option<string>)   // POST /auth/refresh answers; None if it fails
    | Resume(request: nat)                    // a waiting request continues after its refresh

  datatype State = State(
    token: Option<string>,                 // the auth store's token
    refreshInFlight: Option<nat>,          // the shared promise, by number
    started: nat,                          // how many refreshes have been started
    outcomes: map<nat, Option<string>>,    // what the settled ones resolved to
    requests: seq<Request>,
    logouts: nat)

  /** JavaScript's truth value of a token: neither null nor the empty string. */
  predicate Truthy(token: Option<string>) {
    token.Some? && token.value != ""
  }

  /** The request interceptor: the store's token replaces the header, if there is one. */
  function Attach(token: Option<string>, header: Option<string>): Option<string> {
    if Truthy(token) then token else header
  }

  // ---- The transition relation ----

  predicate Enabled(s: State, e: Event) {
    match e
    case Issue(_) => true
    case StoreChanged(_) => true
    case Respond(r, _) => r < |s.requests| && s.requests[r].phase.InFlight?
    case RefreshSettles(_) => s.refreshInFlight.Some?
    case Resume(r) => r < |s.requests| && s.requests[r].phase.Waiting? && s.requests[r].phase.refresh in s.outcomes
  }

  function SetPhase(s: State, r: nat, phase: Phase): State
    requires r < |s.requests|
  {
    s.(requests := s.requests[r := s.requests[r].(phase := phase)])
  }

  function LogOut(s: State): State {
    s.(token := None, logouts := s.logouts + 1)
  }

  function Next(s: State, e: Event): State
    requires Enabled(s, e)
  {
    match e
    case Issue(auth) => s.(requests := s.requests + [Request(auth, InFlight(false), 1, Attach(s.token, None))])
    case StoreChanged(token) => s.(token := token)
    case Respond(r, response) =>
      var req := s.requests[r];
      if response.Success? then SetPhase(s, r, Resolved)
      else if response.OtherError? || req.isAuthEndpoint then SetPhase(s, r, Rejected)
      else if req.phase.retried then SetPhase(LogOut(s), r, Rejected)
      else if s.refreshInFlight.Some? then SetPhase(s, r, Waiting(s.refreshInFlight.value))
      else SetPhase(s.(refreshInFlight := Some(s.started), started := s.started + 1), r, Waiting(s.started))
    case RefreshSettles(token) =>
      s.(refreshInFlight := None, outcomes := s.outcomes[s.refreshInFlight.value := token],
         token := if token.Some? then token else s.token)
    case Resume(r) =>
      var req := s.requests[r];
      var newToken := s.outcomes[req.phase.refresh];
      if Truthy(newToken)
      then s.(requests := s.requests[r := req.(phase := InFlight(true), sends := req.sends + 1,
                                               authorization := Attach(s.token, newToken))])
      else SetPhase(LogOut(s), r, Rejected)
  }

  const INITIAL := State(None, None, 0, map[], [], 0)

  // ---- The client ----

  class ApiClient {
    var token: Option<string>
    var refreshInFlight: Option<nat>
    var started: nat
    var outcomes: map<nat, Option<string>>
    var requests: seq<Request>
    var logouts: nat

    function View(): State
      reads this
    {
      State(token, refreshInFlight, started, outcomes, requests, logouts)
    }

    constructor ()
      ensures View() == INITIAL
    {
      token, refreshInFlight, started, outcomes, requests, logouts := None, None, 0, map[], [], 0;
    }

    method Send(isAuthEndpoint: bool) returns (r: nat)
      modifies this
      ensures View() == Next(old(View()), Issue(isAuthEndpoint))
      ensures r == |old(requests)|
    {
      var header := Attach(token, None);
      r := |requests|;
      requests := requests + [Request(isAuthEndpoint, InFlight(false), 1, header)];
    }

    /** Returns the shared promise, and starts a refresh only when there is none. */
    method PerformRefresh() returns (promise: nat)
      modifies this`refreshInFlight, this`started
      ensures if old(refreshInFlight).Some?
              then promise == old(refreshInFlight).value && started == old(started)
                   && refreshInFlight == old(refreshInFlight)
              else promise == old(started) && started == old(started) + 1 && refreshInFlight == Some(promise)
    {
      if refreshInFlight.Some? {
        return refreshInFlight.value;
      }
      promise := started;
      started := started + 1;
      refreshInFlight := Some(promise);
    }

    method Logout()
      modifies this`token, this`logouts
      ensures token == None && logouts == old(logouts) + 1
    {
      token, logouts := None, logouts + 1;
    }

    /** The response interceptor, up to its await. */
    method OnResponse(r: nat, response: Response)
      requires Enabled(View(), Respond(r, response))
      modifies this
      ensures View() == Next(old(View()), Respond(r, response))
    {
      if response.Success? {
        requests := requests[r := requests[r].(phase := Resolved)];
        return;
      }
      var is401, isAuth := response.Unauthorized?, requests[r].isAuthEndpoint;
      if is401 && !isAuth && !requests[r].phase.retried {
        var promise := PerformRefresh();
        requests := requests[r := requests[r].(phase := Waiting(promise))];
        return;
      }
      if is401 && !isAuth {
        Logout();
      }
      requests := requests[r := requests[r].(phase := Rejected)];
    }

    /** The end of the refresh: store the token, clear the shared promise, settle it. */
    method OnRefreshSettled(answer: Option<string>)
      requires Enabled(View(), RefreshSettles(answer))
      modifies this
      ensures View() == Next(old(View()), RefreshSettles(answer))
    {
      if answer.Some? {
        token := answer;
      }
      outcomes := outcomes[refreshInFlight.value := answer];
      refreshInFlight := None;
    }

    /** The response interceptor after its await: retry with the new token, or log out. */
    method OnResume(r: nat)
      requires Enabled(View(), Resume(r))
      modifies this
      ensures View() == Next(old(View()), Resume(r))
    {
      var newToken := outcomes[requests[r].phase.refresh];
      if Truthy(newToken) {
        var req := requests[r].(phase := InFlight(true), authorization := newToken);
        requests := requests[r := req.(sends := req.sends + 1, authorization := Attach(token, req.authorization))];
      } else {
        Logout();
        requests := requests[r := requests[r].(phase := Rejected)];
      }
    }
  }

  // ---- Runs ----

  ghost predicate IsRun(states: seq<State>, events: seq<Event>) {
    && |states| == |events| + 1
    && states[0] == INITIAL
    && forall i :: 0 <= i < |events| ==> Enabled(states[i], events[i]) && states[i + 1] == Next(states[i], events[i])
  }

  /** A refresh that has been started and has not settled. */
  predicate Outstanding(s: State, g: nat) {
    g < s.started && g !in s.outcomes
  }

  predicate RequestOk(s: State, req: Request) {
    && (req.phase.Waiting? ==> req.phase.refresh < s.started && req.sends == 1 && !req.isAuthEndpoint)
    && (req.phase.InFlight? ==> req.sends == if req.phase.retried then 2 else 1)
    && 1 <= req.sends <= 2
    && (req.sends == 2 ==> Truthy(req.authorization) && !req.isAuthEndpoint)
  }

  ghost predicate Invariant(s: State) {
    && (forall g: nat :: Outstanding(s, g) <==> s.refreshInFlight == Some(g))
    && (forall g :: g in s.outcomes ==> g < s.started)
    && (forall r :: 0 <= r < |s.requests| ==> RequestOk(s, s.requests[r]))
  }

  lemma StepKeepsInvariant(s: State, e: Event)
    requires Invariant(s) && Enabled(s, e)
    ensures Invariant(Next(s, e))
  {
    var s' := Next(s, e);
    forall r | 0 <= r < |s'.requests| ensures RequestOk(s', s'.requests[r]) {
      if r < |s.requests| { assert RequestOk(s, s.requests[r]); }
    }
    forall g: nat ensures Outstanding(s', g) <==> s'.refreshInFlight == Some(g) {
      assert Outstanding(s, g) <==> s.refreshInFlight == Some(g);
    }
  }

  /**
   In every interleaving at most one refresh is outstanding, no request is sent more than twice, and
   a second send always carries a token.
   */
  lemma {:induction false} RunInvariant(states: seq<State>, events: seq<Event>, i: nat)
    requires IsRun(states, events) && i < |states|
    ensures Invariant(states[i])
    ensures forall g: nat, h: nat :: Outstanding(states[i], g) && Outstanding(states[i], h) ==> g == h
    ensures forall r :: 0 <= r < |states[i].requests| ==> states[i].requests[r].sends <= 2
  {
    if i == 0 {
    } else {
      RunInvariant(states, events, i - 1);
      StepKeepsInvariant(states[i - 1], events[i - 1]);
    }
    var s := states[i];
    forall r | 0 <= r < |s.requests| ensures s.requests[r].sends <= 2 {
      assert RequestOk(s, s.requests[r]);
    }
    forall g: nat, h: nat | Outstanding(s, g) && Outstanding(s, h) ensures g == h {
      assert s.refreshInFlight == Some(g) && s.refreshInFlight == Some(h);
    }
  }

  /** A settled refresh keeps its outcome, so all its waiters see the same one whenever they resume. */
  lemma {:induction false} OutcomeIsFinal(states: seq<State>, events: seq<Event>, i: nat, j: nat, g: nat)
    requires IsRun(states, events) && i <= j < |states| && g in states[i].outcomes
    ensures g in states[j].outcomes && states[j].outcomes[g] == states[i].outcomes[g]
    decreases j - i
  {
    if i == j {
    } else {
      OutcomeIsFinal(states, events, i, j - 1, g);
      RunInvariant(states, events, j - 1);
      StepKeepsOutcome(states[j - 1], events[j - 1], g);
    }
  }

  lemma StepKeepsOutcome(s: State, e: Event, g: nat)
    requires Invariant(s) && Enabled(s, e) && g in s.outcomes
    ensures g in Next(s, e).outcomes && Next(s, e).outcomes[g] == s.outcomes[g]
  {
    assert Outstanding(s, g) <==> s.refreshInFlight == Some(g);
  }

  // ---- What becomes of a request, in terms of the events alone ----

  /** The index of the request's last answer among the first `n` events. */
  function LastAnswer(events: seq<Event>, r: nat, n: nat): Option<nat>
    requires n <= |events|
  {
    if n == 0 then None
    else if events[n - 1].Respond? && events[n - 1].request == r then Some(n - 1)
    else LastAnswer(events, r, n - 1)
  }

  function Answers(events: seq<Event>, r: nat, n: nat): nat
    requires n <= |events|
  {
    if n == 0 then 0
    else Answers(events, r, n - 1) + if events[n - 1].Respond? && events[n - 1].request == r then 1 else 0
  }

  /** What the first refresh to settle after event `i` yielded. */
  function SettledSince(events: seq<Event>, i: nat, n: nat): Option<Option<string>>
    requires n <= |events|
    decreases n
  {
    if n <= i + 1 then None
    else if SettledSince(events, i, n - 1).Some? then SettledSince(events, i, n - 1)
    else if events[n - 1].RefreshSettles? then Some(events[n - 1].token)
    else None
  }

  predicate ResumedSince(events: seq<Event>, r: nat, i: nat, n: nat)
    requires n <= |events|
    decreases n
  {
    n > i + 1 && (events[n - 1] == Resume(r) || ResumedSince(events, r, i, n - 1))
  }

  /** Where a request is after `n` events. */
  ghost predicate FateOk(s: State, events: seq<Event>, r: nat, n: nat)
    requires r < |s.requests| && n <= |events|
  {
    var phase, count := s.requests[r].phase, Answers(events, r, n);
    match LastAnswer(events, r, n)
    case None => phase == InFlight(false) && count == 0
    case Some(i) =>
      && i < n && events[i].Respond?
      && match events[i].response
         case Success => phase == Resolved
         case OtherError => phase == Rejected
         case Unauthorized =>
           if s.requests[r].isAuthEndpoint || count >= 2 then phase == Rejected
           else count == 1 && AfterFirst401(s, phase, SettledSince(events, i, n), ResumedSince(events, r, i, n))
  }

  /** After a first 401: waiting for the refresh, then for its turn, then sent again or rejected. */
  ghost predicate AfterFirst401(s: State, phase: Phase, settled: Option<Option<string>>, resumed: bool) {
    match settled
    case None => !resumed && phase.Waiting? && s.refreshInFlight == Some(phase.refresh)
    case Some(token) =>
      if !resumed then phase.Waiting? && phase.refresh in s.outcomes && s.outcomes[phase.refresh] == token
      else phase == if Truthy(token) then InFlight(true) else Rejected
  }

  ghost predicate FateAt(s: State, events: seq<Event>, r: nat, n: nat)
    requires n <= |events|
  {
    if r < |s.requests| then FateOk(s, events, r, n) else LastAnswer(events, r, n) == None && Answers(events, r, n) == 0
  }

  lemma FateStep(s: State, events: seq<Event>, r: nat, n: nat)
    requires n < |events| && Invariant(s) && Enabled(s, events[n]) && FateAt(s, events, r, n)
    ensures FateAt(Next(s, events[n]), events, r, n + 1)
  {
    var e := events[n];
    if r < |s.requests| {
      assert RequestOk(s, s.requests[r]);
      if s.requests[r].phase.Waiting? {
        var g := s.requests[r].phase.refresh;
        assert Outstanding(s, g) <==> s.refreshInFlight == Some(g);
      }
    }
  }

  lemma {:induction false} Fate(states: seq<State>, events: seq<Event>, r: nat, n: nat)
    requires IsRun(states, events) && n <= |events|
    ensures FateAt(states[n], events, r, n)
  {
    if n == 0 {
    } else {
      Fate(states, events, r, n - 1);
      RunInvariant(states, events, n - 1);
      FateStep(states[n - 1], events, r, n - 1);
    }
  }

  /**
   A request is resolved exactly when its last answer was a success. It is rejected exactly when that
   was another error, or a 401 to an /auth/ endpoint or to the second send, or a 401 to the first send
   after which a refresh has yielded no token and the request has gone on.
   */
  lemma SettlesAsAnswered(states: seq<State>, events: seq<Event>, r: nat, n: nat)
    requires IsRun(states, events) && n <= |events| && r < |states[n].requests|
    ensures var req, last := states[n].requests[r], LastAnswer(events, r, n);
            && (last.Some? ==> last.value < n && events[last.value].Respond?)
            && (req.phase == Resolved <==> last.Some? && events[last.value].response == Success)
            && (req.phase == Rejected <==>
                  && last.Some?
                  && (events[last.value].response == OtherError
                      || (events[last.value].response == Unauthorized
                          && (req.isAuthEndpoint || Answers(events, r, n) >= 2
                              || (ResumedSince(events, r, last.value, n)
                                  && SettledSince(events, last.value, n).Some?
                                  && !Truthy(SettledSince(events, last.value, n).value))))))
  {
    Fate(states, events, r, n);
  }

  /** A settled request stays as it is, and what kind of endpoint a request is for never changes. */
  lemma {:induction false} SettledStays(states: seq<State>, events: seq<Event>, r: nat, i: nat, j: nat)
    requires IsRun(states, events) && i <= j < |states| && r < |states[i].requests|
    ensures r < |states[j].requests| && states[j].requests[r].isAuthEndpoint == states[i].requests[r].isAuthEndpoint
    ensures Settled(states[i].requests[r]) ==> states[j].requests[r] == states[i].requests[r]
    decreases j - i
  {
    if i == j {
    } else {
      SettledStays(states, events, r, i, j - 1);
    }
  }

  predicate Settled(req: Request) {
    req.phase.Resolved? || req.phase.Rejected?
  }

  // ---- The tokens that requests carry ----

  /** A new request is for the endpoint it was issued for, and carries the store's token if there is one. */
  lemma IssuedRequest(states: seq<State>, events: seq<Event>, j: nat)
    requires IsRun(states, events) && j < |events| && events[j].Issue?
    ensures var r := |states[j].requests|;
            && |states[j + 1].requests| == r + 1
            && states[j + 1].requests[r].isAuthEndpoint == events[j].isAuthEndpoint
            && states[j + 1].requests[r].sends == 1
            && states[j + 1].requests[r].authorization == if Truthy(states[j].token) then states[j].token else None
  {}

  /** What a refresh or the application stores stands until something else sets or clears the store's token. */
  lemma {:induction false} StoredTokenStands(states: seq<State>, events: seq<Event>, i: nat, j: nat)
    requires IsRun(states, events) && i < j < |states|
    requires events[i].StoreChanged? || (events[i].RefreshSettles? && events[i].token.Some?)
    requires forall k :: i < k < j ==> !events[k].StoreChanged? && !(events[k].RefreshSettles? && events[k].token.Some?)
    ensures states[j].logouts >= states[i].logouts
    ensures states[j].logouts == states[i].logouts ==> states[j].token == events[i].token
    decreases j - i
  {
    if j == i + 1 {
    } else {
      StoredTokenStands(states, events, i, j - 1);
    }
  }

  lemma {:induction false} FirstSettle(events: seq<Event>, a: nat, i: nat, n: nat)
    requires a < i < n <= |events| && events[i].RefreshSettles?
    requires forall k :: a < k < i ==> !events[k].RefreshSettles?
    ensures SettledSince(events, a, n) == Some(events[i].token)
    decreases n
  {
    if n == i + 1 {
      NoSettle(events, a, i);
    } else {
      FirstSettle(events, a, i, n - 1);
    }
  }

  lemma {:induction false} NoSettle(events: seq<Event>, a: nat, n: nat)
    requires n <= |events| && forall k :: a < k < n ==> !events[k].RefreshSettles?
    ensures SettledSince(events, a, n) == None
    decreases n
  {
    if n <= a + 1 {
    } else {
      NoSettle(events, a, n - 1);
    }
  }

  /**
   When a request that got a 401 at `a` goes on at `j`, after the refresh that settled at `i` has yielded
   a token, it is sent once more with that token, unless the store's token has been changed in between.
   */
  lemma RetryCarriesRefreshed(states: seq<State>, events: seq<Event>, r: nat, a: nat, i: nat, j: nat)
    requires IsRun(states, events) && a < i < j < |events| && events[j] == Resume(r)
    requires LastAnswer(events, r, j) == Some(a)
    requires events[i].RefreshSettles? && Truthy(events[i].token)
    requires forall k :: a < k < i ==> !events[k].RefreshSettles?
    requires forall k :: i < k < j ==> !events[k].StoreChanged? && !(events[k].RefreshSettles? && events[k].token.Some?)
    requires states[j].logouts == states[i].logouts
    ensures r < |states[j].requests| == |states[j + 1].requests|
    ensures states[j + 1].requests[r].authorization == events[i].token
    ensures states[j + 1].requests[r].sends == 2 && states[j + 1].requests[r].phase == InFlight(true)
  {
    assert Enabled(states[j], events[j]);
    Fate(states, events, r, j);
    FirstSettle(events, a, i, j);
    StoredTokenStands(states, events, i, j);
    RunInvariant(states, events, j);
    assert RequestOk(states[j], states[j].requests[r]);
  }

  // ---- Logging out ----

  /** The two causes of a logout: a refresh without a usable token, and a 401 on a request already retried. */
  predicate Expires(s: State, e: Event)
    requires Enabled(s, e)
  {
    || (e.Resume? && !Truthy(s.outcomes[s.requests[e.request].phase.refresh]))
    || (e.Respond? && e.response.Unauthorized? && s.requests[e.request].phase.retried)
  }

  /** A run in which every refresh yields a token and no retried request is refused never logs out. */
  lemma {:induction false} NoSpuriousLogout(states: seq<State>, events: seq<Event>, i: nat)
    requires IsRun(states, events) && i < |states|
    requires forall j :: 0 <= j < |events| && events[j].RefreshSettles? ==> Truthy(events[j].token)
    requires forall j :: 0 <= j < |events| && events[j].Respond? && events[j].response.Unauthorized? ==>
               events[j].request < |states[j].requests|
               && !(states[j].requests[events[j].request].phase == InFlight(true))
    ensures states[i].logouts == 0
    ensures forall g :: g in states[i].outcomes ==> Truthy(states[i].outcomes[g])
  {
    if i == 0 {
    } else {
      NoSpuriousLogout(states, events, i - 1);
    }
  }

  /** A step logs out exactly when it has one of the two causes. */
  lemma LogoutIff(s: State, e: Event)
    requires Invariant(s) && Enabled(s, e)
    ensures Next(s, e).logouts == s.logouts + if Expires(s, e) then 1 else 0
    ensures Expires(s, e) ==> Next(s, e).token == None && Next(s, e).requests[e.request].phase == Rejected
  {
    if e.Respond? { assert RequestOk(s, s.requests[e.request]); }
  }

  // ---- Termination ----

  function Weight(req: Request): nat {
    match req.phase
    case InFlight(retried) => if retried then 1 else 5
    case Waiting(_) => 3
    case Resolved => 0
    case Rejected => 0
  }

  function TotalWeight(requests: seq<Request>): nat {
    if requests == [] then 0 else Weight(requests[0]) + TotalWeight(requests[1..])
  }

  /** What is still to happen at most, if nothing new is asked for. */
  function Remaining(s: State): nat {
    TotalWeight(s.requests) + if s.refreshInFlight.Some? then 1 else 0
  }

  lemma {:induction false} WeightUpdate(requests: seq<Request>, r: nat, req: Request)
    requires r < |requests|
    ensures TotalWeight(requests[r := req]) == TotalWeight(requests) - Weight(requests[r]) + Weight(req)
  {
    if r == 0 {
    } else {
      assert requests[r := req][1..] == requests[1..][r - 1 := req];
      WeightUpdate(requests[1..], r - 1, req);
    }
  }

  lemma {:induction false} WeightAppend(requests: seq<Request>, req: Request)
    ensures TotalWeight(requests + [req]) == TotalWeight(requests) + Weight(req)
  {
    if requests == [] {
    } else {
      assert (requests + [req])[1..] == requests[1..] + [req];
      WeightAppend(requests[1..], req);
    }
  }

  predicate FromOutside(e: Event) {
    e.Issue? || e.StoreChanged?
  }

  /** Every event that is not asked for from outside uses something up. */
  lemma StepDecreases(s: State, e: Event)
    requires Enabled(s, e)
    ensures FromOutside(e) ==> Remaining(Next(s, e)) == Remaining(s) + if e.Issue? then 5 else 0
    ensures !FromOutside(e) ==> Remaining(Next(s, e)) < Remaining(s)
  {
    var s' := Next(s, e);
    match e
    case Issue(auth) => WeightAppend(s.requests, s'.requests[|s.requests|]);
    case StoreChanged(_) =>
    case Respond(r, _) => WeightUpdate(s.requests, r, s'.requests[r]);
    case RefreshSettles(_) =>
    case Resume(r) => WeightUpdate(s.requests, r, s'.requests[r]);
  }

  function Issues(events: seq<Event>): nat {
    if events == [] then 0
    else Issues(events[..|events| - 1]) + if events[|events| - 1].Issue? then 1 else 0
  }

  function Inside(events: seq<Event>): nat {
    if events == [] then 0
    else Inside(events[..|events| - 1]) + if FromOutside(events[|events| - 1]) then 0 else 1
  }

  /** A run has at most five internal events per request: with finitely many requests it ends. */
  lemma {:induction false} RunsAreFinite(states: seq<State>, events: seq<Event>)
    requires IsRun(states, events)
    ensures Inside(events) + Remaining(states[|events|]) <= 5 * Issues(events)
  {
    if events == [] {
    } else {
      var n := |events| - 1;
      assert IsRun(states[..n + 1], events[..n]);
      RunsAreFinite(states[..n + 1], events[..n]);
      StepDecreases(states[n], events[n]);
    }
  }

  /** While a request is unsettled, something internal can still happen: nothing waits for ever. */
  lemma UnsettledCanStep(s: State, r: nat)
    requires Invariant(s) && r < |s.requests| && !Settled(s.requests[r])
    ensures exists e :: Enabled(s, e) && !FromOutside(e)
  {
    var phase := s.requests[r].phase;
    assert RequestOk(s, s.requests[r]);
    if phase.InFlight? {
      assert Enabled(s, Respond(r, Success)) && !FromOutside(Respond(r, Success));
    } else if phase.refresh in s.outcomes {
      assert Enabled(s, Resume(r)) && !FromOutside(Resume(r));
    } else {
      assert Outstanding(s, phase.refresh);
      assert Enabled(s, RefreshSettles(None)) && !FromOutside(RefreshSettles(None));
    }
  }

  /** And when it ends, that is when no internal event is possible, every request is settled. */
  lemma QuiescentMeansSettled(s: State)
    requires Invariant(s)
    requires forall e :: Enabled(s, e) ==> FromOutside(e)
    ensures s.refreshInFlight == None
    ensures forall r :: 0 <= r < |s.requests| ==> Settled(s.requests[r])
  {
    assert Enabled(s, RefreshSettles(None)) ==> FromOutside(RefreshSettles(None));
    forall r | 0 <= r < |s.requests| ensures Settled(s.requests[r]) {
      if !Settled(s.requests[r]) { UnsettledCanStep(s, r); }
    }
  }
}
