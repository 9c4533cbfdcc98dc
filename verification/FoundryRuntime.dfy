/** The Azure token cache and its in-flight table, as a state machine whose steps are JavaScript turns. */
module FoundryRuntime {
  import opened Text

  const TOKEN_REFRESH_MARGIN_MS := 5 * 60 * 1000
  const DEFAULT_LIFETIME_MS := 55 * 60 * 1000

  // ---------------------------------------------------------------- cache keys

  datatype Ids = Ids(subscriptionId: Option<string>, tenantId: Option<string>)

  function OrEmpty(s: Option<string>): string {
    if s.Some? then s.value else ""
  }

  /** getFoundryTokenCacheKey */
  function CacheKey(ids: Ids): string {
    OrEmpty(ids.subscriptionId) + ":" + OrEmpty(ids.tenantId)
  }

  /** The same subscription and tenant, an absent id counting as the empty one. */
  predicate SameIds(a: Ids, b: Ids) {
    OrEmpty(a.subscriptionId) == OrEmpty(b.subscriptionId) && OrEmpty(a.tenantId) == OrEmpty(b.tenantId)
  }

  predicate ColonFree(ids: Ids) {
    ':' !in OrEmpty(ids.subscriptionId) && ':' !in OrEmpty(ids.tenantId)
  }

  ghost predicate KeyIsUnambiguous(ids: Ids) {
    forall other :: CacheKey(other) == CacheKey(ids) ==> SameIds(other, ids)
  }

  lemma SameKeySameIds(a: Ids, b: Ids)
    requires CacheKey(a) == CacheKey(b) && ColonFree(b)
    ensures SameIds(a, b)
  {
    SplitAtSeparator(':', OrEmpty(b.subscriptionId), OrEmpty(b.tenantId), OrEmpty(a.subscriptionId), OrEmpty(a.tenantId));
  }

  /** A pair of ids shares its cache key with no other pair exactly when neither id contains a colon. */
  lemma KeyUnambiguousExactlyWhenColonFree(ids: Ids)
    ensures KeyIsUnambiguous(ids) <==> ColonFree(ids)
  {
    var s, t := OrEmpty(ids.subscriptionId), OrEmpty(ids.tenantId);
    if ColonFree(ids) {
      forall other | CacheKey(other) == CacheKey(ids) ensures SameIds(other, ids) {
        SameKeySameIds(other, ids);
      }
    } else if ':' in s {
      var i :| 0 <= i < |s| && s[i] == ':';
      var other := Ids(Some(s[..i]), Some(s[i + 1..] + ":" + t));
      assert s == s[..i] + ":" + s[i + 1..];
      assert CacheKey(other) == CacheKey(ids);
      assert !SameIds(other, ids);
    } else {
      var i :| 0 <= i < |t| && t[i] == ':';
      var other := Ids(Some(s + ":" + t[..i]), Some(t[i + 1..]));
      assert t == t[..i] + ":" + t[i + 1..];
      assert CacheKey(other) == CacheKey(ids);
      assert !SameIds(other, ids);
    }
  }

  // ---------------------------------------------------------------- states and events

  datatype Token = Token(apiKey: string, expiresAt: int)

  datatype Outcome = Running | Resolved(token: Token) | Rejected(error: string)

  /** One call of refreshEntraToken; settled once its `finally` callback has run. */
  datatype Refresh = Refresh(ids: Ids, outcome: Outcome, settled: bool)

  /** What a call of prepareFoundryRuntimeAuth has so far: a cached token, a place in line, or its result. */
  datatype Answer =
    | FromCache(token: Token)
    | Waiting(refresh: nat)
    | Served(refresh: nat, token: Token)
    | Failed(refresh: nat, error: string)

  datatype Call = Call(ids: Ids, at: int, answer: Answer)

  datatype State = State(cached: map<string, Token>, inFlight: map<string, nat>, refreshes: seq<Refresh>, calls: seq<Call>)

  const INITIAL := State(map[], map[], [], [])

  datatype Event =
    | Prepare(ids: Ids, now: int)
    | AzSuccess(r: nat, accessToken: string, expiresOn: Option<int>, now: int)
    | AzFailure(r: nat, error: string)
    | Finally(r: nat)
    | Resume(c: nat)
    | Reset

  predicate Enabled(s: State, e: Event) {
    match e
    case Prepare(_, _) => true
    case AzSuccess(r, _, _, _) => r < |s.refreshes| && s.refreshes[r].outcome.Running?
    case AzFailure(r, _) => r < |s.refreshes| && s.refreshes[r].outcome.Running?
    case Finally(r) => r < |s.refreshes| && !s.refreshes[r].outcome.Running? && !s.refreshes[r].settled
    case Resume(c) =>
      && c < |s.calls| && s.calls[c].answer.Waiting?
      && s.calls[c].answer.refresh < |s.refreshes| && s.refreshes[s.calls[c].answer.refresh].settled
    case Reset => true
  }

  predicate Fresh(token: Token, now: int) {
    token.expiresAt > now + TOKEN_REFRESH_MARGIN_MS
  }

  predicate HasFresh(s: State, key: string, now: int) {
    key in s.cached && Fresh(s.cached[key], now)
  }

  function PrepareStep(s: State, ids: Ids, now: int): State {
    var key := CacheKey(ids);
    if HasFresh(s, key, now) then s.(calls := s.calls + [Call(ids, now, FromCache(s.cached[key]))])
    else if key in s.inFlight then s.(calls := s.calls + [Call(ids, now, Waiting(s.inFlight[key]))])
    else
      var r := |s.refreshes|;
      State(s.cached, s.inFlight[key := r], s.refreshes + [Refresh(ids, Running, false)],
            s.calls + [Call(ids, now, Waiting(r))])
  }

  function ResumeAnswer(r: nat, outcome: Outcome): Answer
    requires !outcome.Running?
  {
    if outcome.Resolved? then Served(r, outcome.token) else Failed(r, outcome.error)
  }

  /** One turn; an event that is not enabled leaves the state alone. */
  function Next(s: State, e: Event): State {
    if !Enabled(s, e) then s
    else
      match e
      case Prepare(ids, now) => PrepareStep(s, ids, now)
      case AzSuccess(r, accessToken, expiresOn, now) =>
        var token := Token(accessToken, if expiresOn.Some? then expiresOn.value else now + DEFAULT_LIFETIME_MS);
        s.(cached := s.cached[CacheKey(s.refreshes[r].ids) := token],
        refreshes := s.refreshes[r := s.refreshes[r].(outcome := Resolved(token))])
      case AzFailure(r, error) =>
        s.(refreshes := s.refreshes[r := s.refreshes[r].(outcome := Rejected(error))])
      case Finally(r) =>
        s.(inFlight := s.inFlight - {CacheKey(s.refreshes[r].ids)},
        refreshes := s.refreshes[r := s.refreshes[r].(settled := true)])
      case Resume(c) =>
        var r := s.calls[c].answer.refresh;
        if s.refreshes[r].outcome.Running? then s
        else s.(calls := s.calls[c := s.calls[c].(answer := ResumeAnswer(r, s.refreshes[r].outcome))])
      case Reset => s.(cached := map[], inFlight := map[])
  }

  function Run(events: seq<Event>): State {
    if events == [] then INITIAL else Next(Run(events[..|events| - 1]), events[|events| - 1])
  }

  // ---------------------------------------------------------------- the implementation

  /** The module's two maps, with the refreshes started and the calls made so far. */
  class Runtime {
    var cachedTokens: map<string, Token>
    var refreshPromises: map<string, nat>
    var refreshes: seq<Refresh>
    var calls: seq<Call>

    function View(): State
      reads this
    {
      State(cachedTokens, refreshPromises, refreshes, calls)
    }

    constructor ()
      ensures View() == INITIAL
    {
      cachedTokens, refreshPromises, refreshes, calls := map[], map[], [], [];
    }

    /** The turn of prepareFoundryRuntimeAuth from the cache lookup to its first await. */
    method PrepareFoundryRuntimeAuth(ids: Ids, now: int) returns (c: nat)
      modifies this
      ensures View() == Next(old(View()), Prepare(ids, now))
      ensures c == |old(calls)| && c < |calls|
    {
      var cacheKey := CacheKey(ids);
      c := |calls|;
      if cacheKey in cachedTokens {
        var cachedToken := cachedTokens[cacheKey];
        if cachedToken.expiresAt > now + TOKEN_REFRESH_MARGIN_MS {
          calls := calls + [Call(ids, now, FromCache(cachedToken))];
          return;
        }
      }
      var refreshPromise: nat;
      if cacheKey in refreshPromises {
        refreshPromise := refreshPromises[cacheKey];
      } else {
        refreshPromise := |refreshes|;
        refreshes := refreshes + [Refresh(ids, Running, false)];
        refreshPromises := refreshPromises[cacheKey := refreshPromise];
      }
      calls := calls + [Call(ids, now, Waiting(refreshPromise))];
    }

    /** refreshEntraToken after its await: publish the token and resolve. */
    method RefreshEntraTokenResumes(r: nat, accessToken: string, expiresOn: Option<int>, now: int)
      requires Enabled(View(), AzSuccess(r, accessToken, expiresOn, now))
      modifies this
      ensures View() == Next(old(View()), AzSuccess(r, accessToken, expiresOn, now))
    {
      var expiresAt := if expiresOn.Some? then expiresOn.value else now + DEFAULT_LIFETIME_MS;
      cachedTokens := cachedTokens[CacheKey(refreshes[r].ids) := Token(accessToken, expiresAt)];
      refreshes := refreshes[r := refreshes[r].(outcome := Resolved(Token(accessToken, expiresAt)))];
    }

    method RefreshEntraTokenThrows(r: nat, error: string)
      requires Enabled(View(), AzFailure(r, error))
      modifies this`refreshes
      ensures View() == Next(old(View()), AzFailure(r, error))
    {
      refreshes := refreshes[r := refreshes[r].(outcome := Rejected(error))];
    }

    /** The `finally` callback: drop the key's in-flight entry, whichever refresh it names. */
    method FinallyCallback(r: nat)
      requires Enabled(View(), Finally(r))
      modifies this`refreshPromises, this`refreshes
      ensures View() == Next(old(View()), Finally(r))
    {
      refreshPromises := refreshPromises - {CacheKey(refreshes[r].ids)};
      refreshes := refreshes[r := refreshes[r].(settled := true)];
    }

    /** resetFoundryRuntimeAuthCaches */
    method ResetFoundryRuntimeAuthCaches()
      modifies this`cachedTokens, this`refreshPromises
      ensures View() == Next(old(View()), Reset)
    {
      cachedTokens := map[];
      refreshPromises := map[];
    }
  }

  // ---------------------------------------------------------------- the invariant

  ghost predicate Produced(s: State, key: string, token: Token) {
    exists r :: 0 <= r < |s.refreshes| && CacheKey(s.refreshes[r].ids) == key && s.refreshes[r].outcome == Resolved(token)
  }

  predicate RefreshOk(s: State, r: nat)
    requires r < |s.refreshes|
  {
    var refresh := s.refreshes[r];
    && (!refresh.settled ==> CacheKey(refresh.ids) in s.inFlight && s.inFlight[CacheKey(refresh.ids)] == r)
    && (refresh.settled ==> !refresh.outcome.Running?)
  }

  predicate EntryOk(s: State, key: string)
    requires key in s.inFlight
  {
    var r := s.inFlight[key];
    r < |s.refreshes| && CacheKey(s.refreshes[r].ids) == key && !s.refreshes[r].settled
  }

  /** The call joined a refresh for its own key, and holds exactly that refresh's outcome once it was resumed. */
  ghost predicate CallOk(s: State, call: Call) {
    match call.answer
    case FromCache(token) => Fresh(token, call.at) && Produced(s, CacheKey(call.ids), token)
    case Waiting(r) => r < |s.refreshes| && CacheKey(s.refreshes[r].ids) == CacheKey(call.ids)
    case Served(r, token) =>
      r < |s.refreshes| && CacheKey(s.refreshes[r].ids) == CacheKey(call.ids) && s.refreshes[r].outcome == Resolved(token)
    case Failed(r, error) =>
      r < |s.refreshes| && CacheKey(s.refreshes[r].ids) == CacheKey(call.ids) && s.refreshes[r].outcome == Rejected(error)
  }

  ghost predicate Inv(s: State) {
    && (forall r :: 0 <= r < |s.refreshes| ==> RefreshOk(s, r))
    && (forall key :: key in s.inFlight ==> EntryOk(s, key))
    && (forall key :: key in s.cached ==> Produced(s, key, s.cached[key]))
    && (forall c :: 0 <= c < |s.calls| ==> CallOk(s, s.calls[c]))
  }

  predicate AllSettled(s: State) {
    forall r :: 0 <= r < |s.refreshes| ==> s.refreshes[r].settled
  }

  /** A reset is safe while no refresh is in flight. */
  predicate SafeEvent(s: State, e: Event) {
    e.Reset? ==> AllSettled(s)
  }

  predicate SafeRun(events: seq<Event>) {
    events == [] || (SafeRun(events[..|events| - 1]) && SafeEvent(Run(events[..|events| - 1]), events[|events| - 1]))
  }

  /** Refreshes and given answers are never taken back. */
  ghost predicate Extends(s: State, t: State) {
    && |s.refreshes| <= |t.refreshes| && |s.calls| <= |t.calls|
    && (forall r :: 0 <= r < |s.refreshes| ==>
          && t.refreshes[r].ids == s.refreshes[r].ids
          && (!s.refreshes[r].outcome.Running? ==> t.refreshes[r].outcome == s.refreshes[r].outcome)
          && (s.refreshes[r].settled ==> t.refreshes[r].settled))
    && (forall c :: 0 <= c < |s.calls| ==>
          && t.calls[c].ids == s.calls[c].ids && t.calls[c].at == s.calls[c].at
          && (!s.calls[c].answer.Waiting? ==> t.calls[c] == s.calls[c])
          && (s.calls[c].answer.Waiting? ==>
                !t.calls[c].answer.FromCache? && t.calls[c].answer.refresh == s.calls[c].answer.refresh))
  }

  lemma NextExtends(s: State, e: Event)
    ensures Extends(s, Next(s, e))
  {
  }

  lemma ExtensionKeepsFacts(s: State, t: State)
    requires Extends(s, t)
    ensures forall key, token :: Produced(s, key, token) ==> Produced(t, key, token)
    ensures forall call :: CallOk(s, call) ==> CallOk(t, call)
  {
  }

  lemma NextKeepsCall(s: State, e: Event, c: nat)
    requires Inv(s) && c < |Next(s, e).calls|
    ensures CallOk(Next(s, e), Next(s, e).calls[c])
  {
    hide CacheKey, Produced;
    if c < |s.calls| {
      NextExtends(s, e);
      ExtensionKeepsFacts(s, Next(s, e));
      assert CallOk(Next(s, e), s.calls[c]);
    } else {
      NewCallOk(s, e.ids, e.now);
    }
  }

  lemma NewCallOk(s: State, ids: Ids, now: int)
    requires Inv(s)
    ensures CallOk(PrepareStep(s, ids, now), PrepareStep(s, ids, now).calls[|s.calls|])
  {
    var key, t := CacheKey(ids), PrepareStep(s, ids, now);
    if HasFresh(s, key, now) {
      assert Produced(s, key, s.cached[key]);
      assert Produced(t, key, s.cached[key]);
    } else if key in s.inFlight {
      assert EntryOk(s, key);
    }
  }

  lemma NextKeepsCache(s: State, e: Event)
    requires Inv(s)
    ensures forall key :: key in Next(s, e).cached ==> Produced(Next(s, e), key, Next(s, e).cached[key])
  {
    hide CacheKey;
    var t := Next(s, e);
    NextExtends(s, e);
    ExtensionKeepsFacts(s, t);
    if e.AzSuccess? && Enabled(s, e) {
      assert t.refreshes[e.r].outcome.Resolved?;
    }
  }

  /** The token cache changes only when a token arrives, and then only at the key of its refresh, or in a reset. */
  lemma OnlyArrivingTokensChangeCache(s: State, e: Event, key: string)
    ensures !e.AzSuccess? && !e.Reset? ==> Next(s, e).cached == s.cached
    ensures e.AzSuccess? && e.r < |s.refreshes| && key != CacheKey(s.refreshes[e.r].ids) ==>
              (key in Next(s, e).cached <==> key in s.cached)
              && (key in s.cached ==> Next(s, e).cached[key] == s.cached[key])
  {
  }

  /** Every safe turn keeps the invariant. The `finally` callback deletes by key, yet never a newer entry. */
  lemma NextKeepsInv(s: State, e: Event)
    requires Inv(s) && SafeEvent(s, e)
    ensures Inv(Next(s, e))
  {
    var t := Next(s, e);
    NextKeepsCache(s, e);
    forall c | 0 <= c < |t.calls| ensures CallOk(t, t.calls[c]) {
      NextKeepsCall(s, e, c);
    }
    forall r | 0 <= r < |t.refreshes| ensures RefreshOk(t, r) {
      NextKeepsRefresh(s, e, r);
    }
    forall key | key in t.inFlight ensures EntryOk(t, key) {
      NextKeepsEntry(s, e, key);
    }
  }

  lemma NextKeepsRefresh(s: State, e: Event, r: nat)
    requires Inv(s) && SafeEvent(s, e) && r < |Next(s, e).refreshes|
    ensures RefreshOk(Next(s, e), r)
  {
    hide CacheKey;
    if r < |s.refreshes| {
      assert RefreshOk(s, r);
      if e.Finally? && Enabled(s, e) {
        assert RefreshOk(s, e.r);
      }
    }
  }

  lemma NextKeepsEntry(s: State, e: Event, key: string)
    requires Inv(s) && SafeEvent(s, e) && key in Next(s, e).inFlight
    ensures EntryOk(Next(s, e), key)
  {
    hide CacheKey;
    if key in s.inFlight {
      assert EntryOk(s, key);
      if e.Finally? && Enabled(s, e) {
        assert RefreshOk(s, e.r);
      }
    }
  }

  lemma {:induction false} RunKeepsInv(events: seq<Event>)
    requires SafeRun(events)
    ensures Inv(Run(events))
  {
    if events != [] {
      RunKeepsInv(events[..|events| - 1]);
      NextKeepsInv(Run(events[..|events| - 1]), events[|events| - 1]);
    }
  }

  // ---------------------------------------------------------------- main results

  ghost predicate SingleFlight(s: State) {
    forall q, r :: 0 <= q < r < |s.refreshes| && !s.refreshes[q].settled && !s.refreshes[r].settled ==>
      CacheKey(s.refreshes[q].ids) != CacheKey(s.refreshes[r].ids)
  }

  lemma InvIsSingleFlight(s: State)
    requires Inv(s)
    ensures SingleFlight(s)
  {
    forall q, r | 0 <= q < r < |s.refreshes| && !s.refreshes[q].settled && !s.refreshes[r].settled
      ensures CacheKey(s.refreshes[q].ids) != CacheKey(s.refreshes[r].ids)
    {
      assert RefreshOk(s, q) && RefreshOk(s, r);
    }
  }

  /** In every interleaving without an unsafe reset: at most one unsettled refresh per key, each with its in-flight
      entry, and no in-flight entry without its unsettled refresh. */
  lemma SingleFlightAlways(events: seq<Event>)
    requires SafeRun(events)
    ensures SingleFlight(Run(events))
    ensures forall r :: 0 <= r < |Run(events).refreshes| ==>
              var key := CacheKey(Run(events).refreshes[r].ids);
              !Run(events).refreshes[r].settled <==> key in Run(events).inFlight && Run(events).inFlight[key] == r
    ensures forall r :: 0 <= r < |Run(events).refreshes| && Run(events).refreshes[r].outcome.Running? ==>
              !Run(events).refreshes[r].settled
    ensures Run(events).inFlight == map[] <==> AllSettled(Run(events))
  {
    var s := Run(events);
    RunKeepsInv(events);
    InvIsSingleFlight(s);
    forall r | 0 <= r < |s.refreshes|
      ensures RefreshOk(s, r) && (CacheKey(s.refreshes[r].ids) in s.inFlight ==> EntryOk(s, CacheKey(s.refreshes[r].ids)))
    {
    }
    assert forall key :: key in s.inFlight ==> EntryOk(s, key);
  }

  /** The answer a call has been given, if any: a token for its own key, fresh when it came from the cache. */
  ghost predicate AnsweredProperly(s: State, call: Call) {
    match call.answer
    case FromCache(token) =>
      && token.expiresAt > call.at + TOKEN_REFRESH_MARGIN_MS
      && exists r :: 0 <= r < |s.refreshes| && SameIds(s.refreshes[r].ids, call.ids) && s.refreshes[r].outcome == Resolved(token)
    case Waiting(_) => true
    case Served(r, token) => r < |s.refreshes| && SameIds(s.refreshes[r].ids, call.ids) && s.refreshes[r].outcome == Resolved(token)
    case Failed(r, error) => r < |s.refreshes| && SameIds(s.refreshes[r].ids, call.ids) && s.refreshes[r].outcome == Rejected(error)
  }

  /** With colon-free ids every token or error handed to a caller came from a refresh for the caller's own
      subscription and tenant. */
  lemma AnswersComeFromOwnIds(events: seq<Event>, c: nat)
    requires SafeRun(events) && c < |Run(events).calls| && ColonFree(Run(events).calls[c].ids)
    ensures AnsweredProperly(Run(events), Run(events).calls[c])
  {
    var s := Run(events);
    var call := s.calls[c];
    RunKeepsInv(events);
    assert CallOk(s, call);
    if call.answer.FromCache? {
      var r :| 0 <= r < |s.refreshes| && CacheKey(s.refreshes[r].ids) == CacheKey(call.ids)
               && s.refreshes[r].outcome == Resolved(call.answer.token);
      SameKeySameIds(s.refreshes[r].ids, call.ids);
    } else {
      SameKeySameIds(s.refreshes[call.answer.refresh].ids, call.ids);
    }
  }

  /** A call that is answered from the cache is answered in its own turn, and its answer stays. */
  lemma NextAnswersFresh(s: State, e: Event, c: nat)
    requires c < |Next(s, e).calls| && Next(s, e).calls[c].answer.FromCache?
    ensures c < |s.calls| ==> s.calls[c] == Next(s, e).calls[c]
    ensures c >= |s.calls| ==> Fresh(Next(s, e).calls[c].answer.token, Next(s, e).calls[c].at)
  {
  }

  /** In every run, with colons in ids and with resets at any time, a token from the cache had more than five minutes
      left when it was handed out. */
  lemma {:induction false} CachedAnswersAreFresh(events: seq<Event>, c: nat)
    requires c < |Run(events).calls| && Run(events).calls[c].answer.FromCache?
    ensures Run(events).calls[c].answer.token.expiresAt > Run(events).calls[c].at + TOKEN_REFRESH_MARGIN_MS
  {
    hide Next;
    if events != [] {
      var before := Run(events[..|events| - 1]);
      NextAnswersFresh(before, events[|events| - 1], c);
      if c < |before.calls| {
        CachedAnswersAreFresh(events[..|events| - 1], c);
      }
    }
  }

  lemma ExtendsTransitive(s: State, t: State, u: State)
    requires Extends(s, t) && Extends(t, u)
    ensures Extends(s, u)
  {
  }

  lemma {:induction false} RunExtends(events: seq<Event>, n: nat)
    requires n <= |events|
    ensures Extends(Run(events[..n]), Run(events))
    decreases |events| - n
  {
    if n == |events| {
      assert events[..n] == events;
    } else {
      RunExtends(events, n + 1);
      assert events[..n + 1][..n] == events[..n];
      NextExtends(Run(events[..n]), events[n]);
      ExtendsTransitive(Run(events[..n]), Run(events[..n + 1]), Run(events));
    }
  }

  /** A caller that joined a refresh gets that refresh's outcome: whatever happens later, it is still waiting for the
      same refresh or holds its token or its error. */
  lemma WaiterGetsJoinedOutcome(events: seq<Event>, n: nat, c: nat, r: nat)
    requires SafeRun(events) && n <= |events|
    requires c < |Run(events[..n]).calls| && Run(events[..n]).calls[c].answer == Waiting(r)
    ensures c < |Run(events).calls| && r < |Run(events).refreshes|
    ensures match Run(events).calls[c].answer
            case FromCache(_) => false
            case Waiting(q) => q == r
            case Served(q, token) => q == r && Run(events).refreshes[r].outcome == Resolved(token)
            case Failed(q, error) => q == r && Run(events).refreshes[r].outcome == Rejected(error)
  {
    RunKeepsInv(events);
    RunExtends(events, n);
    assert CallOk(Run(events), Run(events).calls[c]);
  }

  /** When neither az nor a `finally` callback has anything left to do, the in-flight table is empty and every waiting
      caller can be resumed. */
  lemma NoCallerIsStranded(events: seq<Event>)
    requires SafeRun(events)
    requires forall r :: 0 <= r < |Run(events).refreshes| ==>
               !Run(events).refreshes[r].outcome.Running? && !Enabled(Run(events), Finally(r))
    ensures Run(events).inFlight == map[]
    ensures forall c :: 0 <= c < |Run(events).calls| && Run(events).calls[c].answer.Waiting? ==> Enabled(Run(events), Resume(c))
  {
    var s := Run(events);
    RunKeepsInv(events);
    SingleFlightAlways(events);
    assert AllSettled(s) by {
      forall r | 0 <= r < |s.refreshes| ensures s.refreshes[r].settled {
        assert !Enabled(s, Finally(r));
      }
    }
    forall c | 0 <= c < |s.calls| && s.calls[c].answer.Waiting? ensures Enabled(s, Resume(c)) {
      assert CallOk(s, s.calls[c]);
    }
  }

  /** Every refresh of the key has run its `finally`. */
  predicate KeyIsIdle(s: State, key: string) {
    forall r :: 0 <= r < |s.refreshes| && CacheKey(s.refreshes[r].ids) == key ==> s.refreshes[r].settled
  }

  predicate StartsRefresh(s: State, ids: Ids, now: int) {
    Next(s, Prepare(ids, now)).refreshes == s.refreshes + [Refresh(ids, Running, false)]
  }

  /** The call joins unsettled refresh q of its own key and starts none. */
  predicate Joins(s: State, ids: Ids, now: int, q: nat) {
    && q < |s.refreshes| && CacheKey(s.refreshes[q].ids) == CacheKey(ids) && !s.refreshes[q].settled
    && Next(s, Prepare(ids, now)) == s.(calls := s.calls + [Call(ids, now, Waiting(q))])
  }

  lemma IdleKeyHasNoEntry(s: State, key: string)
    requires Inv(s)
    ensures KeyIsIdle(s, key) <==> key !in s.inFlight
  {
    if key in s.inFlight {
      assert EntryOk(s, key);
    } else {
      forall r | 0 <= r < |s.refreshes| && CacheKey(s.refreshes[r].ids) == key ensures s.refreshes[r].settled {
        assert RefreshOk(s, r);
      }
    }
  }

  /** At any point of any safe run, a call that finds no fresh token starts a refresh of its own if and only if every
      earlier refresh of its key is settled; otherwise it joins the one that is not. */
  lemma RefreshStartsExactlyWhenKeyIsIdle(events: seq<Event>, ids: Ids, now: int)
    requires SafeRun(events) && !HasFresh(Run(events), CacheKey(ids), now)
    ensures StartsRefresh(Run(events), ids, now) <==> KeyIsIdle(Run(events), CacheKey(ids))
    ensures !KeyIsIdle(Run(events), CacheKey(ids)) ==> exists q: nat :: Joins(Run(events), ids, now, q)
  {
    var s, key := Run(events), CacheKey(ids);
    RunKeepsInv(events);
    IdleKeyHasNoEntry(s, key);
    if key in s.inFlight {
      assert EntryOk(s, key);
      assert Joins(s, ids, now, s.inFlight[key]);
      assert |Next(s, Prepare(ids, now)).refreshes| == |s.refreshes|;
    }
  }

  /** The event may change the cached token of the key: a token arrives for it, or both maps are cleared. */
  predicate Touches(s: State, e: Event, key: string) {
    || e.Reset?
    || (e.AzSuccess? && e.r < |s.refreshes| && s.refreshes[e.r].outcome.Running? && CacheKey(s.refreshes[e.r].ids) == key)
  }

  lemma UntouchedStays(s: State, e: Event, key: string)
    requires !Touches(s, e, key)
    ensures key in Next(s, e).cached <==> key in s.cached
    ensures key in s.cached ==> Next(s, e).cached[key] == s.cached[key]
  {
    hide CacheKey;
    OnlyArrivingTokensChangeCache(s, e, key);
  }

  /** From one point of a run to its end the cached token of a key is unchanged, unless in between a token arrived for
      that very key or the maps were cleared; failures, cleanups, calls and tokens for other keys leave it alone. */
  lemma {:induction false} CachedTokenStays(events: seq<Event>, n: nat, key: string)
    requires n <= |events|
    requires forall m :: n <= m < |events| ==> !Touches(Run(events[..m]), events[m], key)
    ensures key in Run(events).cached <==> key in Run(events[..n]).cached
    ensures key in Run(events).cached ==> Run(events).cached[key] == Run(events[..n]).cached[key]
    decreases |events|
  {
    hide Touches, Next;
    if n == |events| {
      assert events[..n] == events;
    } else {
      var init := events[..|events| - 1];
      assert forall m :: 0 <= m <= |init| ==> init[..m] == events[..m];
      CachedTokenStays(init, n, key);
      assert !Touches(Run(events[..|events| - 1]), events[|events| - 1], key);
      UntouchedStays(Run(init), events[|events| - 1], key);
    }
  }

  // ---------------------------------------------------------------- what az answered

  /** The token that az's answer to a refresh stands for: 55 minutes from now if it has no expiry of its own. */
  function AzToken(e: Event): Token
    requires e.AzSuccess?
  {
    Token(e.accessToken, if e.expiresOn.Some? then e.expiresOn.value else e.now + 3_300_000)
  }

  /** At step m az answers refresh r, which was still running, with the token. */
  ghost predicate ArrivedAt(events: seq<Event>, m: nat, r: nat, token: Token) {
    && m < |events| && events[m].AzSuccess? && events[m].r == r && AzToken(events[m]) == token
    && r < |Run(events[..m]).refreshes| && Run(events[..m]).refreshes[r].outcome.Running?
  }

  /** Step m is the last one that touches the cached token of the key, and it is the arrival of the token for it. */
  ghost predicate LastArrival(events: seq<Event>, m: nat, key: string, token: Token) {
    && m < |events| && events[m].AzSuccess? && AzToken(events[m]) == token
    && Touches(Run(events[..m]), events[m], key)
    && forall k :: m < k < |events| ==> !Touches(Run(events[..k]), events[k], key)
  }

  lemma TouchedCache(s: State, e: Event, key: string)
    requires Touches(s, e, key)
    ensures key in Next(s, e).cached <==> e.AzSuccess?
    ensures e.AzSuccess? ==> Next(s, e).cached[key] == AzToken(e)
  {
    hide CacheKey;
  }

  lemma TouchedLast(events: seq<Event>, e: Event, key: string, token: Token)
    requires Touches(Run(events), e, key)
    ensures forall m: nat :: LastArrival(events + [e], m, key, token) <==> m == |events| && e.AzSuccess? && AzToken(e) == token
  {
    hide Run, Touches, AzToken;
    assert (events + [e])[..|events|] == events;
  }

  lemma UntouchedLast(events: seq<Event>, e: Event, key: string, token: Token)
    requires !Touches(Run(events), e, key)
    ensures forall m: nat :: LastArrival(events + [e], m, key, token) <==> LastArrival(events, m, key, token)
  {
    hide Run, Touches, AzToken;
    var longer := events + [e];
    assert longer[..|events|] == events;
    assert forall m :: 0 <= m <= |events| ==> longer[..m] == events[..m];
  }

  /** In every run the cached token of a key is the one that arrived last for it, unless a reset came after. */
  lemma {:induction false} CachedIsLastArrival(events: seq<Event>, key: string, token: Token)
    ensures key in Run(events).cached && Run(events).cached[key] == token <==> exists m: nat :: LastArrival(events, m, key, token)
  {
    if events != [] {
      var init, e := events[..|events| - 1], events[|events| - 1];
      CachedIsLastArrival(init, key, token);
      LastStep(init, e, key, token);
      assert events == init + [e];
    }
  }

  lemma LastStep(events: seq<Event>, e: Event, key: string, token: Token)
    requires key in Run(events).cached && Run(events).cached[key] == token <==> exists m: nat :: LastArrival(events, m, key, token)
    ensures var cached := Next(Run(events), e).cached;
      key in cached && cached[key] == token <==> exists m: nat :: LastArrival(events + [e], m, key, token)
  {
    hide Run, Next, Touches, AzToken, LastArrival;
    if Touches(Run(events), e, key) {
      TouchedCache(Run(events), e, key);
      TouchedLast(events, e, key, token);
      assert LastArrival(events + [e], |events|, key, token) <==> e.AzSuccess? && AzToken(e) == token;
    } else {
      UntouchedStays(Run(events), e, key);
      UntouchedLast(events, e, key, token);
    }
  }

  /** At any point of any run a call is answered from the cache exactly when the last token that arrived for its key has
      more than five minutes left; otherwise it waits. */
  lemma CallIsAnsweredFromCacheExactlyWhen(events: seq<Event>, ids: Ids, now: int, token: Token)
    ensures var s, t := Run(events), Next(Run(events), Prepare(ids, now));
      && |t.calls| == |s.calls| + 1 && t.calls[..|s.calls|] == s.calls
      && t.calls[|s.calls|].ids == ids && t.calls[|s.calls|].at == now
      && (t.calls[|s.calls|].answer == FromCache(token) <==>
            token.expiresAt > now + 300_000 && exists m: nat :: LastArrival(events, m, CacheKey(ids), token))
      && (t.calls[|s.calls|].answer.FromCache? || t.calls[|s.calls|].answer.Waiting?)
  {
    hide Run, LastArrival, CacheKey;
    CachedIsLastArrival(events, CacheKey(ids), token);
  }

  lemma NextResolves(s: State, e: Event, r: nat)
    requires r < |Next(s, e).refreshes| && Next(s, e).refreshes[r].outcome.Resolved?
    ensures r < |s.refreshes|
    ensures Next(s, e).refreshes[r].outcome == s.refreshes[r].outcome ||
            (e.AzSuccess? && e.r == r && s.refreshes[r].outcome.Running? && Next(s, e).refreshes[r].outcome.token == AzToken(e))
  {
  }

  /** A resolved refresh was answered by az with its very token. */
  lemma {:induction false} ResolvedByAz(events: seq<Event>, r: nat)
    requires r < |Run(events).refreshes| && Run(events).refreshes[r].outcome.Resolved?
    ensures exists m: nat :: ArrivedAt(events, m, r, Run(events).refreshes[r].outcome.token)
  {
    hide Next;
    var n := |events| - 1;
    var init, token := events[..n], Run(events).refreshes[r].outcome.token;
    NextResolves(Run(init), events[n], r);
    if Run(init).refreshes[r].outcome == Resolved(token) {
      ResolvedByAz(init, r);
      var m: nat :| ArrivedAt(init, m, r, token);
      assert init[..m] == events[..m];
      assert ArrivedAt(events, m, r, token);
    } else {
      assert ArrivedAt(events, n, r, token);
    }
  }

  /** A token handed to a call, from the cache or after waiting. */
  function TokenOf(answer: Answer): Option<Token> {
    match answer
    case FromCache(token) => Some(token)
    case Served(_, token) => Some(token)
    case _ => None
  }

  /** Every token handed to a caller is one that az answered earlier in the run, with az's expiry or 55 minutes, for a
      refresh of the caller's key. */
  lemma AnswersComeFromAz(events: seq<Event>, c: nat)
    requires SafeRun(events) && c < |Run(events).calls| && TokenOf(Run(events).calls[c].answer).Some?
    ensures exists m: nat, r: nat :: r < |Run(events).refreshes|
              && ArrivedAt(events, m, r, TokenOf(Run(events).calls[c].answer).value)
              && CacheKey(Run(events).refreshes[r].ids) == CacheKey(Run(events).calls[c].ids)
  {
    hide Run, SafeRun, CacheKey, ArrivedAt;
    var s := Run(events);
    var call := s.calls[c];
    RunKeepsInv(events);
    assert CallOk(s, call);
    var r: nat;
    if call.answer.FromCache? {
      r :| 0 <= r < |s.refreshes| && CacheKey(s.refreshes[r].ids) == CacheKey(call.ids)
           && s.refreshes[r].outcome == Resolved(call.answer.token);
    } else {
      r := call.answer.refresh;
    }
    ResolvedByAz(events, r);
  }

  /** A waiting call whose refresh has an answer gets it: once the cleanup has run, the call can be resumed, and it then
      holds the refresh's token or its error. */
  lemma WaiterIsAnswered(events: seq<Event>, c: nat, r: nat)
    requires SafeRun(events) && c < |Run(events).calls| && Run(events).calls[c].answer == Waiting(r)
    requires r < |Run(events).refreshes| && !Run(events).refreshes[r].outcome.Running?
    ensures var settled, outcome := Next(Run(events), Finally(r)), Run(events).refreshes[r].outcome;
      && settled.refreshes[r].settled && settled.cached == Run(events).cached
      && Next(settled, Resume(c)).calls[c].answer
         == if outcome.Resolved? then Served(r, outcome.token) else Failed(r, outcome.error)
  {
    hide Run, SafeRun, CacheKey;
    RunKeepsInv(events);
  }

  /** az's answer to a running refresh reaches the cache and every call that waits for it: from any point of any safe run
      the answer, the cleanup and the resumption of the call give it exactly that token, or that error. */
  lemma AzAnswerReachesWaiter(events: seq<Event>, c: nat, e: Event)
    requires SafeRun(events) && c < |Run(events).calls| && (e.AzSuccess? || e.AzFailure?)
    requires Run(events).calls[c].answer == Waiting(e.r)
    requires e.r < |Run(events).refreshes| && Run(events).refreshes[e.r].outcome.Running?
    ensures var key, answered := CacheKey(Run(events).calls[c].ids), Next(Run(events), e);
      var done := Next(Next(answered, Finally(e.r)), Resume(c));
      && key !in done.inFlight
      && (e.AzSuccess? ==> done.calls[c].answer == Served(e.r, AzToken(e)) && key in done.cached && done.cached[key] == AzToken(e))
      && (e.AzFailure? ==> done.calls[c].answer == Failed(e.r, e.error) && done.cached == Run(events).cached)
  {
    hide Run, SafeRun, CacheKey;
    var s := Run(events);
    RunKeepsInv(events);
    assert CallOk(s, s.calls[c]);
    assert RefreshOk(s, e.r);
  }

  lemma {:induction false} SafePrefix(events: seq<Event>, n: nat)
    requires SafeRun(events) && n <= |events|
    ensures SafeRun(events[..n])
    decreases |events|
  {
    if n == |events| {
      assert events[..n] == events;
    } else {
      assert events[..|events| - 1][..n] == events[..n];
      SafePrefix(events[..|events| - 1], n);
    }
  }

  /** Refresh r of the key failed, and all that is still in flight for the key was started after it. */
  ghost predicate FailedForGood(s: State, r: nat, error: string) {
    && r < |s.refreshes| && s.refreshes[r].outcome == Rejected(error)
    && (!s.refreshes[r].settled ==> Enabled(s, Finally(r)))
    && (s.refreshes[r].settled ==>
          forall q :: 0 <= q <= r && CacheKey(s.refreshes[q].ids) == CacheKey(s.refreshes[r].ids) ==> s.refreshes[q].settled)
  }

  /** A failure at step n of a safe run leaves the token cache unchanged, and whatever happens after it, the failed
      refresh either still has its `finally` to run or no longer holds its key: only a newer refresh can. */
  lemma FailureFreesKey(events: seq<Event>, n: nat, r: nat, error: string)
    requires SafeRun(events) && n < |events| && events[n] == AzFailure(r, error) && Enabled(Run(events[..n]), events[n])
    ensures Run(events[..n + 1]).cached == Run(events[..n]).cached
    ensures FailedForGood(Run(events), r, error)
  {
    hide Run, Next, CacheKey, SafeRun, Enabled;
    var before := Run(events[..n]);
    RunOneMore(events, n);
    FailureStep(before, r, error);
    SafePrefix(events, n);
    RunKeepsInv(events[..n]);
    RunExtends(events, n);
    RunExtends(events, n + 1);
    assert RefreshOk(before, r);
    OlderAreSettled(before, Run(events), r);
    FinallyIsEnabled(Run(events), r);
  }

  lemma RunOneMore(events: seq<Event>, n: nat)
    requires n < |events|
    ensures Run(events[..n + 1]) == Next(Run(events[..n]), events[n])
  {
    assert events[..n + 1][..n] == events[..n];
  }

  lemma FailureStep(s: State, r: nat, error: string)
    requires Enabled(s, AzFailure(r, error))
    ensures r < |s.refreshes| && s.refreshes[r].outcome.Running?
    ensures Next(s, AzFailure(r, error)) == s.(refreshes := s.refreshes[r := s.refreshes[r].(outcome := Rejected(error))])
  {
  }

  lemma FinallyIsEnabled(s: State, r: nat)
    requires r < |s.refreshes| && !s.refreshes[r].outcome.Running?
    ensures Enabled(s, Finally(r)) <==> !s.refreshes[r].settled
  {
  }

  /** While r is unsettled every older refresh of its key is settled, and stays so. */
  lemma OlderAreSettled(before: State, s: State, r: nat)
    requires Inv(before) && Extends(before, s) && r < |before.refreshes| && !before.refreshes[r].settled
    ensures forall q :: 0 <= q < r && CacheKey(s.refreshes[q].ids) == CacheKey(s.refreshes[r].ids) ==> s.refreshes[q].settled
  {
    InvIsSingleFlight(before);
    forall q | 0 <= q < r && CacheKey(s.refreshes[q].ids) == CacheKey(s.refreshes[r].ids) ensures s.refreshes[q].settled {
      assert before.refreshes[q].settled;
    }
  }

  /** A key whose refresh failed can be refreshed again: at any later point of the run at which the failed refresh is
      settled, a call for the key that finds no fresh token starts a refresh or joins one started after the failure. */
  lemma FailureAllowsRetry(events: seq<Event>, n: nat, r: nat, error: string, ids: Ids, now: int)
    requires SafeRun(events) && n < |events| && events[n] == AzFailure(r, error) && Enabled(Run(events[..n]), events[n])
    requires r < |Run(events).refreshes| && Run(events).refreshes[r].settled
    requires CacheKey(ids) == CacheKey(Run(events).refreshes[r].ids) && !HasFresh(Run(events), CacheKey(ids), now)
    ensures StartsRefresh(Run(events), ids, now) || exists q: nat :: q > r && Joins(Run(events), ids, now, q)
  {
    hide Next, Run, Enabled, HasFresh;
    FailureFreesKey(events, n, r, error);
    RefreshStartsExactlyWhenKeyIsIdle(events, ids, now);
    if !KeyIsIdle(Run(events), CacheKey(ids)) {
      var q: nat :| Joins(Run(events), ids, now, q);
      assert q > r;
    }
  }

  // ---------------------------------------------------------------- resets

  ghost predicate ResetThenPrepareIsSafe(s: State) {
    forall ids, now :: SingleFlight(Next(Next(s, Reset), Prepare(ids, now)))
  }

  /** Clearing both maps is harmless exactly while no refresh is in flight; otherwise one more call starts a second
      refresh for the same key. */
  lemma ResetIsSafeExactlyWhenIdle(s: State)
    requires Inv(s)
    ensures ResetThenPrepareIsSafe(s) <==> AllSettled(s)
  {
    if AllSettled(s) {
      forall ids, now ensures SingleFlight(Next(Next(s, Reset), Prepare(ids, now))) {
        NextKeepsInv(s, Reset);
        NextKeepsInv(Next(s, Reset), Prepare(ids, now));
        InvIsSingleFlight(Next(Next(s, Reset), Prepare(ids, now)));
      }
    } else {
      var r :| 0 <= r < |s.refreshes| && !s.refreshes[r].settled;
      var ids := s.refreshes[r].ids;
      var t := Next(Next(s, Reset), Prepare(ids, 0));
      assert t.refreshes == s.refreshes + [Refresh(ids, Running, false)];
      assert !t.refreshes[r].settled && !t.refreshes[|s.refreshes|].settled;
      assert !SingleFlight(t);
    }
  }
}
