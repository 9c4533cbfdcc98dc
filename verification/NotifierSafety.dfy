/** What the notifier promises over whole runs of ticks and commands. */
module NotifierSafety {
  import opened Text
  import opened NotifyStore
  import opened Notifier

  // ---------------------------------------------------------------- the sends of one tick

  /** The subscribers that were sent to for a request id, in order. */
  function Recipients(log: seq<Attempt>, id: string): seq<Subscription> {
    if log == [] then []
    else
      var before, last := Recipients(log[..|log| - 1], id), log[|log| - 1];
      if last.request.requestId == id then before + [last.subscriber] else before
  }

  const ONE_DAY_MS := 86_400_000

  /** Who is to be told of a request: every persistent subscriber, and a one-shot when the request's timestamp is a
      number of at least one millisecond and of at least the time of the arming. */
  predicate IsDue(s: Subscription, r: PendingRequest) {
    s.mode == Persistent || (r.ts.Some? && r.ts.value >= 1.0 && r.ts.value >= s.addedAtMs as real)
  }

  lemma DueExactly(s: Subscription, r: PendingRequest)
    ensures ShouldNotify(s, r) <==> IsDue(s, r)
  {
    if r.ts.Some? {
      TruncMeans(r.ts.value);
    }
  }

  function Eligible(subscribers: seq<Subscription>, r: PendingRequest): seq<Subscription> {
    if subscribers == [] then []
    else
      var before, s := Eligible(subscribers[..|subscribers| - 1], r), subscribers[|subscribers| - 1];
      if IsDue(s, r) then before + [s] else before
  }

  ghost predicate SentFor(log: seq<Attempt>, id: string) {
    exists a :: a in log && a.sent && a.request.requestId == id
  }

  ghost predicate AttemptedFor(log: seq<Attempt>, id: string) {
    exists a :: a in log && a.request.requestId == id
  }

  lemma RecipientsOfOther(log: seq<Attempt>, id: string)
    requires forall a <- log :: a.request.requestId != id
    ensures Recipients(log, id) == []
  {
  }

  lemma {:induction false} RecipientsConcat(a: seq<Attempt>, b: seq<Attempt>, id: string)
    ensures Recipients(a + b, id) == Recipients(a, id) + Recipients(b, id)
  {
    if b == [] {
      assert a + b == a;
    } else {
      RecipientsConcat(a, b[..|b| - 1], id);
      assert (a + b)[..|a + b| - 1] == a + b[..|b| - 1];
    }
  }

  /** The sends for one request, each to an eligible subscriber and each with the outcome of its position. */
  ghost predicate DeliveredLog(sends: seq<Attempt>, subscribers: seq<Subscription>, r: PendingRequest, outcome: nat -> bool, base: nat) {
    && (forall k :: 0 <= k < |sends| ==> sends[k].request == r && sends[k].sent == outcome(base + k))
    && (forall k :: 0 <= k < |sends| ==> sends[k].subscriber in subscribers && IsDue(sends[k].subscriber, r))
  }

  lemma {:induction false} DeliverLogs(subscribers: seq<Subscription>, r: PendingRequest, outcome: nat -> bool, base: nat)
    ensures DeliveredLog(Deliver(subscribers, r, outcome, base), subscribers, r, outcome, base)
  {
    hide IsDue, ShouldNotify;
    if subscribers != [] {
      var init := subscribers[..|subscribers| - 1];
      DeliverLogs(init, r, outcome, base);
      DueExactly(subscribers[|subscribers| - 1], r);
      assert forall x <- init :: x in subscribers;
    }
  }

  lemma {:induction false} DeliverReaches(subscribers: seq<Subscription>, r: PendingRequest, outcome: nat -> bool, base: nat)
    ensures Recipients(Deliver(subscribers, r, outcome, base), r.requestId) == Eligible(subscribers, r)
  {
    hide IsDue, ShouldNotify;
    if subscribers != [] {
      var init, s := subscribers[..|subscribers| - 1], subscribers[|subscribers| - 1];
      DeliverReaches(init, r, outcome, base);
      DueExactly(s, r);
      if IsDue(s, r) {
        RecipientsSnoc(Deliver(init, r, outcome, base), Attempt(s, r, outcome(base + |Deliver(init, r, outcome, base)|)));
      }
    }
  }

  lemma RecipientsSnoc(log: seq<Attempt>, a: Attempt)
    ensures Recipients(log + [a], a.request.requestId) == Recipients(log, a.request.requestId) + [a.subscriber]
  {
    assert (log + [a])[..|log|] == log;
  }

  /** One request is offered to exactly the eligible subscribers, once each and in order. */
  lemma DeliverFacts(subscribers: seq<Subscription>, r: PendingRequest, outcome: nat -> bool, base: nat)
    ensures var sends := Deliver(subscribers, r, outcome, base);
      Recipients(sends, r.requestId) == Eligible(subscribers, r) && DeliveredLog(sends, subscribers, r, outcome, base)
  {
    DeliverReaches(subscribers, r, outcome, base);
    DeliverLogs(subscribers, r, outcome, base);
  }

  /** A send of a tick: to an eligible subscriber, for a pending request not recorded when the deliveries began. */
  predicate ProperSend(a: Attempt, subscribers: seq<Subscription>, notified: map<string, int>, pending: seq<PendingRequest>) {
    && a.request in pending && !Seen(notified, a.request.requestId)
    && a.subscriber in subscribers && IsDue(a.subscriber, a.request)
  }

  ghost predicate ProperLog(log: seq<Attempt>, subscribers: seq<Subscription>, notified: map<string, int>,
                            pending: seq<PendingRequest>, outcome: nat -> bool)
  {
    && (forall k :: 0 <= k < |log| ==> ProperSend(log[k], subscribers, notified, pending))
    && (forall k :: 0 <= k < |log| ==> log[k].sent == outcome(k))
  }

  /** Every send of a tick is proper, and the k-th takes the k-th outcome. */
  lemma {:induction false} SweepSends(subscribers: seq<Subscription>, notified: map<string, int>, pending: seq<PendingRequest>,
                                      now: int, outcome: nat -> bool)
    ensures ProperLog(Sweep(subscribers, notified, pending, now, outcome).log, subscribers, notified, pending, outcome)
  {
    if pending != [] {
      var init, r := pending[..|pending| - 1], pending[|pending| - 1];
      SweepSends(subscribers, notified, init, now, outcome);
      var p := Sweep(subscribers, notified, init, now, outcome);
      SweepRecords(subscribers, notified, init, now, outcome, r.requestId);
      SentIsAttempted(p.log, r.requestId);
      assert Seen(notified, r.requestId) ==> Seen(p.notified, r.requestId);
      var sends := Deliver(subscribers, r, outcome, |p.log|);
      DeliverFacts(subscribers, r, outcome, |p.log|);
      var log := Sweep(subscribers, notified, pending, now, outcome).log;
      forall k | 0 <= k < |log| ensures log[k].sent == outcome(k) && ProperSend(log[k], subscribers, notified, pending) {
        if k < |p.log| {
          assert log[k] == p.log[k] && ProperSend(p.log[k], subscribers, notified, init);
        } else {
          assert log[k] == sends[k - |p.log|];
        }
      }
    }
  }

  /** The record of an id changes exactly when a send for it succeeded, and then to the time of the tick. */
  lemma {:induction false} SweepRecords(subscribers: seq<Subscription>, notified: map<string, int>, pending: seq<PendingRequest>,
                                        now: int, outcome: nat -> bool, id: string)
    ensures var p := Sweep(subscribers, notified, pending, now, outcome);
      && (SentFor(p.log, id) ==> id in p.notified && p.notified[id] == now)
      && (!SentFor(p.log, id) ==> (id in p.notified <==> id in notified) && (id in notified ==> p.notified[id] == notified[id]))
      && (Seen(notified, id) ==> !AttemptedFor(p.log, id))
  {
    if pending != [] {
      var init, r := pending[..|pending| - 1], pending[|pending| - 1];
      SweepRecords(subscribers, notified, init, now, outcome, id);
      var p := Sweep(subscribers, notified, init, now, outcome);
      if !Seen(p.notified, r.requestId) {
        var sends := Deliver(subscribers, r, outcome, |p.log|);
        DeliverFacts(subscribers, r, outcome, |p.log|);
        if r.requestId == id && AnySent(sends) {
          var i :| 0 <= i < |sends| && sends[i].sent;
          assert sends[i] in p.log + sends;
        }
        assert SentFor(p.log + sends, id) <==> SentFor(p.log, id) || (r.requestId == id && AnySent(sends));
      }
    }
  }

  /** With distinct request ids, a pending request that is not recorded is offered to exactly its eligible
      subscribers, and a recorded one to nobody. */
  lemma {:induction false} SweepIsComplete(subscribers: seq<Subscription>, notified: map<string, int>, pending: seq<PendingRequest>,
                                           now: int, outcome: nat -> bool, n: nat)
    requires n < |pending|
    requires forall i, j :: 0 <= i < j < |pending| ==> pending[i].requestId != pending[j].requestId
    ensures Recipients(Sweep(subscribers, notified, pending, now, outcome).log, pending[n].requestId)
         == if Seen(notified, pending[n].requestId) then [] else Eligible(subscribers, pending[n])
  {
    var init, r, id := pending[..|pending| - 1], pending[|pending| - 1], pending[n].requestId;
    var p := Sweep(subscribers, notified, init, now, outcome);
    if n < |init| {
      SweepIsComplete(subscribers, notified, init, now, outcome, n);
    } else {
      NoneForAbsent(subscribers, notified, init, now, outcome, id);
    }
    if !Seen(p.notified, r.requestId) {
      var sends := Deliver(subscribers, r, outcome, |p.log|);
      DeliverFacts(subscribers, r, outcome, |p.log|);
      RecipientsConcat(p.log, sends, id);
      if n < |init| {
        RecipientsOfOther(sends, id);
      }
    }
  }

  lemma NoneForAbsent(subscribers: seq<Subscription>, notified: map<string, int>, pending: seq<PendingRequest>,
                      now: int, outcome: nat -> bool, id: string)
    requires id !in PendingIds(pending)
    ensures var p := Sweep(subscribers, notified, pending, now, outcome);
      Recipients(p.log, id) == [] && !AttemptedFor(p.log, id) && (Seen(p.notified, id) <==> Seen(notified, id))
  {
    var p := Sweep(subscribers, notified, pending, now, outcome);
    SweepSends(subscribers, notified, pending, now, outcome);
    forall k | 0 <= k < |p.log| ensures p.log[k].request.requestId in PendingIds(pending) {
      assert ProperSend(p.log[k], subscribers, notified, pending);
      var n :| 0 <= n < |pending| && pending[n] == p.log[k].request;
    }
    RecipientsOfOther(p.log, id);
    SweepRecords(subscribers, notified, pending, now, outcome, id);
  }

  /** An unrecorded pending id is offered at least to every persistent subscriber, duplicates of the id or not. */
  lemma {:induction false} UnseenIsAttempted(subscribers: seq<Subscription>, notified: map<string, int>, pending: seq<PendingRequest>,
                                             now: int, outcome: nat -> bool, id: string, s: Subscription)
    requires id in PendingIds(pending) && !Seen(notified, id)
    requires s in subscribers && s.mode == Persistent
    ensures AttemptedFor(Sweep(subscribers, notified, pending, now, outcome).log, id)
  {
    var init, r := pending[..|pending| - 1], pending[|pending| - 1];
    var p := Sweep(subscribers, notified, init, now, outcome);
    if id in PendingIds(init) {
      UnseenIsAttempted(subscribers, notified, init, now, outcome, id, s);
      var a :| a in p.log && a.request.requestId == id;
      assert a in Sweep(subscribers, notified, pending, now, outcome).log;
    } else {
      assert r.requestId == id;
      NoneForAbsent(subscribers, notified, init, now, outcome, id);
      var sends := Deliver(subscribers, r, outcome, |p.log|);
      DeliverFacts(subscribers, r, outcome, |p.log|);
      EligibleHas(subscribers, r, s);
      assert Recipients([], id) == [];
      assert sends[0] in p.log + sends;
    }
  }

  lemma {:induction false} EligibleHas(subscribers: seq<Subscription>, r: PendingRequest, s: Subscription)
    ensures s in Eligible(subscribers, r) <==> s in subscribers && IsDue(s, r)
  {
    hide IsDue;
    if subscribers != [] {
      var init := subscribers[..|subscribers| - 1];
      assert subscribers == init + [subscribers[|subscribers| - 1]];
      EligibleHas(init, r, s);
    }
  }

  lemma {:induction false} RecipientsHas(log: seq<Attempt>, id: string, s: Subscription)
    ensures s in Recipients(log, id) <==> exists a :: a in log && a.subscriber == s && a.request.requestId == id
  {
    if log != [] {
      var init, last := log[..|log| - 1], log[|log| - 1];
      RecipientsHas(init, id, s);
      assert log == init + [last];
    }
  }

  // ---------------------------------------------------------------- one tick

  /** A tick records id exactly when it was recorded and kept, or one of the tick's sends for it succeeded; what it
      leaves recorded is pending. */
  lemma TickRecords(state: NotifyState, pending: seq<PendingRequest>, now: int, outcome: nat -> bool, id: string)
    ensures var t := TickOf(state, pending, now, outcome);
      && (id in t.state.notified <==>
            SentFor(t.log, id) || (id in state.notified && id in PendingIds(pending) && now - state.notified[id] <= ONE_DAY_MS))
      && (id in t.state.notified ==> t.state.notified[id] == if SentFor(t.log, id) then now else state.notified[id])
      && (id in t.state.notified ==> id in PendingIds(pending))
  {
    var pruned := Prune(state.notified, PendingIds(pending), now);
    SweepRecords(state.subscribers, pruned, pending, now, outcome, id);
    SweepSends(state.subscribers, pruned, pending, now, outcome);
    var log := TickOf(state, pending, now, outcome).log;
    if SentFor(log, id) {
      var a :| a in log && a.sent && a.request.requestId == id;
      var n :| 0 <= n < |pending| && pending[n] == a.request;
      assert pending[n].requestId in PendingIds(pending);
    }
  }

  /** The tick attempts to tell the subscriber of the request. */
  ghost predicate Told(log: seq<Attempt>, s: Subscription, r: PendingRequest) {
    exists a :: a in log && a.subscriber == s && a.request == r
  }

  /** A record of the id that the reader finds and that is at most 24 hours old. */
  predicate RecordKept(file: NotifyState, id: string, now: int) {
    id in file.notified && Trim(id) != "" && file.notified[id] > 0 && now - file.notified[id] <= 86_400_000
  }

  /** With distinct request ids, a tick attempts to tell a stored subscriber of a pending request exactly when the
      request has no record in the file that is at most 24 hours old, and the subscriber is persistent or the request's
      timestamp is a positive integer, fractions dropped, not before the arming. */
  lemma TickTellsExactly(file: NotifyState, step: Step, n: nat, s: Subscription)
    requires step.Tick? && n < |step.pending| && s in Reload(file).subscribers
    requires forall i, j :: 0 <= i < j < |step.pending| ==> step.pending[i].requestId != step.pending[j].requestId
    ensures var r := step.pending[n];
      Told(LogOf(file, step), s, r) <==>
      && !RecordKept(file, r.requestId, step.now)
      && (s.mode == Persistent || (r.ts.Some? && r.ts.value >= 1.0 && r.ts.value >= s.addedAtMs as real))
  {
    hide Sweep, Recipients, Eligible;
    var state, r, log := Reload(file), step.pending[n], LogOf(file, step);
    var pruned := Prune(state.notified, PendingIds(step.pending), step.now);
    assert r.requestId in PendingIds(step.pending);
    assert Seen(pruned, r.requestId) <==> RecordKept(file, r.requestId, step.now);
    SweepIsComplete(state.subscribers, pruned, step.pending, step.now, step.outcome, n);
    SweepSends(state.subscribers, pruned, step.pending, step.now, step.outcome);
    RecipientsHas(log, r.requestId, s);
    EligibleHas(state.subscribers, r, s);
    forall a | a in log && a.request.requestId == r.requestId ensures a.request == r {
      var k :| 0 <= k < |log| && log[k] == a;
      var m :| 0 <= m < |step.pending| && step.pending[m] == a.request;
    }
  }

  lemma TickSends(file: NotifyState, step: Step, a: Attempt)
    requires a in LogOf(file, step)
    ensures step.Tick? && a.subscriber in Reload(file).subscribers && IsDue(a.subscriber, a.request)
  {
    var state := Reload(file);
    SweepSends(state.subscribers, Prune(state.notified, PendingIds(step.pending), step.now), step.pending, step.now, step.outcome);
    var k :| 0 <= k < |LogOf(file, step)| && LogOf(file, step)[k] == a;
  }

  lemma {:induction false} DropKeysMembers(subscribers: seq<Subscription>, keys: set<string>)
    ensures forall s :: s in DropKeys(subscribers, keys) <==> s in subscribers && SubscriberKey(s.target) !in keys
    ensures DistinctKeys(subscribers) ==> DistinctKeys(DropKeys(subscribers, keys))
  {
    if subscribers != [] {
      var init, last := subscribers[..|subscribers| - 1], subscribers[|subscribers| - 1];
      DropKeysMembers(init, keys);
      assert subscribers == init + [last];
      var kept := DropKeys(init, keys);
      if DistinctKeys(subscribers) {
        forall i | 0 <= i < |kept| ensures SubscriberKey(kept[i].target) != SubscriberKey(last.target) {
          assert kept[i] in init;
        }
      }
    }
  }

  ghost predicate ReceivedOnce(log: seq<Attempt>, s: Subscription) {
    s.mode == Once && exists a :: a in log && a.sent && a.subscriber == s
  }

  /** What is left of the subscribers is everyone but the one-shots that received a send. */
  ghost predicate RemovedExactlyServed(before: seq<Subscription>, after: seq<Subscription>, log: seq<Attempt>) {
    forall s :: s in after <==> s in before && !ReceivedOnce(log, s)
  }

  /** Whoever shares a key with a served one-shot is a served one-shot too. */
  ghost predicate KeysServedTogether(subscribers: seq<Subscription>, log: seq<Attempt>) {
    forall s, o :: s in subscribers && ReceivedOnce(log, o) && SubscriberKey(s.target) == SubscriberKey(o.target) ==>
      ReceivedOnce(log, s)
  }

  lemma DeliveredKeysAreServed(log: seq<Attempt>, key: string)
    ensures key in DeliveredOnceKeys(log) <==> exists o :: ReceivedOnce(log, o) && SubscriberKey(o.target) == key
  {
    hide SubscriberKey;
    if key in DeliveredOnceKeys(log) {
      var i :| 0 <= i < |log| && log[i].sent && log[i].subscriber.mode == Once && SubscriberKey(log[i].subscriber.target) == key;
      assert log[i] in log;
      assert ReceivedOnce(log, log[i].subscriber);
    }
    if o :| ReceivedOnce(log, o) && SubscriberKey(o.target) == key {
      var a :| a in log && a.sent && a.subscriber == o;
      var i :| 0 <= i < |log| && log[i] == a;
    }
  }

  lemma ServedIsStored(state: NotifyState, pending: seq<PendingRequest>, now: int, outcome: nat -> bool, s: Subscription)
    requires ReceivedOnce(TickOf(state, pending, now, outcome).log, s)
    ensures s in state.subscribers
  {
    var log := TickOf(state, pending, now, outcome).log;
    SweepSends(state.subscribers, Prune(state.notified, PendingIds(pending), now), pending, now, outcome);
    var a :| a in log && a.sent && a.subscriber == s;
    var k :| 0 <= k < |log| && log[k] == a;
  }

  /** A tick drops subscribers by key: it removes exactly the one-shots that received a send, and so no persistent
      subscriber, exactly when whoever shares a key with one of them is one of them. Distinct keys suffice, and are kept. */
  lemma TickRemovesDeliveredOneShots(state: NotifyState, pending: seq<PendingRequest>, now: int, outcome: nat -> bool)
    ensures var t := TickOf(state, pending, now, outcome);
      && (RemovedExactlyServed(state.subscribers, t.state.subscribers, t.log) <==> KeysServedTogether(state.subscribers, t.log))
      && (DistinctKeys(state.subscribers) ==>
            DistinctKeys(t.state.subscribers) && RemovedExactlyServed(state.subscribers, t.state.subscribers, t.log))
  {
    hide SubscriberKey, ReceivedOnce, DistinctKeys;
    var t := TickOf(state, pending, now, outcome);
    DropKeysMembers(state.subscribers, DeliveredOnceKeys(t.log));
    forall key ensures key in DeliveredOnceKeys(t.log) <==> exists o :: ReceivedOnce(t.log, o) && SubscriberKey(o.target) == key {
      DeliveredKeysAreServed(t.log, key);
    }
    if DistinctKeys(state.subscribers) {
      forall s, o | s in state.subscribers && ReceivedOnce(t.log, o) && SubscriberKey(s.target) == SubscriberKey(o.target)
        ensures s == o
      {
        ServedIsStored(state, pending, now, outcome, o);
        SameKeySame(state.subscribers, s, o);
      }
    }
  }

  lemma SameKeySame(subscribers: seq<Subscription>, a: Subscription, b: Subscription)
    requires DistinctKeys(subscribers) && a in subscribers && b in subscribers
    requires SubscriberKey(a.target) == SubscriberKey(b.target)
    ensures a == b
  {
  }

  /** Nobody else is stored under the key of a one-shot. */
  ghost predicate OneShotsHaveOwnKeys(subscribers: seq<Subscription>) {
    forall s, o :: s in subscribers && o in subscribers && o.mode == Once && SubscriberKey(s.target) == SubscriberKey(o.target)
      ==> s == o
  }

  ghost predicate EveryTickRemovesExactlyServed(state: NotifyState) {
    forall pending, now, outcome ::
      RemovedExactlyServed(state.subscribers, TickOf(state, pending, now, outcome).state.subscribers,
                           TickOf(state, pending, now, outcome).log)
  }

  lemma {:induction false} RecipientsOfOne(log: seq<Attempt>, r: PendingRequest)
    requires forall k :: 0 <= k < |log| ==> log[k].request == r
    ensures |Recipients(log, r.requestId)| == |log|
    ensures forall k :: 0 <= k < |log| ==> Recipients(log, r.requestId)[k] == log[k].subscriber
  {
    if log != [] {
      RecipientsOfOne(log[..|log| - 1], r);
    }
  }

  ghost predicate OnlyServed(log: seq<Attempt>, o: Subscription) {
    ReceivedOnce(log, o) && forall s :: ReceivedOnce(log, s) ==> s == o
  }

  /** All sends of the tick fail but the k-th. */
  function OnlySend(k: nat): nat -> bool {
    i => i == k
  }

  /** One subscriber's send alone can succeed. */
  lemma DeliverOnlyTo(subscribers: seq<Subscription>, r: PendingRequest, o: Subscription) returns (k: nat)
    requires o in subscribers && o.mode == Once && IsDue(o, r)
    ensures OnlyServed(Deliver(subscribers, r, OnlySend(k), 0), o)
  {
    hide IsDue;
    EligibleHas(subscribers, r, o);
    k :| 0 <= k < |Eligible(subscribers, r)| && Eligible(subscribers, r)[k] == o;
    var log := Deliver(subscribers, r, OnlySend(k), 0);
    DeliverFacts(subscribers, r, OnlySend(k), 0);
    RecipientsOfOne(log, r);
    assert log[k] in log && log[k].subscriber == o && log[k].sent;
    forall a | a in log && a.sent ensures a.subscriber == o {
      var i :| 0 <= i < |log| && log[i] == a;
    }
  }

  lemma NewEnough(o: Subscription) returns (ts: real)
    ensures forall id :: IsDue(o, PendingRequest(id, Some(ts)))
  {
    ts := if o.addedAtMs > 0 then o.addedAtMs as real else 1.0;
  }

  lemma PrunedIsUnseen(notified: map<string, int>, pendingIds: set<string>, id: string) returns (now: int)
    ensures !Seen(Prune(notified, pendingIds, now), id)
  {
    now := if id in notified then notified[id] + ONE_DAY_MS + 1 else 0;
  }

  /** There is a tick that serves one given one-shot and nobody else. */
  lemma ServeOnly(state: NotifyState, o: Subscription) returns (r: PendingRequest, now: int, outcome: nat -> bool)
    requires o in state.subscribers && o.mode == Once
    ensures OnlyServed(TickOf(state, [r], now, outcome).log, o)
  {
    hide OnlyServed, OnlySend, IsDue, Deliver, Sweep, Seen, Prune, DropKeys, DeliveredOnceKeys;
    var ts := NewEnough(o);
    r := PendingRequest("", Some(ts));
    now := PrunedIsUnseen(state.notified, PendingIds([r]), "");
    var k := DeliverOnlyTo(state.subscribers, r, o);
    outcome := OnlySend(k);
    SweepOne(state.subscribers, Prune(state.notified, PendingIds([r]), now), r, now, outcome);
  }

  lemma SweepOne(subscribers: seq<Subscription>, notified: map<string, int>, r: PendingRequest, now: int, outcome: nat -> bool)
    requires !Seen(notified, r.requestId)
    ensures Sweep(subscribers, notified, [r], now, outcome).log == Deliver(subscribers, r, outcome, 0)
  {
    hide Deliver;
    assert [r][..0] == [];
    assert Sweep(subscribers, notified, [], now, outcome) == Progress(notified, []);
  }

  /** Every tick on a store removes exactly the one-shots it served, whatever is pending and whichever sends succeed,
      exactly when no one-shot shares its key with another entry. */
  lemma TicksRemoveExactlyServedExactlyWhen(state: NotifyState)
    ensures EveryTickRemovesExactlyServed(state) <==> OneShotsHaveOwnKeys(state.subscribers)
  {
    hide SubscriberKey, ReceivedOnce, TickOf;
    if OneShotsHaveOwnKeys(state.subscribers) {
      forall pending, now, outcome
        ensures RemovedExactlyServed(state.subscribers, TickOf(state, pending, now, outcome).state.subscribers,
                                     TickOf(state, pending, now, outcome).log)
      {
        TickRemovesDeliveredOneShots(state, pending, now, outcome);
        forall o | ReceivedOnce(TickOf(state, pending, now, outcome).log, o) ensures o in state.subscribers && o.mode == Once {
          ServedIsStored(state, pending, now, outcome, o);
          ServedIsOnce(TickOf(state, pending, now, outcome).log, o);
        }
      }
    } else {
      var s, o :| s in state.subscribers && o in state.subscribers && o.mode == Once
                  && SubscriberKey(s.target) == SubscriberKey(o.target) && s != o;
      var r, now, outcome := ServeOnly(state, o);
      TickRemovesDeliveredOneShots(state, [r], now, outcome);
    }
  }

  lemma ServedIsOnce(log: seq<Attempt>, s: Subscription)
    requires ReceivedOnce(log, s)
    ensures s.mode == Once
  {
  }

  // ---------------------------------------------------------------- what a step leaves for the next reader

  lemma {:induction false} ReloadedMembers(subscribers: seq<Subscription>)
    ensures forall s :: s in Reloaded(subscribers) <==>
              exists o :: o in subscribers && Trim(o.target.to) != "" && s == o.(target := StoredTarget(o.target))
  {
    if subscribers != [] {
      var init, last := subscribers[..|subscribers| - 1], subscribers[|subscribers| - 1];
      ReloadedMembers(init);
      assert subscribers == init + [last];
    }
  }

  lemma ReloadedFrom(subscribers: seq<Subscription>, s: Subscription) returns (o: Subscription)
    requires s in Reloaded(subscribers)
    ensures o in subscribers && s == o.(target := StoredTarget(o.target))
  {
    ReloadedMembers(subscribers);
    o :| o in subscribers && s == o.(target := StoredTarget(o.target));
  }

  /** What a tick leaves is what the next reader sees, apart from blank ids and times that are not positive. */
  lemma TickReloads(file: NotifyState, step: Step)
    requires step.Tick?
    ensures var t, next := TickOf(Reload(file), step.pending, step.now, step.outcome), Reload(Next(file, step));
      && next.subscribers == t.state.subscribers
      && (t.changed ==> forall id :: (id in next.notified <==> id in t.state.notified && Trim(id) != "" && t.state.notified[id] > 0)
                                     && (id in next.notified ==> next.notified[id] == t.state.notified[id]))
      && (!t.changed ==> next == t.state)
  {
    var state := Reload(file);
    var t := TickOf(state, step.pending, step.now, step.outcome);
    ReloadedFacts(file.subscribers);
    DropKeysMembers(state.subscribers, DeliveredOnceKeys(t.log));
    ReloadedFacts(t.state.subscribers);
    if !t.changed {
      NothingSentNothingRecorded(state.subscribers, state.notified, step.pending, step.now, step.outcome);
      if t.state.subscribers != state.subscribers {
        DropKeysLength(state.subscribers, DeliveredOnceKeys(t.log));
      }
    }
  }

  lemma {:induction false} DropKeysLength(subscribers: seq<Subscription>, keys: set<string>)
    ensures |DropKeys(subscribers, keys)| <= |subscribers|
    ensures |DropKeys(subscribers, keys)| == |subscribers| ==> DropKeys(subscribers, keys) == subscribers
  {
    if subscribers != [] {
      DropKeysLength(subscribers[..|subscribers| - 1], keys);
    }
  }

  lemma NothingSentNothingRecorded(subscribers: seq<Subscription>, notified: map<string, int>, pending: seq<PendingRequest>,
                                   now: int, outcome: nat -> bool)
    requires !AnySent(Sweep(subscribers, notified, pending, now, outcome).log)
    ensures Sweep(subscribers, notified, pending, now, outcome).notified == notified
  {
    var p := Sweep(subscribers, notified, pending, now, outcome);
    forall id: string ensures (id in p.notified <==> id in notified) && (id in notified ==> p.notified[id] == notified[id]) {
      SweepRecords(subscribers, notified, pending, now, outcome, id);
      SentMakesChange(p.log, id);
    }
  }

  /** The entry a command leaves for the next reader. */
  predicate Subscribes(step: Step, s: Subscription) {
    && step.Command? && CommandTarget(step.ctx).Some?
    && s.target == StoredTarget(CommandTarget(step.ctx).value) && s.addedAtMs == step.now
    && step.action == (if s.mode == Once then Arm else On)
  }

  lemma CommandedMembers(state: NotifyState, target: NotifyTarget, action: Action, now: int, s: Subscription)
    requires s in Commanded(state, target, action, now).subscribers
    ensures s in state.subscribers || (s == Subscription(target, s.mode, now) && action == if s.mode == Once then Arm else On)
  {
  }

  /** A subscriber the next reader sees after a command was there before, or is the command's entry. */
  lemma CommandLeavesMember(file: NotifyState, step: Step, s: Subscription)
    requires step.Command? && s in Reload(Next(file, step)).subscribers
    ensures s in Reload(file).subscribers || Subscribes(step, s)
  {
    if CommandTarget(step.ctx).Some? {
      var u := Commanded(Reload(file), CommandTarget(step.ctx).value, step.action, step.now);
      if u.changed {
        var o := ReloadedFrom(u.subscribers, s);
        CommandedMembers(Reload(file), CommandTarget(step.ctx).value, step.action, step.now, o);
        ReloadedFacts(file.subscribers);
        StoredTargetIsClean(o.target);
      }
    }
  }

  /** Commands leave the records alone; the subscribers the next reader sees come from the old ones or the command. */
  lemma CommandReloads(file: NotifyState, step: Step)
    requires step.Command?
    ensures Reload(Next(file, step)).notified == Reload(file).notified
    ensures forall s <- Reload(Next(file, step)).subscribers :: s in Reload(file).subscribers || Subscribes(step, s)
  {
    forall s | s in Reload(Next(file, step)).subscribers ensures s in Reload(file).subscribers || Subscribes(step, s) {
      CommandLeavesMember(file, step, s);
    }
  }

  // ---------------------------------------------------------------- at most once

  lemma RunStep(file: NotifyState, steps: seq<Step>, n: nat)
    requires n < |steps|
    ensures Run(file, steps[..n + 1]) == Next(Run(file, steps[..n]), steps[n])
  {
    assert steps[..n + 1][..n] == steps[..n];
  }

  /** The id's request stays pending, and the clock within 24 hours of `since`, at every tick after i up to j. */
  predicate StaysPending(steps: seq<Step>, i: nat, j: nat, id: string, since: int)
    requires j < |steps|
  {
    forall k :: i < k <= j && steps[k].Tick? ==>
      id in PendingIds(steps[k].pending) && steps[k].now - since <= ONE_DAY_MS
  }

  /** What the next reader finds of an id that a tick just delivered. */
  lemma RecordAfterDelivery(file: NotifyState, step: Step, id: string)
    requires SentFor(LogOf(file, step), id)
    ensures var read := Reload(Next(file, step)).notified;
      (id in read <==> Trim(id) != "" && step.now > 0) && (id in read ==> read[id] == step.now)
  {
    TickRecords(Reload(file), step.pending, step.now, step.outcome, id);
    TickReloads(file, step);
    SentMakesChange(LogOf(file, step), id);
  }

  /** A step at which a recorded id is still pending and young enough neither sends for it nor forgets it. */
  lemma RecordedIsSkipped(file: NotifyState, step: Step, id: string)
    requires id in Reload(file).notified
    requires step.Tick? ==> id in PendingIds(step.pending) && step.now - Reload(file).notified[id] <= ONE_DAY_MS
    ensures !AttemptedFor(LogOf(file, step), id)
    ensures var read := Reload(Next(file, step)).notified; id in read && read[id] == Reload(file).notified[id]
  {
    if step.Tick? {
      var state := Reload(file);
      SweepRecords(state.subscribers, Prune(state.notified, PendingIds(step.pending), step.now),
                   step.pending, step.now, step.outcome, id);
      SentIsAttempted(LogOf(file, step), id);
      TickReloads(file, step);
    } else {
      CommandReloads(file, step);
    }
  }

  /** Once recorded, an id stays recorded while its request stays pending. */
  lemma {:induction false} RecordLasts(file: NotifyState, steps: seq<Step>, i: nat, j: nat, id: string)
    requires i < j < |steps| && steps[i].Tick? && steps[i].now > 0 && Trim(id) != ""
    requires SentFor(LogAt(file, steps, i), id)
    requires StaysPending(steps, i, j, id, steps[i].now)
    ensures var read := Reload(Run(file, steps[..j])).notified; id in read && read[id] == steps[i].now
  {
    RunStep(file, steps, j - 1);
    if j == i + 1 {
      RecordAfterDelivery(Run(file, steps[..i]), steps[i], id);
    } else {
      RecordLasts(file, steps, i, j - 1, id);
      RecordedIsSkipped(Run(file, steps[..j - 1]), steps[j - 1], id);
    }
  }

  lemma SentMakesChange(log: seq<Attempt>, id: string)
    ensures SentFor(log, id) ==> AnySent(log)
  {
  }

  lemma SentIsAttempted(log: seq<Attempt>, id: string)
    ensures SentFor(log, id) ==> AttemptedFor(log, id)
  {
  }

  /** After a successful send for a request, no tick attempts another one while the request stays pending and at
      most 24 hours have passed, whatever commands come between. */
  lemma AtMostOnce(file: NotifyState, steps: seq<Step>, i: nat, j: nat, id: string)
    requires i < j < |steps| && steps[i].Tick? && steps[j].Tick? && steps[i].now > 0 && Trim(id) != ""
    requires SentFor(LogAt(file, steps, i), id)
    requires StaysPending(steps, i, j, id, steps[i].now)
    ensures !AttemptedFor(LogAt(file, steps, j), id)
  {
    RecordLasts(file, steps, i, j, id);
    RecordedIsSkipped(Run(file, steps[..j]), steps[j], id);
  }

  /** With a persistent subscriber in the store, a tick attempts a pending id exactly when its record is not kept. */
  lemma AttemptsExactlyUnseen(file: NotifyState, step: Step, id: string, s: Subscription)
    requires step.Tick? && id in PendingIds(step.pending) && s in Reload(file).subscribers && s.mode == Persistent
    ensures AttemptedFor(LogOf(file, step), id) <==> !Seen(Prune(Reload(file).notified, PendingIds(step.pending), step.now), id)
  {
    var state := Reload(file);
    var pruned := Prune(state.notified, PendingIds(step.pending), step.now);
    SweepRecords(state.subscribers, pruned, step.pending, step.now, step.outcome, id);
    if !Seen(pruned, id) {
      UnseenIsAttempted(state.subscribers, pruned, step.pending, step.now, step.outcome, id, s);
    }
  }

  /** The hypotheses are exact: with a persistent subscriber left, the tick right after a delivery repeats it exactly
      when the id is blank, the delivery time was not positive, or more than 24 hours have passed. */
  lemma RepeatsExactlyWhen(file: NotifyState, first: Step, second: Step, id: string, s: Subscription)
    requires second.Tick? && SentFor(LogOf(file, first), id) && id in PendingIds(second.pending)
    requires s in Reload(Next(file, first)).subscribers && s.mode == Persistent
    ensures AttemptedFor(LogOf(Next(file, first), second), id) <==>
            Trim(id) == "" || first.now <= 0 || second.now - first.now > ONE_DAY_MS
  {
    RecordAfterDelivery(file, first, id);
    AttemptsExactlyUnseen(Next(file, first), second, id, s);
  }

  // ---------------------------------------------------------------- one-shot subscribers

  /** Step k arms a one-shot that is stored under `key`. */
  predicate Arms(step: Step, key: string) {
    step.Command? && step.action == Arm && CommandTarget(step.ctx).Some?
    && SubscriberKey(StoredTarget(CommandTarget(step.ctx).value)) == key
  }

  ghost predicate OneShotSent(log: seq<Attempt>, key: string) {
    exists a :: a in log && a.sent && a.subscriber.mode == Once && SubscriberKey(a.subscriber.target) == key
  }

  ghost predicate OneShotAttempted(log: seq<Attempt>, key: string) {
    exists a :: a in log && a.subscriber.mode == Once && SubscriberKey(a.subscriber.target) == key
  }

  ghost predicate NoOneShot(subscribers: seq<Subscription>, key: string) {
    forall s :: s in subscribers && s.mode == Once ==> SubscriberKey(s.target) != key
  }

  lemma StepKeepsNoOneShot(file: NotifyState, step: Step, key: string)
    requires NoOneShot(Reload(file).subscribers, key) || OneShotSent(LogOf(file, step), key)
    requires !Arms(step, key)
    ensures NoOneShot(Reload(Next(file, step)).subscribers, key)
  {
    if step.Tick? {
      var t := TickOf(Reload(file), step.pending, step.now, step.outcome);
      TickReloads(file, step);
      DropKeysMembers(Reload(file).subscribers, DeliveredOnceKeys(t.log));
      if OneShotSent(t.log, key) {
        var a :| a in t.log && a.sent && a.subscriber.mode == Once && SubscriberKey(a.subscriber.target) == key;
        var i :| 0 <= i < |t.log| && t.log[i] == a;
        assert SubscriberKey(t.log[i].subscriber.target) in DeliveredOnceKeys(t.log);
      }
    } else {
      CommandReloads(file, step);
    }
  }

  lemma SendingIsNotArming(file: NotifyState, step: Step, key: string)
    requires OneShotSent(LogOf(file, step), key)
    ensures !Arms(step, key)
  {
  }

  lemma {:induction false} NoOneShotLasts(file: NotifyState, steps: seq<Step>, i: nat, j: nat, key: string)
    requires i < j <= |steps|
    requires OneShotSent(LogAt(file, steps, i), key)
    requires forall k :: i < k < j ==> !Arms(steps[k], key)
    ensures NoOneShot(Reload(Run(file, steps[..j])).subscribers, key)
  {
    hide Run, Reload, Next, LogOf, OneShotSent, Arms, NoOneShot;
    RunStep(file, steps, j - 1);
    if j == i + 1 {
      assert Run(file, steps[..j - 1]) == Run(file, steps[..i]);
      SendingIsNotArming(Run(file, steps[..i]), steps[i], key);
    } else {
      NoOneShotLasts(file, steps, i, j - 1, key);
    }
    StepKeepsNoOneShot(Run(file, steps[..j - 1]), steps[j - 1], key);
  }

  /** Each arming of a one-shot is served in at most one tick: between a tick that sent to it and any later tick that
      even tries to, the subscriber was armed again. */
  lemma OneShotServedOncePerArming(file: NotifyState, steps: seq<Step>, i: nat, j: nat, key: string)
    requires i < j < |steps|
    ensures OneShotSent(LogAt(file, steps, i), key) && OneShotAttempted(LogAt(file, steps, j), key) ==>
              exists k :: i < k < j && Arms(steps[k], key)
  {
    if OneShotSent(LogAt(file, steps, i), key) && forall k :: i < k < j ==> !Arms(steps[k], key) {
      NoOneShotLasts(file, steps, i, j, key);
      forall a | a in LogAt(file, steps, j) && a.subscriber.mode == Once ensures SubscriberKey(a.subscriber.target) != key {
        TickSends(Run(file, steps[..j]), steps[j], a);
      }
    }
  }

  /** The subscribers that step n of a run from the empty store finds. */
  function StoredAt(steps: seq<Step>, n: nat): seq<Subscription>
    requires n <= |steps|
  {
    Reload(Run(EMPTY, steps[..n])).subscribers
  }

  /** Step k armed exactly the stored one-shot s: s was not there before, carries the time of the step, and has been
      stored, and not been sent to, at every step since, up to step n. */
  ghost predicate ArmingInForce(steps: seq<Step>, k: nat, n: nat, s: Subscription) {
    && k < n <= |steps|
    && Arms(steps[k], SubscriberKey(s.target)) && steps[k].now == s.addedAtMs
    && s !in StoredAt(steps, k)
    && (forall m :: k < m <= n ==> s in StoredAt(steps, m))
    && (forall m :: k < m < n ==> !OneShotSent(LogAt(EMPTY, steps, m), SubscriberKey(s.target)))
  }

  /** A one-shot seen after a step was there before, or the step armed it at its recorded time. */
  lemma OneShotOrigin(file: NotifyState, step: Step, s: Subscription)
    requires s in Reload(Next(file, step)).subscribers && s.mode == Once && s !in Reload(file).subscribers
    ensures Arms(step, SubscriberKey(s.target)) && step.now == s.addedAtMs
  {
    if step.Tick? {
      TickReloads(file, step);
      DropKeysMembers(Reload(file).subscribers, DeliveredOnceKeys(LogOf(file, step)));
    } else {
      CommandReloads(file, step);
    }
  }

  /** A one-shot that survives a step was not sent to in it. */
  lemma SurvivorWasNotSent(file: NotifyState, step: Step, s: Subscription)
    requires s in Reload(Next(file, step)).subscribers && s.mode == Once
    ensures !OneShotSent(LogOf(file, step), SubscriberKey(s.target))
  {
    if OneShotSent(LogOf(file, step), SubscriberKey(s.target)) {
      SendingIsNotArming(file, step, SubscriberKey(s.target));
      StepKeepsNoOneShot(file, step, SubscriberKey(s.target));
    }
  }

  lemma ArmingStaysInForce(steps: seq<Step>, k: nat, n: nat, s: Subscription)
    requires ArmingInForce(steps, k, n, s) && s.mode == Once && n < |steps| && s in StoredAt(steps, n + 1)
    ensures ArmingInForce(steps, k, n + 1, s)
  {
    hide Reload, Next, Arms, SubscriberKey, OneShotSent, LogOf, Run;
    RunStep(EMPTY, steps, n);
    SurvivorWasNotSent(Run(EMPTY, steps[..n]), steps[n], s);
  }

  lemma NothingStoredAtFirst(steps: seq<Step>)
    ensures StoredAt(steps, 0) == []
  {
    assert steps[..0] == [];
  }

  /** Every stored one-shot has its arming in force: the step that put it there, at its recorded time. */
  lemma {:induction false} OneShotsWereArmed(steps: seq<Step>, n: nat, s: Subscription)
    requires n <= |steps|
    ensures s in StoredAt(steps, n) && s.mode == Once ==> exists k: nat :: ArmingInForce(steps, k, n, s)
  {
    hide Reload, Next, Arms, SubscriberKey, OneShotSent, LogOf, Run;
    if n == 0 {
      NothingStoredAtFirst(steps);
    } else if s in StoredAt(steps, n) && s.mode == Once {
      if s in StoredAt(steps, n - 1) {
        OneShotsWereArmed(steps, n - 1, s);
        var k: nat :| ArmingInForce(steps, k, n - 1, s);
        ArmingStaysInForce(steps, k, n - 1, s);
      } else {
        RunStep(EMPTY, steps, n - 1);
        OneShotOrigin(Run(EMPTY, steps[..n - 1]), steps[n - 1], s);
        assert ArmingInForce(steps, n - 1, n, s);
      }
    }
  }

  /** From the empty store, a one-shot is only ever told about a request whose integer timestamp is positive and not
      before the time of the arming in force: the one that stored it, which no tick has served since. */
  lemma OneShotToldOnlyOfNewerRequests(steps: seq<Step>, i: nat, a: Attempt)
    requires i < |steps| && a in LogAt(EMPTY, steps, i) && a.subscriber.mode == Once
    ensures exists k: nat :: ArmingInForce(steps, k, i, a.subscriber)
              && a.request.ts.Some? && a.request.ts.value >= 1.0 && a.request.ts.value >= steps[k].now as real
  {
    hide Reload, Next, Arms, SubscriberKey, OneShotSent, LogOf, Run;
    TickSends(Run(EMPTY, steps[..i]), steps[i], a);
    OneShotsWereArmed(steps, i, a.subscriber);
    var k: nat :| ArmingInForce(steps, k, i, a.subscriber);
    assert steps[k].now == a.subscriber.addedAtMs;
  }

  // ---------------------------------------------------------------- clean files

  /** The step's clock is positive, its pending ids are not blank, and its command target is stored as it is. */
  predicate CleanStep(step: Step) {
    match step
    case Tick(pending, now, _) => now > 0 && forall i :: 0 <= i < |pending| ==> Trim(pending[i].requestId) != ""
    case Command(ctx, _, _) => CommandTarget(ctx).Some? ==> CleanTarget(CommandTarget(ctx).value)
  }

  lemma CleanNext(file: NotifyState, step: Step)
    requires Clean(file) && CleanStep(step)
    ensures Clean(Next(file, step))
  {
    ReloadIdentity(file);
    var next := Next(file, step);
    if step.Tick? {
      forall id | id in next.notified ensures Trim(id) != "" && next.notified[id] > 0 {
        TickRecords(file, step.pending, step.now, step.outcome, id);
      }
      DropKeysMembers(file.subscribers, DeliveredOnceKeys(LogOf(file, step)));
    } else if CommandTarget(step.ctx).Some? {
      forall s | s in next.subscribers ensures CleanTarget(s.target) {
        if s !in file.subscribers {
          CommandedMembers(file, CommandTarget(step.ctx).value, step.action, step.now, s);
        }
      }
    }
  }

  /** Files that runs write are clean, so the next reader finds exactly the state that was written. */
  lemma {:induction false} RunsWriteCleanFiles(steps: seq<Step>, now: int)
    requires forall k :: 0 <= k < |steps| ==> CleanStep(steps[k])
    ensures Clean(Run(EMPTY, steps))
    ensures Normalize(Encode(Run(EMPTY, steps)), now) == Run(EMPTY, steps)
  {
    if steps != [] {
      RunsWriteCleanFiles(steps[..|steps| - 1], now);
      CleanNext(Run(EMPTY, steps[..|steps| - 1]), steps[|steps| - 1]);
    }
    WrittenStateReadsBack(Run(EMPTY, steps), now);
  }
}
