/** One notifier tick and one pairing command, each an atomic step on the stored file. */
module Notifier {
  import opened Text
  import opened NotifyStore

  const MAX_SEEN_AGE_MS := 24 * 60 * 60 * 1000

  /** The fields of a pending request that decide delivery; ts is None unless it is a finite number. */
  datatype PendingRequest = PendingRequest(requestId: string, ts: Option<real>)

  datatype Attempt = Attempt(subscriber: Subscription, request: PendingRequest, sent: bool)

  // ---------------------------------------------------------------- who is told about what

  function RequestTimestampMs(r: PendingRequest): Option<int> {
    if r.ts.None? then None
    else
      var ts := Trunc(r.ts.value);
      if ts > 0 then Some(ts) else None
  }

  predicate ShouldNotify(s: Subscription, r: PendingRequest) {
    s.mode == Once ==>
      match RequestTimestampMs(r)
      case None => false
      case Some(ts) => ts >= s.addedAtMs
  }

  /** The truthiness test on the stored notification time. */
  predicate Seen(notified: map<string, int>, id: string) {
    id in notified && notified[id] != 0
  }

  predicate AnySent(log: seq<Attempt>) {
    exists i :: 0 <= i < |log| && log[i].sent
  }

  function DeliveredOnceKeys(log: seq<Attempt>): set<string> {
    set i | 0 <= i < |log| && log[i].sent && log[i].subscriber.mode == Once :: SubscriberKey(log[i].subscriber.target)
  }

  // ---------------------------------------------------------------- the tick as a function

  function PendingIds(pending: seq<PendingRequest>): set<string> {
    set i | 0 <= i < |pending| :: pending[i].requestId
  }

  predicate KeptSeen(ts: int, pendingIds: set<string>, id: string, now: int) {
    id in pendingIds && now - ts <= MAX_SEEN_AGE_MS
  }

  function Prune(notified: map<string, int>, pendingIds: set<string>, now: int): map<string, int> {
    map id | id in notified && KeptSeen(notified[id], pendingIds, id, now) :: notified[id]
  }

  /** The attempts for one request; `outcome(k)` is the outcome of the k-th send of the tick. */
  function Deliver(subscribers: seq<Subscription>, r: PendingRequest, outcome: nat -> bool, base: nat): seq<Attempt> {
    if subscribers == [] then []
    else
      var before := Deliver(subscribers[..|subscribers| - 1], r, outcome, base);
      var s := subscribers[|subscribers| - 1];
      if ShouldNotify(s, r) then before + [Attempt(s, r, outcome(base + |before|))] else before
  }

  datatype Progress = Progress(notified: map<string, int>, log: seq<Attempt>)

  function Sweep(subscribers: seq<Subscription>, notified: map<string, int>, pending: seq<PendingRequest>, now: int,
                 outcome: nat -> bool): Progress
  {
    if pending == [] then Progress(notified, [])
    else
      var p := Sweep(subscribers, notified, pending[..|pending| - 1], now, outcome);
      var r := pending[|pending| - 1];
      if Seen(p.notified, r.requestId) then p
      else
        var sends := Deliver(subscribers, r, outcome, |p.log|);
        Progress(if AnySent(sends) then p.notified[r.requestId := now] else p.notified, p.log + sends)
  }

  function DropKeys(subscribers: seq<Subscription>, keys: set<string>): seq<Subscription> {
    if subscribers == [] then []
    else
      var before, s := DropKeys(subscribers[..|subscribers| - 1], keys), subscribers[|subscribers| - 1];
      if SubscriberKey(s.target) in keys then before else before + [s]
  }

  datatype TickResult = TickResult(state: NotifyState, changed: bool, log: seq<Attempt>)

  function TickOf(state: NotifyState, pending: seq<PendingRequest>, now: int, outcome: nat -> bool): TickResult {
    var pruned := Prune(state.notified, PendingIds(pending), now);
    var p := Sweep(state.subscribers, pruned, pending, now, outcome);
    var kept := DropKeys(state.subscribers, DeliveredOnceKeys(p.log));
    TickResult(NotifyState(kept, p.notified),
               pruned != state.notified || AnySent(p.log) || |kept| != |state.subscribers|,
               p.log)
  }

  // ---------------------------------------------------------------- commands

  /** The parts of a command context that choose the subscriber. */
  datatype Context = Context(channel: string, senderId: Option<string>, from: Option<string>, to: Option<string>,
                             accountId: Option<string>, thread: ThreadId)

  function TrimmedOrEmpty(s: Option<string>): string {
    if s.Some? then Trim(s.value) else ""
  }

  function ResolveTarget(ctx: Context): Option<NotifyTarget> {
    var to := if TrimmedOrEmpty(ctx.senderId) != "" then TrimmedOrEmpty(ctx.senderId)
              else if TrimmedOrEmpty(ctx.from) != "" then TrimmedOrEmpty(ctx.from)
              else TrimmedOrEmpty(ctx.to);
    if to == "" then None
    else Some(NotifyTarget(to, if ctx.accountId == Some("") then None else ctx.accountId, ctx.thread))
  }

  datatype Action = On | Off | Arm | Other

  function ParseAction(action: string): Action {
    if action == "on" || action == "enable" then On
    else if action == "off" || action == "disable" then Off
    else if action == "once" || action == "arm" then Arm
    else Other
  }

  /** The target a command acts on, if the channel is supported and a target can be resolved. */
  function CommandTarget(ctx: Context): Option<NotifyTarget> {
    if ctx.channel == "telegram" then ResolveTarget(ctx) else None
  }

  function Commanded(state: NotifyState, target: NotifyTarget, action: Action, now: int): Upserted {
    match action
    case On => Upsert(state.subscribers, target, Persistent, now)
    case Arm => Upsert(state.subscribers, target, Once, now)
    case Off => RemoveKey(state.subscribers, SubscriberKey(target))
    case Other => Upserted(state.subscribers, false)
  }

  // ---------------------------------------------------------------- steps on the file

  datatype Step =
    | Tick(pending: seq<PendingRequest>, now: int, outcome: nat -> bool)
    | Command(ctx: Context, action: Action, now: int)

  function Next(file: NotifyState, step: Step): NotifyState {
    var state := Reload(file);
    match step
    case Tick(pending, now, outcome) =>
      var t := TickOf(state, pending, now, outcome);
      if t.changed then t.state else file
    case Command(ctx, action, now) =>
      match CommandTarget(ctx)
      case None => file
      case Some(target) =>
        var u := Commanded(state, target, action, now);
        if u.changed then state.(subscribers := u.subscribers) else file
  }

  function LogOf(file: NotifyState, step: Step): seq<Attempt> {
    if step.Tick? then TickOf(Reload(file), step.pending, step.now, step.outcome).log else []
  }

  /** The state after a sequence of atomic steps. */
  function Run(file: NotifyState, steps: seq<Step>): NotifyState {
    if steps == [] then file else Next(Run(file, steps[..|steps| - 1]), steps[|steps| - 1])
  }

  /** The sends attempted by step i of a run. */
  function LogAt(file: NotifyState, steps: seq<Step>, i: nat): seq<Attempt>
    requires i < |steps|
  {
    LogOf(Run(file, steps[..i]), steps[i])
  }

  // ---------------------------------------------------------------- small facts for the loops

  lemma AnySentConcat(a: seq<Attempt>, b: seq<Attempt>)
    ensures AnySent(a + b) <==> AnySent(a) || AnySent(b)
  {
    if AnySent(a) {
      var i :| 0 <= i < |a| && a[i].sent;
      assert (a + b)[i].sent;
    }
    if AnySent(b) {
      var i :| 0 <= i < |b| && b[i].sent;
      assert (a + b)[|a| + i].sent;
    }
  }

  lemma DeliveredConcat(a: seq<Attempt>, b: seq<Attempt>)
    ensures DeliveredOnceKeys(a + b) == DeliveredOnceKeys(a) + DeliveredOnceKeys(b)
  {
    forall k | k in DeliveredOnceKeys(a) ensures k in DeliveredOnceKeys(a + b) {
      var i :| 0 <= i < |a| && a[i].sent && a[i].subscriber.mode == Once && k == SubscriberKey(a[i].subscriber.target);
      assert (a + b)[i] == a[i];
    }
    forall k | k in DeliveredOnceKeys(b) ensures k in DeliveredOnceKeys(a + b) {
      var i :| 0 <= i < |b| && b[i].sent && b[i].subscriber.mode == Once && k == SubscriberKey(b[i].subscriber.target);
      assert (a + b)[|a| + i] == b[i];
    }
  }

  lemma DropNothing(subscribers: seq<Subscription>)
    ensures DropKeys(subscribers, {}) == subscribers
  {
  }

  lemma NothingWithoutSubscribers(notified: map<string, int>, pending: seq<PendingRequest>, now: int, outcome: nat -> bool)
    ensures Sweep([], notified, pending, now, outcome) == Progress(notified, [])
  {
  }

  // ---------------------------------------------------------------- the implementation

  /** The pruning loop of the tick. */
  method PruneNotified(notified: map<string, int>, pendingIds: set<string>, now: int)
    returns (kept: map<string, int>, changed: bool)
    ensures kept == Prune(notified, pendingIds, now)
    ensures changed <==> kept != notified
  {
    kept, changed := notified, false;
    var todo := notified.Keys;
    while todo != {}
      invariant todo <= notified.Keys
      invariant kept == map id | id in notified && (id in todo || KeptSeen(notified[id], pendingIds, id, now)) :: notified[id]
      invariant changed <==> kept != notified
      decreases todo
    {
      var id :| id in todo;
      todo := todo - {id};
      if !KeptSeen(notified[id], pendingIds, id, now) {
        assert id in kept;
        kept := kept - {id};
        assert id !in kept && id in notified;
        changed := true;
      }
    }
  }

  /** The tick on the state it read: prune, deliver request by request, drop delivered one-shots. */
  method TickState(state: NotifyState, pending: seq<PendingRequest>, now: int, outcome: nat -> bool) returns (t: TickResult)
    ensures t == TickOf(state, pending, now, outcome)
  {
    var subscribers := state.subscribers;
    var notified, changed := PruneNotified(state.notified, PendingIds(pending), now);
    ghost var pruned := notified;
    var log: seq<Attempt> := [];
    if |subscribers| > 0 {
      var oneShotDelivered: set<string> := {};
      for i := 0 to |pending|
        invariant Progress(notified, log) == Sweep(subscribers, pruned, pending[..i], now, outcome)
        invariant oneShotDelivered == DeliveredOnceKeys(log)
        invariant changed <==> pruned != state.notified || AnySent(log)
      {
        var request := pending[i];
        assert pending[..i + 1][..i] == pending[..i];
        if Seen(notified, request.requestId) { continue; }
        var sends, keys := NotifyAll(subscribers, request, outcome, |log|);
        AnySentConcat(log, sends);
        DeliveredConcat(log, sends);
        oneShotDelivered := oneShotDelivered + keys;
        log := log + sends;
        if AnySent(sends) {
          notified := notified[request.requestId := now];
          changed := true;
        }
      }
      assert pending[..|pending|] == pending;
      DropNothing(subscribers);
      if oneShotDelivered != {} {
        subscribers := FilterDelivered(subscribers, oneShotDelivered);
        if |subscribers| != |state.subscribers| {
          changed := true;
        }
      }
    } else {
      NothingWithoutSubscribers(pruned, pending, now, outcome);
    }
    t := TickResult(NotifyState(subscribers, notified), changed, log);
  }

  /** The inner loop of the tick: every eligible subscriber, in order, one send each. */
  method NotifyAll(subscribers: seq<Subscription>, request: PendingRequest, outcome: nat -> bool, base: nat)
    returns (sends: seq<Attempt>, keys: set<string>)
    ensures sends == Deliver(subscribers, request, outcome, base)
    ensures keys == DeliveredOnceKeys(sends)
  {
    sends, keys := [], {};
    for j := 0 to |subscribers|
      invariant sends == Deliver(subscribers[..j], request, outcome, base)
      invariant keys == DeliveredOnceKeys(sends)
    {
      var subscriber := subscribers[j];
      assert subscribers[..j + 1][..j] == subscribers[..j];
      if !ShouldNotify(subscriber, request) { continue; }
      var sent := outcome(base + |sends|);
      DeliveredConcat(sends, [Attempt(subscriber, request, sent)]);
      sends := sends + [Attempt(subscriber, request, sent)];
      assert DeliveredOnceKeys([Attempt(subscriber, request, sent)])
          == if sent && subscriber.mode == Once then {SubscriberKey(subscriber.target)} else {} by {
        assert [Attempt(subscriber, request, sent)][0] == Attempt(subscriber, request, sent);
      }
      if sent && subscriber.mode == Once {
        keys := keys + {SubscriberKey(subscriber.target)};
      }
    }
    assert subscribers[..|subscribers|] == subscribers;
  }

  method FilterDelivered(subscribers: seq<Subscription>, keys: set<string>) returns (kept: seq<Subscription>)
    ensures kept == DropKeys(subscribers, keys)
  {
    kept := [];
    for j := 0 to |subscribers|
      invariant kept == DropKeys(subscribers[..j], keys)
    {
      assert subscribers[..j + 1][..j] == subscribers[..j];
      if SubscriberKey(subscribers[j].target) !in keys {
        kept := kept + [subscribers[j]];
      }
    }
    assert subscribers[..|subscribers|] == subscribers;
  }

  class PairNotifier {
    /** The last state written to the notifier's file; a missing file reads like the empty state. */
    var file: NotifyState

    constructor ()
      ensures file == EMPTY
    {
      file := EMPTY;
    }

    method ReadNotifyState(now: int) returns (state: NotifyState)
      ensures state == Reload(file)
    {
      state := NormalizeNotifyState(Encode(file), now);
      ReadOfWritten(file, now);
    }

    /** notifyPendingPairingRequests: prune, deliver, drop delivered one-shots, write back if anything changed. */
    method NotifyPendingPairingRequests(pending: seq<PendingRequest>, now: int, outcome: nat -> bool) returns (log: seq<Attempt>)
      modifies this
      ensures file == Next(old(file), Tick(pending, now, outcome))
      ensures log == LogOf(old(file), Tick(pending, now, outcome))
    {
      var state := ReadNotifyState(now);
      var t := TickState(state, pending, now, outcome);
      log := t.log;
      if t.changed {
        file := t.state;
      }
    }

    /** armPairNotifyOnce */
    method ArmPairNotifyOnce(ctx: Context, now: int) returns (armed: bool)
      modifies this
      ensures file == Next(old(file), Command(ctx, Arm, now))
      ensures armed <==> CommandTarget(ctx).Some?
    {
      if ctx.channel != "telegram" { return false; }
      var target := ResolveTarget(ctx);
      if target.None? { return false; }
      var state := ReadNotifyState(now);
      var subscribers, changed := UpsertNotifySubscriber(state.subscribers, target.value, Once, now);
      if changed {
        file := state.(subscribers := subscribers);
      }
      return true;
    }

    /** handleNotifyCommand without its reply texts */
    method HandleNotifyCommand(ctx: Context, action: string, now: int)
      modifies this
      ensures file == Next(old(file), Command(ctx, ParseAction(action), now))
    {
      if ctx.channel != "telegram" { return; }
      var target := ResolveTarget(ctx);
      if target.None? { return; }
      var state := ReadNotifyState(now);
      if action == "on" || action == "enable" {
        var subscribers, changed := UpsertNotifySubscriber(state.subscribers, target.value, Persistent, now);
        if changed {
          file := state.(subscribers := subscribers);
        }
      } else if action == "off" || action == "disable" {
        var index := FindKey(state.subscribers, SubscriberKey(target.value));
        if index.Some? {
          file := state.(subscribers := state.subscribers[..index.value] + state.subscribers[index.value + 1..]);
        }
      } else if action == "once" || action == "arm" {
        var _ := ArmPairNotifyOnce(ctx, now);
      }
    }
  }
}
