/** Subscriber keys over whole runs: when they stay distinct, what commands then do, and what ticks then remove. */
module NotifierKeys {
  import opened Text
  import opened NotifyStore
  import opened Notifier
  import opened NotifierSafety

  // ---------------------------------------------------------------- distinct subscriber keys

  /** Storing the target and reading it back does not change its key. */
  predicate KeyStable(t: NotifyTarget) {
    SubscriberKey(StoredTarget(t)) == SubscriberKey(t)
  }

  predicate TrimmedFields(t: NotifyTarget) {
    && IsTrimmed(t.to)
    && (t.accountId.Some? ==> IsTrimmed(t.accountId.value))
    && (t.thread.StrThread? ==> IsTrimmed(t.thread.s))
  }

  /** A target's key survives storing exactly when its text fields have no surrounding white space. */
  lemma KeyStableExactlyWhenTrimmed(t: NotifyTarget)
    ensures KeyStable(t) <==> TrimmedFields(t)
  {
    hide Trim, IsTrimmed;
    TrimShortens(t.to);
    TrimTrims(t.to);
    if t.accountId.Some? {
      TrimShortens(t.accountId.value);
      TrimTrims(t.accountId.value);
    }
    if t.thread.StrThread? {
      TrimShortens(t.thread.s);
      TrimTrims(t.thread.s);
    }
    var stored := StoredTarget(t);
    assert |stored.to| <= |t.to| && |AccountText(stored)| <= |AccountText(t)| && |ThreadText(stored.thread)| <= |ThreadText(t.thread)|;
    assert KeyStable(t) ==> |SubscriberKey(stored)| == |SubscriberKey(t)|;
  }

  predicate StableCommand(step: Step) {
    step.Command? && CommandTarget(step.ctx).Some? ==> KeyStable(CommandTarget(step.ctx).value)
  }

  lemma {:induction false} ReloadedKeepsKeys(subscribers: seq<Subscription>)
    requires DistinctKeys(subscribers)
    requires forall s <- subscribers :: KeyStable(s.target)
    ensures DistinctKeys(Reloaded(subscribers))
  {
    hide SubscriberKey, StoredTarget, CleanTarget;
    if subscribers != [] {
      var init, last := subscribers[..|subscribers| - 1], subscribers[|subscribers| - 1];
      assert subscribers == init + [last];
      ReloadedKeepsKeys(init);
      ReloadedMembers(init);
      var kept := Reloaded(init);
      forall i | 0 <= i < |kept| ensures SubscriberKey(kept[i].target) != SubscriberKey(StoredTarget(last.target)) {
        assert kept[i] in kept;
      }
    }
  }

  lemma UpsertKeepsKeys(file: NotifyState, t: NotifyTarget, mode: Mode, now: int)
    requires DistinctKeys(Reload(file).subscribers) && KeyStable(t)
    ensures DistinctKeys(Reloaded(Upsert(Reload(file).subscribers, t, mode, now).subscribers))
  {
    hide SubscriberKey, StoredTarget, CleanTarget, DistinctKeys, Reloaded, KeyEntries, FindKey;
    var read := Reload(file).subscribers;
    ReloadedFacts(file.subscribers);
    UpsertSubscribes(read, t, mode, now);
    forall s | s in read ensures KeyStable(s.target) {
      StoredTargetIsClean(s.target);
    }
    ReloadedKeepsKeys(Upsert(read, t, mode, now).subscribers);
  }

  /** Subscriber keys stay pairwise distinct in every run whose command targets have stable keys. */
  lemma {:induction false} KeysStayDistinct(file: NotifyState, steps: seq<Step>)
    requires DistinctKeys(Reload(file).subscribers)
    requires forall k :: 0 <= k < |steps| ==> StableCommand(steps[k])
    ensures DistinctKeys(Reload(Run(file, steps)).subscribers)
  {
    if steps != [] {
      var before, step := Run(file, steps[..|steps| - 1]), steps[|steps| - 1];
      KeysStayDistinct(file, steps[..|steps| - 1]);
      var read := Reload(before).subscribers;
      if step.Tick? {
        TickReloads(before, step);
        DropKeysMembers(read, DeliveredOnceKeys(LogOf(before, step)));
      } else if CommandTarget(step.ctx).Some? {
        var t := CommandTarget(step.ctx).value;
        if step.action == On {
          UpsertKeepsKeys(before, t, Persistent, step.now);
        } else if step.action == Arm {
          UpsertKeepsKeys(before, t, Once, step.now);
        } else if step.action == Off {
          RemoveKeyKeepsDistinct(read, SubscriberKey(t));
          ReloadedFacts(before.subscribers);
          forall s | s in RemoveKey(read, SubscriberKey(t)).subscribers ensures s in read {
            RemoveKeyUnsubscribes(read, SubscriberKey(t), s);
          }
          ReloadedFacts(RemoveKey(read, SubscriberKey(t)).subscribers);
        }
      }
    }
  }

  ghost predicate UpsertAlwaysKeepsKeys(t: NotifyTarget) {
    forall file, mode, now :: DistinctKeys(Reload(file).subscribers) ==>
      DistinctKeys(Reloaded(Upsert(Reload(file).subscribers, t, mode, now).subscribers))
  }

  /** For a resolved target, stability of its key is exactly what upsert needs: any other target, such as one with a
      padded account id, makes two entries collide when they are next read. */
  lemma DistinctnessNeedsStableKeys(t: NotifyTarget)
    requires Trim(t.to) != ""
    ensures UpsertAlwaysKeepsKeys(t) <==> KeyStable(t)
  {
    if KeyStable(t) {
      forall file, mode, now | DistinctKeys(Reload(file).subscribers)
        ensures DistinctKeys(Reloaded(Upsert(Reload(file).subscribers, t, mode, now).subscribers))
      {
        UpsertKeepsKeys(file, t, mode, now);
      }
    } else {
      StoredTargetIsClean(t);
      var stored := StoredTarget(t);
      StoredTargetIsClean(stored);
      var entry := Subscription(stored, Once, 0);
      var file := NotifyState([entry], map[]);
      assert Reloaded([entry]) == [entry] by { ReloadedFacts([entry]); }
      var u := Upsert([entry], t, Once, 0);
      assert u.subscribers == [entry, Subscription(t, Once, 0)];
      assert u.subscribers[..1] == [entry];
      assert Reloaded(u.subscribers) == [entry, Subscription(stored, Once, 0)];
      assert SubscriberKey(Reloaded(u.subscribers)[0].target) == SubscriberKey(Reloaded(u.subscribers)[1].target);
      assert !DistinctKeys(Reloaded(Upsert(Reload(file).subscribers, t, Once, 0).subscribers));
    }
  }

  // ---------------------------------------------------------------- what commands do

  lemma {:induction false} ReloadedPointwise(subscribers: seq<Subscription>)
    requires forall o <- subscribers :: Trim(o.target.to) != ""
    ensures |Reloaded(subscribers)| == |subscribers|
    ensures forall i :: 0 <= i < |subscribers| ==>
              Reloaded(subscribers)[i] == subscribers[i].(target := StoredTarget(subscribers[i].target))
  {
    if subscribers != [] {
      ReloadedPointwise(subscribers[..|subscribers| - 1]);
    }
  }

  lemma TrimOfClean(t: NotifyTarget)
    ensures CleanTarget(t) ==> Trim(t.to) != ""
  {
  }

  lemma TargetIsTrimmed(ctx: Context)
    ensures CommandTarget(ctx).Some? ==> Trim(CommandTarget(ctx).value.to) == CommandTarget(ctx).value.to != ""
  {
    if ctx.senderId.Some? { TrimTrims(ctx.senderId.value); }
    if ctx.from.Some? { TrimTrims(ctx.from.value); }
    if ctx.to.Some? { TrimTrims(ctx.to.value); }
  }

  ghost predicate AllClean(subscribers: seq<Subscription>) {
    forall o <- subscribers :: CleanTarget(o.target)
  }

  /** Reading back a changed upsert: the new entry as it is stored, and everyone else but those under its two keys. */
  lemma UpsertReloads(read: seq<Subscription>, t: NotifyTarget, mode: Mode, now: int, s: Subscription)
    requires AllClean(read) && Trim(t.to) != "" && Upsert(read, t, mode, now).changed
    ensures var next := Reloaded(Upsert(read, t, mode, now).subscribers);
      && Subscription(StoredTarget(t), mode, now) in next
      && (SubscriberKey(s.target) != SubscriberKey(t) && SubscriberKey(s.target) != SubscriberKey(StoredTarget(t)) ==>
            (s in next <==> s in read))
  {
    hide SubscriberKey, StoredTarget, CleanTarget, Reloaded, Trim, FindKey;
    var u := Upsert(read, t, mode, now).subscribers;
    var found := FindKey(read, SubscriberKey(t));
    var i := if found.Some? then found.value else |read|;
    forall k | 0 <= k < |u| ensures Trim(u[k].target.to) != "" && (k != i ==> StoredTarget(u[k].target) == u[k].target) {
      assert k != i ==> read[k] in read;
      StoredTargetIsClean(u[k].target);
      TrimOfClean(u[k].target);
    }
    ReloadedPointwise(u);
    var next := Reloaded(u);
    assert next[i] == Subscription(StoredTarget(t), mode, now);
    assert forall k :: 0 <= k < |read| && k != i ==> next[k] == read[k];
    assert s in next ==> exists k :: 0 <= k < |next| && next[k] == s;
  }

  ghost predicate Unsubscribed(subscribers: seq<Subscription>, key: string) {
    forall o <- subscribers :: SubscriberKey(o.target) != key
  }

  /** What on and once leave, in any store and for any target: the stored target is subscribed in the mode, unless the
      command found its raw key so subscribed and the stored target was not. */
  lemma SubscribingReloads(file: NotifyState, step: Step, t: NotifyTarget, mode: Mode, s: Subscription)
    requires step.Command? && CommandTarget(step.ctx) == Some(t) && step.action == if mode == Once then Arm else On
    ensures var read, next, key, stored :=
        Reload(file).subscribers, Reload(Next(file, step)).subscribers, SubscriberKey(t), SubscriberKey(StoredTarget(t));
      && (Subscribed(next, stored, mode) <==> Subscribed(read, stored, mode) || !FirstHasMode(read, key, mode))
      && (SubscriberKey(s.target) != key && SubscriberKey(s.target) != stored ==> (s in next <==> s in read))
  {
    hide SubscriberKey, StoredTarget, Reloaded, Upsert, KeyEntries, CommandTarget, Trim, CleanTarget;
    var read := Reload(file).subscribers;
    ReloadedFacts(file.subscribers);
    TargetIsTrimmed(step.ctx);
    UpsertSubscribes(read, t, mode, step.now);
    if Upsert(read, t, mode, step.now).changed {
      UpsertReloads(read, t, mode, step.now, s);
      assert Subscription(StoredTarget(t), mode, step.now) in Reload(Next(file, step)).subscribers;
    }
  }

  /** What off leaves, in any store and for any target: it takes out one entry, if it finds the raw key. */
  lemma UnsubscribingReloads(file: NotifyState, step: Step, t: NotifyTarget, s: Subscription)
    requires step.Command? && CommandTarget(step.ctx) == Some(t) && step.action == Off
    ensures var read, next, key, stored :=
        Reload(file).subscribers, Reload(Next(file, step)).subscribers, SubscriberKey(t), SubscriberKey(StoredTarget(t));
      && (Unsubscribed(next, stored) <==> |KeyEntries(read, stored)| <= if KeyStable(t) then 1 else 0)
      && (SubscriberKey(s.target) != key ==> (s in next <==> s in read))
  {
    hide SubscriberKey, StoredTarget, Reloaded, KeyEntries, CommandTarget, CleanTarget, FindKey;
    var read, next := Reload(file).subscribers, Reload(Next(file, step)).subscribers;
    ReloadedFacts(file.subscribers);
    var r := RemoveKey(read, SubscriberKey(t)).subscribers;
    assert forall o <- r :: o in read;
    ReloadedFacts(r);
    assert next == r;
    RemoveKeyUnsubscribes(read, SubscriberKey(t), s);
    RemoveByKey(read, SubscriberKey(t), SubscriberKey(StoredTarget(t)));
    EntriesMeanSubscribed(r, SubscriberKey(StoredTarget(t)));
  }

  /** What a command does, in any store and for any target. On and once leave the stored target subscribed in their mode,
      unless the raw key already was and the stored one was not. Off leaves the stored target unsubscribed exactly when
      it had one entry at most and, if it had one, its key is stable. No other key is touched. */
  lemma CommandTakesEffect(file: NotifyState, step: Step, t: NotifyTarget, s: Subscription)
    requires step.Command? && CommandTarget(step.ctx) == Some(t)
    ensures var read, next, key, stored :=
        Reload(file).subscribers, Reload(Next(file, step)).subscribers, SubscriberKey(t), SubscriberKey(StoredTarget(t));
      && (SubscriberKey(s.target) != key && SubscriberKey(s.target) != stored ==> (s in next <==> s in read))
      && (step.action == On ==>
            (Subscribed(next, stored, Persistent) <==> Subscribed(read, stored, Persistent) || !FirstHasMode(read, key, Persistent)))
      && (step.action == Arm ==>
            (Subscribed(next, stored, Once) <==> Subscribed(read, stored, Once) || !FirstHasMode(read, key, Once)))
      && (step.action == Off ==>
            (Unsubscribed(next, stored) <==> |KeyEntries(read, stored)| <= if KeyStable(t) then 1 else 0))
  {
    hide SubscriberKey, StoredTarget, Reloaded, KeyEntries, CommandTarget, FirstHasMode, Subscribed, Commanded, KeyStable, Unsubscribed;
    match step.action
    case On => SubscribingReloads(file, step, t, Persistent, s);
    case Arm => SubscribingReloads(file, step, t, Once, s);
    case Off => UnsubscribingReloads(file, step, t, s);
    case Other => OtherDoesNothing(file, step);
  }

  lemma OtherDoesNothing(file: NotifyState, step: Step)
    requires step.Command? && (step.action == Other || CommandTarget(step.ctx).None?)
    ensures Next(file, step) == file
  {
  }

  predicate IsBlank(field: Option<string>) {
    field.None? || Trim(field.value) == ""
  }

  predicate Trimmed(field: Option<string>, text: string) {
    field.Some? && Trim(field.value) == text && text != ""
  }

  /** A command acts on Telegram only, on the first of sender, from and to that is not blank, trimmed; the account and
      the thread are taken as they are, an empty account as none. */
  lemma CommandTargetExactly(ctx: Context, t: NotifyTarget)
    ensures CommandTarget(ctx) == Some(t) <==>
            && ctx.channel == "telegram"
            && (|| Trimmed(ctx.senderId, t.to)
                || (IsBlank(ctx.senderId) && Trimmed(ctx.from, t.to))
                || (IsBlank(ctx.senderId) && IsBlank(ctx.from) && Trimmed(ctx.to, t.to)))
            && t.accountId == (if ctx.accountId == Some("") then None else ctx.accountId)
            && t.thread == ctx.thread
  {
    hide Trim;
  }

  /** The six words that act; any other word leaves the file as it is. */
  lemma ActionWords(word: string, ctx: Context, file: NotifyState, now: int)
    ensures ParseAction(word) == On <==> word in {"on", "enable"}
    ensures ParseAction(word) == Off <==> word in {"off", "disable"}
    ensures ParseAction(word) == Arm <==> word in {"once", "arm"}
    ensures word !in {"on", "enable", "off", "disable", "once", "arm"} ==> Next(file, Command(ctx, ParseAction(word), now)) == file
  {
    hide CommandTarget, Reload;
    assert "enable"[0] == 'e' && "disable"[0] == 'd' && "arm"[0] == 'a' && "on"[0] == 'o';
    assert |"on"| == 2 && |"off"| == 3 && |"once"| == 4;
  }

  /** For a target with a stable key a command does what it says: on and once always, off when keys are distinct. */
  lemma StableCommandTakesEffect(file: NotifyState, step: Step, t: NotifyTarget)
    requires step.Command? && CommandTarget(step.ctx) == Some(t) && KeyStable(t)
    ensures var read, next, key := Reload(file).subscribers, Reload(Next(file, step)).subscribers, SubscriberKey(t);
      && (step.action == On ==> Subscribed(next, key, Persistent))
      && (step.action == Arm ==> Subscribed(next, key, Once))
      && (step.action == Off && DistinctKeys(read) ==> Unsubscribed(next, key))
  {
    hide SubscriberKey, StoredTarget, Reloaded, KeyEntries, CommandTarget, Subscribed, Unsubscribed, DistinctKeys;
    var read, key := Reload(file).subscribers, SubscriberKey(t);
    CommandTakesEffect(file, step, t, Subscription(t, Once, 0));
    FirstIsSubscribed(read, key, Persistent);
    FirstIsSubscribed(read, key, Once);
    DistinctByEntries(read);
  }

  lemma FirstIsSubscribed(subscribers: seq<Subscription>, key: string, mode: Mode)
    ensures FirstHasMode(subscribers, key, mode) ==> Subscribed(subscribers, key, mode)
  {
    hide KeyEntries, SubscriberKey;
    KeyEntriesMembers(subscribers, key);
    if FirstHasMode(subscribers, key, mode) {
      assert KeyEntries(subscribers, key)[0] in KeyEntries(subscribers, key);
    }
  }

  // ---------------------------------------------------------------- runs with an unstable key

  function Subscribing(mode: Mode): Action {
    if mode == Once then Arm else On
  }

  lemma ReloadOne(s: Subscription)
    requires Trim(s.target.to) != ""
    ensures Reloaded([s]) == [s.(target := StoredTarget(s.target))]
  {
    assert [s][..0] == [];
  }

  lemma ReloadTwo(s: Subscription, u: Subscription)
    requires Trim(s.target.to) != "" && Trim(u.target.to) != ""
    ensures Reloaded([s, u]) == [s.(target := StoredTarget(s.target)), u.(target := StoredTarget(u.target))]
  {
    hide StoredTarget, Trim;
    assert [s, u][..1] == [s];
    ReloadOne(s);
  }

  /** From the empty store, subscribing stores the target as the command gave it. */
  lemma SubscribeFirst(ctx: Context, t: NotifyTarget, mode: Mode, n: int)
    requires CommandTarget(ctx) == Some(t)
    ensures var file := Next(EMPTY, Command(ctx, Subscribing(mode), n));
      && file == NotifyState([Subscription(t, mode, n)], map[])
      && Reload(file) == NotifyState([Subscription(StoredTarget(t), mode, n)], map[])
  {
    hide SubscriberKey, StoredTarget, Trim, CommandTarget, Reloaded;
    assert Reload(EMPTY) == EMPTY by { ReloadedFacts([]); }
    TargetIsTrimmed(ctx);
    ReloadOne(Subscription(t, mode, n));
  }

  lemma RunOfTwo(first: Step, second: Step)
    ensures Run(EMPTY, [first, second]) == Next(Next(EMPTY, first), second)
  {
    hide Next;
    assert [first, second][..1] == [first] && [first][..0] == [];
    assert Run(EMPTY, [first]) == Next(EMPTY, first);
  }

  /** Subscribing again does not find the stored entry when the target's key is unstable. */
  lemma SubscribeAgain(ctx: Context, t: NotifyTarget, mode: Mode, n: int, mode': Mode, m: int)
    requires CommandTarget(ctx) == Some(t) && !KeyStable(t)
    ensures Reload(Run(EMPTY, [Command(ctx, Subscribing(mode), n), Command(ctx, Subscribing(mode'), m)]))
         == NotifyState([Subscription(StoredTarget(t), mode, n), Subscription(StoredTarget(t), mode', m)], map[])
  {
    hide SubscriberKey, StoredTarget, Trim, CommandTarget, Reloaded, Run, CleanTarget;
    SubscribeFirst(ctx, t, mode, n);
    var file := Next(EMPTY, Command(ctx, Subscribing(mode), n));
    var entries := [Subscription(StoredTarget(t), mode, n), Subscription(t, mode', m)];
    assert Next(file, Command(ctx, Subscribing(mode'), m)) == NotifyState(entries, map[]);
    RunOfTwo(Command(ctx, Subscribing(mode), n), Command(ctx, Subscribing(mode'), m));
    TargetIsTrimmed(ctx);
    StoredTargetIsClean(t);
    StoredTargetIsClean(StoredTarget(t));
    TrimOfClean(StoredTarget(t));
    ReloadTwo(entries[0], entries[1]);
  }

  /** Arming twice for a target with an unstable key, from the empty store, leaves two entries with one key. */
  lemma UnstableKeyCollidesInRun(ctx: Context, t: NotifyTarget, n: int, m: int)
    requires CommandTarget(ctx) == Some(t) && !KeyStable(t)
    ensures var read := Reload(Run(EMPTY, [Command(ctx, Arm, n), Command(ctx, Arm, m)])).subscribers;
      && |read| == 2 && SubscriberKey(read[0].target) == SubscriberKey(read[1].target)
      && !DistinctKeys(read)
  {
    hide SubscriberKey, StoredTarget, Run, Reload, KeyStable, CommandTarget;
    SubscribeAgain(ctx, t, Once, n, Once, m);
  }

  /** A command context whose target has an unstable key: an account id with surrounding spaces. */
  lemma PaddedAccountIsUnstable()
    ensures var ctx := Context("telegram", Some("1"), None, None, Some(" a"), NoThread);
      CommandTarget(ctx).Some? && !KeyStable(CommandTarget(ctx).value)
  {
    TrimTrims("1");
    KeyStableExactlyWhenTrimmed(NotifyTarget("1", Some(" a"), NoThread));
  }

  // ---------------------------------------------------------------- commands that are lost

  /** After the first chat has turned notifications on, another chat's on is lost exactly when its key is the stored
      one, and another chat's off is lost exactly when it is not. */
  lemma SecondCommandIsLostExactlyWhen(ctx: Context, t: NotifyTarget, n: int, ctx': Context, t': NotifyTarget, m: int)
    requires CommandTarget(ctx) == Some(t) && CommandTarget(ctx') == Some(t')
    ensures var file := Next(EMPTY, Command(ctx, On, n));
      && Reload(file).subscribers == [Subscription(StoredTarget(t), Persistent, n)]
      && (Next(file, Command(ctx', On, m)) == file <==> SubscriberKey(t') == SubscriberKey(StoredTarget(t)))
      && (Next(file, Command(ctx', Off, m)) == file <==> SubscriberKey(t') != SubscriberKey(StoredTarget(t)))
  {
    hide SubscriberKey, StoredTarget, CommandTarget, Reload;
    SubscribeFirst(ctx, t, Persistent, n);
  }

  /** Off is lost right after an on of the same chat exactly when the target's key is unstable. */
  lemma OffAfterOnIsLostExactlyWhen(ctx: Context, t: NotifyTarget, n: int, m: int)
    requires CommandTarget(ctx) == Some(t)
    ensures Next(Next(EMPTY, Command(ctx, On, n)), Command(ctx, Off, m)) == Next(EMPTY, Command(ctx, On, n)) <==> !KeyStable(t)
  {
    hide SubscriberKey, StoredTarget, CommandTarget, Next, Reload;
    SecondCommandIsLostExactlyWhen(ctx, t, n, ctx, t, m);
  }

  /** Off leaves the stored target unsubscribed in every store with distinct keys. */
  ghost predicate OffAlwaysUnsubscribes(ctx: Context, t: NotifyTarget) {
    forall file, now :: DistinctKeys(Reload(file).subscribers) ==>
      Unsubscribed(Reload(Next(file, Command(ctx, Off, now))).subscribers, SubscriberKey(StoredTarget(t)))
  }

  lemma OffUnsubscribesExactlyWhenStable(ctx: Context, t: NotifyTarget)
    requires CommandTarget(ctx) == Some(t)
    ensures OffAlwaysUnsubscribes(ctx, t) <==> KeyStable(t)
  {
    hide SubscriberKey, StoredTarget, CommandTarget, Next, Reload, Unsubscribed;
    if KeyStable(t) {
      forall file, now | DistinctKeys(Reload(file).subscribers)
        ensures Unsubscribed(Reload(Next(file, Command(ctx, Off, now))).subscribers, SubscriberKey(StoredTarget(t)))
      {
        StableCommandTakesEffect(file, Command(ctx, Off, now), t);
      }
    } else {
      var file := Next(EMPTY, Command(ctx, On, 0));
      SecondCommandIsLostExactlyWhen(ctx, t, 0, ctx, t, 0);
      OneIsNotUnsubscribed(Subscription(StoredTarget(t), Persistent, 0));
      assert Next(file, Command(ctx, Off, 0)) == file && DistinctKeys(Reload(file).subscribers);
    }
  }

  lemma OneIsNotUnsubscribed(s: Subscription)
    ensures !Unsubscribed([s], SubscriberKey(s.target))
  {
    assert s in [s];
  }

  // ---------------------------------------------------------------- ticks of a run

  /** The run ends with a tick that removed exactly the one-shots it served. */
  ghost predicate LastTickRemovedExactlyServed(steps: seq<Step>)
    requires steps != []
  {
    RemovedExactlyServed(StoredAt(steps, |steps| - 1), StoredAt(steps, |steps|), LogAt(EMPTY, steps, |steps| - 1))
  }

  lemma LastStored(steps: seq<Step>)
    requires steps != []
    ensures StoredAt(steps, |steps|) == Reload(Next(Run(EMPTY, steps[..|steps| - 1]), steps[|steps| - 1])).subscribers
  {
    assert steps[..|steps|] == steps;
  }

  /** In every reachable store a tick removes exactly the served one-shots exactly when whoever shares a key with one
      of them is one of them, as is so if all commands before had stable keys. */
  lemma RunRemovesDeliveredOneShots(steps: seq<Step>)
    requires steps != [] && steps[|steps| - 1].Tick?
    ensures LastTickRemovedExactlyServed(steps) <==>
            KeysServedTogether(StoredAt(steps, |steps| - 1), LogAt(EMPTY, steps, |steps| - 1))
    ensures (forall k :: 0 <= k < |steps| ==> StableCommand(steps[k])) ==> LastTickRemovedExactlyServed(steps)
  {
    hide Reloaded, DistinctKeys, RemovedExactlyServed, KeysServedTogether, TickOf, Next, CommandTarget, KeyStable, Run;
    var before, step := Run(EMPTY, steps[..|steps| - 1]), steps[|steps| - 1];
    LastStored(steps);
    TickReloads(before, step);
    TickRemovesDeliveredOneShots(Reload(before), step.pending, step.now, step.outcome);
    if forall k :: 0 <= k < |steps| ==> StableCommand(steps[k]) {
      assert DistinctKeys(Reload(EMPTY).subscribers) by { NothingIsDistinct(); }
      KeysStayDistinct(EMPTY, steps[..|steps| - 1]);
    }
  }

  lemma NothingIsDistinct()
    ensures Reload(EMPTY) == EMPTY && DistinctKeys(EMPTY.subscribers)
  {
  }

  /** A run that loses a persistent subscriber: on, then once for the same chat, whose key is unstable, then a tick with
      a new request. Both entries are stored under one key, and the tick drops both. */
  function LosingRun(ctx: Context, n: int, m: int, r: PendingRequest, now: int): seq<Step> {
    [Command(ctx, On, n), Command(ctx, Arm, m), Tick([r], now, k => true)]
  }

  lemma PersistentIsLost(ctx: Context, t: NotifyTarget, n: int, m: int, r: PendingRequest, now: int)
    requires CommandTarget(ctx) == Some(t) && !KeyStable(t)
    requires r.ts.Some? && r.ts.value >= 1.0 && r.ts.value >= m as real
    ensures var steps := LosingRun(ctx, n, m, r, now);
      && Subscription(StoredTarget(t), Persistent, n) in StoredAt(steps, 2)
      && StoredAt(steps, 3) == []
      && !LastTickRemovedExactlyServed(steps)
  {
    hide SubscriberKey, StoredTarget, CommandTarget, Run, Reload, Next, TickOf, KeyStable;
    var steps := LosingRun(ctx, n, m, r, now);
    SubscribeAgain(ctx, t, Persistent, n, Once, m);
    assert steps[..2] == [Command(ctx, Subscribing(Persistent), n), Command(ctx, Subscribing(Once), m)];
    var file := Run(EMPTY, steps[..2]);
    LastStored(steps);
    TickReloads(file, steps[2]);
    TickDropsBoth(StoredTarget(t), n, m, r, now, k => true);
  }

  lemma TickDropsBoth(t: NotifyTarget, n: int, m: int, r: PendingRequest, now: int, outcome: nat -> bool)
    requires r.ts.Some? && r.ts.value >= 1.0 && r.ts.value >= m as real && outcome(1)
    ensures TickOf(NotifyState([Subscription(t, Persistent, n), Subscription(t, Once, m)], map[]), [r], now, outcome)
              .state.subscribers == []
  {
    hide SubscriberKey, ShouldNotify;
    var first, second := Subscription(t, Persistent, n), Subscription(t, Once, m);
    DueExactly(first, r);
    DueExactly(second, r);
    var subscribers := [first, second];
    assert subscribers[..1] == [first] && [first][..0] == [];
    assert Deliver([first], r, outcome, 0) == [Attempt(first, r, outcome(0))];
    assert Deliver(subscribers, r, outcome, 0) == [Attempt(first, r, outcome(0)), Attempt(second, r, outcome(1))];
    SweepOne(subscribers, Prune(map[], PendingIds([r]), now), r, now, outcome);
    var log := TickOf(NotifyState(subscribers, map[]), [r], now, outcome).log;
    assert log[1].sent && log[1].subscriber == second;
    assert SubscriberKey(t) in DeliveredOnceKeys(log);
    assert DropKeys([first], DeliveredOnceKeys(log)) == [];
  }

  /** The run's commands all come from one chat, and it ends with a tick. */
  predicate TickRunOf(ctx: Context, steps: seq<Step>) {
    && steps != [] && steps[|steps| - 1].Tick?
    && forall k :: 0 <= k < |steps| && steps[k].Command? ==> steps[k].ctx == ctx
  }

  ghost predicate EveryRunRemovesExactlyServed(ctx: Context) {
    forall steps :: TickRunOf(ctx, steps) ==> LastTickRemovedExactlyServed(steps)
  }

  /** The ticks of all runs with one chat remove exactly the one-shots they served exactly when the chat's target has a
      stable key; with any other target some run loses a persistent subscriber. */
  lemma RemovalNeedsStableKeys(ctx: Context, t: NotifyTarget)
    requires CommandTarget(ctx) == Some(t)
    ensures EveryRunRemovesExactlyServed(ctx) <==> KeyStable(t)
  {
    hide LastTickRemovedExactlyServed, CommandTarget, KeyStable;
    if KeyStable(t) {
      forall steps | TickRunOf(ctx, steps) ensures LastTickRemovedExactlyServed(steps) {
        RunRemovesDeliveredOneShots(steps);
      }
    } else {
      var r := PendingRequest("a", Some(1.0));
      PersistentIsLost(ctx, t, 0, 0, r, 1);
      assert TickRunOf(ctx, LosingRun(ctx, 0, 0, r, 1));
    }
  }
}
