/** The memoised LanceDB loader: one shared attempt, a fallback chain inside it, and a reset when it fails. */
module LanceDbLoader {
  import opened Text

  datatype LoadError = NixMode(bundledError: string) | AfterInstall(runtimeError: string) | Thrown(error: string)

  /** Where an attempt stands. Throwing: its body rejected but the catch handler has not run yet. */
  datatype Phase =
    | ImportingBundled
    | ImportingCached(entry: string, bundledError: string)
    | Installing
    | ImportingInstalled(entry: string)
    | Throwing(error: LoadError)
    | Failed(error: LoadError)
    | Loaded(mod: string)

  datatype Effect = ImportBundled(a: nat) | ImportResolved(a: nat, entry: string) | Install(a: nat)

  /** What a call of load has so far. */
  datatype Answer = Waiting(a: nat) | Got(a: nat, mod: string) | Threw(a: nat, error: LoadError)

  datatype State = State(loadPromise: Option<nat>, attempts: seq<Phase>, calls: seq<Answer>, effects: seq<Effect>)

  const INITIAL := State(None, [], [], [])

  /** The synchronous lookup of an installed runtime: it may throw, find nothing, or give an entry path. */
  datatype Lookup = LookupThrew(error: string) | NoRuntime | Runtime(entry: string)

  datatype Event =
    | Load
    | Imported(a: nat, mod: string)
    | BundledRejected(a: nat, error: string, lookup: Lookup, nixMode: bool)
    | CachedRejected(a: nat, nixMode: bool)
    | InstallFinished(a: nat, entry: string)
    | InstallRejected(a: nat, error: string)
    | InstalledRejected(a: nat, error: string)
    | CatchHandler(a: nat)
    | Resume(c: nat)

  predicate Importing(phase: Phase) {
    phase.ImportingBundled? || phase.ImportingCached? || phase.ImportingInstalled?
  }

  predicate Enabled(s: State, e: Event) {
    match e
    case Load => true
    case Imported(a, _) => a < |s.attempts| && Importing(s.attempts[a])
    case BundledRejected(a, _, _, _) => a < |s.attempts| && s.attempts[a].ImportingBundled?
    case CachedRejected(a, _) => a < |s.attempts| && s.attempts[a].ImportingCached?
    case InstallFinished(a, _) => a < |s.attempts| && s.attempts[a].Installing?
    case InstallRejected(a, _) => a < |s.attempts| && s.attempts[a].Installing?
    case InstalledRejected(a, _) => a < |s.attempts| && s.attempts[a].ImportingInstalled?
    case CatchHandler(a) => a < |s.attempts| && s.attempts[a].Throwing?
    case Resume(c) =>
      && c < |s.calls| && s.calls[c].Waiting? && s.calls[c].a < |s.attempts|
      && (s.attempts[s.calls[c].a].Loaded? || s.attempts[s.calls[c].a].Failed?)
  }

  /** Attempt a moves to a phase, with the effects it starts there. */
  function Move(s: State, a: nat, phase: Phase, effects: seq<Effect>): State
    requires a < |s.attempts|
  {
    s.(attempts := s.attempts[a := phase], effects := s.effects + effects)
  }

  /** No importable cached runtime: give up in Nix mode, install otherwise. */
  function InstallUnlessNix(s: State, a: nat, bundledError: string, nixMode: bool): State
    requires a < |s.attempts|
  {
    if nixMode then Move(s, a, Throwing(NixMode(bundledError)), []) else Move(s, a, Installing, [Install(a)])
  }

  function AfterBundledFailure(s: State, a: nat, error: string, lookup: Lookup, nixMode: bool): State
    requires a < |s.attempts|
  {
    match lookup
    case LookupThrew(thrown) => Move(s, a, Throwing(Thrown(thrown)), [])
    case NoRuntime => InstallUnlessNix(s, a, error, nixMode)
    case Runtime(entry) =>
      if entry == "" then InstallUnlessNix(s, a, error, nixMode)
      else Move(s, a, ImportingCached(entry, error), [ImportResolved(a, entry)])
  }

  function LoadStep(s: State): State {
    match s.loadPromise
    case Some(a) => s.(calls := s.calls + [Waiting(a)])
    case None =>
      var a := |s.attempts|;
      State(Some(a), s.attempts + [ImportingBundled], s.calls + [Waiting(a)], s.effects + [ImportBundled(a)])
  }

  function ResumeStep(s: State, c: nat): State
    requires Enabled(s, Resume(c))
  {
    var a := s.calls[c].a;
    s.(calls := s.calls[c := if s.attempts[a].Loaded? then Got(a, s.attempts[a].mod) else Threw(a, s.attempts[a].error)])
  }

  /** One turn; an event that is not enabled leaves the state alone. */
  function Next(s: State, e: Event): State {
    if !Enabled(s, e) then s
    else
      match e
      case Load => LoadStep(s)
      case Imported(a, mod) => Move(s, a, Loaded(mod), [])
      case BundledRejected(a, error, lookup, nixMode) => AfterBundledFailure(s, a, error, lookup, nixMode)
      case CachedRejected(a, nixMode) => InstallUnlessNix(s, a, s.attempts[a].bundledError, nixMode)
      case InstallFinished(a, entry) => Move(s, a, ImportingInstalled(entry), [ImportResolved(a, entry)])
      case InstallRejected(a, error) => Move(s, a, Throwing(Thrown(error)), [])
      case InstalledRejected(a, error) => Move(s, a, Throwing(AfterInstall(error)), [])
      case CatchHandler(a) => Move(s, a, Failed(s.attempts[a].error), []).(loadPromise := None)
      case Resume(c) => ResumeStep(s, c)
  }

  function Run(events: seq<Event>): State {
    if events == [] then INITIAL else Next(Run(events[..|events| - 1]), events[|events| - 1])
  }

  // ---------------------------------------------------------------- the implementation

  /** The closure of createLanceDbRuntimeLoader, with the attempts, calls and effects it has caused. */
  class Loader {
    var loadPromise: Option<nat>
    var attempts: seq<Phase>
    var calls: seq<Answer>
    var effects: seq<Effect>

    function View(): State
      reads this
    {
      State(loadPromise, attempts, calls, effects)
    }

    constructor ()
      ensures View() == INITIAL
    {
      loadPromise, attempts, calls, effects := None, [], [], [];
    }

    /** load: start an attempt unless one is remembered, and wait for it. */
    method Load() returns (c: nat)
      modifies this
      ensures View() == Next(old(View()), Event.Load)
      ensures c == |old(calls)| && c < |calls| && Some(calls[c].a) == loadPromise
    {
      if loadPromise.None? {
        loadPromise := Some(|attempts|);
        effects := effects + [ImportBundled(|attempts|)];
        attempts := attempts + [ImportingBundled];
      }
      c := |calls|;
      calls := calls + [Waiting(loadPromise.value)];
    }

    /** The catch branch of the attempt, up to its next await or throw. */
    method BundledImportRejects(a: nat, error: string, lookup: Lookup, nixMode: bool)
      requires Enabled(View(), BundledRejected(a, error, lookup, nixMode))
      modifies this`attempts, this`effects
      ensures View() == Next(old(View()), BundledRejected(a, error, lookup, nixMode))
    {
      if lookup.LookupThrew? {
        attempts := attempts[a := Throwing(Thrown(lookup.error))];
        return;
      }
      if lookup.Runtime? && lookup.entry != "" {
        effects := effects + [ImportResolved(a, lookup.entry)];
        attempts := attempts[a := ImportingCached(lookup.entry, error)];
        return;
      }
      InstallOrThrow(a, error, nixMode);
    }

    method CachedImportRejects(a: nat, nixMode: bool)
      requires Enabled(View(), CachedRejected(a, nixMode))
      modifies this`attempts, this`effects
      ensures View() == Next(old(View()), CachedRejected(a, nixMode))
    {
      InstallOrThrow(a, attempts[a].bundledError, nixMode);
    }

    method InstallOrThrow(a: nat, bundledError: string, nixMode: bool)
      requires a < |attempts|
      modifies this`attempts, this`effects
      ensures View() == InstallUnlessNix(old(View()), a, bundledError, nixMode)
    {
      if nixMode {
        attempts := attempts[a := Throwing(NixMode(bundledError))];
        return;
      }
      effects := effects + [Install(a)];
      attempts := attempts[a := Installing];
    }

    /** One of the attempt's three imports resolves, and the attempt with it. */
    method ImportResolves(a: nat, mod: string)
      requires Enabled(View(), Imported(a, mod))
      modifies this`attempts
      ensures View() == Next(old(View()), Imported(a, mod))
    {
      attempts := attempts[a := Loaded(mod)];
    }

    /** The installer resolves to an entry path, which is then imported. */
    method InstallResolves(a: nat, entry: string)
      requires Enabled(View(), InstallFinished(a, entry))
      modifies this`attempts, this`effects
      ensures View() == Next(old(View()), InstallFinished(a, entry))
    {
      effects := effects + [ImportResolved(a, entry)];
      attempts := attempts[a := ImportingInstalled(entry)];
    }

    method InstallRejects(a: nat, error: string)
      requires Enabled(View(), InstallRejected(a, error))
      modifies this`attempts
      ensures View() == Next(old(View()), InstallRejected(a, error))
    {
      attempts := attempts[a := Throwing(Thrown(error))];
    }

    method InstalledImportRejects(a: nat, error: string)
      requires Enabled(View(), InstalledRejected(a, error))
      modifies this`attempts
      ensures View() == Next(old(View()), InstalledRejected(a, error))
    {
      attempts := attempts[a := Throwing(AfterInstall(error))];
    }

    /** The handler that forgets a failed attempt: it clears loadPromise without looking at what it holds. */
    method ForgetFailedAttempt(a: nat)
      requires Enabled(View(), CatchHandler(a))
      modifies this`loadPromise, this`attempts
      ensures View() == Next(old(View()), CatchHandler(a))
    {
      loadPromise := None;
      attempts := attempts[a := Failed(attempts[a].error)];
    }
  }

  // ---------------------------------------------------------------- the invariant

  predicate AnswerOk(s: State, answer: Answer) {
    match answer
    case Waiting(a) => a < |s.attempts|
    case Got(a, mod) => a < |s.attempts| && s.attempts[a] == Loaded(mod)
    case Threw(a, error) => a < |s.attempts| && s.attempts[a] == Failed(error)
  }

  /** Every attempt but the remembered one has failed; the remembered one is the newest and has not. */
  predicate Inv(s: State) {
    && (match s.loadPromise
        case None => forall a :: 0 <= a < |s.attempts| ==> s.attempts[a].Failed?
        case Some(last) =>
          && last == |s.attempts| - 1 && !s.attempts[last].Failed?
          && forall a :: 0 <= a < last ==> s.attempts[a].Failed?)
    && (forall c :: 0 <= c < |s.calls| ==> AnswerOk(s, s.calls[c]))
  }

  lemma NextKeepsInv(s: State, e: Event)
    requires Inv(s)
    ensures Inv(Next(s, e))
  {
    var t := Next(s, e);
    forall c | 0 <= c < |t.calls| ensures AnswerOk(t, t.calls[c]) {
      if c < |s.calls| { assert AnswerOk(s, s.calls[c]); }
    }
  }

  lemma {:induction false} RunKeepsInv(events: seq<Event>)
    ensures Inv(Run(events))
  {
    if events != [] {
      RunKeepsInv(events[..|events| - 1]);
      NextKeepsInv(Run(events[..|events| - 1]), events[|events| - 1]);
    }
  }

  // ---------------------------------------------------------------- main results

  predicate Finished(phase: Phase) {
    phase.Loaded? || phase.Failed?
  }

  /** In every interleaving at most one attempt is unfinished, and it is the one that load remembers. */
  lemma OneAttemptAtATime(events: seq<Event>, a: nat, b: nat)
    requires a < |Run(events).attempts| && b < |Run(events).attempts|
    requires !Finished(Run(events).attempts[a])
    ensures Run(events).loadPromise == Some(a)
    ensures !Run(events).attempts[b].Failed? ==> b == a
  {
    RunKeepsInv(events);
  }

  /** The reset after a failure clears the failed attempt itself, never a newer one, and the next load starts afresh. */
  lemma ResetForgetsOnlyTheFailedAttempt(events: seq<Event>, a: nat)
    requires Enabled(Run(events), CatchHandler(a))
    ensures Run(events).loadPromise == Some(a) && a == |Run(events).attempts| - 1
    ensures Next(Next(Run(events), CatchHandler(a)), Load).effects == Run(events).effects + [ImportBundled(a + 1)]
  {
    RunKeepsInv(events);
  }

  ghost predicate AllGot(calls: seq<Answer>, from: nat, a: nat, mod: string) {
    forall c :: from <= c < |calls| ==> calls[c] == Waiting(a) || calls[c] == Got(a, mod)
  }

  lemma {:induction false} LoadedStays(s: State, events: seq<Event>, a: nat)
    requires Inv(s) && a < |s.attempts| && s.attempts[a].Loaded?
    ensures var t := RunFrom(s, events);
      && t.attempts == s.attempts && t.effects == s.effects && t.loadPromise == Some(a)
      && |s.calls| <= |t.calls| && AllGot(t.calls, |s.calls|, a, s.attempts[a].mod)
  {
    if events != [] {
      LoadedStays(s, events[..|events| - 1], a);
    }
  }

  function RunFrom(s: State, events: seq<Event>): State {
    if events == [] then s else Next(RunFrom(s, events[..|events| - 1]), events[|events| - 1])
  }

  lemma {:induction false} RunSplits(events: seq<Event>, more: seq<Event>)
    ensures Run(events + more) == RunFrom(Run(events), more)
  {
    hide Next;
    if more == [] {
      assert events + more == events;
    } else {
      RunSplits(events, more[..|more| - 1]);
      assert (events + more)[..|events + more| - 1] == events + more[..|more| - 1];
    }
  }

  /** Once an attempt has loaded a module, no interleaving causes another import or install, and every later load
      waits for that attempt or returns its module. */
  lemma SuccessIsFinal(events: seq<Event>, more: seq<Event>, a: nat)
    requires a < |Run(events).attempts| && Run(events).attempts[a].Loaded?
    ensures Run(events + more).effects == Run(events).effects
    ensures Run(events + more).loadPromise == Some(a)
    ensures AllGot(Run(events + more).calls, |Run(events).calls|, a, Run(events).attempts[a].mod)
  {
    RunKeepsInv(events);
    LoadedStays(Run(events), more, a);
    RunSplits(events, more);
  }

  lemma NextKeepsJoined(s: State, e: Event, c: nat)
    requires c < |s.calls|
    ensures c < |Next(s, e).calls| && Next(s, e).calls[c].a == s.calls[c].a
  {
  }

  /** A caller is given the module or the error of the attempt it joined, which is the one remembered when it called. */
  lemma {:induction false} CallerGetsJoinedAttempt(events: seq<Event>, more: seq<Event>, c: nat)
    requires c == |Run(events).calls|
    ensures var s, t := Next(Run(events), Load), RunFrom(Next(Run(events), Load), more);
      && s.loadPromise.Some? && c < |t.calls| && t.calls[c].a == s.loadPromise.value
      && AnswerOk(t, t.calls[c])
  {
    hide Next, Inv;
    var s := Next(Run(events), Load);
    RunKeepsInv(events);
    LoadJoins(Run(events));
    RunFromKeepsInv(s, more);
    InvMeansAnswersOk(RunFrom(s, more));
    if more != [] {
      CallerGetsJoinedAttempt(events, more[..|more| - 1], c);
      NextKeepsJoined(RunFrom(s, more[..|more| - 1]), more[|more| - 1], c);
    }
  }

  lemma LoadJoins(s: State)
    requires Inv(s)
    ensures var t := Next(s, Load);
      Inv(t) && t.loadPromise.Some? && t.calls == s.calls + [Waiting(t.loadPromise.value)]
  {
    NextKeepsInv(s, Load);
  }

  lemma InvMeansAnswersOk(s: State)
    requires Inv(s)
    ensures forall c :: 0 <= c < |s.calls| ==> AnswerOk(s, s.calls[c])
  {
  }

  lemma {:induction false} RunFromKeepsInv(s: State, events: seq<Event>)
    requires Inv(s)
    ensures Inv(RunFrom(s, events))
  {
    if events != [] {
      RunFromKeepsInv(s, events[..|events| - 1]);
      NextKeepsInv(RunFrom(s, events[..|events| - 1]), events[|events| - 1]);
    }
  }

  /** A continuation of attempt a has yet to run: an import or install to settle, or the catch handler. */
  predicate Unfinished(s: State, a: nat) {
    a < |s.attempts| && !Finished(s.attempts[a])
  }

  /** When no attempt has anything left to run, every waiting caller can be resumed, and load either remembers a loaded
      module or starts afresh. */
  lemma NoCallerIsStranded(events: seq<Event>)
    requires forall a: nat :: !Unfinished(Run(events), a)
    ensures forall c :: 0 <= c < |Run(events).calls| && Run(events).calls[c].Waiting? ==> Enabled(Run(events), Resume(c))
    ensures match Run(events).loadPromise
            case None => true
            case Some(a) => a < |Run(events).attempts| && Run(events).attempts[a].Loaded?
  {
    var s := Run(events);
    RunKeepsInv(events);
    forall c | 0 <= c < |s.calls| && s.calls[c].Waiting? ensures Enabled(s, Resume(c)) {
      assert AnswerOk(s, s.calls[c]) && !Unfinished(s, s.calls[c].a);
    }
    if s.loadPromise.Some? {
      assert !Unfinished(s, s.loadPromise.value);
    }
  }

  /** The bundled import of attempt a was rejected at step j, and the lookup then found `entry`. */
  ghost predicate FoundCachedAt(events: seq<Event>, j: nat, a: nat, entry: string, bundledError: string)
    requires j < |events|
  {
    && events[j].BundledRejected? && events[j].a == a && events[j].error == bundledError
    && events[j].lookup == Runtime(entry) && entry != "" && Enabled(Run(events[..j]), events[j])
  }

  lemma {:induction false} CachedImportHasCause(events: seq<Event>, n: nat, a: nat)
    requires n <= |events| && a < |Run(events[..n]).attempts| && Run(events[..n]).attempts[a].ImportingCached?
    ensures exists j :: 0 <= j < n
              && FoundCachedAt(events, j, a, Run(events[..n]).attempts[a].entry, Run(events[..n]).attempts[a].bundledError)
  {
    if n == 0 {
      assert false;
    } else {
      assert events[..n][..n - 1] == events[..n - 1];
      var before, after := Run(events[..n - 1]), Run(events[..n]);
      if a < |before.attempts| && before.attempts[a] == after.attempts[a] {
        CachedImportHasCause(events, n - 1, a);
      } else {
        assert FoundCachedAt(events, n - 1, a, after.attempts[a].entry, after.attempts[a].bundledError);
      }
    }
  }

  /** The step at index n starts an install for attempt a. */
  predicate StartsInstall(events: seq<Event>, n: nat, a: nat)
    requires n < |events|
  {
    Next(Run(events[..n]), events[n]).effects == Run(events[..n]).effects + [Install(a)]
  }

  /** The step is a rejection, with Nix mode off, that leaves attempt a without an importable runtime. */
  ghost predicate LastResort(events: seq<Event>, n: nat, a: nat)
    requires n < |events|
  {
    match events[n]
    case BundledRejected(b, _, lookup, nixMode) => b == a && !nixMode && (lookup == NoRuntime || lookup == Runtime(""))
    case CachedRejected(b, nixMode) =>
      b == a && !nixMode && exists j, entry, error :: 0 <= j < n && FoundCachedAt(events, j, a, entry, error)
    case _ => false
  }

  /** An install runs only when Nix mode is off, the bundled import of the same attempt was rejected, and either no
      cached runtime was found or importing the one found was rejected too; and in those cases it does run. */
  lemma InstallExactlyAsLastResort(events: seq<Event>, n: nat, a: nat)
    requires n < |events|
    ensures StartsInstall(events, n, a) <==> Enabled(Run(events[..n]), events[n]) && LastResort(events, n, a)
  {
    var s, e := Run(events[..n]), events[n];
    assert s.effects + [] == s.effects;
    assert StartsInstall(events, n, a) ==> Next(s, e).effects[|s.effects|] == Install(a);
    if e.CachedRejected? && Enabled(s, e) {
      CachedImportHasCause(events, n, e.a);
    }
  }

  /** Every step starts at most one effect: the bundled import when a call finds every earlier attempt failed, the import
      of the entry that the lookup found or the installer returned, or, as InstallExactlyAsLastResort says, an install. */
  lemma EffectsExactly(events: seq<Event>, n: nat, a: nat, entry: string)
    requires n < |events|
    ensures var s, t := Run(events[..n]), Next(Run(events[..n]), events[n]);
      && |s.effects| <= |t.effects| <= |s.effects| + 1 && t.effects[..|s.effects|] == s.effects
      && (t.effects == s.effects + [ImportBundled(a)] <==>
            events[n] == Load && a == |s.attempts| && forall b :: 0 <= b < a ==> s.attempts[b].Failed?)
      && (t.effects == s.effects + [ImportResolved(a, entry)] <==>
            a < |s.attempts|
            && ((s.attempts[a].ImportingBundled? && events[n].BundledRejected? && events[n].a == a
                 && events[n].lookup == Runtime(entry) && entry != "")
                || (s.attempts[a].Installing? && events[n] == InstallFinished(a, entry))))
  {
    RunKeepsInv(events[..n]);
    var s, t := Run(events[..n]), Next(Run(events[..n]), events[n]);
    assert s.effects + [] == s.effects;
    assert |t.effects| > |s.effects| ==> t.effects == s.effects + [t.effects[|s.effects|]];
  }

  // ---------------------------------------------------------------- where answers come from

  /** Step m is the import that attempt a was waiting for, resolving to the module. */
  ghost predicate ImportedAt(events: seq<Event>, m: nat, a: nat, mod: string) {
    && m < |events| && events[m] == Imported(a, mod)
    && a < |Run(events[..m]).attempts| && Importing(Run(events[..m]).attempts[a])
  }

  /** Step m is the rejection that ends attempt a with the error. */
  ghost predicate RejectedAt(events: seq<Event>, m: nat, a: nat, error: LoadError) {
    && m < |events| && a < |Run(events[..m]).attempts|
    && var e, phase := events[m], Run(events[..m]).attempts[a];
       match error
       case NixMode(text) =>
         || (phase.ImportingBundled? && exists lookup :: e == BundledRejected(a, text, lookup, true) && (lookup == NoRuntime || lookup == Runtime("")))
         || (phase.ImportingCached? && e == CachedRejected(a, true) && exists j, entry :: 0 <= j < m && FoundCachedAt(events, j, a, entry, text))
       case AfterInstall(text) => phase.ImportingInstalled? && e == InstalledRejected(a, text)
       case Thrown(text) =>
         || (phase.Installing? && e == InstallRejected(a, text))
         || (phase.ImportingBundled? && exists bundledError, nixMode :: e == BundledRejected(a, bundledError, LookupThrew(text), nixMode))
  }

  lemma NextLoads(s: State, e: Event, a: nat)
    requires a < |Next(s, e).attempts| && Next(s, e).attempts[a].Loaded?
    ensures a < |s.attempts|
    ensures s.attempts[a] == Next(s, e).attempts[a] ||
            (Importing(s.attempts[a]) && e == Imported(a, Next(s, e).attempts[a].mod))
  {
  }

  lemma {:induction false} LoadedByImport(events: seq<Event>, a: nat)
    requires a < |Run(events).attempts| && Run(events).attempts[a].Loaded?
    ensures exists m: nat :: ImportedAt(events, m, a, Run(events).attempts[a].mod)
  {
    hide Next;
    var n := |events| - 1;
    var init, mod := events[..n], Run(events).attempts[a].mod;
    NextLoads(Run(init), events[n], a);
    if Run(init).attempts[a] == Loaded(mod) {
      LoadedByImport(init, a);
      var m: nat :| ImportedAt(init, m, a, mod);
      assert init[..m] == events[..m];
      assert ImportedAt(events, m, a, mod);
    } else {
      assert ImportedAt(events, n, a, mod);
    }
  }

  /** Every module handed to a caller is the one that an import of the caller's attempt resolved to. */
  lemma GotComesFromImport(events: seq<Event>, c: nat)
    requires c < |Run(events).calls| && Run(events).calls[c].Got?
    ensures exists m: nat :: ImportedAt(events, m, Run(events).calls[c].a, Run(events).calls[c].mod)
  {
    RunKeepsInv(events);
    assert AnswerOk(Run(events), Run(events).calls[c]);
    LoadedByImport(events, Run(events).calls[c].a);
  }

  predicate EndsWith(phase: Phase, error: LoadError) {
    phase == Throwing(error) || phase == Failed(error)
  }

  lemma NextThrows(s: State, e: Event, a: nat, error: LoadError)
    requires a < |Next(s, e).attempts| && EndsWith(Next(s, e).attempts[a], error)
    ensures a < |s.attempts|
    ensures EndsWith(s.attempts[a], error) ||
            match error
            case NixMode(text) =>
              || (s.attempts[a].ImportingBundled? && e.BundledRejected? && e == BundledRejected(a, text, e.lookup, true)
                  && (e.lookup == NoRuntime || e.lookup == Runtime("")))
              || (s.attempts[a].ImportingCached? && e == CachedRejected(a, true) && s.attempts[a].bundledError == text)
            case AfterInstall(text) => s.attempts[a].ImportingInstalled? && e == InstalledRejected(a, text)
            case Thrown(text) =>
              || (s.attempts[a].Installing? && e == InstallRejected(a, text))
              || (s.attempts[a].ImportingBundled? && e.BundledRejected? && e == BundledRejected(a, e.error, LookupThrew(text), e.nixMode))
  {
  }

  lemma {:induction false} EndedByRejection(events: seq<Event>, a: nat, error: LoadError)
    requires a < |Run(events).attempts| && EndsWith(Run(events).attempts[a], error)
    ensures exists m: nat :: RejectedAt(events, m, a, error)
  {
    hide Next, EndsWith;
    var n := |events| - 1;
    var init := events[..n];
    NextThrows(Run(init), events[n], a, error);
    if EndsWith(Run(init).attempts[a], error) {
      EndedByRejection(init, a, error);
      var m: nat :| RejectedAt(init, m, a, error);
      RejectedBefore(events, n, m, a, error);
    } else {
      if Run(init).attempts[a].ImportingCached? {
        CachedImportHasCause(events, n, a);
      }
      assert RejectedAt(events, n, a, error);
    }
  }

  lemma RejectedBefore(events: seq<Event>, n: nat, m: nat, a: nat, error: LoadError)
    requires n <= |events| && RejectedAt(events[..n], m, a, error)
    ensures RejectedAt(events, m, a, error)
  {
    hide Run, Enabled;
    assert forall k :: 0 <= k <= n ==> events[..n][..k] == events[..k];
    if error.NixMode? && events[m] == CachedRejected(a, true) {
      var j, entry :| 0 <= j < m && FoundCachedAt(events[..n], j, a, entry, error.bundledError);
      assert FoundCachedAt(events, j, a, entry, error.bundledError);
    }
  }

  /** Every error handed to a caller is that of a rejection of the caller's attempt, with its own text. */
  lemma ThrewComesFromRejection(events: seq<Event>, c: nat)
    requires c < |Run(events).calls| && Run(events).calls[c].Threw?
    ensures exists m: nat :: RejectedAt(events, m, Run(events).calls[c].a, Run(events).calls[c].error)
  {
    RunKeepsInv(events);
    assert AnswerOk(Run(events), Run(events).calls[c]);
    EndedByRejection(events, Run(events).calls[c].a, Run(events).calls[c].error);
  }

  /** A waiting call whose attempt is finished is given its module or its error when it resumes. */
  lemma WaiterIsAnswered(events: seq<Event>, c: nat, a: nat)
    requires c < |Run(events).calls| && Run(events).calls[c] == Waiting(a)
    ensures a < |Run(events).attempts|
    ensures var s := Run(events);
      && (s.attempts[a].Loaded? ==> Next(s, Resume(c)).calls[c] == Got(a, s.attempts[a].mod))
      && (s.attempts[a].Failed? ==> Next(s, Resume(c)).calls[c] == Threw(a, s.attempts[a].error))
  {
    RunKeepsInv(events);
    assert AnswerOk(Run(events), Run(events).calls[c]);
  }

  // ---------------------------------------------------------------- the attempt as a straight line

  datatype Reply = Ok(value: string) | Err(error: string)

  /** How the world answers one attempt: its imports, the lookup, Nix mode and the installer. */
  datatype World = World(bundled: Reply, lookup: Lookup, cached: Reply, nixMode: bool, install: Reply, installed: Reply)

  /** The attempt read from top to bottom: the bundled runtime, else an importable cached one, else, outside Nix mode, a
      fresh install. */
  function Expected(w: World): Phase {
    if w.bundled.Ok? then Loaded(w.bundled.value)
    else if w.lookup.LookupThrew? then Failed(Thrown(w.lookup.error))
    else if w.lookup.Runtime? && w.lookup.entry != "" && w.cached.Ok? then Loaded(w.cached.value)
    else if w.nixMode then Failed(NixMode(w.bundled.error))
    else if w.install.Err? then Failed(Thrown(w.install.error))
    else if w.installed.Err? then Failed(AfterInstall(w.installed.error))
    else Loaded(w.installed.value)
  }

  /** The event, if it is one of attempt a, is how the world answers. */
  predicate Agrees(s: State, e: Event, a: nat, w: World) {
    match e
    case Imported(b, mod) =>
      b == a && a < |s.attempts| ==>
        && (s.attempts[a].ImportingBundled? ==> w.bundled == Ok(mod))
        && (s.attempts[a].ImportingCached? ==> w.cached == Ok(mod))
        && (s.attempts[a].ImportingInstalled? ==> w.installed == Ok(mod))
    case BundledRejected(b, error, lookup, nixMode) =>
      b == a ==> w.bundled == Err(error) && w.lookup == lookup && w.nixMode == nixMode
    case CachedRejected(b, nixMode) => b == a ==> w.cached.Err? && w.nixMode == nixMode
    case InstallFinished(b, entry) => b == a ==> w.install == Ok(entry)
    case InstallRejected(b, error) => b == a ==> w.install == Err(error)
    case InstalledRejected(b, error) => b == a ==> w.installed == Err(error)
    case _ => true
  }

  ghost predicate AllAgree(events: seq<Event>, a: nat, w: World) {
    forall m :: 0 <= m < |events| ==> Agrees(Run(events[..m]), events[m], a, w)
  }

  /** The world's answers that bring an attempt to a phase. */
  predicate Fits(phase: Phase, w: World) {
    match phase
    case ImportingBundled => true
    case ImportingCached(entry, bundledError) => w.bundled == Err(bundledError) && w.lookup == Runtime(entry) && entry != ""
    case Installing => MustInstall(w)
    case ImportingInstalled(entry) => MustInstall(w) && w.install == Ok(entry)
    case Throwing(error) => Expected(w) == Failed(error)
    case _ => Expected(w) == phase
  }

  predicate MustInstall(w: World) {
    && w.bundled.Err? && !w.lookup.LookupThrew? && !w.nixMode
    && (w.lookup.Runtime? && w.lookup.entry != "" ==> w.cached.Err?)
  }

  lemma NextFits(s: State, e: Event, a: nat, w: World)
    requires Agrees(s, e, a, w) && (a < |s.attempts| ==> Fits(s.attempts[a], w))
    ensures a < |Next(s, e).attempts| ==> Fits(Next(s, e).attempts[a], w)
  {
  }

  lemma {:induction false} RunFits(events: seq<Event>, a: nat, w: World)
    requires AllAgree(events, a, w)
    ensures a < |Run(events).attempts| ==> Fits(Run(events).attempts[a], w)
  {
    hide Next, Agrees, Fits;
    if events != [] {
      var init := events[..|events| - 1];
      assert forall m :: 0 <= m <= |init| ==> init[..m] == events[..m];
      RunFits(init, a, w);
      NextFits(Run(init), events[|events| - 1], a, w);
    }
  }

  /** In every interleaving, an attempt that has finished has come out as its straight-line reading says. */
  lemma OutcomeIsExpected(events: seq<Event>, a: nat, w: World)
    requires AllAgree(events, a, w) && a < |Run(events).attempts| && Finished(Run(events).attempts[a])
    ensures Run(events).attempts[a] == Expected(w)
  {
    hide Run, AllAgree, Expected;
    RunFits(events, a, w);
  }

  function Rank(phase: Phase): nat {
    match phase
    case ImportingBundled => 5
    case ImportingCached(_, _) => 4
    case Installing => 3
    case ImportingInstalled(_) => 2
    case Throwing(_) => 1
    case _ => 0
  }

  /** The world's next answer to an unfinished attempt. */
  function WorldEvent(phase: Phase, a: nat, w: World): Event
    requires !Finished(phase)
  {
    match phase
    case ImportingBundled =>
      if w.bundled.Ok? then Imported(a, w.bundled.value) else BundledRejected(a, w.bundled.error, w.lookup, w.nixMode)
    case ImportingCached(_, _) => if w.cached.Ok? then Imported(a, w.cached.value) else CachedRejected(a, w.nixMode)
    case Installing => if w.install.Ok? then InstallFinished(a, w.install.value) else InstallRejected(a, w.install.error)
    case ImportingInstalled(_) =>
      if w.installed.Ok? then Imported(a, w.installed.value) else InstalledRejected(a, w.installed.error)
    case Throwing(_) => CatchHandler(a)
  }

  lemma WorldEventMoves(s: State, a: nat, w: World)
    requires a < |s.attempts| && !Finished(s.attempts[a])
    ensures var e := WorldEvent(s.attempts[a], a, w);
      Agrees(s, e, a, w) && a < |Next(s, e).attempts| && Rank(Next(s, e).attempts[a]) < Rank(s.attempts[a])
  {
  }

  lemma OneMoreAgrees(events: seq<Event>, e: Event, a: nat, w: World)
    requires AllAgree(events, a, w) && Agrees(Run(events), e, a, w)
    ensures AllAgree(events + [e], a, w) && Run(events + [e]) == Next(Run(events), e)
  {
    hide Next, Agrees;
    var longer := events + [e];
    assert longer[..|events|] == events;
    assert forall m :: 0 <= m <= |events| ==> longer[..m] == events[..m];
  }

  /** At any point of any run an attempt is at most five of the world's answers away from its outcome. */
  lemma {:induction false} AttemptFinishes(events: seq<Event>, a: nat, w: World) returns (more: seq<Event>)
    requires AllAgree(events, a, w) && a < |Run(events).attempts|
    ensures |more| <= Rank(Run(events).attempts[a]) <= 5 && AllAgree(events + more, a, w)
    ensures a < |Run(events + more).attempts| && Run(events + more).attempts[a] == Expected(w)
    decreases Rank(Run(events).attempts[a])
  {
    hide Next, Run, AllAgree, Agrees, WorldEvent, Expected;
    if Finished(Run(events).attempts[a]) {
      more := [];
      assert events + [] == events;
      OutcomeIsExpected(events, a, w);
    } else {
      var e := WorldEvent(Run(events).attempts[a], a, w);
      WorldEventMoves(Run(events), a, w);
      OneMoreAgrees(events, e, a, w);
      var rest := AttemptFinishes(events + [e], a, w);
      more := [e] + rest;
      assert events + more == events + [e] + rest;
    }
  }
}
