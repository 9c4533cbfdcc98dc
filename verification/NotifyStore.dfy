/** The notifier's persisted store: its records, its JSON form, and the subscriber list operations. */
module NotifyStore {
  import opened Text

  // ---------------------------------------------------------------- records

  datatype Mode = Persistent | Once

  /** The `string | number | undefined` of a message thread id, with numbers taken as integers. */
  datatype ThreadId = NoThread | NumThread(n: int) | StrThread(s: string)

  datatype NotifyTarget = NotifyTarget(to: string, accountId: Option<string>, thread: ThreadId)

  datatype Subscription = Subscription(target: NotifyTarget, mode: Mode, addedAtMs: int)

  datatype NotifyState = NotifyState(subscribers: seq<Subscription>, notified: map<string, int>)

  const EMPTY := NotifyState([], map[])

  function ThreadText(thread: ThreadId): string {
    match thread
    case NoThread => ""
    case NumThread(n) => OfInt(n)
    case StrThread(s) => s
  }

  function AccountText(t: NotifyTarget): string {
    if t.accountId.Some? then t.accountId.value else ""
  }

  /** The three target fields joined with "|". */
  function SubscriberKey(t: NotifyTarget): string {
    t.to + "|" + AccountText(t) + "|" + ThreadText(t.thread)
  }

  predicate DistinctKeys(subscribers: seq<Subscription>) {
    forall i, j :: 0 <= i < j < |subscribers| ==>
      SubscriberKey(subscribers[i].target) != SubscriberKey(subscribers[j].target)
  }

  // ---------------------------------------------------------------- what a key names

  predicate SameAccount(a: Option<string>, b: Option<string>) {
    a == b || (a in {None, Some("")} && b in {None, Some("")})
  }

  /** Equal threads, a number counting as its decimal text and no thread as the empty text. */
  predicate SameThread(a: ThreadId, b: ThreadId) {
    match (a, b)
    case (NoThread, NoThread) => true
    case (NoThread, StrThread(s)) => s == ""
    case (StrThread(s), NoThread) => s == ""
    case (NumThread(m), NumThread(n)) => m == n
    case (NumThread(n), StrThread(s)) => s == OfInt(n)
    case (StrThread(s), NumThread(n)) => s == OfInt(n)
    case (StrThread(s), StrThread(t)) => s == t
    case _ => false
  }

  lemma ThreadTextExactly(a: ThreadId, b: ThreadId)
    ensures ThreadText(a) == ThreadText(b) <==> SameThread(a, b)
  {
    hide OfInt;
    if a.NumThread? { NumberText(a.n, if b.NumThread? then b.n else 0); }
    if b.NumThread? { NumberText(b.n, 0); }
  }

  /** Decimal numerals with a sign are not empty, and different for different integers. */
  lemma NumberText(m: int, n: int)
    ensures OfInt(m) != "" && (OfInt(m) == OfInt(n) ==> m == n)
  {
    ParseDec(if m < 0 then -m else m);
    ParseDec(if n < 0 then -n else n);
    assert OfInt(m)[0] == '-' <==> m < 0;
    assert OfInt(n)[0] == '-' <==> n < 0;
    if OfInt(m) == OfInt(n) && m < 0 && n < 0 {
      assert OfInt(m)[1..] == Dec(-m) && OfInt(n)[1..] == Dec(-n);
    }
  }

  /** The same recipient, account and thread, an absent field counting as the empty one. */
  predicate SameFields(a: NotifyTarget, b: NotifyTarget) {
    a.to == b.to && SameAccount(a.accountId, b.accountId) && SameThread(a.thread, b.thread)
  }

  predicate BarFree(t: NotifyTarget) {
    && '|' !in t.to
    && (t.accountId.Some? ==> '|' !in t.accountId.value)
    && (t.thread.StrThread? ==> '|' !in t.thread.s)
  }

  ghost predicate KeyNamesOneTarget(t: NotifyTarget) {
    forall other :: SubscriberKey(other) == SubscriberKey(t) ==> SameFields(other, t)
  }

  /** Three joined fields are unambiguous if those on one side have no separator. */
  lemma JoinSplits(a: string, b: string, c: string, a': string, b': string, c': string)
    requires a + "|" + b + "|" + c == a' + "|" + b' + "|" + c'
    requires '|' !in a && '|' !in b && '|' !in c
    ensures a == a' && b == b' && c == c'
  {
    var whole, p := a + "|" + b + "|" + c, |a| + 1 + |b|;
    assert forall i :: 0 <= i < |a| ==> whole[i] == a[i];
    assert forall i :: |a| < i < p ==> whole[i] == b[i - |a| - 1];
    assert forall i :: p < i < |whole| ==> whole[i] == c[i - p - 1];
    assert forall i :: 0 <= i < |whole| && whole[i] == '|' ==> i == |a| || i == p;
    assert whole[|a'|] == '|' && whole[|a'| + 1 + |b'|] == '|';
    assert a == whole[..|a|] && b == whole[|a| + 1..p] && c == whole[p + 1..];
    assert a' == whole[..|a|] && b' == whole[|a| + 1..p] && c' == whole[p + 1..];
  }

  lemma NumberHasNoBar(n: int)
    ensures '|' !in OfInt(n)
  {
    ParseDec(if n < 0 then -n else n);
  }

  lemma SplitsAt(s: string) returns (x: string, y: string)
    requires '|' in s
    ensures s == x + "|" + y
  {
    var i :| 0 <= i < |s| && s[i] == '|';
    x, y := s[..i], s[i + 1..];
  }

  lemma Regroups(x: string, y: string, b: string, c: string)
    ensures (x + "|" + y) + "|" + b + "|" + c == x + "|" + (y + "|" + b) + "|" + c
    ensures b + "|" + c + "|" + (x + "|" + y) == b + "|" + (c + "|" + x) + "|" + y
  {
  }

  /** A target with a "|" in one of its fields shares its key with another one. */
  lemma BarIsAmbiguous(t: NotifyTarget) returns (other: NotifyTarget)
    requires !BarFree(t)
    ensures SubscriberKey(other) == SubscriberKey(t) && !SameFields(other, t)
  {
    var account, thread := AccountText(t), ThreadText(t.thread);
    if '|' in t.to {
      var x, y := SplitsAt(t.to);
      other := NotifyTarget(x, Some(y + "|" + account), t.thread);
      Regroups(x, y, account, thread);
    } else if '|' in account {
      var x, y := SplitsAt(account);
      other := NotifyTarget(t.to + "|" + x, Some(y), t.thread);
      Regroups(t.to, x, y, thread);
    } else {
      var x, y := SplitsAt(thread);
      other := NotifyTarget(t.to, Some(account + "|" + x), StrThread(y));
      Regroups(x, y, t.to, account);
    }
    ThreadTextExactly(other.thread, t.thread);
  }

  /** A subscriber key names one target exactly when none of the target's fields contains the separator. */
  lemma KeyNamesOneTargetExactlyWhenBarFree(t: NotifyTarget)
    ensures KeyNamesOneTarget(t) <==> BarFree(t)
  {
    if BarFree(t) {
      if t.thread.NumThread? {
        NumberHasNoBar(t.thread.n);
      }
      forall other | SubscriberKey(other) == SubscriberKey(t) ensures SameFields(other, t) {
        JoinSplits(t.to, AccountText(t), ThreadText(t.thread), other.to, AccountText(other), ThreadText(other.thread));
        ThreadTextExactly(other.thread, t.thread);
      }
    } else {
      var other := BarIsAmbiguous(t);
    }
  }

  // ---------------------------------------------------------------- JSON form

  /** A parsed JSON value; JInf is a literal such as 1e999, which parses to an infinity. */
  datatype Json =
    | JNull
    | JBool(b: bool)
    | JNum(x: real)
    | JInf
    | JStr(s: string)
    | JArr(items: seq<Json>)
    | JObj(fields: map<string, Json>)

  function Trunc(x: real): int {
    if x >= 0.0 then x.Floor else -(-x).Floor
  }

  /** Truncation drops the fraction, on either side of zero. */
  lemma TruncMeans(x: real)
    ensures x >= 0.0 ==> Trunc(x) as real <= x < Trunc(x) as real + 1.0
    ensures x <= 0.0 ==> Trunc(x) as real - 1.0 < x <= Trunc(x) as real
  {
  }

  /** Property read, None standing for undefined. */
  function Field(j: Json, name: string): Option<Json> {
    if j.JObj? && name in j.fields then Some(j.fields[name]) else None
  }

  function ArrayEntries(items: seq<Json>): map<string, Json> {
    if items == [] then map[]
    else ArrayEntries(items[..|items| - 1])[Dec(|items| - 1) := items[|items| - 1]]
  }

  /** Object.entries of a value of type "object"; no entries for anything else. */
  function Entries(j: Option<Json>): map<string, Json> {
    match j
    case Some(JObj(fields)) => fields
    case Some(JArr(items)) => ArrayEntries(items)
    case _ => map[]
  }

  function NormalizeText(j: Option<Json>): Option<string> {
    match j
    case Some(JStr(s)) => if Trim(s) != "" then Some(Trim(s)) else None
    case _ => None
  }

  function NormalizeThread(j: Option<Json>): ThreadId {
    match j
    case Some(JStr(s)) => if Trim(s) != "" then StrThread(Trim(s)) else NoThread
    case Some(JNum(x)) => NumThread(Trunc(x))
    case _ => NoThread
  }

  /** One element of the raw subscriber list; None when it is dropped. */
  function NormalizeSubscriber(item: Json, now: int): Option<Subscription> {
    var to := NormalizeText(Field(item, "to"));
    if to.None? then None
    else
      var mode := if Field(item, "mode") == Some(JStr("once")) then Once else Persistent;
      var addedAt := match Field(item, "addedAtMs") case Some(JNum(x)) => Trunc(x) case _ => now;
      Some(Subscription(
             NotifyTarget(to.value, NormalizeText(Field(item, "accountId")), NormalizeThread(Field(item, "messageThreadId"))),
             mode, addedAt))
  }

  function NormalizeSubscribers(items: seq<Json>, now: int): seq<Subscription> {
    if items == [] then []
    else
      var before := NormalizeSubscribers(items[..|items| - 1], now);
      var last := NormalizeSubscriber(items[|items| - 1], now);
      if last.Some? then before + [last.value] else before
  }

  predicate KeptEntry(id: string, ts: Json) {
    Trim(id) != "" && ts.JNum? && ts.x > 0.0
  }

  function NormalizeNotified(entries: map<string, Json>): map<string, int> {
    map id | id in entries && KeptEntry(id, entries[id]) :: Trunc(entries[id].x)
  }

  function RawSubscribers(raw: Json): seq<Json> {
    match Field(raw, "subscribers")
    case Some(JArr(items)) => items
    case _ => []
  }

  function Normalize(raw: Json, now: int): NotifyState {
    NotifyState(NormalizeSubscribers(RawSubscribers(raw), now),
                NormalizeNotified(Entries(Field(raw, "notifiedRequestIds"))))
  }

  /** normalizeNotifyState, with its two accumulating loops. */
  method NormalizeNotifyState(raw: Json, now: int) returns (state: NotifyState)
    ensures state == Normalize(raw, now)
  {
    var items := RawSubscribers(raw);
    var subscribers: seq<Subscription> := [];
    for i := 0 to |items|
      invariant subscribers == NormalizeSubscribers(items[..i], now)
    {
      assert items[..i + 1][..i] == items[..i];
      var next := NormalizeSubscriber(items[i], now);
      if next.None? { continue; }
      subscribers := subscribers + [next.value];
    }
    assert items[..|items|] == items;

    var entries := Entries(Field(raw, "notifiedRequestIds"));
    var todo := entries.Keys;
    var notified: map<string, int> := map[];
    while todo != {}
      invariant todo <= entries.Keys
      invariant notified == map id | id in entries && id !in todo && KeptEntry(id, entries[id]) :: Trunc(entries[id].x)
      decreases todo
    {
      var id :| id in todo;
      todo := todo - {id};
      if !KeptEntry(id, entries[id]) { continue; }
      notified := notified[id := Trunc(entries[id].x)];
    }
    state := NotifyState(subscribers, notified);
  }

  // ---------------------------------------------------------------- what the reader takes from a file

  /** The object has a string under the name that is `text` when trimmed, and not blank. */
  predicate HasText(item: Json, name: string, text: string) {
    && item.JObj? && name in item.fields && item.fields[name].JStr?
    && Trim(item.fields[name].s) == text && text != ""
  }

  ghost predicate HasNoText(item: Json, name: string) {
    forall text :: !HasText(item, name, text)
  }

  predicate HasNumber(item: Json, name: string, n: int) {
    && item.JObj? && name in item.fields && item.fields[name].JNum?
    && var x := item.fields[name].x;
       if x >= 0.0 then n as real <= x < n as real + 1.0 else n as real - 1.0 < x <= n as real
  }

  ghost predicate HasNoNumber(item: Json, name: string) {
    forall n :: !HasNumber(item, name, n)
  }

  ghost predicate TextIs(item: Json, name: string, text: Option<string>) {
    match text
    case None => HasNoText(item, name)
    case Some(t) => HasText(item, name, t)
  }

  ghost predicate ThreadIs(item: Json, name: string, thread: ThreadId) {
    match thread
    case NoThread => HasNoText(item, name) && HasNoNumber(item, name)
    case NumThread(n) => HasNumber(item, name, n)
    case StrThread(text) => HasText(item, name, text)
  }

  ghost predicate TimeIs(item: Json, name: string, now: int, time: int) {
    HasNumber(item, name, time) || (HasNoNumber(item, name) && time == now)
  }

  /** An element of the raw list is read as the subscriber exactly when it has its texts and numbers: the target must be
      there, a missing arming time is the time of reading, and every mode but "once" is persistent. */
  lemma NormalizeSubscriberReads(item: Json, now: int, s: Subscription)
    ensures NormalizeSubscriber(item, now) == Some(s) <==>
            && HasText(item, "to", s.target.to)
            && TextIs(item, "accountId", s.target.accountId)
            && ThreadIs(item, "messageThreadId", s.target.thread)
            && TimeIs(item, "addedAtMs", now, s.addedAtMs)
            && (s.mode == Once <==> item.JObj? && "mode" in item.fields && item.fields["mode"] == JStr("once"))
  {
    hide NormalizeText, NormalizeThread, HasText, HasNumber, Trunc;
    TextReads(item, "to", Some(s.target.to));
    TextReads(item, "to", None);
    TextReads(item, "accountId", s.target.accountId);
    ThreadReads(item, "messageThreadId", s.target.thread);
    TimeReads(item, "addedAtMs", now, s.addedAtMs);
  }

  lemma TextReads(item: Json, name: string, text: Option<string>)
    ensures NormalizeText(Field(item, name)) == text <==> TextIs(item, name, text)
  {
    hide Trim;
    var read := NormalizeText(Field(item, name));
    assert read.Some? ==> HasText(item, name, read.value);
  }

  lemma NumberReads(item: Json, name: string, n: int)
    ensures HasNumber(item, name, n) <==> Field(item, name).Some? && Field(item, name).value.JNum? && n == Trunc(Field(item, name).value.x)
  {
    if item.JObj? && name in item.fields && item.fields[name].JNum? {
      TruncMeans(item.fields[name].x);
    }
  }

  lemma TimeReads(item: Json, name: string, now: int, time: int)
    ensures (match Field(item, name) case Some(JNum(x)) => Trunc(x) case _ => now) == time <==> TimeIs(item, name, now, time)
  {
    hide HasNumber, Trunc;
    forall n ensures HasNumber(item, name, n) <==> Field(item, name).Some? && Field(item, name).value.JNum? && n == Trunc(Field(item, name).value.x) {
      NumberReads(item, name, n);
    }
    match Field(item, name)
    case Some(JNum(x)) => assert HasNumber(item, name, Trunc(x));
    case _ =>
  }

  lemma ThreadReads(item: Json, name: string, thread: ThreadId)
    ensures NormalizeThread(Field(item, name)) == thread <==> ThreadIs(item, name, thread)
  {
    hide Trim, Trunc, HasNumber;
    forall n ensures HasNumber(item, name, n) <==> Field(item, name).Some? && Field(item, name).value.JNum? && n == Trunc(Field(item, name).value.x) {
      NumberReads(item, name, n);
    }
    var read := NormalizeThread(Field(item, name));
    assert read.NumThread? ==> HasNumber(item, name, read.n);
    assert read.StrThread? ==> HasText(item, name, read.s);
  }

  /** A record is read exactly from a positive number under an id that is not blank, fractions dropped. */
  lemma NormalizeNotifiedReads(entries: map<string, Json>, id: string)
    ensures var read := NormalizeNotified(entries);
      && (id in read <==> id in entries && Trim(id) != "" && entries[id].JNum? && entries[id].x > 0.0)
      && (id in read ==> read[id] as real <= entries[id].x < read[id] as real + 1.0)
  {
    if id in NormalizeNotified(entries) {
      TruncMeans(entries[id].x);
    }
  }

  ghost predicate IsIndex(name: string, n: nat) {
    exists k: nat :: k < n && name == Dec(k)
  }

  /** An array counts as the object with its indices as names. */
  lemma {:induction false} ArrayEntriesAreIndexed(items: seq<Json>)
    ensures forall name :: name in ArrayEntries(items) ==> IsIndex(name, |items|)
    ensures forall k: nat :: k < |items| ==> Dec(k) in ArrayEntries(items) && ArrayEntries(items)[Dec(k)] == items[k]
  {
    if items != [] {
      var last := |items| - 1;
      ArrayEntriesAreIndexed(items[..last]);
      forall name | name in ArrayEntries(items) ensures IsIndex(name, |items|) {
        MoreIndices(name, last);
      }
      forall k: nat | k < last ensures Dec(k) != Dec(last) {
        if Dec(k) == Dec(last) { DecInjective(k, last); }
      }
    }
  }

  lemma MoreIndices(name: string, n: nat)
    ensures IsIndex(name, n) || name == Dec(n) ==> IsIndex(name, n + 1)
  {
  }

  /** The property is there and is this value. */
  predicate HasField(raw: Json, name: string, value: Json) {
    raw.JObj? && name in raw.fields && raw.fields[name] == value
  }

  /** The file records the id with the value, in an object or, under its index, in an array. */
  ghost predicate Records(raw: Json, id: string, value: Json) {
    || (exists fields :: HasField(raw, "notifiedRequestIds", JObj(fields)) && id in fields && fields[id] == value)
    || (exists items, k: nat :: HasField(raw, "notifiedRequestIds", JArr(items)) && k < |items| && id == Dec(k) && items[k] == value)
  }

  ghost predicate RecordsNumber(raw: Json, id: string, x: real) {
    Records(raw, id, JNum(x))
  }

  lemma EntriesAreRecords(raw: Json, id: string, value: Json)
    ensures var entries := Entries(Field(raw, "notifiedRequestIds"));
      id in entries && entries[id] == value <==> Records(raw, id, value)
  {
    hide Dec, ArrayEntries;
    match Field(raw, "notifiedRequestIds")
    case Some(JArr(items)) =>
      assert HasField(raw, "notifiedRequestIds", JArr(items));
      ArrayEntriesAreIndexed(items);
      if id in ArrayEntries(items) {
        assert IsIndex(id, |items|);
      }
    case Some(JObj(fields)) => assert HasField(raw, "notifiedRequestIds", JObj(fields));
    case _ =>
  }

  /** What is read from any parsed file: the subscribers of its list, if it has one, and the records with a positive
      number under an id that is not blank, fractions dropped. */
  lemma NormalizeReads(raw: Json, now: int, id: string)
    ensures var state := Normalize(raw, now);
      && (forall items :: HasField(raw, "subscribers", JArr(items)) ==> state.subscribers == NormalizeSubscribers(items, now))
      && ((forall items :: !HasField(raw, "subscribers", JArr(items))) ==> state.subscribers == [])
      && (id in state.notified <==> Trim(id) != "" && exists x :: x > 0.0 && RecordsNumber(raw, id, x))
      && (id in state.notified ==>
            exists x :: RecordsNumber(raw, id, x) && state.notified[id] as real <= x < state.notified[id] as real + 1.0)
  {
    hide Entries, Records;
    var entries := Entries(Field(raw, "notifiedRequestIds"));
    NormalizeNotifiedReads(entries, id);
    forall value ensures id in entries && entries[id] == value <==> Records(raw, id, value) {
      EntriesAreRecords(raw, id, value);
    }
    if id in entries && entries[id].JNum? {
      assert RecordsNumber(raw, id, entries[id].x);
    }
    match Field(raw, "subscribers")
    case Some(JArr(items)) => assert HasField(raw, "subscribers", JArr(items));
    case _ =>
  }

  /** What JSON.stringify followed by JSON.parse makes of a subscription: undefined fields vanish. */
  function EncodeSubscriber(s: Subscription): Json {
    var required := map["to" := JStr(s.target.to),
                        "mode" := JStr(if s.mode == Once then "once" else "persistent"),
                        "addedAtMs" := JNum(s.addedAtMs as real)];
    var account := if s.target.accountId.Some? then map["accountId" := JStr(s.target.accountId.value)] else map[];
    var thread := match s.target.thread
      case NoThread => map[]
      case NumThread(n) => map["messageThreadId" := JNum(n as real)]
      case StrThread(t) => map["messageThreadId" := JStr(t)];
    JObj(required + account + thread)
  }

  function Encode(state: NotifyState): Json {
    JObj(map["subscribers" := JArr(seq(|state.subscribers|, i requires 0 <= i < |state.subscribers| =>
               EncodeSubscriber(state.subscribers[i]))),
             "notifiedRequestIds" := JObj(map id | id in state.notified :: JNum(state.notified[id] as real))])
  }

  // ---------------------------------------------------------------- reading back what was written

  /** The target a stored target turns into when the file is read back. */
  function StoredTarget(t: NotifyTarget): NotifyTarget {
    NotifyTarget(
      Trim(t.to),
      if t.accountId.Some? && Trim(t.accountId.value) != "" then Some(Trim(t.accountId.value)) else None,
      if !t.thread.StrThread? then t.thread else if Trim(t.thread.s) != "" then StrThread(Trim(t.thread.s)) else NoThread)
  }

  function Reloaded(subscribers: seq<Subscription>): seq<Subscription> {
    if subscribers == [] then []
    else
      var before, last := Reloaded(subscribers[..|subscribers| - 1]), subscribers[|subscribers| - 1];
      if Trim(last.target.to) == "" then before else before + [last.(target := StoredTarget(last.target))]
  }

  /** The state that the next reader of the file sees. */
  function Reload(state: NotifyState): NotifyState {
    NotifyState(Reloaded(state.subscribers),
                map id | id in state.notified && Trim(id) != "" && state.notified[id] > 0 :: state.notified[id])
  }

  lemma TruncOfInt(n: int)
    ensures Trunc(n as real) == n
    ensures n as real > 0.0 <==> n > 0
  {
  }

  lemma EncodedFields(s: Subscription)
    ensures var item := EncodeSubscriber(s);
      && Field(item, "to") == Some(JStr(s.target.to))
      && Field(item, "mode") == Some(JStr(if s.mode == Once then "once" else "persistent"))
      && Field(item, "addedAtMs") == Some(JNum(s.addedAtMs as real))
      && Field(item, "accountId") == (if s.target.accountId.Some? then Some(JStr(s.target.accountId.value)) else None)
      && Field(item, "messageThreadId") ==
         match s.target.thread
         case NoThread => None
         case NumThread(n) => Some(JNum(n as real))
         case StrThread(t) => Some(JStr(t))
  {
  }

  lemma NormalizeEncodedSubscriber(s: Subscription, now: int)
    ensures NormalizeSubscriber(EncodeSubscriber(s), now)
         == if Trim(s.target.to) == "" then None else Some(s.(target := StoredTarget(s.target)))
  {
    hide EncodeSubscriber, Field, Trim, Trunc;
    EncodedFields(s);
    TruncOfInt(s.addedAtMs);
    if s.target.thread.NumThread? {
      TruncOfInt(s.target.thread.n);
    }
    assert "persistent"[0] != "once"[0];
  }

  lemma {:induction false} NormalizeEncodedSubscribers(subscribers: seq<Subscription>, items: seq<Json>, now: int)
    requires |items| == |subscribers|
    requires forall i :: 0 <= i < |items| ==> items[i] == EncodeSubscriber(subscribers[i])
    ensures NormalizeSubscribers(items, now) == Reloaded(subscribers)
  {
    if items != [] {
      NormalizeEncodedSubscribers(subscribers[..|items| - 1], items[..|items| - 1], now);
      NormalizeEncodedSubscriber(subscribers[|items| - 1], now);
    }
  }

  /** Reading the written file gives Reload, whatever the clock says. */
  lemma ReadOfWritten(state: NotifyState, now: int)
    ensures Normalize(Encode(state), now) == Reload(state)
  {
    hide NormalizeSubscribers, Reloaded, NormalizeNotified, EncodeSubscriber;
    var raw := Encode(state);
    NormalizeEncodedSubscribers(state.subscribers, RawSubscribers(raw), now);
    assert Entries(Field(raw, "notifiedRequestIds")) == map id | id in state.notified :: JNum(state.notified[id] as real);
    NormalizeEncodedNotified(state.notified);
  }

  lemma NormalizeEncodedNotified(notified: map<string, int>)
    ensures NormalizeNotified(map id | id in notified :: JNum(notified[id] as real))
         == map id | id in notified && Trim(id) != "" && notified[id] > 0 :: notified[id]
  {
  }

  // ---------------------------------------------------------------- clean states

  predicate CleanTarget(t: NotifyTarget) {
    && t.to != "" && IsTrimmed(t.to)
    && (t.accountId.Some? ==> t.accountId.value != "" && IsTrimmed(t.accountId.value))
    && (t.thread.StrThread? ==> t.thread.s != "" && IsTrimmed(t.thread.s))
  }

  predicate Clean(state: NotifyState) {
    && (forall i :: 0 <= i < |state.subscribers| ==> CleanTarget(state.subscribers[i].target))
    && (forall id :: id in state.notified ==> Trim(id) != "" && state.notified[id] > 0)
  }

  lemma StoredTargetIsClean(t: NotifyTarget)
    ensures Trim(t.to) != "" ==> CleanTarget(StoredTarget(t))
    ensures StoredTarget(t) == t && t.to != "" <==> CleanTarget(t)
  {
    TrimTrims(t.to);
    if t.accountId.Some? { TrimTrims(t.accountId.value); }
    if t.thread.StrThread? { TrimTrims(t.thread.s); }
  }

  lemma {:induction false} ReloadedFacts(subscribers: seq<Subscription>)
    ensures |Reloaded(subscribers)| <= |subscribers|
    ensures forall s <- Reloaded(subscribers) :: CleanTarget(s.target)
    ensures Reloaded(subscribers) == subscribers <==> (forall s <- subscribers :: CleanTarget(s.target))
  {
    if subscribers != [] {
      var init, last := subscribers[..|subscribers| - 1], subscribers[|subscribers| - 1];
      assert subscribers == init + [last];
      ReloadedFacts(init);
      StoredTargetIsClean(last.target);
      TrimTrims(last.target.to);
      if Reloaded(subscribers) == subscribers {
        assert Reloaded(subscribers) == Reloaded(init) + [last.(target := StoredTarget(last.target))];
        assert Reloaded(init) == subscribers[..|subscribers| - 1] == init;
        assert Reloaded(subscribers)[|subscribers| - 1] == last;
      }
    }
  }

  lemma ReloadIdentity(state: NotifyState)
    ensures Reload(state) == state <==> Clean(state)
  {
    ReloadedFacts(state.subscribers);
    var kept := Reload(state).notified;
    assert kept == state.notified <==> (forall id <- state.notified :: id in kept);
  }

  /** normalizeNotifyState is the identity on a written state exactly when the state is clean. */
  lemma WrittenStateReadsBack(state: NotifyState, now: int)
    ensures Normalize(Encode(state), now) == state <==> Clean(state)
  {
    ReadOfWritten(state, now);
    ReloadIdentity(state);
  }

  /** Any file at all is read as clean subscribers; a second write and read changes no subscriber. */
  lemma {:induction false} NormalizedSubscribersAreClean(items: seq<Json>, now: int)
    ensures forall s <- NormalizeSubscribers(items, now) :: CleanTarget(s.target)
  {
    if items != [] {
      NormalizedSubscribersAreClean(items[..|items| - 1], now);
      var item := items[|items| - 1];
      forall name: string, j: Json | Field(item, name) == Some(j) && j.JStr? ensures IsTrimmed(Trim(j.s)) {
        TrimTrims(j.s);
      }
    }
  }

  // ---------------------------------------------------------------- subscriber list operations

  datatype Upserted = Upserted(subscribers: seq<Subscription>, changed: bool)

  /** Array.prototype.findIndex on the subscriber key. */
  function FindKey(subscribers: seq<Subscription>, key: string, from: nat := 0): (r: Option<nat>)
    requires from <= |subscribers|
    ensures r.Some? ==> from <= r.value < |subscribers| && SubscriberKey(subscribers[r.value].target) == key
    ensures forall i :: from <= i < (if r.Some? then r.value else |subscribers|) ==> SubscriberKey(subscribers[i].target) != key
    decreases |subscribers| - from
  {
    if from == |subscribers| then None
    else if SubscriberKey(subscribers[from].target) == key then Some(from)
    else FindKey(subscribers, key, from + 1)
  }

  function Upsert(subscribers: seq<Subscription>, target: NotifyTarget, mode: Mode, now: int): Upserted {
    var next := Subscription(target, mode, now);
    match FindKey(subscribers, SubscriberKey(target))
    case None => Upserted(subscribers + [next], true)
    case Some(i) =>
      if subscribers[i].mode == mode then Upserted(subscribers, false)
      else Upserted(subscribers[i := next], true)
  }

  /** upsertNotifySubscriber */
  method UpsertNotifySubscriber(subscribers: seq<Subscription>, target: NotifyTarget, mode: Mode, now: int)
    returns (entries: seq<Subscription>, changed: bool)
    ensures Upserted(entries, changed) == Upsert(subscribers, target, mode, now)
  {
    entries := subscribers;
    var index := FindKey(entries, SubscriberKey(target));
    if index.None? {
      entries := entries + [Subscription(target, mode, now)];
      return entries, true;
    }
    if entries[index.value].mode == mode {
      return entries, false;
    }
    entries := entries[index.value := Subscription(target, mode, now)];
    return entries, true;
  }

  function RemoveKey(subscribers: seq<Subscription>, key: string): Upserted {
    match FindKey(subscribers, key)
    case None => Upserted(subscribers, false)
    case Some(i) => Upserted(subscribers[..i] + subscribers[i + 1..], true)
  }

  /** The list already subscribes the target's key in this mode. */
  ghost predicate Subscribed(subscribers: seq<Subscription>, key: string, mode: Mode) {
    exists s <- subscribers :: SubscriberKey(s.target) == key && s.mode == mode
  }

  // ---------------------------------------------------------------- the lists key by key

  /** The entries stored under a key, in order. */
  function KeyEntries(subscribers: seq<Subscription>, key: string): seq<Subscription> {
    if subscribers == [] then []
    else
      var before, last := KeyEntries(subscribers[..|subscribers| - 1], key), subscribers[|subscribers| - 1];
      if SubscriberKey(last.target) == key then before + [last] else before
  }

  lemma {:induction false} KeyEntriesConcat(a: seq<Subscription>, b: seq<Subscription>, key: string)
    ensures KeyEntries(a + b, key) == KeyEntries(a, key) + KeyEntries(b, key)
  {
    hide SubscriberKey;
    if b == [] {
      assert a + b == a;
    } else {
      KeyEntriesConcat(a, b[..|b| - 1], key);
      assert (a + b)[..|a + b| - 1] == a + b[..|b| - 1];
    }
  }

  lemma KeyEntriesOfOne(s: Subscription, key: string)
    ensures KeyEntries([s], key) == if SubscriberKey(s.target) == key then [s] else []
  {
    assert [s][..0] == [];
  }

  lemma {:induction false} KeyEntriesMembers(subscribers: seq<Subscription>, key: string)
    ensures forall s :: s in KeyEntries(subscribers, key) <==> s in subscribers && SubscriberKey(s.target) == key
  {
    hide SubscriberKey;
    if subscribers != [] {
      var init, last := subscribers[..|subscribers| - 1], subscribers[|subscribers| - 1];
      KeyEntriesMembers(init, key);
      assert subscribers == init + [last];
    }
  }

  lemma {:induction false} NoEntries(subscribers: seq<Subscription>, key: string)
    requires forall s <- subscribers :: SubscriberKey(s.target) != key
    ensures KeyEntries(subscribers, key) == []
  {
    hide SubscriberKey;
    if subscribers != [] {
      NoEntries(subscribers[..|subscribers| - 1], key);
    }
  }

  lemma SplitAround<T>(s: seq<T>, i: nat)
    requires i < |s|
    ensures s == s[..i] + [s[i]] + s[i + 1..]
  {
  }

  lemma KeyEntriesAround(subscribers: seq<Subscription>, i: nat, key: string)
    requires i < |subscribers|
    ensures KeyEntries(subscribers, key)
         == KeyEntries(subscribers[..i], key) + KeyEntries([subscribers[i]], key) + KeyEntries(subscribers[i + 1..], key)
  {
    hide KeyEntries, SubscriberKey;
    SplitAround(subscribers, i);
    KeyEntriesConcat(subscribers[..i], [subscribers[i]], key);
    KeyEntriesConcat(subscribers[..i] + [subscribers[i]], subscribers[i + 1..], key);
  }

  lemma ReplacedByKey(subscribers: seq<Subscription>, i: nat, next: Subscription, key: string)
    requires i < |subscribers|
    ensures KeyEntries(subscribers[i := next], key)
         == KeyEntries(subscribers[..i], key) + KeyEntries([next], key) + KeyEntries(subscribers[i + 1..], key)
  {
    hide KeyEntries, SubscriberKey;
    KeyEntriesAround(subscribers[i := next], i, key);
    assert subscribers[i := next][..i] == subscribers[..i] && subscribers[i := next][i + 1..] == subscribers[i + 1..];
  }

  /** The first entry of a key comes after entries of other keys only. */
  lemma FirstOfKey(subscribers: seq<Subscription>, key: string)
    ensures match FindKey(subscribers, key)
            case None => KeyEntries(subscribers, key) == []
            case Some(i) =>
              KeyEntries(subscribers[..i], key) == []
              && KeyEntries(subscribers, key) == [subscribers[i]] + KeyEntries(subscribers[i + 1..], key)
  {
    hide SubscriberKey, FindKey;
    match FindKey(subscribers, key)
    case None => NoEntries(subscribers, key);
    case Some(i) =>
      NoEntries(subscribers[..i], key);
      KeyEntriesAround(subscribers, i, key);
      KeyEntriesOfOne(subscribers[i], key);
  }

  lemma KeyEntriesSnoc(init: seq<Subscription>, last: Subscription, key: string)
    ensures KeyEntries(init + [last], key)
         == KeyEntries(init, key) + if SubscriberKey(last.target) == key then [last] else []
  {
    hide SubscriberKey;
    assert (init + [last])[..|init|] == init;
  }

  /** Keys are distinct exactly when no key has two entries. */
  lemma {:induction false} DistinctByEntries(subscribers: seq<Subscription>)
    ensures DistinctKeys(subscribers) <==> forall key :: |KeyEntries(subscribers, key)| <= 1
  {
    if subscribers != [] {
      DistinctByEntries(subscribers[..|subscribers| - 1]);
      assert subscribers == subscribers[..|subscribers| - 1] + [subscribers[|subscribers| - 1]];
      DistinctSnoc(subscribers[..|subscribers| - 1], subscribers[|subscribers| - 1]);
    }
  }

  lemma DistinctExtends(init: seq<Subscription>, last: Subscription)
    ensures DistinctKeys(init + [last]) <==>
            DistinctKeys(init) && forall o <- init :: SubscriberKey(o.target) != SubscriberKey(last.target)
  {
    hide SubscriberKey;
    var all := init + [last];
    assert forall i :: 0 <= i < |init| ==> all[i] == init[i];
    if DistinctKeys(all) {
      forall o | o in init ensures SubscriberKey(o.target) != SubscriberKey(last.target) {
        var i :| 0 <= i < |init| && init[i] == o;
        assert all[i] == o && all[|init|] == last;
      }
      assert forall i, j :: 0 <= i < j < |init| ==> all[i] == init[i] && all[j] == init[j];
    } else if DistinctKeys(init) {
      var i, j :| 0 <= i < j < |all| && SubscriberKey(all[i].target) == SubscriberKey(all[j].target);
      assert init[i] in init;
    }
  }

  lemma DistinctSnoc(init: seq<Subscription>, last: Subscription)
    requires DistinctKeys(init) <==> forall key :: |KeyEntries(init, key)| <= 1
    ensures DistinctKeys(init + [last]) <==> forall key :: |KeyEntries(init + [last], key)| <= 1
  {
    hide SubscriberKey, KeyEntries;
    var key' := SubscriberKey(last.target);
    forall key ensures KeyEntries(init + [last], key) == KeyEntries(init, key) + if key == key' then [last] else [] {
      KeyEntriesSnoc(init, last, key);
    }
    EntriesMeanSubscribed(init, key');
    DistinctExtends(init, last);
    if !DistinctKeys(init) {
      var key :| |KeyEntries(init, key)| > 1;
      assert |KeyEntries(init + [last], key)| > 1;
    } else if KeyEntries(init, key') != [] {
      assert |KeyEntries(init + [last], key')| >= 2;
    } else {
      forall key ensures |KeyEntries(init + [last], key)| <= 1 {
        assert |KeyEntries(init, key)| <= 1;
      }
    }
  }

  /** The new entries of the upserted key. */
  function UpsertedEntries(entries: seq<Subscription>, next: Subscription): seq<Subscription> {
    if entries == [] then [next] else if entries[0].mode == next.mode then entries else [next] + entries[1..]
  }

  /** Replacing the first entry of a key by another one for the key leaves the other keys as they are. */
  lemma FirstReplacedByKey(subscribers: seq<Subscription>, i: nat, next: Subscription, key: string)
    requires FindKey(subscribers, SubscriberKey(next.target)) == Some(i)
    ensures KeyEntries(subscribers[i := next], key)
         == if key != SubscriberKey(next.target) then KeyEntries(subscribers, key)
            else [next] + KeyEntries(subscribers[i + 1..], key)
  {
    hide SubscriberKey, FindKey, KeyEntries;
    KeyEntriesOfOne(next, key);
    KeyEntriesOfOne(subscribers[i], key);
    KeyEntriesAround(subscribers, i, key);
    ReplacedByKey(subscribers, i, next, key);
    FirstOfKey(subscribers, SubscriberKey(next.target));
  }

  /** An upsert acts on the first entry of its key and leaves the entries of every other key as they are. */
  lemma UpsertByKey(subscribers: seq<Subscription>, target: NotifyTarget, mode: Mode, now: int, key: string)
    ensures var u := Upsert(subscribers, target, mode, now);
      KeyEntries(u.subscribers, key)
      == if key != SubscriberKey(target) then KeyEntries(subscribers, key)
         else UpsertedEntries(KeyEntries(subscribers, key), Subscription(target, mode, now))
  {
    hide SubscriberKey, FindKey, KeyEntries;
    var next := Subscription(target, mode, now);
    FirstOfKey(subscribers, SubscriberKey(target));
    KeyEntriesOfOne(next, key);
    match FindKey(subscribers, SubscriberKey(target))
    case None => KeyEntriesConcat(subscribers, [next], key);
    case Some(i) =>
      if subscribers[i].mode != mode {
        FirstReplacedByKey(subscribers, i, next, key);
      }
  }

  lemma RemoveByKey(subscribers: seq<Subscription>, removed: string, key: string)
    ensures var r := RemoveKey(subscribers, removed).subscribers;
      KeyEntries(r, key)
      == if key == removed && KeyEntries(subscribers, key) != [] then KeyEntries(subscribers, key)[1..]
         else KeyEntries(subscribers, key)
  {
    hide SubscriberKey, FindKey, KeyEntries;
    FirstOfKey(subscribers, removed);
    match FindKey(subscribers, removed)
    case None =>
    case Some(i) =>
      KeyEntriesAround(subscribers, i, key);
      KeyEntriesOfOne(subscribers[i], key);
      KeyEntriesConcat(subscribers[..i], subscribers[i + 1..], key);
  }

  /** The upsert finds its key subscribed in the mode: it looks at the key's first entry only. */
  predicate FirstHasMode(subscribers: seq<Subscription>, key: string, mode: Mode) {
    KeyEntries(subscribers, key) != [] && KeyEntries(subscribers, key)[0].mode == mode
  }

  lemma OtherKeysMembers(a: seq<Subscription>, b: seq<Subscription>, s: Subscription)
    requires KeyEntries(a, SubscriberKey(s.target)) == KeyEntries(b, SubscriberKey(s.target))
    ensures s in a <==> s in b
  {
    hide SubscriberKey;
    KeyEntriesMembers(a, SubscriberKey(s.target));
    KeyEntriesMembers(b, SubscriberKey(s.target));
  }

  /** An upsert changes nothing when the key's first entry has the mode, keeping its arming time; otherwise the new entry
      takes that entry's place or goes to the end. Every other key is as before. With distinct keys the key is then
      subscribed by this one entry. */
  lemma UpsertSubscribes(subscribers: seq<Subscription>, target: NotifyTarget, mode: Mode, now: int)
    ensures var u, key := Upsert(subscribers, target, mode, now), SubscriberKey(target);
      && (u.changed <==> !FirstHasMode(subscribers, key, mode))
      && (!u.changed ==> u.subscribers == subscribers)
      && (u.changed ==> Subscription(target, mode, now) in u.subscribers)
      && KeyEntries(u.subscribers, key) == UpsertedEntries(KeyEntries(subscribers, key), Subscription(target, mode, now))
      && (forall s: Subscription :: SubscriberKey(s.target) != key ==> (s in u.subscribers <==> s in subscribers))
      && (DistinctKeys(subscribers) ==>
            DistinctKeys(u.subscribers) && (u.changed <==> !Subscribed(subscribers, key, mode)))
  {
    hide SubscriberKey, FindKey, KeyEntries;
    var u, key, next := Upsert(subscribers, target, mode, now), SubscriberKey(target), Subscription(target, mode, now);
    FirstOfKey(subscribers, key);
    UpsertByKey(subscribers, target, mode, now, key);
    var found := FindKey(subscribers, key);
    var i := if found.Some? then found.value else |subscribers|;
    assert u.changed ==> u.subscribers[i] == next;
    forall s: Subscription | SubscriberKey(s.target) != key ensures s in u.subscribers <==> s in subscribers {
      UpsertByKey(subscribers, target, mode, now, SubscriberKey(s.target));
      OtherKeysMembers(u.subscribers, subscribers, s);
    }
    if DistinctKeys(subscribers) {
      UpsertKeepsDistinct(subscribers, target, mode, now);
      DistinctFirst(subscribers, key, mode);
    }
  }

  lemma DistinctFirst(subscribers: seq<Subscription>, key: string, mode: Mode)
    requires DistinctKeys(subscribers)
    ensures FirstHasMode(subscribers, key, mode) <==> Subscribed(subscribers, key, mode)
  {
    hide SubscriberKey, KeyEntries;
    DistinctByEntries(subscribers);
    KeyEntriesMembers(subscribers, key);
    var entries := KeyEntries(subscribers, key);
    if Subscribed(subscribers, key, mode) {
      var s :| s in subscribers && SubscriberKey(s.target) == key && s.mode == mode;
      assert s in entries;
    }
    if FirstHasMode(subscribers, key, mode) {
      assert entries[0] in entries;
    }
  }

  lemma UpsertKeepsDistinct(subscribers: seq<Subscription>, target: NotifyTarget, mode: Mode, now: int)
    requires DistinctKeys(subscribers)
    ensures DistinctKeys(Upsert(subscribers, target, mode, now).subscribers)
  {
    hide SubscriberKey, Upsert, KeyEntries, DistinctKeys;
    DistinctByEntries(subscribers);
    DistinctByEntries(Upsert(subscribers, target, mode, now).subscribers);
    forall key ensures |KeyEntries(Upsert(subscribers, target, mode, now).subscribers, key)| <= 1 {
      UpsertByKey(subscribers, target, mode, now, key);
    }
  }

  lemma RemoveKeyKeepsDistinct(subscribers: seq<Subscription>, key: string)
    requires DistinctKeys(subscribers)
    ensures DistinctKeys(RemoveKey(subscribers, key).subscribers)
  {
  }

  /** Removal takes the key's first entry out and leaves every other entry; the key is unsubscribed exactly if that was
      its only entry, as it is when keys are distinct. */
  lemma RemoveKeyUnsubscribes(subscribers: seq<Subscription>, key: string, s: Subscription)
    ensures var r := RemoveKey(subscribers, key).subscribers;
      && (SubscriberKey(s.target) != key ==> (s in r <==> s in subscribers))
      && KeyEntries(r, key) == (if KeyEntries(subscribers, key) == [] then [] else KeyEntries(subscribers, key)[1..])
      && ((forall o <- r :: SubscriberKey(o.target) != key) <==> |KeyEntries(subscribers, key)| <= 1)
      && (DistinctKeys(subscribers) ==> (s in r <==> s in subscribers && SubscriberKey(s.target) != key))
  {
    hide SubscriberKey, KeyEntries, RemoveKey;
    var r := RemoveKey(subscribers, key).subscribers;
    RemoveByKey(subscribers, key, key);
    EntriesMeanSubscribed(r, key);
    if SubscriberKey(s.target) != key {
      RemoveByKey(subscribers, key, SubscriberKey(s.target));
      OtherKeysMembers(r, subscribers, s);
    }
    DistinctByEntries(subscribers);
  }

  lemma EntriesMeanSubscribed(subscribers: seq<Subscription>, key: string)
    ensures KeyEntries(subscribers, key) == [] <==> forall o <- subscribers :: SubscriberKey(o.target) != key
  {
    hide SubscriberKey, KeyEntries;
    KeyEntriesMembers(subscribers, key);
    if KeyEntries(subscribers, key) != [] {
      assert KeyEntries(subscribers, key)[0] in KeyEntries(subscribers, key);
    } else {
      assert forall o <- subscribers :: SubscriberKey(o.target) == key ==> o in KeyEntries(subscribers, key);
    }
  }
}
