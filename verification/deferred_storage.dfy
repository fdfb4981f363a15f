/** The write-batching storage behind the persisted store
    (`createDeferredStateStorage`). Writes go to a pending map and reach the
    backing `localStorage` on a flush, which an idle callback or a timeout
    triggers (whichever comes first), as do page hide and unload. Reads see
    pending writes first. Each `setItem` returns a promise that the next
    flush resolves.

    `localStorage` is a map whose writes may be refused (quota, privacy
    mode); the scheduler's handles are numbers drawn from a counter; the
    resolvers are counted. Without a window the storage is a stub. */
module DeferredStorage {
  import opened Base

  const DefaultFlushDelay: int := 250

  /** `Math.max(options.flushDelayMs ?? DEFAULT_FLUSH_DELAY, 0)`. */
  function FlushDelay(option: Option<int>): (r: nat)
    ensures option.None? ==> r == DefaultFlushDelay
    ensures option.Some? && option.value >= 0 ==> r == option.value
    ensures option.Some? && option.value < 0 ==> r == 0
  {
    var requested := option.GetOr(DefaultFlushDelay);
    if requested > 0 then requested else 0
  }

  /** Whether `localStorage.setItem(name, value)` succeeds. */
  type Accepts = (string, string) -> bool

  datatype Storage = Storage(
    pending: map<string, string>,
    backing: map<string, string>,
    idleHandle: Option<nat>,
    timeoutHandle: Option<nat>,
    nextHandle: nat,
    waiters: nat,
    flushDelay: nat)

  /** The storage object: a stub when there is no window. */
  datatype Deferred = ServerStub | Browser(storage: Storage)

  /** `createDeferredStateStorage`, over the current `localStorage` contents. */
  function Create(hasWindow: bool, flushDelayMs: Option<int>, backing: map<string, string>): (r: Deferred)
    ensures r.ServerStub? <==> !hasWindow
    ensures r.Browser? ==> r.storage.pending == map[] && r.storage.backing == backing
                           && r.storage.waiters == 0 && r.storage.flushDelay == FlushDelay(flushDelayMs)
                           && r.storage.idleHandle.None? && r.storage.timeoutHandle.None?
  {
    if !hasWindow then ServerStub
    else Browser(Storage(map[], backing, None, None, 0, 0, FlushDelay(flushDelayMs)))
  }

  /** `getItem`: the pending value if there is one, else the stored one. */
  function GetItem(s: Storage, name: string): (r: Option<string>)
    ensures name in s.pending ==> r == Some(s.pending[name])
    ensures name !in s.pending && name in s.backing ==> r == Some(s.backing[name])
    ensures r.None? <==> name !in s.pending && name !in s.backing
  {
    if name in s.pending then Some(s.pending[name])
    else if name in s.backing then Some(s.backing[name])
    else None
  }

  /** `localStorage` after each pending entry was offered to it; an entry it
      refuses is dropped and the old value, if any, stays. */
  function Written(backing: map<string, string>, pending: map<string, string>, accepts: Accepts): (r: map<string, string>)
    ensures forall k :: k in r <==> (k in backing || (k in pending && accepts(k, pending[k])))
    ensures forall k :: k in pending && accepts(k, pending[k]) ==> r[k] == pending[k]
    ensures forall k :: k in backing && !(k in pending && accepts(k, pending[k])) ==> r[k] == backing[k]
  {
    map k | k in backing.Keys + pending.Keys && (k in backing || accepts(k, pending[k]))
      :: if k in pending && accepts(k, pending[k]) then pending[k] else backing[k]
  }

  /** `flush`: both handles are cleared; pending entries are written (a
      refused write is swallowed) and dropped; every waiter is resolved. */
  function Flush(s: Storage, accepts: Accepts): (r: Storage)
    ensures r.pending == map[] && r.waiters == 0
    ensures r.idleHandle.None? && r.timeoutHandle.None?
    ensures r.backing == Written(s.backing, s.pending, accepts)
    ensures s.pending == map[] ==> r.backing == s.backing
    ensures r.nextHandle == s.nextHandle && r.flushDelay == s.flushDelay
  {
    var disarmed := s.(idleHandle := None, timeoutHandle := None);
    if |s.pending| == 0 then
      assert Written(s.backing, s.pending, accepts) == s.backing;
      disarmed.(waiters := 0)
    else
      disarmed.(backing := Written(s.backing, s.pending, accepts), pending := map[], waiters := 0)
  }

  /** Flushing twice is flushing once. */
  lemma FlushIdempotent(s: Storage, accepts: Accepts)
    ensures Flush(Flush(s, accepts), accepts) == Flush(s, accepts)
  {
  }

  /** When every write succeeds, a flush is invisible to readers: every key
      reads the same before and after. */
  lemma FlushPreservesReads(s: Storage, accepts: Accepts, name: string)
    requires forall k :: k in s.pending ==> accepts(k, s.pending[k])
    ensures GetItem(Flush(s, accepts), name) == GetItem(s, name)
  {
  }

  /** `scheduleFlush`: with nothing pending both handles are cancelled;
      otherwise an idle callback (where the browser has one) and a timeout
      are armed, each only if not already armed. */
  function ScheduleFlush(s: Storage, hasIdleCallback: bool): (r: Storage)
    ensures r.pending == s.pending && r.backing == s.backing && r.waiters == s.waiters
    ensures s.pending == map[] ==> r.idleHandle.None? && r.timeoutHandle.None?
    ensures s.pending != map[] ==> r.timeoutHandle.Some?
    ensures s.pending != map[] && s.timeoutHandle.Some? ==> r.timeoutHandle == s.timeoutHandle
    ensures s.pending != map[] && s.idleHandle.Some? ==> r.idleHandle == s.idleHandle
    ensures s.pending != map[] && s.idleHandle.None? ==> (r.idleHandle.Some? <==> hasIdleCallback)
    ensures r.nextHandle >= s.nextHandle
    ensures forall h :: r.idleHandle == Some(h) && s.idleHandle != Some(h) ==> s.nextHandle <= h < r.nextHandle
    ensures forall h :: r.timeoutHandle == Some(h) && s.timeoutHandle != Some(h) ==> s.nextHandle <= h < r.nextHandle
  {
    if |s.pending| == 0 then
      s.(idleHandle := None, timeoutHandle := None)
    else
      var s1 := if s.idleHandle.None? && hasIdleCallback
                then s.(idleHandle := Some(s.nextHandle), nextHandle := s.nextHandle + 1)
                else s;
      if s1.timeoutHandle.None?
      then s1.(timeoutHandle := Some(s1.nextHandle), nextHandle := s1.nextHandle + 1)
      else s1
  }

  /** `setItem`: the write becomes pending, a flush is scheduled, and one
      more waiter is registered. */
  function SetItem(s: Storage, name: string, value: string, hasIdleCallback: bool): (r: Storage)
    ensures name in r.pending && r.pending[name] == value
    ensures forall k :: k != name ==> (k in r.pending <==> k in s.pending)
    ensures forall k :: k in s.pending && k != name ==> r.pending[k] == s.pending[k]
    ensures r.backing == s.backing && r.waiters == s.waiters + 1
    ensures r.timeoutHandle.Some?
  {
    var written := s.pending[name := value];
    var s1 := ScheduleFlush(s.(pending := written), hasIdleCallback);
    assert s1.pending == written;
    s1.(waiters := s1.waiters + 1)
  }

  /** A read right after a write sees the written value, and no other key's
      reading changes. */
  lemma ReadYourWrite(s: Storage, name: string, value: string, other: string, hasIdleCallback: bool)
    ensures GetItem(SetItem(s, name, value, hasIdleCallback), name) == Some(value)
    ensures other != name ==> GetItem(SetItem(s, name, value, hasIdleCallback), other) == GetItem(s, other)
  {
  }

  /** Writing one key twice before a flush leaves one pending entry with the
      last value, as if only the second write had happened. */
  lemma LastWritePending(s: Storage, name: string, v1: string, v2: string, hasIdleCallback: bool)
    ensures var twice := SetItem(SetItem(s, name, v1, hasIdleCallback), name, v2, hasIdleCallback);
            && twice.pending == SetItem(s, name, v2, hasIdleCallback).pending
            && |twice.pending| == |SetItem(s, name, v2, hasIdleCallback).pending|
  {
    var first := SetItem(s, name, v1, hasIdleCallback);
    var twice := SetItem(first, name, v2, hasIdleCallback);
    var once := SetItem(s, name, v2, hasIdleCallback);
    assert forall k :: k in twice.pending <==> k in once.pending;
    assert forall k :: k in twice.pending ==> twice.pending[k] == once.pending[k];
  }

  /** `removeItem`: the key leaves both the pending map and the backing
      store at once. */
  function RemoveItem(s: Storage, name: string): (r: Storage)
    ensures r.pending == s.pending - {name} && r.backing == s.backing - {name}
    ensures r.idleHandle == s.idleHandle && r.timeoutHandle == s.timeoutHandle && r.waiters == s.waiters
  {
    s.(pending := s.pending - {name}, backing := s.backing - {name})
  }

  /** A removed key reads as absent, and a flush does not bring it back. */
  lemma RemovedStaysRemoved(s: Storage, name: string, accepts: Accepts)
    ensures GetItem(RemoveItem(s, name), name).None?
    ensures GetItem(Flush(RemoveItem(s, name), accepts), name).None?
  {
  }

  /** The idle callback fires: its handle is cleared and a flush runs. */
  function IdleFires(s: Storage, accepts: Accepts): (r: Storage)
    ensures s.idleHandle.None? ==> r == s
    ensures s.idleHandle.Some? ==> r == Flush(s, accepts)
  {
    if s.idleHandle.None? then s else Flush(s.(idleHandle := None), accepts)
  }

  /** The timeout fires: the idle callback is cancelled and a flush runs. */
  function TimeoutFires(s: Storage, accepts: Accepts): (r: Storage)
    ensures s.timeoutHandle.None? ==> r == s
    ensures s.timeoutHandle.Some? ==> r == Flush(s, accepts)
  {
    if s.timeoutHandle.None? then s else Flush(s.(idleHandle := None), accepts)
  }

  datatype Event =
    | Set(name: string, value: string)
    | Remove(name: string)
    | Idle
    | Timeout
    | PageHidden   // beforeunload, pagehide, or visibility turning hidden

  function Step(s: Storage, e: Event, hasIdleCallback: bool, accepts: Accepts): Storage {
    match e
    case Set(name, value) => SetItem(s, name, value, hasIdleCallback)
    case Remove(name) => RemoveItem(s, name)
    case Idle => IdleFires(s, accepts)
    case Timeout => TimeoutFires(s, accepts)
    case PageHidden => Flush(s, accepts)
  }

  function Run(s: Storage, events: seq<Event>, hasIdleCallback: bool, accepts: Accepts): Storage
    decreases |events|
  {
    if events == [] then s
    else Run(Step(s, events[0], hasIdleCallback, accepts), events[1..], hasIdleCallback, accepts)
  }

  /** Nothing waits without a flush on the way: whenever a write is pending
      or a promise is unresolved, the timeout is armed, and every armed
      handle was drawn from the counter. */
  ghost predicate FlushScheduled(s: Storage) {
    && (s.pending != map[] || s.waiters > 0 ==> s.timeoutHandle.Some?)
    && (s.idleHandle.Some? ==> s.idleHandle.value < s.nextHandle)
    && (s.timeoutHandle.Some? ==> s.timeoutHandle.value < s.nextHandle)
    && (s.idleHandle.Some? && s.timeoutHandle.Some? ==> s.idleHandle.value != s.timeoutHandle.value)
  }

  lemma StepKeepsFlushScheduled(s: Storage, e: Event, hasIdleCallback: bool, accepts: Accepts)
    requires FlushScheduled(s)
    ensures FlushScheduled(Step(s, e, hasIdleCallback, accepts))
  {
  }

  /** Along any sequence of writes, removals, idle callbacks, timeouts and
      page hides, no write or waiter is ever left without an armed flush. */
  lemma {:induction false} NoWriteLeftBehind(s: Storage, events: seq<Event>, hasIdleCallback: bool, accepts: Accepts)
    requires FlushScheduled(s)
    ensures FlushScheduled(Run(s, events, hasIdleCallback, accepts))
    decreases |events|
  {
    if events != [] {
      StepKeepsFlushScheduled(s, events[0], hasIdleCallback, accepts);
      NoWriteLeftBehind(Step(s, events[0], hasIdleCallback, accepts), events[1..], hasIdleCallback, accepts);
    }
  }

  /** The key is neither pending nor stored. */
  ghost predicate Absent(s: Storage, name: string) {
    name !in s.pending && name !in s.backing
  }

  /** Only a write of the key itself can bring an absent key back: writes
      of other keys, removals, idle callbacks, timeouts and page hides all
      keep it absent. */
  lemma StepKeepsAbsent(s: Storage, name: string, e: Event, hasIdleCallback: bool, accepts: Accepts)
    requires Absent(s, name)
    requires !(e.Set? && e.name == name)
    ensures Absent(Step(s, e, hasIdleCallback, accepts), name)
  {
    match e
    case Set(other, value) =>
      assert name != other;
    case Remove(_) =>
    case Idle =>
    case Timeout =>
    case PageHidden =>
  }

  /** A removed key reads as absent after any sequence of events that does
      not write it again, whatever the flushes did in between. */
  lemma {:induction false} RemovedUntilWritten(s: Storage, name: string, events: seq<Event>,
                                               hasIdleCallback: bool, accepts: Accepts)
    requires forall i :: 0 <= i < |events| ==> !(events[i].Set? && events[i].name == name)
    ensures GetItem(Run(RemoveItem(s, name), events, hasIdleCallback, accepts), name).None?
  {
    AbsentAlong(RemoveItem(s, name), name, events, hasIdleCallback, accepts);
  }

  lemma {:induction false} AbsentAlong(s: Storage, name: string, events: seq<Event>,
                                       hasIdleCallback: bool, accepts: Accepts)
    requires Absent(s, name)
    requires forall i :: 0 <= i < |events| ==> !(events[i].Set? && events[i].name == name)
    ensures Absent(Run(s, events, hasIdleCallback, accepts), name)
    decreases |events|
  {
    if events != [] {
      StepKeepsAbsent(s, name, events[0], hasIdleCallback, accepts);
      AbsentAlong(Step(s, events[0], hasIdleCallback, accepts), name, events[1..], hasIdleCallback, accepts);
    }
  }

  /** The storage object's three methods. Without a window reads yield
      nothing and writes and removals change nothing. */
  function DeferredGet(d: Deferred, name: string): (r: Option<string>)
    ensures d.ServerStub? ==> r.None?
    ensures d.Browser? ==> r == GetItem(d.storage, name)
  {
    match d
    case ServerStub => None
    case Browser(s) => GetItem(s, name)
  }

  function DeferredSet(d: Deferred, name: string, value: string, hasIdleCallback: bool): (r: Deferred)
    ensures d.ServerStub? ==> r == d
    ensures d.Browser? ==> r == Browser(SetItem(d.storage, name, value, hasIdleCallback))
  {
    match d
    case ServerStub => ServerStub
    case Browser(s) => Browser(SetItem(s, name, value, hasIdleCallback))
  }

  function DeferredRemove(d: Deferred, name: string): (r: Deferred)
    ensures d.ServerStub? ==> r == d
    ensures d.Browser? ==> r == Browser(RemoveItem(d.storage, name))
  {
    match d
    case ServerStub => ServerStub
    case Browser(s) => Browser(RemoveItem(s, name))
  }
}
