/**
 * Compare-and-set on the offchain store, run by any number of threads. Each thread's call is cut
 * into the sections that no other thread can see inside: taking an entry of the lock map, the
 * key's own lock around a read and a write, and cleaning the lock map.
 */
module Offchain {
  import opened Common

  type Key = Bytes
  type Value = Bytes

  /** A call; the key is the prefix followed by the item key. */
  datatype Call = Call(key: Key, expected: Option<Value>, replacement: Value)

  /** Where a call stands, and the mutex it took from the lock map. */
  datatype Stage =
    | Started
    | Waiting(mutex: nat)
    | Holding(mutex: nat)
    | Compared(mutex: nat, isSet: bool)
    | Written(mutex: nat, isSet: bool)
    | Released(mutex: nat, isSet: bool)

  /** A call in flight; its ticket tells it from every other call of the run. */
  datatype Thread = Thread(ticket: nat, call: Call, stage: Stage)

  /** A call and its outcome, noted when the outcome takes effect and again when it is returned. */
  datatype Outcome = Outcome(ticket: nat, call: Call, isSet: bool)

  datatype Store = Store(
    db: map<Key, Value>,
    locks: map<Key, nat>,
    owners: map<nat, nat>,
    threads: map<nat, Thread>,
    nextMutex: nat,
    nextTicket: nat,
    history: seq<Outcome>,
    returned: map<nat, Outcome>
  )

  datatype Action =
    | Begin(thread: nat, call: Call)
    | Enter(thread: nat)
    | Acquire(thread: nat)
    | Compare(thread: nat)
    | Write(thread: nat)
    | Release(thread: nat)
    | Leave(thread: nat)

  function ValueOf(db: map<Key, Value>, key: Key): Option<Value> {
    if key in db then Some(db[key]) else None
  }

  predicate Enabled(s: Store, a: Action) {
    match a
    case Begin(t, _) => t !in s.threads
    case Enter(t) => t in s.threads && s.threads[t].stage.Started?
    case Acquire(t) => t in s.threads && s.threads[t].stage.Waiting? && s.threads[t].stage.mutex !in s.owners
    case Compare(t) => t in s.threads && s.threads[t].stage.Holding?
    case Write(t) => t in s.threads && s.threads[t].stage.Compared?
    case Release(t) => t in s.threads && s.threads[t].stage.Written?
    case Leave(t) => t in s.threads && s.threads[t].stage.Released?
  }

  function At(s: Store, t: nat, stage: Stage): map<nat, Thread>
    requires t in s.threads
  {
    s.threads[t := s.threads[t].(stage := stage)]
  }

  /** Another thread still has a handle of the mutex. */
  ghost predicate SharedWithOthers(s: Store, t: nat, mutex: nat) {
    exists u :: u in s.threads && u != t && !s.threads[u].stage.Started? && s.threads[u].stage.mutex == mutex
  }

  function DoBegin(s: Store, t: nat, call: Call): Store {
    s.(threads := s.threads[t := Thread(s.nextTicket, call, Started)], nextTicket := s.nextTicket + 1)
  }

  /** Under the lock map's own lock: the key's mutex is cloned, or created if there is none. */
  function DoEnter(s: Store, t: nat): Store
    requires t in s.threads
  {
    var key := s.threads[t].call.key;
    if key in s.locks then s.(threads := At(s, t, Waiting(s.locks[key])))
    else s.(locks := s.locks[key := s.nextMutex], nextMutex := s.nextMutex + 1, threads := At(s, t, Waiting(s.nextMutex)))
  }

  function DoAcquire(s: Store, t: nat): Store
    requires t in s.threads && s.threads[t].stage.Waiting?
  {
    var mutex := s.threads[t].stage.mutex;
    s.(owners := s.owners[mutex := t], threads := At(s, t, Holding(mutex)))
  }

  function DoCompare(s: Store, t: nat): Store
    requires t in s.threads && s.threads[t].stage.Holding?
  {
    var call := s.threads[t].call;
    var isSet := ValueOf(s.db, call.key) == call.expected;
    s.(threads := At(s, t, Compared(s.threads[t].stage.mutex, isSet)),
       history := s.history + if isSet then [] else [Outcome(s.threads[t].ticket, call, false)])
  }

  function DoWrite(s: Store, t: nat): Store
    requires t in s.threads && s.threads[t].stage.Compared?
  {
    var call, isSet := s.threads[t].call, s.threads[t].stage.isSet;
    s.(db := if isSet then s.db[call.key := call.replacement] else s.db,
       threads := At(s, t, Written(s.threads[t].stage.mutex, isSet)),
       history := s.history + if isSet then [Outcome(s.threads[t].ticket, call, true)] else [])
  }

  function DoRelease(s: Store, t: nat): Store
    requires t in s.threads && s.threads[t].stage.Written?
  {
    var stage := s.threads[t].stage;
    s.(owners := s.owners - {stage.mutex}, threads := At(s, t, Released(stage.mutex, stage.isSet)))
  }

  /**
   * Under the lock map's own lock: the handle is dropped, and the entry with it if it was the last.
   * Then the call returns whether it has set the value.
   */
  ghost function DoLeave(s: Store, t: nat): Store
    requires t in s.threads && s.threads[t].stage.Released?
  {
    var key, ticket := s.threads[t].call.key, s.threads[t].ticket;
    s.(locks := if key in s.locks && !SharedWithOthers(s, t, s.locks[key]) then s.locks - {key} else s.locks,
       threads := s.threads - {t},
       returned := s.returned[ticket := Outcome(ticket, s.threads[t].call, s.threads[t].stage.isSet)])
  }

  ghost function Do(s: Store, a: Action): Store
    requires Enabled(s, a)
  {
    match a
    case Begin(t, call) => DoBegin(s, t, call)
    case Enter(t) => DoEnter(s, t)
    case Acquire(t) => DoAcquire(s, t)
    case Compare(t) => DoCompare(s, t)
    case Write(t) => DoWrite(s, t)
    case Release(t) => DoRelease(s, t)
    case Leave(t) => DoLeave(s, t)
  }

  // ---- Invariant ---------------------------------------------------------

  predicate Owns(stage: Stage) {
    stage.Holding? || stage.Compared? || stage.Written?
  }

  /** Every call past its start uses the mutex now in the lock map, and owns it exactly while it holds the key. */
  ghost predicate ThreadRight(s: Store, t: nat)
    requires t in s.threads
  {
    var thread := s.threads[t];
    thread.stage.Started? ||
    (&& thread.call.key in s.locks && s.locks[thread.call.key] == thread.stage.mutex
     && (Owns(thread.stage) <==> thread.stage.mutex in s.owners && s.owners[thread.stage.mutex] == t)
     && (thread.stage.Compared? && thread.stage.isSet ==> ValueOf(s.db, thread.call.key) == thread.call.expected))
  }

  ghost predicate UsedBySome(s: Store, key: Key) {
    exists t :: t in s.threads && !s.threads[t].stage.Started? && s.threads[t].call.key == key
  }

  ghost predicate OwnerOf(s: Store, m: nat, t: nat) {
    t in s.threads && Owns(s.threads[t].stage) && s.threads[t].stage.mutex == m
  }

  ghost predicate AllThreads(s: Store) {
    forall t :: t in s.threads ==> ThreadRight(s, t)
  }

  /** The lock map has an entry exactly for keys with a call in flight. */
  ghost predicate AllLocks(s: Store) {
    forall key :: key in s.locks ==> UsedBySome(s, key) && s.locks[key] < s.nextMutex
  }

  ghost predicate LocksDiffer(s: Store) {
    forall k, l :: k in s.locks && l in s.locks && k != l ==> s.locks[k] != s.locks[l]
  }

  ghost predicate AllOwners(s: Store) {
    forall m :: m in s.owners ==> m < s.nextMutex && OwnerOf(s, m, s.owners[m])
  }

  ghost predicate Valid(s: Store) {
    AllThreads(s) && AllLocks(s) && LocksDiffer(s) && AllOwners(s)
  }

  // ---- What every step keeps ---------------------------------------------

  lemma OthersRight(s: Store, s': Store, t: nat)
    requires AllThreads(s)
    requires forall u :: u in s'.threads && u != t ==> u in s.threads && s'.threads[u] == s.threads[u]
    requires forall u :: u in s'.threads && u != t && !s'.threads[u].stage.Started? ==>
               var key := s'.threads[u].call.key;
               && (key in s.locks ==> key in s'.locks && s'.locks[key] == s.locks[key])
               && (s'.threads[u].stage.Compared? ==> ValueOf(s'.db, key) == ValueOf(s.db, key))
    requires forall m :: m in s.owners && s.owners[m] != t ==> m in s'.owners && s'.owners[m] == s.owners[m]
    requires forall m :: m in s'.owners && s'.owners[m] != t ==> m in s.owners && s.owners[m] == s'.owners[m]
    requires t in s'.threads ==> ThreadRight(s', t)
    ensures AllThreads(s')
  {
    forall u | u in s'.threads ensures ThreadRight(s', u) {
      if u != t {
        assert ThreadRight(s, u);
      }
    }
  }

  /** Entries stay used while the calls that use them stay in flight. */
  lemma UsesKept(s: Store, s': Store, key: Key)
    requires UsedBySome(s, key)
    requires forall u :: u in s.threads && !s.threads[u].stage.Started? ==>
               u in s'.threads && !s'.threads[u].stage.Started? && s'.threads[u].call == s.threads[u].call
    ensures UsedBySome(s', key)
  {
    var u :| u in s.threads && !s.threads[u].stage.Started? && s.threads[u].call.key == key;
    assert u in s'.threads && !s'.threads[u].stage.Started? && s'.threads[u].call.key == key;
  }

  lemma NotOwner(s: Store, t: nat)
    requires AllOwners(s) && (t in s.threads ==> !Owns(s.threads[t].stage))
    ensures forall m :: m in s.owners ==> s.owners[m] != t
  {
    forall m | m in s.owners ensures s.owners[m] != t { assert OwnerOf(s, m, s.owners[m]); }
  }

  lemma OwnersKept(s: Store, s': Store, t: nat)
    requires AllOwners(s) && s'.owners == s.owners && s.nextMutex <= s'.nextMutex
    requires forall m :: m in s.owners ==> s.owners[m] != t
    requires forall u :: u in s.threads && u != t ==> u in s'.threads && s'.threads[u] == s.threads[u]
    ensures AllOwners(s')
  {
    forall m | m in s'.owners ensures m < s'.nextMutex && OwnerOf(s', m, s'.owners[m]) { assert OwnerOf(s, m, s.owners[m]); }
  }

  lemma BeginKeepsValid(s: Store, t: nat, call: Call)
    requires Valid(s) && Enabled(s, Begin(t, call))
    ensures Valid(DoBegin(s, t, call))
  {
    var s' := DoBegin(s, t, call);
    hide AllThreads, UsedBySome, AllOwners;
    NotOwner(s, t);
    OwnersKept(s, s', t);
    OthersRight(s, s', t);
    forall key | key in s'.locks ensures UsedBySome(s', key) { UsesKept(s, s', key); }
  }

  lemma FreshUnowned(s: Store)
    requires AllOwners(s)
    ensures s.nextMutex !in s.owners
  {
  }

  lemma EnterKeepsValid(s: Store, t: nat)
    requires Valid(s) && Enabled(s, Enter(t))
    ensures Valid(DoEnter(s, t))
  {
    var s' := DoEnter(s, t);
    hide AllThreads, UsedBySome, AllOwners, AllLocks, LocksDiffer;
    NotOwner(s, t);
    OwnersKept(s, s', t);
    EnterLocks(s, t);
    FreshUnowned(s);
    EnterThreads(s, t);
  }

  lemma EnterThreads(s: Store, t: nat)
    requires AllThreads(s) && Enabled(s, Enter(t)) && s.nextMutex !in s.owners
    requires forall m :: m in s.owners ==> s.owners[m] != t
    ensures AllThreads(DoEnter(s, t))
  {
    var s' := DoEnter(s, t);
    forall u | u in s'.threads ensures ThreadRight(s', u) {
      if u != t {
        assert u in s.threads && s'.threads[u] == s.threads[u];
        assert ThreadRight(s, u);
      }
    }
  }

  lemma EnterLocks(s: Store, t: nat)
    requires AllLocks(s) && LocksDiffer(s) && Enabled(s, Enter(t))
    ensures AllLocks(DoEnter(s, t)) && LocksDiffer(DoEnter(s, t))
  {
    var s' := DoEnter(s, t);
    forall k | k in s'.locks ensures UsedBySome(s', k) && s'.locks[k] < s'.nextMutex {
      if k in s.locks {
        UsesKept(s, s', k);
      } else {
        assert t in s'.threads && !s'.threads[t].stage.Started? && s'.threads[t].call.key == k;
      }
    }
    hide UsedBySome;
  }

  /** A step that moves one thread, past its start, from stage to stage without touching the lock map. */
  ghost predicate MovesOnly(s: Store, s': Store, t: nat) {
    && t in s.threads && !s.threads[t].stage.Started?
    && s'.locks == s.locks && s'.nextMutex == s.nextMutex
    && t in s'.threads && s'.threads == s.threads[t := s'.threads[t]] && s'.threads[t].call == s.threads[t].call
    && !s'.threads[t].stage.Started? && s'.threads[t].stage.mutex == s.threads[t].stage.mutex
  }

  lemma MoveKeepsLocks(s: Store, s': Store, t: nat)
    requires AllLocks(s) && LocksDiffer(s) && MovesOnly(s, s', t)
    ensures AllLocks(s') && LocksDiffer(s')
  {
    forall key | key in s'.locks ensures UsedBySome(s', key) { UsesKept(s, s', key); }
    hide UsedBySome;
  }

  /** Two calls past their start with one mutex have one key. */
  lemma MutexNamesKey(s: Store, t: nat, u: nat)
    requires AllThreads(s) && LocksDiffer(s) && t in s.threads && u in s.threads
    requires !s.threads[t].stage.Started? && !s.threads[u].stage.Started?
    ensures s.threads[t].stage.mutex == s.threads[u].stage.mutex <==> s.threads[t].call.key == s.threads[u].call.key
  {
    assert ThreadRight(s, t) && ThreadRight(s, u);
  }

  lemma AcquireKeepsValid(s: Store, t: nat)
    requires Valid(s) && Enabled(s, Acquire(t))
    ensures Valid(DoAcquire(s, t))
  {
    var s' := DoAcquire(s, t);
    var m := s.threads[t].stage.mutex;
    hide AllThreads, AllLocks, LocksDiffer, UsedBySome;
    AtMutex(s, t);
    NotOwner(s, t);
    AcquireThreads(s, t);
    MoveKeepsLocks(s, s', t);
    MutexIsOld(s, s.threads[t].call.key);
    forall o | o in s'.owners ensures o < s'.nextMutex && OwnerOf(s', o, s'.owners[o]) {
      if o != m { assert OwnerOf(s, o, s.owners[o]); }
    }
  }

  lemma MutexIsOld(s: Store, key: Key)
    requires AllLocks(s) && key in s.locks
    ensures s.locks[key] < s.nextMutex
  {
  }

  lemma AcquireThreads(s: Store, t: nat)
    requires AllThreads(s) && Enabled(s, Acquire(t))
    requires forall m :: m in s.owners ==> s.owners[m] != t
    ensures AllThreads(DoAcquire(s, t))
  {
    var s' := DoAcquire(s, t);
    forall u | u in s'.threads ensures ThreadRight(s', u) {
      assert ThreadRight(s, u);
      if u != t { assert s'.threads[u] == s.threads[u]; }
    }
  }

  lemma ReleaseKeepsValid(s: Store, t: nat)
    requires Valid(s) && Enabled(s, Release(t))
    ensures Valid(DoRelease(s, t))
  {
    var s' := DoRelease(s, t);
    var m := s.threads[t].stage.mutex;
    assert ThreadRight(s, t);
    forall o | o in s.owners && s.owners[o] == t ensures o == m { assert OwnerOf(s, o, t); }
    assert ThreadRight(s', t);
    OthersRight(s, s', t);
    MoveKeepsLocks(s, s', t);
    forall o | o in s'.owners ensures OwnerOf(s', o, s'.owners[o]) { assert OwnerOf(s, o, s.owners[o]); }
    hide AllThreads, AllLocks, LocksDiffer, UsedBySome;
  }

  /** While a call holds its key, no other call is between its comparison and its write. */
  lemma HoldsAlone(s: Store, t: nat, u: nat)
    requires Valid(s) && t in s.threads && u in s.threads && t != u
    requires Owns(s.threads[t].stage) && s.threads[t].call.key == s.threads[u].call.key
    ensures !Owns(s.threads[u].stage)
  {
    assert ThreadRight(s, t) && ThreadRight(s, u);
  }

  /** A step inside the key's lock. */
  lemma InsideKeepsValid(s: Store, s': Store, t: nat)
    requires Valid(s) && MovesOnly(s, s', t) && s'.owners == s.owners
    requires Owns(s.threads[t].stage) && Owns(s'.threads[t].stage)
    requires forall key :: key != s.threads[t].call.key ==> ValueOf(s'.db, key) == ValueOf(s.db, key)
    requires s'.threads[t].stage.Compared? && s'.threads[t].stage.isSet ==> ValueOf(s'.db, s.threads[t].call.key) == s.threads[t].call.expected
    ensures Valid(s')
  {
    assert ThreadRight(s, t);
    assert ThreadRight(s', t);
    forall u | u in s'.threads && u != t && s'.threads[u].stage.Compared?
      ensures ValueOf(s'.db, s'.threads[u].call.key) == ValueOf(s.db, s'.threads[u].call.key)
    {
      if s.threads[u].call.key == s.threads[t].call.key { HoldsAlone(s, t, u); }
    }
    OthersRight(s, s', t);
    MoveKeepsLocks(s, s', t);
    forall o | o in s'.owners ensures OwnerOf(s', o, s'.owners[o]) { assert OwnerOf(s, o, s.owners[o]); }
    hide AllThreads, AllLocks, LocksDiffer, UsedBySome;
  }

  lemma LeaveLocks(s: Store, t: nat)
    requires Valid(s) && Enabled(s, Leave(t))
    ensures AllLocks(DoLeave(s, t)) && LocksDiffer(DoLeave(s, t))
  {
    var s' := DoLeave(s, t);
    var key := s.threads[t].call.key;
    assert ThreadRight(s, t);
    forall k | k in s'.locks ensures UsedBySome(s', k) && s'.locks[k] < s'.nextMutex {
      if k == key {
        var u :| u in s.threads && u != t && !s.threads[u].stage.Started? && s.threads[u].stage.mutex == s.locks[key];
        MutexNamesKey(s, t, u);
        assert u in s'.threads && !s'.threads[u].stage.Started? && s'.threads[u].call.key == k;
      } else {
        var u :| u in s.threads && !s.threads[u].stage.Started? && s.threads[u].call.key == k;
        assert u in s'.threads && !s'.threads[u].stage.Started? && s'.threads[u].call.key == k;
      }
    }
  }

  lemma AtMutex(s: Store, t: nat)
    requires AllThreads(s) && t in s.threads && !s.threads[t].stage.Started?
    ensures s.threads[t].call.key in s.locks && s.locks[s.threads[t].call.key] == s.threads[t].stage.mutex
  {
    assert ThreadRight(s, t);
  }

  lemma SharingIs(s: Store, t: nat, u: nat)
    requires u in s.threads && u != t && !s.threads[u].stage.Started?
    ensures SharedWithOthers(s, t, s.threads[u].stage.mutex)
  {
  }

  lemma LeaveKeepsValid(s: Store, t: nat)
    requires Valid(s) && Enabled(s, Leave(t))
    ensures Valid(DoLeave(s, t))
  {
    var s' := DoLeave(s, t);
    var key := s.threads[t].call.key;
    AtMutex(s, t);
    var m := s.locks[key];
    LeaveLocks(s, t);
    hide AllThreads, AllLocks, LocksDiffer, UsedBySome, AllOwners, SharedWithOthers;
    forall u | u in s'.threads && u != t && !s'.threads[u].stage.Started? && s'.threads[u].call.key == key
      ensures SharedWithOthers(s, t, m)
    {
      MutexNamesKey(s, t, u);
      SharingIs(s, t, u);
    }
    NotOwner(s, t);
    OwnersKept(s, s', t);
    OthersRight(s, s', t);
  }

  lemma StepKeepsValid(s: Store, a: Action)
    requires Valid(s) && Enabled(s, a)
    ensures Valid(Do(s, a))
  {
    match a {
      case Begin(t, call) => BeginKeepsValid(s, t, call);
      case Enter(t) => EnterKeepsValid(s, t);
      case Acquire(t) => AcquireKeepsValid(s, t);
      case Compare(t) => InsideKeepsValid(s, DoCompare(s, t), t);
      case Write(t) => InsideKeepsValid(s, DoWrite(s, t), t);
      case Release(t) => ReleaseKeepsValid(s, t);
      case Leave(t) => LeaveKeepsValid(s, t);
    }
    hide Valid, DoBegin, DoEnter, DoAcquire, DoRelease, DoLeave;
  }

  // ---- One at a time -----------------------------------------------------

  /** Compare-and-set as one indivisible operation. */
  function Atomic(db: map<Key, Value>, call: Call): (map<Key, Value>, bool) {
    if ValueOf(db, call.key) == call.expected then (db[call.key := call.replacement], true) else (db, false)
  }

  /** The store after the calls of a history, run one after another. */
  function Replay(db: map<Key, Value>, history: seq<Outcome>): map<Key, Value>
    decreases |history|
  {
    if history == [] then db else Atomic(Replay(db, history[..|history| - 1]), history[|history| - 1].call).0
  }

  /** Every outcome is the one the indivisible operation gives at its place in the history. */
  predicate Sequential(db: map<Key, Value>, history: seq<Outcome>)
    decreases |history|
  {
    history == [] ||
    (&& Sequential(db, history[..|history| - 1])
     && Atomic(Replay(db, history[..|history| - 1]), history[|history| - 1].call).1 == history[|history| - 1].isSet)
  }

  ghost predicate Linear(s: Store, start: map<Key, Value>) {
    Sequential(start, s.history) && Replay(start, s.history) == s.db
  }

  lemma AppendLinear(start: map<Key, Value>, history: seq<Outcome>, ticket: nat, call: Call)
    requires Sequential(start, history)
    ensures var (db, isSet) := Atomic(Replay(start, history), call);
            var after := history + [Outcome(ticket, call, isSet)];
            Sequential(start, after) && Replay(start, after) == db
  {
    var after := history + [Outcome(ticket, call, Atomic(Replay(start, history), call).1)];
    assert after[..|after| - 1] == history;
  }

  /** A call takes effect when it writes; a refused call, when it compares. */
  lemma StepIsLinear(s: Store, a: Action, start: map<Key, Value>)
    requires Valid(s) && Enabled(s, a) && Linear(s, start)
    ensures Linear(Do(s, a), start)
  {
    hide AllLocks, AllOwners, LocksDiffer, Sequential, Replay, At;
    if a.Compare? || a.Write? {
      var t := a.thread;
      AppendLinear(start, s.history, s.threads[t].ticket, s.threads[t].call);
      assert ThreadRight(s, t);
      assert s.history + [] == s.history;
    }
  }

  function Start(db: map<Key, Value>): Store {
    Store(db, map[], map[], map[], 0, 0, [], map[])
  }

  // ---- Every call is answered with its own outcome ------------------------

  /** The call has taken effect: it has written, or compared and found another value. */
  predicate Effected(stage: Stage) {
    stage.Written? || stage.Released? || (stage.Compared? && !stage.isSet)
  }

  function OutcomeOf(thread: Thread): Outcome
    requires Effected(thread.stage)
  {
    Outcome(thread.ticket, thread.call, thread.stage.isSet)
  }

  /** Tickets are given out once: to a call in flight, or to one that has returned. */
  ghost predicate TicketsRight(s: Store) {
    && (forall t :: t in s.threads ==> s.threads[t].ticket < s.nextTicket && s.threads[t].ticket !in s.returned)
    && (forall t, u :: t in s.threads && u in s.threads && t != u ==> s.threads[t].ticket != s.threads[u].ticket)
    && (forall k :: k in s.returned ==> k < s.nextTicket && s.returned[k].ticket == k)
  }

  /** No two entries are of one call. */
  predicate OneEntryEach(history: seq<Outcome>) {
    forall i, j :: 0 <= i < j < |history| ==> history[i].ticket != history[j].ticket
  }

  predicate NoEntry(history: seq<Outcome>, ticket: nat) {
    forall i :: 0 <= i < |history| ==> history[i].ticket != ticket
  }

  /** A call in flight has its own outcome in the history once it has taken effect, and nothing before. */
  predicate ThreadNoted(history: seq<Outcome>, thread: Thread) {
    if Effected(thread.stage) then OutcomeOf(thread) in history else NoEntry(history, thread.ticket)
  }

  /** The entry is of a call that returned this very outcome, or that is in flight past its effect. */
  ghost predicate Accounted(s: Store, o: Outcome) {
    || (o.ticket in s.returned && s.returned[o.ticket] == o)
    || exists t :: t in s.threads && Effected(s.threads[t].stage) && OutcomeOf(s.threads[t]) == o
  }

  /**
   * The history has exactly one entry for each call that has taken effect, with the outcome the
   * call returns or will return, and no other entries.
   */
  ghost predicate Answered(s: Store) {
    && TicketsRight(s) && OneEntryEach(s.history)
    && (forall t :: t in s.threads ==> ThreadNoted(s.history, s.threads[t]))
    && (forall k :: k in s.returned ==> s.returned[k] in s.history)
    && (forall i :: 0 <= i < |s.history| ==> Accounted(s, s.history[i]))
  }

  lemma OldTickets(s: Store)
    requires Answered(s)
    ensures NoEntry(s.history, s.nextTicket)
  {
    forall i | 0 <= i < |s.history| ensures s.history[i].ticket != s.nextTicket { assert Accounted(s, s.history[i]); }
  }

  lemma BeginAnswers(s: Store, t: nat, call: Call)
    requires Answered(s) && Enabled(s, Begin(t, call))
    ensures Answered(DoBegin(s, t, call))
  {
    var s' := DoBegin(s, t, call);
    OldTickets(s);
    forall i | 0 <= i < |s'.history| ensures Accounted(s', s'.history[i]) { AccountedKept(s, s', s.history[i], t); }
    hide NoEntry, OneEntryEach, Accounted;
  }

  /** Entries of other calls stay accounted for. */
  lemma AccountedKept(s: Store, s': Store, o: Outcome, t: nat)
    requires Accounted(s, o) && (forall k :: k in s.returned ==> k in s'.returned && s'.returned[k] == s.returned[k])
    requires forall u :: u in s.threads && u != t ==> u in s'.threads && s'.threads[u] == s.threads[u]
    requires t in s.threads && Effected(s.threads[t].stage) ==>
               Accounted(s', OutcomeOf(s.threads[t]))
    ensures Accounted(s', o)
  {
  }

  /** A step of one call that takes no effect. */
  lemma MoveAnswers(s: Store, s': Store, t: nat)
    requires Answered(s) && t in s.threads && t in s'.threads && s'.threads == s.threads[t := s'.threads[t]]
    requires s'.threads[t].ticket == s.threads[t].ticket && s'.threads[t].call == s.threads[t].call
    requires s'.returned == s.returned && s'.nextTicket == s.nextTicket && s'.history == s.history
    requires Effected(s'.threads[t].stage) <==> Effected(s.threads[t].stage)
    requires Effected(s.threads[t].stage) ==> s'.threads[t].stage.isSet == s.threads[t].stage.isSet
    ensures Answered(s')
  {
    assert ThreadNoted(s.history, s.threads[t]);
    forall i | 0 <= i < |s'.history| ensures Accounted(s', s'.history[i]) { AccountedKept(s, s', s.history[i], t); }
    hide NoEntry, OneEntryEach, Accounted;
  }

  /** The step at which a call takes effect. */
  lemma EffectAnswers(s: Store, s': Store, t: nat)
    requires Answered(s) && t in s.threads && t in s'.threads && s'.threads == s.threads[t := s'.threads[t]]
    requires s'.threads[t].ticket == s.threads[t].ticket && s'.threads[t].call == s.threads[t].call
    requires s'.returned == s.returned && s'.nextTicket == s.nextTicket
    requires !Effected(s.threads[t].stage) && Effected(s'.threads[t].stage)
    requires s'.history == s.history + [OutcomeOf(s'.threads[t])]
    ensures Answered(s')
  {
    assert ThreadNoted(s.history, s.threads[t]);
    var o := OutcomeOf(s'.threads[t]);
    forall u | u in s'.threads ensures ThreadNoted(s'.history, s'.threads[u]) {
      if u == t { assert s'.history[|s.history|] == o; } else { assert ThreadNoted(s.history, s.threads[u]); }
    }
    forall i | 0 <= i < |s'.history| ensures Accounted(s', s'.history[i]) {
      if i < |s.history| { AccountedKept(s, s', s.history[i], t); }
    }
    hide Accounted;
  }

  lemma LeaveAnswers(s: Store, t: nat)
    requires Answered(s) && Enabled(s, Leave(t))
    ensures Answered(DoLeave(s, t))
  {
    var s' := DoLeave(s, t);
    var o := OutcomeOf(s.threads[t]);
    assert ThreadNoted(s.history, s.threads[t]);
    assert s'.returned == s.returned[o.ticket := o];
    forall i | 0 <= i < |s'.history| ensures Accounted(s', s'.history[i]) { AccountedKept(s, s', s.history[i], t); }
    hide NoEntry, OneEntryEach, Accounted;
  }

  lemma StepAnswers(s: Store, a: Action)
    requires Answered(s) && Enabled(s, a)
    ensures Answered(Do(s, a))
  {
    assert s.history + [] == s.history;
    match a {
      case Begin(t, call) => BeginAnswers(s, t, call);
      case Enter(t) => MoveAnswers(s, DoEnter(s, t), t);
      case Acquire(t) => MoveAnswers(s, DoAcquire(s, t), t);
      case Compare(t) =>
        var s' := DoCompare(s, t);
        if s'.threads[t].stage.isSet { MoveAnswers(s, s', t); } else { EffectAnswers(s, s', t); }
      case Write(t) =>
        var s' := DoWrite(s, t);
        if s.threads[t].stage.isSet { EffectAnswers(s, s', t); } else { MoveAnswers(s, s', t); }
      case Release(t) => MoveAnswers(s, DoRelease(s, t), t);
      case Leave(t) => LeaveAnswers(s, t);
    }
    hide Answered, DoBegin, DoLeave;
  }

  // ---- Whole runs --------------------------------------------------------

  ghost predicate Possible(s: Store, actions: seq<Action>)
    decreases |actions|
  {
    actions != [] ==> Enabled(s, actions[0]) && Possible(Do(s, actions[0]), actions[1..])
  }

  ghost function Run(s: Store, actions: seq<Action>): Store
    requires Possible(s, actions)
    decreases |actions|
  {
    if actions == [] then s else Run(Do(s, actions[0]), actions[1..])
  }

  lemma {:induction false} RunKeeps(s: Store, actions: seq<Action>, start: map<Key, Value>)
    requires Valid(s) && Linear(s, start) && Answered(s) && Possible(s, actions)
    ensures Valid(Run(s, actions)) && Linear(Run(s, actions), start) && Answered(Run(s, actions))
    decreases |actions|
  {
    if actions != [] {
      StepKeepsValid(s, actions[0]);
      StepIsLinear(s, actions[0], start);
      StepAnswers(s, actions[0]);
      RunKeeps(Do(s, actions[0]), actions[1..], start);
    }
    hide Valid, Linear, Answered, Do;
  }

  /**
   * Over every interleaving: the calls have the outcomes, and the store the contents, of some
   * one-after-another run, in which each call that has taken effect stands exactly once, with the
   * outcome it returns; calls in flight on one key share one mutex; and when no call is in
   * flight the lock map is empty.
   */
  lemma CompareAndSetSafety(start: map<Key, Value>, actions: seq<Action>)
    requires Possible(Start(start), actions)
    ensures var s := Run(Start(start), actions);
            && Sequential(start, s.history) && Replay(start, s.history) == s.db
            && Answered(s)
            && (forall t, u :: t in s.threads && u in s.threads && !s.threads[t].stage.Started? && !s.threads[u].stage.Started?
                               && s.threads[t].call.key == s.threads[u].call.key ==>
                  s.threads[t].stage.mutex == s.threads[u].stage.mutex)
            && ((forall t :: t in s.threads ==> s.threads[t].stage.Started?) ==> s.locks == map[] && s.owners == map[])
  {
    RunKeeps(Start(start), actions, start);
    var s := Run(Start(start), actions);
    forall t, u | t in s.threads && u in s.threads && !s.threads[t].stage.Started? && !s.threads[u].stage.Started?
                  && s.threads[t].call.key == s.threads[u].call.key
      ensures s.threads[t].stage.mutex == s.threads[u].stage.mutex
    {
      MutexNamesKey(s, t, u);
    }
    if forall t :: t in s.threads ==> s.threads[t].stage.Started? {
      NothingInFlight(s);
    }
    hide Run, Possible, AllThreads, AllLocks, AllOwners, LocksDiffer, Sequential, Replay, Answered;
  }

  lemma NothingInFlight(s: Store)
    requires Valid(s) && forall t :: t in s.threads ==> s.threads[t].stage.Started?
    ensures s.locks == map[] && s.owners == map[]
  {
    assert s.locks.Keys == {} && s.owners.Keys == {};
  }

  // ---- Competing calls ---------------------------------------------------

  function Successes(history: seq<Outcome>, key: Key): nat
    decreases |history|
  {
    if history == [] then 0
    else Successes(history[..|history| - 1], key)
         + if history[|history| - 1].isSet && history[|history| - 1].call.key == key then 1 else 0
  }

  /** Calls on one key that expect the same value, and all replace it by another. */
  predicate Competing(history: seq<Outcome>, key: Key, expected: Option<Value>) {
    forall i :: 0 <= i < |history| && history[i].call.key == key ==>
      history[i].call.expected == expected && Some(history[i].call.replacement) != expected
  }

  /** Of competing calls at most one succeeds, and once one has, the value they expect is gone. */
  lemma {:induction false} AtMostOneSucceeds(start: map<Key, Value>, history: seq<Outcome>, key: Key, expected: Option<Value>)
    requires Sequential(start, history) && Competing(history, key, expected)
    ensures Successes(history, key) <= 1
    ensures Successes(history, key) == 1 ==> ValueOf(Replay(start, history), key) != expected
    ensures Successes(history, key) == 0 ==> ValueOf(Replay(start, history), key) == ValueOf(start, key)
    decreases |history|
  {
    if history != [] {
      var before := history[..|history| - 1];
      assert forall i :: 0 <= i < |before| ==> before[i] == history[i];
      AtMostOneSucceeds(start, before, key, expected);
    }
  }

  // ---- Progress ----------------------------------------------------------

  /** As long as a call is in flight, some call can take its next step. */
  lemma NeverStuck(s: Store, t: nat)
    requires Valid(s) && t in s.threads
    ensures exists a: Action :: !a.Begin? && Enabled(s, a)
  {
    var stage := s.threads[t].stage;
    if stage.Waiting? && stage.mutex in s.owners {
      var u := s.owners[stage.mutex];
      assert OwnerOf(s, stage.mutex, u);
      NextOf(s, u);
    } else {
      NextOf(s, t);
    }
  }

  lemma NextOf(s: Store, t: nat)
    requires t in s.threads && (s.threads[t].stage.Waiting? ==> s.threads[t].stage.mutex !in s.owners)
    ensures exists a: Action :: !a.Begin? && Enabled(s, a)
  {
    var next := match s.threads[t].stage
      case Started => Enter(t)
      case Waiting(_) => Acquire(t)
      case Holding(_) => Compare(t)
      case Compared(_, _) => Write(t)
      case Written(_, _) => Release(t)
      case Released(_, _) => Leave(t);
    assert !next.Begin? && Enabled(s, next);
  }

  /** How many steps a call at this stage still has to take. */
  function Remaining(stage: Stage): nat {
    match stage
    case Started => 6
    case Waiting(_) => 5
    case Holding(_) => 4
    case Compared(_, _) => 3
    case Written(_, _) => 2
    case Released(_, _) => 1
  }

  /** The steps all calls in flight still have to take. */
  ghost function Work(threads: map<nat, Thread>): nat
  {
    if threads == map[] then 0 else
    var t :| t in threads;
    Remaining(threads[t].stage) + Work(threads - {t})
  }

  lemma {:induction false} WorkWithout(threads: map<nat, Thread>, t: nat)
    requires t in threads
    ensures Work(threads) == Remaining(threads[t].stage) + Work(threads - {t})
    decreases |threads|
  {
    hide Remaining;
    var first :| first in threads && Work(threads) == Remaining(threads[first].stage) + Work(threads - {first});
    if first != t {
      WorkWithout(threads - {first}, t);
      WorkWithout(threads - {t}, first);
      assert threads - {first} - {t} == threads - {t} - {first};
    }
  }

  /** A new call brings six steps; every other step of any call leaves one less. */
  lemma StepUsesWork(s: Store, a: Action)
    requires Enabled(s, a)
    ensures Work(Do(s, a).threads) == if a.Begin? then Work(s.threads) + 6 else Work(s.threads) - 1
  {
    hide Work;
    var t, after := a.thread, Do(s, a).threads;
    if t in s.threads { WorkWithout(s.threads, t); }
    if t in after { WorkWithout(after, t); }
    assert after - {t} == s.threads - {t};
    assert t !in s.threads ==> s.threads - {t} == s.threads;
    assert t !in after ==> after - {t} == after;
  }

  function Begins(actions: seq<Action>): nat {
    if actions == [] then 0 else (if actions[0].Begin? then 1 else 0) + Begins(actions[1..])
  }

  /** Steps are conserved: a run takes seven for every call begun, less those still to take. */
  lemma {:induction false} StepsConserved(s: Store, actions: seq<Action>)
    requires Possible(s, actions)
    ensures Work(Run(s, actions).threads) + |actions| == Work(s.threads) + 7 * Begins(actions)
    decreases |actions|
  {
    if actions != [] {
      StepUsesWork(s, actions[0]);
      StepsConserved(Do(s, actions[0]), actions[1..]);
    }
    hide Work, Do, Enabled;
  }

  /** From every reachable store the calls in flight can all finish, with no new call. */
  lemma {:induction false} CallsCanFinish(s: Store) returns (actions: seq<Action>)
    requires Valid(s)
    ensures Possible(s, actions) && Begins(actions) == 0 && |actions| == Work(s.threads)
    ensures Run(s, actions).threads == map[]
    decreases Work(s.threads)
  {
    if s.threads == map[] {
      actions := [];
    } else {
      var t :| t in s.threads;
      NeverStuck(s, t);
      var a: Action :| !a.Begin? && Enabled(s, a);
      StepKeepsValid(s, a);
      StepUsesWork(s, a);
      var rest := CallsCanFinish(Do(s, a));
      actions := [a] + rest;
      assert actions[1..] == rest;
    }
    hide Valid, Do;
  }
}
