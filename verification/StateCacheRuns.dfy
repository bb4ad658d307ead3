/**
 * Whole runs of the state cache: states are opened on any block, read through, committed as best
 * or side blocks or dropped, and the head moves between branches.
 */
module StateCacheRuns {
  import opened Common
  import opened BlockTree
  import opened Lru
  import opened StateCache
  import opened StateCacheSteps

  // ---- Exactness of the scan ---------------------------------------------

  /**
   * What the scan looks for: a listed canonical block on our chain, with every block of our chain
   * above it listed too, and no earlier entry of the list touching the key.
   */
  ghost predicate ReachesCanon(w: World, mods: seq<BlockChanges>, k: Key, h: Hash, i: nat)
    requires WellFormed(w.tree) && h in w.tree
  {
    && i < |mods| && mods[i].canon
    && OnChain(w.tree, mods[i].hash, h)
    && (forall b :: OnChain(w.tree, b, h) && w.tree[b].number > mods[i].number ==> Listed(mods, b))
    && (forall j :: 0 <= j < i ==> k !in mods[j].changed)
  }

  lemma {:induction false} AllowedFinds(w: World, best: Hash, mods: seq<BlockChanges>, k: Key, top: Hash, h: Hash, j: nat) returns (i: nat)
    requires ValidWorld(w) && best in w.tree && ModsValid(w, best, mods) && j <= |mods|
    requires top in w.tree && OnChain(w.tree, h, top) && Allowed(k, h, mods[j..])
    requires forall b :: OnChain(w.tree, b, top) && w.tree[b].number > w.tree[h].number ==> Listed(mods, b)
    requires forall n :: 0 <= n < j ==> k !in mods[n].changed
    ensures ReachesCanon(w, mods, k, top, i)
    decreases |mods| - j
  {
    assert j < |mods|;
    var m := mods[j];
    if m.hash == h && m.canon {
      i := j;
    } else {
      assert mods[j..][1..] == mods[j + 1..];
      if m.hash == h {
        ParentOnChain(w.tree, h, top);
        forall b | OnChain(w.tree, b, top) && w.tree[b].number > w.tree[m.parent].number ensures Listed(mods, b) {
          if w.tree[b].number == w.tree[h].number { assert mods[j].hash == b; }
        }
        i := AllowedFinds(w, best, mods, k, top, m.parent, j + 1);
      } else {
        i := AllowedFinds(w, best, mods, k, top, h, j + 1);
      }
    }
  }

  ghost predicate ListedFrom(mods: seq<BlockChanges>, h: Hash, j: nat) {
    exists n :: j <= n < |mods| && mods[n].hash == h
  }

  lemma {:induction false} ReachedIsAllowed(w: World, best: Hash, mods: seq<BlockChanges>, k: Key, top: Hash, h: Hash, i: nat, j: nat)
    requires ValidWorld(w) && best in w.tree && ModsValid(w, best, mods) && top in w.tree
    requires ReachesCanon(w, mods, k, top, i) && j <= i
    requires OnChain(w.tree, h, top) && w.tree[h].number >= mods[i].number && ListedFrom(mods, h, j)
    ensures Allowed(k, h, mods[j..])
    decreases |mods| - j
  {
    hide Ancestor;
    var m := mods[j];
    assert mods[j..][1..] == mods[j + 1..];
    if m.hash == h {
      if !m.canon {
        NextBlock(w, best, mods, k, top, i, j);
        ReachedIsAllowed(w, best, mods, k, top, m.parent, i, j + 1);
      }
    } else {
      LaterBlock(w, best, mods, k, top, h, i, j);
      ReachedIsAllowed(w, best, mods, k, top, h, i, j + 1);
    }
  }

  /** The scan passes an entry of our own chain that is not canonical: our parent stands later. */
  lemma NextBlock(w: World, best: Hash, mods: seq<BlockChanges>, k: Key, top: Hash, i: nat, j: nat)
    requires ValidWorld(w) && best in w.tree && ModsValid(w, best, mods) && top in w.tree
    requires ReachesCanon(w, mods, k, top, i) && j <= i && !mods[j].canon
    requires OnChain(w.tree, mods[j].hash, top) && mods[j].number >= mods[i].number
    ensures OnChain(w.tree, mods[j].parent, top) && w.tree[mods[j].parent].number >= mods[i].number
    ensures j < i && ListedFrom(mods, mods[j].parent, j + 1)
  {
    var h := mods[j].hash;
    hide Ancestor, GapFree, FlagsCanon;
    OneBlockPerHeight(w.tree, top, h, mods[i].hash);
    ParentOnChain(w.tree, h, top);
    var p := Parent(w.tree, h);
    OneBlockPerHeight(w.tree, top, p, mods[i].hash);
    if w.tree[p].number > mods[i].number {
      assert Listed(mods, p);
      var n :| 0 <= n < |mods| && mods[n].hash == p;
      assert n > j;
    } else {
      assert p == mods[i].hash;
    }
  }

  /** An entry that is not ours comes strictly before the canonical one we look for. */
  lemma LaterBlock(w: World, best: Hash, mods: seq<BlockChanges>, k: Key, top: Hash, h: Hash, i: nat, j: nat)
    requires ValidWorld(w) && best in w.tree && ModsValid(w, best, mods) && top in w.tree
    requires ReachesCanon(w, mods, k, top, i) && j <= i && mods[j].hash != h
    requires OnChain(w.tree, h, top) && w.tree[h].number >= mods[i].number && ListedFrom(mods, h, j)
    ensures j < i && ListedFrom(mods, h, j + 1)
  {
    var n :| j <= n < |mods| && mods[n].hash == h;
    assert n > j;
    hide Ancestor, GapFree, FlagsCanon;
    OneBlockPerHeight(w.tree, top, h, mods[i].hash);
  }

  /** `is_allowed` answers yes exactly when the list proves the cached value right for that block. */
  lemma IsAllowedExact(w: World, best: Hash, mods: seq<BlockChanges>, k: Key, h: Hash)
    requires ValidWorld(w) && best in w.tree && ModsValid(w, best, mods) && h in w.tree
    ensures IsAllowed(k, Some(h), mods) <==> exists i :: ReachesCanon(w, mods, k, h, i)
  {
    hide Ancestor, GapFree, FlagsCanon, Descends;
    assert mods[0..] == mods;
    OnOwnChain(w.tree, h);
    if Allowed(k, h, mods) {
      var i := AllowedFinds(w, best, mods, k, h, h, 0);
    }
    if i :| ReachesCanon(w, mods, k, h, i) {
      OwnEntry(w, mods, k, h, i);
      ReachedIsAllowed(w, best, mods, k, h, h, i, 0);
    }
  }

  lemma OwnEntry(w: World, mods: seq<BlockChanges>, k: Key, h: Hash, i: nat)
    requires WellFormed(w.tree) && h in w.tree && Truthful(w, mods) && ReachesCanon(w, mods, k, h, i)
    ensures ListedFrom(mods, h, 0) && w.tree[h].number >= mods[i].number
  {
    if w.tree[h].number > mods[i].number {
      assert OnChain(w.tree, h, h);
      assert Listed(mods, h);
    } else {
      assert mods[i].hash == h;
    }
  }

  // ---- Reading through a state -------------------------------------------

  datatype Kind = StorageRead | HashRead | ChildRead

  /** A caching state: the block it was created on, its backing state and its local cache. */
  datatype Session = Session(parent: Option<Hash>, backing: State, local: Local)

  /** What the backing state itself answers. */
  function Answer(kind: Kind, state: State, k: Key, hasher: Bytes -> Bytes): Value {
    if kind == HashRead then Lookup(Hashed(hasher, state), k) else Lookup(state, k)
  }

  function LocalMap(local: Local, kind: Kind): map<Key, Value> {
    match kind
    case StorageRead => local.storage
    case HashRead => local.hashes
    case ChildRead => local.child
  }

  function SharedMap(maps: Maps, kind: Kind): seq<Entry> {
    match kind
    case StorageRead => maps.storage
    case HashRead => maps.hashes
    case ChildRead => maps.child
  }

  function Remember(local: Local, kind: Kind, k: Key, v: Value): Local {
    match kind
    case StorageRead => local.(storage := local.storage[k := v])
    case HashRead => local.(hashes := local.hashes[k := v])
    case ChildRead => local.(child := local.child[k := v])
  }

  function Touch(maps: Maps, kind: Kind, k: Key): Maps {
    match kind
    case StorageRead => maps.(storage := Refresh(maps.storage, k))
    case HashRead => maps.(hashes := Refresh(maps.hashes, k))
    case ChildRead => maps.(child := Refresh(maps.child, k))
  }

  /** Local cache first, then the shared cache if allowed, then the backing state. */
  function ReadThrough(c: Shared, s: Session, kind: Kind, k: Key, hasher: Bytes -> Bytes): (Shared, Session, Value) {
    if k in LocalMap(s.local, kind) then (c, s, LocalMap(s.local, kind)[k]) else
    var hit := if IsAllowed(k, s.parent, c.mods) then Find(SharedMap(c.maps, kind), k) else None;
    match hit
    case Some(v) => (c.(maps := Touch(c.maps, kind, k)), s, v)
    case None =>
      var v := Answer(kind, s.backing, k, hasher);
      (c, s.(local := Remember(s.local, kind, k, v)), v)
  }

  predicate KindFits(kind: Kind, k: Key) {
    (kind == ChildRead) == k.Child?
  }

  ghost predicate LocalAgrees(local: Local, backing: State, hasher: Bytes -> Bytes) {
    && (forall k :: k in local.storage ==> k.Top? && local.storage[k] == Answer(StorageRead, backing, k, hasher))
    && (forall k :: k in local.hashes ==> k.Top? && local.hashes[k] == Answer(HashRead, backing, k, hasher))
    && (forall k :: k in local.child ==> k.Child? && local.child[k] == Answer(ChildRead, backing, k, hasher))
  }

  ghost predicate SessionValid(w: World, s: Session, hasher: Bytes -> Bytes) {
    && LocalAgrees(s.local, s.backing, hasher)
    && (s.parent.Some? ==> s.parent.value in w.tree && s.parent.value in w.states && s.backing == w.states[s.parent.value])
  }

  /** A shared hit that `is_allowed` lets through is the backing state's own answer. */
  lemma SharedHitIsRight(w: World, best: Hash, c: Shared, limits: Limits, hasher: Bytes -> Bytes, s: Session, kind: Kind, k: Key)
    requires Valid(w, best, c, limits, hasher) && SessionValid(w, s, hasher)
    requires IsAllowed(k, s.parent, c.mods) && Find(SharedMap(c.maps, kind), k).Some?
    ensures Find(SharedMap(c.maps, kind), k).value == Answer(kind, s.backing, k, hasher)
  {
    IsAllowedSound(w, best, c, limits, hasher, k, s.parent.value);
    FindIsMember(SharedMap(c.maps, kind), k);
    HashedLookup(hasher, w.states[best], k);
    HashedLookup(hasher, s.backing, k);
    var v := Find(SharedMap(c.maps, kind), k).value;
    assert (k, v) in SharedMap(c.maps, kind);
  }

  lemma TouchKeepsValid(w: World, best: Hash, c: Shared, limits: Limits, hasher: Bytes -> Bytes, kind: Kind, k: Key)
    requires Valid(w, best, c, limits, hasher)
    ensures Valid(w, best, c.(maps := Touch(c.maps, kind, k)), limits, hasher)
  {
    RefreshMembers(SharedMap(c.maps, kind), k);
  }

  /** Reading is transparent, and keeps both the shared cache and the session right. */
  lemma ReadIsTransparent(w: World, best: Hash, c: Shared, limits: Limits, hasher: Bytes -> Bytes, s: Session, kind: Kind, k: Key)
    requires Valid(w, best, c, limits, hasher) && SessionValid(w, s, hasher) && KindFits(kind, k)
    ensures var (c', s', v) := ReadThrough(c, s, kind, k, hasher);
            && v == Answer(kind, s.backing, k, hasher)
            && Valid(w, best, c', limits, hasher)
            && SessionValid(w, s', hasher)
            && s'.parent == s.parent && s'.backing == s.backing
  {
    if k !in LocalMap(s.local, kind) && IsAllowed(k, s.parent, c.mods) && Find(SharedMap(c.maps, kind), k).Some? {
      SharedHitIsRight(w, best, c, limits, hasher, s, kind, k);
      TouchKeepsValid(w, best, c, limits, hasher, kind, k);
    }
  }

  // ---- Runs --------------------------------------------------------------

  datatype System = System(world: World, best: Hash, cache: Shared, sessions: map<nat, Session>)

  datatype Op =
    | Open(id: nat, parent: Hash)
    | OpenDetached(id: nat, backing: State)
    | Read(id: nat, kind: Kind, key: Key)
    | CommitAsBest(id: nat, drained: Maps, commit: Commit)
    | CommitAside(id: nat, drained: Maps, commit: Commit)
    | SetHead(target: Hash)
    | Drop(id: nat, drained: Maps)

  /** `list` is some enumeration of the map. */
  ghost predicate Enumerates(list: seq<Entry>, m: map<Key, Value>) {
    && DistinctKeys(list)
    && (forall e :: e in list ==> e.0 in m && m[e.0] == e.1)
    && (forall k :: k in m ==> (k, m[k]) in list)
  }

  ghost predicate Drains(drained: Maps, local: Local) {
    && Enumerates(drained.storage, local.storage)
    && Enumerates(drained.hashes, local.hashes)
    && Enumerates(drained.child, local.child)
  }

  ghost predicate Permitted(s: System, op: Op) {
    match op
    case Open(_, parent) => parent in s.world.tree
    case OpenDetached(_, _) => true
    case Read(id, kind, key) => id in s.sessions && KindFits(kind, key)
    case CommitAsBest(id, drained, commit) =>
      id in s.sessions && s.sessions[id].parent.Some? && Drains(drained, s.sessions[id].local)
      && ValidCommit(s.world, commit, s.sessions[id].parent.value)
    case CommitAside(id, drained, commit) =>
      id in s.sessions && s.sessions[id].parent.Some? && Drains(drained, s.sessions[id].local)
      && ValidCommit(s.world, commit, s.sessions[id].parent.value)
    case SetHead(target) => target in s.world.tree
    case Drop(id, drained) => id in s.sessions && Drains(drained, s.sessions[id].local)
  }

  const NO_READS := Local(map[], map[], map[])

  ghost function Apply(s: System, op: Op, limits: Limits, hasher: Bytes -> Bytes): System
    requires ValidWorld(s.world) && s.best in s.world.tree && Permitted(s, op)
  {
    var tree := s.world.tree;
    match op
    case Open(id, parent) => s.(sessions := s.sessions[id := Session(Some(parent), s.world.states[parent], NO_READS)])
    case OpenDetached(id, backing) => s.(sessions := s.sessions[id := Session(None, backing, NO_READS)])
    case Read(id, kind, key) =>
      var (c, session, _) := ReadThrough(s.cache, s.sessions[id], kind, key, hasher);
      s.(cache := c, sessions := s.sessions[id := session])
    case CommitAsBest(id, drained, commit) =>
      var parent := s.sessions[id].parent.value;
      System(Grown(s.world, commit, parent), commit.hash,
             SyncCache(s.cache, drained, Enacted(tree, s.best, parent), Retracted(tree, s.best, parent),
                       Some(commit), Some(parent), true, limits),
             s.sessions - {id})
    case CommitAside(id, drained, commit) =>
      var parent := s.sessions[id].parent.value;
      System(Grown(s.world, commit, parent), s.best,
             SyncCache(s.cache, drained, [], [], Some(commit), Some(parent), false, limits),
             s.sessions - {id})
    case SetHead(target) =>
      s.(best := target, cache := Sync(s.cache, Enacted(tree, s.best, target), Retracted(tree, s.best, target)))
    case Drop(id, drained) =>
      var cache := match s.sessions[id].parent
                   case Some(parent) => SyncCache(s.cache, drained, [], [], None, Some(parent), parent == s.best, limits)
                   case None => s.cache;
      s.(cache := cache, sessions := s.sessions - {id})
  }

  ghost predicate Healthy(s: System, limits: Limits, hasher: Bytes -> Bytes) {
    && Valid(s.world, s.best, s.cache, limits, hasher)
    && forall id :: id in s.sessions ==> SessionValid(s.world, s.sessions[id], hasher)
  }

  lemma DrainedLocalAgrees(drained: Maps, local: Local, backing: State, hasher: Bytes -> Bytes)
    requires Drains(drained, local) && LocalAgrees(local, backing, hasher)
    ensures DrainAgrees(drained, backing, hasher)
  {
    forall i | 0 <= i < |drained.storage| ensures drained.storage[i].0.Top? { assert drained.storage[i] in drained.storage; }
    forall i | 0 <= i < |drained.hashes| ensures drained.hashes[i].0.Top? { assert drained.hashes[i] in drained.hashes; }
    forall i | 0 <= i < |drained.child| ensures drained.child[i].0.Child? { assert drained.child[i] in drained.child; }
  }

  lemma SessionsInLargerWorld(w: World, larger: World, s: Session, hasher: Bytes -> Bytes)
    requires SessionValid(w, s, hasher) && Extends(w, larger)
    ensures SessionValid(larger, s, hasher)
  {
  }

  /** Every permitted operation keeps the system healthy. */
  lemma StepKeepsHealthy(s: System, op: Op, limits: Limits, hasher: Bytes -> Bytes)
    requires Healthy(s, limits, hasher) && Permitted(s, op)
    ensures Healthy(Apply(s, op, limits, hasher), limits, hasher)
  {
    match op {
      case Open(_, _) =>
      case OpenDetached(_, _) =>
      case Read(id, kind, key) =>
        ReadIsTransparent(s.world, s.best, s.cache, limits, hasher, s.sessions[id], kind, key);
      case CommitAsBest(id, drained, commit) => CommitStep(s, op, limits, hasher);
      case CommitAside(id, drained, commit) => CommitStep(s, op, limits, hasher);
      case SetHead(target) => SyncFollowsRoute(s.world, s.best, target, s.cache, limits, hasher);
      case Drop(id, drained) =>
        if s.sessions[id].parent.Some? {
          DrainedLocalAgrees(drained, s.sessions[id].local, s.sessions[id].backing, hasher);
          DropState(s.world, s.best, s.cache, drained, s.sessions[id].parent.value, limits, hasher);
        }
    }
  }

  lemma CommitStep(s: System, op: Op, limits: Limits, hasher: Bytes -> Bytes)
    requires Healthy(s, limits, hasher) && Permitted(s, op) && (op.CommitAsBest? || op.CommitAside?)
    ensures Healthy(Apply(s, op, limits, hasher), limits, hasher)
  {
    var session := s.sessions[op.id];
    var parent := session.parent.value;
    DrainedLocalAgrees(op.drained, session.local, session.backing, hasher);
    if op.CommitAsBest? {
      CommitBest(s.world, s.best, s.cache, op.drained, op.commit, parent, limits, hasher);
    } else {
      CommitSide(s.world, s.best, s.cache, op.drained, op.commit, parent, limits, hasher);
    }
    GrownValid(s.world, op.commit, parent);
    var w' := Grown(s.world, op.commit, parent);
    hide Valid, ValidCommit, SyncCache, SessionValid, Extends;
    forall id | id in s.sessions ensures SessionValid(w', s.sessions[id], hasher) {
      SessionsInLargerWorld(s.world, w', s.sessions[id], hasher);
    }
  }

  /** Every operation of the run is permitted when its turn comes. */
  ghost predicate AllPermitted(s: System, ops: seq<Op>, limits: Limits, hasher: Bytes -> Bytes)
    decreases |ops|
  {
    ops == [] ||
    (ValidWorld(s.world) && s.best in s.world.tree && Permitted(s, ops[0])
     && AllPermitted(Apply(s, ops[0], limits, hasher), ops[1..], limits, hasher))
  }

  ghost function Run(s: System, ops: seq<Op>, limits: Limits, hasher: Bytes -> Bytes): System
    requires AllPermitted(s, ops, limits, hasher)
    decreases |ops|
  {
    if ops == [] then s else Run(Apply(s, ops[0], limits, hasher), ops[1..], limits, hasher)
  }

  lemma {:induction false} RunKeepsHealthy(s: System, ops: seq<Op>, limits: Limits, hasher: Bytes -> Bytes)
    requires Healthy(s, limits, hasher) && AllPermitted(s, ops, limits, hasher)
    ensures Healthy(Run(s, ops, limits, hasher), limits, hasher)
    decreases |ops|
  {
    if ops != [] {
      StepKeepsHealthy(s, ops[0], limits, hasher);
      RunKeepsHealthy(Apply(s, ops[0], limits, hasher), ops[1..], limits, hasher);
    }
  }

  /** A fresh system: one block, an empty cache, no open states. */
  function Fresh(genesis: Hash, state: State): System {
    System(World(map[genesis := Header(genesis, 0)], map[genesis := state], map[genesis := {}]),
           genesis, Wiped(), map[])
  }

  lemma FreshIsHealthy(genesis: Hash, state: State, limits: Limits, hasher: Bytes -> Bytes)
    ensures Healthy(Fresh(genesis, state), limits, hasher)
  {
    var w := Fresh(genesis, state).world;
    assert forall h :: h in w.tree ==> Linked(w.tree, h);
    assert WellFormed(w.tree);
    assert forall h :: h in w.tree ==> Differs(w, h);
  }

  /**
   * Cache transparency. After any run of opens, reads, best and side commits, head changes and
   * drops from a fresh system, a read through any open state returns exactly what that state's
   * own backing state holds, and for a state opened on a block that is the block's state.
   */
  lemma CacheTransparency(genesis: Hash, state: State, ops: seq<Op>, id: nat, kind: Kind, k: Key, limits: Limits, hasher: Bytes -> Bytes)
    requires AllPermitted(Fresh(genesis, state), ops, limits, hasher)
    requires var s := Run(Fresh(genesis, state), ops, limits, hasher);
             id in s.sessions && KindFits(kind, k)
    ensures var s := Run(Fresh(genesis, state), ops, limits, hasher);
            var session := s.sessions[id];
            && ReadThrough(s.cache, session, kind, k, hasher).2 == Answer(kind, session.backing, k, hasher)
            && (session.parent.Some? ==>
                  session.parent.value in s.world.states && session.backing == s.world.states[session.parent.value])
  {
    FreshIsHealthy(genesis, state, limits, hasher);
    RunKeepsHealthy(Fresh(genesis, state), ops, limits, hasher);
    var s := Run(Fresh(genesis, state), ops, limits, hasher);
    ReadIsTransparent(s.world, s.best, s.cache, limits, hasher, s.sessions[id], kind, k);
  }

  /**
   * The list of modifications after any run: at most twelve entries, by descending number, flagged
   * canonical exactly when on the best chain, and without gaps below the best block.
   */
  lemma ModificationsAlwaysValid(genesis: Hash, state: State, ops: seq<Op>, limits: Limits, hasher: Bytes -> Bytes)
    requires AllPermitted(Fresh(genesis, state), ops, limits, hasher)
    ensures var s := Run(Fresh(genesis, state), ops, limits, hasher);
            && WellFormed(s.world.tree) && s.best in s.world.tree
            && |s.cache.mods| <= 12
            && Descends(s.cache.mods)
            && FlagsCanon(s.world, s.best, s.cache.mods)
            && GapFree(s.world, s.best, s.cache.mods)
            && MapsBounded(s.cache.maps, limits)
  {
    FreshIsHealthy(genesis, state, limits, hasher);
    RunKeepsHealthy(Fresh(genesis, state), ops, limits, hasher);
  }
}
