/**
 * The shared, fork-aware state cache as functions on values: three size-bounded maps and the list
 * of recent block modifications, kept in step with the best block.
 */
module StateCache {
  import opened Common
  import opened BlockTree
  import opened Lru

  const STATE_CACHE_BLOCKS := 12

  /** The keys a block changed, main-trie and child-trie keys together. */
  datatype BlockChanges = BlockChanges(number: nat, hash: Hash, parent: Hash, changed: set<Key>, canon: bool)

  /** The three maps: storage values, value hashes, child-trie values. */
  datatype Maps = Maps(storage: seq<Entry>, hashes: seq<Entry>, child: seq<Entry>)

  datatype Limits = Limits(storage: nat, hashes: nat, child: nat)

  datatype Shared = Shared(maps: Maps, mods: seq<BlockChanges>)

  /** Values one state has read from its backing state. */
  datatype Local = Local(storage: map<Key, Value>, hashes: map<Key, Value>, child: map<Key, Value>)

  datatype Commit = Commit(number: nat, hash: Hash, changes: seq<Entry>, childChanges: seq<Entry>)

  // ---- Synchronizing with a new best block -------------------------------

  function FindBlock(mods: seq<BlockChanges>, h: Hash): Option<nat> {
    if mods == [] then None
    else if mods[0].hash == h then Some(0)
    else match FindBlock(mods[1..], h)
         case Some(i) => Some(i + 1)
         case None => None
  }

  function Forget(maps: Maps, keys: set<Key>): Maps {
    Maps(RemoveAll(maps.storage, keys), RemoveAll(maps.hashes, keys), RemoveAll(maps.child, keys))
  }

  lemma {:induction false} FindBlockFinds(mods: seq<BlockChanges>, h: Hash)
    ensures match FindBlock(mods, h)
            case Some(i) => i < |mods| && mods[i].hash == h
            case None => forall i :: 0 <= i < |mods| ==> mods[i].hash != h
  {
    if mods != [] {
      FindBlockFinds(mods[1..], h);
    }
  }

  /** Enacts or retracts one block; `None` if nothing is known about it. */
  function SyncOne(c: Shared, h: Hash, canon: bool): Option<Shared> {
    FindBlockFinds(c.mods, h);
    match FindBlock(c.mods, h)
    case None => None
    case Some(i) =>
      Some(Shared(Forget(c.maps, c.mods[i].changed), c.mods[i := c.mods[i].(canon := canon)]))
  }

  /** The second component is the `clear` flag: once set, the remaining blocks are skipped. */
  function SyncBlocks(c: Shared, blocks: seq<Hash>, canon: bool, clear: bool): (Shared, bool)
    decreases |blocks|
  {
    if blocks == [] || clear then (c, clear) else
    match SyncOne(c, blocks[0], canon)
    case None => (c, true)
    case Some(next) => SyncBlocks(next, blocks[1..], canon, false)
  }

  function Wiped(): Shared {
    Shared(Maps([], [], []), [])
  }

  function Sync(c: Shared, enacted: seq<Hash>, retracted: seq<Hash>): Shared {
    var (c1, clear1) := SyncBlocks(c, enacted, true, false);
    var (c2, clear2) := SyncBlocks(c1, retracted, false, clear1);
    if clear2 then Wiped() else c2
  }

  // ---- Committing --------------------------------------------------------

  function Without(blocks: seq<Hash>, h: Hash): seq<Hash> {
    if blocks == [] then []
    else if blocks[0] == h then Without(blocks[1..], h)
    else [blocks[0]] + Without(blocks[1..], h)
  }

  /** A block committed again with the other canonicity is treated as enacted or retracted. */
  function Recommitted(c: Shared, h: Hash, isBest: bool): bool {
    FindBlockFinds(c.mods, h);
    match FindBlock(c.mods, h)
    case None => false
    case Some(i) => c.mods[i].canon != isBest
  }

  function SyncForCommit(c: Shared, enacted: seq<Hash>, retracted: seq<Hash>, commit: Option<Commit>, isBest: bool): Shared {
    match commit
    case None => Sync(c, enacted, retracted)
    case Some(block) =>
      var others := Without(enacted, block.hash);
      if !Recommitted(c, block.hash, isBest) then Sync(c, others, retracted)
      else if isBest then Sync(c, others + [block.hash], retracted)
      else Sync(c, others, retracted + [block.hash])
  }

  function Propagate(maps: Maps, drained: Maps, limits: Limits): Maps {
    Maps(AddAll(maps.storage, drained.storage, limits.storage),
         AddAll(maps.hashes, drained.hashes, limits.hashes),
         AddAll(maps.child, drained.child, limits.child))
  }

  function KeysOf(list: seq<Entry>): set<Key> {
    set e | e in list :: e.0
  }

  /** Main-trie changes drop the cached hash of the key and add its value. */
  function AddChanges(maps: Maps, changes: seq<Entry>, limits: Limits): Maps
    decreases |changes|
  {
    if changes == [] then maps else
    var (k, v) := changes[0];
    AddChanges(maps.(hashes := RemoveKey(maps.hashes, k), storage := AddEntry(maps.storage, k, v, limits.storage)),
               changes[1..], limits)
  }

  function InsertBlock(mods: seq<BlockChanges>, block: BlockChanges): seq<BlockChanges> {
    if mods == [] || mods[0].number < block.number then [block] + mods
    else [mods[0]] + InsertBlock(mods[1..], block)
  }

  function DropOldest(mods: seq<BlockChanges>): seq<BlockChanges> {
    if |mods| == STATE_CACHE_BLOCKS then mods[..|mods| - 1] else mods
  }

  function Record(c: Shared, commit: Commit, parent: Hash, isBest: bool, limits: Limits): Shared {
    var child := if isBest then AddAll(c.maps.child, commit.childChanges, limits.child) else c.maps.child;
    var maps := c.maps.(child := child);
    var block := BlockChanges(commit.number, commit.hash, parent,
                              KeysOf(commit.childChanges) + KeysOf(commit.changes), isBest);
    Shared(if isBest then AddChanges(maps, commit.changes, limits) else maps,
           InsertBlock(DropOldest(c.mods), block))
  }

  /**
   * `sync_cache`. `drained` lists the local cache in the order its hash maps are drained; `parent`
   * is the block the state was created on.
   */
  function SyncCache(c: Shared, drained: Maps, enacted: seq<Hash>, retracted: seq<Hash>, commit: Option<Commit>,
                     parent: Option<Hash>, isBest: bool, limits: Limits): Shared
  {
    var c1 := SyncForCommit(c, enacted, retracted, commit, isBest);
    var c2 := if parent.Some? && isBest then c1.(maps := Propagate(c1.maps, drained, limits)) else c1;
    if commit.Some? && parent.Some? then Record(c2, commit.value, parent.value, isBest, limits) else c2
  }

  // ---- Reading -----------------------------------------------------------

  /** The scan of `is_allowed`: follow our parents through the list until a canonical one is met. */
  function Allowed(k: Key, parent: Hash, mods: seq<BlockChanges>): bool
    decreases |mods|
  {
    if mods == [] then false else
    var m := mods[0];
    if m.hash == parent && m.canon then true
    else if k in m.changed then false
    else Allowed(k, if m.hash == parent then m.parent else parent, mods[1..])
  }

  function IsAllowed(k: Key, parent: Option<Hash>, mods: seq<BlockChanges>): bool {
    match parent
    case None => false
    case Some(h) => Allowed(k, h, mods)
  }

  // ---- The chain behind the cache ----------------------------------------

  type State = map<Key, Bytes>

  /** Known blocks, the state after each and the keys each block changed. */
  datatype World = World(tree: Tree, states: map<Hash, State>, changed: map<Hash, set<Key>>)

  function Lookup(state: State, k: Key): Value {
    if k in state then Some(state[k]) else None
  }

  /** A block's state differs from its parent's at most on the keys it changed. */
  ghost predicate Differs(w: World, h: Hash)
    requires WellFormed(w.tree) && w.states.Keys == w.tree.Keys == w.changed.Keys
  {
    h in w.tree && w.tree[h].number > 0 ==>
      forall k :: k !in w.changed[h] ==> Lookup(w.states[h], k) == Lookup(w.states[Parent(w.tree, h)], k)
  }

  ghost predicate ValidWorld(w: World) {
    && WellFormed(w.tree)
    && w.states.Keys == w.tree.Keys == w.changed.Keys
    && forall h {:trigger Differs(w, h)} :: h in w.tree ==> Differs(w, h)
  }

  /** A key no block changed between `a` and its descendant `h` has one value in both. */
  lemma {:induction false} SameAlongChain(w: World, a: Hash, h: Hash, k: Key)
    requires ValidWorld(w) && h in w.tree && OnChain(w.tree, a, h)
    requires forall b :: OnChain(w.tree, b, h) && w.tree[b].number > w.tree[a].number ==> k !in w.changed[b]
    ensures Lookup(w.states[a], k) == Lookup(w.states[h], k)
    decreases w.tree[h].number
  {
    if a != h {
      var p := Parent(w.tree, h);
      assert OnChain(w.tree, h, h);
      assert Differs(w, h);
      assert OnChain(w.tree, a, p);
      forall b | OnChain(w.tree, b, p) && w.tree[b].number > w.tree[a].number ensures k !in w.changed[b] {
        assert OnChain(w.tree, b, h);
      }
      SameAlongChain(w, a, p, k);
    }
  }

  // ---- The invariant -----------------------------------------------------

  ghost predicate Agrees(entries: seq<Entry>, state: State) {
    forall e :: e in entries ==> e.1 == Lookup(state, e.0)
  }

  /** The state whose values are the hashes of the values. */
  function Hashed(hasher: Bytes -> Bytes, state: State): State {
    map k | k in state :: hasher(state[k])
  }

  ghost predicate MapsBounded(maps: Maps, limits: Limits) {
    && Bounded(maps.storage, limits.storage)
    && Bounded(maps.hashes, limits.hashes)
    && Bounded(maps.child, limits.child)
  }

  /** The storage and hash maps hold main-trie keys, the child map holds child-trie keys. */
  ghost predicate KindsSeparate(maps: Maps) {
    && (forall e :: e in maps.storage ==> e.0.Top?)
    && (forall e :: e in maps.hashes ==> e.0.Top?)
    && (forall e :: e in maps.child ==> e.0.Child?)
  }

  ghost predicate MapsAgree(maps: Maps, state: State, hasher: Bytes -> Bytes) {
    && Agrees(maps.storage, state)
    && Agrees(maps.hashes, Hashed(hasher, state))
    && Agrees(maps.child, state)
  }

  ghost predicate Listed(mods: seq<BlockChanges>, h: Hash) {
    exists i :: 0 <= i < |mods| && mods[i].hash == h
  }

  /** Every entry describes a known block truthfully. */
  ghost predicate Truthful(w: World, mods: seq<BlockChanges>) {
    forall i :: 0 <= i < |mods| ==>
      && mods[i].hash in w.tree && mods[i].hash in w.changed
      && w.tree[mods[i].hash] == Header(mods[i].parent, mods[i].number)
      && mods[i].number > 0
      && mods[i].changed == w.changed[mods[i].hash]
  }

  ghost predicate Descends(mods: seq<BlockChanges>) {
    forall i, j :: 0 <= i < j < |mods| ==> mods[i].number >= mods[j].number && mods[i].hash != mods[j].hash
  }

  ghost predicate FlagsCanon(w: World, best: Hash, mods: seq<BlockChanges>)
    requires WellFormed(w.tree) && best in w.tree
  {
    forall i :: 0 <= i < |mods| ==> (mods[i].canon <==> OnChain(w.tree, mods[i].hash, best))
  }

  /** If a canonical block is listed, so is every canonical block above it. */
  ghost predicate GapFree(w: World, best: Hash, mods: seq<BlockChanges>)
    requires WellFormed(w.tree) && best in w.tree
  {
    forall i, b :: 0 <= i < |mods| && mods[i].canon && OnChain(w.tree, b, best) && w.tree[b].number > mods[i].number
                   ==> Listed(mods, b)
  }

  ghost predicate ModsValid(w: World, best: Hash, mods: seq<BlockChanges>)
    requires WellFormed(w.tree) && best in w.tree
  {
    && |mods| <= STATE_CACHE_BLOCKS
    && Truthful(w, mods)
    && Descends(mods)
    && FlagsCanon(w, best, mods)
    && GapFree(w, best, mods)
  }

  ghost predicate Valid(w: World, best: Hash, c: Shared, limits: Limits, hasher: Bytes -> Bytes) {
    && ValidWorld(w) && best in w.tree
    && MapsBounded(c.maps, limits)
    && KindsSeparate(c.maps)
    && MapsAgree(c.maps, w.states[best], hasher)
    && ModsValid(w, best, c.mods)
  }

  // ---- Soundness of the scan ---------------------------------------------

  /** If the scan from position `i` succeeds, the keys it passed are unchanged from `parent` to the best block. */
  lemma {:induction false} AllowedFrom(w: World, best: Hash, mods: seq<BlockChanges>, k: Key, parent: Hash, i: nat)
    requires ValidWorld(w) && best in w.tree && ModsValid(w, best, mods) && i <= |mods|
    requires parent in w.tree && Allowed(k, parent, mods[i..])
    requires forall j :: 0 <= j < i ==> k !in mods[j].changed
    ensures Lookup(w.states[parent], k) == Lookup(w.states[best], k)
    decreases |mods| - i
  {
    if i < |mods| {
      var m := mods[i];
      if m.hash == parent && m.canon {
        CanonicalAgrees(w, best, mods, k, i);
      } else {
        assert mods[i..][1..] == mods[i + 1..];
        if m.hash == parent {
          assert Differs(w, parent);
          AllowedFrom(w, best, mods, k, m.parent, i + 1);
        } else {
          AllowedFrom(w, best, mods, k, parent, i + 1);
        }
      }
    }
  }

  lemma CanonicalAgrees(w: World, best: Hash, mods: seq<BlockChanges>, k: Key, i: nat)
    requires ValidWorld(w) && best in w.tree && ModsValid(w, best, mods) && i < |mods| && mods[i].canon
    requires forall j :: 0 <= j < i ==> k !in mods[j].changed
    ensures Lookup(w.states[mods[i].hash], k) == Lookup(w.states[best], k)
  {
    forall b | OnChain(w.tree, b, best) && w.tree[b].number > mods[i].number ensures k !in w.changed[b] {
      assert Listed(mods, b);
      var j :| 0 <= j < |mods| && mods[j].hash == b;
      assert j < i;
    }
    SameAlongChain(w, mods[i].hash, best, k);
  }

  /** `is_allowed` is sound: when it lets a key through, the cached value is right for that block. */
  lemma IsAllowedSound(w: World, best: Hash, c: Shared, limits: Limits, hasher: Bytes -> Bytes, k: Key, parent: Hash)
    requires Valid(w, best, c, limits, hasher) && parent in w.tree
    requires IsAllowed(k, Some(parent), c.mods)
    ensures Lookup(w.states[parent], k) == Lookup(w.states[best], k)
  {
    assert c.mods[0..] == c.mods;
    AllowedFrom(w, best, c.mods, k, parent, 0);
  }
}
