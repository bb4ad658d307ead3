/** Every operation on the shared cache keeps it in agreement with the best block. */
module StateCacheSteps {
  import opened Common
  import opened BlockTree
  import opened Lru
  import opened StateCache

  // ---- Adding to one map -------------------------------------------------

  /** Adding a key's own value keeps a map truthful about the state. */
  lemma AddKeepsAgrees(entries: seq<Entry>, k: Key, v: Value, limit: nat, before: State, after: State)
    requires Bounded(entries, limit) && Agrees(entries, before)
    requires v == Lookup(after, k) && forall q :: q != k ==> Lookup(after, q) == Lookup(before, q)
    ensures Bounded(AddEntry(entries, k, v, limit), limit) && Agrees(AddEntry(entries, k, v, limit), after)
  {
    PutMembers(entries, k, v);
    EvictMembers(Put(entries, k, v), limit);
  }

  lemma {:induction false} AddAllKeepsAgrees(entries: seq<Entry>, list: seq<Entry>, limit: nat, state: State)
    requires Bounded(entries, limit) && Agrees(entries, state) && Agrees(list, state)
    ensures Bounded(AddAll(entries, list, limit), limit) && Agrees(AddAll(entries, list, limit), state)
    decreases |list|
  {
    if list != [] {
      assert list[0] in list;
      AddKeepsAgrees(entries, list[0].0, list[0].1, limit, state, state);
      AddAllKeepsAgrees(AddEntry(entries, list[0].0, list[0].1, limit), list[1..], limit, state);
    }
  }

  // ---- Applying a block's changes ----------------------------------------

  function Update(state: State, k: Key, v: Value): State {
    match v
    case Some(bytes) => state[k := bytes]
    case None => state - {k}
  }

  /** The state after a list of changes, the last change to a key winning. */
  function ApplyAll(state: State, list: seq<Entry>): State
    decreases |list|
  {
    if list == [] then state else ApplyAll(Update(state, list[0].0, list[0].1), list[1..])
  }

  /** The state a commit produces: child-trie changes and main-trie changes touch different keys. */
  function ApplyCommit(state: State, commit: Commit): State {
    ApplyAll(ApplyAll(state, commit.childChanges), commit.changes)
  }

  lemma {:induction false} ApplyAllElsewhere(state: State, list: seq<Entry>, k: Key)
    requires k !in KeysOf(list)
    ensures Lookup(ApplyAll(state, list), k) == Lookup(state, k)
    decreases |list|
  {
    if list != [] {
      assert list[0] in list && list[0].0 in KeysOf(list);
      assert forall e :: e in list[1..] ==> e in list;
      ApplyAllElsewhere(Update(state, list[0].0, list[0].1), list[1..], k);
    }
  }

  predicate AllTop(list: seq<Entry>) {
    forall i :: 0 <= i < |list| ==> list[i].0.Top?
  }

  predicate AllChild(list: seq<Entry>) {
    forall i :: 0 <= i < |list| ==> list[i].0.Child?
  }

  /** Changes to main-trie keys, applied one by one to the maps and to the state alike. */
  lemma {:induction false} AddChangesKeepsAgrees(maps: Maps, changes: seq<Entry>, limits: Limits, state: State, hasher: Bytes -> Bytes)
    requires MapsBounded(maps, limits) && MapsAgree(maps, state, hasher) && KindsSeparate(maps) && AllTop(changes)
    ensures MapsBounded(AddChanges(maps, changes, limits), limits)
    ensures MapsAgree(AddChanges(maps, changes, limits), ApplyAll(state, changes), hasher)
    ensures KindsSeparate(AddChanges(maps, changes, limits))
    decreases |changes|
  {
    if changes != [] {
      var (k, v) := changes[0];
      assert k.Top?;
      var state' := Update(state, k, v);
      var maps' := maps.(hashes := RemoveKey(maps.hashes, k), storage := AddEntry(maps.storage, k, v, limits.storage));
      AddKeepsAgrees(maps.storage, k, v, limits.storage, state, state');
      PutMembers(maps.storage, k, v);
      EvictMembers(Put(maps.storage, k, v), limits.storage);
      RemoveKeyMembers(maps.hashes, k);
      TotalRemove(maps.hashes, k);
      assert Agrees(maps'.hashes, Hashed(hasher, state'));
      assert Agrees(maps'.child, state');
      AddChangesKeepsAgrees(maps', changes[1..], limits, state', hasher);
    }
  }

  lemma {:induction false} AddChildKeepsAgrees(entries: seq<Entry>, list: seq<Entry>, limit: nat, state: State)
    requires Bounded(entries, limit) && Agrees(entries, state)
    ensures Bounded(AddAll(entries, list, limit), limit)
    ensures Agrees(AddAll(entries, list, limit), ApplyAll(state, list))
    decreases |list|
  {
    if list != [] {
      var (k, v) := list[0];
      var state' := Update(state, k, v);
      AddKeepsAgrees(entries, k, v, limit, state, state');
      AddChildKeepsAgrees(AddEntry(entries, k, v, limit), list[1..], limit, state');
    }
  }

  lemma {:induction false} AddAllKinds(entries: seq<Entry>, list: seq<Entry>, limit: nat, top: bool)
    requires DistinctKeys(entries)
    requires forall e :: e in entries ==> e.0.Top? == top
    requires forall i :: 0 <= i < |list| ==> list[i].0.Top? == top
    ensures forall e :: e in AddAll(entries, list, limit) ==> e.0.Top? == top
    decreases |list|
  {
    if list != [] {
      PutMembers(entries, list[0].0, list[0].1);
      EvictMembers(Put(entries, list[0].0, list[0].1), limit);
      AddAllKinds(AddEntry(entries, list[0].0, list[0].1, limit), list[1..], limit, top);
    }
  }

  lemma UnchangedKinds(entries: seq<Entry>, list: seq<Entry>, state: State, top: bool)
    requires Agrees(entries, state)
    requires forall e :: e in entries ==> e.0.Top? == top
    requires forall i :: 0 <= i < |list| ==> list[i].0.Top? != top
    ensures Agrees(entries, ApplyAll(state, list))
  {
    forall e | e in entries ensures e.1 == Lookup(ApplyAll(state, list), e.0) {
      assert e.0 !in KeysOf(list);
      ApplyAllElsewhere(state, list, e.0);
    }
  }

  lemma HashedLookup(hasher: Bytes -> Bytes, state: State, k: Key)
    ensures Lookup(Hashed(hasher, state), k) == match Lookup(state, k) { case Some(x) => Some(hasher(x)) case None => None }
  {
  }

  /** After a commit on top of the best state, the maps agree with the committed state. */
  lemma CommitKeepsAgrees(maps: Maps, commit: Commit, limits: Limits, state: State, hasher: Bytes -> Bytes)
    requires MapsBounded(maps, limits) && MapsAgree(maps, state, hasher) && KindsSeparate(maps)
    requires AllTop(commit.changes) && AllChild(commit.childChanges)
    ensures var after := AddChanges(maps.(child := AddAll(maps.child, commit.childChanges, limits.child)), commit.changes, limits);
            MapsBounded(after, limits) && MapsAgree(after, ApplyCommit(state, commit), hasher) && KindsSeparate(after)
  {
    var mid := ApplyAll(state, commit.childChanges);
    var maps' := maps.(child := AddAll(maps.child, commit.childChanges, limits.child));
    AddChildKeepsAgrees(maps.child, commit.childChanges, limits.child, state);
    AddAllKinds(maps.child, commit.childChanges, limits.child, false);
    UnchangedKinds(maps.storage, commit.childChanges, state, true);
    forall e | e in maps.hashes ensures e.1 == Lookup(Hashed(hasher, mid), e.0) {
      assert e.0 !in KeysOf(commit.childChanges);
      ApplyAllElsewhere(state, commit.childChanges, e.0);
      HashedLookup(hasher, state, e.0);
      HashedLookup(hasher, mid, e.0);
    }
    AddChangesKeepsAgrees(maps', commit.changes, limits, mid, hasher);
  }

  // ---- The list of modifications -----------------------------------------

  lemma {:induction false} InsertBlockShape(mods: seq<BlockChanges>, block: BlockChanges) returns (at: nat)
    requires forall i, j :: 0 <= i < j < |mods| ==> mods[i].number >= mods[j].number
    ensures at <= |mods|
    ensures InsertBlock(mods, block) == mods[..at] + [block] + mods[at..]
    ensures forall i :: 0 <= i < at ==> mods[i].number >= block.number
    ensures forall i :: at <= i < |mods| ==> mods[i].number < block.number
  {
    if mods == [] || mods[0].number < block.number {
      at := 0;
    } else {
      at := InsertBlockShape(mods[1..], block);
      at := at + 1;
      assert mods[..at] == [mods[0]] + mods[1..][..at - 1];
    }
  }

  lemma InsertedOrder(mods: seq<BlockChanges>, block: BlockChanges, at: nat)
    requires Descends(mods) && !Listed(mods, block.hash) && at <= |mods|
    requires forall i :: 0 <= i < at ==> mods[i].number >= block.number
    requires forall i :: at <= i < |mods| ==> mods[i].number < block.number
    ensures Descends(mods[..at] + [block] + mods[at..])
  {
    var after := mods[..at] + [block] + mods[at..];
    forall i | 0 <= i < |mods| ensures mods[i].hash != block.hash {}
    forall i, j | 0 <= i < j < |after| ensures after[i].number >= after[j].number && after[i].hash != after[j].hash {
      var i', j' := if i <= at then i else i - 1, if j <= at then j else j - 1;
      assert i != at ==> after[i] == mods[i'];
      assert j != at ==> after[j] == mods[j'];
    }
  }

  lemma InsertedMembers(mods: seq<BlockChanges>, block: BlockChanges, at: nat)
    requires at <= |mods|
    ensures forall m :: m in mods[..at] + [block] + mods[at..] <==> m == block || m in mods
  {
    assert mods == mods[..at] + mods[at..];
  }

  /** Inserting a new, truthful entry for a block not listed yet. */
  lemma InsertKeepsOrder(w: World, mods: seq<BlockChanges>, block: BlockChanges)
    requires Truthful(w, mods) && Descends(mods) && Truthful(w, [block]) && !Listed(mods, block.hash)
    ensures Truthful(w, InsertBlock(mods, block)) && Descends(InsertBlock(mods, block))
    ensures |InsertBlock(mods, block)| == |mods| + 1
    ensures forall m :: m in InsertBlock(mods, block) <==> m == block || m in mods
  {
    var at := InsertBlockShape(mods, block);
    InsertedOrder(mods, block, at);
    InsertedMembers(mods, block, at);
    hide Descends, Listed;
    assert [block][0] == block;
  }

  /** Dropping the last entry keeps the list gap-free: it has the lowest number. */
  lemma DropKeepsValid(w: World, best: Hash, mods: seq<BlockChanges>)
    requires WellFormed(w.tree) && best in w.tree && ModsValid(w, best, mods)
    ensures ModsValid(w, best, DropOldest(mods)) && |DropOldest(mods)| < STATE_CACHE_BLOCKS
    ensures forall m :: m in DropOldest(mods) ==> m in mods
  {
    var rest := DropOldest(mods);
    forall i, b | 0 <= i < |rest| && rest[i].canon && OnChain(w.tree, b, best) && w.tree[b].number > rest[i].number
      ensures Listed(rest, b)
    {
      assert rest[i] == mods[i];
      assert Listed(mods, b);
      var j :| 0 <= j < |mods| && mods[j].hash == b;
      assert rest[j].hash == b;
    }
  }

  ghost predicate Extends(w: World, larger: World) {
    && (forall h :: h in w.tree ==> h in larger.tree && larger.tree[h] == w.tree[h])
    && (forall h :: h in w.states ==> h in larger.states && larger.states[h] == w.states[h])
    && (forall h :: h in w.changed ==> h in larger.changed && larger.changed[h] == w.changed[h])
  }

  /** The world with one more block on top of `parent`. */
  function Grown(w: World, commit: Commit, parent: Hash): World
    requires parent in w.states && parent in w.tree
  {
    World(w.tree[commit.hash := Header(parent, w.tree[parent].number + 1)],
          w.states[commit.hash := ApplyCommit(w.states[parent], commit)],
          w.changed[commit.hash := KeysOf(commit.childChanges) + KeysOf(commit.changes)])
  }

  lemma GrownValid(w: World, commit: Commit, parent: Hash)
    requires ValidWorld(w) && parent in w.tree && commit.hash !in w.tree
    ensures ValidWorld(Grown(w, commit, parent)) && Extends(w, Grown(w, commit, parent))
  {
    var w' := Grown(w, commit, parent);
    ExtendedTree(w.tree, commit.hash, parent);
    forall h | h in w'.tree ensures Differs(w', h) {
      if h == commit.hash {
        forall k | k !in w'.changed[h] ensures Lookup(w'.states[h], k) == Lookup(w'.states[Parent(w'.tree, h)], k) {
          ApplyAllElsewhere(w.states[parent], commit.childChanges, k);
          ApplyAllElsewhere(ApplyAll(w.states[parent], commit.childChanges), commit.changes, k);
        }
      } else {
        assert Differs(w, h);
        if w.tree[h].number > 0 { assert Parent(w'.tree, h) == Parent(w.tree, h); }
      }
    }
  }

  lemma GrownChains(w: World, larger: World, h: Hash, a: Hash)
    requires WellFormed(w.tree) && WellFormed(larger.tree) && Extends(w, larger) && h in w.tree
    ensures a in w.tree ==> (OnChain(larger.tree, a, h) <==> OnChain(w.tree, a, h))
    ensures a !in w.tree ==> !OnChain(larger.tree, a, h)
  {
    if a in larger.tree && larger.tree[a].number <= w.tree[h].number {
      AncestorInLargerTree(w.tree, larger.tree, h, larger.tree[a].number);
    }
  }

  /** The new block is on the chain of a block exactly if that block is itself or above. */
  lemma ChainOfNewBlock(tree: Tree, h: Hash, a: Hash)
    requires WellFormed(tree) && h in tree && tree[h].number > 0
    ensures OnChain(tree, a, h) <==> a == h || OnChain(tree, a, Parent(tree, h))
  {
  }

  lemma ModsInLargerWorld(w: World, larger: World, best: Hash, mods: seq<BlockChanges>)
    requires WellFormed(w.tree) && WellFormed(larger.tree) && Extends(w, larger) && best in w.tree
    requires ModsValid(w, best, mods)
    ensures ModsValid(larger, best, mods)
  {
    forall a ensures OnChain(larger.tree, a, best) <==> a in w.tree && OnChain(w.tree, a, best) {
      GrownChains(w, larger, best, a);
    }
    forall i, b | 0 <= i < |mods| && mods[i].canon && OnChain(larger.tree, b, best) && larger.tree[b].number > mods[i].number
      ensures Listed(mods, b)
    {
      assert OnChain(w.tree, b, best);
    }
  }

  function NewEntry(w: World, commit: Commit, parent: Hash, canon: bool): BlockChanges
    requires parent in w.tree
  {
    BlockChanges(w.tree[parent].number + 1, commit.hash, parent, KeysOf(commit.childChanges) + KeysOf(commit.changes), canon)
  }

  /** Recording a non-best block. */
  lemma RecordSideBlock(w: World, best: Hash, mods: seq<BlockChanges>, commit: Commit, parent: Hash)
    requires ValidWorld(w) && best in w.tree && ModsValid(w, best, mods)
    requires parent in w.tree && commit.hash !in w.tree
    ensures WellFormed(Grown(w, commit, parent).tree)
    ensures ModsValid(Grown(w, commit, parent), best, InsertBlock(DropOldest(mods), NewEntry(w, commit, parent, false)))
  {
    var w' := Grown(w, commit, parent);
    GrownValid(w, commit, parent);
    DropKeepsValid(w, best, mods);
    var rest := DropOldest(mods);
    ModsInLargerWorld(w, w', best, rest);
    var block := NewEntry(w, commit, parent, false);
    assert !Listed(rest, block.hash) by {
      assert Truthful(w, rest);
    }
    assert Truthful(w', [block]);
    InsertKeepsOrder(w', rest, block);
    GrownChains(w, w', best, commit.hash);
    InsertKeepsCanon(w', best, rest, block);
  }

  lemma InsertKeepsCanon(w: World, best: Hash, rest: seq<BlockChanges>, block: BlockChanges)
    requires WellFormed(w.tree) && best in w.tree
    requires FlagsCanon(w, best, rest) && (block.canon <==> OnChain(w.tree, block.hash, best))
    requires GapFree(w, best, rest)
    requires block.canon ==> forall b :: OnChain(w.tree, b, best) ==> w.tree[b].number <= block.number
    requires forall m :: m in InsertBlock(rest, block) <==> m == block || m in rest
    ensures FlagsCanon(w, best, InsertBlock(rest, block)) && GapFree(w, best, InsertBlock(rest, block))
  {
    var after := InsertBlock(rest, block);
    forall i | 0 <= i < |after| ensures after[i].canon <==> OnChain(w.tree, after[i].hash, best) {
      assert after[i] in after;
      if after[i] != block { var j :| 0 <= j < |rest| && rest[j] == after[i]; }
    }
    forall i, b | 0 <= i < |after| && after[i].canon && OnChain(w.tree, b, best) && w.tree[b].number > after[i].number
      ensures Listed(after, b)
    {
      assert after[i] in after;
      var j :| 0 <= j < |rest| && rest[j] == after[i];
      assert Listed(rest, b);
      var l :| 0 <= l < |rest| && rest[l].hash == b;
      assert rest[l] in after;
      var n :| 0 <= n < |after| && after[n] == rest[l];
    }
  }

  /** Recording a new best block on top of the current best block. */
  lemma RecordBestBlock(w: World, best: Hash, mods: seq<BlockChanges>, commit: Commit)
    requires ValidWorld(w) && best in w.tree && ModsValid(w, best, mods)
    requires commit.hash !in w.tree
    ensures WellFormed(Grown(w, commit, best).tree)
    ensures ModsValid(Grown(w, commit, best), commit.hash, InsertBlock(DropOldest(mods), NewEntry(w, commit, best, true)))
  {
    var w' := Grown(w, commit, best);
    GrownValid(w, commit, best);
    DropKeepsValid(w, best, mods);
    var rest := DropOldest(mods);
    ModsInLargerWorld(w, w', best, rest);
    var block := NewEntry(w, commit, best, true);
    assert !Listed(rest, block.hash) by {
      assert Truthful(w, rest);
    }
    assert Truthful(w', [block]);
    InsertKeepsOrder(w', rest, block);
    BestBlockChain(w', best, commit.hash, rest, block);
  }

  lemma BestBlockChain(w: World, parent: Hash, best: Hash, rest: seq<BlockChanges>, block: BlockChanges)
    requires WellFormed(w.tree) && best in w.tree && w.tree[best].number > 0 && parent == Parent(w.tree, best)
    requires ModsValid(w, parent, rest) && block.hash == best && block.canon && block.number == w.tree[best].number
    requires !Listed(rest, best)
    requires forall m :: m in InsertBlock(rest, block) <==> m == block || m in rest
    ensures FlagsCanon(w, best, InsertBlock(rest, block)) && GapFree(w, best, InsertBlock(rest, block))
  {
    var after := InsertBlock(rest, block);
    forall a ensures OnChain(w.tree, a, best) <==> a == best || OnChain(w.tree, a, parent) {
      ChainOfNewBlock(w.tree, best, a);
    }
    forall i | 0 <= i < |after| ensures after[i].canon <==> OnChain(w.tree, after[i].hash, best) {
      assert after[i] in after;
      if after[i] != block { var j :| 0 <= j < |rest| && rest[j] == after[i]; }
    }
    forall i, b | 0 <= i < |after| && after[i].canon && OnChain(w.tree, b, best) && w.tree[b].number > after[i].number
      ensures Listed(after, b)
    {
      assert after[i] in after;
      if b == best {
        assert block in after;
        var n :| 0 <= n < |after| && after[n] == block;
      } else {
        var j :| 0 <= j < |rest| && rest[j] == after[i];
        assert Listed(rest, b);
        var l :| 0 <= l < |rest| && rest[l].hash == b;
        assert rest[l] in after;
        var n :| 0 <= n < |after| && after[n] == rest[l];
      }
    }
  }

  // ---- Reorganizations ---------------------------------------------------

  /** What is left of a map once the changes of `blocks` are purged. */
  ghost predicate Purged(w: World, before: seq<Entry>, after: seq<Entry>, blocks: seq<Hash>) {
    && DistinctKeys(after) && Total(after) <= Total(before)
    && forall e :: e in after ==> e in before && forall b :: b in blocks && b in w.changed ==> e.0 !in w.changed[b]
  }

  ghost predicate MapsPurged(w: World, before: Maps, after: Maps, blocks: seq<Hash>) {
    && Purged(w, before.storage, after.storage, blocks)
    && Purged(w, before.hashes, after.hashes, blocks)
    && Purged(w, before.child, after.child, blocks)
  }

  /** The list with the flag of `blocks` set to `canon`. */
  ghost predicate Flagged(before: seq<BlockChanges>, after: seq<BlockChanges>, blocks: seq<Hash>, canon: bool) {
    && |after| == |before|
    && forall i :: 0 <= i < |before| ==>
         after[i] == before[i].(canon := if before[i].hash in blocks then canon else before[i].canon)
  }

  lemma PurgeOne(w: World, entries: seq<Entry>, h: Hash)
    requires h in w.changed && DistinctKeys(entries)
    ensures Purged(w, entries, RemoveAll(entries, w.changed[h]), [h])
  {
    RemoveAllMembers(entries, w.changed[h]);
  }

  lemma PurgeMore(w: World, before: seq<Entry>, mid: seq<Entry>, after: seq<Entry>, h: Hash, rest: seq<Hash>)
    requires Purged(w, before, mid, [h]) && Purged(w, mid, after, rest)
    ensures Purged(w, before, after, [h] + rest)
  {
    forall e | e in after
      ensures e in before && forall b :: b in [h] + rest && b in w.changed ==> e.0 !in w.changed[b]
    {
      assert h in [h];
    }
  }

  lemma PurgeThen(w: World, before: seq<Entry>, mid: seq<Entry>, after: seq<Entry>, first: seq<Hash>, second: seq<Hash>)
    requires Purged(w, before, mid, first) && Purged(w, mid, after, second)
    ensures Purged(w, before, after, first) && Purged(w, before, after, second)
  {
  }

  lemma {:induction false} SyncBlocksPurges(w: World, c: Shared, blocks: seq<Hash>, canon: bool)
    requires Truthful(w, c.mods) && Descends(c.mods)
    requires DistinctKeys(c.maps.storage) && DistinctKeys(c.maps.hashes) && DistinctKeys(c.maps.child)
    ensures var (after, clear) := SyncBlocks(c, blocks, canon, false);
            !clear ==>
              && MapsPurged(w, c.maps, after.maps, blocks)
              && Flagged(c.mods, after.mods, blocks, canon)
              && (forall b :: b in blocks ==> Listed(c.mods, b))
    decreases |blocks|
  {
    if blocks != [] {
      var h := blocks[0];
      FindBlockFinds(c.mods, h);
      match SyncOne(c, h, canon) {
        case None =>
        case Some(next) =>
          var i := FindBlock(c.mods, h).value;
          assert c.mods[i].changed == w.changed[h];
          PurgeOne(w, c.maps.storage, h);
          PurgeOne(w, c.maps.hashes, h);
          PurgeOne(w, c.maps.child, h);
          SyncBlocksPurges(w, next, blocks[1..], canon);
          var (after, clear) := SyncBlocks(next, blocks[1..], canon, false);
          if !clear {
            CombinePurges(w, c, next, after, h, i, blocks, canon);
          }
      }
    }
  }

  lemma CombinePurges(w: World, c: Shared, next: Shared, after: Shared, h: Hash, i: nat, blocks: seq<Hash>, canon: bool)
    requires blocks != [] && blocks[0] == h && Descends(c.mods) && i < |c.mods| && c.mods[i].hash == h
    requires next.mods == c.mods[i := c.mods[i].(canon := canon)]
    requires MapsPurged(w, c.maps, next.maps, [h]) && MapsPurged(w, next.maps, after.maps, blocks[1..])
    requires Flagged(next.mods, after.mods, blocks[1..], canon)
    requires forall b :: b in blocks[1..] ==> Listed(next.mods, b)
    ensures MapsPurged(w, c.maps, after.maps, blocks) && Flagged(c.mods, after.mods, blocks, canon)
    ensures forall b :: b in blocks ==> Listed(c.mods, b)
  {
    assert blocks == [h] + blocks[1..];
    PurgeMore(w, c.maps.storage, next.maps.storage, after.maps.storage, h, blocks[1..]);
    PurgeMore(w, c.maps.hashes, next.maps.hashes, after.maps.hashes, h, blocks[1..]);
    PurgeMore(w, c.maps.child, next.maps.child, after.maps.child, h, blocks[1..]);
    FlagOneMore(c.mods, next.mods, after.mods, h, i, blocks[1..], canon);
    hide Purged, Flagged, Descends;
    forall b | b in blocks ensures Listed(c.mods, b) {
      if b == h {
        assert c.mods[i].hash == h;
      } else {
        assert Listed(next.mods, b);
        var j :| 0 <= j < |next.mods| && next.mods[j].hash == b;
        assert c.mods[j].hash == b;
      }
    }
  }

  lemma FlagOneMore(before: seq<BlockChanges>, mid: seq<BlockChanges>, after: seq<BlockChanges>,
                    h: Hash, i: nat, rest: seq<Hash>, canon: bool)
    requires Descends(before) && i < |before| && before[i].hash == h
    requires mid == before[i := before[i].(canon := canon)]
    requires Flagged(mid, after, rest, canon)
    ensures Flagged(before, after, [h] + rest, canon)
  {
    forall j | 0 <= j < |before|
      ensures after[j] == before[j].(canon := if before[j].hash in [h] + rest then canon else before[j].canon)
    {
      if j != i { assert before[j].hash != h; }
    }
  }

  /** Both passes of `sync` over a route, when every block was found. */
  ghost predicate RouteSynced(w: World, c: Shared, after: Shared, enacted: seq<Hash>, retracted: seq<Hash>) {
    && MapsPurged(w, c.maps, after.maps, enacted)
    && MapsPurged(w, c.maps, after.maps, retracted)
    && |after.mods| == |c.mods|
    && (forall i :: 0 <= i < |c.mods| ==>
          after.mods[i] == c.mods[i].(canon := if c.mods[i].hash in retracted then false
                                               else if c.mods[i].hash in enacted then true
                                               else c.mods[i].canon))
    && (forall b :: b in enacted ==> Listed(c.mods, b))
  }

  lemma SyncPurges(w: World, c: Shared, enacted: seq<Hash>, retracted: seq<Hash>)
    requires Truthful(w, c.mods) && Descends(c.mods)
    requires DistinctKeys(c.maps.storage) && DistinctKeys(c.maps.hashes) && DistinctKeys(c.maps.child)
    ensures Sync(c, enacted, retracted) == Wiped() || RouteSynced(w, c, Sync(c, enacted, retracted), enacted, retracted)
  {
    SyncBlocksPurges(w, c, enacted, true);
    var (c1, clear1) := SyncBlocks(c, enacted, true, false);
    if !clear1 {
      assert Truthful(w, c1.mods) && Descends(c1.mods);
      SyncBlocksPurges(w, c1, retracted, false);
      var (c2, clear2) := SyncBlocks(c1, retracted, false, false);
      if !clear2 {
        PurgeThen(w, c.maps.storage, c1.maps.storage, c2.maps.storage, enacted, retracted);
        PurgeThen(w, c.maps.hashes, c1.maps.hashes, c2.maps.hashes, enacted, retracted);
        PurgeThen(w, c.maps.child, c1.maps.child, c2.maps.child, enacted, retracted);
        hide SyncBlocks, Truthful, Descends, Purged;
      }
    }
  }

  /** The flags after a full sync are those of the new best block. */
  lemma RouteFlags(w: World, best: Hash, target: Hash, c: Shared, after: Shared)
    requires ValidWorld(w) && best in w.tree && target in w.tree && ModsValid(w, best, c.mods)
    requires RouteSynced(w, c, after, Enacted(w.tree, best, target), Retracted(w.tree, best, target))
    ensures ModsValid(w, target, after.mods)
  {
    var enacted, retracted := Enacted(w.tree, best, target), Retracted(w.tree, best, target);
    forall x
      ensures x in retracted <==> OnChain(w.tree, x, best) && !OnChain(w.tree, x, target)
      ensures x in enacted <==> OnChain(w.tree, x, target) && !OnChain(w.tree, x, best)
    {
      RouteSplitsChains(w.tree, best, target, x);
    }
    forall i, b | 0 <= i < |after.mods| && after.mods[i].canon && OnChain(w.tree, b, target)
                  && w.tree[b].number > after.mods[i].number
      ensures Listed(after.mods, b)
    {
      assert after.mods[i].hash == c.mods[i].hash;
      if b !in enacted {
        SharedIsBelow(w.tree, best, target, c.mods[i].hash, b);
        assert Listed(c.mods, b);
      }
      assert Listed(c.mods, b);
      var j :| 0 <= j < |c.mods| && c.mods[j].hash == b;
      assert after.mods[j].hash == b;
    }
  }

  /** On the new chain, a block below a shared block is itself shared. */
  lemma SharedIsBelow(tree: Tree, best: Hash, target: Hash, a: Hash, b: Hash)
    requires WellFormed(tree) && best in tree && target in tree
    requires OnChain(tree, a, target) && OnChain(tree, b, target) && OnChain(tree, b, best)
    requires tree[a].number <= tree[b].number
    ensures OnChain(tree, a, best)
  {
    OnChainLinear(tree, a, b, target);
    OnChainTransitive(tree, a, b, best);
  }

  /** A key that no block of the route changed has one value at both ends. */
  lemma RouteKeepsValue(w: World, best: Hash, target: Hash, k: Key)
    requires ValidWorld(w) && best in w.tree && target in w.tree
    requires forall b :: b in Enacted(w.tree, best, target) && b in w.changed ==> k !in w.changed[b]
    requires forall b :: b in Retracted(w.tree, best, target) && b in w.changed ==> k !in w.changed[b]
    ensures Lookup(w.states[best], k) == Lookup(w.states[target], k)
  {
    var common := Ancestor(w.tree, best, CommonHeight(w.tree, best, target));
    forall b | OnChain(w.tree, b, best) && w.tree[b].number > w.tree[common].number ensures k !in w.changed[b] {
      SharedBelowCommon(w.tree, best, target, b);
      RouteSplitsChains(w.tree, best, target, b);
    }
    SameAlongChain(w, common, best, k);
    forall b | OnChain(w.tree, b, target) && w.tree[b].number > w.tree[common].number ensures k !in w.changed[b] {
      CommonIsSymmetric(w.tree, best, target);
      SharedBelowCommon(w.tree, target, best, b);
      RouteSplitsChains(w.tree, best, target, b);
    }
    SameAlongChain(w, common, target, k);
  }

  lemma RouteMaps(w: World, best: Hash, target: Hash, before: Maps, after: Maps, hasher: Bytes -> Bytes)
    requires ValidWorld(w) && best in w.tree && target in w.tree
    requires MapsAgree(before, w.states[best], hasher)
    requires MapsPurged(w, before, after, Enacted(w.tree, best, target))
    requires MapsPurged(w, before, after, Retracted(w.tree, best, target))
    ensures MapsAgree(after, w.states[target], hasher)
  {
    var s, t := w.states[best], w.states[target];
    forall e | e in after.storage ensures e.1 == Lookup(t, e.0) {
      RouteKeepsValue(w, best, target, e.0);
    }
    forall e | e in after.child ensures e.1 == Lookup(t, e.0) {
      RouteKeepsValue(w, best, target, e.0);
    }
    forall e | e in after.hashes ensures e.1 == Lookup(Hashed(hasher, t), e.0) {
      RouteKeepsValue(w, best, target, e.0);
      HashedLookup(hasher, s, e.0);
      HashedLookup(hasher, t, e.0);
    }
  }

  /** A reorganization to `target`, synced along its tree route, leaves the cache valid for `target`. */
  lemma SyncFollowsRoute(w: World, best: Hash, target: Hash, c: Shared, limits: Limits, hasher: Bytes -> Bytes)
    requires Valid(w, best, c, limits, hasher) && target in w.tree
    ensures Valid(w, target, Sync(c, Enacted(w.tree, best, target), Retracted(w.tree, best, target)), limits, hasher)
  {
    var enacted, retracted := Enacted(w.tree, best, target), Retracted(w.tree, best, target);
    SyncPurges(w, c, enacted, retracted);
    var after := Sync(c, enacted, retracted);
    if after != Wiped() {
      RouteFlags(w, best, target, c, after);
      RouteMaps(w, best, target, c.maps, after.maps, hasher);
    }
  }

  // ---- Commits and drops -------------------------------------------------

  /** The local cache, listed in the order it is drained, only holds values of its own state. */
  ghost predicate DrainAgrees(drained: Maps, state: State, hasher: Bytes -> Bytes) {
    MapsAgree(drained, state, hasher) && AllTop(drained.storage) && AllTop(drained.hashes) && AllChild(drained.child)
  }

  lemma PropagateKeepsValid(w: World, best: Hash, c: Shared, drained: Maps, limits: Limits, hasher: Bytes -> Bytes)
    requires Valid(w, best, c, limits, hasher) && DrainAgrees(drained, w.states[best], hasher)
    ensures Valid(w, best, c.(maps := Propagate(c.maps, drained, limits)), limits, hasher)
  {
    AddAllKeepsAgrees(c.maps.storage, drained.storage, limits.storage, w.states[best]);
    AddAllKeepsAgrees(c.maps.hashes, drained.hashes, limits.hashes, Hashed(hasher, w.states[best]));
    AddAllKeepsAgrees(c.maps.child, drained.child, limits.child, w.states[best]);
    AddAllKinds(c.maps.storage, drained.storage, limits.storage, true);
    AddAllKinds(c.maps.hashes, drained.hashes, limits.hashes, true);
    AddAllKinds(c.maps.child, drained.child, limits.child, false);
  }

  ghost predicate ValidCommit(w: World, commit: Commit, parent: Hash) {
    && parent in w.tree
    && commit.hash !in w.tree
    && commit.number == w.tree[parent].number + 1
    && AllTop(commit.changes) && AllChild(commit.childChanges)
  }

  lemma {:induction false} WithoutAbsent(blocks: seq<Hash>, h: Hash)
    requires h !in blocks
    ensures Without(blocks, h) == blocks
  {
    if blocks != [] {
      WithoutAbsent(blocks[1..], h);
    }
  }

  /** A fresh block is neither on a route nor in the list, so committing it syncs along the plain route. */
  lemma FreshCommitSyncs(w: World, best: Hash, target: Hash, c: Shared, commit: Commit, isBest: bool)
    requires WellFormed(w.tree) && best in w.tree && target in w.tree && Truthful(w, c.mods) && commit.hash !in w.tree
    ensures var enacted := if isBest then Enacted(w.tree, best, target) else [];
            var retracted := if isBest then Retracted(w.tree, best, target) else [];
            SyncForCommit(c, enacted, retracted, Some(commit), isBest) == Sync(c, enacted, retracted)
  {
    RouteSplitsChains(w.tree, best, target, commit.hash);
    WithoutAbsent(Enacted(w.tree, best, target), commit.hash);
    FindBlockFinds(c.mods, commit.hash);
  }

  /** A new best block on top of `parent`, wherever the best block was before. */
  lemma CommitBest(w: World, best: Hash, c: Shared, drained: Maps, commit: Commit, parent: Hash, limits: Limits, hasher: Bytes -> Bytes)
    requires Valid(w, best, c, limits, hasher) && ValidCommit(w, commit, parent)
    requires DrainAgrees(drained, w.states[parent], hasher)
    ensures var enacted, retracted := Enacted(w.tree, best, parent), Retracted(w.tree, best, parent);
            Valid(Grown(w, commit, parent), commit.hash,
                  SyncCache(c, drained, enacted, retracted, Some(commit), Some(parent), true, limits), limits, hasher)
  {
    var enacted, retracted := Enacted(w.tree, best, parent), Retracted(w.tree, best, parent);
    FreshCommitSyncs(w, best, parent, c, commit, true);
    SyncFollowsRoute(w, best, parent, c, limits, hasher);
    var c1 := Sync(c, enacted, retracted);
    PropagateKeepsValid(w, parent, c1, drained, limits, hasher);
    var c2 := c1.(maps := Propagate(c1.maps, drained, limits));
    CommitKeepsAgrees(c2.maps, commit, limits, w.states[parent], hasher);
    RecordBestBlock(w, parent, c2.mods, commit);
    GrownValid(w, commit, parent);
    hide ModsValid, MapsAgree, MapsBounded, KindsSeparate, ValidWorld;
  }

  /** A side block: the maps stay as they are, the block joins the list as non-canonical. */
  lemma CommitSide(w: World, best: Hash, c: Shared, drained: Maps, commit: Commit, parent: Hash, limits: Limits, hasher: Bytes -> Bytes)
    requires Valid(w, best, c, limits, hasher) && ValidCommit(w, commit, parent)
    ensures Valid(Grown(w, commit, parent), best,
                  SyncCache(c, drained, [], [], Some(commit), Some(parent), false, limits), limits, hasher)
    ensures SyncCache(c, drained, [], [], Some(commit), Some(parent), false, limits).maps == c.maps
  {
    FreshCommitSyncs(w, best, parent, c, commit, false);
    assert Sync(c, [], []) == c;
    RecordSideBlock(w, best, c.mods, commit, parent);
    GrownValid(w, commit, parent);
  }

  /** A state dropped without a commit donates its reads if it sits on the best block. */
  lemma DropState(w: World, best: Hash, c: Shared, drained: Maps, parent: Hash, limits: Limits, hasher: Bytes -> Bytes)
    requires Valid(w, best, c, limits, hasher) && parent in w.tree
    requires DrainAgrees(drained, w.states[parent], hasher)
    ensures Valid(w, best, SyncCache(c, drained, [], [], None, Some(parent), parent == best, limits), limits, hasher)
  {
    assert Sync(c, [], []) == c;
    if parent == best {
      PropagateKeepsValid(w, best, c, drained, limits, hasher);
    }
  }
}
