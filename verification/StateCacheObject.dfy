/**
 * The shared cache and the caching states as objects updated in place, each method proved to do
 * what its specification function says.
 */
module StateCacheObject {
  import opened Common
  import opened BlockTree
  import opened Lru
  import opened StateCache
  import opened StateCacheSteps
  import opened StateCacheRuns

  class Cache {
    const storage: LruMap
    const hashes: LruMap
    const child: LruMap
    var mods: seq<BlockChanges>

    ghost predicate Valid()
      reads this, storage, hashes, child
    {
      && storage != hashes && hashes != child && child != storage
      && storage.Valid() && hashes.Valid() && child.Valid()
      && KindsSeparate(Content())
    }

    ghost function Content(): Maps
      reads this, storage, hashes, child
    {
      Maps(storage.entries, hashes.entries, child.entries)
    }

    ghost function View(): Shared
      reads this, storage, hashes, child
    {
      Shared(Content(), mods)
    }

    ghost function Bounds(): Limits {
      Limits(storage.limit, hashes.limit, child.limit)
    }

    constructor (limits: Limits)
      ensures Valid() && fresh(storage) && fresh(hashes) && fresh(child)
      ensures View() == Wiped() && Bounds() == limits
    {
      storage := new LruMap(limits.storage);
      hashes := new LruMap(limits.hashes);
      child := new LruMap(limits.child);
      mods := [];
    }

    /** Removes one changed key from the maps of its kind. */
    method ForgetKey(k: Key)
      requires Valid()
      modifies storage, hashes, child
      ensures Valid() && Content() == ForgetOne(old(Content()), k)
    {
      RemoveKeyMembers(storage.entries, k);
      RemoveKeyMembers(hashes.entries, k);
      RemoveKeyMembers(child.entries, k);
      if k.Top? {
        storage.Remove(k);
        hashes.Remove(k);
      } else {
        child.Remove(k);
      }
    }

    /** Removes the changed keys of one block, in whatever order its set is iterated. */
    method ForgetKeys(keys: set<Key>)
      requires Valid()
      modifies storage, hashes, child
      ensures Valid() && Content() == Forget(old(Content()), keys)
    {
      var rest := keys;
      ghost var done: set<Key> := {};
      ghost var before := Content();
      ForgetNothing(before);
      while rest != {}
        invariant done + rest == keys && Valid()
        invariant Content() == Forget(before, done)
        decreases rest
      {
        var k :| k in rest;
        ForgetOneMore(before, done, k);
        ForgetKey(k);
        rest := rest - {k};
        done := done + {k};
      }
      assert done == keys;
    }

    /** One pass of `sync` over enacted or retracted blocks; once `clear` is set, blocks are skipped. */
    method SyncBlocks(blocks: seq<Hash>, canon: bool, alreadyClear: bool) returns (clear: bool)
      requires Valid()
      modifies this, storage, hashes, child
      ensures Valid() && (View(), clear) == StateCache.SyncBlocks(old(View()), blocks, canon, alreadyClear)
    {
      clear := alreadyClear;
      ghost var goal := StateCache.SyncBlocks(View(), blocks, canon, clear);
      assert blocks[0..] == blocks;
      for i := 0 to |blocks|
        invariant Valid()
        invariant StateCache.SyncBlocks(View(), blocks[i..], canon, clear) == goal
      {
        if !clear {
          FindBlockFinds(mods, blocks[i]);
          match FindBlock(mods, blocks[i]) {
            case None => clear := true;
            case Some(j) =>
              ForgetKeys(mods[j].changed);
              mods := mods[j := mods[j].(canon := canon)];
          }
        }
        assert blocks[i..][1..] == blocks[i + 1..];
      }
    }

    method Sync(enacted: seq<Hash>, retracted: seq<Hash>)
      requires Valid()
      modifies this, storage, hashes, child
      ensures Valid() && View() == StateCache.Sync(old(View()), enacted, retracted)
    {
      var clear := SyncBlocks(enacted, true, false);
      clear := SyncBlocks(retracted, false, clear);
      if clear {
        storage.Clear();
        hashes.Clear();
        child.Clear();
        mods := [];
      }
    }

    method IsAllowed(k: Key, parent: Option<Hash>) returns (allowed: bool)
      ensures allowed == StateCache.IsAllowed(k, parent, mods)
    {
      if parent.None? {
        return false;
      }
      var current := parent.value;
      assert mods[0..] == mods;
      for i := 0 to |mods|
        invariant Allowed(k, current, mods[i..]) == Allowed(k, parent.value, mods)
      {
        var m := mods[i];
        assert mods[i..][1..] == mods[i + 1..];
        if m.hash == current {
          if m.canon {
            return true;
          }
          current := m.parent;
        }
        if k in m.changed {
          return false;
        }
      }
      return false;
    }

    /** Drains a local cache and the changes of a commit into the shared cache. */
    method SyncCache(local: Local, enacted: seq<Hash>, retracted: seq<Hash>, commit: Option<Commit>,
                     parent: Option<Hash>, isBest: bool) returns (ghost drained: Maps)
      requires Valid()
      requires forall k :: k in local.storage || k in local.hashes ==> k.Top?
      requires forall k :: k in local.child ==> k.Child?
      requires commit.Some? ==> AllTop(commit.value.changes) && AllChild(commit.value.childChanges)
      modifies this, storage, hashes, child
      ensures Valid() && Drains(drained, local)
      ensures View() == StateCache.SyncCache(old(View()), drained, enacted, retracted, commit, parent, isBest, Bounds())
    {
      SyncForCommit(enacted, retracted, commit, isBest);
      var listedStorage := DrainMap(local.storage);
      var listedChild := DrainMap(local.child);
      var listedHashes := DrainMap(local.hashes);
      drained := Maps(listedStorage, listedHashes, listedChild);
      if parent.Some? && isBest {
        AddList(storage, listedStorage, true);
        AddList(child, listedChild, false);
        AddList(hashes, listedHashes, true);
      }
      if commit.Some? && parent.Some? {
        Record(commit.value, parent.value, isBest);
      }
    }

    method SyncForCommit(enacted: seq<Hash>, retracted: seq<Hash>, commit: Option<Commit>, isBest: bool)
      requires Valid()
      modifies this, storage, hashes, child
      ensures Valid() && View() == StateCache.SyncForCommit(old(View()), enacted, retracted, commit, isBest)
    {
      var enacted', retracted' := enacted, retracted;
      if commit.Some? {
        enacted' := Without(enacted, commit.value.hash);
        FindBlockFinds(mods, commit.value.hash);
        var found := FindBlock(mods, commit.value.hash);
        if found.Some? && mods[found.value].canon != isBest {
          if isBest {
            enacted' := enacted' + [commit.value.hash];
          } else {
            retracted' := retracted' + [commit.value.hash];
          }
        }
      }
      Sync(enacted', retracted');
    }

    /** Adds a list of entries of one kind to one of the maps. */
    method AddList(target: LruMap, list: seq<Entry>, top: bool)
      requires Valid() && target in {storage, hashes, child}
      requires (target == child) == !top
      requires forall i :: 0 <= i < |list| ==> list[i].0.Top? == top
      modifies target
      ensures Valid() && target.entries == AddAll(old(target.entries), list, target.limit)
    {
      ghost var before := target.entries;
      AddAllKinds(before, list, target.limit, top);
      assert list[0..] == list;
      for i := 0 to |list|
        invariant target.Valid()
        invariant AddAll(target.entries, list[i..], target.limit) == AddAll(before, list, target.limit)
      {
        assert list[i..][1..] == list[i + 1..];
        target.Add(list[i].0, list[i].1);
      }
    }

    method Record(commit: Commit, parent: Hash, isBest: bool)
      requires Valid() && AllTop(commit.changes) && AllChild(commit.childChanges)
      modifies this, storage, hashes, child
      ensures Valid() && View() == StateCache.Record(old(View()), commit, parent, isBest, Bounds())
    {
      if |mods| == STATE_CACHE_BLOCKS {
        mods := mods[..|mods| - 1];
      }
      if isBest {
        AddList(child, commit.childChanges, false);
        AddTopChanges(commit.changes);
      }
      var changed := KeysOf(commit.childChanges) + KeysOf(commit.changes);
      var block := BlockChanges(commit.number, commit.hash, parent, changed, isBest);
      mods := InsertSorted(mods, block);
    }

    method AddTopChanges(changes: seq<Entry>)
      requires Valid() && AllTop(changes)
      modifies storage, hashes
      ensures Valid() && Content() == AddChanges(old(Content()), changes, Bounds())
    {
      ghost var goal := AddChanges(Content(), changes, Bounds());
      assert changes[0..] == changes;
      for i := 0 to |changes|
        invariant Valid()
        invariant AddChanges(Content(), changes[i..], Bounds()) == goal
      {
        var (k, v) := changes[i];
        assert changes[i..][1..] == changes[i + 1..];
        RemoveKeyMembers(hashes.entries, k);
        PutMembers(storage.entries, k, v);
        EvictMembers(Put(storage.entries, k, v), storage.limit);
        hashes.Remove(k);
        storage.Add(k, v);
      }
    }
  }

  /** Inserts before the first entry with a lower number, or at the end. */
  method InsertSorted(mods: seq<BlockChanges>, block: BlockChanges) returns (after: seq<BlockChanges>)
    ensures after == InsertBlock(mods, block)
  {
    var at := 0;
    assert mods[0..] == mods;
    while at < |mods| && !(mods[at].number < block.number)
      invariant 0 <= at <= |mods|
      invariant mods[..at] + InsertBlock(mods[at..], block) == InsertBlock(mods, block)
    {
      InsertPoint(mods, block, at);
      at := at + 1;
    }
    InsertPoint(mods, block, at);
    return mods[..at] + [block] + mods[at..];
  }

  lemma InsertPoint(mods: seq<BlockChanges>, block: BlockChanges, at: nat)
    requires at <= |mods|
    ensures at < |mods| && !(mods[at].number < block.number) ==>
              mods[..at] + InsertBlock(mods[at..], block) == mods[..at + 1] + InsertBlock(mods[at + 1..], block)
    ensures (at == |mods| || mods[at].number < block.number) ==> InsertBlock(mods[at..], block) == [block] + mods[at..]
  {
    if at < |mods| {
      assert mods[at..][1..] == mods[at + 1..];
      assert mods[..at + 1] == mods[..at] + [mods[at]];
    }
  }

  /** Lists a hash map in whatever order it happens to be iterated. */
  method DrainMap(m: map<Key, Value>) returns (list: seq<Entry>)
    ensures Enumerates(list, m)
  {
    list := [];
    var rest := m.Keys;
    while rest != {}
      invariant rest <= m.Keys && DistinctKeys(list)
      invariant forall e :: e in list ==> e.0 in m && e.0 !in rest && m[e.0] == e.1
      invariant forall k :: k in m && k !in rest ==> (k, m[k]) in list
    {
      var k :| k in rest;
      list := list + [(k, m[k])];
      rest := rest - {k};
    }
  }

  lemma {:induction false} RemoveNothing(entries: seq<Entry>)
    ensures RemoveAll(entries, {}) == entries
  {
    if entries != [] {
      RemoveNothing(entries[1..]);
    }
  }

  lemma ForgetNothing(maps: Maps)
    ensures Forget(maps, {}) == maps
  {
    RemoveNothing(maps.storage);
    RemoveNothing(maps.hashes);
    RemoveNothing(maps.child);
  }

  function ForgetOne(maps: Maps, k: Key): Maps {
    if k.Top? then Maps(RemoveKey(maps.storage, k), RemoveKey(maps.hashes, k), maps.child)
    else maps.(child := RemoveKey(maps.child, k))
  }

  /** A key is only ever held by the maps of its kind, so removing it there removes it everywhere. */
  lemma ForgetOneMore(maps: Maps, done: set<Key>, k: Key)
    requires KindsSeparate(maps)
    requires DistinctKeys(maps.storage) && DistinctKeys(maps.hashes) && DistinctKeys(maps.child)
    ensures Forget(maps, done + {k}) == ForgetOne(Forget(maps, done), k)
  {
    if k.Top? {
      RemoveOneMore(maps.storage, done, k);
      RemoveOneMore(maps.hashes, done, k);
      RemoveAbsent(maps.child, done, k);
    } else {
      RemoveAbsent(maps.storage, done, k);
      RemoveAbsent(maps.hashes, done, k);
      RemoveOneMore(maps.child, done, k);
    }
  }

  /** A state on top of one block, reading through its local cache, the shared cache and the backing state. */
  class CachingState {
    const cache: Cache
    const parent: Option<Hash>
    const backing: State
    const hasher: Bytes -> Bytes
    var local: Local

    ghost function Session(): StateCacheRuns.Session
      reads this
    {
      StateCacheRuns.Session(parent, backing, local)
    }

    constructor (cache: Cache, backing: State, parent: Option<Hash>, hasher: Bytes -> Bytes)
      ensures this.cache == cache && this.hasher == hasher
      ensures Session() == StateCacheRuns.Session(parent, backing, NO_READS)
    {
      this.cache, this.parent, this.backing, this.hasher := cache, parent, backing, hasher;
      local := NO_READS;
    }

    method Storage(k: Key) returns (v: Value)
      requires cache.Valid() && k.Top?
      modifies `local, cache.storage
      ensures cache.Valid()
      ensures (cache.View(), Session(), v) == ReadThrough(old(cache.View()), old(Session()), StorageRead, k, hasher)
    {
      if k in local.storage {
        return local.storage[k];
      }
      var allowed := cache.IsAllowed(k, parent);
      if allowed {
        RefreshMembers(cache.storage.entries, k);
        FindRefreshes(cache.storage.entries, k);
        var hit := cache.storage.Get(k);
        if hit.Some? {
          return hit.value;
        }
      }
      v := Lookup(backing, k);
      local := local.(storage := local.storage[k := v]);
    }

    method StorageHash(k: Key) returns (v: Value)
      requires cache.Valid() && k.Top?
      modifies `local, cache.hashes
      ensures cache.Valid()
      ensures (cache.View(), Session(), v) == ReadThrough(old(cache.View()), old(Session()), HashRead, k, hasher)
    {
      if k in local.hashes {
        return local.hashes[k];
      }
      var allowed := cache.IsAllowed(k, parent);
      if allowed {
        RefreshMembers(cache.hashes.entries, k);
        FindRefreshes(cache.hashes.entries, k);
        var hit := cache.hashes.Get(k);
        if hit.Some? {
          return hit.value;
        }
      }
      v := Lookup(Hashed(hasher, backing), k);
      local := local.(hashes := local.hashes[k := v]);
    }

    method ChildStorage(k: Key) returns (v: Value)
      requires cache.Valid() && k.Child?
      modifies `local, cache.child
      ensures cache.Valid()
      ensures (cache.View(), Session(), v) == ReadThrough(old(cache.View()), old(Session()), ChildRead, k, hasher)
    {
      if k in local.child {
        return local.child[k];
      }
      var allowed := cache.IsAllowed(k, parent);
      if allowed {
        RefreshMembers(cache.child.entries, k);
        FindRefreshes(cache.child.entries, k);
        var hit := cache.child.Get(k);
        if hit.Some? {
          return hit.value;
        }
      }
      v := Lookup(backing, k);
      local := local.(child := local.child[k := v]);
    }
  }

  lemma FindRefreshes(entries: seq<Entry>, k: Key)
    ensures Find(entries, k).None? ==> Refresh(entries, k) == entries
  {
  }
}
