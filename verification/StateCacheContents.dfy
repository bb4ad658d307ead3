/** What the shared cache holds on to: exactly what it may, and no less. */
module StateCacheContents {
  import opened Common
  import opened BlockTree
  import opened Lru
  import opened StateCache
  import opened StateCacheSteps
  import opened StateCacheRuns

  // ---- Forgetting --------------------------------------------------------

  lemma {:induction false} RemoveAllInOrder(entries: seq<Entry>, keys: set<Key>)
    ensures Subsequence(RemoveAll(entries, keys), entries)
  {
    if entries != [] {
      RemoveAllInOrder(entries[1..], keys);
      var rest := RemoveAll(entries[1..], keys);
      assert ([entries[0]] + rest)[1..] == rest;
    }
  }

  lemma {:induction false} RemoveTwice(entries: seq<Entry>, a: set<Key>, b: set<Key>)
    ensures RemoveAll(RemoveAll(entries, a), b) == RemoveAll(entries, a + b)
  {
    if entries != [] {
      RemoveTwice(entries[1..], a, b);
      var rest := RemoveAll(entries[1..], a);
      assert ([entries[0]] + rest)[1..] == rest;
    }
  }

  lemma {:induction false} RemoveNothing(entries: seq<Entry>)
    ensures RemoveAll(entries, {}) == entries
  {
    if entries != [] { RemoveNothing(entries[1..]); }
  }

  /** A listed block among these changed the key. */
  ghost predicate Touched(mods: seq<BlockChanges>, blocks: seq<Hash>, k: Key) {
    exists i :: 0 <= i < |mods| && mods[i].hash in blocks && k in mods[i].changed
  }

  function ChangedBy(mods: seq<BlockChanges>, blocks: seq<Hash>): set<Key> {
    if mods == [] then {} else (if mods[0].hash in blocks then mods[0].changed else {}) + ChangedBy(mods[1..], blocks)
  }

  lemma {:induction false} ChangedByIs(mods: seq<BlockChanges>, blocks: seq<Hash>, k: Key)
    ensures k in ChangedBy(mods, blocks) <==> Touched(mods, blocks, k)
  {
    if mods != [] {
      ChangedByIs(mods[1..], blocks, k);
      if i :| 0 <= i < |mods| && mods[i].hash in blocks && k in mods[i].changed {
        if i > 0 { assert mods[1..][i - 1] == mods[i]; }
      }
      if i :| 0 <= i < |mods| - 1 && mods[1..][i].hash in blocks && k in mods[1..][i].changed {
        assert mods[i + 1] == mods[1..][i];
      }
    }
  }

  lemma {:induction false} ChangedByNext(mods: seq<BlockChanges>, flagged: seq<BlockChanges>, i: nat, blocks: seq<Hash>)
    requires Descends(mods) && blocks != [] && i < |mods| && mods[i].hash == blocks[0]
    requires |flagged| == |mods| && forall j :: 0 <= j < |mods| ==> flagged[j].hash == mods[j].hash && flagged[j].changed == mods[j].changed
    ensures mods[i].changed + ChangedBy(flagged, blocks[1..]) == ChangedBy(mods, blocks)
  {
    forall k ensures k in mods[i].changed + ChangedBy(flagged, blocks[1..]) <==> k in ChangedBy(mods, blocks) {
      ChangedByIs(mods, blocks, k);
      ChangedByIs(flagged, blocks[1..], k);
      assert blocks == [blocks[0]] + blocks[1..];
      if j :| 0 <= j < |mods| && mods[j].hash in blocks && k in mods[j].changed {
        if j != i { assert mods[j].hash != blocks[0] && flagged[j].hash in blocks[1..]; }
      }
      if j :| 0 <= j < |flagged| && flagged[j].hash in blocks[1..] && k in flagged[j].changed {
        assert mods[j].hash in blocks;
      }
    }
    hide ChangedBy;
  }

  ghost predicate AllListed(mods: seq<BlockChanges>, blocks: seq<Hash>) {
    forall b :: b in blocks ==> Listed(mods, b)
  }

  /** One pass: it stops exactly at an unlisted block; otherwise the keys its blocks changed go, and no others. */
  lemma {:induction false} SyncBlocksExact(c: Shared, blocks: seq<Hash>, canon: bool)
    requires Descends(c.mods)
    ensures var (after, clear) := SyncBlocks(c, blocks, canon, false);
            && (!clear <==> AllListed(c.mods, blocks))
            && (!clear ==> after.maps == Forget(c.maps, ChangedBy(c.mods, blocks)) && Flagged(c.mods, after.mods, blocks, canon))
    decreases |blocks|
  {
    hide ChangedBy, Forget;
    FindBlockFinds(c.mods, if blocks == [] then [] else blocks[0]);
    if blocks == [] {
      NothingForgotten(c, blocks);
    } else {
      assert blocks == [blocks[0]] + blocks[1..];
      match FindBlock(c.mods, blocks[0]) {
        case None => assert !Listed(c.mods, blocks[0]);
        case Some(i) =>
          var next := SyncOne(c, blocks[0], canon).value;
          assert Listed(c.mods, blocks[0]);
          SameListing(c.mods, next.mods, blocks[1..]);
          SyncBlocksExact(next, blocks[1..], canon);
          var (after, clear) := SyncBlocks(next, blocks[1..], canon, false);
          ChangedByNext(c.mods, next.mods, i, blocks);
          ForgetTwice(c.maps, c.mods[i].changed, ChangedBy(next.mods, blocks[1..]));
          if !clear { FlagOneMore(c.mods, next.mods, after.mods, blocks[0], i, blocks[1..], canon); }
          hide Descends, Flagged, Listed;
      }
    }
  }

  lemma NothingForgotten(c: Shared, blocks: seq<Hash>)
    requires blocks == []
    ensures Forget(c.maps, ChangedBy(c.mods, blocks)) == c.maps
  {
    forall k ensures k !in ChangedBy(c.mods, blocks) { ChangedByIs(c.mods, blocks, k); }
    assert ChangedBy(c.mods, blocks) == {};
    RemoveNothing(c.maps.storage);
    RemoveNothing(c.maps.hashes);
    RemoveNothing(c.maps.child);
  }

  lemma SameListing(mods: seq<BlockChanges>, flagged: seq<BlockChanges>, blocks: seq<Hash>)
    requires |flagged| == |mods| && forall j :: 0 <= j < |mods| ==> flagged[j].hash == mods[j].hash
    ensures AllListed(flagged, blocks) <==> AllListed(mods, blocks)
  {
    forall b ensures Listed(flagged, b) <==> Listed(mods, b) {
      if i :| 0 <= i < |mods| && mods[i].hash == b { assert flagged[i].hash == b; }
      if i :| 0 <= i < |flagged| && flagged[i].hash == b { assert mods[i].hash == b; }
    }
    hide Listed;
  }

  lemma ForgetTwice(maps: Maps, a: set<Key>, b: set<Key>)
    ensures Forget(Forget(maps, a), b) == Forget(maps, a + b)
  {
    RemoveTwice(maps.storage, a, b);
    RemoveTwice(maps.hashes, a, b);
    RemoveTwice(maps.child, a, b);
  }

  // ---- Synchronizing -----------------------------------------------------

  /** The old entries, in their order, whose key none of the blocks changed. */
  ghost predicate KeptUntouched(before: seq<Entry>, after: seq<Entry>, mods: seq<BlockChanges>, blocks: seq<Hash>) {
    Subsequence(after, before) && forall e :: e in after <==> e in before && !Touched(mods, blocks, e.0)
  }

  /** The whole effect of syncing with these enacted and retracted blocks. */
  ghost predicate Synced(c: Shared, after: Shared, enacted: seq<Hash>, retracted: seq<Hash>) {
    var blocks := enacted + retracted;
    if !AllListed(c.mods, blocks) then after.maps == Maps([], [], []) && after.mods == [] else
    && KeptUntouched(c.maps.storage, after.maps.storage, c.mods, blocks)
    && KeptUntouched(c.maps.hashes, after.maps.hashes, c.mods, blocks)
    && KeptUntouched(c.maps.child, after.maps.child, c.mods, blocks)
    && |after.mods| == |c.mods|
    && (forall i :: 0 <= i < |c.mods| ==>
          after.mods[i] == c.mods[i].(canon := if c.mods[i].hash in retracted then false
                                               else if c.mods[i].hash in enacted then true
                                               else c.mods[i].canon))
  }

  ghost predicate KeysDistinct(maps: Maps) {
    DistinctKeys(maps.storage) && DistinctKeys(maps.hashes) && DistinctKeys(maps.child)
  }

  /**
   * Syncing empties the cache exactly when some block of the route is not listed. Otherwise every
   * map keeps exactly the entries whose key no block of the route changed, in order, and the list
   * keeps its blocks, with the flags of the route set.
   */
  lemma SyncExact(c: Shared, enacted: seq<Hash>, retracted: seq<Hash>)
    requires Descends(c.mods) && KeysDistinct(c.maps)
    ensures Synced(c, Sync(c, enacted, retracted), enacted, retracted)
  {
    hide Forget, ChangedBy, SyncBlocks, KeptUntouched;
    var blocks := enacted + retracted;
    SyncBlocksExact(c, enacted, true);
    var (c1, clear1) := SyncBlocks(c, enacted, true, false);
    if !clear1 {
      SameListing(c.mods, c1.mods, retracted);
      SyncBlocksExact(c1, retracted, false);
      var keys, more := ChangedBy(c.mods, enacted), ChangedBy(c1.mods, retracted);
      ForgetTwice(c.maps, keys, more);
      BothPasses(c.mods, c1.mods, enacted, retracted);
      ForgottenAre(c.maps, c.mods, blocks);
    } else {
      ClearStays(c1, retracted);
    }
    ListedParts(c.mods, enacted, retracted);
    hide AllListed, Descends, Touched;
  }

  lemma ClearStays(c: Shared, blocks: seq<Hash>)
    ensures SyncBlocks(c, blocks, false, true) == (c, true)
  {
  }

  lemma ListedParts(mods: seq<BlockChanges>, a: seq<Hash>, b: seq<Hash>)
    ensures AllListed(mods, a + b) <==> AllListed(mods, a) && AllListed(mods, b)
  {
    hide Listed;
  }

  lemma BothPasses(mods: seq<BlockChanges>, flagged: seq<BlockChanges>, enacted: seq<Hash>, retracted: seq<Hash>)
    requires |flagged| == |mods| && forall j :: 0 <= j < |mods| ==> flagged[j].hash == mods[j].hash && flagged[j].changed == mods[j].changed
    ensures ChangedBy(mods, enacted) + ChangedBy(flagged, retracted) == ChangedBy(mods, enacted + retracted)
  {
    forall k ensures k in ChangedBy(mods, enacted) + ChangedBy(flagged, retracted) <==> k in ChangedBy(mods, enacted + retracted) {
      ChangedByIs(mods, enacted, k);
      ChangedByIs(flagged, retracted, k);
      ChangedByIs(mods, enacted + retracted, k);
      if j :| 0 <= j < |flagged| && flagged[j].hash in retracted && k in flagged[j].changed {
        assert mods[j].hash in enacted + retracted;
      }
      if j :| 0 <= j < |mods| && mods[j].hash in enacted + retracted && k in mods[j].changed {
        assert mods[j].hash in enacted || flagged[j].hash in retracted;
      }
    }
    hide ChangedBy;
  }

  lemma ForgottenAre(maps: Maps, mods: seq<BlockChanges>, blocks: seq<Hash>)
    requires KeysDistinct(maps)
    ensures var after := Forget(maps, ChangedBy(mods, blocks));
            && KeptUntouched(maps.storage, after.storage, mods, blocks)
            && KeptUntouched(maps.hashes, after.hashes, mods, blocks)
            && KeptUntouched(maps.child, after.child, mods, blocks)
  {
    hide Touched, ChangedBy, Subsequence;
    var keys := ChangedBy(mods, blocks);
    forall k ensures k in keys <==> Touched(mods, blocks, k) { ChangedByIs(mods, blocks, k); }
    RemoveAllMembers(maps.storage, keys);
    RemoveAllMembers(maps.hashes, keys);
    RemoveAllMembers(maps.child, keys);
    RemoveAllInOrder(maps.storage, keys);
    RemoveAllInOrder(maps.hashes, keys);
    RemoveAllInOrder(maps.child, keys);
    hide RemoveAll;
  }

  /** For a valid cache the same in terms of the chain: what a block of the route changed goes, all else stays. */
  lemma RouteSyncExact(w: World, best: Hash, target: Hash, c: Shared, limits: Limits, hasher: Bytes -> Bytes, e: Entry)
    requires Valid(w, best, c, limits, hasher) && target in w.tree
    ensures var enacted, retracted := Enacted(w.tree, best, target), Retracted(w.tree, best, target);
            var route, after := enacted + retracted, Sync(c, enacted, retracted);
            && Synced(c, after, enacted, retracted)
            && (AllListed(c.mods, route) ==>
                  && (forall b :: b in route ==> b in w.changed)
                  && (e in after.maps.storage <==> e in c.maps.storage && forall b :: b in route ==> e.0 !in w.changed[b])
                  && (e in after.maps.hashes <==> e in c.maps.hashes && forall b :: b in route ==> e.0 !in w.changed[b])
                  && (e in after.maps.child <==> e in c.maps.child && forall b :: b in route ==> e.0 !in w.changed[b]))
  {
    var enacted, retracted := Enacted(w.tree, best, target), Retracted(w.tree, best, target);
    var route := enacted + retracted;
    SyncExact(c, enacted, retracted);
    if AllListed(c.mods, route) { TouchedInWorld(w, c.mods, route, e.0); }
    hide Sync, Subsequence, Touched, ModsValid, MapsAgree, ValidWorld, Enacted, Retracted;
  }

  lemma TouchedInWorld(w: World, mods: seq<BlockChanges>, blocks: seq<Hash>, k: Key)
    requires Truthful(w, mods) && AllListed(mods, blocks)
    ensures forall b :: b in blocks ==> b in w.changed
    ensures Touched(mods, blocks, k) <==> exists b :: b in blocks && k in w.changed[b]
  {
    forall b | b in blocks ensures b in w.changed {
      assert Listed(mods, b);
    }
    if b :| b in blocks && k in w.changed[b] {
      assert Listed(mods, b);
      var i :| 0 <= i < |mods| && mods[i].hash == b;
      assert mods[i].hash in blocks && k in mods[i].changed;
    }
  }

  /** The route of a commit: the block itself is enacted or retracted exactly if it is listed with the other flag. */
  ghost predicate CommitRoute(mods: seq<BlockChanges>, enacted: seq<Hash>, retracted: seq<Hash>, h: Hash, isBest: bool, e: seq<Hash>, r: seq<Hash>) {
    var turned := exists i :: 0 <= i < |mods| && mods[i].hash == h && mods[i].canon != isBest;
    && (forall x :: x in e <==> (x in enacted && x != h) || (x == h && turned && isBest))
    && (forall x :: x in r <==> x in retracted || (x == h && turned && !isBest))
  }

  /** A commit syncs along its route. */
  lemma CommitSyncExact(c: Shared, enacted: seq<Hash>, retracted: seq<Hash>, commit: Commit, isBest: bool) returns (e: seq<Hash>, r: seq<Hash>)
    requires Descends(c.mods) && KeysDistinct(c.maps)
    ensures CommitRoute(c.mods, enacted, retracted, commit.hash, isBest, e, r)
    ensures Synced(c, SyncForCommit(c, enacted, retracted, Some(commit), isBest), e, r)
  {
    FindBlockFinds(c.mods, commit.hash);
    WithoutMembers(enacted, commit.hash);
    var others := Without(enacted, commit.hash);
    var turned := Recommitted(c, commit.hash, isBest);
    e := if turned && isBest then others + [commit.hash] else others;
    r := if turned && !isBest then retracted + [commit.hash] else retracted;
    SyncExact(c, e, r);
    hide Synced, Sync, Without;
  }

  lemma {:induction false} WithoutMembers(blocks: seq<Hash>, h: Hash)
    ensures forall x :: x in Without(blocks, h) <==> x in blocks && x != h
  {
    if blocks != [] {
      WithoutMembers(blocks[1..], h);
      assert blocks == [blocks[0]] + blocks[1..];
    }
  }

  // ---- Adding ------------------------------------------------------------

  /** `e` is what the list says last about its key. */
  predicate LastIn(list: seq<Entry>, e: Entry) {
    exists i :: 0 <= i < |list| && list[i] == e && forall j :: i < j < |list| ==> list[j].0 != e.0
  }

  predicate Names(list: seq<Entry>, k: Key) {
    exists i :: 0 <= i < |list| && list[i].0 == k
  }

  /** When the entry at position `j` is added, the entries from `e` to the back exceed the limit. */
  predicate EvictedAt(entries: seq<Entry>, list: seq<Entry>, limit: nat, e: Entry, j: nat) {
    j < |list| &&
    var full := Put(AddAll(entries, list[..j], limit), list[j].0, list[j].1);
    exists p :: 0 <= p < |full| && full[p] == e && Total(full[p..]) > limit
  }

  ghost predicate Evicted(entries: seq<Entry>, list: seq<Entry>, limit: nat, e: Entry) {
    exists j: nat :: EvictedAt(entries, list, limit, e, j)
  }

  /**
   * Adding a list loads a map: it holds only what the list says last and what was there under other
   * keys, and all of that but for entries evicted by the limit.
   */
  ghost predicate Loaded(before: seq<Entry>, list: seq<Entry>, limit: nat, after: seq<Entry>) {
    && (forall e :: e in after ==> LastIn(list, e) || (e in before && !Names(list, e.0)))
    && (forall e :: LastIn(list, e) ==> e in after || Evicted(before, list, limit, e))
    && (forall e :: e in before && !Names(list, e.0) ==> e in after || Evicted(before, list, limit, e))
  }

  lemma {:induction false} TotalOfSuffix(entries: seq<Entry>, p: nat, q: nat)
    requires p <= q <= |entries|
    ensures Total(entries[p..]) >= Total(entries[q..])
    decreases q - p
  {
    if p < q {
      assert entries[p..][1..] == entries[p + 1..];
      TotalOfSuffix(entries, p + 1, q);
    }
  }

  /** Eviction takes an entry only if the entries from it to the back exceed the limit. */
  lemma EvictTakes(full: seq<Entry>, limit: nat, e: Entry)
    requires DistinctKeys(full) && e in full
    ensures e in Evict(full, limit) || exists p :: 0 <= p < |full| && full[p] == e && Total(full[p..]) > limit
  {
    EvictMembers(full, limit);
    var kept := Evict(full, limit);
    var cut := |full| - |kept|;
    var p :| 0 <= p < |full| && full[p] == e;
    if p < cut {
      TotalOfSuffix(full, p, cut - 1);
    } else {
      assert kept[p - cut] == e;
    }
    hide Evict, Total;
  }

  lemma {:induction false} AddAllConcat(entries: seq<Entry>, a: seq<Entry>, b: seq<Entry>, limit: nat)
    ensures AddAll(entries, a + b, limit) == AddAll(AddAll(entries, a, limit), b, limit)
    decreases |a|
  {
    if a == [] {
      assert a + b == b;
    } else {
      assert (a + b)[1..] == a[1..] + b;
      AddAllConcat(AddEntry(entries, a[0].0, a[0].1, limit), a[1..], b, limit);
    }
  }

  lemma AddEntryKeeps(entries: seq<Entry>, k: Key, v: Value, limit: nat)
    requires DistinctKeys(entries)
    ensures DistinctKeys(AddEntry(entries, k, v, limit))
    ensures forall e :: e in AddEntry(entries, k, v, limit) ==> e == (k, v) || (e in entries && e.0 != k)
  {
    PutMembers(entries, k, v);
    EvictMembers(Put(entries, k, v), limit);
    hide Put, Evict, Total;
  }

  /** Dropping the first of the list shifts evictions by one. */
  lemma EvictedLater(entries: seq<Entry>, list: seq<Entry>, limit: nat, e: Entry)
    requires list != [] && Evicted(AddEntry(entries, list[0].0, list[0].1, limit), list[1..], limit, e)
    ensures Evicted(entries, list, limit, e)
  {
    hide AddEntry, Put, Total;
    var next, rest := AddEntry(entries, list[0].0, list[0].1, limit), list[1..];
    var j: nat :| EvictedAt(next, rest, limit, e, j);
    var part := list[..j + 1];
    assert part[1..] == rest[..j] && rest[j] == list[j + 1];
    assert AddAll(entries, part, limit) == AddAll(next, rest[..j], limit);
    assert EvictedAt(entries, list, limit, e, j + 1);
  }

  lemma EvictedNow(entries: seq<Entry>, list: seq<Entry>, limit: nat, e: Entry)
    requires DistinctKeys(entries) && list != []
    requires e == list[0] || (e in entries && e.0 != list[0].0)
    ensures e in AddEntry(entries, list[0].0, list[0].1, limit) || Evicted(entries, list, limit, e)
  {
    PutMembers(entries, list[0].0, list[0].1);
    var full := Put(entries, list[0].0, list[0].1);
    EvictTakes(full, limit, e);
    assert AddAll(entries, list[..0], limit) == entries;
    if e !in Evict(full, limit) { assert EvictedAt(entries, list, limit, e, 0); }
    hide Put, Evict, Total;
  }

  lemma LastInRest(list: seq<Entry>, e: Entry)
    requires list != []
    ensures LastIn(list, e) <==> LastIn(list[1..], e) || (e == list[0] && !Names(list[1..], e.0))
    ensures Names(list, e.0) <==> e.0 == list[0].0 || Names(list[1..], e.0)
    ensures LastIn(list[1..], e) ==> Names(list[1..], e.0)
  {
    var rest := list[1..];
    if i :| 0 <= i < |list| && list[i] == e && forall j :: i < j < |list| ==> list[j].0 != e.0 {
      if i > 0 { assert rest[i - 1] == e && forall j :: i - 1 < j < |rest| ==> rest[j] == list[j + 1]; }
    }
    if i :| 0 <= i < |rest| && rest[i] == e && forall j :: i < j < |rest| ==> rest[j].0 != e.0 {
      assert list[i + 1] == e;
      forall j | i + 1 < j < |list| ensures list[j].0 != e.0 { assert rest[j - 1] == list[j]; }
    }
    if !Names(rest, e.0) && e == list[0] {
      forall j | 0 < j < |list| ensures list[j].0 != e.0 { assert rest[j - 1] == list[j]; }
      assert LastIn(list, e);
    }
    if i :| 0 <= i < |list| && list[i].0 == e.0 {
      if i > 0 { assert rest[i - 1].0 == e.0; }
    }
    if i :| 0 <= i < |rest| && rest[i].0 == e.0 { assert list[i + 1].0 == e.0; }
  }

  /** An entry that belongs in the map after loading is there, or was evicted on the way. */
  lemma {:induction false} LoadKeeps(entries: seq<Entry>, list: seq<Entry>, limit: nat, e: Entry)
    requires DistinctKeys(entries) && (LastIn(list, e) || (e in entries && !Names(list, e.0)))
    ensures e in AddAll(entries, list, limit) || Evicted(entries, list, limit, e)
    decreases |list|
  {
    hide AddEntry, Put, Evicted, LastIn, Names;
    if list == [] {
      NothingNamed(e);
    } else {
      LastInRest(list, e);
      var next := AddEntry(entries, list[0].0, list[0].1, limit);
      AddEntryKeeps(entries, list[0].0, list[0].1, limit);
      if LastIn(list[1..], e) {
        LoadKeeps(next, list[1..], limit, e);
        if Evicted(next, list[1..], limit, e) { EvictedLater(entries, list, limit, e); }
      } else {
        EvictedNow(entries, list, limit, e);
        if e in next {
          LoadKeeps(next, list[1..], limit, e);
          if Evicted(next, list[1..], limit, e) { EvictedLater(entries, list, limit, e); }
        }
      }
    }
  }

  lemma NothingNamed(e: Entry)
    ensures !LastIn([], e) && !Names([], e.0)
  {
  }

  lemma {:induction false} LoadAddsNothingElse(entries: seq<Entry>, list: seq<Entry>, limit: nat, e: Entry)
    requires DistinctKeys(entries) && e in AddAll(entries, list, limit)
    ensures LastIn(list, e) || (e in entries && !Names(list, e.0))
    decreases |list|
  {
    hide AddEntry, LastIn, Names;
    if list == [] {
      NothingNamed(e);
    } else {
      LastInRest(list, e);
      AddEntryKeeps(entries, list[0].0, list[0].1, limit);
      LoadAddsNothingElse(AddEntry(entries, list[0].0, list[0].1, limit), list[1..], limit, e);
    }
  }

  lemma AddAllLoads(entries: seq<Entry>, list: seq<Entry>, limit: nat)
    requires DistinctKeys(entries)
    ensures Loaded(entries, list, limit, AddAll(entries, list, limit))
  {
    hide AddAll, LastIn, Names, Evicted;
    var after := AddAll(entries, list, limit);
    forall e | e in after ensures LastIn(list, e) || (e in entries && !Names(list, e.0)) { LoadAddsNothingElse(entries, list, limit, e); }
    forall e | LastIn(list, e) ensures e in after || Evicted(entries, list, limit, e) { LoadKeeps(entries, list, limit, e); }
    forall e | e in entries && !Names(list, e.0) ensures e in after || Evicted(entries, list, limit, e) { LoadKeeps(entries, list, limit, e); }
  }

  // ---- Committing --------------------------------------------------------

  lemma {:induction false} AddChangesIs(maps: Maps, changes: seq<Entry>, limits: Limits)
    requires DistinctKeys(maps.hashes)
    ensures var after := AddChanges(maps, changes, limits);
            && after.storage == AddAll(maps.storage, changes, limits.storage)
            && after.child == maps.child
            && (forall e :: e in after.hashes <==> e in maps.hashes && !Names(changes, e.0))
    decreases |changes|
  {
    if changes != [] {
      hide AddEntry, Names;
      var (k, v) := changes[0];
      var next := maps.(hashes := RemoveKey(maps.hashes, k), storage := AddEntry(maps.storage, k, v, limits.storage));
      RemoveKeyMembers(maps.hashes, k);
      AddChangesIs(next, changes[1..], limits);
      forall e: Entry ensures Names(changes, e.0) <==> e.0 == k || Names(changes[1..], e.0) { LastInRest(changes, e); }
    }
  }

  lemma {:induction false} AddAllDistinct(entries: seq<Entry>, list: seq<Entry>, limit: nat)
    requires DistinctKeys(entries)
    ensures DistinctKeys(AddAll(entries, list, limit))
    decreases |list|
  {
    if list != [] {
      AddEntryKeeps(entries, list[0].0, list[0].1, limit);
      AddAllDistinct(AddEntry(entries, list[0].0, list[0].1, limit), list[1..], limit);
    }
    hide AddEntry;
  }

  /**
   * A best commit, after the sync: values read by the state and then values it committed are loaded
   * into their maps; read hashes are loaded, and those of committed keys go.
   */
  lemma BestCommitLoads(c: Shared, drained: Maps, enacted: seq<Hash>, retracted: seq<Hash>, commit: Commit, parent: Hash, limits: Limits)
    requires KeysDistinct(SyncForCommit(c, enacted, retracted, Some(commit), true).maps)
    ensures var synced := SyncForCommit(c, enacted, retracted, Some(commit), true).maps;
            var after := SyncCache(c, drained, enacted, retracted, Some(commit), Some(parent), true, limits).maps;
            && Loaded(synced.storage, drained.storage + commit.changes, limits.storage, after.storage)
            && Loaded(synced.child, drained.child + commit.childChanges, limits.child, after.child)
            && (exists hashes :: && Loaded(synced.hashes, drained.hashes, limits.hashes, hashes)
                                 && forall e :: e in after.hashes <==> e in hashes && !Names(commit.changes, e.0))
  {
    hide SyncForCommit, Loaded, AddAll, AddChanges, Names;
    var synced := SyncForCommit(c, enacted, retracted, Some(commit), true).maps;
    var read := Propagate(synced, drained, limits);
    AddAllLoads(synced.storage, drained.storage + commit.changes, limits.storage);
    AddAllLoads(synced.child, drained.child + commit.childChanges, limits.child);
    AddAllLoads(synced.hashes, drained.hashes, limits.hashes);
    AddAllConcat(synced.storage, drained.storage, commit.changes, limits.storage);
    AddAllConcat(synced.child, drained.child, commit.childChanges, limits.child);
    AddAllDistinct(synced.hashes, drained.hashes, limits.hashes);
    AddChangesIs(read.(child := AddAll(read.child, commit.childChanges, limits.child)), commit.changes, limits);
  }

  /** A block committed aside, or without a known parent, loads nothing. */
  lemma SideCommitLoadsNothing(c: Shared, drained: Maps, enacted: seq<Hash>, retracted: seq<Hash>, commit: Commit, parent: Option<Hash>, limits: Limits)
    ensures SyncCache(c, drained, enacted, retracted, Some(commit), parent, false, limits).maps ==
              SyncForCommit(c, enacted, retracted, Some(commit), false).maps
    ensures SyncCache(c, drained, enacted, retracted, Some(commit), None, true, limits) ==
              SyncForCommit(c, enacted, retracted, Some(commit), true)
  {
    hide SyncForCommit, InsertBlock;
  }

  /** The block joins the list below no lower one; the oldest entry goes exactly when the list was full. */
  lemma CommitRecords(c: Shared, drained: Maps, enacted: seq<Hash>, retracted: seq<Hash>, commit: Commit, parent: Hash, isBest: bool, limits: Limits)
    requires Descends(SyncForCommit(c, enacted, retracted, Some(commit), isBest).mods)
    ensures var synced := SyncForCommit(c, enacted, retracted, Some(commit), isBest).mods;
            var after := SyncCache(c, drained, enacted, retracted, Some(commit), Some(parent), isBest, limits).mods;
            var rest := if |synced| == 12 then synced[..11] else synced;
            exists at :: && 0 <= at <= |rest| && |after| == |rest| + 1 && after[..at] == rest[..at] && after[at + 1..] == rest[at..]
                         && after[at].number == commit.number && after[at].hash == commit.hash && after[at].parent == parent
                         && after[at].canon == isBest
                         && (forall k :: k in after[at].changed <==> Names(commit.changes, k) || Names(commit.childChanges, k))
                         && (forall i :: 0 <= i < at ==> rest[i].number >= commit.number)
                         && (forall i :: at <= i < |rest| ==> rest[i].number < commit.number)
  {
    hide SyncForCommit, InsertBlock, AddChanges, AddAll, Propagate;
    var synced := SyncForCommit(c, enacted, retracted, Some(commit), isBest).mods;
    var rest := DropOldest(synced);
    var block := BlockChanges(commit.number, commit.hash, parent, KeysOf(commit.childChanges) + KeysOf(commit.changes), isBest);
    var at := InsertBlockShape(rest, block);
    var after := rest[..at] + [block] + rest[at..];
    assert after[..at] == rest[..at] && after[at + 1..] == rest[at..] && after[at] == block;
    forall k ensures k in block.changed <==> Names(commit.changes, k) || Names(commit.childChanges, k) {
      KeysOfNames(commit.changes, k);
      KeysOfNames(commit.childChanges, k);
    }
  }

  lemma KeysOfNames(list: seq<Entry>, k: Key)
    ensures k in KeysOf(list) <==> Names(list, k)
  {
    if i :| 0 <= i < |list| && list[i].0 == k { assert list[i] in list; }
    if k in KeysOf(list) {
      var e :| e in list && e.0 == k;
      var i :| 0 <= i < |list| && list[i] == e;
    }
  }

  /** A state dropped without a commit loads its reads exactly when it sits on the best block. */
  lemma DropLoads(c: Shared, drained: Maps, parent: Hash, isBest: bool, limits: Limits)
    requires KeysDistinct(c.maps)
    ensures var after := SyncCache(c, drained, [], [], None, Some(parent), isBest, limits);
            && (!isBest ==> after == c)
            && (isBest ==> && after.mods == c.mods
                           && Loaded(c.maps.storage, drained.storage, limits.storage, after.maps.storage)
                           && Loaded(c.maps.hashes, drained.hashes, limits.hashes, after.maps.hashes)
                           && Loaded(c.maps.child, drained.child, limits.child, after.maps.child))
  {
    assert Sync(c, [], []) == c;
    AddAllLoads(c.maps.storage, drained.storage, limits.storage);
    AddAllLoads(c.maps.hashes, drained.hashes, limits.hashes);
    AddAllLoads(c.maps.child, drained.child, limits.child);
    hide Sync, Loaded, AddAll;
  }

  // ---- Reading -----------------------------------------------------------

  /** The answer to a read that needs no backing state: from the local cache, else from the shared one if allowed. */
  function CachedAnswer(c: Shared, s: Session, kind: Kind, k: Key): Option<Value> {
    if k in LocalMap(s.local, kind) then Some(LocalMap(s.local, kind)[k])
    else if IsAllowed(k, s.parent, c.mods) then Find(SharedMap(c.maps, kind), k)
    else None
  }

  /**
   * A cached read does not depend on the backing state, and changes nothing but the age of a shared
   * entry. Any other read asks the backing state, and the answer is cached from then on.
   */
  lemma ReadsAreCached(c: Shared, s: Session, kind: Kind, k: Key, hasher: Bytes -> Bytes)
    requires KeysDistinct(c.maps)
    ensures var (after, session, v) := ReadThrough(c, s, kind, k, hasher);
            var cached := CachedAnswer(c, s, kind, k);
            && CachedAnswer(after, session, kind, k) == Some(v)
            && after.mods == c.mods && session.parent == s.parent && session.backing == s.backing
            && (cached.Some? ==>
                  && session == s && v == cached.value
                  && (forall other :: ReadThrough(c, s.(backing := other), kind, k, hasher).2 == v)
                  && (k in LocalMap(s.local, kind) ==> after == c)
                  && (k !in LocalMap(s.local, kind) ==> MovedToBack(SharedMap(c.maps, kind), SharedMap(after.maps, kind), k)))
            && (cached.None? ==>
                  && after == c && v == Answer(kind, s.backing, k, hasher)
                  && LocalMap(session.local, kind) == LocalMap(s.local, kind)[k := v])
            && (forall q :: q != kind ==> SharedMap(after.maps, q) == SharedMap(c.maps, q)
                                          && LocalMap(session.local, q) == LocalMap(s.local, q))
  {
    var entries := SharedMap(c.maps, kind);
    if CachedAnswer(c, s, kind, k).Some? && k !in LocalMap(s.local, kind) {
      RefreshMoves(entries, k);
      RefreshMembers(entries, k);
      FindIsMember(entries, k);
      FindIsMember(Refresh(entries, k), k);
    }
    hide Find, Refresh, Hashed, Allowed;
  }
}
