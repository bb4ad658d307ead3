/** The block database as an object: its operations build a transaction step by step, then commit it. */
module BlockDbObject {
  import opened Common
  import opened BlockTree
  import opened DbKeys
  import opened Leaves
  import opened BlockDb
  import opened BlockDbHeads
  import opened BlockDbImport
  import opened BlockDbFinality
  import opened BlockDbPruning
  import opened BlockDbRuns

  /** A transaction continued by a result. */
  function Then(done: Transaction, rest: Result<Transaction, DbError>): Result<Transaction, DbError> {
    match rest
    case Ok(tx) => Ok(done + tx)
    case Err(e) => Err(e)
  }

  lemma ThenFromStart(rest: Result<Transaction, DbError>)
    ensures Then([], rest) == rest
  {
    if rest.Ok? { assert [] + rest.value == rest.value; }
  }

  /** Records under which a branch can be followed back from any known block. */
  ghost predicate Browsable(db: Db, tree: Tree) {
    WellFormed(tree) && HeadersStored(db, tree) && NO_HASH !in tree && GenesisUnparented(tree)
  }

  class Database {
    var db: Db
    var tree: Tree
    var meta: Meta
    const leaves: LeafSet
    const keepBlocks: Option<nat>

    ghost function View(): Backend
      reads this, leaves
    {
      Backend(db, tree, meta, leaves.storage, keepBlocks)
    }

    constructor (keepBlocks: Option<nat>)
      ensures View() == EmptyBackend(keepBlocks) && fresh(leaves)
    {
      this.keepBlocks := keepBlocks;
      db, tree, meta := EmptyDb(), map[], Meta(NO_HASH, 0, NO_HASH, 0);
      leaves := new LeafSet();
    }

    /** Applies a transaction to the columns. */
    method CommitTransaction(tx: Transaction)
      modifies `db
      ensures db == Commit(old(db), tx)
    {
      for i := 0 to |tx|
        invariant Commit(db, tx[i..]) == Commit(old(db), tx)
      {
        assert tx[i..][1..] == tx[i + 1..];
        db := ApplyChange(db, tx[i]);
      }
    }

    method SetHeadWithTransaction(transaction: Transaction, routeTo: Hash, number: nat, hash: Hash)
      returns (result: Result<Transaction, DbError>)
      requires WellFormed(tree)
      ensures result == Then(transaction, SetHeadTx(View(), routeTo, number, hash))
    {
      var tx := transaction;
      if meta.bestHash != NO_HASH {
        var route := TreeRoute(tree, meta.bestHash, routeTo);
        if route.Err? {
          return Err(BlockNotFound);
        }
        RouteBlocksKnown(tree, meta.bestHash, routeTo);
        var retracted, enacted := route.value.retracted, route.value.enacted;
        var retractTx := RemoveMappings(retracted);
        if retractTx.Err? {
          return Err(retractTx.error);
        }
        var enactTx := InsertMappings(enacted);
        if enactTx.Err? {
          return Err(enactTx.error);
        }
        tx := tx + retractTx.value + enactTx.value;
        assert tx == transaction + RouteTx(View(), routeTo).value;
      } else {
        assert tx == transaction + [];
      }
      var key := LookupKey(number, hash);
      if key.Err? {
        return Err(BlockNumberTooLarge);
      }
      var mapping := NumberMapping(number, hash);
      ghost var routeTx := RouteTx(View(), routeTo).value;
      assert tx + [SetBest(key.value)] + mapping.value == transaction + (routeTx + [SetBest(key.value)] + mapping.value);
      return Ok(tx + [SetBest(key.value)] + mapping.value);
    }

    method RemoveMappings(blocks: seq<Hash>) returns (result: Result<Transaction, DbError>)
      requires forall h :: h in blocks ==> h in tree
      ensures result == RetractTx(tree, blocks, meta.finalizedHash)
    {
      var tx: Transaction := [];
      assert blocks[0..] == blocks;
      ThenFromStart(RetractTx(tree, blocks, meta.finalizedHash));
      for i := 0 to |blocks|
        invariant Then(tx, RetractTx(tree, blocks[i..], meta.finalizedHash)) == RetractTx(tree, blocks, meta.finalizedHash)
      {
        assert blocks[i..][1..] == blocks[i + 1..];
        if blocks[i] == meta.finalizedHash {
          return Err(NotInFinalizedChain);
        }
        var key := NumberIndexKey(tree[blocks[i]].number);
        if key.Err? {
          return Err(BlockNumberTooLarge);
        }
        ghost var rest := RetractTx(tree, blocks[i + 1..], meta.finalizedHash);
        assert rest.Ok? ==> tx + ([RemoveLookup(key.value)] + rest.value) == tx + [RemoveLookup(key.value)] + rest.value;
        tx := tx + [RemoveLookup(key.value)];
      }
      assert tx + [] == tx;
      return Ok(tx);
    }

    method InsertMappings(blocks: seq<Hash>) returns (result: Result<Transaction, DbError>)
      requires forall h :: h in blocks ==> h in tree
      ensures result == EnactTx(tree, blocks)
    {
      var tx: Transaction := [];
      assert blocks[0..] == blocks;
      ThenFromStart(EnactTx(tree, blocks));
      for i := 0 to |blocks|
        invariant Then(tx, EnactTx(tree, blocks[i..])) == EnactTx(tree, blocks)
      {
        assert blocks[i..][1..] == blocks[i + 1..];
        var mapping := NumberMapping(tree[blocks[i]].number, blocks[i]);
        if mapping.Err? {
          return Err(BlockNumberTooLarge);
        }
        ghost var rest := EnactTx(tree, blocks[i + 1..]);
        assert rest.Ok? ==> tx + (mapping.value + rest.value) == tx + mapping.value + rest.value;
        tx := tx + mapping.value;
      }
      assert tx + [] == tx;
      return Ok(tx);
    }

    method UpdateMeta(hash: Hash, number: nat, isBest: bool, isFinalized: bool)
      modifies `meta
      ensures meta == BlockDb.UpdateMeta(old(meta), hash, number, isBest, isFinalized)
    {
      if number == 0 {
        meta := meta.(finalizedHash := hash);
      }
      if isBest {
        meta := meta.(bestNumber := number, bestHash := hash);
      }
      if isFinalized {
        meta := meta.(finalizedNumber := number, finalizedHash := hash);
      }
    }

    /** An operation that moves the head to a known block. */
    method SetHead(h: Hash) returns (error: Option<DbError>)
      requires WellFormed(tree)
      modifies this
      ensures (View(), error) == BlockDb.SetHead(old(View()), h)
    {
      var found := ReadHeader(db, ByHash(h));
      if found.Err? {
        return Some(found.error);
      }
      if found.value.None? {
        return Some(BlockNotFound);
      }
      var header := found.value.value;
      var tx := SetHeadWithTransaction([], header.hash, header.number, header.hash);
      ThenFromStart(SetHeadTx(View(), header.hash, header.number, header.hash));
      if tx.Err? {
        return Some(tx.error);
      }
      CommitTransaction(tx.value);
      UpdateMeta(header.hash, header.number, true, false);
      return None;
    }

    /** An operation that imports a block. */
    method Import(header: Stored, body: Option<Body>, isBest: bool) returns (error: Option<DbError>)
      requires WellFormed(tree)
      modifies this, leaves
      ensures (View(), error) == BlockDb.Import(old(View()), header, body, isBest)
    {
      var key := LookupKey(header.number, header.hash);
      if key.Err? {
        return Some(BlockNumberTooLarge);
      }
      var tx: Transaction := [];
      if isBest {
        var head := SetHeadWithTransaction(tx, header.parent, header.number, header.hash);
        ThenFromStart(SetHeadTx(View(), header.parent, header.number, header.hash));
        if head.Err? {
          return Some(head.error);
        }
        tx := head.value;
      }
      var record := [SetLookup(header.hash, key.value), SetHeader(key.value, header)];
      if body.Some? {
        record := record + [SetBody(key.value, body.value)];
      } else {
        assert record + [] == record;
      }
      CommitTransaction(tx + record);
      var _ := leaves.Import(header.hash, header.number, header.parent);
      tree := tree[header.hash := Header(header.parent, header.number)];
      UpdateMeta(header.hash, header.number, isBest, false);
      return None;
    }

    /** The import of genesis into an empty database: best and finalized at once. */
    method ImportGenesis(hash: Hash, body: Option<Body>)
      requires WellFormed(tree) && meta.bestHash == NO_HASH
      modifies this, leaves
      ensures View() == BlockDbRuns.ImportGenesis(old(View()), hash, body)
    {
      hide NumberBytes, Commit;
      var head := SetHeadWithTransaction([], NO_HASH, 0, hash);
      ThenFromStart(SetHeadTx(View(), NO_HASH, 0, hash));
      var key := NumberBytes(0) + hash;
      var header := Stored(hash, NO_HASH, 0);
      CommitTransaction(head.value + BlockRecord(header, key, body) + [SetFinal(key)]);
      var _ := leaves.Import(hash, 0, NO_HASH);
      tree := tree[hash := Header(NO_HASH, 0)];
      UpdateMeta(hash, 0, true, true);
    }

    method PruneBlock(transaction: Transaction, id: BlockId) returns (tx: Transaction)
      ensures tx == transaction + PruneBlockTx(db, id)
    {
      tx := transaction;
      var key := LookupBlock(db, id);
      if key.Ok? && key.value.Some? && key.value.value in db.bodies {
        tx := tx + [RemoveBody(key.value.value)];
      } else {
        assert tx == tx + [];
      }
    }

    /** Follows one displaced branch back to the canonical chain, removing bodies. */
    method PruneBranch(transaction: Transaction, finalized: nat, leaf: Hash) returns (tx: Transaction)
      requires Browsable(db, tree) && leaf in tree
      ensures tx == transaction + PruneAllTx(db, WalkBack(db, tree, finalized, leaf))
    {
      hide NumberBytes, CanonicalHash, WalkBack, HeadersStored, WellFormed, PruneAllTx, PruneBlockTx, ReadHeader;
      ghost var walk := WalkBack(db, tree, finalized, leaf);
      ghost var seen: seq<Hash> := [];
      var number: nat, hash := finalized, leaf;
      HashLength(db, tree, leaf);
      PruneNothing(db);
      tx := transaction;
      assert tx == transaction + [];
      assert walk == seen + walk;
      while CanonicalHash(db, number) != Ok(Some(hash))
        invariant tx == transaction + PruneAllTx(db, seen)
        invariant if hash in tree then walk == seen + WalkBack(db, tree, number, hash) else walk == seen
        invariant |hash| == HASH_LENGTH
        decreases if hash in tree then tree[hash].number + 1 else 0
      {
        HeaderFound(db, tree, hash);
        var found := ReadHeader(db, ByHash(hash)).value;
        if found.None? {
          return;
        }
        PruneAllAppend(db, seen, hash);
        tx := PruneBlock(tx, ByHash(hash));
        WalkOnce(db, tree, number, hash);
        seen := seen + [hash];
        number := if found.value.number == 0 then 0 else found.value.number - 1;
        hash := found.value.parent;
      }
      WalkEnds(db, tree, number, hash);
      assert seen + [] == seen;
    }

    method PruneBlocks(transaction: Transaction, finalized: nat, displaced: seq<Hash>) returns (tx: Transaction)
      requires Browsable(db, tree) && forall h :: h in displaced ==> h in tree
      ensures tx == transaction + PruneTx(db, tree, keepBlocks, finalized, displaced)
    {
      hide WellFormed, HeadersStored, WalkBack, PruneAllTx, PruneBlockTx;
      tx := transaction;
      if keepBlocks.None? {
        assert tx == tx + [];
        return;
      }
      var keep := Max(keepBlocks.value, 1);
      if finalized >= keep {
        tx := PruneBlock(tx, ByNumber(finalized - keep));
      }
      ghost var start := tx;
      assert displaced[0..] == displaced;
      for i := 0 to |displaced|
        invariant tx + WalkAllTx(db, tree, finalized, displaced[i..]) == start + WalkAllTx(db, tree, finalized, displaced)
      {
        assert displaced[i..][1..] == displaced[i + 1..];
        ghost var rest := WalkAllTx(db, tree, finalized, displaced[i + 1..]);
        ghost var branch := PruneAllTx(db, WalkBack(db, tree, finalized, displaced[i]));
        assert tx + (branch + rest) == tx + branch + rest;
        tx := PruneBranch(tx, finalized, displaced[i]);
      }
      assert tx + [] == tx;
    }

    /** Adds the record of a newly finalized block to the transaction; displaces leaves at once. */
    method NoteFinalized(transaction: Transaction, h: Hash) returns (tx: Transaction)
      requires Browsable(db, tree) && LeavesKnown(tree, leaves.storage) && h in tree
      modifies leaves
      ensures tx == transaction + NoteTx(db, tree, keepBlocks, old(leaves.storage), h)
      ensures leaves.storage == KeepFrom(old(leaves.storage), tree[h].number)
    {
      var n := tree[h].number;
      assert Recorded(db, tree, h);
      DisplacedKnown(tree, leaves.storage, n);
      tx := transaction + [SetFinal(NumberBytes(n) + h)];
      var displaced := leaves.FinalizeHeight(n);
      tx := PruneBlocks(tx, n, Flatten(displaced, n));
    }

    /** An operation that finalizes blocks, in order; head records change only once all are accepted. */
    method FinalizeBlocks(hs: seq<Hash>) returns (error: Option<DbError>)
      requires Browsable(db, tree) && LeavesKnown(tree, leaves.storage)
      requires forall i :: 0 <= i < |hs| ==> |hs[i]| == HASH_LENGTH
      modifies this, leaves
      ensures (View(), error) == FinalizeBatch(old(View()), hs, old(leaves.storage), old(meta), [])
    {
      hide HeadersStored, WellFormed, LeavesKnown, NoteTx, ReadHeader, GenesisUnparented;
      ghost var b := View();
      var tx: Transaction := [];
      var updates: seq<(Hash, nat)> := [];
      var lastFinalized := meta.finalizedHash;
      assert hs[0..] == hs;
      for i := 0 to |hs|
        invariant db == b.db && tree == b.tree && meta == b.meta
        invariant LeavesKnown(tree, leaves.storage)
        invariant lastFinalized == Finalizations(meta, updates).finalizedHash
        invariant FinalizeBatch(b, hs[i..], leaves.storage, Finalizations(meta, updates), tx)
                  == FinalizeBatch(b, hs, b.leaves, b.meta, [])
      {
        assert hs[i..][1..] == hs[i + 1..];
        HeaderFound(db, tree, hs[i]);
        var found := ReadHeader(db, ByHash(hs[i])).value;
        if found.None? {
          return Some(BlockNotFound);
        }
        if found.value.parent != lastFinalized {
          return Some(NonSequentialFinalization);
        }
        KeptKnown(tree, leaves.storage, found.value.number);
        FinalizationsAppend(meta, updates, hs[i], found.value.number);
        tx := NoteFinalized(tx, hs[i]);
        updates := updates + [(hs[i], found.value.number)];
        lastFinalized := hs[i];
      }
      CommitTransaction(tx);
      ghost var goal, kept := Finalizations(meta, updates), leaves.storage;
      assert updates[0..] == updates;
      for j := 0 to |updates|
        invariant db == Commit(b.db, tx) && tree == b.tree && leaves.storage == kept
        invariant Finalizations(meta, updates[j..]) == goal
      {
        assert updates[j..][1..] == updates[j + 1..];
        UpdateMeta(updates[j].0, updates[j].1, false, true);
      }
      return None;
    }
  }

  /** The head records after the finality updates of an operation. */
  function Finalizations(meta: Meta, updates: seq<(Hash, nat)>): Meta
    decreases |updates|
  {
    if updates == [] then meta
    else Finalizations(BlockDb.UpdateMeta(meta, updates[0].0, updates[0].1, false, true), updates[1..])
  }

  lemma {:induction false} FinalizationsAppend(meta: Meta, updates: seq<(Hash, nat)>, h: Hash, n: nat)
    ensures Finalizations(meta, updates + [(h, n)]) == BlockDb.UpdateMeta(Finalizations(meta, updates), h, n, false, true)
    decreases |updates|
  {
    if updates == [] {
      var one := [(h, n)];
      assert updates + one == one && one[1..] == [];
    } else {
      assert (updates + [(h, n)])[1..] == updates[1..] + [(h, n)];
      FinalizationsAppend(BlockDb.UpdateMeta(meta, updates[0].0, updates[0].1, false, true), updates[1..], h, n);
    }
  }

  lemma {:induction false} PruneAllAppend(db: Db, blocks: seq<Hash>, h: Hash)
    ensures PruneAllTx(db, blocks + [h]) == PruneAllTx(db, blocks) + PruneBlockTx(db, ByHash(h))
  {
    if blocks == [] {
      var one := [h];
      assert blocks + one == one && one[1..] == [];
      assert PruneBlockTx(db, ByHash(h)) + [] == [] + PruneBlockTx(db, ByHash(h));
    } else {
      assert (blocks + [h])[1..] == blocks[1..] + [h];
      PruneAllAppend(db, blocks[1..], h);
    }
  }

  lemma PruneNothing(db: Db)
    ensures PruneAllTx(db, []) == []
  {
  }

  lemma HashLength(db: Db, tree: Tree, h: Hash)
    requires HeadersStored(db, tree) && h in tree
    ensures |h| == HASH_LENGTH
  {
    assert Recorded(db, tree, h);
  }

  lemma WalkEnds(db: Db, tree: Tree, number: nat, h: Hash)
    requires Browsable(db, tree) && CanonicalHash(db, number) == Ok(Some(h))
    ensures h in tree ==> WalkBack(db, tree, number, h) == []
  {
    hide CanonicalHash;
  }

  /** One turn of the walk: the block is passed, and the walk goes on from its parent if it has one. */
  lemma WalkOnce(db: Db, tree: Tree, number: nat, h: Hash)
    requires Browsable(db, tree) && h in tree && CanonicalHash(db, number) != Ok(Some(h))
    ensures var rest := WalkBack(db, tree, number, h);
            var parent := tree[h].parent;
            && |parent| == HASH_LENGTH
            && (tree[h].number == 0 <==> parent !in tree)
            && (tree[h].number == 0 ==> rest == [h])
            && (tree[h].number > 0 ==> tree[parent].number == tree[h].number - 1
                                       && rest == [h] + WalkBack(db, tree, tree[h].number - 1, parent))
  {
    hide NumberBytes, CanonicalHash;
    assert Linked(tree, h);
    if tree[h].number > 0 {
      assert Recorded(db, tree, tree[h].parent);
    }
  }
}
