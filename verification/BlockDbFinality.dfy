/** Finalizing blocks: the finalized chain, displaced leaves and pruned bodies. */
module BlockDbFinality {
  import opened Common
  import opened BlockTree
  import opened DbKeys
  import opened Leaves
  import opened BlockDb
  import opened BlockDbHeads

  // ---- Pruning -----------------------------------------------------------

  function PruneBlockTx(db: Db, id: BlockId): Transaction {
    match LookupBlock(db, id)
    case Ok(Some(key)) => if key in db.bodies then [RemoveBody(key)] else []
    case _ => []
  }

  /**
   * The blocks met when a displaced branch is followed back, starting with `h` and comparing it
   * with the canonical block at height `number`, until the canonical chain is reached.
   */
  ghost function WalkBack(db: Db, tree: Tree, number: nat, h: Hash): seq<Hash>
    requires WellFormed(tree) && HeadersStored(db, tree) && h in tree
    decreases tree[h].number
  {
    if CanonicalHash(db, number) == Ok(Some(h)) then []
    else if tree[h].number == 0 then [h]
    else [h] + WalkBack(db, tree, tree[h].number - 1, Parent(tree, h))
  }

  function PruneAllTx(db: Db, blocks: seq<Hash>): Transaction {
    if blocks == [] then [] else PruneBlockTx(db, ByHash(blocks[0])) + PruneAllTx(db, blocks[1..])
  }

  ghost function WalkAllTx(db: Db, tree: Tree, finalized: nat, leaves: seq<Hash>): Transaction
    requires WellFormed(tree) && HeadersStored(db, tree) && forall h :: h in leaves ==> h in tree
  {
    if leaves == [] then []
    else PruneAllTx(db, WalkBack(db, tree, finalized, leaves[0])) + WalkAllTx(db, tree, finalized, leaves[1..])
  }

  function KeptCount(keepBlocks: Option<nat>): nat
    requires keepBlocks.Some?
  {
    Max(keepBlocks.value, 1)
  }

  ghost function PruneTx(db: Db, tree: Tree, keepBlocks: Option<nat>, finalized: nat, displaced: seq<Hash>): Transaction
    requires WellFormed(tree) && HeadersStored(db, tree) && forall h :: h in displaced ==> h in tree
  {
    if keepBlocks.None? then [] else
    var keep := KeptCount(keepBlocks);
    (if finalized >= keep then PruneBlockTx(db, ByNumber(finalized - keep)) else [])
    + WalkAllTx(db, tree, finalized, displaced)
  }

  /** Every hash held by the leaf set is known. */
  ghost predicate LeavesKnown(tree: Tree, leaves: Buckets) {
    forall n: nat, h :: Contains(leaves, n, h) ==> h in tree
  }

  lemma DisplacedKnown(tree: Tree, leaves: Buckets, n: nat)
    requires LeavesKnown(tree, leaves)
    ensures forall h :: h in Flatten(Displaced(leaves, n), n) ==> h in tree
  {
    forall h | h in Flatten(Displaced(leaves, n), n) ensures h in tree {
      FlattenMembers(Displaced(leaves, n), n, h);
      var k: nat :| k < n && Contains(Displaced(leaves, n), k, h);
      assert Contains(leaves, k, h);
    }
  }

  lemma KeptKnown(tree: Tree, leaves: Buckets, n: nat)
    requires LeavesKnown(tree, leaves)
    ensures LeavesKnown(tree, KeepFrom(leaves, n))
  {
    forall k: nat, h | Contains(KeepFrom(leaves, n), k, h) ensures h in tree { assert Contains(leaves, k, h); }
  }

  /** What `note_finalized` adds to a transaction. */
  ghost function NoteTx(db: Db, tree: Tree, keepBlocks: Option<nat>, leaves: Buckets, h: Hash): Transaction
    requires WellFormed(tree) && HeadersStored(db, tree) && LeavesKnown(tree, leaves) && h in tree
  {
    var n := tree[h].number;
    assert Recorded(db, tree, h);
    DisplacedKnown(tree, leaves, n);
    [SetFinal(NumberBytes(n) + h)] + PruneTx(db, tree, keepBlocks, n, Flatten(Displaced(leaves, n), n))
  }

  // ---- Finalizing --------------------------------------------------------

  /** `finalize_block`: one block, on top of the last finalized one. */
  ghost function FinalizeBlock(b: Backend, h: Hash): (Backend, Option<DbError>)
    requires WellFormed(b.tree) && HeadersStored(b.db, b.tree) && LeavesKnown(b.tree, b.leaves) && |h| == HASH_LENGTH
  {
    HeaderFound(b.db, b.tree, h);
    match ReadHeader(b.db, ByHash(h))
    case Err(e) => (b, Some(e))
    case Ok(None) => (b, Some(BlockNotFound))
    case Ok(Some(header)) =>
      if header.parent != b.meta.finalizedHash then (b, Some(NonSequentialFinalization)) else
      (b.(db := Commit(b.db, NoteTx(b.db, b.tree, b.keepBlocks, b.leaves, h)),
          leaves := KeepFrom(b.leaves, header.number),
          meta := UpdateMeta(b.meta, h, header.number, false, true)), None)
  }

  /**
   * The finalizations of one import operation. The transaction grows block by block and is only
   * committed at the end, but the leaf set in memory changes at once: `leaves` and `meta` are
   * those reached so far, `tx` the transaction so far.
   */
  ghost function FinalizeBatch(b: Backend, hs: seq<Hash>, leaves: Buckets, meta: Meta, tx: Transaction): (Backend, Option<DbError>)
    requires WellFormed(b.tree) && HeadersStored(b.db, b.tree) && LeavesKnown(b.tree, leaves)
    requires forall i :: 0 <= i < |hs| ==> |hs[i]| == HASH_LENGTH
    decreases |hs|
  {
    if hs == [] then (b.(db := Commit(b.db, tx), leaves := leaves, meta := meta), None) else
    HeaderFound(b.db, b.tree, hs[0]);
    match ReadHeader(b.db, ByHash(hs[0]))
    case Err(e) => (b.(leaves := leaves), Some(e))
    case Ok(None) => (b.(leaves := leaves), Some(BlockNotFound))
    case Ok(Some(header)) =>
      if header.parent != meta.finalizedHash then (b.(leaves := leaves), Some(NonSequentialFinalization)) else
      KeptKnown(b.tree, leaves, header.number);
      FinalizeBatch(b, hs[1..], KeepFrom(leaves, header.number), UpdateMeta(meta, hs[0], header.number, false, true),
                    tx + NoteTx(b.db, b.tree, b.keepBlocks, leaves, hs[0]))
  }

  ghost function FinalizeEach(b: Backend, hs: seq<Hash>): (Backend, Option<DbError>)
    requires WellFormed(b.tree) && HeadersStored(b.db, b.tree) && LeavesKnown(b.tree, b.leaves)
    requires forall i :: 0 <= i < |hs| ==> |hs[i]| == HASH_LENGTH
    decreases |hs|
  {
    if hs == [] then (b, None) else
    var (b', error) := FinalizeBlock(b, hs[0]);
    FinalizeKeepsRecords(b, hs[0]);
    if error.Some? then (b', error) else FinalizeEach(b', hs[1..])
  }

  // ---- Transactions that only finalize and prune -------------------------

  predicate OnlyPrunes(tx: Transaction) {
    forall i :: 0 <= i < |tx| ==> tx[i].SetFinal? || tx[i].RemoveBody?
  }

  function RemovedKeys(tx: Transaction): set<Bytes> {
    set c | c in tx && c.RemoveBody? :: c.key
  }

  function LastFinal(tx: Transaction, before: Option<Bytes>): Option<Bytes>
    decreases |tx|
  {
    if tx == [] then before else LastFinal(tx[1..], if tx[0].SetFinal? then Some(tx[0].key) else before)
  }

  lemma {:induction false} PruneEffect(db: Db, tx: Transaction)
    requires OnlyPrunes(tx)
    ensures Commit(db, tx) == db.(bodies := db.bodies - RemovedKeys(tx), finalKey := LastFinal(tx, db.finalKey))
    decreases |tx|
  {
    if tx == [] {
      assert RemovedKeys(tx) == {};
      assert db.bodies - {} == db.bodies;
    } else {
      PruneEffect(ApplyChange(db, tx[0]), tx[1..]);
      assert tx == [tx[0]] + tx[1..];
      assert RemovedKeys(tx) == RemovedKeys(tx[1..]) + if tx[0].RemoveBody? then {tx[0].key} else {};
    }
  }

  lemma RemovedNothing()
    ensures RemovedKeys([]) == {}
  {
  }

  lemma RemovedConcat(a: Transaction, b: Transaction)
    ensures RemovedKeys(a + b) == RemovedKeys(a) + RemovedKeys(b)
  {
  }

  lemma {:induction false} NoFinal(tx: Transaction, before: Option<Bytes>)
    requires forall i :: 0 <= i < |tx| ==> tx[i].RemoveBody?
    ensures LastFinal(tx, before) == before
    decreases |tx|
  {
    if tx != [] { NoFinal(tx[1..], before); }
  }

  predicate OnlyRemovesBodies(tx: Transaction) {
    forall i :: 0 <= i < |tx| ==> tx[i].RemoveBody?
  }

  lemma {:induction false} PruneAllOnlyRemoves(db: Db, blocks: seq<Hash>)
    ensures OnlyRemovesBodies(PruneAllTx(db, blocks))
  {
    if blocks != [] { PruneAllOnlyRemoves(db, blocks[1..]); }
  }

  lemma {:induction false} WalkAllOnlyRemoves(db: Db, tree: Tree, finalized: nat, leaves: seq<Hash>)
    requires WellFormed(tree) && HeadersStored(db, tree) && forall h :: h in leaves ==> h in tree
    ensures OnlyRemovesBodies(WalkAllTx(db, tree, finalized, leaves))
  {
    if leaves != [] {
      PruneAllOnlyRemoves(db, WalkBack(db, tree, finalized, leaves[0]));
      WalkAllOnlyRemoves(db, tree, finalized, leaves[1..]);
    }
  }

  /** `note_finalized` records the block as finalized and removes bodies; nothing else. */
  lemma NoteEffect(db: Db, target: Db, tree: Tree, keepBlocks: Option<nat>, leaves: Buckets, h: Hash)
    requires WellFormed(tree) && HeadersStored(db, tree) && LeavesKnown(tree, leaves) && h in tree
    ensures var tx := NoteTx(db, tree, keepBlocks, leaves, h);
            && OnlyPrunes(tx)
            && tree[h].number < U32_RANGE
            && Commit(target, tx) == target.(bodies := target.bodies - RemovedKeys(tx),
                                             finalKey := Some(NumberBytes(tree[h].number) + h))
  {
    assert Recorded(db, tree, h);
    var n := tree[h].number;
    DisplacedKnown(tree, leaves, n);
    var displaced := Flatten(Displaced(leaves, n), n);
    WalkAllOnlyRemoves(db, tree, n, displaced);
    var prune := PruneTx(db, tree, keepBlocks, n, displaced);
    assert OnlyRemovesBodies(prune);
    var tx := NoteTx(db, tree, keepBlocks, leaves, h);
    assert tx[1..] == prune;
    NoFinal(prune, Some(NumberBytes(n) + h));
    PruneEffect(target, tx);
  }

  lemma FinalizeKeepsRecords(b: Backend, h: Hash)
    requires WellFormed(b.tree) && HeadersStored(b.db, b.tree) && LeavesKnown(b.tree, b.leaves) && |h| == HASH_LENGTH
    ensures var b' := FinalizeBlock(b, h).0;
            && b'.tree == b.tree && HeadersStored(b'.db, b'.tree) && LeavesKnown(b'.tree, b'.leaves)
            && b'.keepBlocks == b.keepBlocks && b'.db.lookup == b.db.lookup && b'.db.headers == b.db.headers
            && b'.db.bestKey == b.db.bestKey
  {
    HeaderFound(b.db, b.tree, h);
    var (b', error) := FinalizeBlock(b, h);
    if error.None? {
      NoteEffect(b.db, b.db, b.tree, b.keepBlocks, b.leaves, h);
      HeadersKept(b.db, b'.db, b.tree);
      KeptKnown(b.tree, b.leaves, b.tree[h].number);
    }
  }

  // ---- A batch is the same as one block at a time -------------------------

  /** Two databases that agree on everything but bodies and the finalized record. */
  ghost predicate SameRecords(a: Db, b: Db) {
    a.lookup == b.lookup && a.headers == b.headers
  }

  lemma {:induction false} SameWalk(a: Db, b: Db, tree: Tree, number: nat, h: Hash)
    requires WellFormed(tree) && HeadersStored(a, tree) && HeadersStored(b, tree) && h in tree && SameRecords(a, b)
    ensures WalkBack(a, tree, number, h) == WalkBack(b, tree, number, h)
    decreases tree[h].number
  {
    hide NumberBytes;
    if tree[h].number > 0 {
      SameWalk(a, b, tree, tree[h].number - 1, Parent(tree, h));
    }
  }

  lemma {:induction false} SamePruneAll(a: Db, b: Db, blocks: seq<Hash>, gone: set<Bytes>)
    requires SameRecords(a, b) && b.bodies == a.bodies - gone
    ensures RemovedKeys(PruneAllTx(b, blocks)) == RemovedKeys(PruneAllTx(a, blocks)) - gone
  {
    if blocks != [] {
      SamePruneAll(a, b, blocks[1..], gone);
      RemovedConcat(PruneBlockTx(a, ByHash(blocks[0])), PruneAllTx(a, blocks[1..]));
      RemovedConcat(PruneBlockTx(b, ByHash(blocks[0])), PruneAllTx(b, blocks[1..]));
      SamePruneOne(a, b, ByHash(blocks[0]), gone);
    }
  }

  lemma SamePruneOne(a: Db, b: Db, id: BlockId, gone: set<Bytes>)
    requires SameRecords(a, b) && b.bodies == a.bodies - gone
    ensures RemovedKeys(PruneBlockTx(b, id)) == RemovedKeys(PruneBlockTx(a, id)) - gone
  {
  }

  lemma {:induction false} SameWalkAll(a: Db, b: Db, tree: Tree, finalized: nat, leaves: seq<Hash>, gone: set<Bytes>)
    requires WellFormed(tree) && HeadersStored(a, tree) && HeadersStored(b, tree) && forall h :: h in leaves ==> h in tree
    requires SameRecords(a, b) && b.bodies == a.bodies - gone
    ensures RemovedKeys(WalkAllTx(b, tree, finalized, leaves)) == RemovedKeys(WalkAllTx(a, tree, finalized, leaves)) - gone
  {
    hide NumberBytes;
    if leaves != [] {
      SameWalkAll(a, b, tree, finalized, leaves[1..], gone);
      SameWalk(a, b, tree, finalized, leaves[0]);
      var walk := WalkBack(a, tree, finalized, leaves[0]);
      SamePruneAll(a, b, walk, gone);
      RemovedConcat(PruneAllTx(a, walk), WalkAllTx(a, tree, finalized, leaves[1..]));
      RemovedConcat(PruneAllTx(b, walk), WalkAllTx(b, tree, finalized, leaves[1..]));
    }
  }

  lemma SamePrune(a: Db, b: Db, tree: Tree, keepBlocks: Option<nat>, n: nat, displaced: seq<Hash>, gone: set<Bytes>)
    requires WellFormed(tree) && HeadersStored(a, tree) && HeadersStored(b, tree) && forall h :: h in displaced ==> h in tree
    requires SameRecords(a, b) && b.bodies == a.bodies - gone
    ensures RemovedKeys(PruneTx(b, tree, keepBlocks, n, displaced)) == RemovedKeys(PruneTx(a, tree, keepBlocks, n, displaced)) - gone
  {
    hide WellFormed, HeadersStored, WalkAllTx, PruneBlockTx, RemovedKeys, SameRecords;
    RemovedNothing();
    if keepBlocks.Some? {
      var keep := KeptCount(keepBlocks);
      SameWalkAll(a, b, tree, n, displaced, gone);
      if n >= keep {
        SamePruneOne(a, b, ByNumber(n - keep), gone);
        SameConcat(PruneBlockTx(a, ByNumber(n - keep)), WalkAllTx(a, tree, n, displaced),
                   PruneBlockTx(b, ByNumber(n - keep)), WalkAllTx(b, tree, n, displaced), gone);
      } else {
        SameConcat([], WalkAllTx(a, tree, n, displaced), [], WalkAllTx(b, tree, n, displaced), gone);
      }
    }
  }

  lemma SameConcat(a: Transaction, a': Transaction, b: Transaction, b': Transaction, gone: set<Bytes>)
    requires RemovedKeys(b) == RemovedKeys(a) - gone && RemovedKeys(b') == RemovedKeys(a') - gone
    ensures RemovedKeys(b + b') == RemovedKeys(a + a') - gone
  {
    RemovedConcat(a, a');
    RemovedConcat(b, b');
    hide RemovedKeys;
  }

  lemma SameNote(a: Db, b: Db, tree: Tree, keepBlocks: Option<nat>, leaves: Buckets, h: Hash, gone: set<Bytes>)
    requires WellFormed(tree) && HeadersStored(a, tree) && HeadersStored(b, tree) && LeavesKnown(tree, leaves) && h in tree
    requires SameRecords(a, b) && b.bodies == a.bodies - gone
    ensures RemovedKeys(NoteTx(b, tree, keepBlocks, leaves, h)) == RemovedKeys(NoteTx(a, tree, keepBlocks, leaves, h)) - gone
  {
    hide NumberBytes;
    assert Recorded(a, tree, h);
    var n := tree[h].number;
    var displaced := Flatten(Displaced(leaves, n), n);
    DisplacedKnown(tree, leaves, n);
    SamePrune(a, b, tree, keepBlocks, n, displaced, gone);
    var head := [SetFinal(NumberBytes(n) + h)];
    assert RemovedKeys(head) == {};
    RemovedConcat(head, PruneTx(a, tree, keepBlocks, n, displaced));
    RemovedConcat(head, PruneTx(b, tree, keepBlocks, n, displaced));
    hide RemovedKeys, PruneTx, HeadersStored, LeavesKnown, Flatten;
  }

  /** The transaction built so far and the backend reached one block at a time describe the same database. */
  ghost predicate Tracks(b: Backend, cur: Backend, leaves: Buckets, meta: Meta, tx: Transaction) {
    && OnlyPrunes(tx)
    && cur == b.(db := Commit(b.db, tx), leaves := leaves, meta := meta)
    && WellFormed(b.tree) && HeadersStored(b.db, b.tree) && HeadersStored(cur.db, b.tree) && LeavesKnown(b.tree, leaves)
  }

  lemma TracksNext(b: Backend, cur: Backend, leaves: Buckets, meta: Meta, tx: Transaction, h: Hash)
    requires Tracks(b, cur, leaves, meta, tx) && h in b.tree && b.tree[h].parent == meta.finalizedHash && |h| == HASH_LENGTH
    ensures var n := b.tree[h].number;
            Tracks(b, FinalizeBlock(cur, h).0, KeepFrom(leaves, n), UpdateMeta(meta, h, n, false, true),
                   tx + NoteTx(b.db, b.tree, b.keepBlocks, leaves, h))
    ensures FinalizeBlock(cur, h).1 == None
  {
    hide NumberBytes;
    var noteB := NoteTx(b.db, b.tree, b.keepBlocks, leaves, h);
    var noteC := NoteTx(cur.db, b.tree, b.keepBlocks, leaves, h);
    PruneEffect(b.db, tx);
    var gone := RemovedKeys(tx);
    SameNote(b.db, cur.db, b.tree, b.keepBlocks, leaves, h, gone);
    NoteEffect(b.db, cur.db, b.tree, b.keepBlocks, leaves, h);
    NoteEffect(cur.db, cur.db, b.tree, b.keepBlocks, leaves, h);
    assert cur.db.bodies - RemovedKeys(noteC) == cur.db.bodies - RemovedKeys(noteB);
    CommitConcat(b.db, tx, noteB);
    HeaderFound(cur.db, b.tree, h);
    FinalizeKeepsRecords(cur, h);
    hide NoteTx, Commit, KeepFrom, HeadersStored, LeavesKnown;
  }

  /**
   * Finalizing several blocks in one operation. It fails where one-at-a-time finalization fails;
   * on success both end in the same state; on failure the database and the head records are
   * untouched, but the leaves already displaced in memory stay displaced.
   */
  lemma {:induction false} BatchIsOneByOne(b: Backend, cur: Backend, hs: seq<Hash>, leaves: Buckets, meta: Meta, tx: Transaction)
    requires Tracks(b, cur, leaves, meta, tx)
    requires forall i :: 0 <= i < |hs| ==> |hs[i]| == HASH_LENGTH
    ensures var (batch, error) := FinalizeBatch(b, hs, leaves, meta, tx);
            var (each, failed) := FinalizeEach(cur, hs);
            && error == failed
            && (error == None ==> batch == each)
            && (error != None ==> batch == b.(leaves := each.leaves))
    decreases |hs|
  {
    if hs != [] {
      var h := hs[0];
      HeaderFound(b.db, b.tree, h);
      HeaderFound(cur.db, b.tree, h);
      FinalizeKeepsRecords(cur, h);
      if h in b.tree && b.tree[h].parent == meta.finalizedHash {
        TracksNext(b, cur, leaves, meta, tx, h);
        KeptKnown(b.tree, leaves, b.tree[h].number);
        BatchIsOneByOne(b, FinalizeBlock(cur, h).0, hs[1..], KeepFrom(leaves, b.tree[h].number),
                        UpdateMeta(meta, h, b.tree[h].number, false, true),
                        tx + NoteTx(b.db, b.tree, b.keepBlocks, leaves, h));
      }
      hide NoteTx, Commit, KeepFrom, HeadersStored, LeavesKnown, FinalizeBlock;
    }
  }

  // ---- Displaced branches ------------------------------------------------

  /** Under a valid database the index answers with the best block's ancestors. */
  lemma CanonicalHashIs(b: Backend, n: nat)
    requires Valid(b) && n < U32_RANGE
    ensures CanonicalHash(b.db, n) ==
              Ok(if n <= b.meta.bestNumber then Some(Ancestor(b.tree, b.meta.bestHash, n)) else None)
  {
    if n <= b.meta.bestNumber {
      var a := Ancestor(b.tree, b.meta.bestHash, n);
      assert Indexed(b.db, n, a);
      assert Recorded(b.db, b.tree, a);
    } else {
      assert Unindexed(b.db, n);
    }
  }

  /** A block off the best chain has the same meeting point with it as its parent. */
  lemma SameMeeting(tree: Tree, h: Hash, best: Hash)
    requires WellFormed(tree) && h in tree && best in tree && tree[h].number > 0 && !OnChain(tree, h, best)
    ensures CommonHeight(tree, h, best) == CommonHeight(tree, Parent(tree, h), best)
    ensures CommonHeight(tree, h, best) < tree[h].number
  {
    var p := Parent(tree, h);
    var x, y := CommonHeight(tree, h, best), CommonHeight(tree, p, best);
    assert Ancestor(tree, h, tree[h].number) == h;
    assert Ancestor(tree, p, x) == Ancestor(tree, best, x);
    assert Ancestor(tree, h, y) == Ancestor(tree, best, y);
  }

  lemma WalkStops(b: Backend, h: Hash)
    requires Valid(b) && h in b.tree && OnChain(b.tree, h, b.meta.bestHash)
    ensures WalkBack(b.db, b.tree, b.tree[h].number, h) == []
  {
    hide NumberBytes;
    assert Recorded(b.db, b.tree, h);
    CanonicalHashIs(b, b.tree[h].number);
  }

  lemma WalkGoesOn(b: Backend, h: Hash)
    requires Valid(b) && h in b.tree && !OnChain(b.tree, h, b.meta.bestHash)
    ensures b.tree[h].number > 0
    ensures WalkBack(b.db, b.tree, b.tree[h].number, h) ==
              [h] + WalkBack(b.db, b.tree, b.tree[h].number - 1, Parent(b.tree, h))
  {
    hide Valid, WellFormed, HeadersStored, WalkBack, CanonicalHash, OnChain;
    ValidParts(b);
    GenesisIsShared(b.tree, h, b.meta.bestHash);
    NotCanonicalThere(b, h);
    WalkUnfolds(b.db, b.tree, b.tree[h].number, h);
  }

  lemma ValidParts(b: Backend)
    requires Valid(b)
    ensures WellFormed(b.tree) && HeadersStored(b.db, b.tree) && b.meta.bestHash in b.tree
    ensures b.tree[b.meta.bestHash].number == b.meta.bestNumber
  {
  }

  lemma WalkUnfolds(db: Db, tree: Tree, number: nat, h: Hash)
    requires WellFormed(tree) && HeadersStored(db, tree) && h in tree && tree[h].number > 0
    requires CanonicalHash(db, number) != Ok(Some(h))
    ensures WalkBack(db, tree, number, h) == [h] + WalkBack(db, tree, tree[h].number - 1, Parent(tree, h))
  {
    hide CanonicalHash, WellFormed, HeadersStored;
  }

  lemma NotCanonicalThere(b: Backend, h: Hash)
    requires Valid(b) && h in b.tree && !OnChain(b.tree, h, b.meta.bestHash)
    ensures CanonicalHash(b.db, b.tree[h].number) != Ok(Some(h))
  {
    hide NumberBytes;
    assert Recorded(b.db, b.tree, h);
    CanonicalHashIs(b, b.tree[h].number);
  }

  lemma RetractedOneStep(tree: Tree, h: Hash, best: Hash)
    requires WellFormed(tree) && h in tree && best in tree && tree[h].number > 0 && !OnChain(tree, h, best)
    ensures Retracted(tree, h, best) == [h] + Retracted(tree, Parent(tree, h), best)
  {
    SameMeeting(tree, h, best);
    hide CommonHeight;
  }

  /** Walking back from a block at its own height removes exactly its ancestors off the best chain. */
  lemma {:induction false} WalkFromBlock(b: Backend, h: Hash)
    requires Valid(b) && h in b.tree
    ensures WalkBack(b.db, b.tree, b.tree[h].number, h) == Retracted(b.tree, h, b.meta.bestHash)
    decreases b.tree[h].number
  {
    if OnChain(b.tree, h, b.meta.bestHash) {
      WalkStops(b, h);
      MeetsItself(b.tree, h, b.meta.bestHash);
    } else {
      WalkGoesOn(b, h);
      RetractedOneStep(b.tree, h, b.meta.bestHash);
      WalkFromBlock(b, Parent(b.tree, h));
    }
    hide WalkBack, Retracted, OnChain;
  }

  lemma MeetsItself(tree: Tree, h: Hash, best: Hash)
    requires WellFormed(tree) && h in tree && best in tree && OnChain(tree, h, best)
    ensures CommonHeight(tree, h, best) == tree[h].number
    ensures Retracted(tree, h, best) == []
  {
    assert Ancestor(tree, h, tree[h].number) == Ancestor(tree, best, tree[h].number);
  }

  lemma GenesisIsShared(tree: Tree, h: Hash, best: Hash)
    requires WellFormed(tree) && h in tree && best in tree
    ensures tree[h].number == 0 ==> OnChain(tree, h, best)
  {
    SameGenesis(tree, h, best);
  }

  /** A leaf below the finalized height is off the best chain, because the best chain goes on above it. */
  lemma LowLeafIsAside(b: Backend, h: Hash)
    requires Valid(b) && h in b.tree && Childless(b.tree, h) && b.tree[h].number < b.meta.bestNumber
    ensures !OnChain(b.tree, h, b.meta.bestHash)
  {
    if OnChain(b.tree, h, b.meta.bestHash) {
      var child := ChildOnChain(b.tree, h, b.meta.bestHash);
      assert false;
    }
  }

  lemma ChildOnChain(tree: Tree, h: Hash, best: Hash) returns (child: Hash)
    requires WellFormed(tree) && best in tree && OnChain(tree, h, best) && tree[h].number < tree[best].number
    ensures child in tree && tree[child].number > 0 && tree[child].parent == h
  {
    child := Ancestor(tree, best, tree[h].number + 1);
    AncestorOfAncestor(tree, best, tree[h].number + 1, tree[h].number);
    assert Parent(tree, child) == h;
  }

  /**
   * The walk over a displaced leaf: although it first compares the leaf with the finalized
   * height, it removes exactly the leaf and its ancestors that are not canonical.
   */
  lemma WalkFromLeaf(b: Backend, finalized: nat, h: Hash)
    requires Valid(b) && h in b.tree && Childless(b.tree, h)
    requires b.tree[h].number < finalized <= b.meta.bestNumber
    ensures WalkBack(b.db, b.tree, finalized, h) == Retracted(b.tree, h, b.meta.bestHash)
  {
    hide NumberBytes;
    LowLeafIsAside(b, h);
    CanonicalHashIs(b, finalized);
    var n := b.tree[h].number;
    assert Recorded(b.db, b.tree, h);
    CanonicalHashIs(b, n);
    WalkFromBlock(b, h);
    assert WalkBack(b.db, b.tree, finalized, h) == WalkBack(b.db, b.tree, n, h);
  }
}
