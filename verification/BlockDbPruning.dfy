/** What finalizing one block does: the finalized chain grows, and exactly the obsolete bodies go. */
module BlockDbPruning {
  import opened Common
  import opened BlockTree
  import opened DbKeys
  import opened Leaves
  import opened BlockDb
  import opened BlockDbHeads
  import opened BlockDbFinality

  function BodyKey(tree: Tree, h: Hash): Bytes
    requires h in tree && tree[h].number < U32_RANGE
  {
    NumberBytes(tree[h].number) + h
  }

  ghost predicate NumbersSmall(tree: Tree) {
    forall h :: h in tree ==> tree[h].number < U32_RANGE
  }

  lemma RecordsAreSmall(db: Db, tree: Tree)
    requires HeadersStored(db, tree)
    ensures NumbersSmall(tree)
  {
    forall h | h in tree ensures tree[h].number < U32_RANGE { assert Recorded(db, tree, h); }
  }

  lemma BodyKeyInjective(tree: Tree, x: Hash, y: Hash)
    requires NumbersSmall(tree) && x in tree && y in tree && BodyKey(tree, x) == BodyKey(tree, y)
    ensures x == y
  {
    KeysAreInjective(tree[x].number, x, tree[y].number, y);
  }

  // ---- Which keys a transaction removes ----------------------------------

  lemma {:induction false} PruneAllKeys(db: Db, tree: Tree, blocks: seq<Hash>, x: Hash)
    requires HeadersStored(db, tree) && NumbersSmall(tree) && x in tree && forall h :: h in blocks ==> h in tree
    ensures BodyKey(tree, x) in RemovedKeys(PruneAllTx(db, blocks)) <==> x in blocks && BodyKey(tree, x) in db.bodies
  {
    if blocks == [] {
      RemovedNothing();
    } else {
      PruneAllKeys(db, tree, blocks[1..], x);
      assert blocks == [blocks[0]] + blocks[1..];
      RemovedConcat(PruneBlockTx(db, ByHash(blocks[0])), PruneAllTx(db, blocks[1..]));
      PruneOneKey(db, tree, blocks[0], x);
      hide RemovedKeys, PruneBlockTx, HeadersStored, BodyKey;
    }
  }

  lemma PruneOneKey(db: Db, tree: Tree, h: Hash, x: Hash)
    requires HeadersStored(db, tree) && NumbersSmall(tree) && x in tree && h in tree
    ensures BodyKey(tree, x) in RemovedKeys(PruneBlockTx(db, ByHash(h))) <==> x == h && BodyKey(tree, x) in db.bodies
  {
    assert Recorded(db, tree, h);
    var key := BodyKey(tree, h);
    assert PruneBlockTx(db, ByHash(h)) == if key in db.bodies then [RemoveBody(key)] else [];
    SingleRemoval(key);
    RemovedNothing();
    if BodyKey(tree, x) == key { BodyKeyInjective(tree, x, h); }
    hide RemovedKeys;
  }

  lemma SingleRemoval(key: Bytes)
    ensures RemovedKeys([RemoveBody(key)]) == {key}
  {
    assert RemoveBody(key) in [RemoveBody(key)];
  }

  lemma {:induction false} WalkAllKeys(db: Db, tree: Tree, finalized: nat, leaves: seq<Hash>, x: Hash)
    requires WellFormed(tree) && HeadersStored(db, tree) && NumbersSmall(tree) && x in tree
    requires forall h :: h in leaves ==> h in tree
    ensures BodyKey(tree, x) in RemovedKeys(WalkAllTx(db, tree, finalized, leaves)) <==>
              BodyKey(tree, x) in db.bodies && exists l :: l in leaves && x in WalkBack(db, tree, finalized, l)
  {
    hide WellFormed, HeadersStored, WalkBack, RemovedKeys, BodyKey;
    if leaves == [] {
      RemovedNothing();
    } else {
      var l0 := leaves[0];
      WalkAllKeys(db, tree, finalized, leaves[1..], x);
      assert leaves == [l0] + leaves[1..];
      var walk := WalkBack(db, tree, finalized, l0);
      WalkStaysInTree(db, tree, finalized, l0);
      PruneAllKeys(db, tree, walk, x);
      RemovedConcat(PruneAllTx(db, walk), WalkAllTx(db, tree, finalized, leaves[1..]));
      if l :| l in leaves && x in WalkBack(db, tree, finalized, l) {
        assert l == l0 || l in leaves[1..];
      }
    }
  }

  lemma {:induction false} WalkStaysInTree(db: Db, tree: Tree, number: nat, h: Hash)
    requires WellFormed(tree) && HeadersStored(db, tree) && h in tree
    ensures forall x :: x in WalkBack(db, tree, number, h) ==> x in tree
    decreases tree[h].number
  {
    hide WellFormed, HeadersStored, CanonicalHash;
    if tree[h].number > 0 {
      WalkStaysInTree(db, tree, tree[h].number - 1, Parent(tree, h));
    }
  }

  /** The canonical block that leaves the window of kept bodies when height `f` is finalized. */
  lemma WindowKey(b: Backend, n: nat, x: Hash)
    requires Valid(b) && n <= b.meta.bestNumber && x in b.tree
    ensures NumbersSmall(b.tree)
    ensures BodyKey(b.tree, x) in RemovedKeys(PruneBlockTx(b.db, ByNumber(n))) <==>
              x == Ancestor(b.tree, b.meta.bestHash, n) && BodyKey(b.tree, x) in b.db.bodies
  {
    RecordsAreSmall(b.db, b.tree);
    var a := Ancestor(b.tree, b.meta.bestHash, n);
    assert Indexed(b.db, n, a);
    var key := BodyKey(b.tree, a);
    assert PruneBlockTx(b.db, ByNumber(n)) == if key in b.db.bodies then [RemoveBody(key)] else [];
    SingleRemoval(key);
    RemovedNothing();
    if BodyKey(b.tree, x) == key { BodyKeyInjective(b.tree, x, a); }
    hide RemovedKeys, Valid;
  }

  // ---- Exactly which bodies go -------------------------------------------

  /** `x` hangs on a branch whose leaf, one the leaf set has not lost, lies below the newly finalized height. */
  ghost predicate OnDisplacedBranch(tree: Tree, lost: set<Hash>, oldFinalized: nat, finalized: nat, x: Hash)
    requires WellFormed(tree)
  {
    exists l, n: nat :: IsLeaf(tree, oldFinalized, n, l) && l !in lost && n < finalized && OnChain(tree, x, l)
  }

  /** A body goes when its block leaves the window of kept canonical blocks, or its branch is displaced. */
  ghost predicate Obsolete(b: Backend, lost: set<Hash>, finalized: nat, x: Hash)
    requires Valid(b)
  {
    b.keepBlocks.Some? && x in b.tree &&
    if OnChain(b.tree, x, b.meta.bestHash) then b.tree[x].number + Max(b.keepBlocks.value, 1) == finalized
    else OnDisplacedBranch(b.tree, lost, b.meta.finalizedNumber, finalized, x)
  }

  /** The leaf set is exact but for the leaves in `lost`, all of them known blocks. */
  ghost predicate LeavesExact(b: Backend, lost: set<Hash>) {
    lost <= b.tree.Keys && Exact(b.tree, b.meta.finalizedNumber, b.leaves, lost)
  }

  lemma DisplacedLeaves(b: Backend, lost: set<Hash>, finalized: nat, l: Hash)
    requires LeavesExact(b, lost) && b.meta.finalizedNumber <= finalized
    ensures l in Flatten(Displaced(b.leaves, finalized), finalized) <==>
              exists n: nat :: IsLeaf(b.tree, b.meta.finalizedNumber, n, l) && l !in lost && n < finalized
  {
    FlattenMembers(Displaced(b.leaves, finalized), finalized, l);
    FinalizeKeepsExact(b.tree, b.meta.finalizedNumber, b.leaves, lost, finalized);
  }

  /** The displaced walks remove exactly the non-canonical blocks of displaced branches. */
  lemma WalksAreExact(b: Backend, lost: set<Hash>, finalized: nat, x: Hash)
    requires Valid(b) && LeavesExact(b, lost) && b.meta.finalizedNumber <= finalized <= b.meta.bestNumber && x in b.tree
    requires var displaced := Flatten(Displaced(b.leaves, finalized), finalized);
             forall l :: l in displaced ==> l in b.tree
    ensures var displaced := Flatten(Displaced(b.leaves, finalized), finalized);
            (exists l :: l in displaced && x in WalkBack(b.db, b.tree, finalized, l)) <==>
              !OnChain(b.tree, x, b.meta.bestHash) && OnDisplacedBranch(b.tree, lost, b.meta.finalizedNumber, finalized, x)
  {
    var displaced := Flatten(Displaced(b.leaves, finalized), finalized);
    var best := b.meta.bestHash;
    if l :| l in displaced && x in WalkBack(b.db, b.tree, finalized, l) {
      DisplacedLeaves(b, lost, finalized, l);
      var n: nat :| IsLeaf(b.tree, b.meta.finalizedNumber, n, l) && l !in lost && n < finalized;
      WalkFromLeaf(b, finalized, l);
      RouteSplitsChains(b.tree, l, best, x);
      assert OnDisplacedBranch(b.tree, lost, b.meta.finalizedNumber, finalized, x);
    }
    if !OnChain(b.tree, x, best) && OnDisplacedBranch(b.tree, lost, b.meta.finalizedNumber, finalized, x) {
      var l, n: nat :| IsLeaf(b.tree, b.meta.finalizedNumber, n, l) && l !in lost && n < finalized && OnChain(b.tree, x, l);
      DisplacedLeaves(b, lost, finalized, l);
      WalkFromLeaf(b, finalized, l);
      RouteSplitsChains(b.tree, l, best, x);
      assert x in WalkBack(b.db, b.tree, finalized, l);
    }
  }

  lemma LeavesAreKnown(b: Backend, lost: set<Hash>)
    requires LeavesExact(b, lost)
    ensures LeavesKnown(b.tree, b.leaves)
  {
    forall n: nat, h | Contains(b.leaves, n, h) ensures h in b.tree {
      assert IsLeaf(b.tree, b.meta.finalizedNumber, n, h);
    }
  }

  /** The bodies that finalizing `h` removes are exactly the obsolete ones. */
  lemma NoteRemovesObsolete(b: Backend, lost: set<Hash>, h: Hash, x: Hash)
    requires Valid(b) && LeavesExact(b, lost) && h in b.tree && OnChain(b.tree, h, b.meta.bestHash) && b.meta.finalizedNumber <= b.tree[h].number
    requires x in b.tree
    ensures NumbersSmall(b.tree) && LeavesKnown(b.tree, b.leaves)
    ensures BodyKey(b.tree, x) in RemovedKeys(NoteTx(b.db, b.tree, b.keepBlocks, b.leaves, h)) <==>
              BodyKey(b.tree, x) in b.db.bodies && Obsolete(b, lost, b.tree[h].number, x)
  {
    hide RemovedKeys, BodyKey, WalkAllTx, PruneBlockTx, NumberBytes, IndexCanonical, HeadersStored, LeavesExact;
    RecordsAreSmall(b.db, b.tree);
    LeavesAreKnown(b, lost);
    var n := b.tree[h].number;
    DisplacedKnown(b.tree, b.leaves, n);
    var displaced := Flatten(Displaced(b.leaves, n), n);
    var head := [SetFinal(NumberBytes(n) + h)];
    NothingRemoved(head[0]);
    var prune := PruneTx(b.db, b.tree, b.keepBlocks, n, displaced);
    RemovedConcat(head, prune);
    if b.keepBlocks.Some? {
      PruneRemovesObsolete(b, lost, n, displaced, x);
    } else {
      RemovedNothing();
    }
  }

  lemma NothingRemoved(c: Change)
    requires !c.RemoveBody?
    ensures RemovedKeys([c]) == {}
  {
  }

  lemma PruneRemovesObsolete(b: Backend, lost: set<Hash>, n: nat, displaced: seq<Hash>, x: Hash)
    requires Valid(b) && LeavesExact(b, lost) && b.meta.finalizedNumber <= n <= b.meta.bestNumber && x in b.tree && b.keepBlocks.Some?
    requires NumbersSmall(b.tree) && displaced == Flatten(Displaced(b.leaves, n), n) && forall l :: l in displaced ==> l in b.tree
    ensures BodyKey(b.tree, x) in RemovedKeys(PruneTx(b.db, b.tree, b.keepBlocks, n, displaced)) <==>
              BodyKey(b.tree, x) in b.db.bodies && Obsolete(b, lost, n, x)
  {
    hide RemovedKeys, BodyKey, WalkAllTx, PruneBlockTx, NumberBytes, IndexCanonical, HeadersStored, LeavesExact, OnDisplacedBranch, WalkBack;
    var keep := KeptCount(b.keepBlocks);
    var window := if n >= keep then PruneBlockTx(b.db, ByNumber(n - keep)) else [];
    RemovedConcat(window, WalkAllTx(b.db, b.tree, n, displaced));
    WalkAllKeys(b.db, b.tree, n, displaced, x);
    WalksAreExact(b, lost, n, x);
    if n >= keep {
      WindowKey(b, n - keep, x);
    } else {
      RemovedNothing();
    }
  }

  // ---- Finalizing one block ----------------------------------------------

  /**
   * Finalizing succeeds exactly for a known child of the finalized block; otherwise nothing
   * changes. The code does not check that the block is on the best chain, and the database
   * stays valid exactly when it is.
   */
  lemma FinalizeStep(b: Backend, h: Hash)
    requires Valid(b) && LeavesKnown(b.tree, b.leaves) && |h| == HASH_LENGTH
    ensures var (b', error) := FinalizeBlock(b, h);
            && (error == None <==> h in b.tree && b.tree[h].parent == b.meta.finalizedHash)
            && (error != None ==> b' == b && error == Some(if h in b.tree then NonSequentialFinalization else BlockNotFound))
            && (error == None ==>
                  && b.tree[h].number == b.meta.finalizedNumber + 1
                  && b'.meta == b.meta.(finalizedHash := h, finalizedNumber := b.tree[h].number)
                  && b'.tree == b.tree && b'.keepBlocks == b.keepBlocks
                  && b'.leaves == KeepFrom(b.leaves, b.tree[h].number)
                  && b'.db.lookup == b.db.lookup && b'.db.headers == b.db.headers
                  && (Valid(b') <==> OnChain(b.tree, h, b.meta.bestHash)))
  {
    hide NumberBytes, NoteTx, IndexCanonical;
    HeaderFound(b.db, b.tree, h);
    var (b', error) := FinalizeBlock(b, h);
    if error == None {
      ChildNumber(b, h);
      NoteEffect(b.db, b.db, b.tree, b.keepBlocks, b.leaves, h);
      HeadersKept(b.db, b'.db, b.tree);
      SameIndexColumn(b.db, b'.db, b.tree, b.meta.bestHash);
    }
    hide HeadersStored, LeavesKnown, OnChain, KeepFrom, Commit, GenesisUnparented, WellFormed;
  }

  lemma ChildNumber(b: Backend, h: Hash)
    requires Valid(b) && h in b.tree && b.tree[h].parent == b.meta.finalizedHash
    ensures b.tree[h].number == b.meta.finalizedNumber + 1
    ensures b.tree[h].number > 0 && Parent(b.tree, h) == b.meta.finalizedHash
  {
    assert Linked(b.tree, h);
  }

  lemma SameIndexColumn(before: Db, after: Db, tree: Tree, best: Hash)
    requires WellFormed(tree) && best in tree && before.lookup == after.lookup
    ensures IndexCanonical(after, tree, best) <==> IndexCanonical(before, tree, best)
  {
    hide NumberBytes;
    assert forall n: nat, h :: Indexed(after, n, h) <==> Indexed(before, n, h);
    assert forall n: nat :: Unindexed(after, n) <==> Unindexed(before, n);
  }

  // ---- Which bodies are held ---------------------------------------------

  /**
   * What the pruning mode promises for an imported body, given the finalized block: on the
   * finalized chain the last `max(k, 1)` stay; off it, a body stays until some branch through the
   * block, one whose leaf was not lost, has ended below the finalized height.
   */
  ghost predicate Retained(tree: Tree, lost: set<Hash>, keepBlocks: Option<nat>, finalized: Hash, x: Hash)
    requires WellFormed(tree) && finalized in tree && x in tree
  {
    keepBlocks.None? ||
    if OnChain(tree, x, finalized) then tree[x].number + Max(keepBlocks.value, 1) > tree[finalized].number
    else !OnDisplacedBranch(tree, lost, 0, tree[finalized].number, x)
  }

  ghost predicate BodyAsPromised(b: Backend, lost: set<Hash>, contents: map<Hash, Body>, x: Hash)
    requires WellFormed(b.tree) && b.meta.finalizedHash in b.tree && NumbersSmall(b.tree) && x in b.tree
  {
    var key := BodyKey(b.tree, x);
    && (key in b.db.bodies <==> x in contents && Retained(b.tree, lost, b.keepBlocks, b.meta.finalizedHash, x))
    && (key in b.db.bodies ==> b.db.bodies[key] == contents[x])
  }

  /** The body column holds exactly the promised bodies of the blocks imported with one. */
  ghost predicate BodiesExact(b: Backend, lost: set<Hash>, contents: map<Hash, Body>)
    requires WellFormed(b.tree) && b.meta.finalizedHash in b.tree && NumbersSmall(b.tree)
  {
    && contents.Keys <= b.tree.Keys
    && (forall x :: x in b.tree ==> BodyAsPromised(b, lost, contents, x))
    && (forall key :: key in b.db.bodies ==> exists x :: x in b.tree && BodyKey(b.tree, x) == key)
  }

  /** Finalizing the next block turns what was retained and not obsolete into what is retained. */
  lemma RetainedNext(b: Backend, lost: set<Hash>, h: Hash, x: Hash)
    requires Valid(b) && h in b.tree && b.tree[h].parent == b.meta.finalizedHash && OnChain(b.tree, h, b.meta.bestHash)
    requires x in b.tree
    ensures Retained(b.tree, lost, b.keepBlocks, h, x) <==>
              Retained(b.tree, lost, b.keepBlocks, b.meta.finalizedHash, x) && !Obsolete(b, lost, b.tree[h].number, x)
  {
    ChildNumber(b, h);
    var tree, fin, best := b.tree, b.meta.finalizedHash, b.meta.bestHash;
    ChainOfChild(tree, h, x);
    if OnChain(tree, x, h) {
      OnChainTransitive(tree, x, h, best);
      NotAbove(tree, lost, fin, x);
    } else if OnChain(tree, x, best) {
      AboveOnChain(tree, h, x, best);
      NotAbove(tree, lost, fin, x);
      NotAbove(tree, lost, h, x);
    } else {
      DisplacedSplits(tree, lost, tree[fin].number, x);
    }
    hide IndexCanonical, HeadersStored, OnDisplacedBranch, WellFormed, OnChain, MetaMatches;
  }

  /** The chain of a block is the block and its parent's chain. */
  lemma ChainOfChild(tree: Tree, h: Hash, x: Hash)
    requires WellFormed(tree) && h in tree && tree[h].number > 0 && x in tree
    ensures OnChain(tree, x, h) <==> x == h || OnChain(tree, x, Parent(tree, h))
    ensures OnChain(tree, x, Parent(tree, h)) ==> tree[x].number < tree[h].number
  {
  }

  lemma NotAbove(tree: Tree, lost: set<Hash>, fin: Hash, x: Hash)
    requires WellFormed(tree) && fin in tree && x in tree
    ensures tree[x].number >= tree[fin].number ==> !OnDisplacedBranch(tree, lost, 0, tree[fin].number, x)
  {
  }

  lemma AboveOnChain(tree: Tree, h: Hash, x: Hash, best: Hash)
    requires WellFormed(tree) && h in tree && best in tree && OnChain(tree, h, best) && OnChain(tree, x, best) && !OnChain(tree, x, h)
    ensures tree[x].number > tree[h].number
  {
    if tree[x].number <= tree[h].number { OnChainLinear(tree, x, h, best); }
  }

  lemma DisplacedSplits(tree: Tree, lost: set<Hash>, f: nat, x: Hash)
    requires WellFormed(tree) && x in tree
    ensures OnDisplacedBranch(tree, lost, 0, f + 1, x) <==>
              OnDisplacedBranch(tree, lost, 0, f, x) || OnDisplacedBranch(tree, lost, f, f + 1, x)
  {
    if OnDisplacedBranch(tree, lost, 0, f + 1, x) {
      var l, n: nat :| IsLeaf(tree, 0, n, l) && l !in lost && n < f + 1 && OnChain(tree, x, l);
      assert n == f ==> IsLeaf(tree, f, n, l);
    }
    if OnDisplacedBranch(tree, lost, 0, f, x) {
      var l, n: nat :| IsLeaf(tree, 0, n, l) && l !in lost && n < f && OnChain(tree, x, l);
      assert IsLeaf(tree, 0, n, l) && n < f + 1 && OnChain(tree, x, l);
    }
    if OnDisplacedBranch(tree, lost, f, f + 1, x) {
      var l, n: nat :| IsLeaf(tree, f, n, l) && l !in lost && n < f + 1 && OnChain(tree, x, l);
      assert IsLeaf(tree, 0, n, l);
    }
  }

  /** Finalizing keeps the leaf set and the body column exact, given the leaves lost before. */
  lemma FinalizeBodies(b: Backend, lost: set<Hash>, h: Hash, contents: map<Hash, Body>)
    requires Valid(b) && LeavesExact(b, lost) && h in b.tree && |h| == HASH_LENGTH
    requires b.tree[h].parent == b.meta.finalizedHash && OnChain(b.tree, h, b.meta.bestHash)
    requires NumbersSmall(b.tree) && BodiesExact(b, lost, contents)
    ensures LeavesKnown(b.tree, b.leaves)
    ensures var b' := FinalizeBlock(b, h).0;
            Valid(b') && NumbersSmall(b'.tree) && LeavesExact(b', lost) && BodiesExact(b', lost, contents)
  {
    LeavesAreKnown(b, lost);
    FinalizeStep(b, h);
    HeaderFound(b.db, b.tree, h);
    var b' := FinalizeBlock(b, h).0;
    var tx := NoteTx(b.db, b.tree, b.keepBlocks, b.leaves, h);
    NoteEffect(b.db, b.db, b.tree, b.keepBlocks, b.leaves, h);
    assert b'.db.bodies == b.db.bodies - RemovedKeys(tx);
    FinalizeKeepsExact(b.tree, b.meta.finalizedNumber, b.leaves, lost, b.tree[h].number);
    hide Valid, NoteTx, RemovedKeys, FinalizeBlock, HeadersStored, LeavesKnown, Exact, Retained, Obsolete, BodyKey, Commit;
    forall x | x in b.tree ensures BodyAsPromised(b', lost, contents, x) {
      assert BodyAsPromised(b, lost, contents, x);
      ChildNumber(b, h);
      NoteRemovesObsolete(b, lost, h, x);
      RetainedNext(b, lost, h, x);
    }
  }
}
