/** Importing a block keeps the database valid, as best block or beside the best chain. */
module BlockDbImport {
  import opened Common
  import opened BlockTree
  import opened DbKeys
  import opened Leaves
  import opened BlockDb
  import opened BlockDbHeads

  function BlockRecord(header: Stored, key: Bytes, body: Option<Body>): Transaction {
    [SetLookup(header.hash, key), SetHeader(key, header)] + (if body.Some? then [SetBody(key, body.value)] else [])
  }

  lemma BlockRecordEffect(db: Db, header: Stored, key: Bytes, body: Option<Body>)
    ensures Commit(db, BlockRecord(header, key, body)) ==
              db.(lookup := db.lookup[header.hash := key],
                  headers := db.headers[key := header],
                  bodies := if body.Some? then db.bodies[key := body.value] else db.bodies)
  {
    var tx := BlockRecord(header, key, body);
    var d1 := ApplyChange(db, tx[0]);
    var d2 := ApplyChange(d1, tx[1]);
    assert Commit(db, tx) == Commit(d1, tx[1..]);
    assert tx[1..][0] == tx[1] && tx[1..][1..] == tx[2..];
    assert Commit(d1, tx[1..]) == Commit(d2, tx[2..]);
    if body.Some? {
      assert tx[2..] == [SetBody(key, body.value)] && tx[2..][1..] == [];
      assert Commit(d2, tx[2..]) == Commit(ApplyChange(d2, tx[2..][0]), []);
    } else {
      assert tx[2..] == [];
    }
  }

  /** A block that may be imported: fresh, on a known parent that is not below the finalized block. */
  ghost predicate Importable(b: Backend, header: Stored) {
    && header.hash !in b.tree && |header.hash| == HASH_LENGTH && header.hash != NO_HASH
    && header.parent in b.tree
    && header.number == b.tree[header.parent].number + 1
    && header.number > b.meta.finalizedNumber
  }

  function GrownTree(tree: Tree, header: Stored): Tree {
    tree[header.hash := Header(header.parent, header.number)]
  }

  lemma HeadersAfterRecord(db: Db, tree: Tree, header: Stored, body: Option<Body>)
    requires HeadersStored(db, tree) && header.hash !in tree && |header.hash| == HASH_LENGTH && header.number < U32_RANGE
    ensures HeadersStored(Commit(db, BlockRecord(header, NumberBytes(header.number) + header.hash, body)), GrownTree(tree, header))
  {
    var key := NumberBytes(header.number) + header.hash;
    BlockRecordEffect(db, header, key, body);
    var after := Commit(db, BlockRecord(header, key, body));
    var larger := GrownTree(tree, header);
    forall h | h in larger ensures Recorded(after, larger, h) {
      if h != header.hash {
        assert Recorded(db, tree, h);
        KeysAreInjective(tree[h].number, h, header.number, header.hash);
      }
    }
  }

  lemma IndexAfterRecord(db: Db, header: Stored, key: Bytes, body: Option<Body>, n: nat)
    requires |header.hash| == HASH_LENGTH
    ensures SameIndex(db, Commit(db, BlockRecord(header, key, body)), n)
  {
    BlockRecordEffect(db, header, key, body);
  }

  lemma GrownTreeFacts(tree: Tree, header: Stored)
    requires WellFormed(tree) && header.hash !in tree && header.parent in tree && header.number == tree[header.parent].number + 1
    ensures WellFormed(GrownTree(tree, header))
    ensures GenesisUnparented(tree) ==> GenesisUnparented(GrownTree(tree, header))
    ensures forall h, n: nat :: h in tree && n <= tree[h].number ==> Ancestor(GrownTree(tree, header), h, n) == Ancestor(tree, h, n)
    ensures forall n: nat :: n < header.number ==> Ancestor(GrownTree(tree, header), header.hash, n) == Ancestor(tree, header.parent, n)
  {
    assert GrownTree(tree, header) == WithBlock(tree, header.hash, header.parent);
    WithBlockChains(tree, header.hash, header.parent);
  }

  /** Beside the best chain: the index does not move. */
  lemma ImportAside(b: Backend, header: Stored, body: Option<Body>)
    requires Valid(b) && Importable(b, header) && header.number < U32_RANGE
    ensures var record := BlockRecord(header, NumberBytes(header.number) + header.hash, body);
            Valid(b.(db := Commit(b.db, record), tree := GrownTree(b.tree, header),
                     leaves := ImportLeaf(b.leaves, header.hash, header.number, header.parent)))
  {
    hide NumberBytes;
    var key := NumberBytes(header.number) + header.hash;
    var larger := GrownTree(b.tree, header);
    BlockRecordEffect(b.db, header, key, body);
    var after := Commit(b.db, BlockRecord(header, key, body));
    GrownTreeFacts(b.tree, header);
    HeadersAfterRecord(b.db, b.tree, header, body);
    var best := b.meta.bestHash;
    forall n: nat
      ensures n <= larger[best].number ==> Indexed(after, n, Ancestor(larger, best, n))
      ensures n > larger[best].number ==> Unindexed(after, n)
    {
      IndexAfterRecord(b.db, header, key, body, n);
      if n <= b.tree[best].number { assert Indexed(b.db, n, Ancestor(b.tree, best, n)); }
    }
    assert OnChain(larger, b.meta.finalizedHash, best);
    hide GenesisUnparented, HeadersStored, Ancestor, Commit, BlockRecord;
  }

  lemma LeavesAfterImport(b: Backend, header: Stored, lost: set<Hash>)
    requires WellFormed(b.tree) && Exact(b.tree, b.meta.finalizedNumber, b.leaves, lost) && Importable(b, header)
    requires lost <= b.tree.Keys
    ensures Exact(GrownTree(b.tree, header), b.meta.finalizedNumber,
                  ImportLeaf(b.leaves, header.hash, header.number, header.parent), lost)
  {
    hide NumberBytes;
    forall x | x in b.tree && b.tree[x].number > 0 ensures b.tree[x].parent in b.tree { assert Linked(b.tree, x); }
    ImportKeepsExact(b.tree, b.meta.finalizedNumber, b.leaves, lost, header.hash, header.parent);
  }

  /** As the new best block: the route to the parent, then the block itself. */
  lemma ImportOnTop(b: Backend, header: Stored, body: Option<Body>)
    requires Valid(b) && Importable(b, header) && header.number < U32_RANGE
    requires OnChain(b.tree, b.meta.finalizedHash, header.parent)
    ensures RouteTx(b, header.parent).Ok?
    ensures var record := BlockRecord(header, NumberBytes(header.number) + header.hash, body);
            var tx := RouteTx(b, header.parent).value + HeadRecord(header.number, header.hash) + record;
            Valid(b.(db := Commit(b.db, tx), tree := GrownTree(b.tree, header),
                     leaves := ImportLeaf(b.leaves, header.hash, header.number, header.parent),
                     meta := b.meta.(bestHash := header.hash, bestNumber := header.number)))
  {
    hide NumberBytes, Commit, HeadersStored, Ancestor, SameIndex, Indexed, Unindexed, BlockRecord, HeadRecord, RouteTx;
    var n, h := header.number, header.hash;
    var record := BlockRecord(header, NumberBytes(n) + h, body);
    RouteIndexes(b, header.parent);
    var route := RouteTx(b, header.parent).value;
    var d1 := Commit(b.db, route);
    HeadRecordEffect(d1, n, h);
    var d2 := Commit(d1, HeadRecord(n, h));
    var d3 := Commit(d2, record);
    CommitConcat(b.db, route, HeadRecord(n, h));
    CommitConcat(b.db, route + HeadRecord(n, h), record);
    HeadersKept(b.db, d1, b.tree);
    HeadersKept(d1, d2, b.tree);
    HeadersAfterRecord(d2, b.tree, header, body);
    BlockRecordEffect(d2, header, NumberBytes(n) + h, body);
    GrownTreeFacts(b.tree, header);
    IndexOnTop(b, header, body, d1, d2);
    FinalizedBelowTop(b, header);
    hide GenesisUnparented, OnChain, IndexCanonical;
  }

  lemma FinalizedBelowTop(b: Backend, header: Stored)
    requires WellFormed(b.tree) && Importable(b, header) && OnChain(b.tree, b.meta.finalizedHash, header.parent)
    ensures WellFormed(GrownTree(b.tree, header))
    ensures OnChain(GrownTree(b.tree, header), b.meta.finalizedHash, header.hash)
  {
    GrownTreeFacts(b.tree, header);
  }

  lemma IndexOnTop(b: Backend, header: Stored, body: Option<Body>, d1: Db, d2: Db)
    requires WellFormed(b.tree) && Importable(b, header) && header.number < U32_RANGE
    requires IndexCanonical(d1, b.tree, header.parent)
    requires Indexed(d2, header.number, header.hash)
    requires forall n: nat :: n != header.number ==> SameIndex(d1, d2, n)
    ensures WellFormed(GrownTree(b.tree, header))
    ensures IndexCanonical(Commit(d2, BlockRecord(header, NumberBytes(header.number) + header.hash, body)),
                           GrownTree(b.tree, header), header.hash)
  {
    hide NumberBytes;
    var key := NumberBytes(header.number) + header.hash;
    var larger := GrownTree(b.tree, header);
    var d3 := Commit(d2, BlockRecord(header, key, body));
    GrownTreeFacts(b.tree, header);
    forall n: nat
      ensures n <= header.number ==> Indexed(d3, n, Ancestor(larger, header.hash, n))
      ensures n > header.number ==> Unindexed(d3, n)
    {
      IndexAfterRecord(d2, header, key, body, n);
      if n != header.number { assert SameIndex(d1, d2, n); }
    }
  }

  /**
   * Importing succeeds exactly when the number fits a u32 and, for a best block, the finalized
   * block stays on the chain; otherwise nothing changes.
   */
  lemma ImportStep(b: Backend, header: Stored, body: Option<Body>, isBest: bool)
    requires Valid(b) && Importable(b, header)
    ensures var (b', error) := Import(b, header, body, isBest);
            var leavesChain := isBest && !OnChain(b.tree, b.meta.finalizedHash, header.parent);
            && (error == None <==> header.number < U32_RANGE && !leavesChain)
            && (error != None ==> b' == b && error == Some(if header.number >= U32_RANGE then BlockNumberTooLarge else NotInFinalizedChain))
            && (error == None ==> && b'.tree == GrownTree(b.tree, header)
                                  && b'.meta == (if isBest then b.meta.(bestHash := header.hash, bestNumber := header.number) else b.meta)
                                  && b'.leaves == ImportLeaf(b.leaves, header.hash, header.number, header.parent)
                                  && b'.keepBlocks == b.keepBlocks)
            && Valid(b')
  {
    hide NumberBytes;
    if header.number < U32_RANGE {
      var key := NumberBytes(header.number) + header.hash;
      if isBest {
        RouteAccepted(b, header.parent);
        SetHeadTxShape(b, header.parent, header.number, header.hash);
        if OnChain(b.tree, b.meta.finalizedHash, header.parent) {
          ImportOnTop(b, header, body);
        }
      } else {
        ImportAside(b, header, body);
        assert [] + BlockRecord(header, key, body) == BlockRecord(header, key, body);
      }
    }
    hide Valid, Commit, RouteTx, SetHeadTx, OnChain, HeadRecord, ImportLeaf;
  }
}
