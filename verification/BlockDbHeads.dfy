/** Imports and head changes keep the number index canonical and never leave the finalized chain. */
module BlockDbHeads {
  import opened Common
  import opened BlockTree
  import opened DbKeys
  import opened Leaves
  import opened BlockDb

  // ---- Numbers along a route ---------------------------------------------

  lemma {:induction false} DescendingNumbers(tree: Tree, h: Hash, p: nat)
    requires WellFormed(tree) && h in tree
    ensures forall i :: 0 <= i < |Descending(tree, h, p)| ==>
              var x := Descending(tree, h, p)[i];
              x in tree && tree[x].number + i == tree[h].number
    decreases tree[h].number
  {
    if tree[h].number > p {
      DescendingNumbers(tree, Parent(tree, h), p);
    }
  }

  lemma DescendingDistinct(tree: Tree, h: Hash, p: nat)
    requires WellFormed(tree) && h in tree
    ensures DistinctNumbers(tree, Descending(tree, h, p))
  {
    DescendingNumbers(tree, h, p);
  }

  lemma {:induction false} ReversedDistinct(tree: Tree, blocks: seq<Hash>)
    requires DistinctNumbers(tree, blocks)
    ensures DistinctNumbers(tree, Reversed(blocks))
  {
    if blocks != [] {
      assert DistinctNumbers(tree, blocks[1..]);
      ReversedDistinct(tree, blocks[1..]);
      var rest := Reversed(blocks[1..]);
      forall i | 0 <= i < |rest| && rest[i] in tree && blocks[0] in tree
        ensures tree[rest[i]].number != tree[blocks[0]].number
      {
        ReversedMembers(blocks[1..], rest[i]);
        assert rest[i] in rest;
        var j :| 0 <= j < |blocks[1..]| && blocks[1..][j] == rest[i];
        assert blocks[j + 1] == rest[i];
      }
    }
  }

  lemma DescendingHasNumber(tree: Tree, h: Hash, p: nat, n: nat)
    requires WellFormed(tree) && h in tree
    ensures HasNumber(tree, Descending(tree, h, p), n) <==> p < n <= tree[h].number
  {
    if p < n <= tree[h].number {
      var a := Ancestor(tree, h, n);
      DescendingMembers(tree, h, p, a);
    }
    if HasNumber(tree, Descending(tree, h, p), n) {
      var x :| x in Descending(tree, h, p) && x in tree && tree[x].number == n;
      DescendingMembers(tree, h, p, x);
    }
  }

  lemma ReversedHasNumber(tree: Tree, blocks: seq<Hash>, n: nat)
    ensures HasNumber(tree, Reversed(blocks), n) <==> HasNumber(tree, blocks, n)
  {
    forall h ensures h in Reversed(blocks) <==> h in blocks { ReversedMembers(blocks, h); }
  }

  // ---- The effect of a route on the index --------------------------------

  /** The route is refused exactly when it would leave the finalized chain. */
  lemma RouteAccepted(b: Backend, routeTo: Hash)
    requires Valid(b) && routeTo in b.tree
    ensures RouteTx(b, routeTo).Ok? <==> OnChain(b.tree, b.meta.finalizedHash, routeTo)
    ensures !OnChain(b.tree, b.meta.finalizedHash, routeTo) ==> RouteTx(b, routeTo) == Err(NotInFinalizedChain)
  {
    hide NumberBytes;
    var tree, best := b.tree, b.meta.bestHash;
    var retracted, enacted := Retracted(tree, best, routeTo), Enacted(tree, best, routeTo);
    RouteBlocksKnown(tree, best, routeTo);
    NumbersFit(b, retracted);
    NumbersFit(b, enacted);
    RetractEffect(b.db, tree, retracted, b.meta.finalizedHash);
    RouteSplitsChains(tree, best, routeTo, b.meta.finalizedHash);
    DescendingDistinct(tree, routeTo, CommonHeight(tree, best, routeTo));
    ReversedDistinct(tree, Descending(tree, routeTo, CommonHeight(tree, best, routeTo)));
    EnactEffect(b.db, tree, enacted);
  }

  lemma NumbersFit(b: Backend, blocks: seq<Hash>)
    requires HeadersStored(b.db, b.tree) && forall h :: h in blocks ==> h in b.tree
    ensures forall h :: h in blocks ==> b.tree[h].number < U32_RANGE
  {
    forall h | h in blocks ensures b.tree[h].number < U32_RANGE { assert Recorded(b.db, b.tree, h); }
  }

  /** A route first unmaps the retracted numbers, then maps the enacted ones. */
  lemma RouteCommits(b: Backend, routeTo: Hash) returns (mid: Db)
    requires Valid(b) && routeTo in b.tree && OnChain(b.tree, b.meta.finalizedHash, routeTo)
    ensures RouteTx(b, routeTo).Ok?
    ensures var after := Commit(b.db, RouteTx(b, routeTo).value);
            var retracted, enacted := Retracted(b.tree, b.meta.bestHash, routeTo), Enacted(b.tree, b.meta.bestHash, routeTo);
            && OnlyNumbersChanged(b.db, mid) && OnlyNumbersChanged(mid, after)
            && (forall n: nat :: HasNumber(b.tree, retracted, n) ==> Unindexed(mid, n))
            && (forall n: nat :: !HasNumber(b.tree, retracted, n) ==> SameIndex(b.db, mid, n))
            && (forall h :: h in enacted ==> h in b.tree && Indexed(after, b.tree[h].number, h))
            && (forall n: nat :: !HasNumber(b.tree, enacted, n) ==> SameIndex(mid, after, n))
  {
    hide NumberBytes;
    RouteAccepted(b, routeTo);
    var tree, best := b.tree, b.meta.bestHash;
    var p := CommonHeight(tree, best, routeTo);
    var retracted, enacted := Retracted(tree, best, routeTo), Enacted(tree, best, routeTo);
    RouteBlocksKnown(tree, best, routeTo);
    NumbersFit(b, retracted);
    NumbersFit(b, enacted);
    DescendingDistinct(tree, routeTo, p);
    ReversedDistinct(tree, Descending(tree, routeTo, p));
    RetractEffect(b.db, tree, retracted, b.meta.finalizedHash);
    var tx1 := RetractTx(tree, retracted, b.meta.finalizedHash).value;
    mid := Commit(b.db, tx1);
    EnactEffect(mid, tree, enacted);
    CommitConcat(b.db, tx1, EnactTx(tree, enacted).value);
    hide Valid, Commit, RetractTx, EnactTx, HasNumber, SameIndex, Indexed, Unindexed, OnlyNumbersChanged, DistinctNumbers;
  }

  /** Following the route turns the canonical index of the old head into that of the new one. */
  lemma RouteIndexes(b: Backend, routeTo: Hash)
    requires Valid(b) && routeTo in b.tree && OnChain(b.tree, b.meta.finalizedHash, routeTo)
    ensures RouteTx(b, routeTo).Ok?
    ensures var after := Commit(b.db, RouteTx(b, routeTo).value);
            OnlyNumbersChanged(b.db, after) && IndexCanonical(after, b.tree, routeTo)
  {
    hide NumberBytes;
    var mid := RouteCommits(b, routeTo);
    hide Commit, RouteTx, Retracted, Enacted, Valid, HasNumber, SameIndex, Ancestor;
    var after := Commit(b.db, RouteTx(b, routeTo).value);
    forall n: nat
      ensures n <= b.tree[routeTo].number ==> Indexed(after, n, Ancestor(b.tree, routeTo, n))
      ensures n > b.tree[routeTo].number ==> Unindexed(after, n)
    {
      RouteIndexAt(b, routeTo, mid, after, n);
    }
  }

  lemma RouteIndexAt(b: Backend, routeTo: Hash, mid: Db, after: Db, n: nat)
    requires Valid(b) && routeTo in b.tree
    requires var retracted := Retracted(b.tree, b.meta.bestHash, routeTo);
             && (HasNumber(b.tree, retracted, n) ==> Unindexed(mid, n))
             && (!HasNumber(b.tree, retracted, n) ==> SameIndex(b.db, mid, n))
    requires var enacted := Enacted(b.tree, b.meta.bestHash, routeTo);
             && (forall h :: h in enacted ==> h in b.tree && Indexed(after, b.tree[h].number, h))
             && (!HasNumber(b.tree, enacted, n) ==> SameIndex(mid, after, n))
    ensures n <= b.tree[routeTo].number ==> Indexed(after, n, Ancestor(b.tree, routeTo, n))
    ensures n > b.tree[routeTo].number ==> Unindexed(after, n)
  {
    hide NumberBytes;
    var tree, best := b.tree, b.meta.bestHash;
    var p := CommonHeight(tree, best, routeTo);
    DescendingHasNumber(tree, best, p, n);
    DescendingHasNumber(tree, routeTo, p, n);
    ReversedHasNumber(tree, Descending(tree, routeTo, p), n);
    if p < n <= tree[routeTo].number {
      var a := Ancestor(tree, routeTo, n);
      DescendingMembers(tree, routeTo, p, a);
      ReversedMembers(Descending(tree, routeTo, p), a);
    } else if n <= p {
      AncestorOfAncestor(tree, best, p, n);
      AncestorOfAncestor(tree, routeTo, p, n);
      assert Indexed(b.db, n, Ancestor(tree, best, n));
    }
  }

  // ---- Head changes ------------------------------------------------------

  /** The records of blocks, found by hash, are the same. */
  ghost predicate SameHashes(before: Db, after: Db) {
    && after.headers == before.headers
    && (forall h :: |h| == HASH_LENGTH ==> (h in after.lookup <==> h in before.lookup))
    && (forall h :: |h| == HASH_LENGTH && h in before.lookup && h in after.lookup ==> after.lookup[h] == before.lookup[h])
  }

  lemma HeadersKept(before: Db, after: Db, tree: Tree)
    requires HeadersStored(before, tree) && SameHashes(before, after)
    ensures HeadersStored(after, tree)
  {
    forall h | h in tree ensures Recorded(after, tree, h) { assert Recorded(before, tree, h); }
  }

  lemma HeaderFound(db: Db, tree: Tree, h: Hash)
    requires HeadersStored(db, tree) && |h| == HASH_LENGTH
    ensures ReadHeader(db, ByHash(h)) ==
              if h in tree then Ok(Some(Stored(h, tree[h].parent, tree[h].number))) else Ok(None)
  {
    if h in tree { assert Recorded(db, tree, h); }
  }

  /** What the last two changes of a head change do: record the head and map its number. */
  function HeadRecord(number: nat, hash: Hash): Transaction
    requires number < U32_RANGE
  {
    [SetBest(NumberBytes(number) + hash), SetLookup(NumberBytes(number), NumberBytes(number) + hash)]
  }

  lemma HeadRecordEffect(db: Db, number: nat, hash: Hash)
    requires number < U32_RANGE
    ensures var after := Commit(db, HeadRecord(number, hash));
            && after.bestKey == Some(NumberBytes(number) + hash)
            && after.bodies == db.bodies && after.finalKey == db.finalKey
            && SameHashes(db, after)
            && Indexed(after, number, hash)
            && (forall n: nat :: n != number ==> SameIndex(db, after, n))
  {
    var key := NumberBytes(number) + hash;
    var mid := db.(bestKey := Some(key));
    var tx := HeadRecord(number, hash);
    var last := [SetLookup(NumberBytes(number), key)];
    assert tx[1..] == last && last[1..] == [];
    assert Commit(db, tx) == Commit(mid, last) == Commit(ApplyChange(mid, last[0]), []);
    SetOne(mid, number, hash, number);
    forall n: nat | n != number ensures SameIndex(db, Commit(db, tx), n) {
      SetOne(mid, number, hash, n);
      assert SameIndex(db, mid, n);
    }
  }

  lemma SetHeadTxShape(b: Backend, routeTo: Hash, number: nat, hash: Hash)
    requires WellFormed(b.tree) && number < U32_RANGE
    ensures RouteTx(b, routeTo).Ok? ==>
              SetHeadTx(b, routeTo, number, hash) == Ok(RouteTx(b, routeTo).value + HeadRecord(number, hash))
    ensures RouteTx(b, routeTo).Err? ==> SetHeadTx(b, routeTo, number, hash) == Err(RouteTx(b, routeTo).error)
  {
    if RouteTx(b, routeTo).Ok? {
      var route := RouteTx(b, routeTo).value;
      var key := NumberBytes(number) + hash;
      assert route + [SetBest(key)] + [SetLookup(NumberBytes(number), key)] == route + HeadRecord(number, hash);
    }
  }

  /**
   * A head change succeeds exactly for known blocks that keep the finalized block on their chain;
   * it then leaves the index canonical for the new head. Otherwise nothing changes.
   */
  lemma SetHeadStep(b: Backend, h: Hash)
    requires Valid(b) && |h| == HASH_LENGTH
    ensures var (b', error) := SetHead(b, h);
            && (error == None <==> h in b.tree && OnChain(b.tree, b.meta.finalizedHash, h))
            && (error != None ==> b' == b && error == Some(if h in b.tree then NotInFinalizedChain else BlockNotFound))
            && (error == None ==> b'.meta == b.meta.(bestHash := h, bestNumber := b.tree[h].number) && b'.tree == b.tree
                                  && b'.leaves == b.leaves && b'.keepBlocks == b.keepBlocks && b'.db.bodies == b.db.bodies)
            && Valid(b')
  {
    hide NumberBytes;
    HeaderFound(b.db, b.tree, h);
    if h in b.tree {
      assert Recorded(b.db, b.tree, h);
      RouteAccepted(b, h);
      SetHeadTxShape(b, h, b.tree[h].number, h);
      if OnChain(b.tree, b.meta.finalizedHash, h) {
        GenesisOnlyHead(b, h);
        HeadMoves(b, h);
      }
    }
    hide Commit, RouteTx, SetHeadTx, Valid, OnChain, HeadRecord;
  }

  lemma HeadMoves(b: Backend, h: Hash)
    requires Valid(b) && h in b.tree && b.tree[h].number < U32_RANGE && OnChain(b.tree, b.meta.finalizedHash, h)
    ensures RouteTx(b, h).Ok?
    ensures var after := Commit(b.db, RouteTx(b, h).value + HeadRecord(b.tree[h].number, h));
            && after.bodies == b.db.bodies
            && Valid(b.(db := after, meta := b.meta.(bestHash := h, bestNumber := b.tree[h].number)))
  {
    hide NumberBytes;
    RouteIndexes(b, h);
    var n := b.tree[h].number;
    var route := RouteTx(b, h).value;
    var mid := Commit(b.db, route);
    CommitConcat(b.db, route, HeadRecord(n, h));
    HeadRecordEffect(mid, n, h);
    var after := Commit(mid, HeadRecord(n, h));
    HeadersKept(b.db, mid, b.tree);
    HeadersKept(mid, after, b.tree);
    HeadIndexed(b, h, mid, after);
    hide GenesisUnparented, Commit, RouteTx, HeadRecord, OnChain, HeadersStored, IndexCanonical, SameHashes, Indexed, SameIndex, Ancestor;
  }

  lemma HeadIndexed(b: Backend, h: Hash, mid: Db, after: Db)
    requires WellFormed(b.tree) && h in b.tree && IndexCanonical(mid, b.tree, h)
    requires Indexed(after, b.tree[h].number, h)
    requires forall n: nat :: n != b.tree[h].number ==> SameIndex(mid, after, n)
    ensures IndexCanonical(after, b.tree, h)
  {
    forall n: nat
      ensures n <= b.tree[h].number ==> Indexed(after, n, Ancestor(b.tree, h, n))
      ensures n > b.tree[h].number ==> Unindexed(after, n)
    {
      if n != b.tree[h].number { assert SameIndex(mid, after, n); }
    }
  }

  /** If the head moves to genesis, genesis is the finalized block. */
  lemma GenesisOnlyHead(b: Backend, h: Hash)
    requires Valid(b) && h in b.tree && OnChain(b.tree, b.meta.finalizedHash, h)
    ensures b.tree[h].number == 0 ==> h == b.meta.finalizedHash
  {
  }
}
