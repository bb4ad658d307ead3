/**
 * The full node's block database: columns of bytes, transactions applied atomically, and the
 * operations that import a block, move the head and finalize blocks.
 */
module BlockDb {
  import opened Common
  import opened BlockTree
  import opened DbKeys
  import opened Leaves

  type Body = seq<Bytes>

  datatype Stored = Stored(hash: Hash, parent: Hash, number: nat)

  /** The columns: key lookup, headers, bodies, and the two head records. */
  datatype Db = Db(
    lookup: map<Bytes, Bytes>,
    headers: map<Bytes, Stored>,
    bodies: map<Bytes, Body>,
    bestKey: Option<Bytes>,
    finalKey: Option<Bytes>
  )

  datatype Change =
    | SetLookup(key: Bytes, value: Bytes)
    | RemoveLookup(key: Bytes)
    | SetHeader(key: Bytes, header: Stored)
    | SetBody(key: Bytes, body: Body)
    | RemoveBody(key: Bytes)
    | SetBest(key: Bytes)
    | SetFinal(key: Bytes)

  type Transaction = seq<Change>

  datatype DbError = BlockNumberTooLarge | BlockNotFound | NotInFinalizedChain | NonSequentialFinalization

  datatype Meta = Meta(bestHash: Hash, bestNumber: nat, finalizedHash: Hash, finalizedNumber: nat)

  /** What the node holds: the database, the known headers, the head records, the leaves, the pruning mode. */
  datatype Backend = Backend(db: Db, tree: Tree, meta: Meta, leaves: Buckets, keepBlocks: Option<nat>)

  /** The default hash, which stands for "no block". */
  const NO_HASH: Hash :=
    [0, 0, 0, 0, 0, 0, 0, 0, 0, 0, 0, 0, 0, 0, 0, 0,
     0, 0, 0, 0, 0, 0, 0, 0, 0, 0, 0, 0, 0, 0, 0, 0]

  function ApplyChange(db: Db, c: Change): Db {
    match c
    case SetLookup(key, value) => db.(lookup := db.lookup[key := value])
    case RemoveLookup(key) => db.(lookup := db.lookup - {key})
    case SetHeader(key, header) => db.(headers := db.headers[key := header])
    case SetBody(key, body) => db.(bodies := db.bodies[key := body])
    case RemoveBody(key) => db.(bodies := db.bodies - {key})
    case SetBest(key) => db.(bestKey := Some(key))
    case SetFinal(key) => db.(finalKey := Some(key))
  }

  function Commit(db: Db, tx: Transaction): Db
    decreases |tx|
  {
    if tx == [] then db else Commit(ApplyChange(db, tx[0]), tx[1..])
  }

  lemma {:induction false} CommitConcat(db: Db, a: Transaction, b: Transaction)
    ensures Commit(db, a + b) == Commit(Commit(db, a), b)
    decreases |a|
  {
    if a == [] {
      assert a + b == b;
    } else {
      assert (a + b)[1..] == a[1..] + b;
      CommitConcat(ApplyChange(db, a[0]), a[1..], b);
    }
  }

  // ---- Reading -----------------------------------------------------------

  datatype BlockId = ByNumber(number: nat) | ByHash(hash: Hash)

  function LookupBlock(db: Db, id: BlockId): Result<Option<Bytes>, DbError> {
    match id
    case ByNumber(n) =>
      (match NumberIndexKey(n)
       case Ok(key) => Ok(if key in db.lookup then Some(db.lookup[key]) else None)
       case Err(_) => Err(BlockNumberTooLarge))
    case ByHash(h) => Ok(if h in db.lookup then Some(db.lookup[h]) else None)
  }

  function ReadHeader(db: Db, id: BlockId): Result<Option<Stored>, DbError> {
    match LookupBlock(db, id)
    case Err(e) => Err(e)
    case Ok(None) => Ok(None)
    case Ok(Some(key)) => Ok(if key in db.headers then Some(db.headers[key]) else None)
  }

  /** The canonical hash at a height, as the number index gives it. */
  function CanonicalHash(db: Db, n: nat): Result<Option<Hash>, DbError> {
    match ReadHeader(db, ByNumber(n))
    case Err(e) => Err(e)
    case Ok(None) => Ok(None)
    case Ok(Some(header)) => Ok(Some(header.hash))
  }

  // ---- Moving the head ---------------------------------------------------

  /** Removes the number mapping of every retracted block; refuses to retract the finalized one. */
  function RetractTx(tree: Tree, blocks: seq<Hash>, finalized: Hash): Result<Transaction, DbError>
    requires forall h :: h in blocks ==> h in tree
  {
    if blocks == [] then Ok([])
    else if blocks[0] == finalized then Err(NotInFinalizedChain)
    else match NumberIndexKey(tree[blocks[0]].number)
         case Err(_) => Err(BlockNumberTooLarge)
         case Ok(key) =>
           match RetractTx(tree, blocks[1..], finalized)
           case Err(e) => Err(e)
           case Ok(rest) => Ok([RemoveLookup(key)] + rest)
  }

  /** Maps a block's number to its long key. */
  function NumberMapping(n: nat, h: Hash): Result<Transaction, DbError> {
    match (NumberIndexKey(n), LookupKey(n, h))
    case (Ok(key), Ok(value)) => Ok([SetLookup(key, value)])
    case _ => Err(BlockNumberTooLarge)
  }

  function EnactTx(tree: Tree, blocks: seq<Hash>): Result<Transaction, DbError>
    requires forall h :: h in blocks ==> h in tree
  {
    if blocks == [] then Ok([])
    else match (NumberMapping(tree[blocks[0]].number, blocks[0]), EnactTx(tree, blocks[1..]))
         case (Ok(first), Ok(rest)) => Ok(first + rest)
         case _ => Err(BlockNumberTooLarge)
  }

  /** The reorganization part of `set_head_with_transaction`. */
  ghost function RouteTx(b: Backend, routeTo: Hash): Result<Transaction, DbError>
    requires WellFormed(b.tree)
  {
    if b.meta.bestHash == NO_HASH then Ok([])
    else if b.meta.bestHash !in b.tree || routeTo !in b.tree then Err(BlockNotFound)
    else
      RouteBlocksKnown(b.tree, b.meta.bestHash, routeTo);
      match RetractTx(b.tree, Retracted(b.tree, b.meta.bestHash, routeTo), b.meta.finalizedHash)
      case Err(e) => Err(e)
      case Ok(retract) =>
        match EnactTx(b.tree, Enacted(b.tree, b.meta.bestHash, routeTo))
        case Err(e) => Err(e)
        case Ok(enact) => Ok(retract + enact)
  }

  lemma RouteBlocksKnown(tree: Tree, a: Hash, b: Hash)
    requires WellFormed(tree) && a in tree && b in tree
    ensures forall h :: h in Retracted(tree, a, b) ==> h in tree
    ensures forall h :: h in Enacted(tree, a, b) ==> h in tree
  {
    forall h | h in Retracted(tree, a, b) || h in Enacted(tree, a, b) ensures h in tree {
      RouteSplitsChains(tree, a, b, h);
    }
  }

  ghost function SetHeadTx(b: Backend, routeTo: Hash, number: nat, hash: Hash): Result<Transaction, DbError>
    requires WellFormed(b.tree)
  {
    match RouteTx(b, routeTo)
    case Err(e) => Err(e)
    case Ok(route) =>
      match (LookupKey(number, hash), NumberMapping(number, hash))
      case (Ok(key), Ok(mapping)) => Ok(route + [SetBest(key)] + mapping)
      case _ => Err(BlockNumberTooLarge)
  }

  function UpdateMeta(meta: Meta, hash: Hash, number: nat, isBest: bool, isFinalized: bool): Meta {
    var m1 := if number == 0 then meta.(finalizedHash := hash) else meta;
    var m2 := if isBest then m1.(bestNumber := number, bestHash := hash) else m1;
    if isFinalized then m2.(finalizedNumber := number, finalizedHash := hash) else m2
  }

  /** Moves the head to a known block. */
  ghost function SetHead(b: Backend, h: Hash): (Backend, Option<DbError>)
    requires WellFormed(b.tree)
  {
    match ReadHeader(b.db, ByHash(h))
    case Err(e) => (b, Some(e))
    case Ok(None) => (b, Some(BlockNotFound))
    case Ok(Some(header)) =>
      match SetHeadTx(b, header.hash, header.number, header.hash)
      case Err(e) => (b, Some(e))
      case Ok(tx) =>
        (b.(db := Commit(b.db, tx), meta := UpdateMeta(b.meta, header.hash, header.number, true, false)), None)
  }

  // ---- Importing ---------------------------------------------------------

  /** Imports a block above genesis. The body is optional, as in the import operation. */
  ghost function Import(b: Backend, header: Stored, body: Option<Body>, isBest: bool): (Backend, Option<DbError>)
    requires WellFormed(b.tree)
  {
    match LookupKey(header.number, header.hash)
    case Err(_) => (b, Some(BlockNumberTooLarge))
    case Ok(key) =>
      match (if isBest then SetHeadTx(b, header.parent, header.number, header.hash) else Ok([]))
      case Err(e) => (b, Some(e))
      case Ok(head) =>
        var record := [SetLookup(header.hash, key), SetHeader(key, header)]
                      + (if body.Some? then [SetBody(key, body.value)] else []);
        var b' := b.(db := Commit(b.db, head + record),
                     tree := b.tree[header.hash := Header(header.parent, header.number)],
                     leaves := ImportLeaf(b.leaves, header.hash, header.number, header.parent),
                     meta := UpdateMeta(b.meta, header.hash, header.number, isBest, false));
        (b', None)
  }

  // ---- Invariants --------------------------------------------------------

  /** A block's own records: hash to long key, long key to header. */
  ghost predicate Recorded(db: Db, tree: Tree, h: Hash) {
    && h in tree && |h| == HASH_LENGTH && tree[h].number < U32_RANGE
    && h in db.lookup && db.lookup[h] == NumberBytes(tree[h].number) + h
    && db.lookup[h] in db.headers
    && db.headers[db.lookup[h]] == Stored(h, tree[h].parent, tree[h].number)
  }

  ghost predicate HeadersStored(db: Db, tree: Tree) {
    && (forall h {:trigger Recorded(db, tree, h)} :: h in tree ==> Recorded(db, tree, h))
    && (forall h :: h in db.lookup && |h| == HASH_LENGTH ==> h in tree)
  }

  ghost predicate Indexed(db: Db, n: nat, h: Hash) {
    n < U32_RANGE && NumberBytes(n) in db.lookup && db.lookup[NumberBytes(n)] == NumberBytes(n) + h
  }

  ghost predicate Unindexed(db: Db, n: nat) {
    n < U32_RANGE ==> NumberBytes(n) !in db.lookup
  }

  /** The index maps every height up to the best block to its ancestor there, and nothing above. */
  ghost predicate IndexCanonical(db: Db, tree: Tree, best: Hash)
    requires WellFormed(tree) && best in tree
  {
    && (forall n: nat :: n <= tree[best].number ==> Indexed(db, n, Ancestor(tree, best, n)))
    && (forall n: nat :: n > tree[best].number ==> Unindexed(db, n))
  }

  ghost predicate MetaMatches(b: Backend) {
    && b.meta.bestHash in b.tree && b.tree[b.meta.bestHash].number == b.meta.bestNumber
    && b.meta.finalizedHash in b.tree && b.tree[b.meta.finalizedHash].number == b.meta.finalizedNumber
    && b.meta.bestNumber < U32_RANGE && b.meta.finalizedNumber < U32_RANGE
    && b.db.bestKey == Some(NumberBytes(b.meta.bestNumber) + b.meta.bestHash)
    && b.db.finalKey == Some(NumberBytes(b.meta.finalizedNumber) + b.meta.finalizedHash)
  }

  /** The genesis header names no parent. */
  ghost predicate GenesisUnparented(tree: Tree) {
    forall h :: h in tree && tree[h].number == 0 ==> tree[h].parent == NO_HASH
  }

  ghost predicate Valid(b: Backend) {
    && WellFormed(b.tree)
    && NO_HASH !in b.tree
    && GenesisUnparented(b.tree)
    && HeadersStored(b.db, b.tree)
    && MetaMatches(b)
    && IndexCanonical(b.db, b.tree, b.meta.bestHash)
    && OnChain(b.tree, b.meta.finalizedHash, b.meta.bestHash)
  }

  // ---- Effects of index changes ------------------------------------------

  ghost predicate HasNumber(tree: Tree, blocks: seq<Hash>, n: nat) {
    exists h :: h in blocks && h in tree && tree[h].number == n
  }

  /** Only number keys of the given blocks may differ; nothing but the lookup column changes. */
  ghost predicate OnlyNumbersChanged(before: Db, after: Db) {
    && after == before.(lookup := after.lookup)
    && (forall h :: |h| == HASH_LENGTH ==> (h in after.lookup <==> h in before.lookup))
    && (forall h :: |h| == HASH_LENGTH && h in before.lookup && h in after.lookup ==> after.lookup[h] == before.lookup[h])
  }

  ghost predicate SameIndex(before: Db, after: Db, n: nat) {
    && (forall h :: Indexed(after, n, h) <==> Indexed(before, n, h))
    && (Unindexed(after, n) <==> Unindexed(before, n))
  }

  lemma {:induction false} RetractEffect(db: Db, tree: Tree, blocks: seq<Hash>, finalized: Hash)
    requires forall h :: h in blocks ==> h in tree && tree[h].number < U32_RANGE
    ensures RetractTx(tree, blocks, finalized).Ok? <==> finalized !in blocks
    ensures finalized in blocks ==> RetractTx(tree, blocks, finalized) == Err(NotInFinalizedChain)
    ensures RetractTx(tree, blocks, finalized).Ok? ==>
              var after := Commit(db, RetractTx(tree, blocks, finalized).value);
              && OnlyNumbersChanged(db, after)
              && (forall n: nat :: HasNumber(tree, blocks, n) ==> Unindexed(after, n))
              && (forall n: nat :: !HasNumber(tree, blocks, n) ==> SameIndex(db, after, n))
    decreases |blocks|
  {
    hide NumberBytes;
    if blocks != [] && blocks[0] != finalized {
      var n0 := tree[blocks[0]].number;
      var mid := ApplyChange(db, RemoveLookup(NumberBytes(n0)));
      RetractEffect(mid, tree, blocks[1..], finalized);
      if RetractTx(tree, blocks, finalized).Ok? {
        var tx := RetractTx(tree, blocks, finalized).value;
        assert tx[1..] == RetractTx(tree, blocks[1..], finalized).value;
        var after := Commit(db, tx);
        assert blocks == [blocks[0]] + blocks[1..];
        forall n: nat
          ensures HasNumber(tree, blocks, n) ==> Unindexed(after, n)
          ensures !HasNumber(tree, blocks, n) ==> SameIndex(db, after, n)
        {
          RemovedOne(db, n0, n);
          if HasNumber(tree, blocks[1..], n) {
            assert HasNumber(tree, blocks, n);
          } else if n == n0 {
            assert blocks[0] in blocks;
            assert SameIndex(mid, after, n);
          } else {
            assert !HasNumber(tree, blocks, n);
            assert SameIndex(mid, after, n);
          }
        }
      }
    }
  }

  lemma RemovedOne(db: Db, n0: nat, n: nat)
    requires n0 < U32_RANGE
    ensures var mid := ApplyChange(db, RemoveLookup(NumberBytes(n0)));
            && OnlyNumbersChanged(db, mid)
            && Unindexed(mid, n0)
            && (n != n0 ==> SameIndex(db, mid, n))
  {
    if n < U32_RANGE { KeysAreInjective(n, [], n0, []); }
  }

  lemma SetOne(db: Db, n0: nat, h0: Hash, n: nat)
    requires n0 < U32_RANGE
    ensures var mid := ApplyChange(db, SetLookup(NumberBytes(n0), NumberBytes(n0) + h0));
            && OnlyNumbersChanged(db, mid)
            && Indexed(mid, n0, h0)
            && (n != n0 ==> SameIndex(db, mid, n))
  {
    if n < U32_RANGE { KeysAreInjective(n, [], n0, []); }
  }

  ghost predicate DistinctNumbers(tree: Tree, blocks: seq<Hash>) {
    forall i, j :: 0 <= i < j < |blocks| && blocks[i] in tree && blocks[j] in tree ==>
      tree[blocks[i]].number != tree[blocks[j]].number
  }

  lemma {:induction false} EnactEffect(db: Db, tree: Tree, blocks: seq<Hash>)
    requires forall h :: h in blocks ==> h in tree && tree[h].number < U32_RANGE
    requires DistinctNumbers(tree, blocks)
    ensures EnactTx(tree, blocks).Ok?
    ensures var after := Commit(db, EnactTx(tree, blocks).value);
            && OnlyNumbersChanged(db, after)
            && (forall h :: h in blocks ==> Indexed(after, tree[h].number, h))
            && (forall n: nat :: !HasNumber(tree, blocks, n) ==> SameIndex(db, after, n))
    decreases |blocks|
  {
    if blocks != [] {
      var h0 := blocks[0];
      var n0 := tree[h0].number;
      var mid := ApplyChange(db, SetLookup(NumberBytes(n0), NumberBytes(n0) + h0));
      EnactEffect(mid, tree, blocks[1..]);
      var tx := EnactTx(tree, blocks).value;
      assert tx == [SetLookup(NumberBytes(n0), NumberBytes(n0) + h0)] + EnactTx(tree, blocks[1..]).value;
      assert tx[1..] == EnactTx(tree, blocks[1..]).value;
      var after := Commit(db, tx);
      assert blocks == [h0] + blocks[1..];
      SetOne(db, n0, h0, n0);
      assert !HasNumber(tree, blocks[1..], n0);
      assert SameIndex(mid, after, n0);
      forall n: nat | !HasNumber(tree, blocks, n) ensures SameIndex(db, after, n) {
        assert h0 in blocks;
        SetOne(db, n0, h0, n);
        assert forall h :: h in blocks[1..] ==> h in blocks;
        assert SameIndex(mid, after, n);
      }
    }
  }
}
