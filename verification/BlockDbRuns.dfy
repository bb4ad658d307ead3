/** Whole runs of the block database, from genesis on. */
module BlockDbRuns {
  import opened Common
  import opened BlockTree
  import opened DbKeys
  import opened Leaves
  import opened BlockDb
  import opened BlockDbHeads
  import opened BlockDbImport
  import opened BlockDbFinality
  import opened BlockDbPruning

  datatype Op =
    | ImportOp(header: Stored, body: Option<Body>, isBest: bool)
    | HeadOp(hash: Hash)
    | FinalizeOp(hashes: seq<Hash>)

  /** The backend, with what a run has imported, finalized and dropped from the leaf set so far. */
  datatype Node = Node(b: Backend, contents: map<Hash, Body>, finals: seq<Hash>, lost: set<Hash>)

  // ---- Genesis -----------------------------------------------------------

  function EmptyDb(): Db {
    Db(map[], map[], map[], None, None)
  }

  function EmptyBackend(keepBlocks: Option<nat>): Backend {
    Backend(EmptyDb(), map[], Meta(NO_HASH, 0, NO_HASH, 0), map[], keepBlocks)
  }

  /** The genesis import: best and finalized at once. */
  ghost function ImportGenesis(b: Backend, hash: Hash, body: Option<Body>): Backend
    requires WellFormed(b.tree)
  {
    var header := Stored(hash, NO_HASH, 0);
    var key := NumberBytes(0) + hash;
    var head := SetHeadTx(b, NO_HASH, 0, hash);
    b.(db := Commit(b.db, (if head.Ok? then head.value else []) + BlockRecord(header, key, body) + [SetFinal(key)]),
       tree := GrownTree(b.tree, header),
       leaves := ImportLeaf(b.leaves, hash, 0, NO_HASH),
       meta := UpdateMeta(b.meta, hash, 0, true, true))
  }

  ghost function Start(keepBlocks: Option<nat>, hash: Hash, body: Option<Body>): Node {
    Node(ImportGenesis(EmptyBackend(keepBlocks), hash, body),
         if body.Some? then map[hash := body.value] else map[],
         [hash], {})
  }

  lemma GenesisDb(keepBlocks: Option<nat>, hash: Hash, body: Option<Body>)
    requires |hash| == HASH_LENGTH
    ensures var key := NumberBytes(0) + hash;
            ImportGenesis(EmptyBackend(keepBlocks), hash, body).db ==
              Db(map[NumberBytes(0) := key, hash := key], map[key := Stored(hash, NO_HASH, 0)],
                 if body.Some? then map[key := body.value] else map[], Some(key), Some(key))
  {
    hide NumberBytes, Commit, ApplyChange;
    var b := EmptyBackend(keepBlocks);
    var key := NumberBytes(0) + hash;
    var header := Stored(hash, NO_HASH, 0);
    SetHeadTxShape(b, NO_HASH, 0, hash);
    assert RouteTx(b, NO_HASH) == Ok([]);
    var head := HeadRecord(0, hash);
    assert [] + head == head;
    var record := BlockRecord(header, key, body);
    var last := [SetFinal(key)];
    CommitConcat(b.db, head + record, last);
    CommitConcat(b.db, head, record);
    FirstHead(hash);
    var d1 := Commit(b.db, head);
    BlockRecordEffect(d1, header, key, body);
    FinalRecord(Commit(d1, record), key);
    hide RouteTx, HeadRecord, BlockRecord;
  }

  lemma FirstHead(hash: Hash)
    ensures var key := NumberBytes(0) + hash;
            Commit(EmptyDb(), HeadRecord(0, hash)) == Db(map[NumberBytes(0) := key], map[], map[], Some(key), None)
  {
    hide NumberBytes;
    var head := HeadRecord(0, hash);
    CommitTwo(EmptyDb(), head[0], head[1]);
    hide Commit;
  }

  lemma FinalRecord(db: Db, key: Bytes)
    ensures Commit(db, [SetFinal(key)]) == db.(finalKey := Some(key))
  {
    CommitOne(db, SetFinal(key));
    hide Commit;
  }

  lemma CommitOne(db: Db, c: Change)
    ensures Commit(db, [c]) == ApplyChange(db, c)
  {
    var tx := [c];
    assert tx[1..] == [];
  }

  lemma CommitTwo(db: Db, c: Change, d: Change)
    ensures Commit(db, [c, d]) == ApplyChange(ApplyChange(db, c), d)
  {
    var tx := [c, d];
    assert tx[1..] == [d];
    CommitOne(ApplyChange(db, c), d);
  }

  lemma GenesisValid(keepBlocks: Option<nat>, hash: Hash, body: Option<Body>)
    requires |hash| == HASH_LENGTH && hash != NO_HASH
    ensures Good(Start(keepBlocks, hash, body))
  {
    hide NumberBytes, Valid, LeavesExact, BodiesExact, Commit, SetHeadTx, BlockRecord, ImportLeaf, WellFormed;
    GenesisDb(keepBlocks, hash, body);
    var node := Start(keepBlocks, hash, body);
    var b := node.b;
    assert b.tree == map[hash := Header(NO_HASH, 0)];
    FirstLeaf(hash);
    GenesisIsValid(b, hash);
    GenesisBodies(b, node.contents, hash);
  }

  lemma FirstLeaf(hash: Hash)
    ensures ImportLeaf(map[], hash, 0, NO_HASH) == map[0 := [hash]]
  {
    assert [] + [hash] == [hash];
  }

  lemma GenesisIsValid(b: Backend, hash: Hash)
    requires |hash| == HASH_LENGTH && hash != NO_HASH
    requires b.tree == map[hash := Header(NO_HASH, 0)] && b.meta == Meta(hash, 0, hash, 0) && b.leaves == map[0 := [hash]]
    requires var key := NumberBytes(0) + hash;
             && b.db.lookup == map[NumberBytes(0) := key, hash := key]
             && b.db.headers == map[key := Stored(hash, NO_HASH, 0)]
             && b.db.bestKey == Some(key) && b.db.finalKey == Some(key)
    ensures Valid(b) && LeavesExact(b, {})
  {
    assert Linked(b.tree, hash);
    assert |NumberBytes(0)| == 4;
    hide NumberBytes;
    assert Recorded(b.db, b.tree, hash);
    assert Indexed(b.db, 0, Ancestor(b.tree, hash, 0));
    forall n: nat | n > 0 ensures Unindexed(b.db, n) {
      if n < U32_RANGE { KeysAreInjective(n, [], 0, []); }
    }
    forall n: nat, h ensures Contains(b.leaves, n, h) <==> IsLeaf(b.tree, 0, n, h) {
      assert Childless(b.tree, hash);
    }
  }

  lemma GenesisBodies(b: Backend, contents: map<Hash, Body>, hash: Hash)
    requires Valid(b) && b.tree == map[hash := Header(NO_HASH, 0)] && NumbersSmall(b.tree) && b.meta.finalizedHash == hash
    requires contents.Keys <= {hash}
    requires b.db.bodies == if hash in contents then map[BodyKey(b.tree, hash) := contents[hash]] else map[]
    ensures BodiesExact(b, {}, contents)
  {
    OnOwnChain(b.tree, hash);
    assert Retained(b.tree, {}, b.keepBlocks, hash, hash);
    assert BodyAsPromised(b, {}, contents, hash);
    hide Retained, BodyKey, IndexCanonical, HeadersStored, WellFormed;
  }

  // ---- Steps -------------------------------------------------------------

  /** Each block is the parent of the next, starting from `fin`. */
  predicate Chained(tree: Tree, fin: Hash, hs: seq<Hash>)
    decreases |hs|
  {
    hs == [] || (hs[0] in tree && tree[hs[0]].parent == fin && Chained(tree, hs[0], hs[1..]))
  }

  /** How many hashes at the front of the list are each a known child of the one before. */
  function ChainedLength(tree: Tree, fin: Hash, hs: seq<Hash>): nat
    decreases |hs|
  {
    if hs != [] && hs[0] in tree && tree[hs[0]].parent == fin then 1 + ChainedLength(tree, hs[0], hs[1..]) else 0
  }

  lemma {:induction false} ChainedLengthIsLongest(tree: Tree, fin: Hash, hs: seq<Hash>)
    ensures var k := ChainedLength(tree, fin, hs);
            && k <= |hs|
            && Chained(tree, fin, hs[..k])
            && (k < |hs| ==> !Chained(tree, fin, hs[..k + 1]))
            && (k == |hs| <==> Chained(tree, fin, hs))
    decreases |hs|
  {
    if hs != [] && hs[0] in tree && tree[hs[0]].parent == fin {
      ChainedLengthIsLongest(tree, hs[0], hs[1..]);
      var k := ChainedLength(tree, hs[0], hs[1..]);
      assert hs[..k + 1][1..] == hs[1..][..k];
      if k + 1 < |hs| { assert hs[..k + 2][1..] == hs[1..][..k + 1]; }
    }
  }

  /** The height at which an operation finalizing `hs` stops: its end, or where it is refused. */
  function Reached(b: Backend, hs: seq<Hash>): nat {
    b.meta.finalizedNumber + ChainedLength(b.tree, b.meta.finalizedHash, hs)
  }

  /** Finalized blocks from genesis to the current one, each the parent of the next. */
  ghost predicate FinalChain(b: Backend, finals: seq<Hash>) {
    && finals != [] && finals[|finals| - 1] == b.meta.finalizedHash
    && (forall i :: 0 <= i < |finals| ==> finals[i] in b.tree && b.tree[finals[i]].number == i)
    && (forall i :: 0 < i < |finals| ==> b.tree[finals[i]].parent == finals[i - 1])
  }

  /** The invariant of every run. */
  ghost predicate Good(node: Node) {
    && Valid(node.b)
    && NumbersSmall(node.b.tree)
    && LeavesExact(node.b, node.lost)
    && BodiesExact(node.b, node.lost, node.contents)
    && FinalChain(node.b, node.finals)
  }

  /**
   * What a run may do: import fresh blocks above the finalized height; try to finalize any list of
   * blocks, where a list that goes through lies on the best chain.
   */
  ghost predicate Legal(b: Backend, op: Op)
    requires WellFormed(b.tree) && b.meta.bestHash in b.tree
  {
    match op
    case ImportOp(header, _, _) => Importable(b, header)
    case HeadOp(h) => |h| == HASH_LENGTH
    case FinalizeOp(hs) =>
      && (forall i :: 0 <= i < |hs| ==> |hs[i]| == HASH_LENGTH)
      && (Chained(b.tree, b.meta.finalizedHash, hs) ==> forall i :: 0 <= i < |hs| ==> OnChain(b.tree, hs[i], b.meta.bestHash))
  }

  ghost function Apply(node: Node, op: Op): (Node, Option<DbError>)
    requires Good(node) && Legal(node.b, op)
  {
    LeavesAreKnown(node.b, node.lost);
    match op
    case ImportOp(header, body, isBest) =>
      var (b', error) := Import(node.b, header, body, isBest);
      (node.(b := b', contents := if error.None? && body.Some? then node.contents[header.hash := body.value] else node.contents),
       error)
    case HeadOp(h) =>
      var (b', error) := SetHead(node.b, h);
      (node.(b := b'), error)
    case FinalizeOp(hs) =>
      var (b', error) := FinalizeBatch(node.b, hs, node.b.leaves, node.b.meta, []);
      (if error.None? then node.(b := b', finals := node.finals + hs)
       else node.(b := b', lost := node.lost + LeavesBelow(node.b, Reached(node.b, hs))), error)
  }

  /** The leaves in memory below a height. */
  function LeavesBelow(b: Backend, n: nat): set<Hash> {
    set h | h in Flatten(b.leaves, n)
  }

  /** A list of finalizations is refused after passing some leaf that was not lost before. */
  ghost predicate Loses(node: Node, op: Op) {
    && op.FinalizeOp?
    && !Chained(node.b.tree, node.b.meta.finalizedHash, op.hashes)
    && exists n: nat, l :: IsLeaf(node.b.tree, node.b.meta.finalizedNumber, n, l) && l !in node.lost && n < Reached(node.b, op.hashes)
  }

  /**
   * Every operation keeps the invariant and never moves finality back. An error changes nothing,
   * except that a list of finalizations refused past a leaf loses it.
   */
  lemma ApplyKeepsGood(node: Node, op: Op)
    requires Good(node) && Legal(node.b, op)
    ensures var (node', error) := Apply(node, op);
            && Good(node')
            && (error != None ==> node' == node.(b := node.b.(leaves := node'.b.leaves), lost := node'.lost))
            && (error != None && !Loses(node, op) ==> node' == node)
            && (node'.lost == node.lost <==> !Loses(node, op))
            && node.lost <= node'.lost && node.finals <= node'.finals
            && OnChain(node'.b.tree, node.b.meta.finalizedHash, node'.b.meta.finalizedHash)
  {
    OnOwnChain(node.b.tree, node.b.meta.finalizedHash);
    hide Importable;
    match op {
      case ImportOp(header, body, isBest) => ImportKeepsGood(node, header, body, isBest);
      case HeadOp(h) => HeadKeepsGood(node, h);
      case FinalizeOp(hs) => FinalizeKeepsGood(node, hs);
    }
    hide Good, Import, SetHead, FinalizeBatch, OnChain, Chained, Reached, LeavesBelow, IsLeaf;
  }

  lemma HeadKeepsGood(node: Node, h: Hash)
    requires Good(node) && |h| == HASH_LENGTH
    ensures var (b', error) := SetHead(node.b, h);
            Good(node.(b := b')) && (error != None ==> b' == node.b)
            && b'.meta.finalizedHash == node.b.meta.finalizedHash && b'.tree == node.b.tree
  {
    hide SetHead, Valid, BodiesExact, Exact, NumbersSmall, WellFormed;
    SetHeadStep(node.b, h);
    GoodParts(node);
    var b' := SetHead(node.b, h).0;
    SameBodies(node.b, b', node.lost, node.contents);
  }

  lemma SameBodies(b: Backend, b': Backend, lost: set<Hash>, contents: map<Hash, Body>)
    requires Valid(b) && Valid(b') && NumbersSmall(b.tree) && BodiesExact(b, lost, contents)
    requires b'.tree == b.tree && b'.keepBlocks == b.keepBlocks && b'.db.bodies == b.db.bodies
    requires b'.meta.finalizedHash == b.meta.finalizedHash
    ensures BodiesExact(b', lost, contents)
  {
    hide Retained, BodyKey;
    forall x | x in b'.tree ensures BodyAsPromised(b', lost, contents, x) { assert BodyAsPromised(b, lost, contents, x); }
  }

  // ---- Importing ---------------------------------------------------------

  lemma ImportBodyEffect(b: Backend, header: Stored, body: Option<Body>, isBest: bool)
    requires Valid(b) && Importable(b, header)
    ensures var (b', error) := Import(b, header, body, isBest);
            error == None ==>
              && header.number < U32_RANGE
              && b'.db.bodies == if body.Some? then b.db.bodies[NumberBytes(header.number) + header.hash := body.value] else b.db.bodies
  {
    ImportStep(b, header, body, isBest);
    hide NumberBytes;
    var (b', error) := Import(b, header, body, isBest);
    if error == None {
      var key := NumberBytes(header.number) + header.hash;
      var record := BlockRecord(header, key, body);
      if isBest {
        RouteAccepted(b, header.parent);
        SetHeadTxShape(b, header.parent, header.number, header.hash);
        RouteIndexes(b, header.parent);
        var route, head := RouteTx(b, header.parent).value, HeadRecord(header.number, header.hash);
        CommitConcat(b.db, route + head, record);
        CommitConcat(b.db, route, head);
        HeadRecordEffect(Commit(b.db, route), header.number, header.hash);
        BlockRecordEffect(Commit(b.db, route + head), header, key, body);
        assert b'.db == Commit(b.db, route + head + record);
      } else {
        assert [] + record == record;
        BlockRecordEffect(b.db, header, key, body);
      }
    }
    hide Valid, RouteTx, Commit, SameIndex, BlockRecord, HeadRecord;
  }

  /** A block above the finalized height moves no promise about older blocks. */
  lemma RetainedInGrownTree(b: Backend, lost: set<Hash>, header: Stored, x: Hash)
    requires Valid(b) && Importable(b, header) && x in b.tree
    ensures WellFormed(GrownTree(b.tree, header))
    ensures Retained(GrownTree(b.tree, header), lost, b.keepBlocks, b.meta.finalizedHash, x) <==>
              Retained(b.tree, lost, b.keepBlocks, b.meta.finalizedHash, x)
  {
    GrownTreeFacts(b.tree, header);
    BranchesInGrownTree(b.tree, lost, header, b.meta.finalizedNumber, x);
    hide HeadersStored, IndexCanonical, OnDisplacedBranch;
  }

  lemma BranchesInGrownTree(tree: Tree, lost: set<Hash>, header: Stored, f: nat, x: Hash)
    requires WellFormed(tree) && header.hash !in tree && header.parent in tree && header.number == tree[header.parent].number + 1
    requires header.number > f && x in tree
    ensures WellFormed(GrownTree(tree, header))
    ensures OnDisplacedBranch(GrownTree(tree, header), lost, 0, f, x) <==> OnDisplacedBranch(tree, lost, 0, f, x)
  {
    var larger := GrownTree(tree, header);
    GrownTreeFacts(tree, header);
    if OnDisplacedBranch(larger, lost, 0, f, x) {
      var l, n: nat :| IsLeaf(larger, 0, n, l) && l !in lost && n < f && OnChain(larger, x, l);
      ChildlessKept(tree, larger, header.hash, header.parent, l);
      assert IsLeaf(tree, 0, n, l) && OnChain(tree, x, l);
    }
    if OnDisplacedBranch(tree, lost, 0, f, x) {
      var l, n: nat :| IsLeaf(tree, 0, n, l) && l !in lost && n < f && OnChain(tree, x, l);
      ChildlessKept(tree, larger, header.hash, header.parent, l);
      assert IsLeaf(larger, 0, n, l) && OnChain(larger, x, l);
    }
  }

  lemma NewBlockRetained(tree: Tree, lost: set<Hash>, keepBlocks: Option<nat>, finalized: Hash, h: Hash)
    requires WellFormed(tree) && finalized in tree && h in tree && tree[h].number > tree[finalized].number
    ensures Retained(tree, lost, keepBlocks, finalized, h)
  {
  }

  lemma ImportKeepsGood(node: Node, header: Stored, body: Option<Body>, isBest: bool)
    requires Good(node) && Importable(node.b, header)
    ensures var (b', error) := Import(node.b, header, body, isBest);
            var contents' := if error.None? && body.Some? then node.contents[header.hash := body.value] else node.contents;
            && Good(node.(b := b', contents := contents'))
            && (error != None ==> b' == node.b)
            && OnChain(b'.tree, node.b.meta.finalizedHash, b'.meta.finalizedHash)
  {
    var b := node.b;
    ImportStep(b, header, body, isBest);
    ImportBodyEffect(b, header, body, isBest);
    var (b', error) := Import(b, header, body, isBest);
    OnOwnChain(b'.tree, b'.meta.finalizedHash);
    if error == None {
      LeavesAfterImport(b, header, node.lost);
      ImportKeepsBodies(b, b', node.lost, header, body, node.contents);
      FinalChainGrows(b, b', header, node.finals);
    }
    hide Valid, Import, Exact, BodiesExact, FinalChain, NumberBytes, OnChain;
  }

  lemma FinalChainGrows(b: Backend, b': Backend, header: Stored, finals: seq<Hash>)
    requires FinalChain(b, finals) && header.hash !in b.tree
    requires b'.tree == GrownTree(b.tree, header) && b'.meta.finalizedHash == b.meta.finalizedHash
    ensures FinalChain(b', finals)
  {
  }

  lemma ImportKeepsBodies(b: Backend, b': Backend, lost: set<Hash>, header: Stored, body: Option<Body>, contents: map<Hash, Body>)
    requires Valid(b) && Valid(b') && Importable(b, header) && header.number < U32_RANGE
    requires NumbersSmall(b.tree) && BodiesExact(b, lost, contents)
    requires b'.tree == GrownTree(b.tree, header) && b'.keepBlocks == b.keepBlocks
    requires b'.meta.finalizedHash == b.meta.finalizedHash
    requires b'.db.bodies == if body.Some? then b.db.bodies[NumberBytes(header.number) + header.hash := body.value] else b.db.bodies
    ensures NumbersSmall(b'.tree)
    ensures BodiesExact(b', lost, if body.Some? then contents[header.hash := body.value] else contents)
  {
    hide Valid, NumberBytes, Retained, IndexCanonical, HeadersStored, BodyKey, WellFormed;
    ValidParts(b);
    ValidParts(b');
    FinalizedKnown(b);
    var contents' := if body.Some? then contents[header.hash := body.value] else contents;
    assert NumbersSmall(b'.tree);
    FreshKey(b.tree, b.db.bodies, header);
    forall x | x in b'.tree ensures BodyAsPromised(b', lost, contents', x) {
      if x == header.hash {
        NewBlockRetained(b'.tree, lost, b'.keepBlocks, b'.meta.finalizedHash, x);
        NewKey(b.tree, header);
      } else {
        assert BodyAsPromised(b, lost, contents, x);
        RetainedInGrownTree(b, lost, header, x);
        KeyInGrownTree(b.tree, header, x);
      }
    }
    KeysStayKnown(b.tree, b'.tree, b.db.bodies, b'.db.bodies, header);
  }

  lemma NewKey(tree: Tree, header: Stored)
    requires header.number < U32_RANGE
    ensures BodyKey(GrownTree(tree, header), header.hash) == NumberBytes(header.number) + header.hash
  {
  }

  lemma KeyInGrownTree(tree: Tree, header: Stored, x: Hash)
    requires header.number < U32_RANGE && NumbersSmall(tree) && header.hash !in tree && x in tree
    ensures BodyKey(GrownTree(tree, header), x) == BodyKey(tree, x)
    ensures BodyKey(tree, x) != NumberBytes(header.number) + header.hash
  {
    KeysAreInjective(tree[x].number, x, header.number, header.hash);
    hide NumberBytes;
  }

  lemma KeysStayKnown(tree: Tree, larger: Tree, before: map<Bytes, Body>, after: map<Bytes, Body>, header: Stored)
    requires NumbersSmall(tree) && NumbersSmall(larger) && header.hash !in tree && larger == GrownTree(tree, header)
    requires forall key :: key in before ==> exists x :: x in tree && BodyKey(tree, x) == key
    requires header.number < U32_RANGE && after.Keys <= before.Keys + {NumberBytes(header.number) + header.hash}
    ensures forall key :: key in after ==> exists x :: x in larger && BodyKey(larger, x) == key
  {
    hide NumberBytes;
    forall key | key in after ensures exists x :: x in larger && BodyKey(larger, x) == key {
      if key in before {
        var x :| x in tree && BodyKey(tree, x) == key;
        assert BodyKey(larger, x) == key;
      } else {
        assert BodyKey(larger, header.hash) == key;
      }
    }
  }

  lemma FinalizedKnown(b: Backend)
    requires Valid(b)
    ensures b.meta.finalizedHash in b.tree && b.tree[b.meta.finalizedHash].number == b.meta.finalizedNumber
  {
  }

  lemma FreshKey(tree: Tree, bodies: map<Bytes, Body>, header: Stored)
    requires NumbersSmall(tree) && header.hash !in tree && header.number < U32_RANGE
    requires forall key :: key in bodies ==> exists x :: x in tree && BodyKey(tree, x) == key
    ensures NumberBytes(header.number) + header.hash !in bodies
  {
    var key := NumberBytes(header.number) + header.hash;
    if key in bodies {
      var x :| x in tree && BodyKey(tree, x) == key;
      KeysAreInjective(tree[x].number, x, header.number, header.hash);
      assert false;
    }
  }

  // ---- Finalizing --------------------------------------------------------

  lemma FinalChainNext(b: Backend, b': Backend, finals: seq<Hash>, h: Hash)
    requires Valid(b) && FinalChain(b, finals) && h in b.tree && b.tree[h].parent == b.meta.finalizedHash
    requires b'.tree == b.tree && b'.meta.finalizedHash == h
    ensures FinalChain(b', finals + [h])
    ensures OnChain(b.tree, b.meta.finalizedHash, h)
  {
    ChildNumber(b, h);
    ChainOfChild(b.tree, h, b.meta.finalizedHash);
    OnOwnChain(b.tree, b.meta.finalizedHash);
  }

  /** Finalizing blocks of the best chain one at a time keeps every state on the way good. */
  lemma {:induction false} EachKeepsGood(node: Node, hs: seq<Hash>)
    requires Good(node) && Legal(node.b, FinalizeOp(hs)) && Chained(node.b.tree, node.b.meta.finalizedHash, hs)
    ensures LeavesKnown(node.b.tree, node.b.leaves)
    ensures var (b', error) := FinalizeEach(node.b, hs);
            && error == None
            && b'.tree == node.b.tree && b'.keepBlocks == node.b.keepBlocks
            && Good(node.(b := b', finals := node.finals + hs))
            && OnChain(node.b.tree, node.b.meta.finalizedHash, b'.meta.finalizedHash)
    decreases |hs|
  {
    hide Good, LeavesKnown, OnChain, FinalizeBlock, HeadersStored, WellFormed, Legal, Valid;
    var b := node.b;
    GoodParts(node);
    OnOwnChain(b.tree, b.meta.finalizedHash);
    if hs == [] {
      assert node.finals + hs == node.finals;
    } else {
      var h := hs[0];
      FirstFinalizable(b, hs);
      OneKeepsGood(node, h);
      var node1 := node.(b := FinalizeBlock(b, h).0, finals := node.finals + [h]);
      assert node.finals + [h] + hs[1..] == node.finals + hs;
      GoodParts(node1);
      TailFinalizable(b, node1.b, hs);
      EachKeepsGood(node1, hs[1..]);
      var b' := FinalizeEach(node1.b, hs[1..]).0;
      GoodParts(node.(b := b', finals := node.finals + hs));
      OnChainTransitive(b.tree, b.meta.finalizedHash, h, b'.meta.finalizedHash);
    }
  }

  lemma GoodParts(node: Node)
    requires Good(node)
    ensures var b := node.b;
            && Valid(b) && WellFormed(b.tree) && HeadersStored(b.db, b.tree)
            && LeavesKnown(b.tree, b.leaves)
            && b.meta.bestHash in b.tree && b.meta.finalizedHash in b.tree
            && b.tree[b.meta.finalizedHash].number == b.meta.finalizedNumber
  {
    LeavesAreKnown(node.b, node.lost);
  }

  lemma FirstFinalizable(b: Backend, hs: seq<Hash>)
    requires WellFormed(b.tree) && b.meta.bestHash in b.tree && Legal(b, FinalizeOp(hs)) && hs != []
    requires Chained(b.tree, b.meta.finalizedHash, hs)
    ensures OnChain(b.tree, hs[0], b.meta.bestHash)
    ensures forall i :: 0 <= i < |hs| ==> |hs[i]| == HASH_LENGTH
  {
  }

  lemma OneKeepsGood(node: Node, h: Hash)
    requires Good(node) && |h| == HASH_LENGTH
    requires h in node.b.tree && node.b.tree[h].parent == node.b.meta.finalizedHash && OnChain(node.b.tree, h, node.b.meta.bestHash)
    ensures LeavesKnown(node.b.tree, node.b.leaves)
    ensures var (b1, error) := FinalizeBlock(node.b, h);
            && error == None
            && Good(node.(b := b1, finals := node.finals + [h]))
            && b1.tree == node.b.tree && b1.keepBlocks == node.b.keepBlocks && b1.meta.finalizedHash == h && b1.meta.bestHash == node.b.meta.bestHash
    ensures OnChain(node.b.tree, node.b.meta.finalizedHash, h)
  {
    var b := node.b;
    LeavesAreKnown(b, node.lost);
    FinalizeStep(b, h);
    var b1 := FinalizeBlock(b, h).0;
    FinalizeBodies(b, node.lost, h, node.contents);
    FinalChainNext(b, b1, node.finals, h);
    hide Valid, LeavesExact, BodiesExact, FinalChain, NumbersSmall, LeavesKnown, OnChain, FinalizeBlock, HeadersStored, WellFormed;
  }

  lemma TailFinalizable(b: Backend, b1: Backend, hs: seq<Hash>)
    requires WellFormed(b.tree) && b.meta.bestHash in b.tree && Legal(b, FinalizeOp(hs)) && hs != []
    requires Chained(b.tree, b.meta.finalizedHash, hs)
    requires b1.tree == b.tree && b1.meta.bestHash == b.meta.bestHash && b1.meta.finalizedHash == hs[0]
    ensures Legal(b1, FinalizeOp(hs[1..])) && Chained(b1.tree, b1.meta.finalizedHash, hs[1..])
  {
  }

  lemma KeepFromFinalized(b: Backend, lost: set<Hash>)
    requires LeavesExact(b, lost)
    ensures KeepFrom(b.leaves, b.meta.finalizedNumber) == b.leaves
  {
    forall n | n in b.leaves ensures n >= b.meta.finalizedNumber {
      assert Contains(b.leaves, n, b.leaves[n][0]);
    }
  }

  lemma KeepFromTwice(leaves: Buckets, m: nat, n: nat)
    requires m <= n
    ensures KeepFrom(KeepFrom(leaves, m), n) == KeepFrom(leaves, n)
  {
  }

  /**
   * Finalizing any blocks one at a time: it goes through exactly when each is a known child of the
   * one before, and otherwise stops where the chain of children breaks.
   */
  lemma {:induction false} EachReaches(b: Backend, hs: seq<Hash>)
    requires WellFormed(b.tree) && HeadersStored(b.db, b.tree) && LeavesKnown(b.tree, b.leaves)
    requires NO_HASH !in b.tree && GenesisUnparented(b.tree)
    requires b.meta.finalizedHash in b.tree && b.tree[b.meta.finalizedHash].number == b.meta.finalizedNumber
    requires KeepFrom(b.leaves, b.meta.finalizedNumber) == b.leaves
    requires forall i :: 0 <= i < |hs| ==> |hs[i]| == HASH_LENGTH
    ensures var (b', error) := FinalizeEach(b, hs);
            && (error == None <==> Chained(b.tree, b.meta.finalizedHash, hs))
            && b'.meta.finalizedNumber == Reached(b, hs)
            && b'.leaves == KeepFrom(b.leaves, Reached(b, hs))
    decreases |hs|
  {
    hide HeadersStored, LeavesKnown, KeepFrom, NoteTx, Commit;
    if hs != [] {
      var h := hs[0];
      HeaderFound(b.db, b.tree, h);
      FinalizeKeepsRecords(b, h);
      if h in b.tree && b.tree[h].parent == b.meta.finalizedHash {
        assert Linked(b.tree, h);
        var b1 := FinalizeBlock(b, h).0;
        assert b1.meta == b.meta.(finalizedHash := h, finalizedNumber := b.meta.finalizedNumber + 1);
        KeepFromTwice(b.leaves, b1.meta.finalizedNumber, b1.meta.finalizedNumber);
        EachReaches(b1, hs[1..]);
        KeepFromTwice(b.leaves, b1.meta.finalizedNumber, Reached(b1, hs[1..]));
      }
    }
  }

  lemma BatchStart(b: Backend, hs: seq<Hash>)
    requires Valid(b) && LeavesKnown(b.tree, b.leaves) && forall i :: 0 <= i < |hs| ==> |hs[i]| == HASH_LENGTH
    ensures var (batch, error) := FinalizeBatch(b, hs, b.leaves, b.meta, []);
            var (each, failed) := FinalizeEach(b, hs);
            && error == failed
            && (error == None ==> batch == each)
            && (error != None ==> batch == b.(leaves := each.leaves))
  {
    assert Tracks(b, b, b.leaves, b.meta, []);
    BatchIsOneByOne(b, b, hs, b.leaves, b.meta, []);
  }

  lemma FinalizeKeepsGood(node: Node, hs: seq<Hash>)
    requires Good(node) && Legal(node.b, FinalizeOp(hs))
    ensures LeavesKnown(node.b.tree, node.b.leaves)
    ensures var (b', error) := FinalizeBatch(node.b, hs, node.b.leaves, node.b.meta, []);
            var lost' := node.lost + LeavesBelow(node.b, Reached(node.b, hs));
            && (error == None <==> Chained(node.b.tree, node.b.meta.finalizedHash, hs))
            && (error == None ==> Good(node.(b := b', finals := node.finals + hs)))
            && (error != None ==> && Good(node.(b := b', lost := lost')) && b' == node.b.(leaves := b'.leaves)
                                  && (lost' == node.lost <==> !Loses(node, FinalizeOp(hs)))
                                  && (!Loses(node, FinalizeOp(hs)) ==> b' == node.b))
            && b'.tree == node.b.tree && b'.keepBlocks == node.b.keepBlocks
            && OnChain(node.b.tree, node.b.meta.finalizedHash, b'.meta.finalizedHash)
  {
    hide Good, Valid, LeavesKnown, FinalizeBatch, FinalizeEach, OnChain, Reached, LeavesBelow, IsLeaf, Chained;
    GoodParts(node);
    OnOwnChain(node.b.tree, node.b.meta.finalizedHash);
    if Chained(node.b.tree, node.b.meta.finalizedHash, hs) {
      EachKeepsGood(node, hs);
      BatchStart(node.b, hs);
    } else {
      FailedBatch(node, hs);
    }
  }

  /**
   * A list is refused exactly when some block in it is not a known child of the one before. The
   * database and the head records stay as they were, but the leaves below the height where the
   * chain of children breaks are gone from memory. Nothing changes exactly when there are none.
   */
  lemma FailedBatch(node: Node, hs: seq<Hash>)
    requires Good(node) && forall i :: 0 <= i < |hs| ==> |hs[i]| == HASH_LENGTH
    requires !Chained(node.b.tree, node.b.meta.finalizedHash, hs)
    ensures LeavesKnown(node.b.tree, node.b.leaves)
    ensures var (b', error) := FinalizeBatch(node.b, hs, node.b.leaves, node.b.meta, []);
            var lost' := node.lost + LeavesBelow(node.b, Reached(node.b, hs));
            && error != None
            && b' == node.b.(leaves := KeepFrom(node.b.leaves, Reached(node.b, hs)))
            && Good(node.(b := b', lost := lost'))
            && (b' == node.b <==> !Loses(node, FinalizeOp(hs)))
            && (LeavesExact(b', node.lost) <==> !Loses(node, FinalizeOp(hs)))
            && (lost' == node.lost <==> !Loses(node, FinalizeOp(hs)))
  {
    hide Valid, Exact, BodiesExact, FinalChain, NumbersSmall, LeavesKnown, FinalizeBatch, KeepFrom, IsLeaf, Reached, Chained, LeavesBelow;
    var b := node.b;
    RefusedBatch(node, hs);
    GoodParts(node);
    var reached := Reached(b, hs);
    DropKeepsGood(node, reached);
    DropsNothing(b, node.lost, reached);
  }

  lemma RefusedBatch(node: Node, hs: seq<Hash>)
    requires Good(node) && forall i :: 0 <= i < |hs| ==> |hs[i]| == HASH_LENGTH
    requires !Chained(node.b.tree, node.b.meta.finalizedHash, hs)
    ensures LeavesKnown(node.b.tree, node.b.leaves)
    ensures var (b', error) := FinalizeBatch(node.b, hs, node.b.leaves, node.b.meta, []);
            error != None && b' == node.b.(leaves := KeepFrom(node.b.leaves, Reached(node.b, hs)))
  {
    GoodParts(node);
    KeepFromFinalized(node.b, node.lost);
    EachReaches(node.b, hs);
    BatchStart(node.b, hs);
    hide LeavesKnown, FinalizeBatch, FinalizeEach, KeepFrom, Exact, HeadersStored, WellFormed, IndexCanonical;
  }

  lemma DropKeepsGood(node: Node, n: nat)
    requires Good(node)
    ensures var b' := node.b.(leaves := KeepFrom(node.b.leaves, n));
            Good(node.(b := b', lost := node.lost + LeavesBelow(node.b, n)))
  {
    hide Valid, Exact, BodiesExact, NumbersSmall, KeepFrom, Flatten, Childless;
    var b := node.b;
    var b' := b.(leaves := KeepFrom(b.leaves, n));
    var dropped := LeavesBelow(b, n);
    DroppingLoses(b.tree, b.meta.finalizedNumber, b.leaves, node.lost, n);
    forall l | l in dropped ensures l in b.tree && b.tree[l].number >= b.meta.finalizedNumber {
      var k: nat :| IsLeaf(b.tree, b.meta.finalizedNumber, k, l);
    }
    SamePromises(b, b', node.lost, dropped, node.contents);
  }

  lemma DropsNothing(b: Backend, lost: set<Hash>, n: nat)
    requires LeavesExact(b, lost)
    ensures var some := exists k: nat, l :: IsLeaf(b.tree, b.meta.finalizedNumber, k, l) && l !in lost && k < n;
            && (KeepFrom(b.leaves, n) == b.leaves <==> !some)
            && (Exact(b.tree, b.meta.finalizedNumber, KeepFrom(b.leaves, n), lost) <==> !some)
            && (lost + LeavesBelow(b, n) == lost <==> !some)
  {
    var gone := Flatten(b.leaves, n);
    DroppingLoses(b.tree, b.meta.finalizedNumber, b.leaves, lost, n);
    if gone != [] {
      assert gone[0] in LeavesBelow(b, n) && gone[0] !in lost;
    } else {
      assert LeavesBelow(b, n) == {};
    }
    if k: nat, l :| IsLeaf(b.tree, b.meta.finalizedNumber, k, l) && l !in lost && k < n {
      assert l in gone;
      assert !Contains(KeepFrom(b.leaves, n), k, l);
    }
    hide KeepFrom, IsLeaf, Flatten;
  }

  /** Losing leaves not below the finalized block moves no promise about bodies until more is finalized. */
  lemma SamePromises(b: Backend, b': Backend, lost: set<Hash>, dropped: set<Hash>, contents: map<Hash, Body>)
    requires Valid(b) && NumbersSmall(b.tree) && BodiesExact(b, lost, contents)
    requires b' == b.(leaves := b'.leaves)
    requires forall l :: l in dropped ==> l in b.tree && b.tree[l].number >= b.meta.finalizedNumber
    ensures Valid(b') && BodiesExact(b', lost + dropped, contents)
  {
    hide BodyKey, OnDisplacedBranch, IndexCanonical, HeadersStored;
    forall x | x in b'.tree ensures BodyAsPromised(b', lost + dropped, contents, x) {
      assert BodyAsPromised(b, lost, contents, x);
      SameBranches(b.tree, lost, dropped, b.meta.finalizedNumber, x);
    }
  }

  lemma SameBranches(tree: Tree, lost: set<Hash>, dropped: set<Hash>, f: nat, x: Hash)
    requires WellFormed(tree) && forall l :: l in dropped ==> l in tree && tree[l].number >= f
    ensures OnDisplacedBranch(tree, lost + dropped, 0, f, x) <==> OnDisplacedBranch(tree, lost, 0, f, x)
  {
    if OnDisplacedBranch(tree, lost, 0, f, x) {
      var l, n: nat :| IsLeaf(tree, 0, n, l) && l !in lost && n < f && OnChain(tree, x, l);
      assert l !in lost + dropped;
    }
  }

  // ---- Runs --------------------------------------------------------------

  ghost predicate LegalRun(node: Node, ops: seq<Op>)
    requires Good(node)
    decreases |ops|
  {
    ops != [] ==>
      Legal(node.b, ops[0]) && (ApplyKeepsGood(node, ops[0]); LegalRun(Apply(node, ops[0]).0, ops[1..]))
  }

  ghost function Run(node: Node, ops: seq<Op>): Node
    requires Good(node) && LegalRun(node, ops)
    decreases |ops|
  {
    if ops == [] then node else
    ApplyKeepsGood(node, ops[0]);
    Run(Apply(node, ops[0]).0, ops[1..])
  }

  /** Some list of finalizations of the run is refused past a leaf not lost before. */
  ghost predicate LosingRun(node: Node, ops: seq<Op>)
    requires Good(node) && LegalRun(node, ops)
    decreases |ops|
  {
    ops != [] &&
    (Loses(node, ops[0]) || (ApplyKeepsGood(node, ops[0]); LosingRun(Apply(node, ops[0]).0, ops[1..])))
  }

  /** Every run keeps the invariant, and loses a leaf exactly when some list is refused past one. */
  lemma {:induction false} RunKeepsGood(node: Node, ops: seq<Op>)
    requires Good(node) && LegalRun(node, ops)
    ensures Good(Run(node, ops))
    ensures node.lost <= Run(node, ops).lost
    ensures Run(node, ops).lost == node.lost <==> !LosingRun(node, ops)
    ensures node.finals <= Run(node, ops).finals
    decreases |ops|
  {
    hide Good, Legal, Apply, Loses;
    GoodParts(node);
    if ops != [] {
      ApplyKeepsGood(node, ops[0]);
      RunKeepsGood(Apply(node, ops[0]).0, ops[1..]);
    }
  }

  /**
   * Over every run from genesis: the index answers each height with the best block's ancestor
   * there and nothing above; the finalized blocks are a chain of children starting at genesis,
   * all of them on the best chain; the leaf set holds exactly the childless blocks from the
   * finalized height up, but for the lost ones, and none are lost unless a list of finalizations
   * was refused past a leaf; and the body column holds exactly the bodies the pruning mode
   * promises, given what was lost.
   */
  lemma DatabaseSafety(keepBlocks: Option<nat>, genesis: Hash, body: Option<Body>, ops: seq<Op>)
    requires |genesis| == HASH_LENGTH && genesis != NO_HASH
    ensures Good(Start(keepBlocks, genesis, body))
    ensures LegalRun(Start(keepBlocks, genesis, body), ops) ==>
              var start := Start(keepBlocks, genesis, body);
              var node := Run(start, ops);
              && Good(node)
              && (forall n: nat :: n < U32_RANGE ==>
                    CanonicalHash(node.b.db, n) ==
                      Ok(if n <= node.b.meta.bestNumber then Some(Ancestor(node.b.tree, node.b.meta.bestHash, n)) else None))
              && node.finals[0] == genesis
              && (forall i :: 0 <= i < |node.finals| ==> OnChain(node.b.tree, node.finals[i], node.b.meta.bestHash))
              && (forall n: nat, h :: Contains(node.b.leaves, n, h) <==>
                    IsLeaf(node.b.tree, node.b.meta.finalizedNumber, n, h) && h !in node.lost)
              && (node.lost == {} <==> !LosingRun(start, ops))
              && BodiesExact(node.b, node.lost, node.contents)
  {
    hide LegalRun, LosingRun, Run, Start, BodiesExact, CanonicalHash, OnChain, NumbersSmall, FinalChain, IsLeaf, Ancestor, IndexCanonical, HeadersStored;
    GenesisValid(keepBlocks, genesis, body);
    StartsWhole(keepBlocks, genesis, body);
    var start := Start(keepBlocks, genesis, body);
    if LegalRun(start, ops) {
      RunKeepsGood(start, ops);
      var node := Run(start, ops);
      forall n: nat | n < U32_RANGE
        ensures CanonicalHash(node.b.db, n) ==
                  Ok(if n <= node.b.meta.bestNumber then Some(Ancestor(node.b.tree, node.b.meta.bestHash, n)) else None)
      {
        CanonicalHashIs(node.b, n);
      }
      forall i | 0 <= i < |node.finals| ensures OnChain(node.b.tree, node.finals[i], node.b.meta.bestHash) {
        FinalsOnChain(node.b, node.finals, i);
      }
    }
  }

  lemma StartsWhole(keepBlocks: Option<nat>, genesis: Hash, body: Option<Body>)
    ensures Start(keepBlocks, genesis, body).lost == {} && Start(keepBlocks, genesis, body).finals == [genesis]
  {
  }

  lemma {:induction false} FinalsOnChain(b: Backend, finals: seq<Hash>, i: nat)
    requires Valid(b) && FinalChain(b, finals) && i < |finals|
    ensures OnChain(b.tree, finals[i], b.meta.bestHash)
    decreases |finals| - i
  {
    if i + 1 < |finals| {
      FinalsOnChain(b, finals, i + 1);
      ParentOnChain(b.tree, finals[i + 1], b.meta.bestHash);
    }
  }
}
