/** What a refused list of finalizations costs, and two small databases where an operation breaks a promise. */
module BlockDbRefusals {
  import opened Common
  import opened BlockTree
  import opened DbKeys
  import opened Leaves
  import opened BlockDb
  import opened BlockDbImport
  import opened BlockDbFinality
  import opened BlockDbPruning
  import opened BlockDbRuns

  /**
   * With pruning on, the body of a block off the finalized chain is held exactly when every branch
   * through the block that ended below the finalized height ends in a lost leaf. So losing leaves
   * never costs a body, and keeps those of branches that only lost leaves end.
   */
  lemma LostBranchesStay(node: Node, x: Hash)
    requires Good(node) && node.b.keepBlocks.Some? && x in node.contents
    requires !OnChain(node.b.tree, x, node.b.meta.finalizedHash)
    ensures x in node.b.tree && NumbersSmall(node.b.tree)
    ensures BodyKey(node.b.tree, x) in node.b.db.bodies <==>
              forall l, n: nat :: IsLeaf(node.b.tree, 0, n, l) && n < node.b.meta.finalizedNumber && OnChain(node.b.tree, x, l) ==> l in node.lost
    ensures Retained(node.b.tree, {}, node.b.keepBlocks, node.b.meta.finalizedHash, x) ==> BodyKey(node.b.tree, x) in node.b.db.bodies
  {
    assert BodyAsPromised(node.b, node.lost, node.contents, x);
    hide BodyKey, OnChain, IsLeaf, HeadersStored, IndexCanonical, FinalChain, Exact;
  }

  // ---- A fork ------------------------------------------------------------

  ghost predicate FourBlocks(g: Hash, a: Hash, s: Hash, t: Hash) {
    && |g| == HASH_LENGTH && |a| == HASH_LENGTH && |s| == HASH_LENGTH && |t| == HASH_LENGTH
    && g != NO_HASH && a != NO_HASH && s != NO_HASH && t != NO_HASH
    && g != a && g != s && g != t && a != s && a != t && s != t
  }

  /** Genesis `g`, the best chain `g`, `a`, `t`, and `s` beside `a`. */
  function ForkTree(g: Hash, a: Hash, s: Hash, t: Hash): Tree {
    map[g := Header(NO_HASH, 0)][a := Header(g, 1)][s := Header(g, 1)][t := Header(a, 2)]
  }

  function ForkOps(g: Hash, a: Hash, s: Hash, t: Hash, body: Body): seq<Op> {
    [ImportOp(Stored(a, g, 1), None, true), ImportOp(Stored(s, g, 1), Some(body), false), ImportOp(Stored(t, a, 2), None, true)]
  }

  ghost predicate IsFork(node: Node, g: Hash, a: Hash, s: Hash, t: Hash, body: Body) {
    && Good(node)
    && node.b.tree == ForkTree(g, a, s, t)
    && node.b.meta == Meta(t, 2, g, 0)
    && node.contents == map[s := body] && node.lost == {}
  }

  lemma ImportNext(node: Node, header: Stored, body: Option<Body>, isBest: bool)
    requires Good(node) && Importable(node.b, header) && header.number < U32_RANGE
    requires isBest ==> OnChain(node.b.tree, node.b.meta.finalizedHash, header.parent)
    ensures var op := ImportOp(header, body, isBest);
            && Legal(node.b, op)
            && var (node', error) := Apply(node, op);
               && Good(node')
               && node'.b.tree == GrownTree(node.b.tree, header)
               && node'.b.meta == (if isBest then node.b.meta.(bestHash := header.hash, bestNumber := header.number) else node.b.meta)
               && node'.b.keepBlocks == node.b.keepBlocks
               && node'.contents == (if body.Some? then node.contents[header.hash := body.value] else node.contents)
               && node'.lost == node.lost
  {
    hide Good, Valid, LeavesKnown, WellFormed, HeadersStored, OnChain, Import, ImportLeaf, LeavesBelow, FinalizeBatch, SetHead;
    GoodParts(node);
    ImportStep(node.b, header, body, isBest);
    ApplyKeepsGood(node, ImportOp(header, body, isBest));
  }

  lemma ForkRun(keepBlocks: Option<nat>, g: Hash, a: Hash, s: Hash, t: Hash, body: Body)
    requires FourBlocks(g, a, s, t)
    ensures var start := Start(keepBlocks, g, None);
            && Good(start) && LegalRun(start, ForkOps(g, a, s, t, body))
            && var node := Run(start, ForkOps(g, a, s, t, body));
               IsFork(node, g, a, s, t, body) && node.b.keepBlocks == keepBlocks
  {
    hide Good, Apply, Legal, WellFormed, OnChain, Start;
    GenesisValid(keepBlocks, g, None);
    var start, ops := Start(keepBlocks, g, None), ForkOps(g, a, s, t, body);
    StartIs(keepBlocks, g);
    GoodParts(start);
    OnOwnChain(start.b.tree, g);
    ImportNext(start, Stored(a, g, 1), None, true);
    var first := Apply(start, ops[0]).0;
    ImportNext(first, Stored(s, g, 1), Some(body), false);
    var second := Apply(first, ops[1]).0;
    GenesisOnChain(second, a);
    ImportNext(second, Stored(t, a, 2), None, true);
    var third := Apply(second, ops[2]).0;
    assert ops[1..] == [ops[1], ops[2]] && ops[1..][1..] == [ops[2]] && [ops[2]][1..] == [];
    assert LegalRun(third, []) && LegalRun(second, [ops[2]]) && LegalRun(first, ops[1..]);
    assert Run(third, []) == third && Run(second, [ops[2]]) == third && Run(first, ops[1..]) == third;
  }

  lemma StartIs(keepBlocks: Option<nat>, g: Hash)
    ensures var start := Start(keepBlocks, g, None);
            && start.b.tree == map[g := Header(NO_HASH, 0)] && start.b.meta == Meta(g, 0, g, 0) && start.b.keepBlocks == keepBlocks
            && start.contents == map[] && start.lost == {}
  {
  }

  lemma GenesisOnChain(node: Node, a: Hash)
    requires Good(node) && a in node.b.tree && node.b.tree[a].parent == node.b.meta.finalizedHash
    ensures OnChain(node.b.tree, node.b.meta.finalizedHash, a)
  {
    ChildNumber(node.b, a);
    ChainOfChild(node.b.tree, a, node.b.meta.finalizedHash);
    OnOwnChain(node.b.tree, node.b.meta.finalizedHash);
  }

  /** In the fork, `s` and `t` are the leaves, and only `s` is off the best chain. */
  lemma ForkShape(tree: Tree, g: Hash, a: Hash, s: Hash, t: Hash)
    requires FourBlocks(g, a, s, t) && tree == ForkTree(g, a, s, t) && WellFormed(tree)
    ensures forall n: nat, l :: IsLeaf(tree, 0, n, l) <==> (l == s && n == 1) || (l == t && n == 2)
    ensures OnChain(tree, a, t) && OnChain(tree, t, t) && OnChain(tree, s, s) && !OnChain(tree, s, t)
  {
    OnOwnChain(tree, t);
    OnOwnChain(tree, s);
    ChainOfChild(tree, t, a);
    ChainOfChild(tree, t, s);
    OnOwnChain(tree, a);
    assert !Childless(tree, g) by { assert tree[a].parent == g; }
    assert !Childless(tree, a) by { assert tree[t].parent == a; }
    assert Childless(tree, s) && Childless(tree, t);
    hide OnChain;
  }

  lemma ForkLists(tree: Tree, g: Hash, a: Hash, s: Hash, t: Hash)
    requires FourBlocks(g, a, s, t) && tree == ForkTree(g, a, s, t)
    ensures Chained(tree, g, [a, t]) && !Chained(tree, g, [a, t, t]) && ChainedLength(tree, g, [a, t, t]) == 2
  {
    var two, three, last := [a, t], [a, t, t], [t];
    assert two[1..] == last && three[1..] == [t, t] && [t, t][1..] == last && last[1..] == [];
    assert Chained(tree, t, []);
    assert Chained(tree, a, last);
    assert ChainedLength(tree, t, last) == 0 && !Chained(tree, t, last);
    assert ChainedLength(tree, a, [t, t]) == 1 && !Chained(tree, a, [t, t]);
  }

  /** Finalizing `s`, a child of the finalized block off the best chain, succeeds and breaks the database. */
  lemma OffBestFinalized(node: Node, g: Hash, a: Hash, s: Hash, t: Hash, body: Body)
    requires FourBlocks(g, a, s, t) && IsFork(node, g, a, s, t, body)
    ensures Valid(node.b) && LeavesKnown(node.b.tree, node.b.leaves)
    ensures var (b', error) := FinalizeBlock(node.b, s);
            error == None && b'.meta.finalizedHash == s && b'.meta.bestHash == t && !Valid(b')
  {
    GoodParts(node);
    ForkShape(node.b.tree, g, a, s, t);
    FinalizeStep(node.b, s);
    hide Good, Valid, FinalizeBlock, OnChain, LeavesKnown, IsLeaf, WellFormed, HeadersStored;
  }

  lemma RefusedLoses(node: Node, g: Hash, a: Hash, s: Hash, t: Hash, body: Body)
    requires FourBlocks(g, a, s, t) && IsFork(node, g, a, s, t, body)
    ensures Legal(node.b, FinalizeOp([a, t, t]))
    ensures var (refused, error) := Apply(node, FinalizeOp([a, t, t]));
            && error != None && Loses(node, FinalizeOp([a, t, t])) && Good(refused)
            && refused == node.(b := node.b.(leaves := refused.b.leaves), lost := {s})
            && Contains(node.b.leaves, 1, s) && !Contains(refused.b.leaves, 1, s)
  {
    hide Good, Valid, OnChain, WellFormed, FinalizeBatch, LeavesKnown, HeadersStored, ForkTree, Chained, KeepFrom, IsLeaf, Contains, LeavesBelow;
    var hs, b := [a, t, t], node.b;
    GoodParts(node);
    ForkLists(b.tree, g, a, s, t);
    ForkDrops(node, g, a, s, t, body);
    FailedBatch(node, hs);
    assert {} + {s} == {s};
  }

  lemma ForkDrops(node: Node, g: Hash, a: Hash, s: Hash, t: Hash, body: Body)
    requires FourBlocks(g, a, s, t) && IsFork(node, g, a, s, t, body)
    ensures IsLeaf(node.b.tree, 0, 1, s) && LeavesBelow(node.b, 2) == {s}
    ensures Contains(node.b.leaves, 1, s) && !Contains(KeepFrom(node.b.leaves, 2), 1, s)
  {
    hide Valid, BodiesExact, FinalChain, NumbersSmall, OnChain, WellFormed, HeadersStored, LeavesKnown, ForkTree, Flatten, Exact, IsLeaf, Contains, KeepFrom;
    GoodParts(node);
    ForkShape(node.b.tree, g, a, s, t);
    DroppingLoses(node.b.tree, 0, node.b.leaves, {}, 2);
    assert IsLeaf(node.b.tree, 0, 1, s);
    forall l ensures l in LeavesBelow(node.b, 2) <==> l == s {
      assert l in Flatten(node.b.leaves, 2) <==> exists k: nat :: IsLeaf(node.b.tree, 0, k, l) && l !in {} && k < 2;
    }
    LeafIsHeld(node.b.tree, 0, node.b.leaves, 1, s);
    NotKept(node.b.leaves, 2, 1, s);
  }

  lemma LeafIsHeld(tree: Tree, finalized: nat, leaves: Buckets, n: nat, l: Hash)
    requires Exact(tree, finalized, leaves, {}) && IsLeaf(tree, finalized, n, l)
    ensures Contains(leaves, n, l)
  {
  }

  lemma NotKept(leaves: Buckets, from: nat, n: nat, l: Hash)
    requires n < from
    ensures !Contains(KeepFrom(leaves, from), n, l)
  {
  }

  lemma FinalizedBoth(node: Node, g: Hash, a: Hash, s: Hash, t: Hash)
    requires FourBlocks(g, a, s, t) && Good(node) && node.b.tree == ForkTree(g, a, s, t) && node.b.meta == Meta(t, 2, g, 0)
    requires s in node.contents && node.b.keepBlocks.Some?
    ensures Legal(node.b, FinalizeOp([a, t]))
    ensures var (later, error) := Apply(node, FinalizeOp([a, t]));
            && error == None && NumbersSmall(later.b.tree) && s in later.b.tree
            && (BodyKey(later.b.tree, s) in later.b.db.bodies <==> s in node.lost)
  {
    hide Good, Valid, OnChain, WellFormed, FinalizeBatch, LeavesKnown, HeadersStored, BodyKey, IsLeaf, Loses, Reached, Chained, Retained, NumbersSmall;
    var hs := [a, t];
    GoodParts(node);
    ForkShape(node.b.tree, g, a, s, t);
    ForkLists(node.b.tree, g, a, s, t);
    FinalizeKeepsGood(node, hs);
    var later := Apply(node, FinalizeOp(hs)).0;
    LastFinal(later, node.finals, hs);
    LostBranchesStay(later, s);
    assert IsLeaf(node.b.tree, 0, 1, s);
  }

  lemma LastFinal(node: Node, finals: seq<Hash>, hs: seq<Hash>)
    requires Good(node) && hs != [] && node.finals == finals + hs
    ensures node.b.meta.finalizedHash == hs[|hs| - 1] && hs[|hs| - 1] in node.b.tree
    ensures node.b.meta.finalizedNumber == node.b.tree[hs[|hs| - 1]].number
  {
    GoodParts(node);
    hide Valid, LeavesExact, BodiesExact, NumbersSmall, LeavesKnown, WellFormed, HeadersStored;
  }

  /**
   * The list `a`, `t`, `t` is refused at its third block. The database is as before, but the leaf
   * `s` is gone. When `a` and `t` are finalized afterwards, the body of `s` stays; had the list
   * not been tried, it would have been pruned.
   */
  lemma RefusedMidway(node: Node, g: Hash, a: Hash, s: Hash, t: Hash, body: Body)
    requires FourBlocks(g, a, s, t) && IsFork(node, g, a, s, t, body) && node.b.keepBlocks.Some?
    ensures Legal(node.b, FinalizeOp([a, t, t])) && Legal(node.b, FinalizeOp([a, t]))
    ensures var (refused, error) := Apply(node, FinalizeOp([a, t, t]));
            && error != None && Loses(node, FinalizeOp([a, t, t]))
            && refused.b.db == node.b.db && refused.b.meta == node.b.meta
            && refused.lost == {s} && Contains(node.b.leaves, 1, s) && !Contains(refused.b.leaves, 1, s)
            && Good(refused) && Legal(refused.b, FinalizeOp([a, t]))
            && var (later, none) := Apply(refused, FinalizeOp([a, t]));
               && none == None && NumbersSmall(later.b.tree) && s in later.b.tree
               && BodyKey(later.b.tree, s) in later.b.db.bodies
    ensures var (clean, none) := Apply(node, FinalizeOp([a, t]));
            && none == None && NumbersSmall(clean.b.tree) && s in clean.b.tree
            && BodyKey(clean.b.tree, s) !in clean.b.db.bodies
  {
    hide Good, Apply, LeavesKnown, OnChain, WellFormed, HeadersStored, BodyKey, ForkTree;
    var tree := node.b.tree;
    GoodParts(node);
    RefusedLoses(node, g, a, s, t, body);
    var refused := Apply(node, FinalizeOp([a, t, t])).0;
    FinalizedBoth(node, g, a, s, t);
    FinalizedBoth(refused, g, a, s, t);
  }
}
