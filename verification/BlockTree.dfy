/**
 * The tree of known blocks and the route between two of its blocks.
 */
module BlockTree {
  import opened Common

  type Hash = Bytes

  datatype Header = Header(parent: Hash, number: nat)

  type Tree = map<Hash, Header>

  /** A block above height zero sits on a known parent, one lower. */
  predicate Linked(tree: Tree, h: Hash) {
    h in tree && (tree[h].number > 0 ==> tree[h].parent in tree && tree[tree[h].parent].number == tree[h].number - 1)
  }

  /** Every block is linked, and only one block has height zero. */
  ghost predicate WellFormed(tree: Tree) {
    && (forall h {:trigger Linked(tree, h)} :: h in tree ==> Linked(tree, h))
    && (forall g, h {:trigger Linked(tree, g), Linked(tree, h)} ::
          g in tree && h in tree && tree[g].number == 0 && tree[h].number == 0 ==> g == h)
  }

  function Parent(tree: Tree, h: Hash): (p: Hash)
    requires WellFormed(tree) && h in tree && tree[h].number > 0
    ensures p in tree && p == tree[h].parent && tree[p].number == tree[h].number - 1
  {
    assert Linked(tree, h);
    tree[h].parent
  }

  /** The block at height `n` on the chain that ends in `h`. */
  ghost function Ancestor(tree: Tree, h: Hash, n: nat): (a: Hash)
    requires WellFormed(tree) && h in tree && n <= tree[h].number
    ensures a in tree && tree[a].number == n
    decreases tree[h].number
  {
    if tree[h].number == n then h else Ancestor(tree, Parent(tree, h), n)
  }

  /** `a` is `h` or one of its ancestors. */
  ghost predicate OnChain(tree: Tree, a: Hash, h: Hash)
    requires WellFormed(tree) && h in tree
  {
    a in tree && tree[a].number <= tree[h].number && Ancestor(tree, h, tree[a].number) == a
  }

  lemma OnOwnChain(tree: Tree, h: Hash)
    requires WellFormed(tree) && h in tree
    ensures OnChain(tree, h, h)
    ensures forall a :: OnChain(tree, a, h) && tree[a].number >= tree[h].number ==> a == h
  {
  }

  lemma OneBlockPerHeight(tree: Tree, top: Hash, a: Hash, b: Hash)
    requires WellFormed(tree) && top in tree && OnChain(tree, a, top) && OnChain(tree, b, top)
    ensures tree[a].number == tree[b].number ==> a == b
  {
  }

  lemma {:induction false} AncestorOfAncestor(tree: Tree, h: Hash, n: nat, m: nat)
    requires WellFormed(tree) && h in tree && m <= n <= tree[h].number
    ensures Ancestor(tree, Ancestor(tree, h, n), m) == Ancestor(tree, h, m)
    decreases tree[h].number
  {
    if n < tree[h].number {
      AncestorOfAncestor(tree, Parent(tree, h), n, m);
    }
  }

  lemma OnChainTransitive(tree: Tree, a: Hash, b: Hash, c: Hash)
    requires WellFormed(tree) && b in tree && c in tree
    requires OnChain(tree, a, b) && OnChain(tree, b, c)
    ensures OnChain(tree, a, c)
  {
    AncestorOfAncestor(tree, c, tree[b].number, tree[a].number);
  }

  /** Two blocks of one chain are ordered by height. */
  lemma OnChainLinear(tree: Tree, a: Hash, b: Hash, c: Hash)
    requires WellFormed(tree) && c in tree && OnChain(tree, a, c) && OnChain(tree, b, c)
    requires tree[a].number <= tree[b].number
    ensures OnChain(tree, a, b)
  {
    AncestorOfAncestor(tree, c, tree[b].number, tree[a].number);
  }

  /** The parent of a block on a chain is on the chain. */
  lemma ParentOnChain(tree: Tree, a: Hash, h: Hash)
    requires WellFormed(tree) && h in tree && OnChain(tree, a, h) && tree[a].number > 0
    ensures OnChain(tree, Parent(tree, a), h)
  {
    AncestorOfAncestor(tree, h, tree[a].number, tree[a].number - 1);
  }

  /** Adding a block above an existing one moves no existing chain. */
  lemma {:induction false} AncestorInLargerTree(tree: Tree, larger: Tree, h: Hash, n: nat)
    requires WellFormed(tree) && WellFormed(larger) && h in tree && n <= tree[h].number
    requires forall x :: x in tree ==> x in larger && larger[x] == tree[x]
    ensures Ancestor(larger, h, n) == Ancestor(tree, h, n)
    decreases tree[h].number
  {
    if n < tree[h].number {
      AncestorInLargerTree(tree, larger, Parent(tree, h), n);
      assert Parent(larger, h) == Parent(tree, h);
    }
  }

  lemma ExtendedTree(tree: Tree, h: Hash, parent: Hash)
    requires WellFormed(tree) && h !in tree && parent in tree
    ensures WellFormed(tree[h := Header(parent, tree[parent].number + 1)])
  {
    var larger := tree[h := Header(parent, tree[parent].number + 1)];
    forall x | x in larger ensures Linked(larger, x) {
      if x != h { assert Linked(tree, x); }
    }
    forall g, x | g in larger && x in larger && larger[g].number == 0 && larger[x].number == 0 ensures g == x {
      assert Linked(tree, g) && Linked(tree, x);
    }
  }

  /** The tree with a new block on top of a known one. */
  function WithBlock(tree: Tree, h: Hash, parent: Hash): Tree
    requires parent in tree
  {
    tree[h := Header(parent, tree[parent].number + 1)]
  }

  /** Growing moves no existing chain, and the new chain continues that of the parent. */
  lemma WithBlockChains(tree: Tree, h: Hash, parent: Hash)
    requires WellFormed(tree) && h !in tree && parent in tree
    ensures WellFormed(WithBlock(tree, h, parent))
    ensures forall x, n: nat :: x in tree && n <= tree[x].number ==> Ancestor(WithBlock(tree, h, parent), x, n) == Ancestor(tree, x, n)
    ensures forall n: nat :: n <= tree[parent].number ==> Ancestor(WithBlock(tree, h, parent), h, n) == Ancestor(tree, parent, n)
  {
    var larger := WithBlock(tree, h, parent);
    ExtendedTree(tree, h, parent);
    forall x, n: nat | x in tree && n <= tree[x].number ensures Ancestor(larger, x, n) == Ancestor(tree, x, n) {
      AncestorInLargerTree(tree, larger, x, n);
    }
    assert Parent(larger, h) == parent;
  }

  lemma SameGenesis(tree: Tree, a: Hash, b: Hash)
    requires WellFormed(tree) && a in tree && b in tree
    ensures Ancestor(tree, a, 0) == Ancestor(tree, b, 0)
  {
    assert Linked(tree, Ancestor(tree, a, 0)) && Linked(tree, Ancestor(tree, b, 0));
  }

  // ---- Routes ------------------------------------------------------------

  /** The greatest height, not above `n`, at which the two chains hold the same block. */
  ghost function MeetingHeight(tree: Tree, a: Hash, b: Hash, n: nat): (p: nat)
    requires WellFormed(tree) && a in tree && b in tree && n <= tree[a].number && n <= tree[b].number
    ensures p <= n
    ensures Ancestor(tree, a, p) == Ancestor(tree, b, p)
    ensures forall k :: p < k <= n ==> Ancestor(tree, a, k) != Ancestor(tree, b, k)
    decreases n
  {
    if Ancestor(tree, a, n) == Ancestor(tree, b, n) then n else
    SameGenesis(tree, a, b);
    MeetingHeight(tree, a, b, n - 1)
  }

  ghost function CommonHeight(tree: Tree, a: Hash, b: Hash): nat
    requires WellFormed(tree) && a in tree && b in tree
  {
    MeetingHeight(tree, a, b, if tree[a].number <= tree[b].number then tree[a].number else tree[b].number)
  }

  /** The chain above height `p`, highest block first. */
  ghost function Descending(tree: Tree, h: Hash, p: nat): seq<Hash>
    requires WellFormed(tree) && h in tree
    decreases tree[h].number
  {
    if tree[h].number <= p then [] else [h] + Descending(tree, Parent(tree, h), p)
  }

  lemma {:induction false} DescendingMembers(tree: Tree, h: Hash, p: nat, x: Hash)
    requires WellFormed(tree) && h in tree
    ensures x in Descending(tree, h, p) <==> OnChain(tree, x, h) && tree[x].number > p
    decreases tree[h].number
  {
    if tree[h].number > p {
      DescendingMembers(tree, Parent(tree, h), p, x);
    }
  }

  ghost function Reversed<T>(s: seq<T>): seq<T> {
    if s == [] then [] else Reversed(s[1..]) + [s[0]]
  }

  lemma {:induction false} ReversedMembers<T>(s: seq<T>, x: T)
    ensures x in Reversed(s) <==> x in s
  {
    if s != [] {
      ReversedMembers(s[1..], x);
      assert s == [s[0]] + s[1..];
    }
  }

  lemma {:induction false} ReversedAppend<T>(s: seq<T>, x: T)
    ensures Reversed(s + [x]) == [x] + Reversed(s)
  {
    if s != [] {
      assert (s + [x])[1..] == s[1..] + [x];
      ReversedAppend(s[1..], x);
    }
  }

  /** Blocks left when the head moves from `a` to `b`, highest first. */
  ghost function Retracted(tree: Tree, a: Hash, b: Hash): seq<Hash>
    requires WellFormed(tree) && a in tree && b in tree
  {
    Descending(tree, a, CommonHeight(tree, a, b))
  }

  /** Blocks entered when the head moves from `a` to `b`, lowest first. */
  ghost function Enacted(tree: Tree, a: Hash, b: Hash): seq<Hash>
    requires WellFormed(tree) && a in tree && b in tree
  {
    Reversed(Descending(tree, b, CommonHeight(tree, a, b)))
  }

  /** A block is shared by both chains exactly when it is on one of them at or below the common height. */
  lemma SharedBelowCommon(tree: Tree, a: Hash, b: Hash, x: Hash)
    requires WellFormed(tree) && a in tree && b in tree && x in tree
    ensures OnChain(tree, x, a) && tree[x].number <= CommonHeight(tree, a, b) ==> OnChain(tree, x, b)
    ensures OnChain(tree, x, a) && tree[x].number > CommonHeight(tree, a, b) ==> !OnChain(tree, x, b)
    ensures OnChain(tree, x, b) && tree[x].number <= CommonHeight(tree, a, b) ==> OnChain(tree, x, a)
  {
    var p := CommonHeight(tree, a, b);
    if tree[x].number <= p {
      AncestorOfAncestor(tree, a, p, tree[x].number);
      AncestorOfAncestor(tree, b, p, tree[x].number);
    }
  }

  /**
   * What a tree route means: the retracted blocks are exactly those of the old chain that are not
   * on the new one, and the enacted blocks exactly those of the new chain that are not on the old.
   */
  lemma RouteSplitsChains(tree: Tree, a: Hash, b: Hash, x: Hash)
    requires WellFormed(tree) && a in tree && b in tree
    ensures x in Retracted(tree, a, b) <==> OnChain(tree, x, a) && !OnChain(tree, x, b)
    ensures x in Enacted(tree, a, b) <==> OnChain(tree, x, b) && !OnChain(tree, x, a)
  {
    var p := CommonHeight(tree, a, b);
    DescendingMembers(tree, a, p, x);
    DescendingMembers(tree, b, p, x);
    ReversedMembers(Descending(tree, b, p), x);
    if x in tree {
      SharedBelowCommon(tree, a, b, x);
      CommonIsSymmetric(tree, a, b);
      SharedBelowCommon(tree, b, a, x);
    }
  }

  lemma CommonIsSymmetric(tree: Tree, a: Hash, b: Hash)
    requires WellFormed(tree) && a in tree && b in tree
    ensures CommonHeight(tree, a, b) == CommonHeight(tree, b, a)
  {
    var p, q := CommonHeight(tree, a, b), CommonHeight(tree, b, a);
    assert Ancestor(tree, a, q) == Ancestor(tree, b, q);
    assert Ancestor(tree, a, p) == Ancestor(tree, b, p);
  }

  datatype RouteError = UnknownBlock(hash: Hash)

  /** A route: retracted blocks, the common block, enacted blocks. */
  datatype Route = Route(retracted: seq<Hash>, common: Hash, enacted: seq<Hash>)

  /** `h` was reached from `top` by parent links; `branch` holds the blocks passed, `p` is not yet passed. */
  ghost predicate Climbed(tree: Tree, top: Hash, h: Hash, p: nat, branch: seq<Hash>)
    requires WellFormed(tree) && top in tree
  {
    && OnChain(tree, h, top)
    && p <= tree[h].number
    && branch + Descending(tree, h, p) == Descending(tree, top, p)
  }

  lemma ClimbOnce(tree: Tree, top: Hash, h: Hash, p: nat, branch: seq<Hash>)
    requires WellFormed(tree) && top in tree && Climbed(tree, top, h, p, branch) && tree[h].number > p
    ensures Climbed(tree, top, Parent(tree, h), p, branch + [h])
  {
    ParentOnChain(tree, h, top);
    assert branch + Descending(tree, h, p) == branch + [h] + Descending(tree, Parent(tree, h), p);
  }

  /** Walks both branches back, level by level, until they hold the same block. */
  method TreeRoute(tree: Tree, from: Hash, to: Hash) returns (route: Result<Route, RouteError>)
    requires WellFormed(tree)
    ensures route.Ok? <==> from in tree && to in tree
    ensures route.Ok? ==>
              && route.value.common == Ancestor(tree, from, CommonHeight(tree, from, to))
              && route.value.retracted == Retracted(tree, from, to)
              && route.value.enacted == Enacted(tree, from, to)
  {
    if from !in tree {
      return Err(UnknownBlock(from));
    }
    if to !in tree {
      return Err(UnknownBlock(to));
    }
    ghost var p := CommonHeight(tree, from, to);
    hide Descending;
    var a, b := from, to;
    var fromBranch: seq<Hash> := [];
    var toBranch: seq<Hash> := [];
    while tree[b].number > tree[a].number
      invariant Climbed(tree, to, b, p, toBranch)
      decreases tree[b].number
    {
      ClimbOnce(tree, to, b, p, toBranch);
      toBranch := toBranch + [b];
      b := Parent(tree, b);
    }
    while tree[a].number > tree[b].number
      invariant Climbed(tree, from, a, p, fromBranch)
      invariant tree[b].number <= tree[a].number
      decreases tree[a].number
    {
      ClimbOnce(tree, from, a, p, fromBranch);
      fromBranch := fromBranch + [a];
      a := Parent(tree, a);
    }
    while b != a
      invariant Climbed(tree, to, b, p, toBranch)
      invariant Climbed(tree, from, a, p, fromBranch)
      invariant tree[a].number == tree[b].number
      decreases tree[a].number
    {
      StillApart(tree, from, to, a, b);
      ClimbOnce(tree, to, b, p, toBranch);
      toBranch := toBranch + [b];
      b := Parent(tree, b);
      ClimbOnce(tree, from, a, p, fromBranch);
      fromBranch := fromBranch + [a];
      a := Parent(tree, a);
    }
    RouteEnds(tree, from, to, a, fromBranch, toBranch);
    var reversed := Reverse(toBranch);
    return Ok(Route(fromBranch, a, reversed));
  }

  /** Where the two climbs meet is the common block. */
  lemma RouteEnds(tree: Tree, from: Hash, to: Hash, h: Hash, fromBranch: seq<Hash>, toBranch: seq<Hash>)
    requires WellFormed(tree) && from in tree && to in tree
    requires Climbed(tree, from, h, CommonHeight(tree, from, to), fromBranch)
    requires Climbed(tree, to, h, CommonHeight(tree, from, to), toBranch)
    ensures CommonHeight(tree, from, to) <= tree[from].number
    ensures h == Ancestor(tree, from, CommonHeight(tree, from, to))
    ensures fromBranch == Retracted(tree, from, to)
    ensures Reversed(toBranch) == Enacted(tree, from, to)
  {
    hide Ancestor, CommonHeight;
    MeetAtCommon(tree, from, to, h);
    var p := CommonHeight(tree, from, to);
    assert Descending(tree, h, p) == [];
    assert toBranch == toBranch + [] == Descending(tree, to, p);
  }

  lemma MeetAtCommon(tree: Tree, from: Hash, to: Hash, h: Hash)
    requires WellFormed(tree) && from in tree && to in tree
    requires OnChain(tree, h, from) && OnChain(tree, h, to) && CommonHeight(tree, from, to) <= tree[h].number
    ensures CommonHeight(tree, from, to) == tree[h].number
  {
  }

  /** Different blocks at one height are still above the common block. */
  lemma StillApart(tree: Tree, from: Hash, to: Hash, a: Hash, b: Hash)
    requires WellFormed(tree) && from in tree && to in tree
    requires OnChain(tree, a, from) && OnChain(tree, b, to) && tree[a].number == tree[b].number && a != b
    requires CommonHeight(tree, from, to) <= tree[a].number
    ensures CommonHeight(tree, from, to) < tree[a].number
  {
  }

  method Reverse<T>(s: seq<T>) returns (r: seq<T>)
    ensures r == Reversed(s)
  {
    r := [];
    for i := 0 to |s|
      invariant r == Reversed(s[..i])
    {
      ReversedAppend(s[..i], s[i]);
      assert s[..i + 1] == s[..i] + [s[i]];
      r := [s[i]] + r;
    }
    assert s[..|s|] == s;
  }
}
