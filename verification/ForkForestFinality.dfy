/** Finalizing in the forest of pending changes: changes are enacted in order, competing ones pruned. */
module ForkForestFinality {
  import opened Common
  import opened BlockTree
  import opened ForkForest

  /** `a` is `b` or one of its ancestors. */
  ghost predicate OnBranch(tree: Tree, a: Hash, b: Hash)
    requires WellFormed(tree)
  {
    a == b || Descends(tree, a, b)
  }

  datatype Finalization = Changed(enacted: Option<PendingChange>) | Unchanged

  /** The first root on the finalized branch that takes effect at or below height `n`. */
  ghost function FirstEffective(tree: Tree, nodes: seq<Node>, f: Hash, n: nat): Option<Node>
    requires WellFormed(tree)
  {
    if nodes == [] then None
    else if Effective(nodes[0].change) <= n && OnBranch(tree, nodes[0].change.hash, f) then Some(nodes[0])
    else FirstEffective(tree, nodes[1..], f, n)
  }

  ghost predicate PastChild(tree: Tree, children: seq<Node>, f: Hash, n: nat)
    requires WellFormed(tree)
  {
    children != [] &&
    ((children[0].change.height <= n && Descends(tree, children[0].change.hash, f)) || PastChild(tree, children[1..], f, n))
  }

  ghost predicate RootStays(tree: Tree, c: PendingChange, f: Hash, n: nat)
    requires WellFormed(tree)
  {
    || (c.height > n && Descends(tree, f, c.hash))
    || (c.height == n && c.hash == f)
    || Descends(tree, c.hash, f)
  }

  ghost function Retain(tree: Tree, nodes: seq<Node>, f: Hash, n: nat): seq<Node>
    requires WellFormed(tree)
  {
    if nodes == [] then []
    else (if RootStays(tree, nodes[0].change, f, n) then [nodes[0]] else []) + Retain(tree, nodes[1..], f, n)
  }

  ghost function Finalize(tree: Tree, forest: Forest, f: Hash, n: nat): Result<(Forest, Finalization), ForestError>
    requires WellFormed(tree)
  {
    if forest.bestFinalized.Some? && n <= forest.bestFinalized.value then Err(Revert)
    else
      var found := FirstEffective(tree, forest.roots, f, n);
      if found.Some? && PastChild(tree, found.value.children, f, n) then Err(UnfinalizedAncestor)
      else
        var roots := if found.Some? then found.value.children else forest.roots;
        var kept := Retain(tree, roots, f, n);
        var outcome := if found.Some? then Changed(Some(found.value.change))
                       else if kept != roots then Changed(None)
                       else Unchanged;
        Ok((Forest(kept, Some(n)), outcome))
  }

  // ---- What stays --------------------------------------------------------

  ghost predicate Related(tree: Tree, a: Hash, b: Hash)
    requires WellFormed(tree)
  {
    OnBranch(tree, a, b) || OnBranch(tree, b, a)
  }

  /** `c` is related to the finalized block, or hangs below a pending change on the finalized branch. */
  ghost predicate Kept(tree: Tree, changes: set<PendingChange>, f: Hash, c: PendingChange)
    requires WellFormed(tree)
  {
    c in changes &&
    (Related(tree, c.hash, f) || exists r :: r in changes && OnBranch(tree, r.hash, f) && Descends(tree, r.hash, c.hash))
  }

  lemma BranchTransitive(tree: Tree, a: Hash, b: Hash, c: Hash)
    requires WellFormed(tree) && OnBranch(tree, a, b) && OnBranch(tree, b, c)
    ensures OnBranch(tree, a, c)
  {
    if a != b && b != c { DescendsTransitive(tree, a, b, c); }
  }

  lemma BranchLinear(tree: Tree, a: Hash, b: Hash, c: Hash)
    requires WellFormed(tree) && OnBranch(tree, a, c) && OnBranch(tree, b, c)
    ensures Related(tree, a, b)
  {
    if a != c && b != c { DescendsLinear(tree, a, b, c); }
  }

  lemma RootStaysIsRelated(tree: Tree, c: PendingChange, f: Hash)
    requires WellFormed(tree) && f in tree && c.hash in tree && tree[c.hash].number == c.height
    ensures RootStays(tree, c, f, tree[f].number) <==> Related(tree, c.hash, f)
  {
    if Descends(tree, f, c.hash) { DescendsIsHigher(tree, f, c.hash); }
  }

  /** A whole tree stays or goes with its root. */
  lemma TreeKept(tree: Tree, top: PendingChange, below: set<PendingChange>, f: Hash, c: PendingChange)
    requires WellFormed(tree) && Below(tree, top, below) && c in {top} + below
    ensures Kept(tree, {top} + below, f, c) <==> Related(tree, top.hash, f)
  {
    var all := {top} + below;
    assert OnBranch(tree, top.hash, c.hash) by { assert c != top ==> c in below; }
    if Related(tree, top.hash, f) {
      if OnBranch(tree, f, top.hash) {
        BranchTransitive(tree, f, top.hash, c.hash);
      } else if c != top {
        assert top in all && OnBranch(tree, top.hash, f) && Descends(tree, top.hash, c.hash);
      }
    }
    if Kept(tree, all, f, c) {
      if OnBranch(tree, c.hash, f) {
        BranchTransitive(tree, top.hash, c.hash, f);
      } else if OnBranch(tree, f, c.hash) {
        BranchLinear(tree, top.hash, f, c.hash);
      } else {
        var r :| r in all && OnBranch(tree, r.hash, f) && Descends(tree, r.hash, c.hash);
        assert OnBranch(tree, top.hash, r.hash) by { assert r != top ==> r in below; }
        BranchTransitive(tree, top.hash, r.hash, f);
      }
    }
  }

  /** Separate trees are judged separately. */
  lemma KeptSplits(tree: Tree, s: set<PendingChange>, t: set<PendingChange>, f: Hash, c: PendingChange)
    requires WellFormed(tree) && AllApart(tree, s, t) && c in s
    ensures Kept(tree, s + t, f, c) <==> Kept(tree, s, f, c)
    ensures Kept(tree, t + s, f, c) <==> Kept(tree, s, f, c)
  {
    hide Descends, Related, OnBranch, WellFormed;
    if Kept(tree, s + t, f, c) && !Related(tree, c.hash, f) {
      var r :| r in s + t && OnBranch(tree, r.hash, f) && Descends(tree, r.hash, c.hash);
      assert r in t ==> Apart(tree, c.hash, r.hash);
    }
    assert s + t == t + s;
  }

  lemma {:induction false} RetainStep(tree: Tree, nodes: seq<Node>, f: Hash)
    requires WellFormed(tree) && f in tree && Ordered(tree, nodes) && Known(tree, Members(nodes))
    ensures var kept := Retain(tree, nodes, f, tree[f].number);
            && Ordered(tree, kept)
            && (forall c :: c in Members(kept) <==> Kept(tree, Members(nodes), f, c))
            && (kept == nodes <==> Members(kept) == Members(nodes))
            && |kept| <= |nodes|
    decreases nodes
  {
    hide WellFormed, Descends, AllApart, Below, Ordered, Members, Kept, Known, Related, RootStays;
    if nodes == [] {
      NothingKept(tree, f);
    } else {
      var n := tree[f].number;
      var top, first, rest := nodes[0].change, [nodes[0]], nodes[1..];
      var kept, keptRest := Retain(tree, nodes, f, n), Retain(tree, rest, f, n);
      FirstAndRest(tree, nodes);
      KnownParts(tree, Members(first), Members(rest));
      RetainStep(tree, rest, f);
      KnownTop(tree, Members(first), top);
      RootStaysIsRelated(tree, top, f);
      KeptAll(tree, top, Members(nodes[0].children), Members(rest), f);
      KeptInside(tree, Members(rest), f, Members(keptRest));
      TopOutside(tree, Members(first), Members(rest), Members(keptRest));
      if RootStays(tree, top, f, n) {
        assert kept == first + keptRest;
        ApartSubset(tree, Members(first), Members(rest), Members(keptRest));
        OrderedConcat(tree, first, keptRest);
        MembersConcat(first, keptRest);
        assert kept == nodes <==> keptRest == rest by { assert nodes == first + rest; assert kept[1..] == keptRest; }
      } else {
        assert kept == keptRest;
        assert top in Members(nodes) && top !in Members(kept);
      }
    }
  }

  lemma NothingKept(tree: Tree, f: Hash)
    requires WellFormed(tree)
    ensures Members([]) == {} && Ordered(tree, []) && forall c :: !Kept(tree, {}, f, c)
  {
  }

  lemma KnownTop(tree: Tree, s: set<PendingChange>, top: PendingChange)
    requires Known(tree, s) && top in s
    ensures top.hash in tree && tree[top.hash].number == top.height
  {
  }

  lemma KeptAll(tree: Tree, top: PendingChange, below: set<PendingChange>, others: set<PendingChange>, f: Hash)
    requires WellFormed(tree) && Below(tree, top, below) && AllApart(tree, {top} + below, others)
    ensures forall c :: c in {top} + below ==>
              (Kept(tree, {top} + below + others, f, c) <==> Related(tree, top.hash, f))
    ensures forall c :: c !in {top} + below ==>
              (Kept(tree, {top} + below + others, f, c) <==> Kept(tree, others, f, c))
  {
    hide WellFormed, Descends, Below, Related;
    var s := {top} + below;
    ApartSymmetric(tree, s, others);
    forall c | c in s ensures Kept(tree, s + others, f, c) <==> Related(tree, top.hash, f) {
      TreeKept(tree, top, below, f, c);
      KeptSplits(tree, s, others, f, c);
    }
    forall c | c !in s ensures Kept(tree, s + others, f, c) <==> Kept(tree, others, f, c) {
      if c in others { KeptSplits(tree, others, s, f, c); }
    }
  }

  lemma KeptInside(tree: Tree, changes: set<PendingChange>, f: Hash, kept: set<PendingChange>)
    requires WellFormed(tree) && forall c :: c in kept <==> Kept(tree, changes, f, c)
    ensures kept <= changes
  {
  }

  lemma ApartSubset(tree: Tree, s: set<PendingChange>, t: set<PendingChange>, u: set<PendingChange>)
    requires WellFormed(tree) && AllApart(tree, s, t) && u <= t
    ensures AllApart(tree, s, u)
  {
  }

  lemma TopOutside(tree: Tree, s: set<PendingChange>, t: set<PendingChange>, u: set<PendingChange>)
    requires WellFormed(tree) && AllApart(tree, s, t) && u <= t
    ensures s !! t
    ensures s + u == s + t <==> u == t
  {
    hide Descends;
    if s + u == s + t {
      forall c | c in t ensures c in u { assert c in s + u; }
    }
  }

  // ---- What is enacted ---------------------------------------------------

  /** The pending change on the branch of `f` that all others on it descend from. */
  ghost predicate Lowest(tree: Tree, changes: set<PendingChange>, f: Hash, top: PendingChange)
    requires WellFormed(tree)
  {
    && top in changes && OnBranch(tree, top.hash, f)
    && (forall c :: c in changes && OnBranch(tree, c.hash, f) ==> OnBranch(tree, top.hash, c.hash))
  }

  ghost predicate SomeBelow(tree: Tree, changes: set<PendingChange>, f: Hash)
    requires WellFormed(tree)
  {
    exists c :: c in changes && Descends(tree, c.hash, f)
  }

  /** A root on the branch is the lowest change on it, and unrelated trees hold none. */
  lemma RootIsLowest(tree: Tree, top: PendingChange, below: set<PendingChange>, others: set<PendingChange>, f: Hash)
    requires WellFormed(tree) && Below(tree, top, below) && AllApart(tree, {top} + below, others)
    requires OnBranch(tree, top.hash, f)
    ensures Lowest(tree, {top} + below + others, f, top)
    ensures forall c :: Lowest(tree, {top} + below + others, f, c) ==> c == top
    ensures forall c :: c in others ==> !Related(tree, c.hash, f)
  {
    var all := {top} + below + others;
    forall c | c in others ensures !Related(tree, c.hash, f) {
      assert top in {top} + below && Apart(tree, top.hash, c.hash);
      if OnBranch(tree, c.hash, f) {
        BranchLinear(tree, top.hash, c.hash, f);
      } else if OnBranch(tree, f, c.hash) {
        BranchTransitive(tree, top.hash, f, c.hash);
      }
    }
    assert top in all;
    forall c | Lowest(tree, all, f, c) ensures c == top {
      assert OnBranch(tree, c.hash, top.hash);
      if c in below { NotBothWays(tree, top.hash, c.hash); }
    }
  }

  lemma NotBothWays(tree: Tree, a: Hash, b: Hash)
    requires WellFormed(tree) && Descends(tree, a, b)
    ensures !OnBranch(tree, b, a)
  {
    DescendsIsHigher(tree, a, b);
    if Descends(tree, b, a) { DescendsIsHigher(tree, b, a); }
  }

  lemma {:induction false} NoneInRest(tree: Tree, nodes: seq<Node>, f: Hash, n: nat)
    requires WellFormed(tree) && forall c :: c in Members(nodes) ==> !Related(tree, c.hash, f)
    ensures FirstEffective(tree, nodes, f, n) == None
  {
    hide Descends, WellFormed;
    if nodes != [] {
      assert nodes[0].change in Members(nodes);
      NoneInRest(tree, nodes[1..], f, n);
    }
  }

  lemma NoneLowest(tree: Tree, f: Hash)
    requires WellFormed(tree)
    ensures Members([]) == {} && forall c :: !Lowest(tree, {}, f, c)
  {
  }

  lemma LowestIsMember(tree: Tree, changes: set<PendingChange>, f: Hash, top: PendingChange)
    requires WellFormed(tree) && Lowest(tree, changes, f, top)
    ensures top in changes && OnBranch(tree, top.hash, f)
  {
  }

  lemma FirstFound(tree: Tree, top: PendingChange, below: set<PendingChange>, rest: set<PendingChange>)
    requires WellFormed(tree) && AllApart(tree, {top} + below, rest)
    ensures AllApart(tree, below, {top} + below + rest - below - {top})
  {
    hide Apart;
  }

  lemma LowestElsewhere(tree: Tree, s: set<PendingChange>, t: set<PendingChange>, f: Hash, c: PendingChange)
    requires WellFormed(tree) && forall x :: x in s ==> !OnBranch(tree, x.hash, f)
    ensures Lowest(tree, s + t, f, c) <==> Lowest(tree, t, f, c)
  {
    hide OnBranch;
  }

  lemma LaterFound(tree: Tree, s: set<PendingChange>, t: set<PendingChange>, top: PendingChange, below: set<PendingChange>, f: Hash)
    requires WellFormed(tree) && AllApart(tree, s, t) && top in t && below <= t && OnBranch(tree, top.hash, f)
    requires forall x :: x in s ==> !OnBranch(tree, x.hash, f)
    requires AllApart(tree, below, t - below - {top})
    ensures AllApart(tree, below, s + t - below - {top})
    ensures forall c :: c in s ==> !Related(tree, c.hash, f)
  {
    hide Descends, WellFormed;
    ApartSymmetric(tree, s, t);
    forall c | c in s ensures !Related(tree, c.hash, f) {
      assert Apart(tree, c.hash, top.hash);
      if OnBranch(tree, f, c.hash) { BranchTransitive(tree, top.hash, f, c.hash); }
    }
  }

  lemma NotOnBranch(tree: Tree, top: PendingChange, below: set<PendingChange>, f: Hash)
    requires WellFormed(tree) && Below(tree, top, below) && !OnBranch(tree, top.hash, f)
    ensures forall c :: c in {top} + below ==> !OnBranch(tree, c.hash, f)
  {
    forall c | c in {top} + below ensures !OnBranch(tree, c.hash, f) {
      if OnBranch(tree, c.hash, f) {
        assert OnBranch(tree, top.hash, c.hash) by { assert c != top ==> c in below; }
        BranchTransitive(tree, top.hash, c.hash, f);
      }
    }
  }

  /** The first change on the branch, however the roots are ordered. */
  ghost predicate FoundRight(tree: Tree, nodes: seq<Node>, f: Hash, n: nat, found: Option<Node>)
    requires WellFormed(tree)
  {
    match found
    case None => forall c :: Lowest(tree, Members(nodes), f, c) ==> Effective(c) > n
    case Some(node) =>
      && Lowest(tree, Members(nodes), f, node.change) && Effective(node.change) <= n
      && Ordered(tree, node.children) && Below(tree, node.change, Members(node.children))
      && Members(node.children) <= Members(nodes)
      && (forall c :: c in Members(nodes) && c != node.change && c !in Members(node.children) ==> !Related(tree, c.hash, f))
      && AllApart(tree, Members(node.children), Members(nodes) - Members(node.children) - {node.change})
  }

  lemma {:induction false} FirstEffectiveStep(tree: Tree, nodes: seq<Node>, f: Hash, n: nat)
    requires WellFormed(tree) && Ordered(tree, nodes)
    ensures FoundRight(tree, nodes, f, n, FirstEffective(tree, nodes, f, n))
    decreases nodes
  {
    hide WellFormed, Descends, Below, Ordered, Members, Related, AllApart, OnBranch, Lowest;
    if nodes == [] {
      NoneLowest(tree, f);
    } else {
      var top, below, rest := nodes[0].change, Members(nodes[0].children), Members(nodes[1..]);
      FirstAndRest(tree, nodes);
      var all := Members(nodes);
      if OnBranch(tree, top.hash, f) {
        RootIsLowest(tree, top, below, rest, f);
        if Effective(top) <= n {
          FirstFound(tree, top, below, rest);
        } else {
          NoneInRest(tree, nodes[1..], f, n);
        }
      } else {
        NotOnBranch(tree, top, below, f);
        FirstEffectiveStep(tree, nodes[1..], f, n);
        forall c ensures Lowest(tree, all, f, c) <==> Lowest(tree, rest, f, c) {
          LowestElsewhere(tree, {top} + below, rest, f, c);
        }
        var found := FirstEffective(tree, nodes[1..], f, n);
        if found.Some? {
          LowestIsMember(tree, rest, f, found.value.change);
          LaterFound(tree, {top} + below, rest, found.value.change, Members(found.value.children), f);
        }
      }
    }
  }

  lemma {:induction false} PastChildStep(tree: Tree, nodes: seq<Node>, f: Hash)
    requires WellFormed(tree) && f in tree && Ordered(tree, nodes) && Known(tree, Members(nodes))
    ensures PastChild(tree, nodes, f, tree[f].number) <==> SomeBelow(tree, Members(nodes), f)
    decreases nodes
  {
    hide WellFormed, Descends, Below, Ordered, Members, AllApart, Known;
    if nodes == [] {
      NothingKept(tree, f);
    } else {
      var top, below, rest := nodes[0].change, Members(nodes[0].children), Members(nodes[1..]);
      FirstAndRest(tree, nodes);
      KnownParts(tree, Members([nodes[0]]), rest);
      PastChildStep(tree, nodes[1..], f);
      KnownTop(tree, Members([nodes[0]]), top);
      TopBelow(tree, top, below, f);
    }
  }

  lemma TopBelow(tree: Tree, top: PendingChange, below: set<PendingChange>, f: Hash)
    requires WellFormed(tree) && f in tree && Below(tree, top, below) && top.hash in tree && tree[top.hash].number == top.height
    ensures SomeBelow(tree, {top} + below, f) <==> Descends(tree, top.hash, f)
    ensures Descends(tree, top.hash, f) ==> top.height <= tree[f].number
  {
    if Descends(tree, top.hash, f) {
      DescendsIsHigher(tree, top.hash, f);
      assert top in {top} + below;
    }
    if SomeBelow(tree, {top} + below, f) {
      var c :| c in {top} + below && Descends(tree, c.hash, f);
      if c != top { DescendsTransitive(tree, top.hash, c.hash, f); }
    }
  }

  /** The pending change that finalizing `f` enacts, if any. */
  ghost predicate Enacts(tree: Tree, changes: set<PendingChange>, f: Hash, top: PendingChange)
    requires WellFormed(tree) && f in tree
  {
    Lowest(tree, changes, f, top) && Effective(top) <= tree[f].number
  }

  /**
   * Finalizing a block: refused exactly when it is not above the last one, or when a second
   * pending change would be passed over; otherwise it enacts exactly the lowest pending change
   * of the branch, if that is effective, and keeps exactly the changes the new branch may still
   * need. The order of the roots plays no part.
   */
  lemma FinalizeStep(tree: Tree, forest: Forest, f: Hash)
    requires WellFormed(tree) && f in tree && Ordered(tree, forest.roots) && Known(tree, Members(forest.roots))
    ensures var before := Members(forest.roots);
            var n := tree[f].number;
            var r := Finalize(tree, forest, f, n);
            var tooLow := forest.bestFinalized.Some? && n <= forest.bestFinalized.value;
            && (r == Err(Revert) <==> tooLow)
            && (r == Err(UnfinalizedAncestor) <==>
                  !tooLow && exists top :: Enacts(tree, before, f, top) && SomeBelow(tree, before - {top}, f))
            && (r.Err? ==> r.error != Duplicate)
            && (r.Ok? ==>
                  var (after, outcome) := r.value;
                  var enacted := if outcome.Changed? then outcome.enacted else None;
                  var others := if enacted.Some? then before - {enacted.value} else before;
                  && after.bestFinalized == Some(n)
                  && Ordered(tree, after.roots)
                  && (forall top :: enacted == Some(top) <==> Enacts(tree, before, f, top))
                  && (forall c :: c in Members(after.roots) <==> Kept(tree, others, f, c))
                  && (outcome.Unchanged? <==> enacted.None? && Members(after.roots) == before))
  {
    hide WellFormed, Descends, Below, Ordered, Members, AllApart, Known, Related, Kept, Lowest, FirstEffective, PastChild, Retain, SomeBelow;
    var before, n := Members(forest.roots), tree[f].number;
    FirstEffectiveStep(tree, forest.roots, f, n);
    var found := FirstEffective(tree, forest.roots, f, n);
    if found.Some? {
      var top, below := found.value.change, Members(found.value.children);
      KnownSubset(tree, before, below);
      PastChildStep(tree, found.value.children, f);
      EnactedAlone(tree, before, below, top, f);
      RetainStep(tree, found.value.children, f);
      forall c ensures Kept(tree, below, f, c) <==> Kept(tree, before - {top}, f, c) {
        KeptBelow(tree, before, below, top, f, c);
      }
    } else {
      RetainStep(tree, forest.roots, f);
    }
  }

  lemma KnownSubset(tree: Tree, s: set<PendingChange>, t: set<PendingChange>)
    requires Known(tree, s) && t <= s
    ensures Known(tree, t)
  {
  }

  lemma EnactedAlone(tree: Tree, before: set<PendingChange>, below: set<PendingChange>, top: PendingChange, f: Hash)
    requires WellFormed(tree) && f in tree && Lowest(tree, before, f, top) && Below(tree, top, below) && below <= before
    requires forall c :: c in before && c != top && c !in below ==> !Related(tree, c.hash, f)
    ensures SomeBelow(tree, below, f) <==> SomeBelow(tree, before - {top}, f)
    ensures forall c :: Lowest(tree, before, f, c) ==> c == top
  {
    if SomeBelow(tree, before - {top}, f) {
      var c :| c in before - {top} && Descends(tree, c.hash, f);
      assert c in below;
    }
    forall c | Lowest(tree, before, f, c) ensures c == top {
      assert OnBranch(tree, c.hash, top.hash);
      if c in below { NotBothWays(tree, top.hash, c.hash); }
    }
    if SomeBelow(tree, below, f) {
      var c :| c in below && Descends(tree, c.hash, f);
      assert c in before - {top};
    }
  }

  lemma TopNotBelow(tree: Tree, top: PendingChange, below: set<PendingChange>)
    requires WellFormed(tree) && Below(tree, top, below)
    ensures top !in below
  {
  }

  lemma KeptBelow(tree: Tree, before: set<PendingChange>, below: set<PendingChange>, top: PendingChange, f: Hash, c: PendingChange)
    requires WellFormed(tree) && f in tree && Lowest(tree, before, f, top) && Below(tree, top, below) && below <= before
    requires forall x :: x in before && x != top && x !in below ==> !Related(tree, x.hash, f)
    requires AllApart(tree, below, before - below - {top})
    ensures Kept(tree, below, f, c) <==> Kept(tree, before - {top}, f, c)
  {
    hide WellFormed, Descends;
    var others := before - below - {top};
    TopNotBelow(tree, top, below);
    assert before - {top} == below + others;
    if c in below {
      KeptSplits(tree, below, others, f, c);
    }
  }
}
