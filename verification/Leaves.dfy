/** The set of leaves of the block tree, bucketed by height. */
module Leaves {
  import opened Common
  import opened BlockTree

  type Buckets = map<nat, seq<Hash>>

  function Without(hashes: seq<Hash>, h: Hash): seq<Hash> {
    if hashes == [] then []
    else if hashes[0] == h then Without(hashes[1..], h)
    else [hashes[0]] + Without(hashes[1..], h)
  }

  function InsertLeaf(leaves: Buckets, n: nat, h: Hash): Buckets {
    leaves[n := (if n in leaves then leaves[n] else []) + [h]]
  }

  predicate Contains(leaves: Buckets, n: nat, h: Hash) {
    n in leaves && h in leaves[n]
  }

  function RemoveLeaf(leaves: Buckets, n: nat, h: Hash): Buckets {
    if !Contains(leaves, n, h) then leaves
    else if Without(leaves[n], h) == [] then leaves - {n}
    else leaves[n := Without(leaves[n], h)]
  }

  /** Imports a block: its parent stops being a leaf, the block becomes one. */
  function ImportLeaf(leaves: Buckets, h: Hash, n: nat, parent: Hash): Buckets {
    InsertLeaf(if n > 0 then RemoveLeaf(leaves, n - 1, parent) else leaves, n, h)
  }

  /** The leaves below height `n`, which finalizing height `n` displaces. */
  function Displaced(leaves: Buckets, n: nat): Buckets {
    map k | k in leaves && k < n :: leaves[k]
  }

  function KeepFrom(leaves: Buckets, n: nat): Buckets {
    map k | k in leaves && k >= n :: leaves[k]
  }

  function Restore(leaves: Buckets, displaced: Buckets): Buckets {
    leaves + displaced
  }

  // ---- What the set means ------------------------------------------------

  ghost predicate Childless(tree: Tree, h: Hash) {
    forall x :: x in tree && tree[x].number > 0 ==> tree[x].parent != h
  }

  ghost predicate IsLeaf(tree: Tree, finalized: nat, n: nat, h: Hash) {
    h in tree && tree[h].number == n && n >= finalized && Childless(tree, h)
  }

  /**
   * Exactly the childless blocks not below the finalized height, but for those in `lost`, without
   * empty buckets or repeats.
   */
  ghost predicate Exact(tree: Tree, finalized: nat, leaves: Buckets, lost: set<Hash>) {
    && (forall n: nat, h :: Contains(leaves, n, h) <==> IsLeaf(tree, finalized, n, h) && h !in lost)
    && (forall n :: n in leaves ==> leaves[n] != [] && Distinct(leaves[n]))
  }

  lemma {:induction false} WithoutMembers(hashes: seq<Hash>, h: Hash)
    ensures forall x :: x in Without(hashes, h) <==> x in hashes && x != h
    ensures Distinct(hashes) ==> Distinct(Without(hashes, h))
  {
    if hashes != [] {
      WithoutMembers(hashes[1..], h);
      assert hashes == [hashes[0]] + hashes[1..];
      if Distinct(hashes) {
        assert hashes[0] !in hashes[1..];
        assert Distinct(hashes[1..]);
      }
    }
  }

  lemma RemoveLeafContains(leaves: Buckets, n: nat, h: Hash)
    ensures forall m: nat, x :: Contains(RemoveLeaf(leaves, n, h), m, x) <==> Contains(leaves, m, x) && !(m == n && x == h)
    ensures (forall m :: m in leaves ==> leaves[m] != [] && Distinct(leaves[m])) ==>
              forall m :: m in RemoveLeaf(leaves, n, h) ==> RemoveLeaf(leaves, n, h)[m] != [] && Distinct(RemoveLeaf(leaves, n, h)[m])
  {
    if n in leaves {
      WithoutMembers(leaves[n], h);
    }
  }

  lemma InsertLeafContains(leaves: Buckets, n: nat, h: Hash)
    ensures forall m: nat, x :: Contains(InsertLeaf(leaves, n, h), m, x) <==> Contains(leaves, m, x) || (m == n && x == h)
    ensures (forall m :: m in leaves ==> leaves[m] != [] && Distinct(leaves[m])) && !Contains(leaves, n, h) ==>
              forall m :: m in InsertLeaf(leaves, n, h) ==> InsertLeaf(leaves, n, h)[m] != [] && Distinct(InsertLeaf(leaves, n, h)[m])
  {
  }

  /** Importing a fresh block above the finalized height keeps the set exact. */
  lemma ImportKeepsExact(tree: Tree, finalized: nat, leaves: Buckets, lost: set<Hash>, h: Hash, parent: Hash)
    requires Exact(tree, finalized, leaves, lost) && h !in lost
    requires h !in tree && parent in tree && h != parent && tree[parent].number >= finalized
    requires forall x :: x in tree && tree[x].number > 0 ==> tree[x].parent in tree
    ensures var n := tree[parent].number + 1;
            Exact(tree[h := Header(parent, n)], finalized, ImportLeaf(leaves, h, n, parent), lost)
  {
    var n := tree[parent].number + 1;
    var larger := tree[h := Header(parent, n)];
    var mid := RemoveLeaf(leaves, n - 1, parent);
    RemoveLeafContains(leaves, n - 1, parent);
    InsertLeafContains(mid, n, h);
    var after := ImportLeaf(leaves, h, n, parent);
    forall m: nat, x ensures Contains(after, m, x) <==> IsLeaf(larger, finalized, m, x) && x !in lost {
      if x == h {
        assert Childless(larger, h);
        assert !Contains(leaves, m, h);
      } else if x == parent {
        assert larger[h].parent == parent;
        assert !Childless(larger, parent);
      } else {
        ChildlessKept(tree, larger, h, parent, x);
      }
    }
    assert !Contains(mid, n, h) by { assert !Contains(leaves, n, h); }
  }

  lemma ChildlessKept(tree: Tree, larger: Tree, h: Hash, parent: Hash, x: Hash)
    requires h !in tree && h in larger && larger == tree[h := Header(parent, larger[h].number)] && x != parent
    ensures Childless(larger, x) <==> Childless(tree, x)
  {
    if Childless(larger, x) {
      forall y | y in tree && tree[y].number > 0 ensures tree[y].parent != x {
        assert larger[y] == tree[y];
      }
    }
  }

  /** Finalizing a height displaces exactly the leaves below it. */
  lemma FinalizeKeepsExact(tree: Tree, finalized: nat, leaves: Buckets, lost: set<Hash>, n: nat)
    requires Exact(tree, finalized, leaves, lost) && finalized <= n
    ensures Exact(tree, n, KeepFrom(leaves, n), lost)
    ensures forall k: nat, h :: Contains(Displaced(leaves, n), k, h) <==> IsLeaf(tree, finalized, k, h) && h !in lost && k < n
  {
    forall k: nat, h ensures Contains(KeepFrom(leaves, n), k, h) <==> IsLeaf(tree, n, k, h) && h !in lost {
      assert Contains(KeepFrom(leaves, n), k, h) <==> Contains(leaves, k, h) && k >= n;
    }
    forall k: nat, h ensures Contains(Displaced(leaves, n), k, h) <==> IsLeaf(tree, finalized, k, h) && h !in lost && k < n {
      assert Contains(Displaced(leaves, n), k, h) <==> Contains(leaves, k, h) && k < n;
    }
  }

  /** Displacing leaves without finalizing loses exactly those: the rest of the set stays exact. */
  lemma DroppingLoses(tree: Tree, finalized: nat, leaves: Buckets, lost: set<Hash>, n: nat)
    requires Exact(tree, finalized, leaves, lost)
    ensures forall h :: h in Flatten(leaves, n) <==> exists k: nat :: IsLeaf(tree, finalized, k, h) && h !in lost && k < n
    ensures Exact(tree, finalized, KeepFrom(leaves, n), lost + set h | h in Flatten(leaves, n))
    ensures KeepFrom(leaves, n) == leaves <==> Flatten(leaves, n) == []
  {
    var dropped := set h | h in Flatten(leaves, n);
    forall h ensures h in dropped <==> exists k: nat :: IsLeaf(tree, finalized, k, h) && h !in lost && k < n {
      FlattenMembers(leaves, n, h);
    }
    var kept := KeepFrom(leaves, n);
    forall k: nat, h ensures Contains(kept, k, h) <==> IsLeaf(tree, finalized, k, h) && h !in lost + dropped {
      assert Contains(kept, k, h) <==> Contains(leaves, k, h) && k >= n;
    }
    if Flatten(leaves, n) == [] {
      forall k | k in leaves ensures k >= n {
        assert Contains(leaves, k, leaves[k][0]);
        FlattenMembers(leaves, n, leaves[k][0]);
      }
      assert kept == leaves;
    } else {
      FlattenMembers(leaves, n, Flatten(leaves, n)[0]);
    }
  }

  // ---- Undoing a transaction's finalizations ------------------------------

  /** Finalizing several heights in turn, merging what each displaces. */
  function FinalizeAll(leaves: Buckets, heights: seq<nat>, merged: Buckets): (Buckets, Buckets)
    decreases |heights|
  {
    if heights == [] then (leaves, merged)
    else FinalizeAll(KeepFrom(leaves, heights[0]), heights[1..], merged + Displaced(leaves, heights[0]))
  }

  /** Whatever the heights, undoing with the merged displaced leaves restores the set exactly. */
  lemma {:induction false} UndoRestores(leaves: Buckets, heights: seq<nat>, merged: Buckets)
    requires leaves.Keys !! merged.Keys
    ensures var (after, displaced) := FinalizeAll(leaves, heights, merged);
            Restore(after, displaced) == leaves + merged
    decreases |heights|
  {
    if heights != [] {
      var n := heights[0];
      var rest, gone := KeepFrom(leaves, n), Displaced(leaves, n);
      assert (merged + gone).Keys == merged.Keys + gone.Keys;
      UndoRestores(rest, heights[1..], merged + gone);
      assert rest + (merged + gone) == leaves + merged;
    }
  }

  // ---- The object --------------------------------------------------------

  class LeafSet {
    var storage: Buckets
    var pendingAdded: seq<(Hash, nat)>
    var pendingRemoved: seq<Hash>

    constructor ()
      ensures storage == map[] && pendingAdded == [] && pendingRemoved == []
    {
      storage := map[];
      pendingAdded := [];
      pendingRemoved := [];
    }

    method Remove(n: nat, h: Hash) returns (removed: bool)
      modifies `storage
      ensures removed == Contains(old(storage), n, h) && storage == RemoveLeaf(old(storage), n, h)
    {
      if n !in storage {
        return false;
      }
      var kept: seq<Hash> := [];
      removed := false;
      var bucket := storage[n];
      for i := 0 to |bucket|
        invariant storage == old(storage)
        invariant kept == Without(bucket[..i], h)
        invariant removed == (h in bucket[..i])
      {
        assert bucket[..i + 1] == bucket[..i] + [bucket[i]];
        WithoutAppend(bucket[..i], bucket[i], h);
        if bucket[i] == h {
          removed := true;
        } else {
          kept := kept + [bucket[i]];
        }
      }
      assert bucket[..|bucket|] == bucket;
      if removed {
        storage := if kept == [] then storage - {n} else storage[n := kept];
      }
    }

    /** Returns the parent if it was displaced. */
    method Import(h: Hash, n: nat, parent: Hash) returns (displaced: Option<Hash>)
      modifies this
      ensures storage == ImportLeaf(old(storage), h, n, parent)
      ensures displaced == if n > 0 && Contains(old(storage), n - 1, parent) then Some(parent) else None
      ensures pendingAdded == old(pendingAdded) + [(h, n)]
      ensures pendingRemoved == old(pendingRemoved) + if displaced.Some? then [parent] else []
    {
      displaced := None;
      if n != 0 {
        var removed := Remove(n - 1, parent);
        if removed {
          pendingRemoved := pendingRemoved + [parent];
          displaced := Some(parent);
        }
      }
      storage := InsertLeaf(storage, n, h);
      pendingAdded := pendingAdded + [(h, n)];
    }

    method FinalizeHeight(n: nat) returns (displaced: Buckets)
      modifies this
      ensures storage == KeepFrom(old(storage), n) && displaced == Displaced(old(storage), n)
      ensures pendingAdded == old(pendingAdded) && pendingRemoved == old(pendingRemoved) + Flatten(displaced, n)
    {
      if n == 0 {
        assert storage == KeepFrom(storage, 0);
        assert pendingRemoved + [] == pendingRemoved;
        return map[];
      }
      displaced := Displaced(storage, n);
      storage := KeepFrom(storage, n);
      pendingRemoved := pendingRemoved + Flatten(displaced, n);
    }

    method UndoFinalization(displaced: Buckets)
      modifies this
      ensures storage == Restore(old(storage), displaced)
      ensures pendingAdded == [] && pendingRemoved == []
    {
      storage := storage + displaced;
      pendingAdded := [];
      pendingRemoved := [];
    }
  }

  /** All hashes below height `n`, highest bucket first. */
  function Flatten(leaves: Buckets, n: nat): seq<Hash> {
    if n == 0 then [] else (if n - 1 in leaves then leaves[n - 1] else []) + Flatten(leaves, n - 1)
  }

  lemma {:induction false} FlattenMembers(leaves: Buckets, n: nat, h: Hash)
    ensures h in Flatten(leaves, n) <==> exists k: nat :: k < n && Contains(leaves, k, h)
  {
    if n > 0 {
      FlattenMembers(leaves, n - 1, h);
      if h in Flatten(leaves, n - 1) {
        var k: nat :| k < n - 1 && Contains(leaves, k, h);
      }
      if n - 1 in leaves && h in leaves[n - 1] {
        assert Contains(leaves, n - 1, h);
      }
    }
  }

  lemma {:induction false} WithoutAppend(hashes: seq<Hash>, x: Hash, h: Hash)
    ensures Without(hashes + [x], h) == Without(hashes, h) + if x == h then [] else [x]
  {
    if hashes != [] {
      assert (hashes + [x])[1..] == hashes[1..] + [x];
      WithoutAppend(hashes[1..], x, h);
    }
  }
}
