/** Every operation of the light client keeps its store right. */
module LightClientRuns {
  import opened Common
  import opened BlockTree
  import opened Cht
  import opened LightClient

  // ---- Moving the head ---------------------------------------------------

  lemma {:induction false} UnmapEffect(index: map<nat, Hash>, tree: Tree, blocks: seq<Hash>, n: nat)
    requires forall h :: h in blocks ==> h in tree
    ensures var after := Unmap(index, tree, blocks);
            && (n in after <==> n in index && forall h :: h in blocks ==> tree[h].number != n)
            && (n in after ==> after[n] == index[n])
    decreases |blocks|
  {
    if blocks != [] {
      assert blocks == [blocks[0]] + blocks[1..];
      UnmapEffect(index - {tree[blocks[0]].number}, tree, blocks[1..], n);
    }
  }

  lemma {:induction false} MapEffect(index: map<nat, Hash>, tree: Tree, blocks: seq<Hash>, n: nat)
    requires forall h :: h in blocks ==> h in tree
    ensures var after := Map(index, tree, blocks);
            && (n in after <==> n in index || exists h :: h in blocks && tree[h].number == n)
            && (n in after ==>
                  || (after[n] in blocks && tree[after[n]].number == n)
                  || (n in index && after[n] == index[n] && forall h :: h in blocks ==> tree[h].number != n))
    decreases |blocks|
  {
    if blocks != [] {
      assert blocks == [blocks[0]] + blocks[1..];
      MapEffect(index[tree[blocks[0]].number := blocks[0]], tree, blocks[1..], n);
    }
  }

  lemma FinalizedIsCommon(s: Light, routeTo: Hash)
    requires Valid(s) && routeTo in s.tree && OnChain(s.tree, s.finalized, routeTo)
    ensures CommonHeight(s.tree, s.best, routeTo) >= s.tree[s.finalized].number
  {
    var f := s.tree[s.finalized].number;
    assert Ancestor(s.tree, s.best, f) == Ancestor(s.tree, routeTo, f);
  }

  /** All blocks of the route are held, so the route can always be computed. */
  lemma RouteHeld(s: Light, routeTo: Hash, x: Hash)
    requires Valid(s) && routeTo in s.tree && OnChain(s.tree, s.finalized, routeTo)
    requires x in s.tree && s.tree[x].number >= CommonHeight(s.tree, s.best, routeTo)
    ensures x in s.headers
  {
    FinalizedIsCommon(s, routeTo);
    var f := s.tree[s.finalized].number;
    ReplacedIsOld(s.size, f);
  }

  /** After the route, the index describes the chain of the block routed to. */
  lemma RouteIndex(s: Light, routeTo: Hash, n: nat)
    requires Valid(s) && routeTo in s.tree && OnChain(s.tree, s.finalized, routeTo)
    ensures forall h :: h in Retracted(s.tree, s.best, routeTo) ==> h in s.tree
    ensures forall h :: h in Enacted(s.tree, s.best, routeTo) ==> h in s.tree
    ensures var index := Map(Unmap(s.index, s.tree, Retracted(s.tree, s.best, routeTo)), s.tree, Enacted(s.tree, s.best, routeTo));
            && (n in index <==> n <= s.tree[routeTo].number && !Replaced(s.size, s.tree[s.finalized].number, n))
            && (n in index ==> index[n] == Ancestor(s.tree, routeTo, n))
  {
    var tree := s.tree;
    RouteKnown(tree, s.best, routeTo);
    FinalizedIsCommon(s, routeTo);
    ReplacedIsOld(s.size, tree[s.finalized].number);
    var p := CommonHeight(tree, s.best, routeTo);
    var retracted, enacted := Retracted(tree, s.best, routeTo), Enacted(tree, s.best, routeTo);
    var mid := Unmap(s.index, tree, retracted);
    UnmapEffect(s.index, tree, retracted, n);
    MapEffect(mid, tree, enacted, n);
    RouteNumbers(tree, s.best, routeTo, n);
    if n <= p { SharedAncestors(tree, s.best, routeTo, n); }
    hide Retracted, Enacted, Unmap, Map, Ancestor, OnChain, CommonHeight, HeadersRight, RootsRight, WellFormed, MaxCht;
  }

  lemma SharedAncestors(tree: Tree, a: Hash, b: Hash, n: nat)
    requires WellFormed(tree) && a in tree && b in tree && n <= CommonHeight(tree, a, b)
    ensures n <= tree[a].number && n <= tree[b].number && Ancestor(tree, a, n) == Ancestor(tree, b, n)
  {
    var p := CommonHeight(tree, a, b);
    AncestorOfAncestor(tree, a, p, n);
    AncestorOfAncestor(tree, b, p, n);
  }

  /** The route's blocks at height `n`: one on each side above the common height, none below. */
  lemma RouteNumbers(tree: Tree, a: Hash, b: Hash, n: nat)
    requires WellFormed(tree) && a in tree && b in tree
    ensures forall h :: h in Retracted(tree, a, b) ==> h in tree
    ensures forall h :: h in Enacted(tree, a, b) ==> h in tree
    ensures var p := CommonHeight(tree, a, b);
            && p <= tree[a].number && p <= tree[b].number
            && ((exists h :: h in Retracted(tree, a, b) && tree[h].number == n) <==> p < n <= tree[a].number)
            && ((exists h :: h in Enacted(tree, a, b) && tree[h].number == n) <==> p < n <= tree[b].number)
            && (forall h :: h in Enacted(tree, a, b) && tree[h].number == n ==> n <= tree[b].number && h == Ancestor(tree, b, n))
  {
    var p := CommonHeight(tree, a, b);
    RouteKnown(tree, a, b);
    forall h ensures h in Retracted(tree, a, b) <==> OnChain(tree, h, a) && tree[h].number > p {
      DescendingMembers(tree, a, p, h);
    }
    forall h ensures h in Enacted(tree, a, b) <==> OnChain(tree, h, b) && tree[h].number > p {
      DescendingMembers(tree, b, p, h);
      ReversedMembers(Descending(tree, b, p), h);
    }
    if p < n <= tree[a].number { AtHeight(tree, a, n); }
    if p < n <= tree[b].number { AtHeight(tree, b, n); }
    hide Retracted, Enacted, CommonHeight;
  }

  lemma AtHeight(tree: Tree, a: Hash, n: nat)
    requires WellFormed(tree) && a in tree && n <= tree[a].number
    ensures OnChain(tree, Ancestor(tree, a, n), a) && tree[Ancestor(tree, a, n)].number == n
  {
  }

  lemma MoveIndex(s: Light, routeTo: Hash, h: Hash, number: nat)
    requires Valid(s) && routeTo in s.tree && OnChain(s.tree, s.finalized, routeTo)
    ensures forall n: nat :: n != number ==>
              && (n in MovedIndex(s, routeTo, h, number) <==>
                    n <= s.tree[routeTo].number && !Replaced(s.size, s.tree[s.finalized].number, n))
              && (n in MovedIndex(s, routeTo, h, number) ==> MovedIndex(s, routeTo, h, number)[n] == Ancestor(s.tree, routeTo, n))
    ensures number in MovedIndex(s, routeTo, h, number) && MovedIndex(s, routeTo, h, number)[number] == h
  {
    forall n: nat
      ensures n != number ==>
              && (n in MovedIndex(s, routeTo, h, number) <==>
                    n <= s.tree[routeTo].number && !Replaced(s.size, s.tree[s.finalized].number, n))
              && (n in MovedIndex(s, routeTo, h, number) ==> MovedIndex(s, routeTo, h, number)[n] == Ancestor(s.tree, routeTo, n))
    {
      RouteIndex(s, routeTo, n);
    }
    hide Valid, Retracted, Enacted, Unmap, Map, Ancestor, OnChain, WellFormed;
  }

  /**
   * The store after an operation knows these blocks and has this head and this finalized block. A
   * valid store is determined by them.
   */
  ghost predicate Placed(s: Light, after: Light, tree: Tree, best: Hash, finalized: Hash) {
    after.size == s.size && after.tree == tree && after.best == best && after.finalized == finalized
  }

  /** Valid stores that agree on blocks, head and finalized block agree on index, headers and roots. */
  lemma StoreIsDetermined(a: Light, b: Light)
    requires Valid(a) && Valid(b) && Placed(a, b, a.tree, a.best, a.finalized)
    ensures a == b
  {
    assert forall n: nat :: n in a.index <==> n in b.index;
    assert forall n: nat :: n in a.index ==> a.index[n] == b.index[n];
    assert a.headers == b.headers;
    forall start | start in a.roots || start in b.roots
      ensures start in a.roots && start in b.roots && a.roots[start] == b.roots[start]
    {
      var max := MaxCht(a.size, a.tree[a.finalized].number);
      var cht: nat :| max.Some? && cht <= max.value && start == StartNumber(a.size, cht);
      assert RootRight(a, cht) && RootRight(b, cht);
    }
    hide Ancestor, OnChain, WellFormed, Replaced, MaxCht, StartNumber;
  }

  lemma SetHeadKeepsValid(s: Light, h: Hash)
    requires Valid(s) && (h in s.tree ==> OnChain(s.tree, s.finalized, h))
    ensures SetHead(s, h).Ok? <==> h in s.headers
    ensures SetHead(s, h).Err? ==> SetHead(s, h).error == HeaderNotFound
    ensures SetHead(s, h).Ok? ==> Valid(SetHead(s, h).value) && Placed(s, SetHead(s, h).value, s.tree, h, s.finalized)
  {
    if h in s.headers && h in s.tree {
      MoveIndex(s, h, h, s.tree[h].number);
      ReplacedIsOld(s.size, s.tree[s.finalized].number);
      var after := SetHead(s, h).value;
      NeverReplaced(s, h);
      assert IndexRight(after);
      SameRoots(s, after);
    }
    hide MovedIndex, RootsRight, Ancestor, WellFormed;
  }

  lemma NeverReplaced(s: Light, h: Hash)
    requires Valid(s) && h in s.tree && OnChain(s.tree, s.finalized, h)
    ensures !Replaced(s.size, s.tree[s.finalized].number, s.tree[h].number)
    ensures Ancestor(s.tree, h, s.tree[h].number) == h
  {
    ReplacedIsOld(s.size, s.tree[s.finalized].number);
  }

  lemma SameRoots(s: Light, after: Light)
    requires Valid(s) && after.size == s.size && after.tree == s.tree && after.finalized == s.finalized && after.roots == s.roots
    ensures RootsRight(after)
  {
    forall cht: nat ensures RootRight(s, cht) == RootRight(after, cht) { }
  }

  // ---- Importing ---------------------------------------------------------

  /** Roots and headers survive a new block, which is on no existing chain. */
  lemma GrownStore(s: Light, h: Hash, parent: Hash, after: Light)
    requires Valid(s) && h !in s.tree && parent in s.tree
    requires after.size == s.size && after.tree == WithBlock(s.tree, h, parent) && after.finalized == s.finalized
    requires after.roots == s.roots && after.headers == s.headers + {h}
    ensures WellFormed(after.tree) && HeadersRight(after) && RootsRight(after)
  {
    WithBlockChains(s.tree, h, parent);
    forall x ensures x in after.headers <==>
      x in after.tree && !(Replaced(after.size, after.tree[after.finalized].number, after.tree[x].number) && OnChain(after.tree, x, after.finalized))
    {
      if x == h { OnlyOldBlocksBelow(s.tree, h, parent, s.finalized); }
    }
    forall cht: nat | RootRight(s, cht) ensures RootRight(after, cht) { }
    hide WellFormed, Ancestor;
  }

  lemma OnlyOldBlocksBelow(tree: Tree, h: Hash, parent: Hash, x: Hash)
    requires WellFormed(tree) && h !in tree && parent in tree && x in tree
    ensures WellFormed(WithBlock(tree, h, parent)) && !OnChain(WithBlock(tree, h, parent), h, x)
  {
    WithBlockChains(tree, h, parent);
    var larger := WithBlock(tree, h, parent);
    if tree[parent].number + 1 <= tree[x].number {
      assert Ancestor(larger, x, tree[parent].number + 1) in tree;
    }
  }

  lemma ImportAsideKeepsValid(s: Light, h: Hash, parent: Hash)
    requires Valid(s) && h !in s.tree && parent in s.tree
    ensures var r := Import(s, h, parent, s.tree[parent].number + 1, Normal);
            r.Ok? && Valid(r.value) && Placed(s, r.value, s.tree[h := Header(parent, s.tree[parent].number + 1)], s.best, s.finalized)
  {
    var after := Import(s, h, parent, s.tree[parent].number + 1, Normal).value;
    assert s.index - {} == s.index && s.headers + {h} - {} == s.headers + {h};
    GrownStore(s, h, parent, after);
    hide WellFormed, HeadersRight, RootsRight, Ancestor;
    AsideIndex(s, h, parent, after);
  }

  lemma AsideIndex(s: Light, h: Hash, parent: Hash, after: Light)
    requires Valid(s) && h !in s.tree && parent in s.tree
    requires after == s.(tree := WithBlock(s.tree, h, parent), headers := s.headers + {h})
    ensures WellFormed(after.tree) && IndexRight(after) && OnChain(after.tree, after.finalized, after.best)
  {
    WithBlockChains(s.tree, h, parent);
    hide WellFormed, Ancestor, HeadersRight, RootsRight, ReplacedEnd;
  }

  lemma ImportBestKeepsValid(s: Light, h: Hash, parent: Hash)
    requires Valid(s) && h !in s.tree && parent in s.tree && OnChain(s.tree, s.finalized, parent)
    ensures var r := Import(s, h, parent, s.tree[parent].number + 1, Best);
            r.Ok? && Valid(r.value) && Placed(s, r.value, s.tree[h := Header(parent, s.tree[parent].number + 1)], h, s.finalized)
  {
    var after := Import(s, h, parent, s.tree[parent].number + 1, Best).value;
    var number := s.tree[parent].number + 1;
    assert MovedIndex(s, parent, h, number) - {} == MovedIndex(s, parent, h, number);
    assert s.headers + {h} - {} == s.headers + {h};
    GrownStore(s, h, parent, after);
    hide WellFormed, HeadersRight, RootsRight, Ancestor, MovedIndex, Retracted, Enacted;
    BestIndex(s, h, parent, after);
  }

  lemma BestIndex(s: Light, h: Hash, parent: Hash, after: Light)
    requires Valid(s) && h !in s.tree && parent in s.tree && OnChain(s.tree, s.finalized, parent)
    requires after == s.(tree := WithBlock(s.tree, h, parent), headers := s.headers + {h}, best := h,
                         index := MovedIndex(s, parent, h, s.tree[parent].number + 1))
    ensures WellFormed(after.tree) && IndexRight(after) && OnChain(after.tree, after.finalized, after.best)
  {
    hide WellFormed, Ancestor, IndexRight, HeadersRight, RootsRight, MovedIndex, ReplacedEnd;
    var number := s.tree[parent].number + 1;
    WithBlockChains(s.tree, h, parent);
    MoveIndex(s, parent, h, number);
    ReplacedIsOld(s.size, s.tree[s.finalized].number);
    TopIsOwn(after.tree, h);
    NewIndexRight(s, h, parent, after);
  }

  lemma TopIsOwn(tree: Tree, h: Hash)
    requires WellFormed(tree) && h in tree
    ensures Ancestor(tree, h, tree[h].number) == h
  {
  }

  lemma NewIndexRight(s: Light, h: Hash, parent: Hash, after: Light)
    requires WellFormed(s.tree) && s.finalized in s.tree && s.size > 0 && parent in s.tree && h !in s.tree
    requires after.tree == WithBlock(s.tree, h, parent) && after.best == h && after.finalized == s.finalized && after.size == s.size
    requires WellFormed(after.tree) && ReplacedEnd(s.size, s.tree[s.finalized].number) <= s.tree[parent].number
    requires forall n: nat :: n <= s.tree[parent].number ==> Ancestor(after.tree, h, n) == Ancestor(s.tree, parent, n)
    requires Ancestor(after.tree, h, s.tree[parent].number + 1) == h
    requires var number := s.tree[parent].number + 1;
             && number in after.index && after.index[number] == h
             && (forall n: nat :: n != number ==>
                   && (n in after.index <==> n <= s.tree[parent].number && !Replaced(s.size, s.tree[s.finalized].number, n))
                   && (n in after.index ==> after.index[n] == Ancestor(s.tree, parent, n)))
    ensures IndexRight(after)
  {
    hide WellFormed, Ancestor, ReplacedEnd;
  }

  // ---- Finalizing --------------------------------------------------------

  lemma {:induction false} HashesFromAre(s: Light, start: nat, count: nat)
    ensures |HashesFrom(s, start, count)| == count
    ensures forall i :: 0 <= i < count ==> HashesFrom(s, start, count)[i] == CanonicalHash(s, start + i)
    decreases count
  {
    if count > 0 { HashesFromAre(s, start + 1, count - 1); }
  }

  /** The blocks of the next trie are all there. */
  lemma StretchHeld(s: Light, cht: nat, n: nat)
    requires Valid(s) && IsBuildRequired(s.size, s.tree[s.finalized].number + 1) == Some(cht)
    requires StartNumber(s.size, cht) <= n <= EndNumber(s.size, cht)
    ensures n <= s.tree[s.finalized].number
    ensures CanonicalHash(s, n) == Some(Ancestor(s.tree, s.finalized, n))
    ensures n in s.index && s.index[n] == Ancestor(s.tree, s.finalized, n)
  {
    var f := s.tree[s.finalized].number;
    BuildRaisesMax(s.size, f);
    AncestorOfAncestor(s.tree, s.best, f, n);
    var a := Ancestor(s.tree, s.best, n);
    assert a in s.headers;
    hide MaxCht, IsBuildRequired, RootsRight;
  }

  /** The pairs of the next trie: the finalized chain's hashes over its stretch. */
  lemma NextPairs(s: Light, cht: nat)
    requires Valid(s) && IsBuildRequired(s.size, s.tree[s.finalized].number + 1) == Some(cht)
    ensures var start := StartNumber(s.size, cht);
            var pairs := Pairs(start, s.size, HashesFrom(s, start, s.size));
            && pairs.Ok? && |pairs.value| == s.size && start + s.size <= s.tree[s.finalized].number + 1
            && (forall i :: 0 <= i < s.size ==> pairs.value[i] == (start + i, Ancestor(s.tree, s.finalized, start + i)))
  {
    hide Valid, Pairs, HashesFrom, Ancestor, CanonicalHash, WellFormed, IsBuildRequired, StartNumber, EndNumber;
    ValidFacts(s);
    var start := StartNumber(s.size, cht);
    var hashes := HashesFrom(s, start, s.size);
    HashesFromAre(s, start, s.size);
    StretchLength(s.size, cht);
    StretchHeld(s, cht, start + s.size - 1);
    forall i | 0 <= i < s.size ensures hashes[i].Some? {
      StretchHeld(s, cht, start + i);
    }
    PairsExact(start, s.size, hashes);
    var pairs := Pairs(start, s.size, hashes).value;
    forall i | 0 <= i < s.size ensures pairs[i] == (start + i, Ancestor(s.tree, s.finalized, start + i)) {
      StretchHeld(s, cht, start + i);
      assert pairs[i] == (start + i, hashes[i].value);
    }
  }

  lemma ValidFacts(s: Light)
    requires Valid(s)
    ensures s.size > 0 && WellFormed(s.tree) && s.best in s.tree && s.finalized in s.tree
  {
  }

  lemma StretchLength(size: nat, cht: nat)
    ensures StartNumber(size, cht) + size == EndNumber(size, cht) + 1 && StartNumber(size, cht) >= 1
  {
    assert (cht + 1) * size == cht * size + size;
  }

  ghost predicate NextFinal(s: Light, h: Hash) {
    Valid(s) && h in s.tree && s.tree[h].number > 0 && s.tree[h].parent == s.finalized && OnChain(s.tree, h, s.best)
  }

  lemma NextFinalFacts(s: Light, h: Hash)
    requires NextFinal(s, h)
    ensures s.tree[h].number == s.tree[s.finalized].number + 1
    ensures forall n: nat :: n <= s.tree[s.finalized].number ==> Ancestor(s.tree, h, n) == Ancestor(s.tree, s.finalized, n)
    ensures !Replaced(s.size, s.tree[h].number, s.tree[h].number)
    ensures !Replaced(s.size, s.tree[s.finalized].number, s.tree[h].number)
    ensures h in s.headers
  {
    assert Linked(s.tree, h);
    assert Parent(s.tree, h) == s.finalized;
    ReplacedIsOld(s.size, s.tree[h].number);
    ReplacedIsOld(s.size, s.tree[s.finalized].number);
  }

  /** When no trie is due, only the finalized block moves. */
  lemma FinalizePlain(s: Light, h: Hash)
    requires NextFinal(s, h) && IsBuildRequired(s.size, s.tree[h].number) == None
    ensures FinalizeHeader(s, h).Ok? && Valid(FinalizeHeader(s, h).value)
  {
    NextFinalFacts(s, h);
    var f := s.tree[s.finalized].number;
    BuildRaisesMax(s.size, f);
    var after := FinalizeHeader(s, h).value;
    assert ReplacedEnd(s.size, f + 1) == ReplacedEnd(s.size, f);
    ReplacedIsOld(s.size, f);
    forall cht: nat | RootRight(s, cht) ensures RootRight(after, cht) { }
    assert RootsRight(after);
    forall x | x in s.tree && Replaced(s.size, f, s.tree[x].number)
      ensures OnChain(s.tree, x, h) <==> OnChain(s.tree, x, s.finalized)
    {
    }
    assert HeadersRight(after);
    hide RootsRight, WellFormed, Ancestor, MaxCht, IsBuildRequired;
  }

  ghost function Dropped(s: Light, cht: nat): Light
    requires s.size > 0
  {
    var start, end := StartNumber(s.size, cht), EndNumber(s.size, cht);
    var gone := HeldIn(s, start, end);
    s.(index := s.index - gone, headers := s.headers - HashesAt(s, gone))
  }

  /** What is dropped: the index entries of the stretch, and the finalized chain's headers there. */
  lemma DroppedExactly(s: Light, cht: nat)
    requires Valid(s) && IsBuildRequired(s.size, s.tree[s.finalized].number + 1) == Some(cht)
    ensures var after := Dropped(s, cht);
            var start, end := StartNumber(s.size, cht), EndNumber(s.size, cht);
            && (forall n: nat :: n in after.index <==> n in s.index && !(start <= n <= end))
            && (forall n: nat :: n in after.index ==> after.index[n] == s.index[n])
            && (forall x :: x in after.headers <==>
                  x in s.headers && !(x in s.tree && start <= s.tree[x].number <= end && OnChain(s.tree, x, s.finalized)))
  {
    var start, end := StartNumber(s.size, cht), EndNumber(s.size, cht);
    var gone := HeldIn(s, start, end);
    forall n: nat ensures n in gone <==> start <= n <= end {
      if start <= n <= end { StretchHeld(s, cht, n); }
    }
    forall x ensures x in HashesAt(s, gone) <==> x in s.tree && start <= s.tree[x].number <= end && OnChain(s.tree, x, s.finalized) {
      if x in HashesAt(s, gone) {
        var n: nat :| n in gone && n in s.index && s.index[n] == x;
        StretchHeld(s, cht, n);
      }
      if x in s.tree && start <= s.tree[x].number <= end && OnChain(s.tree, x, s.finalized) {
        StretchHeld(s, cht, s.tree[x].number);
      }
    }
    hide Valid, WellFormed, IsBuildRequired, HeldIn, HashesAt, StartNumber, EndNumber;
  }

  lemma FinalizeBuild(s: Light, h: Hash, cht: nat)
    requires NextFinal(s, h) && IsBuildRequired(s.size, s.tree[h].number) == Some(cht)
    ensures FinalizeHeader(s, h).Ok? && Valid(FinalizeHeader(s, h).value)
  {
    hide Valid, IndexRight, HeadersRight, RootsRight, WellFormed, Ancestor, MaxCht, IsBuildRequired, StartNumber, EndNumber,
         Pairs, HashesFrom, HeldIn, HashesAt, OnChain;
    ValidFacts(s);
    NextFinalFacts(s, h);
    var f := s.tree[s.finalized].number;
    BuildRaisesMax(s.size, f);
    NextPairs(s, cht);
    StretchLength(s.size, cht);
    var start, end := StartNumber(s.size, cht), EndNumber(s.size, cht);
    DroppedExactly(s, cht);
    var pairs := Pairs(start, s.size, HashesFrom(s, start, s.size)).value;
    var after := Dropped(s, cht).(roots := s.roots[start := pairs], finalized := h);
    assert FinalizeHeader(s, h) == Ok(after);
    ReplacedGrows(s.size, f, cht);
    BuiltIndex(s, h, after, start, end);
    BuiltHeaders(s, h, after, start, end);
    BuiltRoots(s, h, after, cht);
    ValidAfter(s, h, after);
  }

  lemma ReplacedGrows(size: nat, f: nat, cht: nat)
    requires size > 0 && IsBuildRequired(size, f + 1) == Some(cht)
    ensures forall n: nat :: Replaced(size, f + 1, n) <==> Replaced(size, f, n) || StartNumber(size, cht) <= n <= EndNumber(size, cht)
  {
    BuildRaisesMax(size, f);
    StretchLength(size, cht);
    hide MaxCht, IsBuildRequired, StartNumber, EndNumber, ReplacedEnd;
  }

  lemma ValidAfter(s: Light, h: Hash, after: Light)
    requires NextFinal(s, h) && after.tree == s.tree && after.size == s.size && after.best == s.best && after.finalized == h
    requires IndexRight(after) && HeadersRight(after) && RootsRight(after)
    ensures Valid(after)
  {
    hide IndexRight, HeadersRight, RootsRight, OnChain;
  }

  lemma BuiltIndex(s: Light, h: Hash, after: Light, start: nat, end: nat)
    requires NextFinal(s, h) && after.tree == s.tree && after.size == s.size && after.best == s.best && after.finalized == h
    requires forall n: nat :: n in after.index <==> n in s.index && !(start <= n <= end)
    requires forall n: nat :: n in after.index ==> after.index[n] == s.index[n]
    requires forall n: nat :: Replaced(s.size, s.tree[h].number, n) <==> Replaced(s.size, s.tree[s.finalized].number, n) || start <= n <= end
    ensures IndexRight(after)
  {
    hide Replaced, Ancestor;
  }

  lemma BuiltHeaders(s: Light, h: Hash, after: Light, start: nat, end: nat)
    requires NextFinal(s, h) && after.tree == s.tree && after.size == s.size && after.finalized == h
    requires end <= s.tree[s.finalized].number
    requires forall x :: x in after.headers <==>
               x in s.headers && !(x in s.tree && start <= s.tree[x].number <= end && OnChain(s.tree, x, s.finalized))
    requires forall n: nat :: Replaced(s.size, s.tree[h].number, n) <==> Replaced(s.size, s.tree[s.finalized].number, n) || start <= n <= end
    ensures HeadersRight(after)
  {
    NextFinalFacts(s, h);
    ReplacedIsOld(s.size, s.tree[s.finalized].number);
    forall x | x in s.tree && s.tree[x].number <= s.tree[s.finalized].number
      ensures OnChain(s.tree, x, h) <==> OnChain(s.tree, x, s.finalized)
    {
    }
    hide Ancestor, WellFormed, IndexRight, RootsRight, MaxCht, OnChain;
  }

  lemma BuiltRoots(s: Light, h: Hash, after: Light, cht: nat)
    requires NextFinal(s, h) && after.tree == s.tree && after.size == s.size && after.finalized == h
    requires IsBuildRequired(s.size, s.tree[h].number) == Some(cht)
    requires var start := StartNumber(s.size, cht);
             && start in after.roots && after.roots == s.roots[start := after.roots[start]] && |after.roots[start]| == s.size
             && start + s.size <= s.tree[s.finalized].number + 1
             && (forall i :: 0 <= i < s.size ==> after.roots[start][i] == (start + i, Ancestor(s.tree, s.finalized, start + i)))
    ensures RootsRight(after)
  {
    NextFinalFacts(s, h);
    var f := s.tree[s.finalized].number;
    BuildRaisesMax(s.size, f);
    assert RootRight(after, cht);
    forall c: nat | c < cht ensures RootRight(after, c) {
      assert RootRight(s, c);
      StartsDiffer(s.size, c, cht);
    }
    forall start | start in after.roots
      ensures exists c: nat :: c <= cht && start == StartNumber(s.size, c)
    {
      if start != StartNumber(s.size, cht) {
        assert start in s.roots;
        var c: nat :| MaxCht(s.size, f).Some? && c <= MaxCht(s.size, f).value && start == StartNumber(s.size, c);
        assert c <= cht;
      }
    }
    hide Ancestor, WellFormed, IndexRight, HeadersRight, MaxCht, StartNumber, IsBuildRequired;
  }

  lemma StartsDiffer(size: nat, a: nat, b: nat)
    requires size > 0 && a < b
    ensures StartNumber(size, a) != StartNumber(size, b)
  {
    Monotone(a + 1, b, size);
    assert (a + 1) * size == a * size + size;
  }

  /** Finalizing a child of the finalized block on the best chain always succeeds and keeps the store right. */
  lemma FinalizeKeepsValid(s: Light, h: Hash)
    requires Valid(s)
    requires h in s.tree && s.tree[h].parent == s.finalized ==> s.tree[h].number > 0 && OnChain(s.tree, h, s.best)
    ensures FinalizeHeader(s, h).Ok? <==> h in s.tree && s.tree[h].parent == s.finalized
    ensures FinalizeHeader(s, h).Ok? ==> Valid(FinalizeHeader(s, h).value) && Placed(s, FinalizeHeader(s, h).value, s.tree, s.best, h)
    ensures FinalizeHeader(s, h).Err? ==> FinalizeHeader(s, h).error == if h in s.headers then NonSequentialFinalization else HeaderNotFound
  {
    if h in s.tree && s.tree[h].parent == s.finalized {
      NextFinalFacts(s, h);
      if IsBuildRequired(s.size, s.tree[h].number).Some? {
        FinalizeBuild(s, h, IsBuildRequired(s.size, s.tree[h].number).value);
      } else {
        FinalizePlain(s, h);
      }
    }
    hide Valid, Pairs, HashesFrom, IsBuildRequired, HeldIn, HashesAt;
  }

  // ---- Importing a finalized block ---------------------------------------

  lemma BestParts(s: Light, h: Hash, parent: Hash)
    requires WellFormed(s.tree) && s.best in s.tree && s.size > 0 && parent in s.tree
    ensures var number := s.tree[parent].number + 1;
            Import(s, h, parent, s.tree[parent].number + 1, Best) ==
              Ok(s.(tree := WithBlock(s.tree, h, parent), index := MovedIndex(s, parent, h, number), headers := s.headers + {h}, best := h))
  {
    hide MovedIndex, WellFormed;
    var number := s.tree[parent].number + 1;
    assert s.index.Keys - s.index.Keys == {} && s.headers - s.headers == {};
    assert MovedIndex(s, parent, h, number) - {} == MovedIndex(s, parent, h, number);
    assert s.headers + {h} - {} == s.headers + {h};
  }

  /** Importing as final is importing as best, then finalizing. */
  lemma ImportFinalIsTwoSteps(s: Light, h: Hash, parent: Hash)
    requires Valid(s) && h !in s.tree && parent in s.tree && parent == s.finalized
    ensures Import(s, h, parent, s.tree[parent].number + 1, Best).Ok?
    ensures Import(s, h, parent, s.tree[parent].number + 1, Final) == FinalizeHeader(Import(s, h, parent, s.tree[parent].number + 1, Best).value, h)
  {
    hide Valid, WellFormed, IsBuildRequired, MovedIndex, OnChain, NoteFinalized, Import;
    ValidFacts(s);
    OnOwnChain(s.tree, s.finalized);
    BestParts(s, h, parent);
    ImportBestKeepsValid(s, h, parent);
    var mid := Import(s, h, parent, s.tree[parent].number + 1, Best).value;
    FinalImportIs(s, h, parent);
    var number := s.tree[parent].number + 1;
    if IsBuildRequired(s.size, number).Some? {
      NoteSame(s, h, mid, IsBuildRequired(s.size, number).value);
    } else {
      NotePlain(s, number);
      NotePlain(mid, number);
      assert s.index.Keys - s.index.Keys == {} && s.headers - s.headers == {};
      assert mid.index - {} == mid.index && mid.headers - {} == mid.headers;
    }
  }

  /** The final import, spelt out over what noting the finalized block drops. */
  lemma FinalImportIs(s: Light, h: Hash, parent: Hash)
    requires Valid(s) && h !in s.tree && parent in s.tree
    ensures var number := s.tree[parent].number + 1;
            var noted := NoteFinalized(s, parent, number);
            Import(s, h, parent, s.tree[parent].number + 1, Final) ==
              if noted.Err? then Err(noted.error)
              else Ok(noted.value.(tree := WithBlock(s.tree, h, parent),
                                   index := MovedIndex(s, parent, h, number) - (s.index.Keys - noted.value.index.Keys),
                                   headers := s.headers + {h} - (s.headers - noted.value.headers),
                                   best := h, finalized := h))
  {
    hide Valid, WellFormed, NoteFinalized, MovedIndex;
  }

  lemma NotePlain(s: Light, number: nat)
    requires s.size > 0 && IsBuildRequired(s.size, number) == None
    ensures NoteFinalized(s, s.finalized, number) == Ok(s)
  {
  }

  lemma NoteBuild(s: Light, cht: nat)
    requires Valid(s) && IsBuildRequired(s.size, s.tree[s.finalized].number + 1) == Some(cht)
    ensures var start := StartNumber(s.size, cht);
            var gone := HeldIn(s, start, EndNumber(s.size, cht));
            var pairs := Pairs(start, s.size, HashesFrom(s, start, s.size));
            && pairs.Ok?
            && NoteFinalized(s, s.finalized, s.tree[s.finalized].number + 1) ==
                 Ok(s.(roots := s.roots[start := pairs.value], index := s.index - gone, headers := s.headers - HashesAt(s, gone)))
  {
    NextPairs(s, cht);
    hide Valid, WellFormed, Pairs, HashesFrom, IsBuildRequired, StartNumber, EndNumber, HeldIn, HashesAt;
  }

  lemma NoteSame(s: Light, h: Hash, mid: Light, cht: nat)
    requires Valid(s) && Valid(mid) && h !in s.tree
    requires IsBuildRequired(s.size, s.tree[s.finalized].number + 1) == Some(cht)
    requires mid.tree == WithBlock(s.tree, h, s.finalized) && mid.size == s.size && mid.finalized == s.finalized && mid.best == h
    requires mid.headers == s.headers + {h} && mid.roots == s.roots
    ensures var number := s.tree[s.finalized].number + 1;
            var a, b := NoteFinalized(s, s.finalized, number), NoteFinalized(mid, s.finalized, number);
            && a.Ok? && a.value.size == s.size
            && b == Ok(mid.(roots := a.value.roots,
                            index := mid.index - (s.index.Keys - a.value.index.Keys),
                            headers := s.headers + {h} - (s.headers - a.value.headers)))
  {
    hide Valid, WellFormed, Pairs, HashesFrom, IsBuildRequired, StartNumber, EndNumber, HeldIn, HashesAt, NoteFinalized, CanonicalHash;
    var start, end := StartNumber(s.size, cht), EndNumber(s.size, cht);
    ValidFacts(s);
    NoteBuild(s, cht);
    NoteBuild(mid, cht);
    SameStretch(s, h, s.finalized, mid, cht);
    SameHashes(s, mid, start, s.size);
    SameHeld(s, mid, start, end);
    var gone := HeldIn(s, start, end);
    HeldInIndex(s, start, end);
    FreshUnheld(s, h);
    FinalParts(s, mid, h, gone);
  }

  lemma FreshUnheld(s: Light, h: Hash)
    requires Valid(s) && h !in s.tree
    ensures h !in s.headers
  {
  }

  lemma HeldInIndex(s: Light, start: nat, end: nat)
    ensures HeldIn(s, start, end) <= s.index.Keys
    ensures HashesAt(s, HeldIn(s, start, end)) <= s.headers
  {
  }

  lemma SameHeld(s: Light, mid: Light, start: nat, end: nat)
    requires forall n: nat :: start <= n <= end ==>
               && CanonicalHash(mid, n) == CanonicalHash(s, n)
               && n in mid.index && n in s.index && mid.index[n] == s.index[n]
    ensures HeldIn(mid, start, end) == HeldIn(s, start, end)
    ensures HashesAt(mid, HeldIn(mid, start, end)) == HashesAt(s, HeldIn(s, start, end))
  {
    hide CanonicalHash;
  }

  /** The next trie's stretch looks the same before and after the import. */
  lemma SameStretch(s: Light, h: Hash, parent: Hash, mid: Light, cht: nat)
    requires Valid(s) && Valid(mid) && h !in s.tree && parent == s.finalized
    requires mid.tree == WithBlock(s.tree, h, parent) && mid.size == s.size && mid.finalized == s.finalized && mid.best == h
    requires mid.headers == s.headers + {h}
    requires IsBuildRequired(s.size, s.tree[s.finalized].number + 1) == Some(cht)
    ensures forall n: nat :: StartNumber(s.size, cht) <= n <= EndNumber(s.size, cht) ==>
              && CanonicalHash(mid, n) == CanonicalHash(s, n)
              && n in mid.index && n in s.index && mid.index[n] == s.index[n]
    ensures StartNumber(s.size, cht) + s.size == EndNumber(s.size, cht) + 1
  {
    StretchLength(s.size, cht);
    WithBlockChains(s.tree, h, parent);
    forall n: nat | StartNumber(s.size, cht) <= n <= EndNumber(s.size, cht)
      ensures CanonicalHash(mid, n) == CanonicalHash(s, n) && n in mid.index && n in s.index && mid.index[n] == s.index[n]
    {
      StretchHeld(s, cht, n);
      StretchHeld(mid, cht, n);
    }
    hide Valid, WellFormed, IsBuildRequired, StartNumber, EndNumber;
  }

  lemma {:induction false} SameHashes(s: Light, mid: Light, start: nat, count: nat)
    requires forall n: nat :: start <= n < start + count ==> CanonicalHash(mid, n) == CanonicalHash(s, n)
    ensures HashesFrom(mid, start, count) == HashesFrom(s, start, count)
    decreases count
  {
    hide CanonicalHash;
    if count > 0 { SameHashes(s, mid, start + 1, count - 1); }
  }

  lemma FinalParts(s: Light, mid: Light, h: Hash, gone: set<nat>)
    requires gone <= s.index.Keys && h !in s.headers
    requires mid.headers == s.headers + {h} && HashesAt(s, gone) <= s.headers
    ensures s.index.Keys - (s.index - gone).Keys == gone
    ensures s.headers + {h} - (s.headers - (s.headers - HashesAt(s, gone))) == mid.headers - HashesAt(s, gone)
  {
    hide HashesAt;
  }

  // ---- Runs --------------------------------------------------------------

  datatype Op =
    | ImportOp(hash: Hash, parent: Hash, number: nat, state: BlockState)
    | HeadOp(hash: Hash)
    | FinalizeOp(hash: Hash)

  /** Fresh blocks, heads that extend the finalized chain, and finalized blocks on the best chain. */
  ghost predicate Legal(s: Light, op: Op)
    requires WellFormed(s.tree) && s.best in s.tree && s.finalized in s.tree
  {
    match op
    case ImportOp(h, parent, number, state) =>
      && h !in s.tree && parent in s.tree && number == s.tree[parent].number + 1
      && (state.Best? ==> OnChain(s.tree, s.finalized, parent))
      && (state.Final? ==> parent == s.finalized)
    case HeadOp(h) => h in s.tree ==> OnChain(s.tree, s.finalized, h)
    case FinalizeOp(h) =>
      h in s.tree && s.tree[h].parent == s.finalized ==> s.tree[h].number > 0 && OnChain(s.tree, h, s.best)
  }

  ghost function Apply(s: Light, op: Op): Result<Light, LightError>
    requires Valid(s) && Legal(s, op)
  {
    match op
    case ImportOp(h, parent, number, state) => Import(s, h, parent, number, state)
    case HeadOp(h) => SetHead(s, h)
    case FinalizeOp(h) => FinalizeHeader(s, h)
  }

  lemma ImportFinalKeepsValid(s: Light, h: Hash, parent: Hash)
    requires Valid(s) && h !in s.tree && parent in s.tree && parent == s.finalized
    ensures var r := Import(s, h, parent, s.tree[parent].number + 1, Final);
            r.Ok? && Valid(r.value) && Placed(s, r.value, s.tree[h := Header(parent, s.tree[parent].number + 1)], h, h)
  {
    OnOwnChain(s.tree, s.finalized);
    ImportFinalIsTwoSteps(s, h, parent);
    ImportBestKeepsValid(s, h, parent);
    BestParts(s, h, parent);
    var mid := Import(s, h, parent, s.tree[parent].number + 1, Best).value;
    OnOwnChain(mid.tree, h);
    FinalizeKeepsValid(mid, h);
    hide Valid, WellFormed, FinalizeHeader, Import, MovedIndex, OnChain;
  }

  /** Which blocks, head and finalized block an operation is to leave behind. */
  ghost predicate Moves(s: Light, op: Op, after: Light) {
    match op
    case ImportOp(h, parent, number, state) =>
      Placed(s, after, s.tree[h := Header(parent, number)],
             if state.Normal? then s.best else h, if state.Final? then h else s.finalized)
    case HeadOp(h) => Placed(s, after, s.tree, h, s.finalized)
    case FinalizeOp(h) => Placed(s, after, s.tree, s.best, h)
  }

  /**
   * Every legal operation but a head change or finalization of an unknown block succeeds, moves
   * exactly what it is to move, and keeps the store right.
   */
  lemma ApplyKeepsValid(s: Light, op: Op)
    requires Valid(s) && Legal(s, op)
    ensures Apply(s, op).Ok? ==> Valid(Apply(s, op).value) && Moves(s, op, Apply(s, op).value)
    ensures op.HeadOp? ==> (Apply(s, op).Ok? <==> op.hash in s.headers)
    ensures op.ImportOp? ==> Apply(s, op).Ok?
    ensures op.FinalizeOp? ==> (Apply(s, op).Ok? <==> op.hash in s.tree && s.tree[op.hash].parent == s.finalized)
  {
    match op {
      case ImportOp(h, parent, _, Normal) => ImportAsideKeepsValid(s, h, parent);
      case ImportOp(h, parent, _, Best) => ImportBestKeepsValid(s, h, parent);
      case ImportOp(h, parent, _, Final) => ImportFinalKeepsValid(s, h, parent);
      case HeadOp(h) => SetHeadKeepsValid(s, h);
      case FinalizeOp(h) => FinalizeKeepsValid(s, h);
    }
    hide Valid, Import, SetHead, FinalizeHeader, OnChain;
  }

  ghost function Next(s: Light, op: Op): Light
    requires Valid(s) && Legal(s, op)
  {
    if Apply(s, op).Ok? then Apply(s, op).value else s
  }

  ghost predicate LegalRun(s: Light, ops: seq<Op>)
    requires Valid(s)
    decreases |ops|
  {
    ops != [] ==> Legal(s, ops[0]) && (ApplyKeepsValid(s, ops[0]); LegalRun(Next(s, ops[0]), ops[1..]))
  }

  ghost function Run(s: Light, ops: seq<Op>): Light
    requires Valid(s) && LegalRun(s, ops)
    decreases |ops|
  {
    if ops == [] then s else
    ApplyKeepsValid(s, ops[0]);
    Run(Next(s, ops[0]), ops[1..])
  }

  lemma {:induction false} RunKeepsValid(s: Light, ops: seq<Op>)
    requires Valid(s) && LegalRun(s, ops)
    ensures Valid(Run(s, ops))
    ensures forall h :: h in s.tree ==> h in Run(s, ops).tree && Run(s, ops).tree[h] == s.tree[h]
    decreases |ops|
  {
    hide Valid, Apply;
    if ops != [] {
      ApplyKeepsValid(s, ops[0]);
      RunKeepsValid(Next(s, ops[0]), ops[1..]);
    }
  }

  function Start(size: nat, genesis: Hash): Light {
    Light(size, map[genesis := Header([], 0)], map[0 := genesis], {genesis}, map[], genesis, genesis)
  }

  lemma StartIsValid(size: nat, genesis: Hash)
    requires size > 0
    ensures Valid(Start(size, genesis))
  {
    var s := Start(size, genesis);
    assert Linked(s.tree, genesis);
    OnOwnChain(s.tree, genesis);
  }

  /**
   * Over every run from genesis: height zero is genesis, and each canonical block from one on is
   * held or covered by a stored root that commits to its hash, never both and never neither.
   */
  lemma LightSafety(size: nat, genesis: Hash, ops: seq<Op>, n: nat)
    requires size > 0
    ensures Valid(Start(size, genesis))
    ensures LegalRun(Start(size, genesis), ops) ==>
              var s := Run(Start(size, genesis), ops);
              && Valid(s)
              && CanonicalHash(s, 0) == Some(genesis)
              && (1 <= n <= s.tree[s.best].number ==>
                    var hash := Ancestor(s.tree, s.best, n);
                    var root := ReadChtRoot(s, n);
                    && root.Ok?
                    && (CanonicalHash(s, n) == Some(hash) <==> root.value == None)
                    && (CanonicalHash(s, n) == None <==> root.value.Some?)
                    && (root.value.Some? ==> (n, hash) in root.value.value))
  {
    StartIsValid(size, genesis);
    if LegalRun(Start(size, genesis), ops) {
      RunKeepsValid(Start(size, genesis), ops);
      var s := Run(Start(size, genesis), ops);
      GenesisStays(s, genesis);
      if 1 <= n <= s.tree[s.best].number { Coverage(s, n); }
    }
    hide LegalRun, Run, IndexRight, HeadersRight, RootsRight, CanonicalHash, ReadChtRoot, OnChain, WellFormed, Replaced;
  }

  lemma GenesisStays(s: Light, genesis: Hash)
    requires Valid(s) && genesis in s.tree && s.tree[genesis].number == 0
    ensures CanonicalHash(s, 0) == Some(genesis)
  {
    var bottom := Ancestor(s.tree, s.best, 0);
    assert Linked(s.tree, genesis) && Linked(s.tree, bottom);
    assert genesis in s.headers;
    hide OnChain, RootsRight;
  }

  /**
   * Blocks off the known tree: a plain import needs no known parent, a new head does, and a final
   * block has to follow the finalized one.
   */
  lemma ImportUnplaced(s: Light, h: Hash, parent: Hash, number: nat, state: BlockState)
    requires Valid(s) && number > 0
    ensures state.Normal? ==>
              Import(s, h, parent, number, state) == Ok(s.(tree := s.tree[h := Header(parent, number)], headers := s.headers + {h}))
    ensures !state.Normal? && parent !in s.tree ==> Import(s, h, parent, number, state) == Err(HeaderNotFound)
    ensures state.Final? && parent in s.tree && parent != s.finalized ==>
              Import(s, h, parent, number, state) == Err(NonSequentialFinalization)
  {
    assert s.index - {} == s.index && s.headers + {h} - {} == s.headers + {h};
    assert s.index.Keys - s.index.Keys == {} && s.headers - s.headers == {};
    hide MovedIndex, IndexRight, HeadersRight, RootsRight, OnChain;
  }
}
