/**
 * The light client's header store: recent headers by hash, the canonical hash of each height, and
 * a trie root for each stretch of old blocks whose headers have been dropped. Keys stand for the
 * numbers and hashes they encode.
 */
module LightClient {
  import opened Common
  import opened BlockTree
  import opened Cht

  datatype Light = Light(
    size: nat,
    tree: Tree,
    index: map<nat, Hash>,
    headers: set<Hash>,
    roots: map<nat, seq<(nat, Hash)>>,
    best: Hash,
    finalized: Hash
  )

  datatype LightError = HeaderNotFound | NonSequentialFinalization | ChtFailed(error: ChtError)

  datatype BlockState = Normal | Best | Final

  function IsBest(state: BlockState): bool {
    state.Best? || state.Final?
  }

  /** The canonical hash of a height, if its header is held. */
  function CanonicalHash(s: Light, n: nat): Option<Hash> {
    if n in s.index && s.index[n] in s.headers then Some(s.index[n]) else None
  }

  // ---- Moving the head ---------------------------------------------------

  function Unmap(index: map<nat, Hash>, tree: Tree, blocks: seq<Hash>): map<nat, Hash>
    requires forall h :: h in blocks ==> h in tree
    decreases |blocks|
  {
    if blocks == [] then index else Unmap(index - {tree[blocks[0]].number}, tree, blocks[1..])
  }

  function Map(index: map<nat, Hash>, tree: Tree, blocks: seq<Hash>): map<nat, Hash>
    requires forall h :: h in blocks ==> h in tree
    decreases |blocks|
  {
    if blocks == [] then index else Map(index[tree[blocks[0]].number := blocks[0]], tree, blocks[1..])
  }

  lemma RouteKnown(tree: Tree, a: Hash, b: Hash)
    requires WellFormed(tree) && a in tree && b in tree
    ensures forall h :: h in Retracted(tree, a, b) ==> h in tree
    ensures forall h :: h in Enacted(tree, a, b) ==> h in tree
  {
    forall h | h in Retracted(tree, a, b) || h in Enacted(tree, a, b) ensures h in tree {
      RouteSplitsChains(tree, a, b, h);
    }
  }

  /** The index after the head moves to `h` by way of `routeTo`. */
  ghost function MovedIndex(s: Light, routeTo: Hash, h: Hash, number: nat): map<nat, Hash>
    requires WellFormed(s.tree) && s.best in s.tree && routeTo in s.tree
  {
    RouteKnown(s.tree, s.best, routeTo);
    Map(Unmap(s.index, s.tree, Retracted(s.tree, s.best, routeTo)), s.tree, Enacted(s.tree, s.best, routeTo))[number := h]
  }

  // ---- Finalizing --------------------------------------------------------

  function HashesFrom(s: Light, start: nat, count: nat): seq<Option<Hash>>
    decreases count
  {
    if count == 0 then [] else [CanonicalHash(s, start)] + HashesFrom(s, start + 1, count - 1)
  }

  /** The blocks of a stretch whose headers are held. */
  function HeldIn(s: Light, start: nat, end: nat): set<nat> {
    set n | start <= n <= end && CanonicalHash(s, n).Some?
  }

  function HashesAt(s: Light, numbers: set<nat>): set<Hash> {
    set n | n in numbers && n in s.index :: s.index[n]
  }

  /** Builds the trie the newly finalized block calls for, if any, and drops the headers it replaces. */
  function NoteFinalized(s: Light, parent: Hash, number: nat): Result<Light, LightError>
    requires s.size > 0
  {
    if parent != s.finalized then Err(NonSequentialFinalization)
    else match IsBuildRequired(s.size, number)
         case None => Ok(s)
         case Some(cht) =>
           var start, end := StartNumber(s.size, cht), EndNumber(s.size, cht);
           match Pairs(start, s.size, HashesFrom(s, start, s.size))
           case Err(e) => Err(ChtFailed(e))
           case Ok(pairs) =>
             var gone := HeldIn(s, start, end);
             Ok(s.(roots := s.roots[start := pairs], index := s.index - gone, headers := s.headers - HashesAt(s, gone)))
  }

  // ---- Operations --------------------------------------------------------

  /** Genesis is final whatever the caller says. */
  predicate Finalizes(state: BlockState, number: nat) {
    state.Final? || number == 0
  }

  /** Only a new head needs its parent to be known, for the route to it. */
  ghost function Import(s: Light, h: Hash, parent: Hash, number: nat, state: BlockState): Result<Light, LightError>
    requires WellFormed(s.tree) && s.best in s.tree && s.size > 0
  {
    if IsBest(state) && parent !in s.tree then Err(HeaderNotFound) else
    var noted := if Finalizes(state, number) then NoteFinalized(s, parent, number) else Ok(s);
    match noted
    case Err(e) => Err(e)
    case Ok(pruned) =>
      // In the transaction the dropped entries come last.
      var moved := if IsBest(state) then MovedIndex(s, parent, h, number) else s.index;
      Ok(pruned.(tree := s.tree[h := Header(parent, number)],
                 index := moved - (s.index.Keys - pruned.index.Keys),
                 headers := s.headers + {h} - (s.headers - pruned.headers),
                 best := if IsBest(state) then h else s.best,
                 finalized := if Finalizes(state, number) then h else s.finalized))
  }

  ghost function SetHead(s: Light, h: Hash): Result<Light, LightError>
    requires WellFormed(s.tree) && s.best in s.tree
  {
    if h !in s.headers || h !in s.tree then Err(HeaderNotFound)
    else Ok(s.(index := MovedIndex(s, h, h, s.tree[h].number), best := h))
  }

  function FinalizeHeader(s: Light, h: Hash): Result<Light, LightError>
    requires s.size > 0
  {
    if h !in s.headers || h !in s.tree then Err(HeaderNotFound)
    else match NoteFinalized(s, s.tree[h].parent, s.tree[h].number)
         case Err(e) => Err(e)
         case Ok(noted) => Ok(noted.(finalized := h))
  }

  /** The trie root that covers a block: nothing while the block is not replaced yet. */
  function ReadChtRoot(s: Light, block: nat): Result<Option<seq<(nat, Hash)>>, LightError>
    requires s.size > 0 && s.finalized in s.tree
  {
    match BlockToCht(s.size, block)
    case None => Err(ChtFailed(NoChtForBlock))
    case Some(cht) =>
      var max := MaxCht(s.size, s.tree[s.finalized].number);
      if max.None? || cht > max.value then Ok(None)
      else if StartNumber(s.size, cht) !in s.roots then Err(ChtFailed(NoChtForBlock))
      else Ok(Some(s.roots[StartNumber(s.size, cht)]))
  }

  // ---- Invariant ---------------------------------------------------------

  predicate Replaced(size: nat, finalized: nat, n: nat)
    requires size > 0
  {
    1 <= n <= ReplacedEnd(size, finalized)
  }

  ghost predicate IndexRight(s: Light)
    requires WellFormed(s.tree) && s.best in s.tree && s.finalized in s.tree && s.size > 0
  {
    forall n: nat ::
      && (n in s.index <==> n <= s.tree[s.best].number && !Replaced(s.size, s.tree[s.finalized].number, n))
      && (n in s.index ==> s.index[n] == Ancestor(s.tree, s.best, n))
  }

  /** Every known header is held, but for the replaced blocks of the finalized chain. */
  ghost predicate HeadersRight(s: Light)
    requires WellFormed(s.tree) && s.finalized in s.tree && s.size > 0
  {
    forall h {:trigger h in s.headers} :: h in s.headers <==>
      h in s.tree && !(Replaced(s.size, s.tree[s.finalized].number, s.tree[h].number) && OnChain(s.tree, h, s.finalized))
  }

  /** A root commits to the finalized chain's hashes of one stretch. */
  ghost predicate RootRight(s: Light, cht: nat)
    requires WellFormed(s.tree) && s.finalized in s.tree && s.size > 0
  {
    var start := StartNumber(s.size, cht);
    && start + s.size <= s.tree[s.finalized].number + 1
    && start in s.roots && |s.roots[start]| == s.size
    && (forall i :: 0 <= i < s.size ==> s.roots[start][i] == (start + i, Ancestor(s.tree, s.finalized, start + i)))
  }

  ghost predicate RootsRight(s: Light)
    requires WellFormed(s.tree) && s.finalized in s.tree && s.size > 0
  {
    var max := MaxCht(s.size, s.tree[s.finalized].number);
    && (forall cht: nat :: max.Some? && cht <= max.value ==> RootRight(s, cht))
    && (forall start :: start in s.roots ==> exists cht: nat :: max.Some? && cht <= max.value && start == StartNumber(s.size, cht))
  }

  ghost predicate Valid(s: Light) {
    && s.size > 0
    && WellFormed(s.tree) && s.best in s.tree && s.finalized in s.tree
    && OnChain(s.tree, s.finalized, s.best)
    && IndexRight(s) && HeadersRight(s) && RootsRight(s)
  }

  /**
   * Every canonical block from one on is either held or covered by exactly one stored root, which
   * commits to its hash; and the root is offered exactly for the blocks not held.
   */
  lemma Coverage(s: Light, n: nat)
    requires Valid(s) && 1 <= n <= s.tree[s.best].number
    ensures var replaced := Replaced(s.size, s.tree[s.finalized].number, n);
            && (CanonicalHash(s, n) == if replaced then None else Some(Ancestor(s.tree, s.best, n)))
            && (ReadChtRoot(s, n) == Ok(None) <==> !replaced)
            && (replaced ==>
                  && ReadChtRoot(s, n).Ok? && ReadChtRoot(s, n).value.Some?
                  && (n, Ancestor(s.tree, s.best, n)) in ReadChtRoot(s, n).value.value)
  {
    var f := s.tree[s.finalized].number;
    ReplacedIsBuilt(s.size, f, n);
    var cht := BlockToCht(s.size, n).value;
    IntervalsPartition(s.size, n, cht);
    if Replaced(s.size, f, n) {
      assert RootRight(s, cht);
      var start := StartNumber(s.size, cht);
      assert (cht + 1) * s.size == cht * s.size + s.size;
      var i := n - start;
      assert s.roots[start][i] == (n, Ancestor(s.tree, s.finalized, n));
      AncestorOfAncestor(s.tree, s.best, f, n);
    } else {
      var a := Ancestor(s.tree, s.best, n);
      assert a in s.headers;
    }
  }

  /** No root is for genesis, and none is offered beyond the replaced blocks. */
  lemma NoRoot(s: Light, n: nat)
    requires Valid(s)
    ensures ReadChtRoot(s, 0) == Err(ChtFailed(NoChtForBlock))
    ensures n > 0 && !Replaced(s.size, s.tree[s.finalized].number, n) ==> ReadChtRoot(s, n) == Ok(None)
  {
    if n > 0 { ReplacedIsBuilt(s.size, s.tree[s.finalized].number, n); }
    hide IndexRight, HeadersRight, RootsRight, OnChain;
  }

  predicate Lists(pairs: seq<(nat, Hash)>, n: nat) {
    exists i :: 0 <= i < |pairs| && pairs[i].0 == n
  }

  /** Of the stored roots, exactly the block's own lists it. */
  lemma CoveredOnce(s: Light, n: nat, cht: nat)
    requires Valid(s) && 1 <= n
    requires var max := MaxCht(s.size, s.tree[s.finalized].number); max.Some? && cht <= max.value
    ensures RootRight(s, cht)
    ensures Lists(s.roots[StartNumber(s.size, cht)], n) <==> BlockToCht(s.size, n) == Some(cht)
  {
    assert RootRight(s, cht);
    var start := StartNumber(s.size, cht);
    IntervalsPartition(s.size, n, cht);
    assert (cht + 1) * s.size == cht * s.size + s.size;
    if BlockToCht(s.size, n) == Some(cht) {
      var i := n - start;
      assert s.roots[start][i].0 == n;
    }
    hide Ancestor, IndexRight, HeadersRight, RootsRight, OnChain, WellFormed;
  }
}
