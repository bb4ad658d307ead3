/** The light client's header store as an object. */
module LightClientObject {
  import opened Common
  import opened BlockTree
  import opened Cht
  import opened LightClient
  import opened LightClientRuns

  /** What noting a finalized block adds to a transaction. */
  datatype Pruning = Pruning(roots: map<nat, seq<(nat, Hash)>>, numbers: set<nat>, hashes: set<Hash>)

  class LightStorage {
    const size: nat
    var tree: Tree
    var index: map<nat, Hash>
    var headers: set<Hash>
    var roots: map<nat, seq<(nat, Hash)>>
    var best: Hash
    var finalized: Hash

    ghost function View(): Light
      reads this
    {
      Light(size, tree, index, headers, roots, best, finalized)
    }

    constructor (size: nat, genesis: Hash)
      ensures View() == Start(size, genesis)
    {
      this.size := size;
      tree, index, headers, roots := map[genesis := Header([], 0)], map[0 := genesis], {genesis}, map[];
      best, finalized := genesis, genesis;
    }

    method HashAt(n: nat) returns (hash: Option<Hash>)
      ensures hash == LightClient.CanonicalHash(View(), n)
    {
      if n in index && index[n] in headers {
        return Some(index[n]);
      }
      return None;
    }

    /** Follows the route to `routeTo`, then makes `h` the block at `number`. */
    method MoveHead(routeTo: Hash, h: Hash, number: nat) returns (moved: map<nat, Hash>)
      requires WellFormed(tree) && best in tree && routeTo in tree
      ensures moved == MovedIndex(View(), routeTo, h, number)
    {
      var route := TreeRoute(tree, best, routeTo);
      RouteKnown(tree, best, routeTo);
      var retracted, enacted := route.value.retracted, route.value.enacted;
      moved := index;
      assert retracted[0..] == retracted;
      for i := 0 to |retracted|
        invariant Unmap(moved, tree, retracted[i..]) == Unmap(index, tree, retracted)
      {
        assert retracted[i..][1..] == retracted[i + 1..];
        moved := moved - {tree[retracted[i]].number};
      }
      ghost var mid := moved;
      assert enacted[0..] == enacted;
      for i := 0 to |enacted|
        invariant Map(moved, tree, enacted[i..]) == Map(mid, tree, enacted)
      {
        assert enacted[i..][1..] == enacted[i + 1..];
        moved := moved[tree[enacted[i]].number := enacted[i]];
      }
      moved := moved[number := h];
    }

    method CollectHashes(start: nat) returns (hashes: seq<Option<Hash>>)
      ensures hashes == HashesFrom(View(), start, size)
    {
      hashes := [];
      ghost var all := HashesFrom(View(), start, size);
      HashesFromAre(View(), start, size);
      for i := 0 to size
        invariant hashes == all[..i]
      {
        var hash := HashAt(start + i);
        assert all[..i + 1] == all[..i] + [all[i]];
        hashes := hashes + [hash];
      }
    }

    method NoteFinalized(parent: Hash, number: nat) returns (result: Result<Pruning, LightError>)
      requires size > 0
      ensures var noted := LightClient.NoteFinalized(View(), parent, number);
              && (result.Err? <==> noted.Err?) && (result.Err? ==> result.error == noted.error)
              && (result.Ok? ==>
                    noted.value == View().(roots := result.value.roots, index := index - result.value.numbers,
                                           headers := headers - result.value.hashes))
      ensures result.Ok? ==> result.value.numbers <= index.Keys && result.value.hashes <= headers
    {
      hide HashesFrom, Pairs, HeldIn, HashesAt;
      if parent != finalized {
        return Err(NonSequentialFinalization);
      }
      var required := IsBuildRequired(size, number);
      if required.None? {
        assert index - {} == index && headers - {} == headers;
        return Ok(Pruning(roots, {}, {}));
      }
      var cht := required.value;
      var start, end := StartNumber(size, cht), EndNumber(size, cht);
      var hashes := CollectHashes(start);
      var pairs := BuildPairs(size, cht, hashes);
      if pairs.Err? {
        return Err(ChtFailed(pairs.error));
      }
      var numbers, dropped := DropStretch(start, end);
      HeldInIndex(View(), start, end);
      return Ok(Pruning(roots[start := pairs.value], numbers, dropped));
    }

    /** The entries and headers that a trie over this stretch replaces. */
    method DropStretch(start: nat, end: nat) returns (numbers: set<nat>, dropped: set<Hash>)
      ensures numbers == HeldIn(View(), start, end) && dropped == HashesAt(View(), numbers)
    {
      numbers, dropped := {}, {};
      var block := start;
      while block <= end
        invariant start <= block
        invariant block <= end + 1 || numbers == {}
        invariant numbers == set n | start <= n < block && LightClient.CanonicalHash(View(), n).Some?
        invariant dropped == HashesAt(View(), numbers)
        decreases end + 1 - block
      {
        var hash := HashAt(block);
        if hash.Some? {
          ghost var before := numbers;
          numbers, dropped := numbers + {block}, dropped + {hash.value};
          assert HashesAt(View(), numbers) == HashesAt(View(), before) + {index[block]};
        }
        block := block + 1;
      }
    }

    method Import(h: Hash, parent: Hash, number: nat, state: BlockState) returns (error: Option<LightError>)
      requires WellFormed(tree) && best in tree && size > 0
      modifies this
      ensures var r := LightClient.Import(old(View()), h, parent, number, state);
              if r.Ok? then error == None && View() == r.value else error == Some(r.error) && View() == old(View())
    {
      hide MovedIndex, LightClient.NoteFinalized;
      if IsBest(state) && parent !in tree {
        return Some(HeaderNotFound);
      }
      var moved := index;
      if IsBest(state) {
        moved := MoveHead(parent, h, number);
      }
      var pruning := Pruning(roots, {}, {});
      if Finalizes(state, number) {
        var noted := NoteFinalized(parent, number);
        if noted.Err? {
          return Some(noted.error);
        }
        pruning := noted.value;
        DropIsDifference(index, headers, h, moved, pruning);
      } else {
        assert moved - {} == moved && headers + {h} - {} == headers + {h};
        assert index.Keys - index.Keys == {} && headers - headers == {};
      }
      index := moved - pruning.numbers;
      headers := headers + {h} - pruning.hashes;
      roots := pruning.roots;
      tree := tree[h := Header(parent, number)];
      if IsBest(state) {
        best := h;
      }
      if Finalizes(state, number) {
        finalized := h;
      }
      return None;
    }

    method SetHead(h: Hash) returns (error: Option<LightError>)
      requires WellFormed(tree) && best in tree
      modifies this
      ensures var r := LightClient.SetHead(old(View()), h);
              if r.Ok? then error == None && View() == r.value else error == Some(r.error) && View() == old(View())
    {
      if h !in headers || h !in tree {
        return Some(HeaderNotFound);
      }
      index := MoveHead(h, h, tree[h].number);
      best := h;
      return None;
    }

    method FinalizeHeader(h: Hash) returns (error: Option<LightError>)
      requires size > 0
      modifies this
      ensures var r := LightClient.FinalizeHeader(old(View()), h);
              if r.Ok? then error == None && View() == r.value else error == Some(r.error) && View() == old(View())
    {
      hide LightClient.NoteFinalized;
      if h !in headers || h !in tree {
        return Some(HeaderNotFound);
      }
      var noted := NoteFinalized(tree[h].parent, tree[h].number);
      if noted.Err? {
        return Some(noted.error);
      }
      index, headers, roots := index - noted.value.numbers, headers - noted.value.hashes, noted.value.roots;
      finalized := h;
      return None;
    }

    /** Nothing while the block is not replaced yet. */
    method ReadChtRoot(block: nat) returns (root: Result<Option<seq<(nat, Hash)>>, LightError>)
      requires size > 0 && finalized in tree
      ensures root == LightClient.ReadChtRoot(View(), block)
    {
      var max := MaxCht(size, tree[finalized].number);
      var cht := BlockToCht(size, block);
      if cht.None? {
        return Err(ChtFailed(NoChtForBlock));
      }
      if max.None? || cht.value > max.value {
        return Ok(None);
      }
      var start := StartNumber(size, cht.value);
      if start !in roots {
        return Err(ChtFailed(NoChtForBlock));
      }
      return Ok(Some(roots[start]));
    }
  }

  /** Removing what a pruning lists is the same as removing what it made disappear. */
  lemma DropIsDifference(index: map<nat, Hash>, headers: set<Hash>, h: Hash, moved: map<nat, Hash>, p: Pruning)
    requires p.numbers <= index.Keys && p.hashes <= headers
    ensures moved - p.numbers == moved - (index.Keys - (index - p.numbers).Keys)
    ensures headers + {h} - p.hashes == headers + {h} - (headers - (headers - p.hashes))
  {
    assert index.Keys - (index - p.numbers).Keys == p.numbers;
  }
}
