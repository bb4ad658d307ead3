/** Canonical hash tries: the arithmetic that maps blocks to tries, and the lists a trie commits to. */
module Cht {
  import opened Common

  // ---- Numbers -----------------------------------------------------------

  function StartNumber(size: nat, cht: nat): nat {
    cht * size + 1
  }

  function EndNumber(size: nat, cht: nat): nat {
    (cht + 1) * size
  }

  /** Nothing for block zero, whose hash is known anyway. */
  function BlockToCht(size: nat, block: nat): Option<nat>
    requires size > 0
  {
    if block == 0 then None else Some((block - 1) / size)
  }

  /** The trie to build when the given block is finalized. */
  function IsBuildRequired(size: nat, block: nat): Option<nat>
    requires size > 0
  {
    match BlockToCht(size, block)
    case None => None
    case Some(cht) => if cht < 2 || StartNumber(size, cht) != block then None else Some(cht - 2)
  }

  function MaxCht(size: nat, finalized: nat): Option<nat>
    requires size > 0
  {
    match BlockToCht(size, finalized)
    case None => None
    case Some(cht) => if cht < 2 then None else Some(cht - 2)
  }

  /** The last block replaced by a trie once `finalized` is finalized; zero if there is none. */
  function ReplacedEnd(size: nat, finalized: nat): nat
    requires size > 0
  {
    match MaxCht(size, finalized)
    case None => 0
    case Some(cht) => EndNumber(size, cht)
  }

  lemma QuotientIs(x: nat, size: nat, q: nat)
    requires size > 0 && q * size <= x < (q + 1) * size
    ensures x / size == q
  {
    var d, r := x / size, x % size;
    assert x == d * size + r;
    assert (d + 1) * size == d * size + size;
    if d < q {
      Monotone(d + 1, q, size);
    } else if d > q {
      Monotone(q + 1, d, size);
    }
  }

  lemma Monotone(a: nat, b: nat, size: nat)
    requires a <= b
    ensures a * size <= b * size
  {
    assert b * size - a * size == (b - a) * size;
  }

  /** The tries cut the blocks from one on into consecutive intervals. */
  lemma IntervalsPartition(size: nat, block: nat, cht: nat)
    requires size > 0
    ensures StartNumber(size, cht) <= block <= EndNumber(size, cht) <==> BlockToCht(size, block) == Some(cht)
  {
    assert (cht + 1) * size == cht * size + size;
    if StartNumber(size, cht) <= block <= EndNumber(size, cht) {
      QuotientIs(block - 1, size, cht);
    }
    if BlockToCht(size, block) == Some(cht) {
      var r := (block - 1) % size;
      assert block - 1 == cht * size + r;
    }
  }

  /** A trie is built exactly when the highest number of built tries goes up by one. */
  lemma BuildRaisesMax(size: nat, finalized: nat)
    requires size > 0
    ensures match IsBuildRequired(size, finalized + 1)
            case None => MaxCht(size, finalized + 1) == MaxCht(size, finalized)
            case Some(cht) =>
              && MaxCht(size, finalized + 1) == Some(cht)
              && MaxCht(size, finalized) == (if cht == 0 then None else Some(cht - 1))
              && ReplacedEnd(size, finalized) == StartNumber(size, cht) - 1
              && ReplacedEnd(size, finalized + 1) == EndNumber(size, cht)
              && EndNumber(size, cht) < finalized + 1
  {
    var q := finalized / size;
    assert BlockToCht(size, finalized + 1) == Some(q);
    PreviousQuotient(size, finalized);
    NextMultiple(size, q);
    if q > 0 { NextMultiple(size, q - 1); }
    if q > 1 { NextMultiple(size, q - 2); }
  }

  lemma NextMultiple(size: nat, q: nat)
    ensures (q + 1) * size == q * size + size
    ensures StartNumber(size, q) == q * size + 1 && EndNumber(size, q) == q * size + size
  {
  }

  lemma PreviousQuotient(size: nat, x: nat)
    requires size > 0
    ensures var q := x / size;
            && q * size <= x
            && (x > 0 ==> (x - 1) / size == if q * size == x then q - 1 else q)
            && (x > 0 && q * size == x ==> q > 0)
  {
    var q := x / size;
    assert x == q * size + x % size;
    NextMultiple(size, q);
    if x > 0 {
      if q * size == x {
        assert q > 0;
        NextMultiple(size, q - 1);
        QuotientIs(x - 1, size, q - 1);
      } else {
        QuotientIs(x - 1, size, q);
      }
    }
  }

  lemma ReplacedIsOld(size: nat, finalized: nat)
    requires size > 0
    ensures ReplacedEnd(size, finalized) <= finalized
    ensures finalized > 0 ==> ReplacedEnd(size, finalized) < finalized
  {
    if MaxCht(size, finalized).Some? {
      var q := (finalized - 1) / size;
      assert finalized - 1 == q * size + (finalized - 1) % size;
      assert q * size == (q - 1) * size + size;
      assert EndNumber(size, q - 2) == (q - 1) * size;
    }
  }

  /** A block from one on is replaced exactly when its trie is among the built ones. */
  lemma ReplacedIsBuilt(size: nat, finalized: nat, block: nat)
    requires size > 0 && block > 0
    ensures block <= ReplacedEnd(size, finalized) <==>
              MaxCht(size, finalized).Some? && BlockToCht(size, block).value <= MaxCht(size, finalized).value
  {
    if MaxCht(size, finalized).Some? {
      var m, c := MaxCht(size, finalized).value, BlockToCht(size, block).value;
      IntervalsPartition(size, block, c);
      if c <= m {
        Monotone(c + 1, m + 1, size);
      } else {
        Monotone(m + 1, c, size);
      }
    }
  }

  // ---- What a trie commits to --------------------------------------------

  datatype ChtError = MissingHashRequiredForCht | NoChtForBlock

  /** The key and value pairs of a trie: the first `size` hashes, numbered from its start; all must be there. */
  function Pairs(start: nat, size: nat, hashes: seq<Option<Bytes>>): Result<seq<(nat, Bytes)>, ChtError>
    decreases size
  {
    if size == 0 then Ok([])
    else if hashes == [] || hashes[0].None? then Err(MissingHashRequiredForCht)
    else match Pairs(start + 1, size - 1, hashes[1..])
         case Err(e) => Err(e)
         case Ok(rest) => Ok([(start, hashes[0].value)] + rest)
  }

  /** Succeeds exactly when every block of the trie has a hash, and lists exactly those. */
  lemma {:induction false} PairsExact(start: nat, size: nat, hashes: seq<Option<Bytes>>)
    ensures Pairs(start, size, hashes).Ok? <==> |hashes| >= size && forall i :: 0 <= i < size ==> hashes[i].Some?
    ensures Pairs(start, size, hashes).Ok? ==>
              && |Pairs(start, size, hashes).value| == size
              && (forall i :: 0 <= i < size ==> Pairs(start, size, hashes).value[i] == (start + i, hashes[i].value))
    decreases size
  {
    if size > 0 && hashes != [] {
      PairsExact(start + 1, size - 1, hashes[1..]);
      assert forall i :: 0 <= i < |hashes| - 1 ==> hashes[1..][i] == hashes[i + 1];
      assert forall i :: 1 <= i < |hashes| ==> hashes[i] == hashes[1..][i - 1];
    }
  }

  /** The loop over an iterator of hashes, which stops after `size` of them. */
  method BuildPairs(size: nat, cht: nat, hashes: seq<Option<Bytes>>) returns (result: Result<seq<(nat, Bytes)>, ChtError>)
    requires size > 0
    ensures result == Pairs(StartNumber(size, cht), size, hashes)
  {
    var start := StartNumber(size, cht);
    var pairs: seq<(nat, Bytes)> := [];
    var index := 0;
    ghost var goal := Pairs(start, size, hashes);
    assert hashes[0..] == hashes;
    assert goal.Ok? ==> pairs + goal.value == goal.value;
    while index < |hashes|
      invariant index < size && 0 <= index <= |hashes|
      invariant var rest := Pairs(start + index, size - index, hashes[index..]);
                if rest.Ok? then goal == Ok(pairs + rest.value) else goal == rest
    {
      assert hashes[index..][1..] == hashes[index + 1..];
      if hashes[index].None? {
        return Err(MissingHashRequiredForCht);
      }
      ghost var rest := Pairs(start + index + 1, size - index - 1, hashes[index + 1..]);
      assert rest.Ok? ==> pairs + ([(start + index, hashes[index].value)] + rest.value) == pairs + [(start + index, hashes[index].value)] + rest.value;
      pairs := pairs + [(start + index, hashes[index].value)];
      index := index + 1;
      if index == size {
        assert pairs + [] == pairs;
        return Ok(pairs);
      }
    }
    return Err(MissingHashRequiredForCht);
  }

  // ---- Grouping blocks by trie -------------------------------------------

  function Flat(groups: seq<(nat, seq<nat>)>): seq<nat> {
    if groups == [] then [] else Flat(groups[..|groups| - 1]) + groups[|groups| - 1].1
  }

  /** Every block belongs to the given trie. */
  ghost predicate AllIn(size: nat, blocks: seq<nat>, cht: nat)
    requires size > 0
  {
    forall i :: 0 <= i < |blocks| ==> BlockToCht(size, blocks[i]) == Some(cht)
  }

  ghost predicate Grouped(size: nat, groups: seq<(nat, seq<nat>)>)
    requires size > 0
  {
    && (forall g :: 0 <= g < |groups| ==> groups[g].1 != [] && AllIn(size, groups[g].1, groups[g].0))
    && (forall g, h :: 0 <= g < h < |groups| ==> groups[g].0 < groups[h].0)
  }

  /**
   * Groups ordered blocks by trie. Every block lands in the group of its own trie, the groups come
   * in increasing order, and together they hold the blocks as given. Fails exactly on block zero.
   */
  method GroupByCht(size: nat, blocks: seq<nat>) returns (result: Option<seq<(nat, seq<nat>)>>)
    requires size > 0
    requires forall i, j :: 0 <= i < j < |blocks| ==> blocks[i] <= blocks[j]
    ensures result.None? <==> 0 in blocks
    ensures result.Some? ==> Grouped(size, result.value) && Flat(result.value) == blocks
  {
    hide AllIn, Flat;
    var groups: seq<(nat, seq<nat>)> := [];
    NoGroups();
    var current: Option<nat> := None;
    var pending: seq<nat> := [];
    for i := 0 to |blocks|
      invariant Grouped(size, groups) && Flat(groups) + pending == blocks[..i]
      invariant 0 !in blocks[..i]
      invariant current.None? ==> pending == [] && groups == []
      invariant current.Some? ==> pending != [] && AllIn(size, pending, current.value)
      invariant current.Some? ==> forall g :: 0 <= g < |groups| ==> groups[g].0 < current.value
      invariant current.Some? ==> i > 0 && BlockToCht(size, blocks[i - 1]) == current
    {
      assert blocks[..i + 1] == blocks[..i] + [blocks[i]];
      var cht := BlockToCht(size, blocks[i]);
      if cht.None? {
        return None;
      }
      if current.Some? && current != cht {
        LaterBlockLaterCht(size, blocks[i - 1], blocks[i]);
        FlatAppend(groups, (current.value, pending));
        groups := groups + [(current.value, pending)];
        pending := [];
      }
      AllInAppend(size, pending, blocks[i], cht.value);
      pending := pending + [blocks[i]];
      current := cht;
    }
    assert blocks[..|blocks|] == blocks;
    if current.Some? {
      FlatAppend(groups, (current.value, pending));
      groups := groups + [(current.value, pending)];
    }
    return Some(groups);
  }

  lemma NoGroups()
    ensures Flat([]) == []
  {
  }

  lemma AllInAppend(size: nat, blocks: seq<nat>, block: nat, cht: nat)
    requires size > 0 && BlockToCht(size, block) == Some(cht) && (blocks == [] || AllIn(size, blocks, cht))
    ensures AllIn(size, blocks + [block], cht)
  {
  }

  lemma FlatAppend(groups: seq<(nat, seq<nat>)>, g: (nat, seq<nat>))
    ensures Flat(groups + [g]) == Flat(groups) + g.1
  {
    assert (groups + [g])[..|groups|] == groups;
  }

  lemma LaterBlockLaterCht(size: nat, a: nat, b: nat)
    requires size > 0 && 0 < a <= b
    ensures BlockToCht(size, a).value <= BlockToCht(size, b).value
  {
    var c, d := BlockToCht(size, a).value, BlockToCht(size, b).value;
    IntervalsPartition(size, a, c);
    IntervalsPartition(size, b, d);
    if d < c { Monotone(d + 1, c, size); }
  }
}
