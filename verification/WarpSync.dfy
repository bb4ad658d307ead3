/** Warp sync proofs: a chain of authority handoffs, and the latest justification. */
module WarpSync {
  import opened Common
  import opened BlockTree
  import opened ForkForest
  import opened AuthorityLog

  const MAX_WARP_SYNC_PROOF_SIZE: nat := 0x100_0000

  /** A header, the authority change it schedules, if any, and its encoded size. */
  datatype SignedHeader = SignedHeader(hash: Hash, number: nat, change: Option<AuthorityList>, size: nat)

  /** A justification for a target block, with the set and the authorities that signed it. */
  datatype Justification = Justification(number: nat, hash: Hash, setId: nat, signers: AuthorityList, size: nat)

  datatype Fragment = Fragment(header: SignedHeader, justification: Justification)

  function Size(f: Fragment): nat {
    f.header.size + f.justification.size
  }

  function SizeOf(fragments: seq<Fragment>): nat {
    if fragments == [] then 0 else Size(fragments[0]) + SizeOf(fragments[1..])
  }

  datatype Proof = Proof(fragments: seq<Fragment>, isFinished: bool)

  datatype WarpError =
    | MissingStart | StartNotFinalized | StartNotCanonical | MissingData
    | BadJustification | HeaderMismatch | MissingDigest

  /** What the prover reads: known blocks, canonical headers by number, justifications, the best justification. */
  datatype Chain = Chain(
    known: map<Hash, nat>,
    canonical: seq<SignedHeader>,
    finalized: nat,
    justifications: map<nat, Justification>,
    best: Option<Justification>
  )

  // ---- Generating --------------------------------------------------------

  /** Logged blocks are in the database, and those that schedule a change have a justification. */
  predicate InDatabase(chain: Chain, changes: Log) {
    forall i :: 0 <= i < |changes| ==>
      && changes[i].1 < |chain.canonical|
      && (chain.canonical[changes[i].1].change.Some? ==> changes[i].1 in chain.justifications)
  }

  /** The handoffs that fit, and whether the limit cut them short. */
  function Collect(chain: Chain, changes: Log, length: nat): (seq<Fragment>, bool)
    requires InDatabase(chain, changes)
  {
    if changes == [] then ([], false) else
    var header := chain.canonical[changes[0].1];
    if header.change.None? then ([], false) else
    var fragment := Fragment(header, chain.justifications[changes[0].1]);
    if length + Size(fragment) >= MAX_WARP_SYNC_PROOF_SIZE - 50 then ([], true) else
    var (rest, limited) := Collect(chain, changes[1..], length + Size(fragment));
    ([fragment] + rest, limited)
  }

  /** The justification that ends a finished proof, if it is recent enough. */
  function LatestJustification(chain: Chain, proofs: seq<Fragment>, begin: nat): Option<Justification> {
    var limit := if proofs == [] then begin else proofs[|proofs| - 1].justification.number + 1;
    if chain.best.Some? && chain.best.value.number >= limit then chain.best else None
  }

  function HeaderOf(chain: Chain, j: Justification): SignedHeader
    requires j.number < |chain.canonical|
  {
    chain.canonical[j.number]
  }

  function Generate(chain: Chain, begin: Hash, log: Log): Result<Proof, WarpError>
    requires InDatabase(chain, log) && chain.finalized < |chain.canonical|
    requires chain.best.Some? ==> chain.best.value.number < |chain.canonical|
  {
    if begin !in chain.known then Err(MissingStart)
    else if chain.known[begin] > chain.finalized then Err(StartNotFinalized)
    else if chain.canonical[chain.known[begin]].hash != begin then Err(StartNotCanonical)
    else
      var number := chain.known[begin];
      match ScanFrom(log, number)
      case None => Err(MissingData)
      case Some(changes) => Ok(Assemble(chain, number, changes))
  }

  /** The handoffs, and at the end of a proof that is not cut short the latest justification. */
  function Assemble(chain: Chain, number: nat, changes: Log): Proof
    requires InDatabase(chain, changes)
    requires chain.best.Some? ==> chain.best.value.number < |chain.canonical|
  {
    var (proofs, limited) := Collect(chain, changes, 0);
    if limited then Proof(proofs, false)
    else match LatestJustification(chain, proofs, number)
         case None => Proof(proofs, true)
         case Some(j) => Proof(proofs + [Fragment(HeaderOf(chain, j), j)], true)
  }

  // ---- Verifying ---------------------------------------------------------

  /** Checks the fragments in turn, handing over from set to set. */
  function VerifyFrom(fragments: seq<Fragment>, setId: nat, authorities: AuthorityList): Result<(nat, AuthorityList), WarpError> {
    if fragments == [] then Ok((setId, authorities)) else
    var f := fragments[0];
    if f.justification.setId != setId || f.justification.signers != authorities then Err(BadJustification)
    else if f.justification.hash != f.header.hash then Err(HeaderMismatch)
    else if f.header.change.Some? then VerifyFrom(fragments[1..], setId + 1, f.header.change.value)
    else if |fragments| > 1 then Err(MissingDigest)
    else Ok((setId, authorities))
  }

  /** The authorities in charge when fragment `i` is checked: those the one before it hands over to. */
  function InCharge(fragments: seq<Fragment>, i: nat, authorities: AuthorityList): AuthorityList
    requires i <= |fragments|
  {
    if i == 0 then authorities
    else match fragments[i - 1].header.change
         case Some(next) => next
         case None => []
  }

  /** What is wrong with fragment `i` if all before it hand over. */
  function FaultAt(fragments: seq<Fragment>, i: nat, setId: nat, authorities: AuthorityList): Option<WarpError>
    requires i < |fragments|
  {
    var f := fragments[i];
    if f.justification.setId != setId + i || f.justification.signers != InCharge(fragments, i, authorities) then Some(BadJustification)
    else if f.justification.hash != f.header.hash then Some(HeaderMismatch)
    else if f.header.change.None? && i + 1 < |fragments| then Some(MissingDigest)
    else None
  }

  ghost predicate FirstFault(fragments: seq<Fragment>, setId: nat, authorities: AuthorityList, i: nat) {
    i < |fragments| && FaultAt(fragments, i, setId, authorities).Some? && forall j: nat :: j < i ==> FaultAt(fragments, j, setId, authorities) == None
  }

  /**
   * A list is accepted exactly when no fragment is at fault, and then leads to the set after its
   * last handoff; otherwise the fault of the first one at fault is reported.
   */
  lemma {:induction false} VerifyExact(fragments: seq<Fragment>, setId: nat, authorities: AuthorityList)
    ensures var r := VerifyFrom(fragments, setId, authorities);
            && (r.Ok? <==> forall i: nat :: i < |fragments| ==> FaultAt(fragments, i, setId, authorities) == None)
            && (r.Ok? ==>
                  var n := |fragments|;
                  var handoffs := if n > 0 && fragments[n - 1].header.change.None? then n - 1 else n;
                  r.value == (setId + handoffs, InCharge(fragments, handoffs, authorities)))
            && (forall i: nat :: FirstFault(fragments, setId, authorities, i) ==>
                  r == Err(FaultAt(fragments, i, setId, authorities).value))
    decreases |fragments|
  {
    if fragments != [] {
      var f, rest := fragments[0], fragments[1..];
      if FaultAt(fragments, 0, setId, authorities) == None && f.header.change.Some? {
        var second, next := setId + 1, f.header.change.value;
        VerifyExact(rest, second, next);
        forall i: nat | i < |rest| ensures FaultAt(rest, i, second, next) == FaultAt(fragments, i + 1, setId, authorities) {
          assert rest[i] == fragments[i + 1];
        }
        forall i: nat | FirstFault(fragments, setId, authorities, i)
          ensures i > 0 && FirstFault(rest, second, next, i - 1)
        {
          forall j: nat | j < i - 1 ensures FaultAt(rest, j, second, next) == None {
            assert FaultAt(fragments, j + 1, setId, authorities) == None;
          }
        }
        if i: nat :| i < |fragments| && FaultAt(fragments, i, setId, authorities).Some? {
          assert i > 0 && FaultAt(rest, i - 1, second, next).Some?;
        }
      } else {
        assert FaultAt(fragments, 0, setId, authorities).Some? ==> forall i: nat :: FirstFault(fragments, setId, authorities, i) ==> i == 0;
      }
    }
  }

  /** A request is refused exactly for a start that is unknown, not final or not canonical, and for a log without the first set. */
  lemma GenerateRefuses(chain: Chain, begin: Hash, log: Log)
    requires InDatabase(chain, log) && chain.finalized < |chain.canonical|
    requires chain.best.Some? ==> chain.best.value.number < |chain.canonical|
    ensures var r := Generate(chain, begin, log);
            var known := begin in chain.known;
            var final := known && chain.known[begin] <= chain.finalized;
            var canonical := final && chain.canonical[chain.known[begin]].hash == begin;
            && (r == Err(MissingStart) <==> !known)
            && (r == Err(StartNotFinalized) <==> known && !final)
            && (r == Err(StartNotCanonical) <==> final && !canonical)
            && (r == Err(MissingData) <==> canonical && log != [] && log[0].0 != 0 && chain.known[begin] < log[0].1)
            && (r.Ok? <==> canonical && (log == [] || log[0].0 == 0 || log[0].1 <= chain.known[begin]))
  {
    hide Assemble;
  }

  // ---- An honest chain ---------------------------------------------------

  /** The set that the block at `n` belongs to. */
  function SetOf(log: Log, n: nat): nat {
    EntriesBelow(log, n)
  }

  /** Entry `i` records a standard handoff: its block schedules the next set and is justified by its own. */
  ghost predicate Handoff(chain: Chain, log: Log, sets: seq<AuthorityList>, i: nat)
    requires i < |log| && |sets| == |log| + 1
  {
    var n := log[i].1;
    && n < |chain.canonical| && n in chain.justifications
    && chain.canonical[n].change == Some(sets[i + 1])
    && var j := chain.justifications[n];
    j.number == n && j.hash == chain.canonical[n].hash && j.setId == i && j.signers == sets[i]
  }

  /** Entry `i` records a forced handoff: its block schedules nothing. */
  ghost predicate ForcedHandoff(chain: Chain, log: Log, i: nat)
    requires i < |log|
  {
    log[i].1 < |chain.canonical| && chain.canonical[log[i].1].change == None
  }

  ghost predicate CanonicalKnown(chain: Chain, n: nat)
    requires n < |chain.canonical|
  {
    var h := chain.canonical[n].hash;
    h in chain.known && chain.known[h] == n
  }

  /**
   * `sets[i]` is the authority list of set `i`. Every change takes effect in the block that
   * schedules it, and the best justification is signed by the set its block belongs to.
   */
  ghost predicate Honest(chain: Chain, log: Log, sets: seq<AuthorityList>) {
    && Increasing(log) && Numbered(log, |log|) && |sets| == |log| + 1
    && chain.finalized < |chain.canonical|
    && (forall n: nat :: n <= chain.finalized ==> CanonicalKnown(chain, n))
    && (forall i: nat :: i < |log| ==> log[i].1 <= chain.finalized && (Handoff(chain, log, sets, i) || ForcedHandoff(chain, log, i)))
    && (forall n: nat :: n <= chain.finalized && chain.canonical[n].change.Some? ==> exists i: nat :: i < |log| && log[i].1 == n)
    && (chain.best.Some? ==>
          var j := chain.best.value;
          && j.number <= chain.finalized && j.hash == chain.canonical[j.number].hash
          && j.setId == SetOf(log, j.number) && j.signers == sets[j.setId])
  }

  lemma HonestInDatabase(chain: Chain, log: Log, sets: seq<AuthorityList>, k: nat)
    requires Honest(chain, log, sets) && k <= |log|
    ensures InDatabase(chain, log[k..]) && |sets| == |log| + 1
  {
    forall i | 0 <= i < |log| - k ensures
      && log[k..][i].1 < |chain.canonical|
      && (chain.canonical[log[k..][i].1].change.Some? ==> log[k..][i].1 in chain.justifications)
    {
      assert Handoff(chain, log, sets, k + i) || ForcedHandoff(chain, log, k + i);
    }
  }

  lemma EntryIs(chain: Chain, log: Log, sets: seq<AuthorityList>, i: nat)
    requires Honest(chain, log, sets) && i < |log|
    ensures Handoff(chain, log, sets, i) || ForcedHandoff(chain, log, i)
    ensures log[i].1 < |chain.canonical|
    ensures Handoff(chain, log, sets, i) <==> chain.canonical[log[i].1].change.Some?
    ensures Handoff(chain, log, sets, i) ==> log[i].1 in chain.justifications
  {
  }

  ghost function HandoffFragment(chain: Chain, log: Log, i: nat): Fragment
    requires i < |log| && log[i].1 < |chain.canonical| && log[i].1 in chain.justifications
  {
    Fragment(chain.canonical[log[i].1], chain.justifications[log[i].1])
  }

  /** The fragments of entry `k` and those after it, all of them standard handoffs. */
  ghost predicate Proves(chain: Chain, log: Log, sets: seq<AuthorityList>, k: nat, fragments: seq<Fragment>)
    requires |sets| == |log| + 1
    decreases |fragments|
  {
    && k + |fragments| <= |log|
    && (fragments != [] ==>
          && Handoff(chain, log, sets, k) && fragments[0] == HandoffFragment(chain, log, k)
          && Proves(chain, log, sets, k + 1, fragments[1..]))
  }

  lemma CollectUnfolds(chain: Chain, log: Log, k: nat, length: nat)
    requires k < |log| && InDatabase(chain, log[k..]) && InDatabase(chain, log[k + 1..])
    ensures log[k].1 < |chain.canonical|
    ensures var header := chain.canonical[log[k].1];
            && (header.change.Some? ==> log[k].1 in chain.justifications)
            && Collect(chain, log[k..], length) ==
                 if header.change.None? then ([], false)
                 else
                   var f := Fragment(header, chain.justifications[log[k].1]);
                   if length + Size(f) >= MAX_WARP_SYNC_PROOF_SIZE - 50 then ([], true)
                   else
                     var (rest, limited) := Collect(chain, log[k + 1..], length + Size(f));
                     ([f] + rest, limited)
  {
    assert log[k..][0] == log[k] && log[k..][1..] == log[k + 1..];
  }

  /** Where collecting stops: at the end, at a forced handoff, or at the limit. */
  ghost predicate Stopped(chain: Chain, log: Log, sets: seq<AuthorityList>, reached: nat, limited: bool)
    requires |sets| == |log| + 1
  {
    && (!limited ==> reached == |log| || (reached < |log| && ForcedHandoff(chain, log, reached)))
    && (limited ==> reached < |log| && Handoff(chain, log, sets, reached))
  }

  /** What is collected: handoffs in a row, stopped by the end, by a forced handoff, or by the limit. */
  lemma {:induction false} CollectStep(chain: Chain, log: Log, sets: seq<AuthorityList>, k: nat, length: nat)
    requires Honest(chain, log, sets) && k <= |log|
    ensures InDatabase(chain, log[k..])
    ensures var (fragments, limited) := Collect(chain, log[k..], length);
            && Proves(chain, log, sets, k, fragments)
            && Stopped(chain, log, sets, k + |fragments|, limited)
            && (fragments != [] ==> length + SizeOf(fragments) < MAX_WARP_SYNC_PROOF_SIZE - 50)
            && (limited ==> length + SizeOf(fragments) + Size(HandoffFragment(chain, log, k + |fragments|)) >= MAX_WARP_SYNC_PROOF_SIZE - 50)
    decreases |log| - k
  {
    hide Honest, Handoff, ForcedHandoff, Size;
    HonestInDatabase(chain, log, sets, k);
    if k < |log| {
      hide InDatabase, Collect;
      HonestInDatabase(chain, log, sets, k + 1);
      EntryIs(chain, log, sets, k);
      CollectUnfolds(chain, log, k, length);
      if Handoff(chain, log, sets, k) {
        var fragment := HandoffFragment(chain, log, k);
        if length + Size(fragment) < MAX_WARP_SYNC_PROOF_SIZE - 50 {
          CollectStep(chain, log, sets, k + 1, length + Size(fragment));
          var (rest, limited) := Collect(chain, log[k + 1..], length + Size(fragment));
          var all := [fragment] + rest;
          assert all[1..] == rest && k + 1 + |rest| == k + |all|;
          assert Proves(chain, log, sets, k, all);
        }
      }
    }
  }

  /** Proven handoffs verify, and lead from set `k` to the set after the last of them; so does what follows. */
  lemma {:induction false} VerifyHandoffs(chain: Chain, log: Log, sets: seq<AuthorityList>, k: nat, fragments: seq<Fragment>, last: seq<Fragment>)
    requires |sets| == |log| + 1 && Proves(chain, log, sets, k, fragments)
    ensures VerifyFrom(fragments + last, k, sets[k]) == VerifyFrom(last, k + |fragments|, sets[k + |fragments|])
    decreases |fragments|
  {
    if fragments == [] {
      assert fragments + last == last;
    } else {
      assert (fragments + last)[1..] == fragments[1..] + last;
      VerifyHandoffs(chain, log, sets, k + 1, fragments[1..], last);
    }
  }

  // ---- Round trip --------------------------------------------------------

  /** `begin` is a finalized block of the canonical chain. */
  ghost predicate Finalized(chain: Chain, begin: Hash) {
    && begin in chain.known && chain.known[begin] <= chain.finalized < |chain.canonical|
    && chain.canonical[chain.known[begin]].hash == begin
  }

  /** The first set a prover starting at block `n` has to prove. */
  function StartSet(log: Log, n: nat): nat {
    EntriesBelow(log, n + 1)
  }

  /** A block signed by set `k + p` whose header schedules nothing leaves the verifier in that set. */
  lemma LastFragment(chain: Chain, log: Log, sets: seq<AuthorityList>, reached: nat)
    requires Honest(chain, log, sets) && chain.best.Some? && reached <= |log|
    requires reached == |log| || ForcedHandoff(chain, log, reached)
    ensures var j := chain.best.value;
            var last := [Fragment(HeaderOf(chain, j), j)];
            VerifyFrom(last, reached, sets[reached]) ==
              if SetOf(log, j.number) == reached then Ok((reached, sets[reached])) else Err(BadJustification)
  {
    var j := chain.best.value;
    var last := [Fragment(HeaderOf(chain, j), j)];
    EntriesBelowSplits(log, j.number);
    if SetOf(log, j.number) == reached && HeaderOf(chain, j).change.Some? {
      var i: nat :| i < |log| && log[i].1 == j.number;
      SignalIsLogged(log, j.number, i);
      assert false;
    }
    assert last[1..] == [];
  }

  lemma SignalIsLogged(log: Log, n: nat, i: nat)
    requires Increasing(log) && i < |log| && log[i].1 == n
    ensures SetOf(log, n) == i
  {
    CountIs(log, n, i);
  }

  /**
   * What a generated proof shows. Starting from the set of `begin` it proves standard handoffs in
   * a row; it verifies exactly when the closing justification, if any, is by the set reached; and
   * then the verifier ends in that set. The handoffs stay below the size limit, and an unfinished
   * proof stops before a standard handoff that would exceed it.
   */
  lemma GeneratedProof(chain: Chain, log: Log, sets: seq<AuthorityList>, begin: Hash)
    requires Honest(chain, log, sets) && Finalized(chain, begin)
    ensures InDatabase(chain, log)
    ensures chain.best.Some? ==> chain.best.value.number < |chain.canonical|
    ensures var k := StartSet(log, chain.known[begin]);
            var r := Generate(chain, begin, log);
            var proven := Collect(chain, log[k..], 0).0;
            var latest := LatestJustification(chain, proven, chain.known[begin]);
            var reached := k + |proven|;
            && r.Ok? && Proves(chain, log, sets, k, proven)
            && (!r.value.isFinished ==>
                  && r.value.fragments == proven && reached < |log| && Handoff(chain, log, sets, reached)
                  && VerifyFrom(proven, k, sets[k]) == Ok((reached, sets[reached]))
                  && SizeOf(proven) + Size(HandoffFragment(chain, log, reached)) >= MAX_WARP_SYNC_PROOF_SIZE - 50)
            && (proven != [] ==> SizeOf(proven) < MAX_WARP_SYNC_PROOF_SIZE - 50)
            && (r.value.isFinished ==>
                  && (reached == |log| || ForcedHandoff(chain, log, reached))
                  && VerifyFrom(r.value.fragments, k, sets[k]) ==
                       if latest.None? || SetOf(log, latest.value.number) == reached then Ok((reached, sets[reached]))
                       else Err(BadJustification))
  {
    hide Collect, Handoff, ForcedHandoff, Proves, InDatabase, VerifyFrom, EntriesBelow, Generate, Honest;
    GenerateIs(chain, log, sets, begin);
    var number := chain.known[begin];
    var k := StartSet(log, number);
    CollectStep(chain, log, sets, k, 0);
    var (proven, limited) := Collect(chain, log[k..], 0);
    var reached := k + |proven|;
    ProvesBounds(chain, log, sets, k, proven);
    assert proven + [] == proven;
    VerifyHandoffs(chain, log, sets, k, proven, []);
    VerifyNothing(reached, sets[reached]);
    if !limited {
      var latest := LatestJustification(chain, proven, number);
      if latest.Some? {
        LastFragment(chain, log, sets, reached);
        VerifyHandoffs(chain, log, sets, k, proven, [Fragment(HeaderOf(chain, latest.value), latest.value)]);
      }
    }
  }

  lemma VerifyNothing(setId: nat, authorities: AuthorityList)
    ensures VerifyFrom([], setId, authorities) == Ok((setId, authorities))
  {
  }

  lemma ProvesBounds(chain: Chain, log: Log, sets: seq<AuthorityList>, k: nat, fragments: seq<Fragment>)
    requires |sets| == |log| + 1 && Proves(chain, log, sets, k, fragments)
    ensures k + |fragments| <= |log|
  {
  }

  lemma GenerateIs(chain: Chain, log: Log, sets: seq<AuthorityList>, begin: Hash)
    requires Honest(chain, log, sets) && Finalized(chain, begin)
    ensures InDatabase(chain, log) && |sets| == |log| + 1
    ensures chain.best.Some? ==> chain.best.value.number < |chain.canonical|
    ensures var k := StartSet(log, chain.known[begin]);
            && InDatabase(chain, log[k..])
            && var (proven, limited) := Collect(chain, log[k..], 0);
            var latest := LatestJustification(chain, proven, chain.known[begin]);
            Generate(chain, begin, log) ==
              if limited then Ok(Proof(proven, false))
              else Ok(Proof(proven + if latest.None? then [] else [Fragment(HeaderOf(chain, latest.value), latest.value)], true))
  {
    hide Collect, Handoff, ForcedHandoff;
    HonestInDatabase(chain, log, sets, 0);
    assert log[0..] == log;
    var k := StartSet(log, chain.known[begin]);
    HonestInDatabase(chain, log, sets, k);
    ScanFromIsFilter(log, |log|, chain.known[begin]);
    var proven := Collect(chain, log[k..], 0).0;
    assert proven + [] == proven;
    hide InDatabase;
  }

  ghost predicate AllStandard(chain: Chain, log: Log, sets: seq<AuthorityList>, k: nat)
    requires |sets| == |log| + 1
  {
    forall i: nat :: k <= i < |log| ==> Handoff(chain, log, sets, i)
  }

  /** Nothing is left to prove, and the best justification is that of the last handoff itself. */
  ghost predicate StaleEnd(chain: Chain, log: Log, begin: Hash)
    requires begin in chain.known
  {
    && log != [] && chain.known[begin] == log[|log| - 1].1
    && chain.best.Some? && chain.best.value.number == chain.known[begin]
  }

  /**
   * Without forced handoffs, a finished proof takes the verifier to the current set, with one
   * exception: when `begin` is the last block of the last finished set and the best
   * justification is for that very block, the proof carries a justification by the old set and
   * is refused.
   */
  lemma RoundTrip(chain: Chain, log: Log, sets: seq<AuthorityList>, begin: Hash)
    requires Honest(chain, log, sets) && Finalized(chain, begin)
    requires AllStandard(chain, log, sets, StartSet(log, chain.known[begin]))
    ensures InDatabase(chain, log)
    ensures chain.best.Some? ==> chain.best.value.number < |chain.canonical|
    ensures var r := Generate(chain, begin, log);
            var k := StartSet(log, chain.known[begin]);
            && r.Ok?
            && (r.value.isFinished ==>
                  VerifyFrom(r.value.fragments, k, sets[k]) ==
                    if StaleEnd(chain, log, begin) then Err(BadJustification) else Ok((|log|, sets[|log|])))
            && (StaleEnd(chain, log, begin) ==> r.value.isFinished)
  {
    hide Collect, Generate, VerifyFrom, EntriesBelow;
    GeneratedProof(chain, log, sets, begin);
    var number := chain.known[begin];
    var k := StartSet(log, number);
    var proven := Collect(chain, log[k..], 0).0;
    EntriesBelowSplits(log, number + 1);
    if Generate(chain, begin, log).value.isFinished {
      NothingForced(chain, log, sets, k);
      LatestIsCurrent(chain, log, sets, begin, proven);
    }
  }

  lemma NothingForced(chain: Chain, log: Log, sets: seq<AuthorityList>, k: nat)
    requires |sets| == |log| + 1 && AllStandard(chain, log, sets, k)
    ensures forall i: nat :: k <= i < |log| ==> !ForcedHandoff(chain, log, i)
  {
    forall i: nat | k <= i < |log| ensures !ForcedHandoff(chain, log, i) { assert Handoff(chain, log, sets, i); }
  }

  lemma LatestIsCurrent(chain: Chain, log: Log, sets: seq<AuthorityList>, begin: Hash, proven: seq<Fragment>)
    requires Honest(chain, log, sets) && Finalized(chain, begin)
    requires var k := StartSet(log, chain.known[begin]);
             Proves(chain, log, sets, k, proven) && k + |proven| == |log|
    ensures var latest := LatestJustification(chain, proven, chain.known[begin]);
            latest.Some? ==> (SetOf(log, latest.value.number) == |log| <==> !StaleEnd(chain, log, begin))
    ensures StaleEnd(chain, log, begin) ==> LatestJustification(chain, proven, chain.known[begin]).Some?
  {
    var number := chain.known[begin];
    var k := StartSet(log, number);
    EntriesBelowSplits(log, number + 1);
    if proven != [] { LastProven(chain, log, sets, k, proven); }
    if chain.best.Some? { EntriesBelowSplits(log, chain.best.value.number); }
  }

  lemma {:induction false} LastProven(chain: Chain, log: Log, sets: seq<AuthorityList>, k: nat, proven: seq<Fragment>)
    requires |sets| == |log| + 1 && Proves(chain, log, sets, k, proven) && proven != []
    ensures var i := k + |proven| - 1;
            Handoff(chain, log, sets, i) && proven[|proven| - 1] == HandoffFragment(chain, log, i)
    decreases |proven|
  {
    if |proven| > 1 { LastProven(chain, log, sets, k + 1, proven[1..]); }
  }

  // ---- Resuming ----------------------------------------------------------

  /** Every handoff from set `k` on fits into a proof of its own. */
  ghost predicate FragmentsFit(chain: Chain, log: Log, sets: seq<AuthorityList>, k: nat)
    requires |sets| == |log| + 1
  {
    forall i: nat :: k <= i < |log| && Handoff(chain, log, sets, i) ==>
      Size(HandoffFragment(chain, log, i)) < MAX_WARP_SYNC_PROOF_SIZE - 50
  }

  /** What a resumed request relies on. */
  ghost predicate Resumable(chain: Chain, log: Log, sets: seq<AuthorityList>, begin: Hash) {
    && Honest(chain, log, sets) && Finalized(chain, begin)
    && AllStandard(chain, log, sets, StartSet(log, chain.known[begin]))
    && FragmentsFit(chain, log, sets, StartSet(log, chain.known[begin]))
  }

  /** An unfinished proof leads to a later block, from which the request can be repeated. */
  lemma UnfinishedAdvances(chain: Chain, log: Log, sets: seq<AuthorityList>, begin: Hash)
    requires Resumable(chain, log, sets, begin)
    ensures InDatabase(chain, log)
    ensures chain.best.Some? ==> chain.best.value.number < |chain.canonical|
    ensures var r := Generate(chain, begin, log);
            && r.Ok?
            && (!r.value.isFinished ==>
                  && r.value.fragments != []
                  && var next := r.value.fragments[|r.value.fragments| - 1].header.hash;
                  && Resumable(chain, log, sets, next)
                  && chain.known[next] > chain.known[begin]
                  && VerifyFrom(r.value.fragments, StartSet(log, chain.known[begin]), sets[StartSet(log, chain.known[begin])])
                       == Ok((StartSet(log, chain.known[next]), sets[StartSet(log, chain.known[next])]))
                  && !StaleEnd(chain, log, next))
  {
    hide Collect, Generate, VerifyFrom, EntriesBelow, StartSet, InDatabase, Honest, Handoff, Proves, Size, AllStandard, FragmentsFit;
    HonestInDatabase(chain, log, sets, 0);
    GeneratedProof(chain, log, sets, begin);
    var k := StartSet(log, chain.known[begin]);
    var r := Generate(chain, begin, log);
    if !r.value.isFinished {
      var proven := r.value.fragments;
      SomethingFits(chain, log, sets, k, proven);
      LastProven(chain, log, sets, k, proven);
      var i := k + |proven| - 1;
      NextStart(chain, log, sets, begin, i);
      LaterParts(chain, log, sets, k, i + 1);
    }
  }

  lemma SomethingFits(chain: Chain, log: Log, sets: seq<AuthorityList>, k: nat, proven: seq<Fragment>)
    requires |sets| == |log| + 1 && FragmentsFit(chain, log, sets, k)
    requires k + |proven| < |log| && Handoff(chain, log, sets, k + |proven|)
    requires SizeOf(proven) + Size(HandoffFragment(chain, log, k + |proven|)) >= MAX_WARP_SYNC_PROOF_SIZE - 50
    ensures proven != []
  {
    hide Size;
    var i := k + |proven|;
    assert Handoff(chain, log, sets, i);
  }

  lemma LaterParts(chain: Chain, log: Log, sets: seq<AuthorityList>, k: nat, m: nat)
    requires |sets| == |log| + 1 && k <= m && AllStandard(chain, log, sets, k) && FragmentsFit(chain, log, sets, k)
    ensures AllStandard(chain, log, sets, m) && FragmentsFit(chain, log, sets, m)
  {
    hide Handoff, Size;
  }

  /** The block of a later log entry is a start of its own, in the next set. */
  lemma NextStart(chain: Chain, log: Log, sets: seq<AuthorityList>, begin: Hash, i: nat)
    requires Honest(chain, log, sets) && Finalized(chain, begin) && StartSet(log, chain.known[begin]) <= i < |log|
    ensures log[i].1 < |chain.canonical|
    ensures var next := chain.canonical[log[i].1].hash;
            && Finalized(chain, next) && chain.known[next] == log[i].1 && log[i].1 > chain.known[begin]
            && StartSet(log, log[i].1) == i + 1
            && (i + 1 < |log| ==> log[i].1 < log[|log| - 1].1)
  {
    hide Handoff, ForcedHandoff, EntriesBelow;
    EntriesBelowSplits(log, chain.known[begin] + 1);
    assert CanonicalKnown(chain, log[i].1);
    CountIs(log, log[i].1 + 1, i + 1);
  }

  /** The client: ask, verify, and ask again from the last proven block until a proof is finished. */
  ghost function Sync(chain: Chain, log: Log, sets: seq<AuthorityList>, begin: Hash, setId: nat, authorities: AuthorityList)
    : Result<(nat, AuthorityList), WarpError>
    requires Resumable(chain, log, sets, begin)
    decreases chain.finalized - chain.known[begin]
  {
    UnfinishedAdvances(chain, log, sets, begin);
    var proof := Generate(chain, begin, log).value;
    match VerifyFrom(proof.fragments, setId, authorities)
    case Err(e) => Err(e)
    case Ok((id, list)) =>
      if proof.isFinished then Ok((id, list))
      else Sync(chain, log, sets, proof.fragments[|proof.fragments| - 1].header.hash, id, list)
  }

  /** Repeating the request ends in the current set, from any finalized block, but for the stale end. */
  lemma {:induction false} SyncReachesCurrentSet(chain: Chain, log: Log, sets: seq<AuthorityList>, begin: Hash)
    requires Resumable(chain, log, sets, begin)
    ensures var k := StartSet(log, chain.known[begin]);
            && |sets| == |log| + 1
            && Sync(chain, log, sets, begin, k, sets[k]) ==
                 if StaleEnd(chain, log, begin) then Err(BadJustification) else Ok((|log|, sets[|log|]))
    decreases chain.finalized - chain.known[begin]
  {
    RoundTrip(chain, log, sets, begin);
    UnfinishedAdvances(chain, log, sets, begin);
    var proof := Generate(chain, begin, log).value;
    if !proof.isFinished {
      SyncReachesCurrentSet(chain, log, sets, proof.fragments[|proof.fragments| - 1].header.hash);
    }
    hide Honest, Generate, VerifyFrom, AllStandard, FragmentsFit, EntriesBelow, InDatabase;
  }

  /** The stale end exists: one handoff, justified in block 1, and nothing justified since. */
  lemma StaleEndExists(first: AuthorityList, next: AuthorityList)
    ensures var j := Justification(1, [1], 0, first, 0);
            var chain := Chain(map[[0] := 0, [1] := 1],
                               [SignedHeader([0], 0, None, 0), SignedHeader([1], 1, Some(next), 0)], 1, map[1 := j], Some(j));
            Resumable(chain, [(0, 1)], [first, next], [1]) && StaleEnd(chain, [(0, 1)], [1])
  {
    var j := Justification(1, [1], 0, first, 0);
    var log: Log := [(0, 1)];
    var sets := [first, next];
    var chain := Chain(map[[0] := 0, [1] := 1],
                       [SignedHeader([0], 0, None, 0), SignedHeader([1], 1, Some(next), 0)], 1, map[1 := j], Some(j));
    assert Handoff(chain, log, sets, 0);
    assert log[0].1 == 1;
    CountIs(log, 1, 0);
    CountIs(log, 2, 1);
    assert CanonicalKnown(chain, 0) && CanonicalKnown(chain, 1);
    assert Honest(chain, log, sets);
  }

  // ---- Any list of fragments ---------------------------------------------

  /**
   * Signatures and hashes cannot be forged: a justification that carries a set's number and signers
   * is for a finalized canonical block of that set, and a header with that block's hash is its own.
   */
  ghost predicate Unforged(chain: Chain, log: Log, sets: seq<AuthorityList>, f: Fragment)
    requires Honest(chain, log, sets)
  {
    var j := f.justification;
    j.setId <= |log| && j.signers == sets[j.setId] ==>
      && j.number <= chain.finalized && j.hash == chain.canonical[j.number].hash && SetOf(log, j.number) == j.setId
      && (f.header.hash == j.hash ==> f.header == chain.canonical[j.number])
  }

  /** The headers of standard handoffs `k` up to `m`, one after another, and at most one more. */
  ghost predicate HandsOver(chain: Chain, log: Log, sets: seq<AuthorityList>, k: nat, m: nat, fragments: seq<Fragment>)
    requires |sets| == |log| + 1
  {
    && k <= m <= |log| && m - k <= |fragments| <= m - k + 1
    && (forall i: nat :: k <= i < m ==> Handoff(chain, log, sets, i) && fragments[i - k].header == chain.canonical[log[i].1])
  }

  /** A fragment the verifier accepts in set `k` names the next set only if its block hands over to it. */
  lemma AcceptedFragment(chain: Chain, log: Log, sets: seq<AuthorityList>, k: nat, f: Fragment)
    requires Honest(chain, log, sets) && k <= |log| && Unforged(chain, log, sets, f)
    requires f.justification.setId == k && f.justification.signers == sets[k] && f.justification.hash == f.header.hash
    requires f.header.change.Some?
    ensures k < |log| && Handoff(chain, log, sets, k)
    ensures f.header == chain.canonical[log[k].1] && f.header.change == Some(sets[k + 1])
  {
    var n := f.justification.number;
    var i: nat :| i < |log| && log[i].1 == n;
    SignalIsLogged(log, n, i);
    EntryIs(chain, log, sets, i);
  }

  /**
   * Whoever made it, a list accepted from set `k` ends in a true later set, having shown every
   * handoff in between: the verifier is never led to a wrong set, past a forced handoff, or past
   * the current set.
   */
  lemma {:induction false} AcceptedIsTrue(chain: Chain, log: Log, sets: seq<AuthorityList>, k: nat, fragments: seq<Fragment>)
    requires Honest(chain, log, sets) && k <= |log|
    requires forall i :: 0 <= i < |fragments| ==> Unforged(chain, log, sets, fragments[i])
    ensures var r := VerifyFrom(fragments, k, sets[k]);
            r.Ok? ==> HandsOver(chain, log, sets, k, r.value.0, fragments) && r.value.1 == sets[r.value.0]
    decreases |fragments|
  {
    hide Honest, Handoff, Unforged;
    HonestInDatabase(chain, log, sets, k);
    var r := VerifyFrom(fragments, k, sets[k]);
    if fragments != [] && r.Ok? && fragments[0].header.change.Some? {
      AcceptedFragment(chain, log, sets, k, fragments[0]);
      var rest := fragments[1..];
      assert r == VerifyFrom(rest, k + 1, sets[k + 1]);
      hide VerifyFrom, InDatabase;
      AcceptedIsTrue(chain, log, sets, k + 1, rest);
      var m := r.value.0;
      forall i: nat | k <= i < m ensures Handoff(chain, log, sets, i) && fragments[i - k].header == chain.canonical[log[i].1] {
        if i > k { assert rest[i - (k + 1)] == fragments[i - k]; }
      }
    }
  }

  // ---- The loops ---------------------------------------------------------

  method CollectFragments(chain: Chain, changes: Log) returns (proofs: seq<Fragment>, limited: bool)
    requires InDatabase(chain, changes)
    ensures (proofs, limited) == Collect(chain, changes, 0)
  {
    proofs, limited := [], false;
    var length: nat := 0;
    ghost var goal := Collect(chain, changes, 0);
    assert changes[0..] == changes;
    assert proofs + goal.0 == goal.0;
    for i := 0 to |changes|
      invariant Collect(chain, changes[i..], length).1 == goal.1
      invariant proofs + Collect(chain, changes[i..], length).0 == goal.0
    {
      assert changes[i..][1..] == changes[i + 1..];
      var header := chain.canonical[changes[i].1];
      if header.change.None? {
        assert proofs + [] == proofs;
        return proofs, false;
      }
      var fragment := Fragment(header, chain.justifications[changes[i].1]);
      if length + Size(fragment) >= MAX_WARP_SYNC_PROOF_SIZE - 50 {
        assert proofs + [] == proofs;
        return proofs, true;
      }
      length := length + Size(fragment);
      ghost var rest := Collect(chain, changes[i + 1..], length).0;
      assert proofs + ([fragment] + rest) == proofs + [fragment] + rest;
      proofs := proofs + [fragment];
    }
    assert proofs + [] == proofs;
    return proofs, false;
  }

  /**
   * On an increasing log, the specified proof or error. On any log a start that is not a finalized
   * canonical block gets the same error, and a proof starts where the search for it may stop.
   */
  method GenerateProof(chain: Chain, begin: Hash, log: Log) returns (result: Result<Proof, WarpError>)
    requires InDatabase(chain, log) && chain.finalized < |chain.canonical|
    requires chain.best.Some? ==> chain.best.value.number < |chain.canonical|
    ensures Increasing(log) ==> result == Generate(chain, begin, log)
    ensures !Finalized(chain, begin) ==> result == Generate(chain, begin, log)
    ensures Finalized(chain, begin) && result.Ok? ==>
              exists k: nat :: StopsAt(log, chain.known[begin], k) && result.value == Assemble(chain, chain.known[begin], log[k..])
    ensures Finalized(chain, begin) && result.Err? ==> result.error == MissingData && log != [] && log[0].0 != 0
  {
    if begin !in chain.known {
      return Err(MissingStart);
    }
    var number := chain.known[begin];
    if number > chain.finalized {
      return Err(StartNotFinalized);
    }
    if chain.canonical[number].hash != begin {
      return Err(StartNotCanonical);
    }
    var later := IterFrom(log, number);
    if later.None? {
      return Err(MissingData);
    }
    var proofs, limited := CollectFragments(chain, later.value);
    if limited {
      return Ok(Proof(proofs, false));
    }
    var latest := LatestJustification(chain, proofs, number);
    if latest.Some? {
      proofs := proofs + [Fragment(HeaderOf(chain, latest.value), latest.value)];
    }
    return Ok(Proof(proofs, true));
  }

  method VerifyProof(proof: Proof, setId: nat, authorities: AuthorityList) returns (result: Result<(nat, AuthorityList), WarpError>)
    ensures result == VerifyFrom(proof.fragments, setId, authorities)
  {
    var currentId, current := setId, authorities;
    var fragments := proof.fragments;
    assert fragments[0..] == fragments;
    for i := 0 to |fragments|
      invariant VerifyFrom(fragments[i..], currentId, current) == VerifyFrom(fragments, setId, authorities)
    {
      assert fragments[i..][1..] == fragments[i + 1..];
      var f := fragments[i];
      if f.justification.setId != currentId || f.justification.signers != current {
        return Err(BadJustification);
      }
      if f.justification.hash != f.header.hash {
        return Err(HeaderMismatch);
      }
      if f.header.change.Some? {
        current := f.header.change.value;
        currentId := currentId + 1;
      } else if i != |fragments| - 1 {
        return Err(MissingDigest);
      }
    }
    return Ok((currentId, current));
  }
}
