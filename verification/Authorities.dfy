/** The GRANDPA authority set: pending changes, their application, and the log of past sets. */
module Authorities {
  import opened Common
  import opened BlockTree
  import opened ForkForest
  import opened ForkForestFinality
  import opened AuthorityLog

  datatype AuthoritySet = AuthoritySet(
    current: AuthorityList,
    setId: nat,
    standard: Forest,
    forced: seq<PendingChange>,
    log: Log
  )

  datatype AuthorityError =
    | InvalidAuthoritySet
    | DuplicateAuthoritySetChange
    | MultiplePendingForcedChanges
    | DependencyUnsatisfied(number: nat)
    | ForestFailed(error: ForestError)

  datatype Status = Status(changed: bool, newSetBlock: Option<(Hash, nat)>)

  /** Not empty, and every weight positive. */
  predicate ValidList(authorities: AuthorityList) {
    authorities != [] && forall i :: 0 <= i < |authorities| ==> authorities[i].1 > 0
  }

  function EmptyForest(): Forest {
    Forest([], None)
  }

  function Genesis(initial: AuthorityList): Option<AuthoritySet> {
    if !ValidList(initial) then None else Some(AuthoritySet(initial, 0, EmptyForest(), [], []))
  }

  function FromForest(e: ForestError): AuthorityError {
    if e == Duplicate then DuplicateAuthoritySetChange else ForestFailed(e)
  }

  // ---- Signalling --------------------------------------------------------

  ghost function AddStandard(tree: Tree, auth: AuthoritySet, c: PendingChange): Result<AuthoritySet, AuthorityError>
    requires WellFormed(tree)
  {
    match Import(tree, auth.standard, c)
    case Err(e) => Err(FromForest(e))
    case Ok((forest, _)) => Ok(auth.(standard := forest))
  }

  /** Why a forced change is refused: the first pending one in its way. */
  ghost function Clash(tree: Tree, forced: seq<PendingChange>, c: PendingChange): Option<AuthorityError>
    requires WellFormed(tree)
  {
    if forced == [] then None
    else if forced[0].hash == c.hash then Some(DuplicateAuthoritySetChange)
    else if Descends(tree, forced[0].hash, c.hash) then Some(MultiplePendingForcedChanges)
    else Clash(tree, forced[1..], c)
  }

  /** By effective number, then by height. */
  predicate NotAfter(a: PendingChange, b: PendingChange) {
    Effective(a) < Effective(b) || (Effective(a) == Effective(b) && a.height <= b.height)
  }

  /** A place the binary search may give for the key of `c`. */
  predicate Fits(forced: seq<PendingChange>, c: PendingChange, at: nat) {
    && at <= |forced|
    && (forall i :: 0 <= i < at ==> NotAfter(forced[i], c))
    && (forall i :: at <= i < |forced| ==> NotAfter(c, forced[i]))
  }

  ghost function AddForced(tree: Tree, auth: AuthoritySet, c: PendingChange, at: nat): Result<AuthoritySet, AuthorityError>
    requires WellFormed(tree) && at <= |auth.forced|
  {
    match Clash(tree, auth.forced, c)
    case Some(e) => Err(e)
    case None => Ok(auth.(forced := auth.forced[..at] + [c] + auth.forced[at..]))
  }

  ghost function AddPendingChange(tree: Tree, auth: AuthoritySet, c: PendingChange, at: nat): Result<AuthoritySet, AuthorityError>
    requires WellFormed(tree) && at <= |auth.forced|
  {
    if !ValidList(c.nextAuthorities) then Err(InvalidAuthoritySet)
    else match c.kind
         case OnBest(_) => AddForced(tree, auth, c, at)
         case OnFinality => AddStandard(tree, auth, c)
  }

  // ---- Applying ----------------------------------------------------------

  /** The scan for a forced change: stops beyond `n`, skips other numbers and other branches. */
  ghost function FindForced(tree: Tree, forced: seq<PendingChange>, best: Hash, n: nat): Option<PendingChange>
    requires WellFormed(tree)
  {
    if forced == [] || Effective(forced[0]) > n then None
    else if Effective(forced[0]) == n && OnBranch(tree, forced[0].hash, best) then Some(forced[0])
    else FindForced(tree, forced[1..], best, n)
  }

  /** The first root the forced change has to wait for. */
  ghost function Dependency(tree: Tree, roots: seq<Node>, median: nat, h: Hash): Option<nat>
    requires WellFormed(tree)
  {
    if roots == [] then None
    else if Effective(roots[0].change) <= median && Descends(tree, roots[0].change.hash, h) then Some(Effective(roots[0].change))
    else Dependency(tree, roots[1..], median, h)
  }

  ghost function ApplyForced(tree: Tree, auth: AuthoritySet, best: Hash, n: nat): Result<Option<(nat, AuthoritySet)>, AuthorityError>
    requires WellFormed(tree) && forall c :: c in auth.forced ==> c.kind.OnBest?
  {
    match FindForced(tree, auth.forced, best, n)
    case None => Ok(None)
    case Some(c) =>
      FoundIsMember(tree, auth.forced, best, n);
      var median := c.kind.medianLastFinalized;
      match Dependency(tree, auth.standard.roots, median, c.hash)
      case Some(number) => Err(DependencyUnsatisfied(number))
      case None =>
        Ok(Some((median, AuthoritySet(c.nextAuthorities, auth.setId + 1, EmptyForest(), [],
                                      auth.log + [(auth.setId, median)]))))
  }

  lemma {:induction false} FoundIsMember(tree: Tree, forced: seq<PendingChange>, best: Hash, n: nat)
    requires WellFormed(tree)
    ensures FindForced(tree, forced, best, n).Some? ==> FindForced(tree, forced, best, n).value in forced
  {
    if forced != [] { FoundIsMember(tree, forced[1..], best, n); }
  }

  ghost function KeepForced(tree: Tree, forced: seq<PendingChange>, f: Hash, n: nat): seq<PendingChange>
    requires WellFormed(tree)
  {
    if forced == [] then []
    else (if Effective(forced[0]) > n && Descends(tree, f, forced[0].hash) then [forced[0]] else [])
         + KeepForced(tree, forced[1..], f, n)
  }

  ghost function ApplyStandard(tree: Tree, auth: AuthoritySet, f: Hash, n: nat): Result<(AuthoritySet, Status), AuthorityError>
    requires WellFormed(tree)
  {
    match Finalize(tree, auth.standard, f, n)
    case Err(e) => Err(FromForest(e))
    case Ok((forest, Unchanged)) => Ok((auth.(standard := forest), Status(false, None)))
    case Ok((forest, Changed(enacted))) =>
      var kept := auth.(standard := forest, forced := KeepForced(tree, auth.forced, f, n));
      match enacted
      case None => Ok((kept, Status(true, None)))
      case Some(c) =>
        Ok((kept.(current := c.nextAuthorities, setId := auth.setId + 1, log := auth.log + [(auth.setId, n)]),
            Status(true, Some((f, n)))))
  }

  // ---- Invariant ---------------------------------------------------------

  ghost predicate Sorted(forced: seq<PendingChange>) {
    forall i, j :: 0 <= i < j < |forced| ==> NotAfter(forced[i], forced[j])
  }

  /** At most one pending forced change on any branch. */
  ghost predicate OnePerBranch(tree: Tree, forced: seq<PendingChange>)
    requires WellFormed(tree)
  {
    forall i, j :: 0 <= i < j < |forced| ==> Apart(tree, forced[i].hash, forced[j].hash)
  }

  ghost predicate StandardChanges(tree: Tree, changes: set<PendingChange>) {
    Known(tree, changes) && forall c :: c in changes ==> ValidList(c.nextAuthorities) && c.kind.OnFinality?
  }

  ghost predicate ForcedChanges(tree: Tree, forced: seq<PendingChange>) {
    forall i :: 0 <= i < |forced| ==>
      && ValidList(forced[i].nextAuthorities) && forced[i].kind.OnBest?
      && forced[i].hash in tree && tree[forced[i].hash].number == forced[i].height
  }

  ghost predicate Good(tree: Tree, auth: AuthoritySet) {
    && WellFormed(tree)
    && ValidList(auth.current)
    && Ordered(tree, auth.standard.roots)
    && StandardChanges(tree, Members(auth.standard.roots))
    && ForcedChanges(tree, auth.forced)
    && Sorted(auth.forced)
    && OnePerBranch(tree, auth.forced)
    && Numbered(auth.log, auth.setId)
  }

  // ---- Forced changes ----------------------------------------------------

  ghost predicate TakesEffect(tree: Tree, c: PendingChange, best: Hash, n: nat)
    requires WellFormed(tree)
  {
    Effective(c) == n && OnBranch(tree, c.hash, best)
  }

  /** The early stop and the break lose nothing: the scan is an unordered search, with at most one answer. */
  lemma {:induction false} ForcedScanExact(tree: Tree, forced: seq<PendingChange>, best: Hash, n: nat)
    requires WellFormed(tree) && Sorted(forced) && OnePerBranch(tree, forced)
    ensures forall c :: FindForced(tree, forced, best, n) == Some(c) <==> c in forced && TakesEffect(tree, c, best, n)
    decreases |forced|
  {
    hide WellFormed, Descends;
    if forced != [] {
      var first, rest := forced[0], forced[1..];
      assert forced == [first] + rest;
      assert forall i :: 0 <= i < |rest| ==> rest[i] == forced[i + 1];
      if Effective(first) > n {
        forall c | c in forced ensures !TakesEffect(tree, c, best, n) { assert c == first || NotAfter(first, c); }
      } else if TakesEffect(tree, first, best, n) {
        forall c | c in rest ensures !TakesEffect(tree, c, best, n) {
          assert Apart(tree, first.hash, c.hash);
          if OnBranch(tree, c.hash, best) { BranchLinear(tree, first.hash, c.hash, best); }
        }
      } else {
        ForcedScanExact(tree, rest, best, n);
      }
    }
  }

  /** Why a forced change is refused, when changes of one branch are signalled in order. */
  lemma {:induction false} ClashExact(tree: Tree, forced: seq<PendingChange>, c: PendingChange)
    requires WellFormed(tree) && forall i :: 0 <= i < |forced| ==> !Descends(tree, c.hash, forced[i].hash)
    ensures Clash(tree, forced, c) == None <==> forall i :: 0 <= i < |forced| ==> Apart(tree, forced[i].hash, c.hash)
    decreases |forced|
  {
    hide WellFormed, Descends;
    if forced != [] {
      var rest := forced[1..];
      assert forall i :: 0 <= i < |rest| ==> rest[i] == forced[i + 1];
      assert forall i :: 1 <= i < |forced| ==> forced[i] == rest[i - 1];
      ClashExact(tree, rest, c);
    }
  }

  lemma AddForcedKeeps(tree: Tree, forced: seq<PendingChange>, c: PendingChange, at: nat)
    requires WellFormed(tree) && Sorted(forced) && OnePerBranch(tree, forced) && Fits(forced, c, at)
    requires forall i :: 0 <= i < |forced| ==> Apart(tree, forced[i].hash, c.hash)
    ensures var after := forced[..at] + [c] + forced[at..];
            Sorted(after) && OnePerBranch(tree, after)
  {
    hide WellFormed, Descends;
    var after := forced[..at] + [c] + forced[at..];
    forall i, j | 0 <= i < j < |after| ensures NotAfter(after[i], after[j]) && Apart(tree, after[i].hash, after[j].hash) {
      assert i < at ==> after[i] == forced[i];
      assert i > at ==> after[i] == forced[i - 1];
      assert j < at ==> after[j] == forced[j];
      assert j > at ==> after[j] == forced[j - 1];
      ApartBothWays(tree, forced, c);
    }
  }

  lemma ApartBothWays(tree: Tree, forced: seq<PendingChange>, c: PendingChange)
    requires WellFormed(tree) && forall i :: 0 <= i < |forced| ==> Apart(tree, forced[i].hash, c.hash)
    ensures forall i :: 0 <= i < |forced| ==> Apart(tree, c.hash, forced[i].hash)
  {
  }

  /** Finality keeps exactly the later forced changes of the finalized branch, in their order. */
  lemma {:induction false} KeepForcedStep(tree: Tree, forced: seq<PendingChange>, f: Hash, n: nat)
    requires WellFormed(tree) && ForcedChanges(tree, forced) && Sorted(forced) && OnePerBranch(tree, forced)
    ensures var kept := KeepForced(tree, forced, f, n);
            && ForcedChanges(tree, kept) && Sorted(kept) && OnePerBranch(tree, kept)
            && (forall c :: c in kept <==> c in forced && Effective(c) > n && Descends(tree, f, c.hash))
    decreases |forced|
  {
    hide WellFormed, Descends;
    if forced != [] {
      var first, rest := forced[0], forced[1..];
      assert forced == [first] + rest;
      assert forall i :: 0 <= i < |rest| ==> rest[i] == forced[i + 1];
      KeepForcedStep(tree, rest, f, n);
      if Effective(first) > n && Descends(tree, f, first.hash) {
        PrependForced(tree, forced, KeepForced(tree, rest, f, n));
      }
      hide ForcedChanges, Sorted, OnePerBranch;
    }
  }

  lemma PrependForced(tree: Tree, forced: seq<PendingChange>, kept: seq<PendingChange>)
    requires WellFormed(tree) && forced != [] && ForcedChanges(tree, forced) && Sorted(forced) && OnePerBranch(tree, forced)
    requires ForcedChanges(tree, kept) && Sorted(kept) && OnePerBranch(tree, kept) && forall c :: c in kept ==> c in forced[1..]
    ensures var after := [forced[0]] + kept;
            ForcedChanges(tree, after) && Sorted(after) && OnePerBranch(tree, after)
  {
    hide WellFormed, Apart, NotAfter, ValidList;
    forall i | 0 <= i < |kept| ensures NotAfter(forced[0], kept[i]) && Apart(tree, forced[0].hash, kept[i].hash) {
      assert kept[i] in forced[1..];
    }
  }
}
