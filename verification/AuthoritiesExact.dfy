/** Exactly what each operation on the authority set does, and which authorities a run installs. */
module AuthoritiesExact {
  import opened Common
  import opened BlockTree
  import opened ForkForest
  import opened ForkForestFinality
  import opened AuthorityLog
  import opened Authorities
  import opened AuthoritiesRuns

  // ---- Signalling --------------------------------------------------------

  /** A standard change joins the pending ones, unless its block is finalized or has signalled already. */
  lemma AddStandardExact(tree: Tree, auth: AuthoritySet, c: PendingChange, at: nat)
    requires Good(tree, auth) && Known(tree, {c}) && SignalledInOrder(tree, auth, c) && at <= |auth.forced| && c.kind.OnFinality?
    ensures var r := AddPendingChange(tree, auth, c, at);
            var pending, last := Members(auth.standard.roots), auth.standard.bestFinalized;
            var finalized := last.Some? && c.height <= last.value;
            && (r == Err(InvalidAuthoritySet) <==> !ValidList(c.nextAuthorities))
            && (r == Err(ForestFailed(Revert)) <==> ValidList(c.nextAuthorities) && finalized)
            && (r == Err(DuplicateAuthoritySetChange) <==> ValidList(c.nextAuthorities) && !finalized && Signals(pending, c.hash))
            && (r.Ok? <==> ValidList(c.nextAuthorities) && !finalized && !Signals(pending, c.hash))
            && (r.Ok? ==> && Members(r.value.standard.roots) == pending + {c}
                          && r.value.standard.bestFinalized == last
                          && Balanced(r.value.standard.roots)
                          && r.value == auth.(standard := r.value.standard))
  {
    hide WellFormed, Descends, Ordered, Members, Known, InOrder, Signals, Above, ValidList, Import, Balanced;
    ImportStep(tree, auth.standard, c);
  }

  /** A forced change is put at its place among the pending ones, unless one of them is on its branch. */
  lemma AddForcedExact(tree: Tree, auth: AuthoritySet, c: PendingChange, at: nat)
    requires Good(tree, auth) && Known(tree, {c}) && SignalledInOrder(tree, auth, c) && Fits(auth.forced, c, at) && c.kind.OnBest?
    ensures var r := AddPendingChange(tree, auth, c, at);
            var twice := exists x :: x in auth.forced && x.hash == c.hash;
            var below := exists x :: x in auth.forced && Descends(tree, x.hash, c.hash);
            && (r == Err(InvalidAuthoritySet) <==> !ValidList(c.nextAuthorities))
            && (r == Err(DuplicateAuthoritySetChange) <==> ValidList(c.nextAuthorities) && twice)
            && (r == Err(MultiplePendingForcedChanges) <==> ValidList(c.nextAuthorities) && below)
            && (r.Ok? <==> ValidList(c.nextAuthorities) && !twice && !below)
            && (r.Ok? ==> var after := r.value.forced;
                          && |after| == |auth.forced| + 1 && after[at] == c && Sorted(after)
                          && after[..at] + after[at + 1..] == auth.forced
                          && r.value == auth.(forced := after))
  {
    hide WellFormed, Descends, Ordered, Members, Known, ValidList;
    ClashIs(tree, auth.forced, c);
    if AddPendingChange(tree, auth, c, at).Ok? {
      AddKeepsGood(tree, auth, c, at);
    }
  }

  lemma {:induction false} ClashIs(tree: Tree, forced: seq<PendingChange>, c: PendingChange)
    requires WellFormed(tree) && OnePerBranch(tree, forced)
    ensures var clash := Clash(tree, forced, c);
            && (clash == Some(DuplicateAuthoritySetChange) <==> exists x :: x in forced && x.hash == c.hash)
            && (clash == Some(MultiplePendingForcedChanges) <==> exists x :: x in forced && Descends(tree, x.hash, c.hash))
            && (clash.Some? ==> clash.value.DuplicateAuthoritySetChange? || clash.value.MultiplePendingForcedChanges?)
    decreases |forced|
  {
    hide WellFormed, Descends;
    if forced != [] {
      var first, rest := forced[0], forced[1..];
      assert forced == [first] + rest;
      assert forall i :: 0 <= i < |rest| ==> rest[i] == forced[i + 1];
      ClashIs(tree, rest, c);
      forall x | x in rest ensures Apart(tree, first.hash, x.hash) { }
      if first.hash == c.hash || Descends(tree, first.hash, c.hash) {
        forall x | x in rest ensures x.hash != c.hash && !Descends(tree, x.hash, c.hash) {
          assert Apart(tree, first.hash, x.hash);
          if Descends(tree, first.hash, c.hash) && Descends(tree, x.hash, c.hash) {
            DescendsLinear(tree, first.hash, x.hash, c.hash);
          }
        }
        NeverBoth(tree, c.hash);
      }
    }
  }

  lemma NeverBoth(tree: Tree, h: Hash)
    requires WellFormed(tree)
    ensures !Descends(tree, h, h)
  {
  }

  // ---- Forced changes ----------------------------------------------------

  /** The lowest pending standard change of the branch holds the forced change back. */
  ghost predicate HoldsBack(tree: Tree, pending: set<PendingChange>, c: PendingChange, root: PendingChange)
    requires WellFormed(tree) && c.kind.OnBest?
  {
    LowestBelow(tree, pending, c.hash, root) && Effective(root) <= c.kind.medianLastFinalized
  }

  /** What a best block answers when it applies `c`. */
  ghost predicate AppliesForced(auth: AuthoritySet, c: PendingChange, r: Result<Option<(nat, AuthoritySet)>, AuthorityError>)
    requires c.kind.OnBest?
  {
    && r.Ok? && r.value.Some?
    && var (median, after) := r.value.value;
       && median == c.kind.medianLastFinalized
       && after.current == c.nextAuthorities && after.setId == auth.setId + 1
       && after.standard.roots == [] && after.standard.bestFinalized == None && after.forced == []
       && after.log == auth.log + [(auth.setId, median)]
  }

  lemma ForcedOne(tree: Tree, auth: AuthoritySet, best: Hash, n: nat, c: PendingChange)
    requires Good(tree, auth) && c in auth.forced && TakesEffect(tree, c, best, n)
    ensures forall x :: x in auth.forced ==> x.kind.OnBest?
    ensures var r := ApplyForced(tree, auth, best, n);
            && r != Ok(None)
            && (forall root :: HoldsBack(tree, Members(auth.standard.roots), c, root) ==> r == Err(DependencyUnsatisfied(Effective(root))))
            && ((forall root :: !HoldsBack(tree, Members(auth.standard.roots), c, root)) ==> AppliesForced(auth, c, r))
  {
    hide WellFormed, Descends, Ordered, Members, Dependency, FindForced, TakesEffect, HoldsBack;
    ForcedKeepsGood(tree, auth, best, n);
    ForcedScanExact(tree, auth.forced, best, n);
    assert FindForced(tree, auth.forced, best, n) == Some(c);
    HeldBackExactly(tree, auth.standard.roots, c);
  }

  /**
   * A best block applies the forced change that takes effect there on its branch, whatever else is
   * pending: its authorities take over and nothing stays pending. A standard change that holds it
   * back is named by its effective number. Without such a change nothing happens.
   */
  lemma ForcedExact(tree: Tree, auth: AuthoritySet, best: Hash, n: nat)
    requires Good(tree, auth)
    ensures forall c :: c in auth.forced ==> c.kind.OnBest?
    ensures ApplyForced(tree, auth, best, n) == Ok(None) <==> forall c :: c in auth.forced ==> !TakesEffect(tree, c, best, n)
    ensures forall c, root :: c in auth.forced && TakesEffect(tree, c, best, n) && HoldsBack(tree, Members(auth.standard.roots), c, root) ==>
              ApplyForced(tree, auth, best, n) == Err(DependencyUnsatisfied(Effective(root)))
    ensures forall c :: c in auth.forced && TakesEffect(tree, c, best, n)
                        && (forall root :: !HoldsBack(tree, Members(auth.standard.roots), c, root)) ==>
              AppliesForced(auth, c, ApplyForced(tree, auth, best, n))
  {
    hide WellFormed, Descends, Ordered, Members, Dependency, FindForced, TakesEffect, HoldsBack, AppliesForced;
    ForcedKeepsGood(tree, auth, best, n);
    ForcedScanExact(tree, auth.forced, best, n);
    var r := ApplyForced(tree, auth, best, n);
    forall c | c in auth.forced && TakesEffect(tree, c, best, n)
      ensures r != Ok(None)
      ensures forall root :: HoldsBack(tree, Members(auth.standard.roots), c, root) ==> r == Err(DependencyUnsatisfied(Effective(root)))
      ensures (forall root :: !HoldsBack(tree, Members(auth.standard.roots), c, root)) ==> AppliesForced(auth, c, r)
    {
      ForcedOne(tree, auth, best, n, c);
    }
    if forall c :: c in auth.forced ==> !TakesEffect(tree, c, best, n) {
      assert FindForced(tree, auth.forced, best, n) == None;
    }
    hide ApplyForced;
  }

  lemma HeldBackExactly(tree: Tree, roots: seq<Node>, c: PendingChange)
    requires WellFormed(tree) && Ordered(tree, roots) && c.kind.OnBest?
    ensures var number := Dependency(tree, roots, c.kind.medianLastFinalized, c.hash);
            && (forall root :: HoldsBack(tree, Members(roots), c, root) ==> number == Some(Effective(root)))
            && ((forall root :: !HoldsBack(tree, Members(roots), c, root)) ==> number == None)
  {
    hide WellFormed, Descends, Ordered, Members, Dependency, LowestBelow, FirstRootBelow;
    var median := c.kind.medianLastFinalized;
    FirstRootBelowExact(tree, roots, median, c.hash);
    var first := FirstRootBelow(tree, roots, c.hash);
    if first.Some? {
      assert LowestBelow(tree, Members(roots), c.hash, first.value);
      assert Effective(first.value) <= median ==> HoldsBack(tree, Members(roots), c, first.value);
    }
  }

  // ---- Finality ----------------------------------------------------------

  lemma {:induction false} KeepForcedInOrder(tree: Tree, forced: seq<PendingChange>, f: Hash, n: nat)
    requires WellFormed(tree)
    ensures Subsequence(KeepForced(tree, forced, f, n), forced)
    decreases |forced|
  {
    hide WellFormed, Descends;
    if forced != [] {
      KeepForcedInOrder(tree, forced[1..], f, n);
      var rest := KeepForced(tree, forced[1..], f, n);
      assert ([forced[0]] + rest)[1..] == rest;
      assert [] + rest == rest;
    }
  }

  /** The finalized block cannot be noted: not above the last one, or past a second pending change. */
  ghost predicate Refuses(tree: Tree, auth: AuthoritySet, f: Hash)
    requires WellFormed(tree) && f in tree
  {
    var pending, last := Members(auth.standard.roots), auth.standard.bestFinalized;
    || (last.Some? && tree[f].number <= last.value)
    || exists top :: Enacts(tree, pending, f, top) && SomeBelow(tree, pending - {top}, f)
  }

  /**
   * A finality trigger, in full: why it is refused; whom it hands over to; which standard and which
   * forced changes stay pending; and what the caller is told.
   */
  lemma StandardExact(tree: Tree, auth: AuthoritySet, f: Hash)
    requires Good(tree, auth) && f in tree
    ensures var r := ApplyStandard(tree, auth, f, tree[f].number);
            var n, pending, last := tree[f].number, Members(auth.standard.roots), auth.standard.bestFinalized;
            && (r.Err? <==> Refuses(tree, auth, f))
            && (r.Err? ==> r.error == ForestFailed(if last.Some? && n <= last.value then Revert else UnfinalizedAncestor))
            && (r.Ok? ==>
                  var (after, status) := r.value;
                  && HandedOver(tree, auth, f, after, status)
                  && after.standard.bestFinalized == Some(n)
                  && (forall top :: Enacts(tree, pending, f, top) ==>
                        forall c :: c in Members(after.standard.roots) <==> Kept(tree, pending - {top}, f, c))
                  && ((forall top :: !Enacts(tree, pending, f, top)) ==>
                        forall c :: c in Members(after.standard.roots) <==> Kept(tree, pending, f, c))
                  && (status.changed <==> Members(after.standard.roots) != pending)
                  && (!status.changed ==> after.forced == auth.forced)
                  && (status.changed ==>
                        && Subsequence(after.forced, auth.forced)
                        && forall c :: c in after.forced <==> c in auth.forced && Effective(c) > n && Descends(tree, f, c.hash)))
  {
    hide WellFormed, Descends, Ordered, Members, OnePerBranch, Sorted, Known, NotAfter, KeepForced, Kept, SomeBelow, Lowest, Finalize;
    var n, pending := tree[f].number, Members(auth.standard.roots);
    FinalizeStep(tree, auth.standard, f);
    StandardKeepsGood(tree, auth, f);
    KeepForcedStep(tree, auth.forced, f, n);
    KeepForcedInOrder(tree, auth.forced, f, n);
    var r := Finalize(tree, auth.standard, f, n);
    if r.Ok? && r.value.1.Changed? && r.value.1.enacted.Some? {
      EnactedGoes(tree, pending, f, r.value.1.enacted.value, Members(r.value.0.roots));
    }
    hide HandedOver, ForcedChanges, StandardChanges, Subsequence;
  }

  lemma EnactedGoes(tree: Tree, pending: set<PendingChange>, f: Hash, top: PendingChange, after: set<PendingChange>)
    requires WellFormed(tree) && f in tree && Enacts(tree, pending, f, top)
    requires forall c :: c in after <==> Kept(tree, pending - {top}, f, c)
    ensures after != pending
  {
    assert top in pending;
    assert !Kept(tree, pending - {top}, f, top);
  }

  // ---- Which authorities a run installs ----------------------------------

  /**
   * The event installs these authorities: those of the pending change a finalized block enacts, or
   * of the forced change a best block applies.
   */
  ghost predicate Installs(w: World, e: Event, authorities: AuthorityList)
    requires Good(w.tree, w.auth) && Legal(w, e)
  {
    var pending := Members(w.auth.standard.roots);
    match e
    case Learn(_, _) => false
    case Signal(_, _) => false
    case Finalized(f) =>
      !Refuses(w.tree, w.auth, f) && exists top :: Enacts(w.tree, pending, f, top) && authorities == top.nextAuthorities
    case BestBlock(h) =>
      exists c :: && c in w.auth.forced && TakesEffect(w.tree, c, h, w.tree[h].number) && c.kind.OnBest?
                  && (forall root :: !HoldsBack(w.tree, pending, c, root)) && authorities == c.nextAuthorities
  }

  lemma SignalInstallsNothing(tree: Tree, auth: AuthoritySet, c: PendingChange, at: nat)
    requires WellFormed(tree) && at <= |auth.forced|
    ensures var r := AddPendingChange(tree, auth, c, at);
            r.Ok? ==> r.value.current == auth.current && r.value.setId == auth.setId
  {
    hide WellFormed, ImportList, Rebalance, Clash;
  }

  lemma FinalityInstalls(w: World, f: Hash)
    requires Good(w.tree, w.auth) && f in w.tree
    ensures var after := Step(w, Finalized(f)).auth;
            && (forall a :: Installs(w, Finalized(f), a) ==> after.current == a && after.setId == w.auth.setId + 1)
            && ((forall a :: !Installs(w, Finalized(f), a)) ==> after.current == w.auth.current && after.setId == w.auth.setId)
  {
    hide WellFormed, Descends, Ordered, Members, OnePerBranch, Sorted, Known, Kept, ApplyStandard, Refuses, Enacts;
    StandardExact(w.tree, w.auth, f);
    UniqueEnacted(w, f);
    var pending := Members(w.auth.standard.roots);
    if top :| Enacts(w.tree, pending, f, top) {
      assert !Refuses(w.tree, w.auth, f) ==> Installs(w, Finalized(f), top.nextAuthorities);
    }
  }

  lemma BestBlockInstalls(w: World, h: Hash)
    requires Good(w.tree, w.auth) && h in w.tree
    ensures var after := Step(w, BestBlock(h)).auth;
            && (forall a :: Installs(w, BestBlock(h), a) ==> after.current == a && after.setId == w.auth.setId + 1)
            && ((forall a :: !Installs(w, BestBlock(h), a)) ==> after.current == w.auth.current && after.setId == w.auth.setId)
  {
    hide WellFormed, Descends, Ordered, Members, ApplyForced, HoldsBack, TakesEffect;
    var n, pending := w.tree[h].number, Members(w.auth.standard.roots);
    ForcedExact(w.tree, w.auth, h, n);
    if c :| c in w.auth.forced && TakesEffect(w.tree, c, h, n) {
      assert (forall root :: !HoldsBack(w.tree, pending, c, root)) ==> Installs(w, BestBlock(h), c.nextAuthorities);
    }
  }

  /** An event changes the current authorities and the set id exactly when it installs a list, and to that list. */
  lemma StepInstalls(w: World, e: Event)
    requires Good(w.tree, w.auth) && Legal(w, e)
    ensures var after := Step(w, e).auth;
            && (forall a :: Installs(w, e, a) ==> after.current == a && after.setId == w.auth.setId + 1)
            && ((forall a :: !Installs(w, e, a)) ==> after.current == w.auth.current && after.setId == w.auth.setId)
  {
    match e {
      case Learn(_, _) =>
      case Signal(c, at) => SignalInstallsNothing(w.tree, w.auth, c, at);
      case Finalized(f) => FinalityInstalls(w, f);
      case BestBlock(h) => BestBlockInstalls(w, h);
    }
    hide Good, AddPendingChange, ApplyStandard, ApplyForced, Enacts, Refuses, TakesEffect, HoldsBack, Members;
  }

  /** The lists the events of a run install, in order. */
  ghost function Installed(w: World, events: seq<Event>): seq<AuthorityList>
    requires Good(w.tree, w.auth) && LegalRun(w, events)
    decreases |events|
  {
    if events == [] then [] else
    StepKeepsGood(w, events[0]);
    (if exists a :: Installs(w, events[0], a) then var a :| Installs(w, events[0], a); [a] else []) + Installed(Step(w, events[0]), events[1..])
  }

  /** After every run the current authorities are the last ones installed, and the set id counts them. */
  lemma {:induction false} RunInstalls(w: World, events: seq<Event>)
    requires Good(w.tree, w.auth) && LegalRun(w, events)
    ensures var installed := Installed(w, events);
            && Run(w, events).auth.setId == w.auth.setId + |installed|
            && Run(w, events).auth.current == if installed == [] then w.auth.current else installed[|installed| - 1]
    decreases |events|
  {
    hide Good, Step, Legal, Installs;
    if events != [] {
      StepKeepsGood(w, events[0]);
      StepInstalls(w, events[0]);
      RunInstalls(Step(w, events[0]), events[1..]);
    }
  }

  /** The same from a genesis set. */
  lemma GenesisInstalls(tree: Tree, initial: AuthorityList, events: seq<Event>)
    requires WellFormed(tree) && ValidList(initial)
    ensures Good(tree, Genesis(initial).value)
    ensures var start := World(tree, Genesis(initial).value);
            LegalRun(start, events) ==>
              var installed := [initial] + Installed(start, events);
              && Run(start, events).auth.setId == |installed| - 1
              && Run(start, events).auth.current == installed[|installed| - 1]
  {
    FreshGood(tree, initial);
    var start := World(tree, Genesis(initial).value);
    if LegalRun(start, events) {
      RunInstalls(start, events);
    }
    hide Good, Installed, Run, LegalRun;
  }
}
