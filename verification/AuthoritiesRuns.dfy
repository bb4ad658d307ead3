/** What every step of the authority set keeps, over whole runs. */
module AuthoritiesRuns {
  import opened Common
  import opened BlockTree
  import opened ForkForest
  import opened ForkForestFinality
  import opened AuthorityLog
  import opened Authorities

  // ---- Steps -------------------------------------------------------------

  /** Changes of one branch are signalled in order: no pending change of its kind descends from this one. */
  ghost predicate SignalledInOrder(tree: Tree, auth: AuthoritySet, c: PendingChange)
    requires WellFormed(tree)
  {
    match c.kind
    case OnFinality => InOrder(tree, Members(auth.standard.roots), c.hash)
    case OnBest(_) => forall i :: 0 <= i < |auth.forced| ==> !Descends(tree, c.hash, auth.forced[i].hash)
  }

  /** Signalling a change keeps the set good, wherever among equal keys the search places it. */
  lemma AddKeepsGood(tree: Tree, auth: AuthoritySet, c: PendingChange, at: nat)
    requires Good(tree, auth) && Known(tree, {c}) && SignalledInOrder(tree, auth, c)
    requires c.kind.OnBest? ==> Fits(auth.forced, c, at)
    requires at <= |auth.forced|
    ensures AddPendingChange(tree, auth, c, at).Ok? ==> Good(tree, AddPendingChange(tree, auth, c, at).value)
  {
    hide WellFormed, Descends, Ordered, Members, OnePerBranch, Sorted, Known, InOrder, NotAfter, Clash;
    if ValidList(c.nextAuthorities) {
      match c.kind {
        case OnFinality =>
          ImportStep(tree, auth.standard, c);
          KnownParts(tree, Members(auth.standard.roots), {c});
        case OnBest(_) =>
          ClashExact(tree, auth.forced, c);
          if Clash(tree, auth.forced, c) == None {
            AddForcedKeeps(tree, auth.forced, c, at);
            InsertedForced(tree, auth.forced, c, at);
          }
      }
    }
  }

  lemma InsertedForced(tree: Tree, forced: seq<PendingChange>, c: PendingChange, at: nat)
    requires ForcedChanges(tree, forced) && at <= |forced| && Known(tree, {c})
    requires ValidList(c.nextAuthorities) && c.kind.OnBest?
    ensures ForcedChanges(tree, forced[..at] + [c] + forced[at..])
  {
    assert c in {c};
  }

  /** What a finality trigger does to the set, in terms of the pending changes alone. */
  ghost predicate HandedOver(tree: Tree, auth: AuthoritySet, f: Hash, after: AuthoritySet, status: Status)
    requires WellFormed(tree) && f in tree
  {
    var pending := Members(auth.standard.roots);
    var n := tree[f].number;
    if exists c :: Enacts(tree, pending, f, c) then
      exists c :: && Enacts(tree, pending, f, c)
                  && after.current == c.nextAuthorities
                  && after.setId == auth.setId + 1
                  && after.log == auth.log + [(auth.setId, n)]
                  && status == Status(true, Some((f, n)))
    else after.current == auth.current && after.setId == auth.setId && after.log == auth.log && status.newSetBlock == None
  }

  lemma StandardKeepsGood(tree: Tree, auth: AuthoritySet, f: Hash)
    requires Good(tree, auth) && f in tree
    ensures var r := ApplyStandard(tree, auth, f, tree[f].number);
            r.Ok? ==> && Good(tree, r.value.0)
                      && HandedOver(tree, auth, f, r.value.0, r.value.1)
                      && r.value.0.standard.bestFinalized == Some(tree[f].number)
  {
    hide WellFormed, Descends, Ordered, Members, OnePerBranch, Sorted, Known, NotAfter, KeepForced, Kept, SomeBelow, Lowest;
    var n := tree[f].number;
    FinalizeStep(tree, auth.standard, f);
    KeepForcedStep(tree, auth.forced, f, n);
    if Finalize(tree, auth.standard, f, n).Ok? {
      var (after, outcome) := Finalize(tree, auth.standard, f, n).value;
      var enacted := if outcome.Changed? then outcome.enacted else None;
      var before := Members(auth.standard.roots);
      var others := if enacted.Some? then before - {enacted.value} else before;
      KeptInside(tree, others, f, Members(after.roots));
      KnownSubset(tree, before, Members(after.roots));
      if enacted.Some? {
        assert Enacts(tree, before, f, enacted.value);
        LowestIsMember(tree, before, f, enacted.value);
      }
    }
    hide Finalize, Enacts, ForcedChanges;
  }

  lemma ForcedKeepsGood(tree: Tree, auth: AuthoritySet, best: Hash, n: nat)
    requires Good(tree, auth)
    ensures forall c :: c in auth.forced ==> c.kind.OnBest?
    ensures var r := ApplyForced(tree, auth, best, n);
            r.Ok? && r.value.Some? ==> Good(tree, r.value.value.1)
  {
    hide WellFormed, Descends;
    FoundIsMember(tree, auth.forced, best, n);
    assert Ordered(tree, []) && Members([]) == {};
  }

  // ---- Forced changes wait for standard ones -----------------------------

  /** The lowest pending change strictly below a block. */
  ghost predicate LowestBelow(tree: Tree, changes: set<PendingChange>, h: Hash, top: PendingChange)
    requires WellFormed(tree)
  {
    && top in changes && Descends(tree, top.hash, h)
    && (forall c :: c in changes && Descends(tree, c.hash, h) ==> OnBranch(tree, top.hash, c.hash))
  }

  ghost function FirstRootBelow(tree: Tree, roots: seq<Node>, h: Hash): Option<PendingChange>
    requires WellFormed(tree)
  {
    if roots == [] then None
    else if Descends(tree, roots[0].change.hash, h) then Some(roots[0].change)
    else FirstRootBelow(tree, roots[1..], h)
  }

  lemma {:induction false} NoRootBelow(tree: Tree, roots: seq<Node>, median: nat, h: Hash)
    requires WellFormed(tree) && forall c :: c in Members(roots) ==> !Descends(tree, c.hash, h)
    ensures FirstRootBelow(tree, roots, h) == None && Dependency(tree, roots, median, h) == None
  {
    hide WellFormed, Descends;
    if roots != [] {
      assert roots[0].change in Members(roots);
      NoRootBelow(tree, roots[1..], median, h);
    }
  }

  /** Among roots, only the lowest change of a branch is on it; so the first match is the only one. */
  lemma {:induction false} FirstRootBelowExact(tree: Tree, roots: seq<Node>, median: nat, h: Hash)
    requires WellFormed(tree) && Ordered(tree, roots)
    ensures forall c :: FirstRootBelow(tree, roots, h) == Some(c) <==> LowestBelow(tree, Members(roots), h, c)
    ensures FirstRootBelow(tree, roots, h) == None ==> forall c :: c in Members(roots) ==> !Descends(tree, c.hash, h)
    ensures Dependency(tree, roots, median, h) ==
              match FirstRootBelow(tree, roots, h)
              case None => None
              case Some(c) => if Effective(c) <= median then Some(Effective(c)) else None
    decreases roots
  {
    hide WellFormed, Descends, Ordered, Members, AllApart, Below, OnBranch;
    if roots == [] {
      NothingKept(tree, h);
    } else {
      var top, below, rest := roots[0].change, Members(roots[0].children), Members(roots[1..]);
      FirstAndRest(tree, roots);
      if Descends(tree, top.hash, h) {
        RootBelowIsLowest(tree, top, below, rest, h);
        NoRootBelow(tree, roots[1..], median, h);
      } else {
        NotBelow(tree, top, below, h);
        FirstRootBelowExact(tree, roots[1..], median, h);
      }
    }
  }

  lemma RootBelowIsLowest(tree: Tree, top: PendingChange, below: set<PendingChange>, others: set<PendingChange>, h: Hash)
    requires WellFormed(tree) && Below(tree, top, below) && AllApart(tree, {top} + below, others)
    requires Descends(tree, top.hash, h)
    ensures forall c :: LowestBelow(tree, {top} + below + others, h, c) <==> c == top
    ensures forall c :: c in others ==> !Descends(tree, c.hash, h)
  {
    RootIsLowest(tree, top, below, others, h);
    var all := {top} + below + others;
    assert LowestBelow(tree, all, h, top);
    forall c | LowestBelow(tree, all, h, c) ensures c == top {
      assert OnBranch(tree, c.hash, top.hash);
      if c in below { NotBothWays(tree, top.hash, c.hash); }
    }
  }

  lemma NotBelow(tree: Tree, top: PendingChange, below: set<PendingChange>, h: Hash)
    requires WellFormed(tree) && Below(tree, top, below) && !Descends(tree, top.hash, h)
    ensures forall c :: c in {top} + below ==> !Descends(tree, c.hash, h)
  {
    forall c | c in {top} + below ensures !Descends(tree, c.hash, h) {
      if c != top && Descends(tree, c.hash, h) { DescendsTransitive(tree, top.hash, c.hash, h); }
    }
  }

  /**
   * The documented rule: some pending standard change below the forced one takes effect before its
   * median. The documentation says lower than the median; the code, and so this predicate, says at
   * or below it.
   */
  ghost predicate DependsOnStandard(tree: Tree, changes: set<PendingChange>, median: nat, h: Hash)
    requires WellFormed(tree)
  {
    exists c :: c in changes && Descends(tree, c.hash, h) && Effective(c) <= median
  }

  /** Along the branch below `h`, no pending change takes effect before the lowest one. */
  ghost predicate LowestIsEarliest(tree: Tree, changes: set<PendingChange>, h: Hash)
    requires WellFormed(tree)
  {
    forall top, c :: LowestBelow(tree, changes, h, top) && c in changes && Descends(tree, c.hash, h) ==>
      Effective(top) <= Effective(c)
  }

  /**
   * The code looks at the roots only. It refuses a forced change only when the rule does, and it
   * always does exactly when the lowest change of the branch is also the earliest.
   */
  lemma DependencyExact(tree: Tree, roots: seq<Node>, h: Hash)
    requires WellFormed(tree) && Ordered(tree, roots)
    ensures forall median: nat :: Dependency(tree, roots, median, h).Some? ==> DependsOnStandard(tree, Members(roots), median, h)
    ensures LowestIsEarliest(tree, Members(roots), h) <==>
              forall median: nat :: DependsOnStandard(tree, Members(roots), median, h) <==> Dependency(tree, roots, median, h).Some?
  {
    hide WellFormed, Descends, Ordered, Members, Dependency;
    var pending := Members(roots);
    forall median: nat
      ensures Dependency(tree, roots, median, h).Some? ==> DependsOnStandard(tree, pending, median, h)
      ensures LowestIsEarliest(tree, pending, h) && DependsOnStandard(tree, pending, median, h) ==>
                Dependency(tree, roots, median, h).Some?
    {
      FirstRootBelowExact(tree, roots, median, h);
    }
    if !LowestIsEarliest(tree, pending, h) {
      var top, c :| LowestBelow(tree, pending, h, top) && c in pending && Descends(tree, c.hash, h) && Effective(top) > Effective(c);
      FirstRootBelowExact(tree, roots, Effective(c), h);
      assert DependsOnStandard(tree, pending, Effective(c), h);
      assert !Dependency(tree, roots, Effective(c), h).Some?;
    }
  }

  /** The rule in the words of the documentation, with lower for at or below. */
  ghost predicate DependsStrictly(tree: Tree, changes: set<PendingChange>, median: nat, h: Hash)
    requires WellFormed(tree)
  {
    exists c :: c in changes && Descends(tree, c.hash, h) && Effective(c) < median
  }

  /** Along the branch below `h`, no pending change takes effect two or more blocks before the lowest one. */
  ghost predicate LowestIsNearlyEarliest(tree: Tree, changes: set<PendingChange>, h: Hash)
    requires WellFormed(tree)
  {
    forall top, c :: LowestBelow(tree, changes, h, top) && c in changes && Descends(tree, c.hash, h) ==>
      Effective(top) <= Effective(c) + 1
  }

  /**
   * Against the rule in the documentation's own words: a refusal it does not ask for has the lowest
   * change of the branch effective at the median itself; and every refusal it asks for is made, for
   * every median, exactly when no change takes effect two or more blocks before the lowest one.
   */
  lemma DependencyAsWorded(tree: Tree, roots: seq<Node>, h: Hash)
    requires WellFormed(tree) && Ordered(tree, roots)
    ensures forall median: nat :: Dependency(tree, roots, median, h).Some? && !DependsStrictly(tree, Members(roots), median, h) ==>
              exists top :: LowestBelow(tree, Members(roots), h, top) && Effective(top) == median
    ensures LowestIsNearlyEarliest(tree, Members(roots), h) <==>
              forall median: nat :: DependsStrictly(tree, Members(roots), median, h) ==> Dependency(tree, roots, median, h).Some?
  {
    hide WellFormed, Descends, Ordered, Members, Dependency;
    var pending := Members(roots);
    forall median: nat
      ensures Dependency(tree, roots, median, h).Some? && !DependsStrictly(tree, pending, median, h) ==>
                exists top :: LowestBelow(tree, pending, h, top) && Effective(top) == median
      ensures LowestIsNearlyEarliest(tree, pending, h) && DependsStrictly(tree, pending, median, h) ==>
                Dependency(tree, roots, median, h).Some?
    {
      FirstRootBelowExact(tree, roots, median, h);
    }
    if !LowestIsNearlyEarliest(tree, pending, h) {
      var top, c :| LowestBelow(tree, pending, h, top) && c in pending && Descends(tree, c.hash, h) && Effective(top) > Effective(c) + 1;
      FirstRootBelowExact(tree, roots, Effective(c) + 1, h);
      assert DependsStrictly(tree, pending, Effective(c) + 1, h);
      assert !Dependency(tree, roots, Effective(c) + 1, h).Some?;
    }
  }

  /** No pending change is signalled before the one below it has taken effect. */
  ghost predicate NonOverlapping(tree: Tree, changes: set<PendingChange>)
    requires WellFormed(tree)
  {
    forall a, b :: a in changes && b in changes && Descends(tree, a.hash, b.hash) ==> Effective(a) <= b.height
  }

  /** Changes that do not overlap are safe: on every branch the code then keeps the documented rule. */
  lemma NonOverlappingSuffices(tree: Tree, roots: seq<Node>, h: Hash)
    requires WellFormed(tree) && Ordered(tree, roots) && NonOverlapping(tree, Members(roots))
    ensures LowestIsEarliest(tree, Members(roots), h)
    ensures forall median: nat :: DependsOnStandard(tree, Members(roots), median, h) <==> Dependency(tree, roots, median, h).Some?
  {
    hide WellFormed, Descends, Ordered, Members, Dependency, DependsOnStandard;
    var pending := Members(roots);
    FirstRootBelowExact(tree, roots, 0, h);
    forall top, c | LowestBelow(tree, pending, h, top) && c in pending && Descends(tree, c.hash, h)
      ensures Effective(top) <= Effective(c)
    {
      if top.hash == c.hash {
        assert LowestBelow(tree, pending, h, c);
      } else {
        assert OnBranch(tree, top.hash, c.hash);
      }
    }
    DependencyExact(tree, roots, h);
  }

  // ---- The next change ---------------------------------------------------

  ghost function FirstForcedBelow(tree: Tree, forced: seq<PendingChange>, h: Hash): Option<PendingChange>
    requires WellFormed(tree)
  {
    if forced == [] then None
    else if Descends(tree, forced[0].hash, h) then Some(forced[0])
    else FirstForcedBelow(tree, forced[1..], h)
  }

  ghost function NextChange(tree: Tree, auth: AuthoritySet, best: Hash): Option<(Hash, nat)>
    requires WellFormed(tree)
  {
    match (FirstForcedBelow(tree, auth.forced, best), FirstRootBelow(tree, auth.standard.roots, best))
    case (Some(forced), Some(standard)) =>
      if forced.height < standard.height then Some((forced.hash, forced.height)) else Some((standard.hash, standard.height))
    case (Some(forced), None) => Some((forced.hash, forced.height))
    case (None, Some(standard)) => Some((standard.hash, standard.height))
    case (None, None) => None
  }

  /** Pending, of either kind, and signalled below `best`. */
  ghost predicate PendingBelow(tree: Tree, auth: AuthoritySet, best: Hash, c: PendingChange)
    requires WellFormed(tree)
  {
    (c in auth.forced || c in Members(auth.standard.roots)) && Descends(tree, c.hash, best)
  }

  lemma {:induction false} FirstForcedBelowExact(tree: Tree, forced: seq<PendingChange>, h: Hash)
    requires WellFormed(tree) && OnePerBranch(tree, forced)
    ensures forall c :: FirstForcedBelow(tree, forced, h) == Some(c) <==> c in forced && Descends(tree, c.hash, h)
    decreases |forced|
  {
    hide WellFormed, Descends;
    if forced != [] {
      var first, rest := forced[0], forced[1..];
      assert forced == [first] + rest;
      assert forall i :: 0 <= i < |rest| ==> rest[i] == forced[i + 1];
      if Descends(tree, first.hash, h) {
        forall c | c in rest ensures !Descends(tree, c.hash, h) {
          assert Apart(tree, first.hash, c.hash);
          if Descends(tree, c.hash, h) { DescendsLinear(tree, first.hash, c.hash, h); }
        }
      } else {
        FirstForcedBelowExact(tree, rest, h);
      }
    }
  }

  /** The next change is the lowest pending change of either kind on the branch, if there is one. */
  lemma NextChangeExact(tree: Tree, auth: AuthoritySet, best: Hash)
    requires Good(tree, auth)
    ensures NextChange(tree, auth, best) == None <==> forall c :: !PendingBelow(tree, auth, best, c)
    ensures forall next :: NextChange(tree, auth, best) == Some(next) ==>
              && (exists c :: PendingBelow(tree, auth, best, c) && next == (c.hash, c.height))
              && (forall c :: PendingBelow(tree, auth, best, c) ==> next.1 <= c.height)
  {
    FirstForcedBelowExact(tree, auth.forced, best);
    FirstRootBelowExact(tree, auth.standard.roots, 0, best);
    var standard := FirstRootBelow(tree, auth.standard.roots, best);
    if standard.Some? {
      LowestBelowIsLowest(tree, Members(auth.standard.roots), best, standard.value);
      assert PendingBelow(tree, auth, best, standard.value);
    }
    var forced := FirstForcedBelow(tree, auth.forced, best);
    if forced.Some? {
      assert PendingBelow(tree, auth, best, forced.value);
    }
    hide WellFormed, Descends, Ordered, Members, Sorted, OnePerBranch, Numbered, FirstForcedBelow, FirstRootBelow, StandardChanges, ForcedChanges;
  }

  lemma LowestBelowIsLowest(tree: Tree, changes: set<PendingChange>, h: Hash, top: PendingChange)
    requires WellFormed(tree) && LowestBelow(tree, changes, h, top) && Known(tree, changes)
    ensures forall c :: c in changes && Descends(tree, c.hash, h) ==> top.height <= c.height
  {
    forall c | c in changes && Descends(tree, c.hash, h) ensures top.height <= c.height {
      assert OnBranch(tree, top.hash, c.hash);
      if top.hash != c.hash { DescendsIsHigher(tree, top.hash, c.hash); }
    }
  }

  // ---- Runs --------------------------------------------------------------

  datatype Event =
    | Learn(hash: Hash, parent: Hash)
    | Signal(change: PendingChange, at: nat)
    | Finalized(hash: Hash)
    | BestBlock(hash: Hash)

  /** The known blocks and the authority set. */
  datatype World = World(tree: Tree, auth: AuthoritySet)

  ghost predicate Legal(w: World, e: Event)
    requires WellFormed(w.tree)
  {
    match e
    case Learn(h, parent) => h !in w.tree && parent in w.tree
    case Signal(c, at) => Known(w.tree, {c}) && SignalledInOrder(w.tree, w.auth, c) && Fits(w.auth.forced, c, at)
    case Finalized(f) => f in w.tree
    case BestBlock(h) => h in w.tree
  }

  ghost function Step(w: World, e: Event): World
    requires Good(w.tree, w.auth) && Legal(w, e)
  {
    match e
    case Learn(h, parent) => w.(tree := WithBlock(w.tree, h, parent))
    case Signal(c, at) =>
      (match AddPendingChange(w.tree, w.auth, c, at)
       case Ok(after) => w.(auth := after)
       case Err(_) => w)
    case Finalized(f) =>
      (match ApplyStandard(w.tree, w.auth, f, w.tree[f].number)
       case Ok((after, _)) => w.(auth := after)
       case Err(_) => w)
    case BestBlock(h) =>
      ForcedKeepsGood(w.tree, w.auth, h, w.tree[h].number);
      (match ApplyForced(w.tree, w.auth, h, w.tree[h].number)
       case Ok(Some((_, after))) => w.(auth := after)
       case _ => w)
  }

  lemma DescendsInLargerTree(tree: Tree, h: Hash, parent: Hash, a: Hash, b: Hash)
    requires WellFormed(tree) && h !in tree && parent in tree && a in tree && b in tree
    ensures WellFormed(WithBlock(tree, h, parent))
    ensures Descends(WithBlock(tree, h, parent), a, b) <==> Descends(tree, a, b)
  {
    WithBlockChains(tree, h, parent);
  }

  lemma SameRelations(tree: Tree, h: Hash, parent: Hash, changes: set<PendingChange>)
    requires WellFormed(tree) && h !in tree && parent in tree && Known(tree, changes)
    ensures WellFormed(WithBlock(tree, h, parent)) && Known(WithBlock(tree, h, parent), changes)
    ensures forall a, b :: a in changes && b in changes ==>
              (Descends(WithBlock(tree, h, parent), a.hash, b.hash) <==> Descends(tree, a.hash, b.hash))
  {
    ExtendedTree(tree, h, parent);
    forall a, b | a in changes && b in changes
      ensures Descends(WithBlock(tree, h, parent), a.hash, b.hash) <==> Descends(tree, a.hash, b.hash)
    {
      DescendsInLargerTree(tree, h, parent, a.hash, b.hash);
    }
  }

  lemma {:induction false} OrderedInLargerTree(tree: Tree, h: Hash, parent: Hash, nodes: seq<Node>)
    requires WellFormed(tree) && h !in tree && parent in tree && Ordered(tree, nodes) && Known(tree, Members(nodes))
    ensures WellFormed(WithBlock(tree, h, parent)) && Ordered(WithBlock(tree, h, parent), nodes)
    decreases nodes
  {
    ExtendedTree(tree, h, parent);
    if nodes != [] {
      hide WellFormed, Descends, WithBlock;
      SameRelations(tree, h, parent, Members(nodes));
      FirstAndRest(tree, nodes);
      KnownParts(tree, Members([nodes[0]]), Members(nodes[1..]));
      KnownParts(tree, {nodes[0].change}, Members(nodes[0].children));
      OrderedInLargerTree(tree, h, parent, nodes[0].children);
      OrderedInLargerTree(tree, h, parent, nodes[1..]);
      assert nodes[0].change in Members(nodes);
    }
  }

  lemma LearnKeepsGood(w: World, h: Hash, parent: Hash)
    requires Good(w.tree, w.auth) && h !in w.tree && parent in w.tree
    ensures Good(WithBlock(w.tree, h, parent), w.auth)
  {
    var tree, larger := w.tree, WithBlock(w.tree, h, parent);
    OrderedInLargerTree(tree, h, parent, w.auth.standard.roots);
    SameRelations(tree, h, parent, Members(w.auth.standard.roots));
    var forced := w.auth.forced;
    assert ForcedChanges(larger, forced);
    forall i, j | 0 <= i < j < |forced| ensures Apart(larger, forced[i].hash, forced[j].hash) {
      assert Apart(tree, forced[i].hash, forced[j].hash);
      DescendsInLargerTree(tree, h, parent, forced[i].hash, forced[j].hash);
      DescendsInLargerTree(tree, h, parent, forced[j].hash, forced[i].hash);
    }
    hide WellFormed, Descends, Ordered, Members;
  }

  lemma StepKeepsGood(w: World, e: Event)
    requires Good(w.tree, w.auth) && Legal(w, e)
    ensures Good(Step(w, e).tree, Step(w, e).auth)
  {
    match e {
      case Learn(h, parent) => LearnKeepsGood(w, h, parent);
      case Signal(c, at) => AddKeepsGood(w.tree, w.auth, c, at);
      case Finalized(f) => StandardKeepsGood(w.tree, w.auth, f);
      case BestBlock(h) => ForcedKeepsGood(w.tree, w.auth, h, w.tree[h].number);
    }
    hide Good, AddPendingChange, ApplyStandard, ApplyForced;
  }

  ghost predicate LegalRun(w: World, events: seq<Event>)
    requires Good(w.tree, w.auth)
    decreases |events|
  {
    events != [] ==>
      Legal(w, events[0]) && (StepKeepsGood(w, events[0]); LegalRun(Step(w, events[0]), events[1..]))
  }

  ghost function Run(w: World, events: seq<Event>): World
    requires Good(w.tree, w.auth) && LegalRun(w, events)
    decreases |events|
  {
    if events == [] then w else
    StepKeepsGood(w, events[0]);
    Run(Step(w, events[0]), events[1..])
  }

  lemma {:induction false} RunKeepsGood(w: World, events: seq<Event>)
    requires Good(w.tree, w.auth) && LegalRun(w, events)
    ensures Good(Run(w, events).tree, Run(w, events).auth)
    decreases |events|
  {
    if events != [] {
      StepKeepsGood(w, events[0]);
      RunKeepsGood(Step(w, events[0]), events[1..]);
    }
  }

  /**
   * Over every run from a genesis set: current and pending authority lists are never empty and
   * have positive weights, the log lists the set ids from zero up to the current one, pending
   * forced changes are sorted with at most one per branch, and the forest of standard changes
   * mirrors the ancestry of their blocks.
   */
  lemma AuthoritySafety(tree: Tree, initial: AuthorityList, events: seq<Event>)
    requires WellFormed(tree) && ValidList(initial)
    ensures Good(tree, Genesis(initial).value)
    ensures LegalRun(World(tree, Genesis(initial).value), events) ==>
              var w := Run(World(tree, Genesis(initial).value), events);
              && ValidList(w.auth.current)
              && (forall c :: c in w.auth.forced || c in Members(w.auth.standard.roots) ==> ValidList(c.nextAuthorities))
              && Numbered(w.auth.log, w.auth.setId)
              && Good(w.tree, w.auth)
  {
    assert Ordered(tree, []) && Members([]) == {};
    var start := World(tree, Genesis(initial).value);
    assert Good(start.tree, start.auth);
    if LegalRun(start, events) {
      RunKeepsGood(start, events);
    }
    hide WellFormed, Ordered, Members, Run, LegalRun;
  }

  // ---- Overlapping changes -----------------------------------------------

  function Line(): Tree {
    map[[0] := Header([], 0), [1] := Header([0], 1), [2] := Header([1], 2), [3] := Header([2], 3), [4] := Header([3], 4)]
  }

  lemma LineFacts()
    ensures WellFormed(Line())
    ensures Descends(Line(), [1], [2]) && Descends(Line(), [1], [4]) && Descends(Line(), [2], [4]) && !Descends(Line(), [2], [1])
  {
    var tree := Line();
    assert Linked(tree, [0]) && Linked(tree, [1]) && Linked(tree, [2]) && Linked(tree, [3]) && Linked(tree, [4]);
    assert WellFormed(tree);
    assert Parent(tree, [4]) == [3] && Parent(tree, [3]) == [2] && Parent(tree, [2]) == [1];
    assert Ancestor(tree, [2], 1) == Ancestor(tree, [1], 1) == [1];
    assert Ancestor(tree, [3], 1) == Ancestor(tree, [2], 1) && Ancestor(tree, [3], 2) == Ancestor(tree, [2], 2) == [2];
    assert Ancestor(tree, [4], 1) == Ancestor(tree, [3], 1) && Ancestor(tree, [4], 2) == Ancestor(tree, [3], 2);
  }

  /** Three signals along the line: late for block 101, early for block 2, and one forced in block 4 with median 3. */
  function Overlapping(authorities: AuthorityList): seq<Event> {
    [Signal(PendingChange(authorities, 100, 1, [1], OnFinality), 0),
     Signal(PendingChange(authorities, 0, 2, [2], OnFinality), 0),
     Signal(PendingChange(authorities, 0, 4, [4], OnBest(3)), 0)]
  }

  lemma SignalStandard(w: World, c: PendingChange)
    requires Good(w.tree, w.auth) && w.auth.forced == [] && w.auth.standard.bestFinalized == None
    requires Known(w.tree, {c}) && ValidList(c.nextAuthorities) && c.kind.OnFinality?
    requires forall x :: x in Members(w.auth.standard.roots) ==> x.hash != c.hash && !Descends(w.tree, c.hash, x.hash)
    ensures Legal(w, Signal(c, 0))
    ensures var w' := Step(w, Signal(c, 0));
            && Good(w'.tree, w'.auth) && w'.tree == w.tree && w'.auth == w.auth.(standard := w'.auth.standard)
            && w'.auth.standard.bestFinalized == None
            && Members(w'.auth.standard.roots) == Members(w.auth.standard.roots) + {c}
  {
    assert Legal(w, Signal(c, 0));
    StepKeepsGood(w, Signal(c, 0));
    ImportStep(w.tree, w.auth.standard, c);
    hide WellFormed, Descends, Ordered, Members, Import, ValidList, Known;
  }

  /** After the first two signals the early change is pending below block 4, but is not a root. */
  lemma EarlyIsHidden(tree: Tree, roots: seq<Node>, late: PendingChange, early: PendingChange)
    requires WellFormed(tree) && Ordered(tree, roots) && Members(roots) == {late, early}
    requires Descends(tree, late.hash, early.hash) && Descends(tree, late.hash, [4]) && Descends(tree, early.hash, [4])
    requires Effective(early) < 3 < Effective(late)
    ensures DependsStrictly(tree, Members(roots), 3, [4]) && Dependency(tree, roots, 3, [4]) == None
  {
    hide WellFormed, Descends, Ordered, Members, Dependency, Effective;
    assert LowestBelow(tree, Members(roots), [4], late);
    FirstRootBelowExact(tree, roots, 3, [4]);
  }

  /**
   * Overlapping changes can slip past the documented rule. From a genesis set, block 1 signals a
   * change for block 101, block 2 one for block 2, and block 4 forces one with median 3. The
   * forced change is applied although the pending change of block 2 should hold it back.
   */
  lemma DependencyMissed(authorities: AuthorityList)
    requires ValidList(authorities)
    ensures WellFormed(Line()) && Good(Line(), Genesis(authorities).value)
    ensures var start := World(Line(), Genesis(authorities).value);
            && LegalRun(start, Overlapping(authorities))
            && var auth := Run(start, Overlapping(authorities)).auth;
               && DependsStrictly(Line(), Members(auth.standard.roots), 3, [4])
               && !NonOverlapping(Line(), Members(auth.standard.roots))
               && (forall c :: c in auth.forced ==> c.kind.OnBest?)
               && ApplyForced(Line(), auth, [4], 4) == Ok(Some((3, AuthoritySet(authorities, 1, EmptyForest(), [], [(0, 3)]))))
  {
    hide WellFormed, Descends, Ordered, Members, Step, Legal, Good, AddPendingChange, Dependency, ValidList, Known;
    var tree, events := Line(), Overlapping(authorities);
    LineFacts();
    var start := World(tree, Genesis(authorities).value);
    FreshGood(tree, authorities);
    var late, early, forced := events[0].change, events[1].change, events[2].change;
    LineKnown(late);
    LineKnown(early);
    LineKnown(forced);
    SignalStandard(start, late);
    var first := Step(start, events[0]);
    assert late.hash[0] != early.hash[0];
    SignalStandard(first, early);
    var second := Step(first, events[1]);
    assert Members(second.auth.standard.roots) == {late, early};
    SignalForced(second, forced);
    var third := Step(second, events[2]);
    assert events[1..] == [events[1], events[2]] && events[1..][1..] == [events[2]] && [events[2]][1..] == [];
    assert LegalRun(third, []) && LegalRun(second, [events[2]]) && LegalRun(first, events[1..]);
    assert Run(third, []) == third && Run(second, [events[2]]) == third && Run(first, events[1..]) == third;
    GoodIsOrdered(third);
    EarlyIsHidden(tree, third.auth.standard.roots, late, early);
    assert Effective(late) > early.height;
    OneForced(third, forced);
    assert [] + [(0, 3)] == [(0, 3)];
  }

  lemma FreshGood(tree: Tree, initial: AuthorityList)
    requires WellFormed(tree) && ValidList(initial)
    ensures Good(tree, Genesis(initial).value) && Members(Genesis(initial).value.standard.roots) == {}
  {
    assert Ordered(tree, []) && Members([]) == {};
  }

  lemma LineKnown(c: PendingChange)
    requires c.hash == [c.height] && 0 < c.height < 5
    ensures Known(Line(), {c})
  {
  }

  lemma GoodIsOrdered(w: World)
    requires Good(w.tree, w.auth)
    ensures WellFormed(w.tree) && Ordered(w.tree, w.auth.standard.roots)
    ensures forall c :: c in w.auth.forced ==> c.kind.OnBest?
  {
  }

  lemma SignalForced(w: World, c: PendingChange)
    requires Good(w.tree, w.auth) && w.auth.forced == []
    requires Known(w.tree, {c}) && ValidList(c.nextAuthorities) && c.kind.OnBest?
    ensures Legal(w, Signal(c, 0))
    ensures Step(w, Signal(c, 0)) == w.(auth := w.auth.(forced := [c])) && Good(w.tree, w.auth.(forced := [c]))
  {
    assert [][..0] + [c] + [][0..] == [c];
    StepKeepsGood(w, Signal(c, 0));
    hide Good, WellFormed, Descends, Members;
  }

  lemma OneForced(w: World, c: PendingChange)
    requires Good(w.tree, w.auth) && w.auth.forced == [c] && c.kind.OnBest?
    requires Dependency(w.tree, w.auth.standard.roots, c.kind.medianLastFinalized, c.hash) == None
    ensures forall x :: x in w.auth.forced ==> x.kind.OnBest?
    ensures var median := c.kind.medianLastFinalized;
            ApplyForced(w.tree, w.auth, c.hash, Effective(c)) ==
              Ok(Some((median, AuthoritySet(c.nextAuthorities, w.auth.setId + 1, EmptyForest(), [], w.auth.log + [(w.auth.setId, median)]))))
  {
    assert OnBranch(w.tree, c.hash, c.hash);
    hide Good, WellFormed, Descends, Dependency;
  }

  // ---- Order of the log --------------------------------------------------

  /** The log increases and ends at or below the last finalized block the forest has seen. */
  ghost predicate LogInOrder(auth: AuthoritySet) {
    && Increasing(auth.log)
    && (auth.log != [] ==>
          auth.standard.bestFinalized.Some? && auth.log[|auth.log| - 1].1 <= auth.standard.bestFinalized.value)
  }

  lemma SignalKeepsLog(tree: Tree, auth: AuthoritySet, c: PendingChange, at: nat)
    requires WellFormed(tree) && at <= |auth.forced|
    ensures var r := AddPendingChange(tree, auth, c, at);
            r.Ok? ==> r.value.log == auth.log && r.value.standard.bestFinalized == auth.standard.bestFinalized
  {
    hide WellFormed, ImportList, Rebalance, Clash;
  }

  lemma FinalityKeepsLog(tree: Tree, auth: AuthoritySet, f: Hash)
    requires WellFormed(tree) && f in tree && LogInOrder(auth)
    ensures var r := ApplyStandard(tree, auth, f, tree[f].number);
            r.Ok? ==> LogInOrder(r.value.0)
  {
    hide WellFormed, FirstEffective, PastChild, Retain, KeepForced, Increasing;
    AppendIncreasing(auth.log, (auth.setId, tree[f].number));
  }

  /**
   * The event logs block `n` as the last of the current set: a finalized block that enacts a
   * pending change, or a best block that applies a forced one, which logs its median.
   */
  ghost predicate Logs(w: World, e: Event, n: nat)
    requires Good(w.tree, w.auth) && Legal(w, e)
  {
    match e
    case Learn(_, _) => false
    case Signal(_, _) => false
    case Finalized(f) =>
      var pending, last := Members(w.auth.standard.roots), w.auth.standard.bestFinalized;
      && n == w.tree[f].number && (last.Some? ==> last.value < n)
      && exists top :: Enacts(w.tree, pending, f, top) && !SomeBelow(w.tree, pending - {top}, f)
    case BestBlock(h) =>
      exists c :: && c in w.auth.forced && TakesEffect(w.tree, c, h, w.tree[h].number)
                  && c.kind == OnBest(n) && Dependency(w.tree, w.auth.standard.roots, n, c.hash) == None
  }

  ghost predicate AboveLast(log: Log, n: nat) {
    log != [] ==> log[|log| - 1].1 < n
  }

  lemma FinalityLogs(w: World, f: Hash)
    requires Good(w.tree, w.auth) && f in w.tree
    ensures var after := Step(w, Finalized(f)).auth;
            if Logs(w, Finalized(f), w.tree[f].number) then after.log == w.auth.log + [(w.auth.setId, w.tree[f].number)]
            else after.log == w.auth.log
  {
    hide WellFormed, Descends, Ordered, Members, OnePerBranch, Sorted, Known, KeepForced, Kept, Lowest, SomeBelow, Finalize;
    var pending, r := Members(w.auth.standard.roots), Finalize(w.tree, w.auth.standard, f, w.tree[f].number);
    FinalizeStep(w.tree, w.auth.standard, f);
    UniqueEnacted(w, f);
    if r.Ok? {
      var enacted := if r.value.1.Changed? then r.value.1.enacted else None;
      if enacted.Some? {
        assert Enacts(w.tree, pending, f, enacted.value);
        assert !SomeBelow(w.tree, pending - {enacted.value}, f);
      }
    } else if top :| Enacts(w.tree, pending, f, top) && SomeBelow(w.tree, pending - {top}, f) {
      assert !Logs(w, Finalized(f), w.tree[f].number);
    }
  }

  lemma UniqueEnacted(w: World, f: Hash)
    requires Good(w.tree, w.auth) && f in w.tree
    ensures forall a, b :: Enacts(w.tree, Members(w.auth.standard.roots), f, a) && Enacts(w.tree, Members(w.auth.standard.roots), f, b) ==> a == b
  {
    hide WellFormed, Descends, Ordered, Members, FirstEffective;
    var pending, n := Members(w.auth.standard.roots), w.tree[f].number;
    FirstEffectiveStep(w.tree, w.auth.standard.roots, f, n);
    var found := FirstEffective(w.tree, w.auth.standard.roots, f, n);
    forall c | Enacts(w.tree, pending, f, c) ensures found.Some? && c == found.value.change {
      var top := found.value.change;
      assert OnBranch(w.tree, c.hash, top.hash);
      if c in Members(found.value.children) { NotBothWays(w.tree, top.hash, c.hash); }
    }
  }

  lemma ForcedLogs(w: World, h: Hash)
    requires Good(w.tree, w.auth) && h in w.tree
    ensures var after := Step(w, BestBlock(h)).auth;
            && (forall n :: Logs(w, BestBlock(h), n) ==> after.log == w.auth.log + [(w.auth.setId, n)])
            && ((forall n :: !Logs(w, BestBlock(h), n)) ==> after.log == w.auth.log)
  {
    hide WellFormed, Descends, Ordered, Members, Dependency, FindForced;
    ForcedKeepsGood(w.tree, w.auth, h, w.tree[h].number);
    ForcedScanExact(w.tree, w.auth.forced, h, w.tree[h].number);
    var found := FindForced(w.tree, w.auth.forced, h, w.tree[h].number);
    if found.Some? {
      var c := found.value;
      var median := c.kind.medianLastFinalized;
      assert Dependency(w.tree, w.auth.standard.roots, median, c.hash) == None ==> Logs(w, BestBlock(h), median);
    }
  }

  lemma StepLog(w: World, e: Event)
    requires Good(w.tree, w.auth) && Legal(w, e)
    ensures var after := Step(w, e).auth;
            && (forall n :: Logs(w, e, n) ==> after.log == w.auth.log + [(w.auth.setId, n)])
            && ((forall n :: !Logs(w, e, n)) ==> after.log == w.auth.log)
  {
    match e {
      case Learn(_, _) =>
      case Signal(c, at) => SignalKeepsLog(w.tree, w.auth, c, at);
      case Finalized(f) => FinalityLogs(w, f);
      case BestBlock(h) => ForcedLogs(w, h);
    }
    hide Good, AddPendingChange, ApplyStandard, ApplyForced, Enacts, SomeBelow, TakesEffect, Dependency, Members;
  }

  /**
   * An event appends to the log exactly the number it logs, if any, and keeps the log increasing
   * exactly when that number is above the last one.
   */
  lemma StepLogOrder(w: World, e: Event)
    requires Good(w.tree, w.auth) && Legal(w, e)
    ensures var after := Step(w, e).auth;
            && (forall n :: Logs(w, e, n) ==> after.log == w.auth.log + [(w.auth.setId, n)])
            && ((forall n :: !Logs(w, e, n)) ==> after.log == w.auth.log)
            && (Increasing(after.log) <==> Increasing(w.auth.log) && forall n :: Logs(w, e, n) ==> AboveLast(w.auth.log, n))
  {
    hide Good, Step, Legal, Increasing, Logs;
    StepLog(w, e);
    var log := w.auth.log;
    if n :| Logs(w, e, n) {
      AppendIncreasing(log, (w.auth.setId, n));
      forall m | Logs(w, e, m) ensures m == n {
        assert (log + [(w.auth.setId, n)])[|log|].1 == (log + [(w.auth.setId, m)])[|log|].1;
      }
    }
  }

  /** Applying a forced change keeps the log increasing exactly when its median is above the last entry. */
  lemma ForcedLogOrder(tree: Tree, auth: AuthoritySet, best: Hash, n: nat)
    requires Good(tree, auth)
    ensures forall c :: c in auth.forced ==> c.kind.OnBest?
    ensures var r := ApplyForced(tree, auth, best, n);
            r.Ok? && r.value.Some? ==>
              (Increasing(r.value.value.1.log) <==>
                 Increasing(auth.log) && (auth.log != [] ==> auth.log[|auth.log| - 1].1 < r.value.value.0))
  {
    ForcedKeepsGood(tree, auth, best, n);
    var r := ApplyForced(tree, auth, best, n);
    if r.Ok? && r.value.Some? {
      AppendIncreasing(auth.log, (auth.setId, r.value.value.0));
    }
  }

  /** Every number logged along the run is above the one logged before it. */
  ghost predicate LogsAscend(w: World, events: seq<Event>)
    requires Good(w.tree, w.auth) && LegalRun(w, events)
    decreases |events|
  {
    events != [] ==>
      && (forall n :: Logs(w, events[0], n) ==> AboveLast(w.auth.log, n))
      && (StepKeepsGood(w, events[0]); LogsAscend(Step(w, events[0]), events[1..]))
  }

  /** The log increases at the end of a run exactly when it did at the start and every logged number ascends. */
  lemma {:induction false} RunLogOrder(w: World, events: seq<Event>)
    requires Good(w.tree, w.auth) && LegalRun(w, events)
    ensures Increasing(Run(w, events).auth.log) <==> Increasing(w.auth.log) && LogsAscend(w, events)
    decreases |events|
  {
    hide Good, Step, Legal, Increasing, Logs;
    if events != [] {
      StepKeepsGood(w, events[0]);
      StepLogOrder(w, events[0]);
      RunLogOrder(Step(w, events[0]), events[1..]);
    }
  }

  /** No best block of the run applies a forced change. */
  ghost predicate ForcesNothing(w: World, events: seq<Event>)
    requires Good(w.tree, w.auth) && LegalRun(w, events)
    decreases |events|
  {
    events != [] ==>
      && (events[0].BestBlock? ==> forall n :: !Logs(w, events[0], n))
      && (StepKeepsGood(w, events[0]); ForcesNothing(Step(w, events[0]), events[1..]))
  }

  lemma LogStaysInOrder(w: World, e: Event)
    requires Good(w.tree, w.auth) && Legal(w, e) && LogInOrder(w.auth)
    requires e.BestBlock? ==> forall n :: !Logs(w, e, n)
    ensures LogInOrder(Step(w, e).auth)
  {
    match e {
      case Learn(_, _) =>
      case Signal(c, at) => SignalKeepsLog(w.tree, w.auth, c, at);
      case Finalized(f) => FinalityKeepsLog(w.tree, w.auth, f);
      case BestBlock(h) => UnforcedUnchanged(w, h);
    }
    hide WellFormed, ApplyStandard, AddPendingChange, ApplyForced, Increasing, Ordered, Members, StandardChanges, ForcedChanges, Sorted, OnePerBranch, Logs;
  }

  lemma UnforcedUnchanged(w: World, h: Hash)
    requires Good(w.tree, w.auth) && h in w.tree && forall n :: !Logs(w, BestBlock(h), n)
    ensures Step(w, BestBlock(h)) == w
  {
    hide WellFormed, Descends, Ordered, Members, Dependency, FindForced;
    ForcedKeepsGood(w.tree, w.auth, h, w.tree[h].number);
    ForcedScanExact(w.tree, w.auth.forced, h, w.tree[h].number);
    var found := FindForced(w.tree, w.auth.forced, h, w.tree[h].number);
    if found.Some? {
      assert !Logs(w, BestBlock(h), found.value.kind.medianLastFinalized);
    }
  }

  /** Over every run from a genesis set that applies no forced change, the log stays increasing. */
  lemma {:induction false} UnforcedLogOrder(w: World, events: seq<Event>)
    requires Good(w.tree, w.auth) && LegalRun(w, events) && ForcesNothing(w, events) && LogInOrder(w.auth)
    ensures LogInOrder(Run(w, events).auth)
    decreases |events|
  {
    hide Good, Step, Legal, LogInOrder, Logs;
    if events != [] {
      StepKeepsGood(w, events[0]);
      LogStaysInOrder(w, events[0]);
      UnforcedLogOrder(Step(w, events[0]), events[1..]);
    }
  }

  // ---- A log out of order ------------------------------------------------

  /** Blocks 2 and 3 each force a change with median 1, and each becomes best. */
  function ForcedTwice(authorities: AuthorityList): seq<Event> {
    [Signal(PendingChange(authorities, 0, 2, [2], OnBest(1)), 0), BestBlock([2]),
     Signal(PendingChange(authorities, 0, 3, [3], OnBest(1)), 0), BestBlock([3])]
  }

  /** With nothing else pending, a change forced without delay is applied when its block becomes best. */
  lemma ForceAndApply(w: World, c: PendingChange)
    requires Good(w.tree, w.auth) && w.auth.forced == [] && w.auth.standard.roots == []
    requires Known(w.tree, {c}) && c.hash in w.tree && ValidList(c.nextAuthorities) && c.kind.OnBest? && c.delay == 0
    ensures Legal(w, Signal(c, 0))
    ensures var signalled := Step(w, Signal(c, 0));
            && Good(signalled.tree, signalled.auth) && Legal(signalled, BestBlock(c.hash))
            && var after := Step(signalled, BestBlock(c.hash));
               && Good(after.tree, after.auth)
               && after == w.(auth := AuthoritySet(c.nextAuthorities, w.auth.setId + 1, EmptyForest(), [],
                                                   w.auth.log + [(w.auth.setId, c.kind.medianLastFinalized)]))
  {
    SignalForced(w, c);
    var signalled := Step(w, Signal(c, 0));
    OneForced(signalled, c);
    StepKeepsGood(signalled, BestBlock(c.hash));
    assert c in {c};
    hide Good, WellFormed, Descends, ApplyForced, ValidList;
  }

  /** A legal run from a genesis set whose log does not increase: both forced changes log block 1. */
  lemma LogOutOfOrder(authorities: AuthorityList)
    requires ValidList(authorities)
    ensures WellFormed(Line()) && Good(Line(), Genesis(authorities).value)
    ensures var start := World(Line(), Genesis(authorities).value);
            && LegalRun(start, ForcedTwice(authorities))
            && var log := Run(start, ForcedTwice(authorities)).auth.log;
               log == [(0, 1), (1, 1)] && !Increasing(log)
  {
    hide WellFormed, Step, Legal, Good, ValidList, Known;
    var tree, events := Line(), ForcedTwice(authorities);
    LineFacts();
    FreshGood(tree, authorities);
    var start := World(tree, Genesis(authorities).value);
    LineKnown(events[0].change);
    LineKnown(events[2].change);
    ForceAndApply(start, events[0].change);
    var first := Step(start, events[0]);
    var second := Step(first, events[1]);
    ForceAndApply(second, events[2].change);
    var third := Step(second, events[2]);
    var fourth := Step(third, events[3]);
    assert events[1..][1..] == events[2..] && events[2..][1..] == events[3..] && events[3..][1..] == [];
    assert LegalRun(fourth, []) && LegalRun(third, events[3..]) && LegalRun(second, events[2..]) && LegalRun(first, events[1..]);
    assert Run(fourth, []) == fourth && Run(third, events[3..]) == fourth && Run(second, events[2..]) == fourth && Run(first, events[1..]) == fourth;
    var log := fourth.auth.log;
    assert log == [] + [(0, 1)] + [(1, 1)] == [(0, 1), (1, 1)];
    assert log[0].1 == log[1].1;
  }
}
