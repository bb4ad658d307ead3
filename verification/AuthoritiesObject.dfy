/** The authority set as an object, with the scans and searches its methods perform. */
module AuthoritiesObject {
  import opened Common
  import opened BlockTree
  import opened ForkForest
  import opened ForkForestFinality
  import opened AuthorityLog
  import opened Authorities
  import opened AuthoritiesRuns

  /** The client's ancestry query answers for the known blocks. */
  ghost predicate Answers(descends: (Hash, Hash) -> bool, tree: Tree) {
    WellFormed(tree) && forall a, b {:trigger descends(a, b)} :: descends(a, b) == Descends(tree, a, b)
  }

  // ---- The forest --------------------------------------------------------

  function Prefixed(before: seq<Node>, outcome: Outcome): Outcome {
    if outcome.Grown? then Grown(before + outcome.nodes) else outcome
  }

  lemma PrefixedOnce(tree: Tree, nodes: seq<Node>, c: PendingChange, i: nat)
    requires WellFormed(tree) && i < |nodes|
    ensures ImportList(tree, nodes[i..], c) ==
              match ImportInto(tree, nodes[i], c)
              case Duplicated => Duplicated
              case Grown(grown) => Grown(grown + nodes[i + 1..])
              case Absent => Prefixed([nodes[i]], ImportList(tree, nodes[i + 1..], c))
  {
    hide WellFormed, ImportInto;
    assert nodes[i..][0] == nodes[i] && nodes[i..][1..] == nodes[i + 1..];
  }

  /** Offers a change to each node in turn, descending into it. */
  method ImportNodes(nodes: seq<Node>, c: PendingChange, descends: (Hash, Hash) -> bool, ghost tree: Tree)
    returns (outcome: Outcome)
    requires Answers(descends, tree)
    ensures outcome == ImportList(tree, nodes, c)
    decreases nodes, 0
  {
    hide WellFormed, Descends;
    assert nodes[0..] == nodes;
    for i := 0 to |nodes|
      invariant Prefixed(nodes[..i], ImportList(tree, nodes[i..], c)) == ImportList(tree, nodes, c)
    {
      PrefixedOnce(tree, nodes, c, i);
      outcome := ImportNode(nodes[i], c, descends, tree);
      match outcome {
        case Duplicated => return;
        case Grown(grown) =>
          assert nodes[..i] + (grown + nodes[i + 1..]) == nodes[..i] + grown + nodes[i + 1..];
          return Grown(nodes[..i] + grown + nodes[i + 1..]);
        case Absent =>
          ghost var rest := ImportList(tree, nodes[i + 1..], c);
          assert rest.Grown? ==> nodes[..i] + ([nodes[i]] + rest.nodes) == nodes[..i + 1] + rest.nodes;
      }
    }
    return Absent;
  }

  method ImportNode(node: Node, c: PendingChange, descends: (Hash, Hash) -> bool, ghost tree: Tree)
    returns (outcome: Outcome)
    requires Answers(descends, tree)
    ensures outcome == ImportInto(tree, node, c)
    decreases node, 1
  {
    hide WellFormed, Descends;
    if node.change.hash == c.hash {
      return Duplicated;
    }
    if c.height <= node.change.height {
      return Absent;
    }
    var below := ImportNodes(node.children, c, descends, tree);
    match below {
      case Duplicated => return Duplicated;
      case Grown(children) => return Grown([Node(node.change, children)]);
      case Absent =>
        if descends(node.change.hash, c.hash) {
          return Grown([Node(node.change, node.children + [Node(c, [])])]);
        }
        return Absent;
    }
  }

  method FindRoot(roots: seq<Node>, f: Hash, n: nat, descends: (Hash, Hash) -> bool, ghost tree: Tree)
    returns (found: Option<Node>)
    requires Answers(descends, tree)
    ensures found == FirstEffective(tree, roots, f, n)
  {
    hide WellFormed, Descends;
    assert roots[0..] == roots;
    for i := 0 to |roots|
      invariant FirstEffective(tree, roots[i..], f, n) == FirstEffective(tree, roots, f, n)
    {
      assert roots[i..][1..] == roots[i + 1..];
      var root := roots[i].change;
      if Effective(root) <= n && (root.hash == f || descends(root.hash, f)) {
        return Some(roots[i]);
      }
    }
    return None;
  }

  method FindPastChild(children: seq<Node>, f: Hash, n: nat, descends: (Hash, Hash) -> bool, ghost tree: Tree)
    returns (past: bool)
    requires Answers(descends, tree)
    ensures past == PastChild(tree, children, f, n)
  {
    hide WellFormed, Descends;
    assert children[0..] == children;
    for i := 0 to |children|
      invariant PastChild(tree, children[i..], f, n) == PastChild(tree, children, f, n)
    {
      assert children[i..][1..] == children[i + 1..];
      if children[i].change.height <= n && descends(children[i].change.hash, f) {
        return true;
      }
    }
    return false;
  }

  method RetainRoots(roots: seq<Node>, f: Hash, n: nat, descends: (Hash, Hash) -> bool, ghost tree: Tree)
    returns (kept: seq<Node>)
    requires Answers(descends, tree)
    ensures kept == Retain(tree, roots, f, n)
  {
    hide WellFormed, Descends;
    kept := [];
    assert roots[0..] == roots;
    for i := 0 to |roots|
      invariant kept + Retain(tree, roots[i..], f, n) == Retain(tree, roots, f, n)
    {
      assert roots[i..][1..] == roots[i + 1..];
      var root := roots[i].change;
      var stays := (root.height > n && descends(f, root.hash)) || (root.height == n && root.hash == f) || descends(root.hash, f);
      ghost var rest := Retain(tree, roots[i + 1..], f, n);
      assert Retain(tree, roots[i..], f, n) == (if stays then [roots[i]] else []) + rest;
      if stays {
        assert kept + ([roots[i]] + rest) == kept + [roots[i]] + rest;
        kept := kept + [roots[i]];
      } else {
        assert [] + rest == rest;
      }
    }
    assert kept + [] == kept;
  }

  // ---- The set -----------------------------------------------------------

  class SharedAuthorities {
    var current: AuthorityList
    var setId: nat
    var standard: Forest
    var forced: seq<PendingChange>
    var log: Log

    ghost function View(): AuthoritySet
      reads this
    {
      AuthoritySet(current, setId, standard, forced, log)
    }

    constructor (auth: AuthoritySet)
      ensures View() == auth
    {
      current, setId, standard, forced, log := auth.current, auth.setId, auth.standard, auth.forced, auth.log;
    }

    /** The genesis set; refused if the list is empty or has a zero weight. */
    static method NewGenesis(initial: AuthorityList) returns (auth: SharedAuthorities?)
      ensures auth == null <==> !ValidList(initial)
      ensures auth != null ==> fresh(auth) && auth.View() == AuthoritySet(initial, 0, EmptyForest(), [], [])
    {
      var valid := CheckList(initial);
      if !valid {
        return null;
      }
      auth := new SharedAuthorities(AuthoritySet(initial, 0, EmptyForest(), [], []));
    }

    /** Where the key of `c` belongs among the pending forced changes. */
    method Place(c: PendingChange) returns (at: nat)
      requires Sorted(forced)
      ensures Fits(forced, c, at)
    {
      var left, right := 0, |forced|;
      while left < right
        invariant 0 <= left <= right <= |forced|
        invariant forall i :: 0 <= i < left ==> NotAfter(forced[i], c)
        invariant forall i :: right <= i < |forced| ==> NotAfter(c, forced[i])
      {
        var mid := left + (right - left) / 2;
        if Effective(forced[mid]) == Effective(c) && forced[mid].height == c.height {
          return mid;
        } else if NotAfter(forced[mid], c) {
          left := mid + 1;
        } else {
          right := mid;
        }
      }
      return left;
    }

    /** Notes a signalled change; `at` is where a forced one was placed. */
    method AddPendingChange(c: PendingChange, descends: (Hash, Hash) -> bool, ghost tree: Tree)
      returns (error: Option<AuthorityError>, at: nat)
      requires Answers(descends, tree) && Sorted(forced)
      modifies this
      ensures Fits(old(forced), c, at)
      ensures var r := Authorities.AddPendingChange(tree, old(View()), c, at);
              if r.Ok? then error == None && View() == r.value else error == Some(r.error) && View() == old(View())
    {
      hide WellFormed, Descends, Rebalance, NotAfter;
      at := Place(c);
      var valid := CheckList(c.nextAuthorities);
      if !valid {
        return Some(InvalidAuthoritySet), at;
      }
      if c.kind.OnBest? {
        var clash := FindClash(c, descends, tree);
        if clash.Some? {
          return clash, at;
        }
        forced := forced[..at] + [c] + forced[at..];
        return None, at;
      }
      if standard.bestFinalized.Some? && c.height <= standard.bestFinalized.value {
        return Some(ForestFailed(Revert)), at;
      }
      var outcome := ImportNodes(standard.roots, c, descends, tree);
      match outcome {
        case Duplicated => return Some(DuplicateAuthoritySetChange), at;
        case Grown(nodes) => standard := standard.(roots := Rebalance(nodes));
        case Absent => standard := standard.(roots := Rebalance(standard.roots + [Node(c, [])]));
      }
      return None, at;
    }

    static method CheckList(authorities: AuthorityList) returns (valid: bool)
      ensures valid == ValidList(authorities)
    {
      if authorities == [] {
        return false;
      }
      for i := 0 to |authorities|
        invariant forall j :: 0 <= j < i ==> authorities[j].1 > 0
      {
        if authorities[i].1 == 0 {
          return false;
        }
      }
      return true;
    }

    method FindClash(c: PendingChange, descends: (Hash, Hash) -> bool, ghost tree: Tree)
      returns (clash: Option<AuthorityError>)
      requires Answers(descends, tree)
      ensures clash == Clash(tree, forced, c)
    {
      hide WellFormed, Descends;
      assert forced[0..] == forced;
      for i := 0 to |forced|
        invariant Clash(tree, forced[i..], c) == Clash(tree, forced, c)
      {
        assert forced[i..][1..] == forced[i + 1..];
        if forced[i].hash == c.hash {
          return Some(DuplicateAuthoritySetChange);
        }
        if descends(forced[i].hash, c.hash) {
          return Some(MultiplePendingForcedChanges);
        }
      }
      return None;
    }

    /** A best-block trigger: returns the set that a forced change leads to, without changing this one. */
    method ApplyForcedChanges(best: Hash, n: nat, descends: (Hash, Hash) -> bool, ghost tree: Tree)
      returns (result: Result<Option<(nat, AuthoritySet)>, AuthorityError>)
      requires Answers(descends, tree) && forall c :: c in forced ==> c.kind.OnBest?
      ensures result == ApplyForced(tree, View(), best, n)
    {
      hide WellFormed, Descends;
      assert forced[0..] == forced;
      for i := 0 to |forced|
        invariant FindForced(tree, forced[i..], best, n) == FindForced(tree, forced, best, n)
      {
        assert forced[i..][1..] == forced[i + 1..];
        var change := forced[i];
        if Effective(change) > n {
          return Ok(None);
        }
        if Effective(change) == n && (change.hash == best || descends(change.hash, best)) {
          var median := change.kind.medianLastFinalized;
          var number := FindDependency(median, change.hash, descends, tree);
          if number.Some? {
            return Err(DependencyUnsatisfied(number.value));
          }
          return Ok(Some((median, AuthoritySet(change.nextAuthorities, setId + 1, Forest([], None), [], log + [(setId, median)]))));
        }
      }
      return Ok(None);
    }

    method FindDependency(median: nat, h: Hash, descends: (Hash, Hash) -> bool, ghost tree: Tree)
      returns (number: Option<nat>)
      requires Answers(descends, tree)
      ensures number == Dependency(tree, standard.roots, median, h)
    {
      hide WellFormed, Descends;
      var roots := standard.roots;
      assert roots[0..] == roots;
      for i := 0 to |roots|
        invariant Dependency(tree, roots[i..], median, h) == Dependency(tree, roots, median, h)
      {
        assert roots[i..][1..] == roots[i + 1..];
        if Effective(roots[i].change) <= median && descends(roots[i].change.hash, h) {
          return Some(Effective(roots[i].change));
        }
      }
      return None;
    }

    /** A finality trigger. */
    method ApplyStandardChanges(f: Hash, n: nat, descends: (Hash, Hash) -> bool, ghost tree: Tree)
      returns (result: Result<Status, AuthorityError>)
      requires Answers(descends, tree)
      modifies this
      ensures var r := ApplyStandard(tree, old(View()), f, n);
              if r.Ok? then result == Ok(r.value.1) && View() == r.value.0 else result == Err(r.error) && View() == old(View())
    {
      hide WellFormed, Descends, FirstEffective, PastChild, Retain, KeepForced;
      if standard.bestFinalized.Some? && n <= standard.bestFinalized.value {
        return Err(ForestFailed(Revert));
      }
      var found := FindRoot(standard.roots, f, n, descends, tree);
      var roots := standard.roots;
      if found.Some? {
        var past := FindPastChild(found.value.children, f, n, descends, tree);
        if past {
          return Err(ForestFailed(UnfinalizedAncestor));
        }
        roots := found.value.children;
      }
      var kept := RetainRoots(roots, f, n, descends, tree);
      var changed := found.Some? || kept != roots;
      standard := Forest(kept, Some(n));
      if !changed {
        return Ok(Status(false, None));
      }
      forced := RetainForced(f, n, descends, tree);
      if found.None? {
        return Ok(Status(true, None));
      }
      log := log + [(setId, n)];
      current := found.value.change.nextAuthorities;
      setId := setId + 1;
      return Ok(Status(true, Some((f, n))));
    }

    method RetainForced(f: Hash, n: nat, descends: (Hash, Hash) -> bool, ghost tree: Tree) returns (kept: seq<PendingChange>)
      requires Answers(descends, tree)
      ensures kept == KeepForced(tree, forced, f, n)
    {
      hide WellFormed, Descends;
      kept := [];
      assert forced[0..] == forced;
      for i := 0 to |forced|
        invariant kept + KeepForced(tree, forced[i..], f, n) == KeepForced(tree, forced, f, n)
      {
        assert forced[i..][1..] == forced[i + 1..];
        var stays := Effective(forced[i]) > n && descends(f, forced[i].hash);
        ghost var rest := KeepForced(tree, forced[i + 1..], f, n);
        assert KeepForced(tree, forced[i..], f, n) == (if stays then [forced[i]] else []) + rest;
        if stays {
          assert kept + ([forced[i]] + rest) == kept + [forced[i]] + rest;
          kept := kept + [forced[i]];
        } else {
          assert [] + rest == rest;
        }
      }
      assert kept + [] == kept;
    }

    /** Where the next pending change on the branch of `best` was signalled. */
    method NextChange(best: Hash, descends: (Hash, Hash) -> bool, ghost tree: Tree) returns (next: Option<(Hash, nat)>)
      requires Answers(descends, tree)
      ensures next == AuthoritiesRuns.NextChange(tree, View(), best)
    {
      hide WellFormed, Descends;
      var first: Option<PendingChange> := None;
      assert forced[0..] == forced;
      for i := 0 to |forced|
        invariant FirstForcedBelow(tree, forced, best) == FirstForcedBelow(tree, forced[i..], best)
      {
        assert forced[i..][1..] == forced[i + 1..];
        if descends(forced[i].hash, best) {
          first := Some(forced[i]);
          break;
        }
      }
      var root: Option<PendingChange> := None;
      var roots := standard.roots;
      assert roots[0..] == roots;
      for i := 0 to |roots|
        invariant FirstRootBelow(tree, roots, best) == FirstRootBelow(tree, roots[i..], best)
      {
        assert roots[i..][1..] == roots[i + 1..];
        if descends(roots[i].change.hash, best) {
          root := Some(roots[i].change);
          break;
        }
      }
      if first.Some? && (root.None? || first.value.height < root.value.height) {
        return Some((first.value.hash, first.value.height));
      }
      if root.Some? {
        return Some((root.value.hash, root.value.height));
      }
      return None;
    }

    /** The least effective number, not below `min`, among the roots of the pending standard changes. */
    method CurrentLimit(min: nat) returns (limit: Option<nat>)
      ensures limit.None? <==> forall i :: 0 <= i < |standard.roots| ==> Effective(standard.roots[i].change) < min
      ensures limit.Some? ==>
                && limit.value >= min
                && (exists i :: 0 <= i < |standard.roots| && Effective(standard.roots[i].change) == limit.value)
                && (forall i :: 0 <= i < |standard.roots| && Effective(standard.roots[i].change) >= min ==>
                      limit.value <= Effective(standard.roots[i].change))
    {
      limit := None;
      var roots := standard.roots;
      for i := 0 to |roots|
        invariant limit.None? <==> forall j :: 0 <= j < i ==> Effective(roots[j].change) < min
        invariant limit.Some? ==>
                    && limit.value >= min
                    && (exists j :: 0 <= j < i && Effective(roots[j].change) == limit.value)
                    && (forall j :: 0 <= j < i && Effective(roots[j].change) >= min ==> limit.value <= Effective(roots[j].change))
      {
        var number := Effective(roots[i].change);
        if number >= min && (limit.None? || number < limit.value) {
          limit := Some(number);
        }
      }
    }
  }
}
