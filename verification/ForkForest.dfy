/** The forest of pending authority changes: each change hangs below the changes it descends from. */
module ForkForest {
  import opened Common
  import opened BlockTree

  type AuthorityList = seq<(Bytes, nat)>

  datatype DelayKind = OnFinality | OnBest(medianLastFinalized: nat)

  datatype PendingChange = PendingChange(
    nextAuthorities: AuthorityList,
    delay: nat,
    height: nat,
    hash: Hash,
    kind: DelayKind
  )

  function Effective(c: PendingChange): nat {
    c.height + c.delay
  }

  datatype Node = Node(change: PendingChange, children: seq<Node>)

  datatype Forest = Forest(roots: seq<Node>, bestFinalized: Option<nat>)

  datatype ForestError = Duplicate | UnfinalizedAncestor | Revert

  /** `b` is a proper descendant of `a`. */
  ghost predicate Descends(tree: Tree, a: Hash, b: Hash)
    requires WellFormed(tree)
  {
    a != b && b in tree && OnChain(tree, a, b)
  }

  ghost predicate Apart(tree: Tree, a: Hash, b: Hash)
    requires WellFormed(tree)
  {
    a != b && !Descends(tree, a, b) && !Descends(tree, b, a)
  }

  // ---- Importing ---------------------------------------------------------

  datatype Outcome = Duplicated | Absent | Grown(nodes: seq<Node>)

  ghost function ImportInto(tree: Tree, node: Node, c: PendingChange): Outcome
    requires WellFormed(tree)
    decreases node
  {
    if node.change.hash == c.hash then Duplicated
    else if c.height <= node.change.height then Absent
    else match ImportList(tree, node.children, c)
         case Duplicated => Duplicated
         case Grown(children) => Grown([Node(node.change, children)])
         case Absent =>
           if Descends(tree, node.change.hash, c.hash) then Grown([Node(node.change, node.children + [Node(c, [])])])
           else Absent
  }

  /** Offers the change to each node in turn. */
  ghost function ImportList(tree: Tree, nodes: seq<Node>, c: PendingChange): Outcome
    requires WellFormed(tree)
    decreases nodes
  {
    if nodes == [] then Absent
    else match ImportInto(tree, nodes[0], c)
         case Duplicated => Duplicated
         case Grown(grown) => Grown(grown + nodes[1..])
         case Absent =>
           match ImportList(tree, nodes[1..], c)
           case Duplicated => Duplicated
           case Absent => Absent
           case Grown(rest) => Grown([nodes[0]] + rest)
  }

  function Depth(node: Node): nat
    decreases node
  {
    1 + MaxDepth(node.children)
  }

  function MaxDepth(nodes: seq<Node>): nat
    decreases nodes
  {
    if nodes == [] then 0 else Max(Depth(nodes[0]), MaxDepth(nodes[1..]))
  }

  function InsertByDepth(node: Node, sorted: seq<Node>): seq<Node> {
    if sorted == [] || Depth(node) >= Depth(sorted[0]) then [node] + sorted
    else [sorted[0]] + InsertByDepth(node, sorted[1..])
  }

  /** Deepest branch first; equal depths keep their order. */
  function SortByDepth(nodes: seq<Node>): seq<Node> {
    if nodes == [] then [] else InsertByDepth(nodes[0], SortByDepth(nodes[1..]))
  }

  function Rebalance(nodes: seq<Node>): seq<Node>
    decreases nodes, 1
  {
    SortByDepth(RebalanceEach(nodes))
  }

  function RebalanceEach(nodes: seq<Node>): seq<Node>
    decreases nodes, 0
  {
    if nodes == [] then [] else [Node(nodes[0].change, Rebalance(nodes[0].children))] + RebalanceEach(nodes[1..])
  }

  /** Adds a change; the flag says whether it became a root. */
  ghost function Import(tree: Tree, forest: Forest, c: PendingChange): Result<(Forest, bool), ForestError>
    requires WellFormed(tree)
  {
    if forest.bestFinalized.Some? && c.height <= forest.bestFinalized.value then Err(Revert)
    else match ImportList(tree, forest.roots, c)
         case Duplicated => Err(Duplicate)
         case Grown(nodes) => Ok((forest.(roots := Rebalance(nodes)), false))
         case Absent => Ok((forest.(roots := Rebalance(forest.roots + [Node(c, [])])), true))
  }

  // ---- Structure ---------------------------------------------------------

  ghost function Members(nodes: seq<Node>): set<PendingChange>
    decreases nodes
  {
    if nodes == [] then {} else {nodes[0].change} + Members(nodes[0].children) + Members(nodes[1..])
  }

  /** All below a node descend from it, and separate trees hold unrelated blocks. */
  ghost predicate Ordered(tree: Tree, nodes: seq<Node>)
    requires WellFormed(tree)
    decreases nodes
  {
    nodes == [] ||
    (&& Ordered(tree, nodes[0].children)
     && Ordered(tree, nodes[1..])
     && Below(tree, nodes[0].change, Members(nodes[0].children))
     && AllApart(tree, {nodes[0].change} + Members(nodes[0].children), Members(nodes[1..])))
  }

  ghost predicate Below(tree: Tree, top: PendingChange, changes: set<PendingChange>)
    requires WellFormed(tree)
  {
    forall c :: c in changes ==> Descends(tree, top.hash, c.hash)
  }

  ghost predicate AllApart(tree: Tree, s: set<PendingChange>, t: set<PendingChange>)
    requires WellFormed(tree)
  {
    forall a, b :: a in s && b in t ==> Apart(tree, a.hash, b.hash)
  }

  /** Changes signalled in known blocks, at those blocks' heights. */
  ghost predicate Known(tree: Tree, changes: set<PendingChange>) {
    forall c :: c in changes ==> c.hash in tree && tree[c.hash].number == c.height
  }

  /** No change of the set was signalled in a descendant of `h`. */
  ghost predicate InOrder(tree: Tree, changes: set<PendingChange>, h: Hash)
    requires WellFormed(tree)
  {
    forall c :: c in changes ==> !Descends(tree, h, c.hash)
  }

  lemma {:induction false} MembersConcat(a: seq<Node>, b: seq<Node>)
    ensures Members(a + b) == Members(a) + Members(b)
  {
    if a == [] {
      assert a + b == b;
    } else {
      assert (a + b)[1..] == a[1..] + b;
      MembersConcat(a[1..], b);
    }
  }

  lemma MembersOne(c: PendingChange, children: seq<Node>)
    ensures Members([Node(c, children)]) == {c} + Members(children)
  {
    var one := [Node(c, children)];
    assert one[1..] == [];
    assert Members(one) == {c} + Members(children) + Members([]);
  }

  lemma DescendsTransitive(tree: Tree, a: Hash, b: Hash, c: Hash)
    requires WellFormed(tree) && Descends(tree, a, b) && Descends(tree, b, c)
    ensures Descends(tree, a, c)
  {
    OnChainTransitive(tree, a, b, c);
    if a == c { assert false; }
  }

  /** Two ancestors of one block are related. */
  lemma DescendsLinear(tree: Tree, a: Hash, b: Hash, c: Hash)
    requires WellFormed(tree) && Descends(tree, a, c) && Descends(tree, b, c)
    ensures !Apart(tree, a, b)
  {
    if tree[a].number <= tree[b].number {
      OnChainLinear(tree, a, b, c);
    } else {
      OnChainLinear(tree, b, a, c);
    }
  }

  lemma DescendsIsHigher(tree: Tree, a: Hash, b: Hash)
    requires WellFormed(tree) && Descends(tree, a, b)
    ensures a in tree && b in tree && tree[a].number < tree[b].number
  {
    OnOwnChain(tree, b);
  }

  lemma {:induction false} OrderedConcat(tree: Tree, a: seq<Node>, b: seq<Node>)
    requires WellFormed(tree) && Ordered(tree, a) && Ordered(tree, b) && AllApart(tree, Members(a), Members(b))
    ensures Ordered(tree, a + b)
  {
    hide WellFormed, AllApart, Members, Ordered;
    if a == [] {
      assert a + b == b;
    } else {
      var all, first, rest := a + b, Members([a[0]]), Members(a[1..]);
      assert all[0] == a[0] && all[1..] == a[1..] + b;
      FirstAndRest(tree, a);
      FirstAndRest(tree, all);
      ApartSymmetric(tree, first + rest, Members(b));
      ApartParts(tree, Members(b), first, rest);
      ApartSymmetric(tree, Members(b), first);
      ApartSymmetric(tree, Members(b), rest);
      OrderedConcat(tree, a[1..], b);
      MembersConcat(a[1..], b);
      ApartUnion(tree, first, rest, Members(b));
    }
  }

  lemma OrderedOne(tree: Tree, c: PendingChange, children: seq<Node>)
    requires WellFormed(tree) && Ordered(tree, children) && Below(tree, c, Members(children))
    ensures Ordered(tree, [Node(c, children)])
  {
    var one := [Node(c, children)];
    assert one[1..] == [];
    assert Ordered(tree, one[1..]) && Members(one[1..]) == {};
  }

  /** A new change below `top` is unrelated to whatever `top` is unrelated to. */
  lemma NewIsApart(tree: Tree, top: Hash, c: PendingChange, others: set<PendingChange>)
    requires WellFormed(tree) && Descends(tree, top, c.hash) && InOrder(tree, others, c.hash)
    requires forall b :: b in others ==> Apart(tree, top, b.hash)
    ensures AllApart(tree, {c}, others)
  {
    forall b | b in others ensures Apart(tree, c.hash, b.hash) {
      if Descends(tree, b.hash, c.hash) { DescendsLinear(tree, top, b.hash, c.hash); }
    }
  }

  ghost predicate Signals(changes: set<PendingChange>, h: Hash) {
    exists c :: c in changes && c.hash == h
  }

  /** Some change of the set was signalled in an ancestor of `h`. */
  ghost predicate Above(tree: Tree, changes: set<PendingChange>, h: Hash)
    requires WellFormed(tree)
  {
    exists c :: c in changes && Descends(tree, c.hash, h)
  }

  /** What offering a change to a list of nodes means, when changes of one branch come in order. */
  ghost predicate ImportedRight(tree: Tree, nodes: seq<Node>, c: PendingChange, outcome: Outcome)
    requires WellFormed(tree)
  {
    && (outcome.Duplicated? <==> Signals(Members(nodes), c.hash))
    && (outcome.Absent? <==> !Signals(Members(nodes), c.hash) && !Above(tree, Members(nodes), c.hash))
    && (outcome.Grown? ==> Ordered(tree, outcome.nodes) && Members(outcome.nodes) == Members(nodes) + {c})
  }

  lemma {:induction false} ImportIntoStep(tree: Tree, node: Node, c: PendingChange)
    requires WellFormed(tree) && Ordered(tree, [node]) && Known(tree, Members([node])) && Known(tree, {c})
    requires InOrder(tree, Members([node]), c.hash)
    ensures ImportedRight(tree, [node], c, ImportInto(tree, node, c))
    decreases node, 1
  {
    hide Descends, AllApart, WellFormed, Members, Ordered, Known, InOrder, Below, Signals, Above, ImportList;
    var top, children := node.change, node.children;
    FirstAndRest(tree, [node]);
    KnownParts(tree, {top}, Members(children));
    InOrderParts(tree, {top}, Members(children), c.hash);
    ImportListStep(tree, children, c);
    InSubtree(tree, top, Members(children), c);
    OneMore(tree, top, Members(children), c.hash);
    if top.hash != c.hash && c.height > top.height {
      match ImportList(tree, children, c) {
        case Duplicated =>
        case Grown(grown) =>
          BelowMore(tree, top, Members(children), c);
          OrderedOne(tree, top, grown);
          MembersOne(top, grown);
        case Absent =>
          if Descends(tree, top.hash, c.hash) {
            AddLeaf(tree, children, c);
            BelowMore(tree, top, Members(children), c);
            OrderedOne(tree, top, children + [Node(c, [])]);
            MembersOne(top, children + [Node(c, [])]);
          }
      }
    }
  }

  lemma OneMore(tree: Tree, top: PendingChange, changes: set<PendingChange>, h: Hash)
    requires WellFormed(tree)
    ensures Signals({top} + changes, h) <==> top.hash == h || Signals(changes, h)
    ensures Above(tree, {top} + changes, h) <==> Descends(tree, top.hash, h) || Above(tree, changes, h)
  {
    assert top in {top} + changes;
  }

  lemma BelowMore(tree: Tree, top: PendingChange, changes: set<PendingChange>, c: PendingChange)
    requires WellFormed(tree) && Below(tree, top, changes) && Descends(tree, top.hash, c.hash)
    ensures Below(tree, top, changes + {c})
  {
  }

  /** A change unrelated to all others starts a tree of its own. */
  lemma AddLeaf(tree: Tree, nodes: seq<Node>, c: PendingChange)
    requires WellFormed(tree) && Ordered(tree, nodes) && InOrder(tree, Members(nodes), c.hash)
    requires !Signals(Members(nodes), c.hash) && !Above(tree, Members(nodes), c.hash)
    ensures Ordered(tree, nodes + [Node(c, [])]) && Members(nodes + [Node(c, [])]) == Members(nodes) + {c}
  {
    MembersOne(c, []);
    OrderedOne(tree, c, []);
    LeafApart(tree, Members(nodes), c);
    hide AllApart, Descends, WellFormed, Signals, Above, InOrder;
    OrderedConcat(tree, nodes, [Node(c, [])]);
    MembersConcat(nodes, [Node(c, [])]);
  }

  lemma LeafApart(tree: Tree, changes: set<PendingChange>, c: PendingChange)
    requires WellFormed(tree) && InOrder(tree, changes, c.hash) && !Signals(changes, c.hash) && !Above(tree, changes, c.hash)
    ensures AllApart(tree, changes, {c})
  {
  }

  /** A change related to something below `top` is itself below `top`, at a greater height. */
  lemma InSubtree(tree: Tree, top: PendingChange, below: set<PendingChange>, c: PendingChange)
    requires WellFormed(tree) && Below(tree, top, below) && Known(tree, {top}) && Known(tree, {c}) && Known(tree, below)
    ensures Signals(below, c.hash) || Above(tree, below, c.hash) ==> Descends(tree, top.hash, c.hash)
    ensures Descends(tree, top.hash, c.hash) ==> c.height > top.height && c.hash != top.hash
  {
    assert c in {c} && top in {top};
    if Above(tree, below, c.hash) {
      var b :| b in below && Descends(tree, b.hash, c.hash);
      DescendsTransitive(tree, top.hash, b.hash, c.hash);
    }
    if Descends(tree, top.hash, c.hash) { DescendsIsHigher(tree, top.hash, c.hash); }
  }

  lemma SplitQuestions(tree: Tree, s: set<PendingChange>, t: set<PendingChange>, h: Hash)
    requires WellFormed(tree) && AllApart(tree, s, t)
    ensures Signals(s + t, h) <==> Signals(s, h) || Signals(t, h)
    ensures Above(tree, s + t, h) <==> Above(tree, s, h) || Above(tree, t, h)
    ensures Above(tree, s, h) ==> !Signals(t, h)
    ensures Above(tree, t, h) ==> !Signals(s, h)
  {
  }

  /** A change that joins one side stays apart from the other. */
  lemma GrownSide(tree: Tree, s: set<PendingChange>, t: set<PendingChange>, c: PendingChange)
    requires WellFormed(tree) && AllApart(tree, s, t) && Above(tree, s, c.hash) && InOrder(tree, t, c.hash)
    ensures AllApart(tree, s + {c}, t) && AllApart(tree, t, s + {c})
  {
    var a :| a in s && Descends(tree, a.hash, c.hash);
    NewIsApart(tree, a.hash, c, t);
  }

  lemma FirstAndRest(tree: Tree, nodes: seq<Node>)
    requires WellFormed(tree) && nodes != []
    ensures Members(nodes) == Members([nodes[0]]) + Members(nodes[1..])
    ensures Members([nodes[0]]) == {nodes[0].change} + Members(nodes[0].children)
    ensures Ordered(tree, nodes) <==>
              && Ordered(tree, [nodes[0]]) && Ordered(tree, nodes[1..])
              && AllApart(tree, Members([nodes[0]]), Members(nodes[1..]))
    ensures Ordered(tree, [nodes[0]]) <==>
              Ordered(tree, nodes[0].children) && Below(tree, nodes[0].change, Members(nodes[0].children))
  {
    hide Descends, AllApart, Below, WellFormed;
    MembersOne(nodes[0].change, nodes[0].children);
    var first := [nodes[0]];
    assert first == [Node(nodes[0].change, nodes[0].children)];
    assert first[1..] == [] && Members(first[1..]) == {};
    NothingApart(tree, Members(first));
  }

  lemma NothingApart(tree: Tree, s: set<PendingChange>)
    requires WellFormed(tree)
    ensures AllApart(tree, s, {})
  {
  }

  lemma KnownParts(tree: Tree, s: set<PendingChange>, t: set<PendingChange>)
    ensures Known(tree, s + t) <==> Known(tree, s) && Known(tree, t)
  {
  }

  lemma InOrderParts(tree: Tree, s: set<PendingChange>, t: set<PendingChange>, h: Hash)
    requires WellFormed(tree)
    ensures InOrder(tree, s + t, h) <==> InOrder(tree, s, h) && InOrder(tree, t, h)
  {
  }

  lemma ApartSymmetric(tree: Tree, s: set<PendingChange>, t: set<PendingChange>)
    requires WellFormed(tree)
    ensures AllApart(tree, s, t) <==> AllApart(tree, t, s)
  {
  }

  lemma GrowFirst(tree: Tree, first: seq<Node>, rest: seq<Node>, grown: seq<Node>, c: PendingChange)
    requires WellFormed(tree) && AllApart(tree, Members(first), Members(rest)) && Ordered(tree, rest)
    requires Above(tree, Members(first), c.hash) && InOrder(tree, Members(rest), c.hash)
    requires Ordered(tree, grown) && Members(grown) == Members(first) + {c}
    ensures Ordered(tree, grown + rest) && Members(grown + rest) == Members(first) + Members(rest) + {c}
  {
    hide AllApart, WellFormed, Members, Ordered, Above, InOrder;
    GrownSide(tree, Members(first), Members(rest), c);
    OrderedConcat(tree, grown, rest);
    MembersConcat(grown, rest);
  }

  lemma GrowRest(tree: Tree, first: seq<Node>, rest: seq<Node>, grown: seq<Node>, c: PendingChange)
    requires WellFormed(tree) && AllApart(tree, Members(first), Members(rest)) && Ordered(tree, first)
    requires Above(tree, Members(rest), c.hash) && InOrder(tree, Members(first), c.hash)
    requires Ordered(tree, grown) && Members(grown) == Members(rest) + {c}
    ensures Ordered(tree, first + grown) && Members(first + grown) == Members(first) + Members(rest) + {c}
  {
    hide AllApart, WellFormed, Members, Ordered, Above, InOrder;
    ApartSymmetric(tree, Members(first), Members(rest));
    GrownSide(tree, Members(rest), Members(first), c);
    OrderedConcat(tree, first, grown);
    MembersConcat(first, grown);
  }

  lemma {:induction false} ImportListStep(tree: Tree, nodes: seq<Node>, c: PendingChange)
    requires WellFormed(tree) && Ordered(tree, nodes) && Known(tree, Members(nodes)) && Known(tree, {c})
    requires InOrder(tree, Members(nodes), c.hash)
    ensures ImportedRight(tree, nodes, c, ImportList(tree, nodes, c))
    decreases nodes, 0
  {
    if nodes == [] {
      assert Members(nodes) == {};
    } else {
      hide Descends, AllApart, WellFormed, Members, Ordered, Known, InOrder, Signals, Above, ImportInto;
      var first, rest := [nodes[0]], nodes[1..];
      FirstAndRest(tree, nodes);
      KnownParts(tree, Members(first), Members(rest));
      InOrderParts(tree, Members(first), Members(rest), c.hash);
      ImportIntoStep(tree, nodes[0], c);
      ImportListStep(tree, rest, c);
      SplitQuestions(tree, Members(first), Members(rest), c.hash);
      match ImportInto(tree, nodes[0], c) {
        case Duplicated =>
        case Grown(grown) => GrowFirst(tree, first, rest, grown, c);
        case Absent =>
          match ImportList(tree, rest, c) {
            case Duplicated =>
            case Absent =>
            case Grown(grown) => GrowRest(tree, first, rest, grown, c);
          }
      }
    }
  }

  // ---- Rebalancing keeps everything --------------------------------------

  lemma {:induction false} InsertByDepthKeeps(tree: Tree, node: Node, sorted: seq<Node>)
    requires WellFormed(tree) && Ordered(tree, [node] + sorted)
    ensures Ordered(tree, InsertByDepth(node, sorted))
    ensures Members(InsertByDepth(node, sorted)) == Members([node]) + Members(sorted)
  {
    hide AllApart, WellFormed, Members, Ordered, Depth;
    var all := [node] + sorted;
    assert all[0] == node && all[1..] == sorted;
    FirstAndRest(tree, all);
    if sorted != [] && Depth(node) < Depth(sorted[0]) {
      var rest := sorted[1..];
      FirstAndRest(tree, sorted);
      ApartParts(tree, Members([node]), Members([sorted[0]]), Members(rest));
      OrderedConcat(tree, [node], rest);
      InsertByDepthKeeps(tree, node, rest);
      var inserted := InsertByDepth(node, rest);
      ApartSymmetric(tree, Members([node]), Members([sorted[0]]));
      ApartUnion(tree, Members([sorted[0]]), Members([node]), Members(rest));
      OrderedConcat(tree, [sorted[0]], inserted);
      MembersConcat([sorted[0]], inserted);
    }
  }

  lemma ApartParts(tree: Tree, s: set<PendingChange>, t: set<PendingChange>, u: set<PendingChange>)
    requires WellFormed(tree) && AllApart(tree, s, t + u)
    ensures AllApart(tree, s, t) && AllApart(tree, s, u)
  {
  }

  lemma ApartUnion(tree: Tree, s: set<PendingChange>, t: set<PendingChange>, u: set<PendingChange>)
    requires WellFormed(tree) && AllApart(tree, s, t) && AllApart(tree, s, u)
    ensures AllApart(tree, s, t + u)
  {
  }

  lemma {:induction false} SortByDepthKeeps(tree: Tree, nodes: seq<Node>)
    requires WellFormed(tree) && Ordered(tree, nodes)
    ensures Ordered(tree, SortByDepth(nodes)) && Members(SortByDepth(nodes)) == Members(nodes)
  {
    hide AllApart, WellFormed, Members, Ordered, InsertByDepth;
    if nodes != [] {
      FirstAndRest(tree, nodes);
      SortByDepthKeeps(tree, nodes[1..]);
      OrderedConcat(tree, [nodes[0]], SortByDepth(nodes[1..]));
      InsertByDepthKeeps(tree, nodes[0], SortByDepth(nodes[1..]));
    }
  }

  lemma {:induction false} RebalanceKeeps(tree: Tree, nodes: seq<Node>)
    requires WellFormed(tree) && Ordered(tree, nodes)
    ensures Ordered(tree, Rebalance(nodes)) && Members(Rebalance(nodes)) == Members(nodes)
    decreases nodes, 1
  {
    RebalanceEachKeeps(tree, nodes);
    SortByDepthKeeps(tree, RebalanceEach(nodes));
    hide AllApart, WellFormed, Members, Ordered, SortByDepth, RebalanceEach;
  }

  lemma {:induction false} RebalanceEachKeeps(tree: Tree, nodes: seq<Node>)
    requires WellFormed(tree) && Ordered(tree, nodes)
    ensures Ordered(tree, RebalanceEach(nodes)) && Members(RebalanceEach(nodes)) == Members(nodes)
    decreases nodes, 0
  {
    hide AllApart, WellFormed, Members, Ordered, Rebalance;
    if nodes != [] {
      FirstAndRest(tree, nodes);
      RebalanceKeeps(tree, nodes[0].children);
      RebalanceEachKeeps(tree, nodes[1..]);
      var first := Node(nodes[0].change, Rebalance(nodes[0].children));
      OrderedOne(tree, first.change, first.children);
      MembersOne(first.change, first.children);
      OrderedConcat(tree, [first], RebalanceEach(nodes[1..]));
      MembersConcat([first], RebalanceEach(nodes[1..]));
    }
  }

  lemma {:induction false} InsertDepth(node: Node, sorted: seq<Node>)
    ensures MaxDepth(InsertByDepth(node, sorted)) == Max(Depth(node), MaxDepth(sorted))
  {
    hide Depth;
    if sorted == [] || Depth(node) >= Depth(sorted[0]) {
      assert ([node] + sorted)[1..] == sorted;
    } else {
      InsertDepth(node, sorted[1..]);
      assert ([sorted[0]] + InsertByDepth(node, sorted[1..]))[1..] == InsertByDepth(node, sorted[1..]);
    }
  }

  lemma {:induction false} SortDepth(nodes: seq<Node>)
    ensures MaxDepth(SortByDepth(nodes)) == MaxDepth(nodes)
  {
    if nodes != [] {
      SortDepth(nodes[1..]);
      InsertDepth(nodes[0], SortByDepth(nodes[1..]));
    }
  }

  lemma {:induction false} RebalanceDepth(nodes: seq<Node>)
    ensures MaxDepth(RebalanceEach(nodes)) == MaxDepth(nodes)
    decreases nodes
  {
    if nodes != [] {
      RebalanceDepth(nodes[0].children);
      SortDepth(RebalanceEach(nodes[0].children));
      RebalanceDepth(nodes[1..]);
      assert RebalanceEach(nodes)[1..] == RebalanceEach(nodes[1..]);
    }
  }

  /** It does not matter whether children are rebalanced before or after sorting their parents. */
  lemma {:induction false} RebalanceInsert(node: Node, sorted: seq<Node>)
    ensures RebalanceEach(InsertByDepth(node, sorted)) ==
              InsertByDepth(Node(node.change, Rebalance(node.children)), RebalanceEach(sorted))
  {
    RebalanceDepth(node.children);
    SortDepth(RebalanceEach(node.children));
    var balanced := Node(node.change, Rebalance(node.children));
    assert Depth(balanced) == Depth(node);
    if sorted == [] || Depth(node) >= Depth(sorted[0]) {
      assert ([node] + sorted)[1..] == sorted;
    } else {
      RebalanceInsert(node, sorted[1..]);
      var rest := InsertByDepth(node, sorted[1..]);
      assert ([sorted[0]] + rest)[1..] == rest;
    }
    if sorted != [] {
      RebalanceDepth(sorted[0].children);
      SortDepth(RebalanceEach(sorted[0].children));
      assert RebalanceEach(sorted)[1..] == RebalanceEach(sorted[1..]);
    }
    hide Depth, Rebalance;
  }

  lemma {:induction false} RebalanceOrder(nodes: seq<Node>)
    ensures Rebalance(nodes) == RebalanceEach(SortByDepth(nodes))
  {
    if nodes != [] {
      RebalanceOrder(nodes[1..]);
      RebalanceInsert(nodes[0], SortByDepth(nodes[1..]));
      var first := Node(nodes[0].change, Rebalance(nodes[0].children));
      assert ([first] + RebalanceEach(nodes[1..]))[1..] == RebalanceEach(nodes[1..]);
    }
  }

  // ---- Deepest branches first --------------------------------------------

  /** Among the nodes, and among the children of each, no branch is deeper than one before it. */
  ghost predicate Balanced(nodes: seq<Node>)
    decreases nodes
  {
    nodes != [] ==>
      && Balanced(nodes[0].children) && Balanced(nodes[1..])
      && forall x :: x in nodes[1..] ==> Depth(nodes[0]) >= Depth(x)
  }

  function AtDepth(nodes: seq<Node>, d: nat): seq<Node> {
    if nodes == [] then [] else (if Depth(nodes[0]) == d then [nodes[0]] else []) + AtDepth(nodes[1..], d)
  }

  lemma {:induction false} InsertMembers(node: Node, sorted: seq<Node>)
    ensures forall x :: x in InsertByDepth(node, sorted) <==> x == node || x in sorted
  {
    hide Depth;
    if sorted != [] {
      var rest := sorted[1..];
      assert sorted == [sorted[0]] + rest;
      InsertMembers(node, rest);
    }
  }

  lemma {:induction false} InsertSorts(node: Node, sorted: seq<Node>)
    requires Balanced(node.children) && Balanced(sorted)
    ensures Balanced(InsertByDepth(node, sorted))
  {
    hide Depth;
    if sorted == [] || Depth(node) >= Depth(sorted[0]) {
      var after := [node] + sorted;
      assert after[1..] == sorted;
      forall x | x in sorted ensures Depth(node) >= Depth(x) { DeepestFirst(sorted, x); }
    } else {
      var first, rest := sorted[0], sorted[1..];
      InsertSorts(node, rest);
      InsertMembers(node, rest);
      var after := InsertByDepth(node, rest);
      assert ([first] + after)[1..] == after;
    }
  }

  lemma DeepestFirst(sorted: seq<Node>, x: Node)
    requires Balanced(sorted) && x in sorted
    ensures Depth(sorted[0]) >= Depth(x)
  {
    hide Depth;
    assert sorted == [sorted[0]] + sorted[1..];
  }

  lemma {:induction false} InsertStable(node: Node, sorted: seq<Node>, d: nat)
    ensures AtDepth(InsertByDepth(node, sorted), d) == AtDepth([node] + sorted, d)
  {
    hide Depth;
    assert ([node] + sorted)[1..] == sorted;
    if sorted != [] && Depth(node) < Depth(sorted[0]) {
      var first, rest := sorted[0], sorted[1..];
      InsertStable(node, rest, d);
      var after := InsertByDepth(node, rest);
      assert ([first] + after)[1..] == after && ([node] + rest)[1..] == rest;
    }
  }

  lemma {:induction false} SortSorts(nodes: seq<Node>)
    requires forall x :: x in nodes ==> Balanced(x.children)
    ensures Balanced(SortByDepth(nodes))
    ensures forall d: nat :: AtDepth(SortByDepth(nodes), d) == AtDepth(nodes, d)
  {
    hide Depth, Balanced, InsertByDepth;
    if nodes == [] {
      NothingBalanced();
    } else {
      var sorted := SortByDepth(nodes[1..]);
      SortSorts(nodes[1..]);
      InsertSorts(nodes[0], sorted);
      forall d: nat ensures AtDepth(SortByDepth(nodes), d) == AtDepth(nodes, d) { InsertStable(nodes[0], sorted, d); }
      assert ([nodes[0]] + sorted)[1..] == sorted;
    }
  }

  lemma NothingBalanced()
    ensures Balanced([])
  {
  }

  /** Rebalancing puts deeper branches first on every level; roots of equal depth keep their order. */
  lemma {:induction false} RebalanceSorts(nodes: seq<Node>)
    ensures Balanced(Rebalance(nodes))
    ensures forall d: nat :: AtDepth(Rebalance(nodes), d) == AtDepth(RebalanceEach(nodes), d)
    decreases nodes, 1
  {
    RebalanceEachSorts(nodes);
    SortSorts(RebalanceEach(nodes));
    hide Depth, Balanced, SortByDepth, RebalanceEach;
  }

  lemma {:induction false} RebalanceEachSorts(nodes: seq<Node>)
    ensures forall x :: x in RebalanceEach(nodes) ==> Balanced(x.children)
    ensures |RebalanceEach(nodes)| == |nodes|
    ensures forall i :: 0 <= i < |nodes| ==>
              RebalanceEach(nodes)[i].change == nodes[i].change && Depth(RebalanceEach(nodes)[i]) == Depth(nodes[i])
    decreases nodes, 0
  {
    hide Balanced, Rebalance;
    if nodes != [] {
      RebalanceSorts(nodes[0].children);
      RebalanceEachSorts(nodes[1..]);
      var first := Node(nodes[0].change, Rebalance(nodes[0].children));
      SameDepth(nodes[0].children);
      assert Depth(first) == Depth(nodes[0]);
      hide Depth;
      assert RebalanceEach(nodes) == [first] + RebalanceEach(nodes[1..]);
    }
  }

  lemma SameDepth(nodes: seq<Node>)
    ensures MaxDepth(Rebalance(nodes)) == MaxDepth(nodes)
  {
    RebalanceDepth(nodes);
    SortDepth(RebalanceEach(nodes));
  }

  /**
   * Importing: refused exactly at or below the finalized height and for a block that already
   * signals a change; otherwise the change joins the others, as a root exactly when no pending
   * change lies above it, and the forest still mirrors the ancestry of its blocks, deepest branches
   * first.
   */
  lemma ImportStep(tree: Tree, forest: Forest, c: PendingChange)
    requires WellFormed(tree) && Ordered(tree, forest.roots) && Known(tree, Members(forest.roots)) && Known(tree, {c})
    requires InOrder(tree, Members(forest.roots), c.hash)
    ensures var before := Members(forest.roots);
            var r := Import(tree, forest, c);
            var tooLow := forest.bestFinalized.Some? && c.height <= forest.bestFinalized.value;
            && (r == Err(Revert) <==> tooLow)
            && (r == Err(Duplicate) <==> !tooLow && Signals(before, c.hash))
            && (r.Ok? <==> !tooLow && !Signals(before, c.hash))
            && (r.Ok? ==> && Ordered(tree, r.value.0.roots)
                          && Members(r.value.0.roots) == before + {c}
                          && r.value.0.bestFinalized == forest.bestFinalized
                          && Balanced(r.value.0.roots)
                          && (r.value.1 <==> !Above(tree, before, c.hash)))
  {
    ImportListStep(tree, forest.roots, c);
    hide AllApart, WellFormed, Members, Ordered, Rebalance, ImportList, Known, InOrder, Signals, Above, Balanced;
    match ImportList(tree, forest.roots, c) {
      case Duplicated =>
      case Grown(nodes) =>
        RebalanceKeeps(tree, nodes);
        RebalanceSorts(nodes);
      case Absent =>
        AddLeaf(tree, forest.roots, c);
        RebalanceKeeps(tree, forest.roots + [Node(c, [])]);
        RebalanceSorts(forest.roots + [Node(c, [])]);
    }
  }
}
