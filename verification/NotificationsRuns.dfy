/** Listening, triggering and removal keep the index in step with the sinks. */
module NotificationsRuns {
  import opened Common
  import opened Notifications

  // ---- Listening ---------------------------------------------------------

  lemma {:induction false} AddListenersEffect(listeners: map<Key, set<Id>>, keys: seq<Key>, id: Id, wildcards: set<Id>)
    ensures var after := AddListeners(listeners, keys, id);
            && (forall k, x :: Listens(Index(after, wildcards), k, x) <==>
                  Listens(Index(listeners, wildcards), k, x) || (x == id && k in keys))
            && ((forall k :: k in listeners ==> listeners[k] != {}) ==> forall k :: k in after ==> after[k] != {})
    decreases |keys|
  {
    if keys != [] {
      var mid := AddListener(listeners, keys[0], id);
      AddListenersEffect(mid, keys[1..], id, wildcards);
      assert keys == [keys[0]] + keys[1..];
      assert forall k, x :: Listens(Index(mid, wildcards), k, x) <==>
               Listens(Index(listeners, wildcards), k, x) || (x == id && k == keys[0]);
    }
  }

  lemma ListenFromAgrees(index: Index, filters: map<Id, Filter>, id: Id, keys: Option<seq<Key>>)
    requires Agrees(index, filters) && id !in filters
    ensures Agrees(ListenFrom(index, id, keys), filters[id := FilterOf(keys)])
  {
    ListenFromEffect(index, id, keys);
    var after, filters' := ListenFrom(index, id, keys), filters[id := FilterOf(keys)];
    hide ListenFrom, Listens;
    forall x ensures x in after.wildcards <==> x in filters' && filters'[x].None? {
      assert x in index.wildcards <==> x in filters && filters[x].None?;
    }
    forall k, x ensures Listens(after, k, x) <==> x in filters' && filters'[x].Some? && k in filters'[x].value {
      assert Listens(index, k, x) <==> x in filters && filters[x].Some? && k in filters[x].value;
    }
    assert NoEmptyEntries(after);
  }

  type ChildKeys = seq<(Key, Option<seq<Key>>)>

  /** Some entry asks for all keys of the child storage. */
  predicate NamesAll(childKeys: ChildKeys, child: Key) {
    exists i :: 0 <= i < |childKeys| && childKeys[i].0 == child && childKeys[i].1.None?
  }

  /** Some entry lists this key of the child storage. */
  predicate NamesKey(childKeys: ChildKeys, child: Key, key: Key) {
    exists i :: 0 <= i < |childKeys| && childKeys[i].0 == child && childKeys[i].1.Some? && key in childKeys[i].1.value
  }

  ghost predicate NoEmptyEntries(index: Index) {
    forall k :: k in index.listeners ==> index.listeners[k] != {}
  }

  lemma ListenFromEffect(index: Index, id: Id, keys: Option<seq<Key>>)
    ensures var after := ListenFrom(index, id, keys);
            && (NoEmptyEntries(index) ==> NoEmptyEntries(after))
            && (forall x :: x in after.wildcards <==> x in index.wildcards || (x == id && keys.None?))
            && (forall k, x :: Listens(after, k, x) <==> Listens(index, k, x) || (x == id && keys.Some? && k in keys.value))
  {
    hide AddListeners;
    var after := ListenFrom(index, id, keys);
    if keys.Some? {
      AddListenersEffect(index.listeners, keys.value, id, index.wildcards);
      assert after == Index(AddListeners(index.listeners, keys.value, id), index.wildcards);
    } else {
      assert after == Index(index.listeners, index.wildcards + {id});
    }
  }

  /** What a list of child entries does to the index of one child storage: every entry counts. */
  lemma {:induction false} ListenChildrenEffect(children: map<Key, Index>, id: Id, childKeys: ChildKeys, child: Key)
    ensures var before, after := IndexAt(children, child), IndexAt(ListenChildren(children, id, childKeys), child);
            && (NoEmptyEntries(before) ==> NoEmptyEntries(after))
            && (forall x :: x in after.wildcards <==> x in before.wildcards || (x == id && NamesAll(childKeys, child)))
            && (forall k, x :: Listens(after, k, x) <==> Listens(before, k, x) || (x == id && NamesKey(childKeys, child, k)))
    decreases |childKeys|
  {
    hide ListenFrom, Listens, NoEmptyEntries;
    if childKeys != [] {
      var (key, keys) := childKeys[0];
      var rest := childKeys[1..];
      var mid := children[key := ListenFrom(IndexAt(children, key), id, keys)];
      var after := IndexAt(ListenChildren(children, id, childKeys), child);
      assert ListenChildren(children, id, childKeys) == ListenChildren(mid, id, rest);
      hide ListenChildren, NamesAll, NamesKey;
      NamesSplit(childKeys, child);
      var before, between := IndexAt(children, child), IndexAt(mid, child);
      ListenFromEffect(before, id, keys);
      assert between == if key == child then ListenFrom(before, id, keys) else before;
      ListenChildrenEffect(mid, id, rest, child);
      forall x ensures x in after.wildcards <==> x in before.wildcards || (x == id && NamesAll(childKeys, child)) {
        assert x in after.wildcards <==> x in between.wildcards || (x == id && NamesAll(rest, child));
      }
      forall k, x ensures Listens(after, k, x) <==> Listens(before, k, x) || (x == id && NamesKey(childKeys, child, k)) {
        assert Listens(after, k, x) <==> Listens(between, k, x) || (x == id && NamesKey(rest, child, k));
      }
    }
  }

  /** Whatever an entry names, the subscriber is on the index for. */
  lemma NamedIsListened(children: map<Key, Index>, id: Id, childKeys: ChildKeys, child: Key, key: Option<Key>)
    requires if key.None? then NamesAll(childKeys, child) else NamesKey(childKeys, child, key.value)
    ensures var index := IndexAt(ListenChildren(children, id, childKeys), child);
            if key.None? then id in index.wildcards else Listens(index, key.value, id)
  {
    hide ListenChildren, Listens, NamesAll, NamesKey;
    ListenChildrenEffect(children, id, childKeys, child);
    var after := IndexAt(ListenChildren(children, id, childKeys), child);
    assert id in after.wildcards <==> id in IndexAt(children, child).wildcards || (id == id && NamesAll(childKeys, child));
  }

  lemma NamesSplit(childKeys: ChildKeys, child: Key)
    requires childKeys != []
    ensures NamesAll(childKeys, child) <==> (childKeys[0].0 == child && childKeys[0].1.None?) || NamesAll(childKeys[1..], child)
    ensures forall k :: NamesKey(childKeys, child, k) <==>
              (childKeys[0].0 == child && childKeys[0].1.Some? && k in childKeys[0].1.value) || NamesKey(childKeys[1..], child, k)
  {
    var rest := childKeys[1..];
    assert forall i :: 0 <= i < |rest| ==> rest[i] == childKeys[i + 1];
    assert forall i :: 1 <= i < |childKeys| ==> childKeys[i] == rest[i - 1];
  }

  /** The last entry of its child storage. */
  predicate IsLast(childKeys: ChildKeys, l: nat) {
    l < |childKeys| && forall j :: l < j < |childKeys| ==> childKeys[j].0 != childKeys[l].0
  }

  /** The filter kept for a child storage is that of its last entry. */
  lemma {:induction false} LastEntryCounts(childKeys: ChildKeys, l: nat)
    requires IsLast(childKeys, l)
    ensures childKeys[l].0 in ChildFiltersOf(childKeys) && ChildFiltersOf(childKeys)[childKeys[l].0] == FilterOf(childKeys[l].1)
    decreases |childKeys|
  {
    var rest := childKeys[1..];
    assert forall i :: 0 <= i < |rest| ==> rest[i] == childKeys[i + 1];
    if l > 0 {
      LastEntryCounts(rest, l - 1);
    } else {
      NotNamed(rest, childKeys[0].0);
    }
    hide FilterOf;
  }

  lemma {:induction false} NotNamed(childKeys: ChildKeys, child: Key)
    requires forall j :: 0 <= j < |childKeys| ==> childKeys[j].0 != child
    ensures child !in ChildFiltersOf(childKeys) && !NamesAll(childKeys, child) && forall k :: !NamesKey(childKeys, child, k)
    decreases |childKeys|
  {
    if childKeys != [] { NotNamed(childKeys[1..], child); }
    hide FilterOf;
  }

  lemma {:induction false} FindLast(childKeys: ChildKeys, child: Key) returns (l: nat)
    requires exists j :: 0 <= j < |childKeys| && childKeys[j].0 == child
    ensures IsLast(childKeys, l) && childKeys[l].0 == child
    decreases |childKeys|
  {
    var n := |childKeys| - 1;
    if childKeys[n].0 == child {
      l := n;
    } else {
      var init := childKeys[..n];
      assert exists j :: 0 <= j < |init| && init[j].0 == child by {
        var j :| 0 <= j < |childKeys| && childKeys[j].0 == child;
        assert init[j].0 == child;
      }
      l := FindLast(init, child);
    }
  }

  /** The entry adds nothing to the index beyond what the last entry of the same storage asks for. */
  predicate Subsumed(entry: Option<seq<Key>>, last: Option<seq<Key>>) {
    if last.None? then entry.None? || entry.value == []
    else entry.Some? && forall k :: k in entry.value ==> k in last.value
  }

  /** Repeated child storages do no harm: every entry is subsumed by the last one of its storage. */
  ghost predicate Harmless(childKeys: ChildKeys) {
    forall i: nat, l: nat :: i < |childKeys| && IsLast(childKeys, l) && childKeys[i].0 == childKeys[l].0 ==>
      Subsumed(childKeys[i].1, childKeys[l].1)
  }

  /** For one storage: the entries together ask for exactly what the last one asks for. */
  lemma SubsumedAll(childKeys: ChildKeys, l: nat)
    requires IsLast(childKeys, l)
    ensures var child, last := childKeys[l].0, childKeys[l].1;
            (forall i: nat :: i < |childKeys| && childKeys[i].0 == child ==> Subsumed(childKeys[i].1, last)) <==>
              && (NamesAll(childKeys, child) <==> last.None?)
              && (forall k :: NamesKey(childKeys, child, k) <==> last.Some? && k in last.value)
  {
    var child, last := childKeys[l].0, childKeys[l].1;
    if (NamesAll(childKeys, child) <==> last.None?) && (forall k :: NamesKey(childKeys, child, k) <==> last.Some? && k in last.value) {
      forall i: nat | i < |childKeys| && childKeys[i].0 == child ensures Subsumed(childKeys[i].1, last) {
        if childKeys[i].1.Some? {
          forall k | k in childKeys[i].1.value ensures last.Some? && k in last.value { assert NamesKey(childKeys, child, k); }
          assert childKeys[i].1.value != [] ==> childKeys[i].1.value[0] in childKeys[i].1.value;
        }
      }
    }
  }

  /** What the entries put into one child index, beside what the new filter wants there. */
  lemma ListenChildExact(s: State, keys: Option<seq<Key>>, childKeys: ChildKeys, child: Key)
    requires Valid(s)
    ensures var s' := Listen(s, keys, Some(childKeys));
            ChildAgrees(s', child) <==>
              forall i: nat, l: nat :: i < |childKeys| && IsLast(childKeys, l) && childKeys[i].0 == child == childKeys[l].0 ==>
                Subsumed(childKeys[i].1, childKeys[l].1)
  {
    var s', id := Listen(s, keys, Some(childKeys)), s.nextId + 1;
    assert id !in s.sinks;
    assert ChildAgrees(s, child);
    NewAsker(s.sinks, id, s'.sinks[id], child);
    ListenChildrenEffect(s.children, id, childKeys, child);
    if exists j :: 0 <= j < |childKeys| && childKeys[j].0 == child {
      var l := FindLast(childKeys, child);
      LastEntryCounts(childKeys, l);
      SubsumedAll(childKeys, l);
      OnlyOneLast(childKeys, l);
      NewFilterAgrees(IndexAt(s.children, child), ChildFiltersAt(s.sinks, child), id, IndexAt(s'.children, child), childKeys, child, childKeys[l].1);
    } else {
      NotNamed(childKeys, child);
      SameContents(IndexAt(s.children, child), IndexAt(s'.children, child), ChildFiltersAt(s.sinks, child));
    }
    hide ListenChildren, ChildFiltersOf, FilterOf, Listens, Agrees, NamesAll, NamesKey, Subsumed, NoEmptyEntries;
  }

  lemma OnlyOneLast(childKeys: ChildKeys, l: nat)
    requires IsLast(childKeys, l)
    ensures forall m: nat :: IsLast(childKeys, m) && childKeys[m].0 == childKeys[l].0 ==> m == l
  {
  }

  lemma SameContents(before: Index, after: Index, filters: map<Id, Filter>)
    requires Agrees(before, filters) && NoEmptyEntries(after)
    requires forall x :: x in after.wildcards <==> x in before.wildcards
    requires forall k, x :: Listens(after, k, x) <==> Listens(before, k, x)
    ensures Agrees(after, filters)
  {
    hide Listens;
  }

  lemma NewFilterAgrees(before: Index, filters: map<Id, Filter>, id: Id, after: Index, childKeys: ChildKeys, child: Key, last: Option<seq<Key>>)
    requires Agrees(before, filters) && id !in filters && NoEmptyEntries(after)
    requires forall x :: x in after.wildcards <==> x in before.wildcards || (x == id && NamesAll(childKeys, child))
    requires forall k, x :: Listens(after, k, x) <==> Listens(before, k, x) || (x == id && NamesKey(childKeys, child, k))
    ensures Agrees(after, filters[id := FilterOf(last)]) <==>
              && (NamesAll(childKeys, child) <==> last.None?)
              && (forall k :: NamesKey(childKeys, child, k) <==> last.Some? && k in last.value)
  {
    hide Listens, NamesAll, NamesKey;
    var filters' := filters[id := FilterOf(last)];
    assert id !in before.wildcards && forall k :: !Listens(before, k, id);
    if Agrees(after, filters') {
      assert id in after.wildcards <==> filters'[id].None?;
      forall k ensures NamesKey(childKeys, child, k) <==> last.Some? && k in last.value {
        assert Listens(after, k, id) <==> filters'[id].Some? && k in filters'[id].value;
      }
    }
    if (NamesAll(childKeys, child) <==> last.None?) && (forall k :: NamesKey(childKeys, child, k) <==> last.Some? && k in last.value) {
      forall x ensures x in after.wildcards <==> x in filters' && filters'[x].None? {
        assert x in before.wildcards <==> x in filters && filters[x].None?;
      }
      forall k, x ensures Listens(after, k, x) <==> x in filters' && filters'[x].Some? && k in filters'[x].value {
        assert Listens(before, k, x) <==> x in filters && filters[x].Some? && k in filters[x].value;
      }
    }
  }

  /** A subscription keeps the index a mirror exactly when its repeated child storages do no harm. */
  lemma ListenExact(s: State, keys: Option<seq<Key>>, childKeys: Option<ChildKeys>)
    requires Valid(s)
    ensures Valid(Listen(s, keys, childKeys)) <==> (childKeys.Some? ==> Harmless(childKeys.value))
  {
    hide Agrees, ListenFrom, ListenChildren, ChildFiltersOf, FilterOf, Subsumed;
    var s', id := Listen(s, keys, childKeys), s.nextId + 1;
    assert id !in s.sinks;
    ListenFromAgrees(s.top, TopFilters(s.sinks), id, keys);
    assert TopFilters(s'.sinks) == TopFilters(s.sinks)[id := FilterOf(keys)];
    if childKeys.None? {
      forall child ensures ChildAgrees(s', child) {
        assert ChildAgrees(s, child);
        NewAsker(s.sinks, id, s'.sinks[id], child);
      }
    } else {
      var ck := childKeys.value;
      forall child
        ensures ChildAgrees(s', child) <==>
          forall i: nat, l: nat :: i < |ck| && IsLast(ck, l) && ck[i].0 == child == ck[l].0 ==> Subsumed(ck[i].1, ck[l].1)
      {
        ListenChildExact(s, keys, ck, child);
      }
      if Valid(s') {
        forall i: nat, l: nat | i < |ck| && IsLast(ck, l) && ck[i].0 == ck[l].0 ensures Subsumed(ck[i].1, ck[l].1) {
          assert ChildAgrees(s', ck[i].0);
        }
      }
    }
  }

  lemma NewAsker(sinks: map<Id, Sink>, id: Id, sink: Sink, child: Key)
    requires id !in sinks
    ensures ChildFiltersAt(sinks[id := sink], child) ==
              if Asks(sink, child) then ChildFiltersAt(sinks, child)[id := sink.childFilters.value[child]] else ChildFiltersAt(sinks, child)
  {
  }

  // ---- Removing ----------------------------------------------------------

  lemma RemoveFromAgrees(index: Index, filters: map<Id, Filter>, id: Id)
    requires Agrees(index, filters) && id in filters
    ensures Agrees(RemoveFrom(index, id, filters[id]), filters - {id})
  {
    var after := RemoveFrom(index, id, filters[id]);
    forall k, x ensures Listens(after, k, x) <==> x in filters - {id} && (filters - {id})[x].Some? && k in (filters - {id})[x].value {
      assert Listens(index, k, id) <==> filters[id].Some? && k in filters[id].value;
      assert k in index.listeners && x in index.listeners[k] - {id} ==> index.listeners[k] - {id} != {};
      assert Listens(after, k, x) <==> Listens(index, k, x) && x != id;
    }
  }

  lemma RemoveChildAgrees(children: map<Key, Index>, filters: map<Id, Filter>, id: Id, child: Key)
    requires Agrees(IndexAt(children, child), filters) && id in filters
    ensures Agrees(IndexAt(RemoveChild(children, id, child, filters[id]), child), filters - {id})
  {
    RemoveFromAgrees(IndexAt(children, child), filters, id);
    if child in children {
      var index := RemoveFrom(children[child], id, filters[id]);
      assert index.listeners == map[] && index.wildcards == {} ==> index == EmptyIndex();
    } else {
      NothingToRemove(filters[id], id);
    }
    hide Agrees, RemoveFrom;
  }

  lemma NothingToRemove(filter: Filter, id: Id)
    ensures RemoveFrom(EmptyIndex(), id, filter) == EmptyIndex()
  {
  }

  lemma RemoveKeepsValid(s: State, id: Id)
    requires Valid(s)
    ensures Valid(Remove(s, id))
    ensures Remove(s, id).sinks == s.sinks - {id}
    ensures forall child :: id in s.sinks && Asks(s.sinks[id], child) && child in Remove(s, id).children ==>
              Remove(s, id).children[child] != EmptyIndex()
  {
    if id in s.sinks {
      var s' := Remove(s, id);
      forall child | Asks(s.sinks[id], child) && child in s'.children ensures s'.children[child] != EmptyIndex() {
        ChildAfterRemoval(s, id, child);
      }
      RemoveFromAgrees(s.top, TopFilters(s.sinks), id);
      assert TopFilters(s'.sinks) == TopFilters(s.sinks) - {id};
      forall child ensures ChildAgrees(s', child) { RemoveOneChild(s, id, child); }
    } else {
      assert s.sinks - {id} == s.sinks;
    }
    hide ChildAgrees, Agrees, RemoveFrom, RemoveChildren;
  }

  lemma RemoveOneChild(s: State, id: Id, child: Key)
    requires Valid(s) && id in s.sinks
    ensures ChildAgrees(Remove(s, id), child)
  {
    var s' := Remove(s, id);
    assert ChildAgrees(s, child);
    var before, after := ChildFiltersAt(s.sinks, child), ChildFiltersAt(s'.sinks, child);
    assert after == before - {id};
    if Asks(s.sinks[id], child) {
      RemoveChildAgrees(s.children, before, id, child);
      var filters := s.sinks[id].childFilters.value;
      assert IndexAt(s'.children, child) == IndexAt(RemoveChild(s.children, id, child, filters[child]), child);
    } else {
      assert after == before;
      assert IndexAt(s'.children, child) == IndexAt(s.children, child);
    }
    hide Agrees, RemoveFrom;
  }

  lemma {:induction false} RemoveAllKeepsValid(s: State, ids: seq<Id>)
    requires Valid(s)
    ensures Valid(RemoveAll(s, ids))
    ensures RemoveAll(s, ids).sinks == map id | id in s.sinks && id !in ids :: s.sinks[id]
    decreases |ids|
  {
    if ids != [] {
      RemoveKeepsValid(s, ids[0]);
      RemoveAllKeepsValid(Remove(s, ids[0]), ids[1..]);
      assert ids == [ids[0]] + ids[1..];
    }
    hide Valid, Remove;
  }

  // ---- Runs --------------------------------------------------------------

  /** Which sinks are found closed, in the order they are met. */
  datatype Op =
    | ListenOp(keys: Option<seq<Key>>, childKeys: Option<seq<(Key, Option<seq<Key>>)>>)
    | TriggerOp(changes: seq<Change>, childChanges: seq<ChildChanges>, closed: seq<Id>)

  ghost predicate Legal(op: Op) {
    op.ListenOp? && op.childKeys.Some? ==> Harmless(op.childKeys.value)
  }

  function Apply(s: State, op: Op): State {
    match op
    case ListenOp(keys, childKeys) => Listen(s, keys, childKeys)
    case TriggerOp(changes, childChanges, closed) => if Skipped(s, changes, childChanges) then s else RemoveAll(s, closed)
  }

  function Run(s: State, ops: seq<Op>): State
    decreases |ops|
  {
    if ops == [] then s else Run(Apply(s, ops[0]), ops[1..])
  }

  function Start(): State {
    State(0, EmptyIndex(), map[], map[])
  }

  lemma StartIsValid()
    ensures Valid(Start())
  {
    forall child ensures ChildAgrees(Start(), child) { }
  }

  // ---- Nobody is ever missing --------------------------------------------

  lemma ListenKeepsCovered(s: State, keys: Option<seq<Key>>, childKeys: Option<ChildKeys>)
    requires Covered(s)
    ensures Covered(Listen(s, keys, childKeys))
  {
    var s', id := Listen(s, keys, childKeys), s.nextId + 1;
    assert id !in s.sinks;
    ListenFromEffect(s.top, id, keys);
    assert TopFilters(s'.sinks) == TopFilters(s.sinks)[id := FilterOf(keys)];
    CoversMore(s.top, s'.top, TopFilters(s.sinks), id, FilterOf(keys));
    forall child ensures ChildCovers(s', child) {
      assert ChildCovers(s, child);
      NewAsker(s.sinks, id, s'.sinks[id], child);
      if childKeys.Some? {
        ListenChildrenEffect(s.children, id, childKeys.value, child);
        var ck := childKeys.value;
        if exists j :: 0 <= j < |ck| && ck[j].0 == child {
          var l := FindLast(ck, child);
          LastEntryCounts(ck, l);
          LastIsNamed(ck, l);
          CoversMore(IndexAt(s.children, child), IndexAt(s'.children, child), ChildFiltersAt(s.sinks, child), id, FilterOf(ck[l].1));
        } else {
          NotNamed(ck, child);
          CoversSame(IndexAt(s.children, child), IndexAt(s'.children, child), ChildFiltersAt(s.sinks, child));
        }
      }
    }
    hide Covers, ListenFrom, ListenChildren, ChildFiltersOf, FilterOf, Listens, NamesAll, NamesKey, IsLast;
  }

  lemma LastIsNamed(childKeys: ChildKeys, l: nat)
    requires IsLast(childKeys, l)
    ensures childKeys[l].1.None? ==> NamesAll(childKeys, childKeys[l].0)
    ensures childKeys[l].1.Some? ==> forall k :: k in childKeys[l].1.value ==> NamesKey(childKeys, childKeys[l].0, k)
    ensures FilterOf(childKeys[l].1).None? <==> childKeys[l].1.None?
    ensures childKeys[l].1.Some? ==> forall k :: k in FilterOf(childKeys[l].1).value <==> k in childKeys[l].1.value
  {
  }

  lemma CoversSame(before: Index, after: Index, filters: map<Id, Filter>)
    requires Covers(before, filters)
    requires forall x :: x in before.wildcards ==> x in after.wildcards
    requires forall k, x :: Listens(before, k, x) ==> Listens(after, k, x)
    ensures Covers(after, filters)
  {
    hide Listens;
  }

  lemma CoversMore(before: Index, after: Index, filters: map<Id, Filter>, id: Id, filter: Filter)
    requires Covers(before, filters) && id !in filters
    requires forall x :: x in before.wildcards ==> x in after.wildcards
    requires forall k, x :: Listens(before, k, x) ==> Listens(after, k, x)
    requires filter.None? ==> id in after.wildcards
    requires filter.Some? ==> forall k :: k in filter.value ==> Listens(after, k, id)
    ensures Covers(after, filters[id := filter])
  {
    hide Listens;
  }

  /** Taking one subscriber off an index touches no other. */
  lemma RemoveFromOthers(index: Index, id: Id, filter: Filter, x: Id)
    ensures var after := RemoveFrom(index, id, filter);
            && (x in after.wildcards <==> x in index.wildcards && !(x == id && filter.None?))
            && (forall k :: Listens(after, k, x) <==> Listens(index, k, x) && !(x == id && filter.Some? && k in filter.value))
  {
    var after := RemoveFrom(index, id, filter);
    forall k ensures Listens(after, k, x) <==> Listens(index, k, x) && !(x == id && filter.Some? && k in filter.value) {
      assert k in index.listeners && x in index.listeners[k] - {id} ==> index.listeners[k] - {id} != {};
    }
  }

  /** The index of a child storage after a removal. */
  lemma ChildAfterRemoval(s: State, id: Id, child: Key)
    requires id in s.sinks
    ensures IndexAt(Remove(s, id).children, child) ==
              if Asks(s.sinks[id], child) then RemoveFrom(IndexAt(s.children, child), id, s.sinks[id].childFilters.value[child])
              else IndexAt(s.children, child)
    ensures Asks(s.sinks[id], child) && child in Remove(s, id).children ==> Remove(s, id).children[child] != EmptyIndex()
  {
    if Asks(s.sinks[id], child) {
      var filter := s.sinks[id].childFilters.value[child];
      if child in s.children {
        var index := RemoveFrom(s.children[child], id, filter);
        assert index.listeners == map[] && index.wildcards == {} ==> index == EmptyIndex();
      } else {
        NothingToRemove(filter, id);
      }
    }
    hide RemoveFrom;
  }

  lemma RemoveKeepsCovered(s: State, id: Id)
    requires Covered(s)
    ensures Covered(Remove(s, id))
  {
    if id in s.sinks {
      var s' := Remove(s, id);
      assert TopFilters(s'.sinks) == TopFilters(s.sinks) - {id};
      CoversFewer(s.top, s'.top, TopFilters(s.sinks), id, s.sinks[id].filter);
      forall child ensures ChildCovers(s', child) {
        assert ChildCovers(s, child);
        assert ChildFiltersAt(s'.sinks, child) == ChildFiltersAt(s.sinks, child) - {id};
        ChildAfterRemoval(s, id, child);
        if Asks(s.sinks[id], child) {
          CoversFewer(IndexAt(s.children, child), IndexAt(s'.children, child), ChildFiltersAt(s.sinks, child), id,
                      s.sinks[id].childFilters.value[child]);
        } else {
          CoversRest(IndexAt(s.children, child), ChildFiltersAt(s.sinks, child), id);
        }
      }
    }
    hide Covers, RemoveFrom, RemoveChildren;
  }

  lemma CoversRest(index: Index, filters: map<Id, Filter>, id: Id)
    requires Covers(index, filters)
    ensures Covers(index, filters - {id})
  {
    hide Listens;
  }

  lemma CoversFewer(before: Index, after: Index, filters: map<Id, Filter>, id: Id, filter: Filter)
    requires Covers(before, filters) && after == RemoveFrom(before, id, filter)
    ensures Covers(after, filters - {id})
  {
    forall x ensures (x in after.wildcards <==> x in before.wildcards && !(x == id && filter.None?))
                  && (forall k :: Listens(after, k, x) <==> Listens(before, k, x) && !(x == id && filter.Some? && k in filter.value)) {
      RemoveFromOthers(before, id, filter, x);
    }
    hide RemoveFrom, Listens;
  }

  lemma {:induction false} RemoveAllKeepsCovered(s: State, ids: seq<Id>)
    requires Covered(s)
    ensures Covered(RemoveAll(s, ids))
    decreases |ids|
  {
    if ids != [] {
      RemoveKeepsCovered(s, ids[0]);
      RemoveAllKeepsCovered(Remove(s, ids[0]), ids[1..]);
    }
    hide Covered, Remove;
  }

  lemma {:induction false} RunKeepsCovered(s: State, ops: seq<Op>)
    requires Covered(s)
    ensures Covered(Run(s, ops))
    decreases |ops|
  {
    if ops != [] {
      match ops[0] {
        case ListenOp(keys, childKeys) => ListenKeepsCovered(s, keys, childKeys);
        case TriggerOp(_, _, closed) => RemoveAllKeepsCovered(s, closed);
      }
      RunKeepsCovered(Apply(s, ops[0]), ops[1..]);
    }
    hide Covered, Listen, RemoveAll, Skipped;
  }

  // ---- What harm lasts ---------------------------------------------------

  /** The index has `x` somewhere its filter does not want it; `key` absent stands for all keys. */
  ghost predicate StaleAt(s: State, child: Key, key: Option<Key>, x: Id) {
    var index, filters := IndexAt(s.children, child), ChildFiltersAt(s.sinks, child);
    x <= s.nextId &&
    match key
    case None => x in index.wildcards && !(x in filters && filters[x].None?)
    case Some(k) => Listens(index, k, x) && !(x in filters && filters[x].Some? && k in filters[x].value)
  }

  ghost predicate Stale(s: State) {
    exists child, key, x :: StaleAt(s, child, key, x)
  }

  lemma StaleIsInvalid(s: State)
    requires Stale(s)
    ensures !Valid(s)
  {
    var child, key, x :| StaleAt(s, child, key, x);
    assert !ChildAgrees(s, child);
  }

  /** Something an entry asks for that the last entry does not; no key stands for all keys. */
  predicate Excess(entry: Option<seq<Key>>, last: Option<seq<Key>>, key: Option<Key>) {
    match key
    case None => entry.None? && last.Some?
    case Some(k) => entry.Some? && k in entry.value && (last.None? || k !in last.value)
  }

  lemma SomeExcess(entry: Option<seq<Key>>, last: Option<seq<Key>>) returns (key: Option<Key>)
    requires !Subsumed(entry, last)
    ensures Excess(entry, last, key)
  {
    if entry.None? {
      key := None;
    } else if last.None? {
      key := Some(entry.value[0]);
    } else {
      var k :| k in entry.value && k !in last.value;
      key := Some(k);
    }
  }

  lemma ExcessIsStale(s: State, keys: Option<seq<Key>>, childKeys: ChildKeys, i: nat, l: nat, key: Option<Key>)
    requires forall id :: id in s.sinks ==> id <= s.nextId
    requires i < |childKeys| && IsLast(childKeys, l) && childKeys[i].0 == childKeys[l].0
    requires Excess(childKeys[i].1, childKeys[l].1, key)
    ensures StaleAt(Listen(s, keys, Some(childKeys)), childKeys[l].0, key, s.nextId + 1)
  {
    hide ListenChildren, ChildFiltersOf, Listens, ListenFrom, NamesAll, NamesKey;
    var child, id := childKeys[l].0, s.nextId + 1;
    var s' := Listen(s, keys, Some(childKeys));
    LastEntryCounts(childKeys, l);
    NewAsker(s.sinks, id, s'.sinks[id], child);
    ExcessIsNamed(childKeys, i, childKeys[l].1, key);
    NamedIsListened(s.children, id, childKeys, child, key);
    var filters := ChildFiltersAt(s'.sinks, child);
    assert id in filters && filters[id] == FilterOf(childKeys[l].1);
  }

  lemma ExcessIsNamed(childKeys: ChildKeys, i: nat, last: Option<seq<Key>>, key: Option<Key>)
    requires i < |childKeys| && Excess(childKeys[i].1, last, key)
    ensures key.None? ==> NamesAll(childKeys, childKeys[i].0)
    ensures key.Some? ==> NamesKey(childKeys, childKeys[i].0, key.value)
  {
  }

  /** A subscription that does harm leaves something stale, since it leaves nothing missing. */
  lemma HarmIsStale(s: State, keys: Option<seq<Key>>, childKeys: ChildKeys)
    requires Valid(s) && !Harmless(childKeys)
    ensures Stale(Listen(s, keys, Some(childKeys)))
  {
    var i: nat, l: nat :| i < |childKeys| && IsLast(childKeys, l) && childKeys[i].0 == childKeys[l].0
                          && !Subsumed(childKeys[i].1, childKeys[l].1);
    var key := SomeExcess(childKeys[i].1, childKeys[l].1);
    ExcessIsStale(s, keys, childKeys, i, l, key);
    hide Listen, StaleAt, Agrees, ChildAgrees;
  }

  lemma ListenKeepsStale(s: State, keys: Option<seq<Key>>, childKeys: Option<ChildKeys>, child: Key, key: Option<Key>, x: Id)
    requires StaleAt(s, child, key, x)
    ensures StaleAt(Listen(s, keys, childKeys), child, key, x)
  {
    var s', id := Listen(s, keys, childKeys), s.nextId + 1;
    if childKeys.Some? { ListenChildrenEffect(s.children, id, childKeys.value, child); }
    assert x in ChildFiltersAt(s'.sinks, child) <==> x in ChildFiltersAt(s.sinks, child);
    hide ListenChildren, ChildFiltersOf, FilterOf, Listens, ListenFrom, NamesAll, NamesKey;
  }

  lemma RemoveKeepsStale(s: State, id: Id, child: Key, key: Option<Key>, x: Id)
    requires StaleAt(s, child, key, x)
    ensures StaleAt(Remove(s, id), child, key, x)
  {
    if id in s.sinks {
      ChildAfterRemoval(s, id, child);
      if Asks(s.sinks[id], child) {
        RemoveFromOthers(IndexAt(s.children, child), id, s.sinks[id].childFilters.value[child], x);
      }
      assert x != id ==> (x in ChildFiltersAt(Remove(s, id).sinks, child) <==> x in ChildFiltersAt(s.sinks, child));
    }
    hide RemoveFrom, RemoveChildren, Listens;
  }

  lemma {:induction false} RemoveAllKeepsStale(s: State, ids: seq<Id>, child: Key, key: Option<Key>, x: Id)
    requires StaleAt(s, child, key, x)
    ensures StaleAt(RemoveAll(s, ids), child, key, x)
    decreases |ids|
  {
    if ids != [] {
      RemoveKeepsStale(s, ids[0], child, key, x);
      RemoveAllKeepsStale(Remove(s, ids[0]), ids[1..], child, key, x);
    }
    hide StaleAt, Remove;
  }

  lemma {:induction false} RunKeepsStale(s: State, ops: seq<Op>, child: Key, key: Option<Key>, x: Id)
    requires StaleAt(s, child, key, x)
    ensures StaleAt(Run(s, ops), child, key, x)
    decreases |ops|
  {
    if ops != [] {
      match ops[0] {
        case ListenOp(keys, childKeys) => ListenKeepsStale(s, keys, childKeys, child, key, x);
        case TriggerOp(_, _, closed) => RemoveAllKeepsStale(s, closed, child, key, x);
      }
      RunKeepsStale(Apply(s, ops[0]), ops[1..], child, key, x);
    }
    hide StaleAt, Listen, RemoveAll, Skipped;
  }

  /** Over every run: the index mirrors the filters exactly when no subscription of the run did harm. */
  lemma {:induction false} RunExact(s: State, ops: seq<Op>)
    requires Valid(s)
    ensures Valid(Run(s, ops)) <==> forall i :: 0 <= i < |ops| ==> Legal(ops[i])
    decreases |ops|
  {
    if ops != [] {
      hide Valid, Listen, RemoveAll, Skipped, Harmless, Stale, StaleAt;
      var op, rest := ops[0], ops[1..];
      assert forall i :: 0 <= i < |rest| ==> rest[i] == ops[i + 1];
      assert forall i :: 1 <= i < |ops| ==> ops[i] == rest[i - 1];
      match op {
        case ListenOp(keys, childKeys) => ListenExact(s, keys, childKeys);
        case TriggerOp(_, _, closed) => RemoveAllKeepsValid(s, closed);
      }
      if Legal(op) {
        RunExact(Apply(s, op), rest);
      } else {
        HarmIsStale(s, op.keys, op.childKeys.value);
        StaleRuns(Apply(s, op), rest);
      }
    }
  }

  lemma StaleRuns(s: State, ops: seq<Op>)
    requires Stale(s)
    ensures !Valid(Run(s, ops))
  {
    hide Valid, StaleAt, Run;
    var child, key, x :| StaleAt(s, child, key, x);
    RunKeepsStale(s, ops, child, key, x);
    StaleIsInvalid(Run(s, ops));
  }

  /**
   * Over every run of listening, triggering and removal: whoever has something to read is sent it,
   * and what each subscriber reads is exactly what filtering the original changes gives. If no
   * subscription of the run did harm, nobody is sent a change set needlessly.
   */
  lemma RunDelivers(ops: seq<Op>, id: Id, changes: seq<Change>, childChanges: seq<ChildChanges>)
    ensures var s := Run(Start(), ops);
            var sent := Sent(s, changes, childChanges);
            && (id in sent ==> id in s.sinks && View(sent[id]) == View(ChangeSet(changes, childChanges, s.sinks[id])))
            && (id in s.sinks && View(ChangeSet(changes, childChanges, s.sinks[id])) != [] ==> id in sent)
            && ((forall i :: 0 <= i < |ops| ==> Legal(ops[i])) && id in sent ==>
                  || View(sent[id]) != []
                  || (s.sinks[id].filter.None? && KeptChildren(s.children, childChanges) != []))
  {
    hide Valid, Covered, Run, View, Subscribers, Skipped, KeptOf, KeptChildren, Harmless;
    StartIsValid();
    ValidIsCovered(Start());
    RunKeepsCovered(Start(), ops);
    RunExact(Start(), ops);
    var s := Run(Start(), ops);
    if id in s.sinks {
      SentIfConcerned(s, id, changes, childChanges);
      if Valid(s) { SentExactly(s, id, changes, childChanges); }
    }
  }

  /** Naming one child storage twice breaks the index: the wildcard of the first entry is never taken back. */
  lemma RepeatedChildKey(child: Key)
    ensures var s := Listen(Start(), Some([]), Some([(child, None), (child, Some([]))]));
            !Valid(s) && Remove(s, 1).sinks == map[] && 1 in IndexAt(Remove(s, 1).children, child).wildcards
  {
    var childKeys: seq<(Key, Option<seq<Key>>)> := [(child, None), (child, Some([]))];
    var s := Listen(Start(), Some([]), Some(childKeys));
    var tail := childKeys[1..];
    assert tail == [(child, Some([]))] && tail[1..] == [];
    assert ToSet([]) == {};
    assert ChildFiltersOf([]) == map[];
    assert ChildFiltersOf(tail) == map[child := Some({})];
    assert ChildFiltersOf(childKeys) == map[child := Some({})];
    var first := map[child := Index(map[], {1})];
    assert ListenFrom(EmptyIndex(), 1, None) == Index(map[], {1});
    assert ListenFrom(Index(map[], {1}), 1, Some([])) == Index(map[], {1});
    assert ListenChildren(first, 1, tail) == ListenChildren(first, 1, []) == first;
    assert s.children == ListenChildren(map[], 1, childKeys) == ListenChildren(first, 1, tail);
    assert 1 in IndexAt(s.children, child).wildcards && ChildFiltersAt(s.sinks, child)[1] == Some({});
    assert !ChildAgrees(s, child);
    assert s.sinks - {1} == map[];
  }
}
