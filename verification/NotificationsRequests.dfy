/** Over whole runs, each subscriber reads exactly what its own subscription asked for. */
module NotificationsRequests {
  import opened Common
  import opened Notifications
  import opened NotificationsRuns

  // ---- What a subscription asks for --------------------------------------

  /** The key is among those named; naming none asks for all. */
  predicate Named(keys: Option<seq<Key>>, k: Key) {
    keys.None? || k in keys.value
  }

  /** The subscription has an entry for the child storage. */
  predicate AsksChild(childKeys: Option<ChildKeys>, child: Key) {
    childKeys.Some? && exists j :: 0 <= j < |childKeys.value| && childKeys.value[j].0 == child
  }

  /** The last entry for the child storage names the key. */
  predicate WantsChild(childKeys: Option<ChildKeys>, child: Key, k: Key) {
    childKeys.Some? &&
    exists l :: 0 <= l < |childKeys.value| && IsLast(childKeys.value, l) && childKeys.value[l].0 == child && Named(childKeys.value[l].1, k)
  }

  function WantedOf(keys: Option<seq<Key>>, changes: seq<Change>): seq<Item> {
    if changes == [] then []
    else (if Named(keys, changes[0].0) then [(None, changes[0].0, changes[0].1)] else []) + WantedOf(keys, changes[1..])
  }

  function WantedOfChild(childKeys: Option<ChildKeys>, child: Key, changes: seq<Change>): seq<Item> {
    if changes == [] then []
    else (if WantsChild(childKeys, child, changes[0].0) then [(Some(child), changes[0].0, changes[0].1)] else [])
         + WantedOfChild(childKeys, child, changes[1..])
  }

  function WantedOfChildren(childKeys: Option<ChildKeys>, childChanges: seq<ChildChanges>): seq<Item> {
    if childChanges == [] then []
    else WantedOfChild(childKeys, childChanges[0].0, childChanges[0].1) + WantedOfChildren(childKeys, childChanges[1..])
  }

  /** The changes a subscription asks for, in the order they are made. */
  function Requested(op: Op, changes: seq<Change>, childChanges: seq<ChildChanges>): seq<Item>
    requires op.ListenOp?
  {
    WantedOf(op.keys, changes) + WantedOfChildren(op.childKeys, childChanges)
  }

  // ---- What is registered ------------------------------------------------

  /** The filters kept for a subscriber let through exactly what it asked for. */
  ghost predicate Honors(sink: Sink, op: Op)
    requires op.ListenOp?
  {
    && (sink.filter.None? <==> op.keys.None?)
    && (forall k :: Passes(sink.filter, k) <==> Named(op.keys, k))
    && (forall child :: Asks(sink, child) <==> AsksChild(op.childKeys, child))
    && (forall child, k :: Asks(sink, child) ==> (Passes(sink.childFilters.value[child], k) <==> WantsChild(op.childKeys, child, k)))
  }

  /** Listening gives out the next id, registers what was asked for under it, and touches no other subscriber. */
  lemma ListenHonors(s: State, op: Op)
    requires op.ListenOp? && forall id :: id in s.sinks ==> id <= s.nextId
    ensures var after, id := Listen(s, op.keys, op.childKeys), s.nextId + 1;
            && after.nextId == id && after.sinks.Keys == s.sinks.Keys + {id}
            && (forall x :: x in s.sinks ==> after.sinks[x] == s.sinks[x])
            && Honors(after.sinks[id], op)
  {
    hide ListenFrom, ListenChildren, ChildFiltersOf;
    var id := s.nextId + 1;
    var sink := Listen(s, op.keys, op.childKeys).sinks[id];
    forall child ensures Asks(sink, child) <==> AsksChild(op.childKeys, child) {
      if op.childKeys.Some? { AskedChild(op.childKeys, child); }
    }
    forall child, k | Asks(sink, child) ensures Passes(sink.childFilters.value[child], k) <==> WantsChild(op.childKeys, child, k) {
      AskedChild(op.childKeys, child);
      assert Passes(ChildFiltersOf(op.childKeys.value)[child], k) <==> WantsChild(op.childKeys, child, k);
    }
  }

  lemma AskedChild(childKeys: Option<ChildKeys>, child: Key)
    requires childKeys.Some?
    ensures child in ChildFiltersOf(childKeys.value) <==> AsksChild(childKeys, child)
    ensures child in ChildFiltersOf(childKeys.value) ==>
              forall k :: Passes(ChildFiltersOf(childKeys.value)[child], k) <==> WantsChild(childKeys, child, k)
  {
    hide ChildFiltersOf;
    var entries := childKeys.value;
    if AsksChild(childKeys, child) {
      var l := FindLast(entries, child);
      LastEntryCounts(entries, l);
      forall k ensures Passes(FilterOf(entries[l].1), k) <==> WantsChild(childKeys, child, k) {
        assert Passes(FilterOf(entries[l].1), k) <==> Named(entries[l].1, k);
      }
    } else {
      NotNamed(entries, child);
    }
  }

  lemma {:induction false} ViewOfTop(filter: Filter, keys: Option<seq<Key>>, changes: seq<Change>)
    requires forall k :: Passes(filter, k) <==> Named(keys, k)
    ensures FilterBy(filter, None, changes) == WantedOf(keys, changes)
  {
    if changes != [] { ViewOfTop(filter, keys, changes[1..]); }
  }

  lemma {:induction false} ViewOfChild(filter: Filter, childKeys: Option<ChildKeys>, child: Key, changes: seq<Change>)
    requires forall k :: Passes(filter, k) <==> WantsChild(childKeys, child, k)
    ensures FilterBy(filter, Some(child), changes) == WantedOfChild(childKeys, child, changes)
  {
    hide WantsChild;
    if changes != [] { ViewOfChild(filter, childKeys, child, changes[1..]); }
  }

  lemma {:induction false} NothingOfChild(childKeys: Option<ChildKeys>, child: Key, changes: seq<Change>)
    requires !AsksChild(childKeys, child)
    ensures WantedOfChild(childKeys, child, changes) == []
  {
    if changes != [] { NothingOfChild(childKeys, child, changes[1..]); }
  }

  lemma {:induction false} ViewOfChildren(sink: Sink, op: Op, childChanges: seq<ChildChanges>)
    requires op.ListenOp? && Honors(sink, op)
    ensures FilterChildren(sink.childFilters, childChanges) == WantedOfChildren(op.childKeys, childChanges)
  {
    hide AsksChild, WantsChild, WantedOfChild, FilterBy;
    if childChanges != [] {
      var (child, changes) := childChanges[0];
      ViewOfChildren(sink, op, childChanges[1..]);
      if Asks(sink, child) {
        ViewOfChild(sink.childFilters.value[child], op.childKeys, child, changes);
      } else {
        NothingOfChild(op.childKeys, child, changes);
      }
    }
  }

  lemma ViewIsRequested(sink: Sink, op: Op, changes: seq<Change>, childChanges: seq<ChildChanges>)
    requires op.ListenOp? && Honors(sink, op)
    ensures View(ChangeSet(changes, childChanges, sink)) == Requested(op, changes, childChanges)
  {
    ViewOfTop(sink.filter, op.keys, changes);
    ViewOfChildren(sink, op, childChanges);
    hide Honors;
  }

  // ---- Who is subscribed -------------------------------------------------

  /** The subscriptions of a run, in order; the first has id one. */
  function Subscriptions(ops: seq<Op>): (listens: seq<Op>)
    ensures forall op :: op in listens ==> op.ListenOp?
  {
    if ops == [] then [] else
    var last := ops[|ops| - 1];
    Subscriptions(ops[..|ops| - 1]) + if last.ListenOp? then [last] else []
  }

  /** The trigger at position `i`, unless it is skipped, finds the sink of this subscriber closed. */
  predicate ClosedAt(ops: seq<Op>, i: nat, id: Id) {
    && i < |ops| && ops[i].TriggerOp? && id in ops[i].closed
    && id <= |Subscriptions(ops[..i])|
    && !Skipped(Run(Start(), ops[..i]), ops[i].changes, ops[i].childChanges)
  }

  /** The run has given out the id and no trigger since has found it closed. */
  ghost predicate Subscribed(ops: seq<Op>, id: Id) {
    1 <= id <= |Subscriptions(ops)| && forall i: nat :: !ClosedAt(ops, i, id)
  }

  lemma {:induction false} RunLast(s: State, ops: seq<Op>)
    requires ops != []
    ensures Run(s, ops) == Apply(Run(s, ops[..|ops| - 1]), ops[|ops| - 1])
    decreases |ops|
  {
    hide Apply;
    if |ops| > 1 {
      RunLast(Apply(s, ops[0]), ops[1..]);
      assert ops[1..][..|ops| - 2] == ops[..|ops| - 1][1..];
    } else {
      assert ops[..0] == [] && ops[1..] == [];
      assert Run(s, ops) == Run(Apply(s, ops[0]), []);
    }
  }

  lemma {:induction false} RemoveAllSinks(s: State, ids: seq<Id>)
    ensures RemoveAll(s, ids).sinks == map id | id in s.sinks && id !in ids :: s.sinks[id]
    ensures RemoveAll(s, ids).nextId == s.nextId
    decreases |ids|
  {
    if ids != [] {
      RemoveAllSinks(Remove(s, ids[0]), ids[1..]);
      assert ids == [ids[0]] + ids[1..];
    }
    hide RemoveFrom, RemoveChildren;
  }

  lemma ClosedBefore(ops: seq<Op>, i: nat, id: Id)
    requires ops != [] && i < |ops| - 1
    ensures ClosedAt(ops, i, id) <==> ClosedAt(ops[..|ops| - 1], i, id)
  {
    assert ops[..|ops| - 1][..i] == ops[..i];
    hide Skipped, Run, Subscriptions;
  }

  lemma SubscribedNext(ops: seq<Op>, id: Id)
    requires ops != []
    ensures var before, last := ops[..|ops| - 1], ops[|ops| - 1];
            Subscribed(ops, id) <==>
              || (last.ListenOp? && id == |Subscriptions(before)| + 1)
              || (Subscribed(before, id) && !ClosedAt(ops, |ops| - 1, id))
  {
    hide Skipped, Run;
    var before, last := ops[..|ops| - 1], ops[|ops| - 1];
    forall i: nat ensures ClosedAt(ops, i, id) <==> (i == |ops| - 1 && ClosedAt(ops, i, id)) || ClosedAt(before, i, id) {
      if i < |ops| - 1 { ClosedBefore(ops, i, id); }
    }
    forall i: nat | id > |Subscriptions(before)| ensures !ClosedAt(ops, i, id) {
      if i < |ops| { SubscriptionsGrow(ops, i); }
    }
  }

  lemma {:induction false} SubscriptionsGrow(ops: seq<Op>, i: nat)
    requires i < |ops|
    ensures |Subscriptions(ops[..i])| <= |Subscriptions(ops[..|ops| - 1])|
    decreases |ops|
  {
    if i < |ops| - 1 {
      var before := ops[..|ops| - 1];
      SubscriptionsGrow(before, i);
      assert before[..i] == ops[..i];
    }
  }

  /** After every run the sinks are those of the subscribed ids, each registered for what it asked. */
  lemma {:induction false} RunHonors(ops: seq<Op>)
    ensures var s := Run(Start(), ops);
            && s.nextId == |Subscriptions(ops)|
            && (forall id :: id in s.sinks <==> Subscribed(ops, id))
            && (forall id :: id in s.sinks ==> Honors(s.sinks[id], Subscriptions(ops)[id - 1]))
    decreases |ops|
  {
    hide Honors, Skipped, Listen, RemoveAll, Subscribed, ClosedAt, Run;
    if ops == [] {
      NobodyYet();
    } else {
      var at: nat := |ops| - 1;
      var before, last := ops[..at], ops[at];
      RunHonors(before);
      RunLast(Start(), ops);
      var s := Run(Start(), before);
      forall id ensures Subscribed(ops, id) <==>
                          || (last.ListenOp? && id == |Subscriptions(before)| + 1)
                          || (Subscribed(before, id) && !ClosedAt(ops, at, id))
      {
        SubscribedNext(ops, id);
      }
      forall id | id in s.sinks ensures 1 <= id <= s.nextId { SubscribedIds(before, id); }
      match last {
        case ListenOp(_, _) =>
          ListenHonors(s, last);
          forall id ensures !ClosedAt(ops, at, id) { NotATrigger(ops, id); }
        case TriggerOp(_, _, closed) =>
          RemoveAllSinks(s, closed);
          forall id | id in s.sinks ensures ClosedAt(ops, at, id) <==> id in closed && !Skipped(s, last.changes, last.childChanges) {
            ClosedLast(ops, id);
          }
      }
    }
  }

  lemma NobodyYet()
    ensures Run(Start(), []) == Start() && Subscriptions([]) == [] && forall id :: !Subscribed([], id)
  {
  }

  lemma SubscribedIds(ops: seq<Op>, id: Id)
    requires Subscribed(ops, id)
    ensures 1 <= id <= |Subscriptions(ops)|
  {
  }

  lemma NotATrigger(ops: seq<Op>, id: Id)
    requires ops != [] && ops[|ops| - 1].ListenOp?
    ensures !ClosedAt(ops, |ops| - 1, id)
  {
  }

  lemma ClosedLast(ops: seq<Op>, id: Id)
    requires ops != [] && ops[|ops| - 1].TriggerOp? && id <= |Subscriptions(ops[..|ops| - 1])|
    ensures var s, last := Run(Start(), ops[..|ops| - 1]), ops[|ops| - 1];
            ClosedAt(ops, |ops| - 1, id) <==> id in last.closed && !Skipped(s, last.changes, last.childChanges)
  {
    hide Skipped, Run;
  }

  // ---- What is passed on -------------------------------------------------

  ghost predicate WantedBySome(filters: map<Id, Filter>, k: Key) {
    exists id :: id in filters && Passes(filters[id], k)
  }

  /** The changes at least one filter lets through. */
  ghost function Useful(filters: map<Id, Filter>, changes: seq<Change>): seq<Change> {
    if changes == [] then []
    else (if WantedBySome(filters, changes[0].0) then [changes[0]] else []) + Useful(filters, changes[1..])
  }

  ghost function UsefulChildren(sinks: map<Id, Sink>, childChanges: seq<ChildChanges>): seq<ChildChanges> {
    if childChanges == [] then []
    else
      var (child, changes) := childChanges[0];
      var useful := Useful(ChildFiltersAt(sinks, child), changes);
      (if useful != [] then [(child, useful)] else []) + UsefulChildren(sinks, childChanges[1..])
  }

  lemma {:induction false} KeptIsUseful(index: Index, filters: map<Id, Filter>, changes: seq<Change>)
    requires Agrees(index, filters)
    ensures KeptOf(index, changes) == Useful(filters, changes)
  {
    if changes != [] {
      KeptIsUseful(index, filters, changes[1..]);
      var k := changes[0].0;
      if k in index.listeners {
        var id :| id in index.listeners[k];
        assert Listens(index, k, id);
        assert id in filters && Passes(filters[id], k);
      } else if index.wildcards != {} {
        var id :| id in index.wildcards;
        assert id in filters && Passes(filters[id], k);
      }
      if id :| id in filters && Passes(filters[id], k) {
        assert id in index.wildcards || Listens(index, k, id);
      }
    }
  }

  /** The lists shared among subscribers hold exactly the changes somebody asked for, in order. */
  lemma {:induction false} SharedListsExact(s: State, changes: seq<Change>, childChanges: seq<ChildChanges>)
    requires Valid(s)
    ensures KeptOf(s.top, changes) == Useful(TopFilters(s.sinks), changes)
    ensures KeptChildren(s.children, childChanges) == UsefulChildren(s.sinks, childChanges)
    decreases |childChanges|
  {
    KeptIsUseful(s.top, TopFilters(s.sinks), changes);
    if childChanges != [] {
      var (child, list) := childChanges[0];
      SharedListsExact(s, changes, childChanges[1..]);
      assert ChildAgrees(s, child);
      KeptIsUseful(IndexAt(s.children, child), ChildFiltersAt(s.sinks, child), list);
      NothingKept(list);
    }
    hide Agrees, Useful, KeptOf;
  }

  lemma {:induction false} UsefulToSome(sinks: map<Id, Sink>, childChanges: seq<ChildChanges>)
    requires UsefulChildren(sinks, childChanges) != []
    ensures exists id :: id in sinks && FilterChildren(sinks[id].childFilters, childChanges) != []
  {
    var (child, changes) := childChanges[0];
    if Useful(ChildFiltersAt(sinks, child), changes) != [] {
      var id := UsefulToOne(ChildFiltersAt(sinks, child), child, changes);
      assert FilterChildren(sinks[id].childFilters, childChanges) != [];
    } else {
      UsefulToSome(sinks, childChanges[1..]);
      var id :| id in sinks && FilterChildren(sinks[id].childFilters, childChanges[1..]) != [];
      assert FilterChildren(sinks[id].childFilters, childChanges) != [];
    }
  }

  lemma {:induction false} UsefulToOne(filters: map<Id, Filter>, child: Key, changes: seq<Change>) returns (id: Id)
    requires Useful(filters, changes) != []
    ensures id in filters && FilterBy(filters[id], Some(child), changes) != []
  {
    if WantedBySome(filters, changes[0].0) {
      id :| id in filters && Passes(filters[id], changes[0].0);
    } else {
      id := UsefulToOne(filters, child, changes[1..]);
    }
  }

  // ---- Delivery ----------------------------------------------------------

  /**
   * Over every run of listening, triggering and removal: a change set is sent to no one but
   * subscribers not found closed; each reads from it exactly the changes its own subscription asked
   * for, in order; and whoever asked for any of them is sent it. If no subscription of the run did
   * harm, the only others sent anything asked for all top keys, and some child change was asked for.
   */
  lemma NotificationSafety(ops: seq<Op>, id: Id, changes: seq<Change>, childChanges: seq<ChildChanges>)
    ensures var sent, listens := Sent(Run(Start(), ops), changes, childChanges), Subscriptions(ops);
            && (id in sent ==> Subscribed(ops, id) && View(sent[id]) == Requested(listens[id - 1], changes, childChanges))
            && (Subscribed(ops, id) && Requested(listens[id - 1], changes, childChanges) != [] ==> id in sent)
            && ((forall i :: 0 <= i < |ops| ==> NotificationsRuns.Legal(ops[i])) && id in sent ==>
                  || View(sent[id]) != []
                  || (&& listens[id - 1].keys.None?
                      && exists other: Id :: Subscribed(ops, other) && WantedOfChildren(listens[other - 1].childKeys, childChanges) != []))
  {
    hide Run, View, Sent, Honors, Subscribed, Requested, WantedOfChildren, Harmless;
    RunHonors(ops);
    RunDelivers(ops, id, changes, childChanges);
    var s, listens := Run(Start(), ops), Subscriptions(ops);
    if id in s.sinks {
      SubscribedIds(ops, id);
      ViewIsRequested(s.sinks[id], listens[id - 1], changes, childChanges);
      SameKind(s.sinks[id], listens[id - 1]);
    }
    if (forall i :: 0 <= i < |ops| ==> NotificationsRuns.Legal(ops[i])) && KeptChildren(s.children, childChanges) != [] {
      SomeoneAsked(ops, changes, childChanges);
    }
  }

  lemma SameKind(sink: Sink, op: Op)
    requires op.ListenOp? && Honors(sink, op)
    ensures sink.filter.None? <==> op.keys.None?
  {
  }

  lemma SomeoneAsked(ops: seq<Op>, changes: seq<Change>, childChanges: seq<ChildChanges>)
    requires forall i :: 0 <= i < |ops| ==> NotificationsRuns.Legal(ops[i])
    requires KeptChildren(Run(Start(), ops).children, childChanges) != []
    ensures exists other: Id :: Subscribed(ops, other) && 1 <= other <= |Subscriptions(ops)|
                            && WantedOfChildren(Subscriptions(ops)[other - 1].childKeys, childChanges) != []
  {
    hide Valid, Run, Honors, Subscribed, WantedOfChildren, Harmless, FilterChildren, UsefulChildren, KeptChildren;
    StartIsValid();
    RunExact(Start(), ops);
    RunHonors(ops);
    var s := Run(Start(), ops);
    SharedListsExact(s, changes, childChanges);
    UsefulToSome(s.sinks, childChanges);
    var other :| other in s.sinks && FilterChildren(s.sinks[other].childFilters, childChanges) != [];
    SubscribedIds(ops, other);
    ViewOfChildren(s.sinks[other], Subscriptions(ops)[other - 1], childChanges);
  }
}
