/** The notification hub as an object. */
module NotificationsObject {
  import opened Common
  import opened Notifications
  import opened NotificationsRuns

  /** Adds a subscriber to one index, key by key. */
  method ListenKeys(index: Index, id: Id, keys: Option<seq<Key>>) returns (after: Index)
    ensures after == ListenFrom(index, id, keys)
  {
    if keys.None? {
      return index.(wildcards := index.wildcards + {id});
    }
    var listeners := index.listeners;
    assert keys.value[0..] == keys.value;
    for i := 0 to |keys.value|
      invariant AddListeners(listeners, keys.value[i..], id) == AddListeners(index.listeners, keys.value, id)
    {
      assert keys.value[i..][1..] == keys.value[i + 1..];
      listeners := AddListener(listeners, keys.value[i], id);
    }
    return index.(listeners := listeners);
  }

  /** Takes a subscriber off one index, in whatever order its keys come. */
  method RemoveKeys(index: Index, id: Id, filter: Filter) returns (after: Index)
    ensures after == RemoveFrom(index, id, filter)
  {
    if filter.None? {
      return index.(wildcards := index.wildcards - {id});
    }
    var listeners := index.listeners;
    var rest := filter.value;
    ghost var done: set<Key> := {};
    assert listeners == RemoveFrom(index, id, Some(done)).listeners;
    while rest != {}
      invariant done + rest == filter.value && done !! rest
      invariant listeners == RemoveFrom(index, id, Some(done)).listeners
      decreases |rest|
    {
      var key :| key in rest;
      if key in listeners {
        var left := listeners[key] - {id};
        listeners := if left == {} then listeners - {key} else listeners[key := left];
      }
      RemoveOneKey(index, id, done, key);
      rest, done := rest - {key}, done + {key};
    }
    assert done == filter.value;
    return index.(listeners := listeners);
  }

  lemma RemoveOneKey(index: Index, id: Id, done: set<Key>, key: Key)
    requires key !in done
    ensures var before := RemoveFrom(index, id, Some(done)).listeners;
            RemoveFrom(index, id, Some(done + {key})).listeners ==
              if key !in before then before
              else if before[key] - {id} == {} then before - {key}
              else before[key := before[key] - {id}]
  {
  }

  /** The part of a map below a set of keys. */
  function Only(filters: map<Key, Filter>, keys: set<Key>): map<Key, Filter> {
    map k | k in filters && k in keys :: filters[k]
  }

  lemma RemoveOneMoreChild(children: map<Key, Index>, id: Id, filters: map<Key, Filter>, done: set<Key>, key: Key)
    requires key in filters && key !in done
    ensures RemoveChildren(children, id, Only(filters, done + {key})) ==
              RemoveChild(RemoveChildren(children, id, Only(filters, done)), id, key, filters[key])
  {
    hide RemoveFrom;
    var before := RemoveChildren(children, id, Only(filters, done));
    assert key in before <==> key in children;
    assert key in children ==> before[key] == children[key];
  }

  /** Adds a subscriber to the index of every child storage it names. */
  method ListenChildKeys(children: map<Key, Index>, id: Id, entries: seq<(Key, Option<seq<Key>>)>)
    returns (after: map<Key, Index>, filters: map<Key, Filter>)
    ensures after == ListenChildren(children, id, entries) && filters == ChildFiltersOf(entries)
  {
    hide ListenFrom, FilterOf;
    after, filters := children, map[];
    assert entries[0..] == entries;
    assert filters + ChildFiltersOf(entries) == ChildFiltersOf(entries);
    for i := 0 to |entries|
      invariant ListenChildren(after, id, entries[i..]) == ListenChildren(children, id, entries)
      invariant filters + ChildFiltersOf(entries[i..]) == ChildFiltersOf(entries)
    {
      assert entries[i..][1..] == entries[i + 1..];
      var (key, keys) := entries[i];
      var index := ListenKeys(IndexAt(after, key), id, keys);
      after := after[key := index];
      ghost var rest := ChildFiltersOf(entries[i + 1..]);
      OneMoreFilter(filters, key, FilterOf(keys), rest);
      filters := filters[key := FilterOf(keys)];
    }
    assert filters + map[] == filters;
  }

  lemma OneMoreFilter(filters: map<Key, Filter>, key: Key, filter: Filter, rest: map<Key, Filter>)
    ensures filters[key := filter] + rest == filters + (map[key := filter] + rest)
  {
  }

  /** Takes a subscriber off the index of every child storage it named. */
  method RemoveChildKeys(children: map<Key, Index>, id: Id, filters: map<Key, Filter>) returns (after: map<Key, Index>)
    ensures after == RemoveChildren(children, id, filters)
  {
    hide RemoveFrom, RemoveChildren, Only;
    after := children;
    var rest := filters.Keys;
    ghost var done: set<Key> := {};
    NoChildRemoved(children, id, filters);
    while rest != {}
      invariant done + rest == filters.Keys && done !! rest
      invariant after == RemoveChildren(children, id, Only(filters, done))
      decreases |rest|
    {
      var key :| key in rest;
      RemoveOneMoreChild(children, id, filters, done, key);
      if key in after {
        var index := RemoveKeys(after[key], id, filters[key]);
        after := if index.listeners == map[] && index.wildcards == {} then after - {key} else after[key := index];
      }
      rest, done := rest - {key}, done + {key};
    }
    OnlyAll(filters);
  }

  lemma OnlyAll(filters: map<Key, Filter>)
    ensures Only(filters, filters.Keys) == filters
  {
  }

  lemma NoChildRemoved(children: map<Key, Index>, id: Id, filters: map<Key, Filter>)
    ensures RemoveChildren(children, id, Only(filters, {})) == children
  {
  }

  class StorageNotifications {
    var nextId: Id
    var top: Index
    var children: map<Key, Index>
    var sinks: map<Id, Sink>

    ghost function Abstract(): State
      reads this
    {
      State(nextId, top, children, sinks)
    }

    constructor ()
      ensures Abstract() == Start()
    {
      nextId, top, children, sinks := 0, EmptyIndex(), map[], map[];
    }

    method Listen(keys: Option<seq<Key>>, childKeys: Option<seq<(Key, Option<seq<Key>>)>>) returns (id: Id)
      modifies this
      ensures Abstract() == Notifications.Listen(old(Abstract()), keys, childKeys) && id == nextId
    {
      hide ListenFrom, ListenChildren, ChildFiltersOf, FilterOf;
      nextId := nextId + 1;
      id := nextId;
      top := ListenKeys(top, id, keys);
      var childFilters: ChildFilters := None;
      if childKeys.Some? {
        var filters;
        children, filters := ListenChildKeys(children, id, childKeys.value);
        childFilters := Some(filters);
      }
      sinks := sinks[id := Sink(FilterOf(keys), childFilters)];
    }

    method RemoveSubscriber(id: Id)
      modifies this
      ensures Abstract() == Remove(old(Abstract()), id)
    {
      hide RemoveFrom, RemoveChildren;
      if id !in sinks {
        return;
      }
      var sink := sinks[id];
      sinks := sinks - {id};
      top := RemoveKeys(top, id, sink.filter);
      if sink.childFilters.Some? {
        children := RemoveChildKeys(children, id, sink.childFilters.value);
      }
    }

    /** Collects what somebody may want of one storage, and who asked for it. */
    method Collect(index: Index, changes: seq<Change>, always: set<Id>) returns (kept: seq<Change>, subscribers: set<Id>)
      ensures kept == KeptOf(index, changes)
      ensures subscribers == ListenersOf(index, changes) + if changes == [] then {} else always
    {
      kept := [];
      var listening, extra := {}, {};
      assert changes[0..] == changes;
      for i := 0 to |changes|
        invariant kept + KeptOf(index, changes[i..]) == KeptOf(index, changes)
        invariant listening + ListenersOf(index, changes[i..]) == ListenersOf(index, changes)
        invariant extra == if i == 0 then {} else always
      {
        assert changes[i..][1..] == changes[i + 1..];
        var key := changes[i].0;
        if key in index.listeners {
          listening := listening + index.listeners[key];
        }
        extra := extra + always;
        ghost var rest := KeptOf(index, changes[i + 1..]);
        if index.wildcards != {} || key in index.listeners {
          assert kept + ([changes[i]] + rest) == kept + [changes[i]] + rest;
          kept := kept + [changes[i]];
        } else {
          assert [] + rest == rest;
        }
      }
      assert kept + [] == kept;
      subscribers := listening + extra;
    }

    method CollectChildren(childChanges: seq<ChildChanges>) returns (kept: seq<ChildChanges>, subscribers: set<Id>)
      ensures kept == KeptChildren(children, childChanges)
      ensures subscribers == ChildSubscribers(children, childChanges)
    {
      hide KeptOf, ListenersOf;
      kept, subscribers := [], {};
      assert childChanges[0..] == childChanges;
      for i := 0 to |childChanges|
        invariant kept + KeptChildren(children, childChanges[i..]) == KeptChildren(children, childChanges)
        invariant subscribers + ChildSubscribers(children, childChanges[i..]) == ChildSubscribers(children, childChanges)
      {
        assert childChanges[i..][1..] == childChanges[i + 1..];
        var (key, changes) := childChanges[i];
        ghost var rest := KeptChildren(children, childChanges[i + 1..]);
        if key in children {
          var some, ids := Collect(children[key], changes, children[key].wildcards);
          NoChangesNoListeners(children[key]);
          subscribers := subscribers + ids;
          if some != [] {
            assert kept + ([(key, some)] + rest) == kept + [(key, some)] + rest;
            kept := kept + [(key, some)];
          } else {
            assert [] + rest == rest;
          }
        } else {
          assert [] + rest == rest;
        }
      }
      assert kept + [] == kept;
    }

    /** Sends the shared lists to the subscribers concerned, then drops the sinks found closed. */
    method Trigger(changes: seq<Change>, childChanges: seq<ChildChanges>, closed: seq<Id>) returns (sent: map<Id, ChangeSet>)
      modifies this
      ensures sent == Sent(old(Abstract()), changes, childChanges)
      ensures Abstract() == Apply(old(Abstract()), TriggerOp(changes, childChanges, closed))
    {
      hide KeptOf, KeptChildren, ListenersOf, ChildSubscribers, Remove;
      if top.wildcards == {} && top.listeners == map[] && children == map[] {
        return map[];
      }
      var kept, subscribers := Collect(top, changes, {});
      var keptChildren, childSubscribers := CollectChildren(childChanges);
      if kept == [] && keptChildren == [] {
        return map[];
      }
      var all := top.wildcards + subscribers + childSubscribers;
      sent := map id | id in sinks && id in all :: ChangeSet(kept, keptChildren, sinks[id]);
      assert closed[0..] == closed;
      for i := 0 to |closed|
        invariant RemoveAll(Abstract(), closed[i..]) == RemoveAll(old(Abstract()), closed)
      {
        assert closed[i..][1..] == closed[i + 1..];
        RemoveSubscriber(closed[i]);
      }
    }
  }

  lemma NoChangesNoListeners(index: Index)
    ensures ListenersOf(index, []) == {}
  {
  }
}
