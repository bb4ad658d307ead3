/** Storage change notifications: an index from keys to subscribers, and views filtered from shared lists. */
module Notifications {
  import opened Common

  type Key = Bytes
  type Id = nat
  type Change = (Key, Option<Bytes>)
  type ChildChanges = (Key, seq<Change>)

  /** The keys a subscriber asked for; all keys if there is no filter. */
  type Filter = Option<set<Key>>

  /** The child storages asked for, each with its own filter; none if there is no map. */
  type ChildFilters = Option<map<Key, Filter>>

  datatype Sink = Sink(filter: Filter, childFilters: ChildFilters)

  datatype Index = Index(listeners: map<Key, set<Id>>, wildcards: set<Id>)

  datatype State = State(nextId: Id, top: Index, children: map<Key, Index>, sinks: map<Id, Sink>)

  /** What a subscriber receives: the shared lists and its own filters. */
  datatype ChangeSet = ChangeSet(changes: seq<Change>, childChanges: seq<ChildChanges>, sink: Sink)

  type Item = (Option<Key>, Key, Option<Bytes>)

  // ---- Views -------------------------------------------------------------

  predicate Passes(filter: Filter, key: Key) {
    filter.None? || key in filter.value
  }

  function FilterBy(filter: Filter, storage: Option<Key>, changes: seq<Change>): seq<Item> {
    if changes == [] then []
    else (if Passes(filter, changes[0].0) then [(storage, changes[0].0, changes[0].1)] else [])
         + FilterBy(filter, storage, changes[1..])
  }

  function FilterChildren(filters: ChildFilters, childChanges: seq<ChildChanges>): seq<Item> {
    if childChanges == [] then []
    else (if filters.Some? && childChanges[0].0 in filters.value
          then FilterBy(filters.value[childChanges[0].0], Some(childChanges[0].0), childChanges[0].1) else [])
         + FilterChildren(filters, childChanges[1..])
  }

  /** The items a subscriber reads from a change set. */
  function View(changeSet: ChangeSet): seq<Item> {
    FilterBy(changeSet.sink.filter, None, changeSet.changes) + FilterChildren(changeSet.sink.childFilters, changeSet.childChanges)
  }

  // ---- Listening ---------------------------------------------------------

  function EmptyIndex(): Index {
    Index(map[], {})
  }

  function ToSet(keys: seq<Key>): set<Key> {
    set k | k in keys
  }

  function AddListener(listeners: map<Key, set<Id>>, key: Key, id: Id): map<Key, set<Id>> {
    listeners[key := (if key in listeners then listeners[key] else {}) + {id}]
  }

  function AddListeners(listeners: map<Key, set<Id>>, keys: seq<Key>, id: Id): map<Key, set<Id>>
    decreases |keys|
  {
    if keys == [] then listeners else AddListeners(AddListener(listeners, keys[0], id), keys[1..], id)
  }

  function ListenFrom(index: Index, id: Id, keys: Option<seq<Key>>): Index {
    match keys
    case None => index.(wildcards := index.wildcards + {id})
    case Some(ks) => index.(listeners := AddListeners(index.listeners, ks, id))
  }

  function FilterOf(keys: Option<seq<Key>>): Filter {
    if keys.None? then None else Some(ToSet(keys.value))
  }

  function IndexAt(children: map<Key, Index>, key: Key): Index {
    if key in children then children[key] else EmptyIndex()
  }

  function ListenChildren(children: map<Key, Index>, id: Id, childKeys: seq<(Key, Option<seq<Key>>)>): map<Key, Index>
    decreases |childKeys|
  {
    if childKeys == [] then children
    else ListenChildren(children[childKeys[0].0 := ListenFrom(IndexAt(children, childKeys[0].0), id, childKeys[0].1)],
                        id, childKeys[1..])
  }

  function ChildFiltersOf(childKeys: seq<(Key, Option<seq<Key>>)>): map<Key, Filter>
    decreases |childKeys|
  {
    if childKeys == [] then map[]
    else map[childKeys[0].0 := FilterOf(childKeys[0].1)] + ChildFiltersOf(childKeys[1..])
  }

  function Listen(s: State, keys: Option<seq<Key>>, childKeys: Option<seq<(Key, Option<seq<Key>>)>>): State {
    var id := s.nextId + 1;
    State(id,
          ListenFrom(s.top, id, keys),
          if childKeys.None? then s.children else ListenChildren(s.children, id, childKeys.value),
          s.sinks[id := Sink(FilterOf(keys), if childKeys.None? then None else Some(ChildFiltersOf(childKeys.value)))])
  }

  // ---- Removing ----------------------------------------------------------

  /** Takes a subscriber off the index; key entries it leaves empty go with it. */
  function RemoveFrom(index: Index, id: Id, filter: Filter): Index {
    match filter
    case None => index.(wildcards := index.wildcards - {id})
    case Some(keys) =>
      index.(listeners := map k | k in index.listeners && (k in keys ==> index.listeners[k] - {id} != {})
                          :: if k in keys then index.listeners[k] - {id} else index.listeners[k])
  }

  function RemoveChild(children: map<Key, Index>, id: Id, key: Key, filter: Filter): map<Key, Index> {
    if key !in children then children else
    var index := RemoveFrom(children[key], id, filter);
    if index.listeners == map[] && index.wildcards == {} then children - {key} else children[key := index]
  }

  /** Every child storage the subscriber asked for, handled once. */
  function RemoveChildren(children: map<Key, Index>, id: Id, filters: map<Key, Filter>): map<Key, Index> {
    map k | k in children && (k in filters ==> k in RemoveChild(children, id, k, filters[k]))
      :: if k in filters then RemoveChild(children, id, k, filters[k])[k] else children[k]
  }

  function Remove(s: State, id: Id): State {
    if id !in s.sinks then s else
    var sink := s.sinks[id];
    s.(sinks := s.sinks - {id},
       top := RemoveFrom(s.top, id, sink.filter),
       children := if sink.childFilters.None? then s.children else RemoveChildren(s.children, id, sink.childFilters.value))
  }

  function RemoveAll(s: State, ids: seq<Id>): State
    decreases |ids|
  {
    if ids == [] then s else RemoveAll(Remove(s, ids[0]), ids[1..])
  }

  // ---- Triggering --------------------------------------------------------

  /** The changes somebody may want. */
  function KeptOf(index: Index, changes: seq<Change>): seq<Change> {
    if changes == [] then []
    else (if index.wildcards != {} || changes[0].0 in index.listeners then [changes[0]] else [])
         + KeptOf(index, changes[1..])
  }

  function KeptChildren(children: map<Key, Index>, childChanges: seq<ChildChanges>): seq<ChildChanges> {
    if childChanges == [] then []
    else
      var (key, changes) := childChanges[0];
      var kept := if key in children then KeptOf(children[key], changes) else [];
      (if kept != [] then [(key, kept)] else []) + KeptChildren(children, childChanges[1..])
  }

  /** The subscribers whose own keys changed. */
  function ListenersOf(index: Index, changes: seq<Change>): set<Id> {
    if changes == [] then {}
    else (if changes[0].0 in index.listeners then index.listeners[changes[0].0] else {}) + ListenersOf(index, changes[1..])
  }

  function ChildSubscribers(children: map<Key, Index>, childChanges: seq<ChildChanges>): set<Id> {
    if childChanges == [] then {}
    else
      var (key, changes) := childChanges[0];
      (if key in children && changes != [] then ListenersOf(children[key], changes) + children[key].wildcards else {})
      + ChildSubscribers(children, childChanges[1..])
  }

  /** Who is sent the change set. */
  function Subscribers(s: State, changes: seq<Change>, childChanges: seq<ChildChanges>): set<Id> {
    s.top.wildcards + ListenersOf(s.top, changes) + ChildSubscribers(s.children, childChanges)
  }

  predicate NoListeners(s: State) {
    s.top.wildcards == {} && s.top.listeners == map[] && s.children == map[]
  }

  /** Nothing is sent, and no closed sink noticed, when nobody listens or nothing is of interest. */
  predicate Skipped(s: State, changes: seq<Change>, childChanges: seq<ChildChanges>) {
    NoListeners(s) || (KeptOf(s.top, changes) == [] && KeptChildren(s.children, childChanges) == [])
  }

  /** The change set offered to each subscriber concerned. */
  function Sent(s: State, changes: seq<Change>, childChanges: seq<ChildChanges>): map<Id, ChangeSet> {
    if Skipped(s, changes, childChanges) then map[] else
    map id | id in s.sinks && id in Subscribers(s, changes, childChanges)
      :: ChangeSet(KeptOf(s.top, changes), KeptChildren(s.children, childChanges), s.sinks[id])
  }

  // ---- The index mirrors the sinks ---------------------------------------

  predicate Listens(index: Index, key: Key, id: Id) {
    key in index.listeners && id in index.listeners[key]
  }

  /** The index of one storage says what the filters say, with no empty entries. */
  ghost predicate Agrees(index: Index, filters: map<Id, Filter>) {
    && (forall id :: id in index.wildcards <==> id in filters && filters[id].None?)
    && (forall key, id :: Listens(index, key, id) <==> id in filters && filters[id].Some? && key in filters[id].value)
    && (forall key :: key in index.listeners ==> index.listeners[key] != {})
  }

  /** The index of one storage has every subscriber where its filter wants it, perhaps among others. */
  ghost predicate Covers(index: Index, filters: map<Id, Filter>) {
    && (forall id :: id in filters && filters[id].None? ==> id in index.wildcards)
    && (forall id, key :: id in filters && filters[id].Some? && key in filters[id].value ==> Listens(index, key, id))
  }

  function TopFilters(sinks: map<Id, Sink>): map<Id, Filter> {
    map id | id in sinks :: sinks[id].filter
  }

  predicate Asks(sink: Sink, child: Key) {
    sink.childFilters.Some? && child in sink.childFilters.value
  }

  function ChildFiltersAt(sinks: map<Id, Sink>, child: Key): map<Id, Filter> {
    map id | id in sinks && Asks(sinks[id], child) :: sinks[id].childFilters.value[child]
  }

  ghost predicate Valid(s: State) {
    && (forall id :: id in s.sinks ==> id <= s.nextId)
    && Agrees(s.top, TopFilters(s.sinks))
    && (forall child :: ChildAgrees(s, child))
  }

  ghost predicate ChildAgrees(s: State, child: Key) {
    Agrees(IndexAt(s.children, child), ChildFiltersAt(s.sinks, child))
  }

  ghost predicate ChildCovers(s: State, child: Key) {
    Covers(IndexAt(s.children, child), ChildFiltersAt(s.sinks, child))
  }

  /** No subscriber is missing from the index, whatever else the index holds. */
  ghost predicate Covered(s: State) {
    && (forall id :: id in s.sinks ==> id <= s.nextId)
    && Covers(s.top, TopFilters(s.sinks))
    && (forall child :: ChildCovers(s, child))
  }

  lemma ValidIsCovered(s: State)
    requires Valid(s)
    ensures Covered(s)
  {
    forall child ensures ChildCovers(s, child) { assert ChildAgrees(s, child); }
  }

  // ---- Reading from the shared lists -------------------------------------

  /** A subscriber loses nothing by reading the pre-filtered list. */
  lemma {:induction false} SharedListSuffices(index: Index, filters: map<Id, Filter>, id: Id, storage: Option<Key>, changes: seq<Change>)
    requires Covers(index, filters) && id in filters
    ensures FilterBy(filters[id], storage, KeptOf(index, changes)) == FilterBy(filters[id], storage, changes)
  {
    if changes != [] {
      var first, rest := changes[0], changes[1..];
      SharedListSuffices(index, filters, id, storage, rest);
      var keep := index.wildcards != {} || first.0 in index.listeners;
      if Passes(filters[id], first.0) {
        assert filters[id].None? ==> id in index.wildcards;
        assert filters[id].Some? ==> Listens(index, first.0, id);
        assert keep;
      }
      if keep {
        assert KeptOf(index, changes) == [first] + KeptOf(index, rest);
        assert KeptOf(index, changes)[1..] == KeptOf(index, rest);
      } else {
        assert KeptOf(index, changes) == KeptOf(index, rest);
      }
    }
  }

  lemma {:induction false} SharedChildrenSuffice(s: State, id: Id, childChanges: seq<ChildChanges>)
    requires Covered(s) && id in s.sinks
    ensures FilterChildren(s.sinks[id].childFilters, KeptChildren(s.children, childChanges)) ==
              FilterChildren(s.sinks[id].childFilters, childChanges)
  {
    if childChanges != [] {
      var (key, changes) := childChanges[0];
      var rest := childChanges[1..];
      SharedChildrenSuffice(s, id, rest);
      var filters := s.sinks[id].childFilters;
      var kept := if key in s.children then KeptOf(s.children[key], changes) else [];
      if Asks(s.sinks[id], key) {
        assert ChildCovers(s, key);
        SharedListSuffices(IndexAt(s.children, key), ChildFiltersAt(s.sinks, key), id, Some(key), changes);
        NothingKept(changes);
      }
      var all := KeptChildren(s.children, childChanges);
      if kept != [] {
        assert all[0] == (key, kept) && all[1..] == KeptChildren(s.children, rest);
      } else {
        assert all == KeptChildren(s.children, rest);
      }
    }
  }

  lemma {:induction false} NothingKept(changes: seq<Change>)
    ensures KeptOf(EmptyIndex(), changes) == []
  {
    if changes != [] { NothingKept(changes[1..]); }
  }

  /** The view each subscriber reads equals filtering the original changes directly. */
  lemma ViewIsDirect(s: State, id: Id, changes: seq<Change>, childChanges: seq<ChildChanges>)
    requires Covered(s) && id in s.sinks
    ensures View(ChangeSet(KeptOf(s.top, changes), KeptChildren(s.children, childChanges), s.sinks[id])) ==
              View(ChangeSet(changes, childChanges, s.sinks[id]))
  {
    SharedListSuffices(s.top, TopFilters(s.sinks), id, None, changes);
    SharedChildrenSuffice(s, id, childChanges);
  }

  // ---- Nobody is forgotten -----------------------------------------------

  lemma {:induction false} ListenersExact(index: Index, filters: map<Id, Filter>, id: Id, storage: Option<Key>, changes: seq<Change>)
    requires Agrees(index, filters)
    ensures id in ListenersOf(index, changes) <==> id in filters && filters[id].Some? && FilterBy(filters[id], storage, changes) != []
  {
    if changes != [] {
      ListenersExact(index, filters, id, storage, changes[1..]);
      assert id in ListenersOf(index, [changes[0]] + changes[1..]) <==> Listens(index, changes[0].0, id) || id in ListenersOf(index, changes[1..]) by {
        assert changes == [changes[0]] + changes[1..];
      }
    }
  }

  lemma AllPass(storage: Option<Key>, changes: seq<Change>)
    ensures FilterBy(None, storage, changes) == [] <==> changes == []
  {
  }

  lemma {:induction false} ChildSubscribersExact(s: State, id: Id, childChanges: seq<ChildChanges>)
    requires Valid(s) && id in s.sinks
    ensures id in ChildSubscribers(s.children, childChanges) <==> FilterChildren(s.sinks[id].childFilters, childChanges) != []
  {
    if childChanges != [] {
      var (key, changes) := childChanges[0];
      ChildSubscribersExact(s, id, childChanges[1..]);
      assert ChildAgrees(s, key);
      var index, filters := IndexAt(s.children, key), ChildFiltersAt(s.sinks, key);
      ListenersExact(index, filters, id, Some(key), changes);
      AllPass(Some(key), changes);
      if id in filters {
        assert filters[id].Some? ==> (FilterBy(filters[id], Some(key), changes) != [] ==> changes != []);
      }
      NobodyListens(changes);
    }
  }

  lemma {:induction false} NobodyListens(changes: seq<Change>)
    ensures ListenersOf(EmptyIndex(), changes) == {}
  {
    if changes != [] { NobodyListens(changes[1..]); }
  }

  lemma {:induction false} ListenersInclude(index: Index, filters: map<Id, Filter>, id: Id, storage: Option<Key>, changes: seq<Change>)
    requires Covers(index, filters) && id in filters && FilterBy(filters[id], storage, changes) != []
    ensures filters[id].None? ==> id in index.wildcards
    ensures filters[id].Some? ==> id in ListenersOf(index, changes)
    ensures KeptOf(index, changes) != []
  {
    var first, rest := changes[0], changes[1..];
    if Passes(filters[id], first.0) {
      assert filters[id].None? ==> id in index.wildcards;
      assert filters[id].Some? ==> Listens(index, first.0, id);
    } else {
      ListenersInclude(index, filters, id, storage, rest);
    }
  }

  lemma {:induction false} ChildSubscribersInclude(s: State, id: Id, childChanges: seq<ChildChanges>)
    requires Covered(s) && id in s.sinks && FilterChildren(s.sinks[id].childFilters, childChanges) != []
    ensures id in ChildSubscribers(s.children, childChanges)
    ensures KeptChildren(s.children, childChanges) != []
  {
    var (key, changes) := childChanges[0];
    var filters := s.sinks[id].childFilters;
    if Asks(s.sinks[id], key) && FilterBy(filters.value[key], Some(key), changes) != [] {
      assert ChildCovers(s, key);
      ListenersInclude(IndexAt(s.children, key), ChildFiltersAt(s.sinks, key), id, Some(key), changes);
      NothingKept(changes);
      NobodyListens(changes);
    } else {
      ChildSubscribersInclude(s, id, childChanges[1..]);
    }
  }

  /** Whoever has something to read is sent it, and reads what direct filtering gives. */
  lemma SentIfConcerned(s: State, id: Id, changes: seq<Change>, childChanges: seq<ChildChanges>)
    requires Covered(s) && id in s.sinks
    ensures var view := View(ChangeSet(changes, childChanges, s.sinks[id]));
            && (view != [] ==> id in Sent(s, changes, childChanges))
            && (id in Sent(s, changes, childChanges) ==> View(Sent(s, changes, childChanges)[id]) == view)
  {
    ViewIsDirect(s, id, changes, childChanges);
    if FilterBy(s.sinks[id].filter, None, changes) != [] {
      ListenersInclude(s.top, TopFilters(s.sinks), id, None, changes);
      NothingKept(changes);
    }
    if FilterChildren(s.sinks[id].childFilters, childChanges) != [] {
      ChildSubscribersInclude(s, id, childChanges);
      NoChildrenKept(childChanges);
    }
    hide KeptOf, KeptChildren, FilterBy, FilterChildren, ListenersOf, ChildSubscribers;
  }

  /**
   * Who is sent a change set: exactly the subscribers with something to read, and besides them
   * those without a top filter whenever a child change is passed on.
   */
  lemma SentExactly(s: State, id: Id, changes: seq<Change>, childChanges: seq<ChildChanges>)
    requires Valid(s) && id in s.sinks
    ensures var view := View(ChangeSet(changes, childChanges, s.sinks[id]));
            && (id in Sent(s, changes, childChanges) <==>
                  view != [] || (s.sinks[id].filter.None? && KeptChildren(s.children, childChanges) != []))
            && (id in Sent(s, changes, childChanges) ==> View(Sent(s, changes, childChanges)[id]) == view)
  {
    ValidIsCovered(s);
    ViewIsDirect(s, id, changes, childChanges);
    ListenersExact(s.top, TopFilters(s.sinks), id, None, changes);
    ChildSubscribersExact(s, id, childChanges);
    AllPass(None, changes);
    WildcardKeepsAll(s.top, changes);
    var shared := ChangeSet(KeptOf(s.top, changes), KeptChildren(s.children, childChanges), s.sinks[id]);
    assert shared.changes == [] && shared.childChanges == [] ==> View(shared) == [];
    if NoListeners(s) { NotListening(s, id, changes, childChanges); }
    hide KeptOf, KeptChildren, FilterBy, FilterChildren, ListenersOf, ChildSubscribers;
  }

  lemma {:induction false} WildcardKeepsAll(index: Index, changes: seq<Change>)
    ensures index.wildcards != {} ==> KeptOf(index, changes) == changes
  {
    if changes != [] { WildcardKeepsAll(index, changes[1..]); }
  }

  lemma NotListening(s: State, id: Id, changes: seq<Change>, childChanges: seq<ChildChanges>)
    requires Valid(s) && id in s.sinks && NoListeners(s)
    ensures KeptOf(s.top, changes) == [] && KeptChildren(s.children, childChanges) == []
    ensures s.sinks[id].filter.Some?
  {
    assert s.top == EmptyIndex();
    NothingKept(changes);
    NoChildrenKept(childChanges);
    assert TopFilters(s.sinks)[id] == s.sinks[id].filter;
  }

  lemma {:induction false} NoChildrenKept(childChanges: seq<ChildChanges>)
    ensures KeptChildren(map[], childChanges) == []
  {
    if childChanges != [] { NoChildrenKept(childChanges[1..]); }
  }
}
