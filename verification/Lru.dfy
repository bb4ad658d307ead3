/**
 * The size-bounded map behind the shared state cache: entries in insertion order, refreshed on
 * read, evicted from the front when the running size exceeds the limit.
 */
module Lru {
  import opened Common

  /** A key of the main trie, or a key inside a child trie. */
  datatype Key = Top(key: Bytes) | Child(storage: Bytes, key: Bytes)

  /** `None` records that the key is known to be missing. */
  type Value = Option<Bytes>

  type Entry = (Key, Value)

  function KeySize(k: Key): nat {
    match k
    case Top(key) => |key|
    case Child(storage, key) => |storage| + |key|
  }

  function ValueSize(v: Value): nat {
    match v
    case Some(bytes) => |bytes|
    case None => 0
  }

  function Total(entries: seq<Entry>): nat {
    if entries == [] then 0 else KeySize(entries[0].0) + ValueSize(entries[0].1) + Total(entries[1..])
  }

  predicate DistinctKeys(entries: seq<Entry>) {
    forall i, j :: 0 <= i < j < |entries| ==> entries[i].0 != entries[j].0
  }

  /** The value stored under `k`, if there is an entry for it. */
  function Find(entries: seq<Entry>, k: Key): Option<Value> {
    if entries == [] then None
    else if entries[0].0 == k then Some(entries[0].1)
    else Find(entries[1..], k)
  }

  function RemoveKey(entries: seq<Entry>, k: Key): seq<Entry> {
    if entries == [] then []
    else if entries[0].0 == k then entries[1..]
    else [entries[0]] + RemoveKey(entries[1..], k)
  }

  /** Overwrites the entry of `k` where it stands, or appends a new one. */
  function Put(entries: seq<Entry>, k: Key, v: Value): seq<Entry> {
    if entries == [] then [(k, v)]
    else if entries[0].0 == k then [(k, v)] + entries[1..]
    else [entries[0]] + Put(entries[1..], k, v)
  }

  /** Drops the oldest entries until the rest fits. */
  function Evict(entries: seq<Entry>, limit: nat): seq<Entry> {
    if entries == [] || Total(entries) <= limit then entries else Evict(entries[1..], limit)
  }

  /** Moves the entry of `k` to the back. */
  function Refresh(entries: seq<Entry>, k: Key): seq<Entry> {
    match Find(entries, k)
    case Some(v) => RemoveKey(entries, k) + [(k, v)]
    case None => entries
  }

  function AddEntry(entries: seq<Entry>, k: Key, v: Value, limit: nat): seq<Entry> {
    Evict(Put(entries, k, v), limit)
  }

  predicate Bounded(entries: seq<Entry>, limit: nat) {
    DistinctKeys(entries) && Total(entries) <= limit
  }

  /** Adds a list of entries, one after the other. */
  function AddAll(entries: seq<Entry>, list: seq<Entry>, limit: nat): seq<Entry>
    decreases |list|
  {
    if list == [] then entries else AddAll(AddEntry(entries, list[0].0, list[0].1, limit), list[1..], limit)
  }

  /** Removes every entry whose key is in `keys`. */
  function RemoveAll(entries: seq<Entry>, keys: set<Key>): seq<Entry> {
    if entries == [] then []
    else if entries[0].0 in keys then RemoveAll(entries[1..], keys)
    else [entries[0]] + RemoveAll(entries[1..], keys)
  }

  // ---- Members -----------------------------------------------------------

  lemma {:induction false} FindIsMember(entries: seq<Entry>, k: Key)
    requires DistinctKeys(entries)
    ensures forall v :: Find(entries, k) == Some(v) <==> (k, v) in entries
    ensures Find(entries, k) == None ==> forall e :: e in entries ==> e.0 != k
  {
    if entries != [] {
      FindIsMember(entries[1..], k);
      assert entries == [entries[0]] + entries[1..];
    }
  }

  lemma {:induction false} RemoveKeyMembers(entries: seq<Entry>, k: Key)
    requires DistinctKeys(entries)
    ensures DistinctKeys(RemoveKey(entries, k))
    ensures forall e :: e in RemoveKey(entries, k) <==> e in entries && e.0 != k
  {
    if entries != [] {
      RemoveKeyMembers(entries[1..], k);
      assert entries == [entries[0]] + entries[1..];
      MembersAreLater(entries);
      if entries[0].0 != k {
        ConsDistinct(entries[0], RemoveKey(entries[1..], k));
      }
    }
  }

  lemma MembersAreLater(entries: seq<Entry>)
    requires DistinctKeys(entries) && entries != []
    ensures DistinctKeys(entries[1..])
    ensures forall e :: e in entries[1..] ==> e.0 != entries[0].0
  {
  }

  lemma {:induction false} PutMembers(entries: seq<Entry>, k: Key, v: Value)
    requires DistinctKeys(entries)
    ensures DistinctKeys(Put(entries, k, v))
    ensures forall e :: e in Put(entries, k, v) <==> e == (k, v) || (e in entries && e.0 != k)
  {
    if entries != [] {
      PutMembers(entries[1..], k, v);
      assert entries == [entries[0]] + entries[1..];
      MembersAreLater(entries);
      if entries[0].0 != k {
        ConsDistinct(entries[0], Put(entries[1..], k, v));
      } else {
        ConsDistinct((k, v), entries[1..]);
      }
    }
  }

  lemma ConsDistinct(e: Entry, rest: seq<Entry>)
    requires DistinctKeys(rest) && forall x :: x in rest ==> x.0 != e.0
    ensures DistinctKeys([e] + rest)
  {
  }

  lemma {:induction false} EvictMembers(entries: seq<Entry>, limit: nat)
    requires DistinctKeys(entries)
    ensures DistinctKeys(Evict(entries, limit))
    ensures Total(Evict(entries, limit)) <= limit
    ensures forall e :: e in Evict(entries, limit) ==> e in entries
    ensures var kept := Evict(entries, limit);
            && |kept| <= |entries| && kept == entries[|entries| - |kept|..]
            && (|kept| < |entries| ==> Total(entries[|entries| - |kept| - 1..]) > limit)
  {
    if entries != [] && Total(entries) > limit {
      EvictMembers(entries[1..], limit);
    }
  }

  lemma {:induction false} RefreshMembers(entries: seq<Entry>, k: Key)
    requires DistinctKeys(entries)
    ensures DistinctKeys(Refresh(entries, k))
    ensures forall e :: e in Refresh(entries, k) <==> e in entries
    ensures Total(Refresh(entries, k)) == Total(entries)
  {
    FindIsMember(entries, k);
    RemoveKeyMembers(entries, k);
    if Find(entries, k).Some? {
      var v := Find(entries, k).value;
      TotalRemove(entries, k);
      TotalAppend(RemoveKey(entries, k), (k, v));
      assert (k, v) in entries;
      forall e | e in entries ensures e in Refresh(entries, k) {
        if e.0 == k { SameKeySameEntry(entries, e, (k, v)); }
      }
    }
  }

  lemma {:induction false} RemoveAllMembers(entries: seq<Entry>, keys: set<Key>)
    requires DistinctKeys(entries)
    ensures DistinctKeys(RemoveAll(entries, keys)) && Total(RemoveAll(entries, keys)) <= Total(entries)
    ensures forall e :: e in RemoveAll(entries, keys) <==> e in entries && e.0 !in keys
  {
    if entries != [] {
      RemoveAllMembers(entries[1..], keys);
      assert entries == [entries[0]] + entries[1..];
      MembersAreLater(entries);
      if entries[0].0 !in keys {
        ConsDistinct(entries[0], RemoveAll(entries[1..], keys));
      }
    }
  }

  /** Removing keys one at a time, in any order, is removing them all. */
  lemma {:induction false} RemoveOneMore(entries: seq<Entry>, keys: set<Key>, k: Key)
    requires DistinctKeys(entries)
    ensures RemoveKey(RemoveAll(entries, keys), k) == RemoveAll(entries, keys + {k})
  {
    if entries != [] {
      MembersAreLater(entries);
      RemoveOneMore(entries[1..], keys, k);
      if entries[0].0 == k && k !in keys {
        RemoveAbsent(entries[1..], keys, k);
      }
    }
  }

  lemma {:induction false} RemoveAbsent(entries: seq<Entry>, keys: set<Key>, k: Key)
    requires forall e :: e in entries ==> e.0 != k
    ensures RemoveAll(entries, keys + {k}) == RemoveAll(entries, keys)
  {
    if entries != [] {
      RemoveAbsent(entries[1..], keys, k);
    }
  }

  lemma SameKeySameEntry(entries: seq<Entry>, a: Entry, b: Entry)
    requires DistinctKeys(entries) && a in entries && b in entries && a.0 == b.0
    ensures a == b
  {
  }

  // ---- Order -------------------------------------------------------------

  predicate FirstAt(entries: seq<Entry>, k: Key, at: nat) {
    at < |entries| && entries[at].0 == k && forall i :: 0 <= i < at ==> entries[i].0 != k
  }

  lemma FirstAtNext(entries: seq<Entry>, k: Key, at: nat)
    requires entries != [] && entries[0].0 != k
    ensures FirstAt(entries, k, at + 1) <==> FirstAt(entries[1..], k, at)
    ensures FirstAt(entries, k, at + 1) ==>
              && entries[..at + 1] == [entries[0]] + entries[1..][..at]
              && entries[at + 2..] == entries[1..][at + 1..]
  {
    var rest := entries[1..];
    assert forall i :: 0 <= i < |rest| ==> rest[i] == entries[i + 1];
    assert forall i :: 1 <= i < |entries| ==> entries[i] == rest[i - 1];
  }

  /** Entries under other keys are passed over. */
  lemma {:induction false} PassedOver(before: seq<Entry>, rest: seq<Entry>, k: Key, v: Value)
    requires forall e :: e in before ==> e.0 != k
    ensures RemoveKey(before + rest, k) == before + RemoveKey(rest, k)
    ensures Put(before + rest, k, v) == before + Put(rest, k, v)
    ensures Find(before + rest, k) == Find(rest, k)
  {
    if before == [] {
      assert before + rest == rest;
    } else {
      var first, others, all := before[0], before[1..], before + rest;
      assert first in before && all[0] == first && all[1..] == others + rest;
      PassedOver(others, rest, k, v);
      FirstAndOthers(before, RemoveKey(rest, k));
      FirstAndOthers(before, Put(rest, k, v));
    }
  }

  lemma FirstAndOthers(before: seq<Entry>, rest: seq<Entry>)
    requires before != []
    ensures [before[0]] + (before[1..] + rest) == before + rest
  {
  }

  lemma AbsentStays(entries: seq<Entry>, k: Key, v: Value)
    requires forall e :: e in entries ==> e.0 != k
    ensures RemoveKey(entries, k) == entries && Put(entries, k, v) == entries + [(k, v)] && Find(entries, k) == None
  {
    PassedOver(entries, [], k, v);
    assert entries + [] == entries;
  }

  /**
   * Where a key is: removing takes its entry out and moves no other, putting overwrites it where it
   * stands, and finding gives its value.
   */
  lemma PresentAt(entries: seq<Entry>, k: Key, v: Value, at: nat)
    requires FirstAt(entries, k, at)
    ensures RemoveKey(entries, k) == entries[..at] + entries[at + 1..]
    ensures Put(entries, k, v) == entries[..at] + [(k, v)] + entries[at + 1..]
    ensures Find(entries, k) == Some(entries[at].1)
  {
    var before, rest := entries[..at], entries[at..];
    PassedOver(before, rest, k, v);
    assert entries == before + rest;
    assert rest[0].0 == k && rest[1..] == entries[at + 1..];
    assert Put(entries, k, v) == before + ([(k, v)] + rest[1..]) == before + [(k, v)] + rest[1..];
  }

  /** The entry of `k` is now the last one; the others are as they were. */
  ghost predicate MovedToBack(before: seq<Entry>, after: seq<Entry>, k: Key) {
    exists at :: 0 <= at < |before| && before[at].0 == k && after == before[..at] + before[at + 1..] + [before[at]]
  }

  lemma {:induction false} FindFirst(entries: seq<Entry>, k: Key) returns (at: nat)
    requires Find(entries, k).Some?
    ensures FirstAt(entries, k, at)
  {
    at := 0;
    if entries[0].0 != k {
      at := FindFirst(entries[1..], k);
      FirstAtNext(entries, k, at);
      at := at + 1;
    }
  }

  /** Reading a key makes its entry the youngest. */
  lemma RefreshMoves(entries: seq<Entry>, k: Key)
    requires Find(entries, k).Some?
    ensures MovedToBack(entries, Refresh(entries, k), k)
  {
    var at := FindFirst(entries, k);
    PresentAt(entries, k, None, at);
    assert entries[at] == (k, entries[at].1);
    hide RemoveKey, Find;
  }

  // ---- Sizes -------------------------------------------------------------

  lemma {:induction false} TotalAppend(entries: seq<Entry>, e: Entry)
    ensures Total(entries + [e]) == Total(entries) + KeySize(e.0) + ValueSize(e.1)
  {
    if entries != [] {
      assert (entries + [e])[1..] == entries[1..] + [e];
      TotalAppend(entries[1..], e);
    }
  }

  lemma {:induction false} TotalRemove(entries: seq<Entry>, k: Key)
    ensures Total(entries) == Total(RemoveKey(entries, k))
              + match Find(entries, k) { case Some(v) => KeySize(k) + ValueSize(v) case None => 0 }
  {
    if entries != [] && entries[0].0 != k {
      TotalRemove(entries[1..], k);
      assert RemoveKey(entries, k)[1..] == RemoveKey(entries[1..], k);
    }
  }

  lemma {:induction false} TotalPut(entries: seq<Entry>, k: Key, v: Value)
    ensures Total(Put(entries, k, v)) + match Find(entries, k) { case Some(previous) => ValueSize(previous) case None => 0 }
            == Total(entries) + ValueSize(v) + match Find(entries, k) { case Some(_) => 0 case None => KeySize(k) }
  {
    if entries != [] {
      if entries[0].0 == k {
        assert Put(entries, k, v)[1..] == entries[1..];
      } else {
        TotalPut(entries[1..], k, v);
        assert Put(entries, k, v)[1..] == Put(entries[1..], k, v);
      }
    }
  }

  // ---- The object --------------------------------------------------------

  class LruMap {
    var entries: seq<Entry>
    var used: nat
    const limit: nat

    /** The running counter is the size of the entries, and never exceeds the limit. */
    ghost predicate Valid()
      reads this
    {
      Bounded(entries, limit) && used == Total(entries)
    }

    constructor (limit: nat)
      ensures Valid() && entries == [] && this.limit == limit
    {
      entries := [];
      used := 0;
      this.limit := limit;
    }

    method Remove(k: Key)
      requires Valid()
      modifies this
      ensures Valid() && entries == RemoveKey(old(entries), k)
    {
      TotalRemove(entries, k);
      RemoveKeyMembers(entries, k);
      match Find(entries, k) {
        case Some(v) =>
          used := used - KeySize(k);
          used := used - ValueSize(v);
        case None =>
      }
      entries := RemoveKey(entries, k);
    }

    method Add(k: Key, v: Value)
      requires Valid()
      modifies this
      ensures Valid() && entries == AddEntry(old(entries), k, v, limit)
    {
      TotalPut(entries, k, v);
      PutMembers(entries, k, v);
      used := used + ValueSize(v);
      match Find(entries, k) {
        case Some(replaced) => used := used - ValueSize(replaced);
        case None => used := used + KeySize(k);
      }
      entries := Put(entries, k, v);
      while used > limit
        invariant DistinctKeys(entries) && used == Total(entries)
        invariant Evict(entries, limit) == AddEntry(old(entries), k, v, limit)
        decreases |entries|
      {
        // The map cannot run empty here: an empty map has size zero.
        used := used - KeySize(entries[0].0);
        used := used - ValueSize(entries[0].1);
        entries := entries[1..];
      }
    }

    method Get(k: Key) returns (v: Option<Value>)
      requires Valid()
      modifies this
      ensures Valid() && entries == Refresh(old(entries), k) && v == Find(old(entries), k)
    {
      RefreshMembers(entries, k);
      v := Find(entries, k);
      entries := Refresh(entries, k);
    }

    method Clear()
      requires Valid()
      modifies this
      ensures Valid() && entries == []
    {
      entries := [];
      used := 0;
    }
  }
}
