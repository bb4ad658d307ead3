/** The log of past authority sets: which set a block belongs to. */
module AuthorityLog {
  import opened Common

  type Log = seq<(nat, nat)>

  datatype SetIdAnswer = Latest | Set(setId: nat, last: nat) | Unknown

  ghost predicate Increasing(log: Log) {
    forall i, j :: 0 <= i < j < |log| ==> log[i].1 < log[j].1
  }

  ghost predicate Numbered(log: Log, setId: nat) {
    |log| == setId && forall i :: 0 <= i < |log| ==> log[i].0 == i
  }

  /** How many entries end below `n`, counted one by one. */
  function EntriesBelow(log: Log, n: nat): (k: nat)
    ensures k <= |log|
  {
    if log == [] || log[0].1 >= n then 0 else 1 + EntriesBelow(log[1..], n)
  }

  /** The linear scan: the first set whose last block is not below the block asked for. */
  function ScanSetId(log: Log, n: nat): SetIdAnswer {
    var k := EntriesBelow(log, n);
    if log != [] && k == |log| then Latest
    else if log == [] || (k == 0 && log[0].0 != 0) then Unknown
    else Set(log[k].0, log[k].1)
  }

  /** Every change after block `n`, in order; nothing if the first set is missing. */
  function ScanFrom(log: Log, n: nat): Option<Log> {
    var k := EntriesBelow(log, n + 1);
    if k == 0 && log != [] && log[0].0 != 0 then None else Some(log[k..])
  }

  lemma {:induction false} EntriesBelowSplits(log: Log, n: nat)
    requires Increasing(log)
    ensures var k := EntriesBelow(log, n);
            (forall i :: 0 <= i < k ==> log[i].1 < n) && (forall i :: k <= i < |log| ==> log[i].1 >= n)
  {
    if log != [] && log[0].1 < n {
      var rest := log[1..];
      assert forall i :: 0 <= i < |rest| ==> rest[i] == log[i + 1];
      EntriesBelowSplits(rest, n);
      assert forall i :: 1 <= i < |log| ==> log[i] == rest[i - 1];
    }
  }

  /** The sets of a complete log cut the block numbers into intervals, one per set. */
  lemma SetsPartitionNumbers(log: Log, setId: nat, n: nat)
    requires Increasing(log) && Numbered(log, setId)
    ensures ScanSetId(log, n) == Unknown <==> setId == 0
    ensures ScanSetId(log, n) == Latest <==> setId > 0 && n > log[setId - 1].1
    ensures forall i: nat, last :: ScanSetId(log, n) == Set(i, last) <==>
              i < setId && last == log[i].1 && n <= last && (i == 0 || log[i - 1].1 < n)
  {
    EntriesBelowSplits(log, n);
    var k := EntriesBelow(log, n);
    forall i: nat | i < setId ensures n <= log[i].1 && (i == 0 || log[i - 1].1 < n) ==> i == k {
      assert i == 0 || (log[i - 1].1 < n <==> i - 1 < k);
    }
  }

  /** A complete log lists, from any block on, exactly the later changes. */
  lemma ScanFromIsFilter(log: Log, setId: nat, n: nat)
    requires Increasing(log) && Numbered(log, setId)
    ensures ScanFrom(log, n).Some?
    ensures var later := ScanFrom(log, n).value;
            && |later| <= |log| && later == log[|log| - |later|..]
            && (forall i :: 0 <= i < |log| ==> (log[i].1 > n <==> i >= |log| - |later|))
  {
    EntriesBelowSplits(log, n + 1);
  }

  datatype Search = Found(at: nat) | Missing(at: nat)

  /** Binary search on the block numbers. On any slice it ends between a smaller and a larger number. */
  method BinarySearch(log: Log, n: nat) returns (r: Search)
    ensures r.Found? ==> r.at < |log| && log[r.at].1 == n
    ensures r.Missing? ==> r.at <= |log| && (r.at > 0 ==> log[r.at - 1].1 < n) && (r.at < |log| ==> log[r.at].1 > n)
  {
    var left, right := 0, |log|;
    while left < right
      invariant 0 <= left <= right <= |log|
      invariant left > 0 ==> log[left - 1].1 < n
      invariant right < |log| ==> log[right].1 > n
    {
      var mid := left + (right - left) / 2;
      if log[mid].1 < n {
        left := mid + 1;
      } else if log[mid].1 > n {
        right := mid;
      } else {
        return Found(mid);
      }
    }
    return Missing(left);
  }

  lemma CountIs(log: Log, n: nat, k: nat)
    requires Increasing(log) && k <= |log|
    requires (k > 0 ==> log[k - 1].1 < n) && (k < |log| ==> log[k].1 >= n)
    ensures EntriesBelow(log, n) == k
  {
    EntriesBelowSplits(log, n);
  }

  /**
   * On an increasing log, the set found by a linear scan. On any log, the latest set exactly beyond
   * the last entry; a set only from an entry at or above the block, with the entry before it below
   * unless the block is its last; and unknown only for a log that misses the first set.
   */
  method GetSetId(log: Log, n: nat) returns (answer: SetIdAnswer)
    ensures Increasing(log) ==> answer == ScanSetId(log, n)
    ensures answer == Latest <==> log != [] && log[|log| - 1].1 < n
    ensures answer.Set? ==>
              exists i :: && 0 <= i < |log| && log[i] == (answer.setId, answer.last) && n <= answer.last
                          && (i == 0 ==> answer.setId == 0) && (n == answer.last || i == 0 || log[i - 1].1 < n)
    ensures answer == Unknown ==> log == [] || log[0].0 != 0
  {
    if log != [] && log[|log| - 1].1 < n {
      if Increasing(log) { CountIs(log, n, |log|); }
      return Latest;
    }
    var search := BinarySearch(log, n);
    var at := search.at;
    if Increasing(log) { CountIs(log, n, at); }
    if at < |log| {
      if at == 0 && log[at].0 != 0 {
        return Unknown;
      }
      return Set(log[at].0, log[at].1);
    }
    return Unknown;
  }

  /** The end of the log from position `k` on, where a search for block `n` may stop. */
  predicate StopsAt(log: Log, n: nat, k: nat) {
    && k <= |log|
    && (k > 0 ==> log[k - 1].1 <= n)
    && (k < |log| && (k == 0 || log[k - 1].1 != n) ==> log[k].1 > n)
  }

  /** On an increasing log, the end found by a linear scan; on any log, an end where the search may stop. */
  method IterFrom(log: Log, n: nat) returns (later: Option<Log>)
    ensures Increasing(log) ==> later == ScanFrom(log, n)
    ensures later.Some? ==> exists k: nat :: StopsAt(log, n, k) && later.value == log[k..]
    ensures later.None? ==> log != [] && log[0].0 != 0 && log[0].1 > n
  {
    var search := BinarySearch(log, n);
    var at := if search.Found? then search.at + 1 else search.at;
    assert StopsAt(log, n, at);
    if Increasing(log) { CountIs(log, n + 1, at); }
    if at < |log| && at == 0 && log[at].0 != 0 {
      return None;
    }
    return Some(log[at..]);
  }

  /** Appending keeps the log increasing exactly when the new number is above the last one. */
  lemma AppendIncreasing(log: Log, entry: (nat, nat))
    ensures Increasing(log + [entry]) <==> Increasing(log) && (log != [] ==> log[|log| - 1].1 < entry.1)
  {
    var after := log + [entry];
    if Increasing(after) {
      assert forall i :: 0 <= i < |log| ==> after[i] == log[i];
      assert after[|log|] == entry;
      if log != [] { assert after[|log| - 1].1 < after[|log|].1; }
    }
  }
}
