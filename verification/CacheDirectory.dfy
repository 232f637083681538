/** The cache directory: listing, ranking, eviction and the retention pass (internal/cache/retention.go). */
module CacheDirectory {
  import opened Strings
  import opened Base64
  import opened Sums
  import opened CacheLedger
  import opened Contexts

  datatype Entry = Entry(key: Key, stat: Stat)

  /** The entries, in this order, are the directory `m`. */
  ghost predicate Lists(entries: seq<Entry>, m: map<Key, Stat>)
    decreases |entries|
  {
    if entries == [] then m == map[]
    else
      var e := entries[0];
      e.key in m && m[e.key] == e.stat && Lists(entries[1..], m - {e.key})
  }

  function TotalSize(entries: seq<Entry>): (n: nat)
    decreases |entries|
  {
    if entries == [] then 0 else entries[0].stat.size + TotalSize(entries[1..])
  }

  lemma {:induction false} ListsSum(entries: seq<Entry>, m: map<Key, Stat>)
    requires Lists(entries, m)
    ensures TotalSize(entries) == Sum(m, Size) && |entries| == Sum(m, One)
    decreases |entries|
  {
    if entries != [] {
      ListsSum(entries[1..], m - {entries[0].key});
      SumWithout(m, Size, entries[0].key);
      SumWithout(m, One, entries[0].key);
    }
  }

  lemma {:induction false} ListsOnly(entries: seq<Entry>, m: map<Key, Stat>, i: nat)
    requires Lists(entries, m) && i < |entries|
    ensures entries[i].key in m && m[entries[i].key] == entries[i].stat
    ensures forall j | i < j < |entries| :: entries[j].key != entries[i].key
    decreases |entries|
  {
    if i > 0 {
      ListsOnly(entries[1..], m - {entries[0].key}, i - 1);
      assert entries[i] == entries[1..][i - 1];
    } else {
      forall j | 0 < j < |entries| ensures entries[j].key != entries[0].key {
        ListsOnly(entries[1..], m - {entries[0].key}, j - 1);
      }
    }
  }

  lemma {:induction false} ListsAll(entries: seq<Entry>, m: map<Key, Stat>, k: Key)
    requires Lists(entries, m) && k in m
    ensures exists i :: 0 <= i < |entries| && entries[i].key == k
    decreases |entries|
  {
    if entries[0].key != k {
      ListsAll(entries[1..], m - {entries[0].key}, k);
      var i :| 0 <= i < |entries[1..]| && entries[1..][i].key == k;
      assert entries[i + 1].key == k;
    }
  }

  // ---- Ranking ------------------------------------------------------------------------------

  /** Colder first; equal times by key. */
  predicate Older(a: Entry, b: Entry) {
    a.stat.mtime < b.stat.mtime || (a.stat.mtime == b.stat.mtime && Before(a.key, b.key))
  }

  ghost predicate OldestFirst(entries: seq<Entry>)
    decreases |entries|
  {
    entries != [] ==> (forall i | 0 < i < |entries| :: Older(entries[0], entries[i])) && OldestFirst(entries[1..])
  }

  function Insert(e: Entry, entries: seq<Entry>): (r: seq<Entry>)
    decreases |entries|
  {
    if entries == [] || Older(e, entries[0]) then [e] + entries else [entries[0]] + Insert(e, entries[1..])
  }

  /** sortLocalEntriesOldestFirst: the one ranking of a set of entries with distinct keys. */
  function Ranked(entries: seq<Entry>): (r: seq<Entry>)
    decreases |entries|
  {
    if entries == [] then [] else Insert(entries[0], Ranked(entries[1..]))
  }

  lemma {:induction false} InsertLists(e: Entry, entries: seq<Entry>, m: map<Key, Stat>)
    requires e.key in m && m[e.key] == e.stat && Lists(entries, m - {e.key})
    ensures Lists(Insert(e, entries), m)
    decreases |entries|
  {
    if entries == [] || Older(e, entries[0]) {
      assert Insert(e, entries)[1..] == entries;
    } else {
      var f := entries[0];
      assert m - {e.key} - {f.key} == m - {f.key} - {e.key};
      InsertLists(e, entries[1..], m - {f.key});
      assert Insert(e, entries)[1..] == Insert(e, entries[1..]);
    }
  }

  lemma {:induction false} InsertMembers(e: Entry, entries: seq<Entry>, i: nat)
    requires i < |Insert(e, entries)|
    ensures Insert(e, entries)[i] == e || Insert(e, entries)[i] in entries
    decreases |entries|
  {
    if !(entries == [] || Older(e, entries[0])) && i > 0 {
      InsertMembers(e, entries[1..], i - 1);
      assert forall x | x in entries[1..] :: x in entries;
    }
  }

  lemma {:induction false} InsertRanks(e: Entry, entries: seq<Entry>)
    requires OldestFirst(entries) && forall i | 0 <= i < |entries| :: entries[i].key != e.key
    ensures OldestFirst(Insert(e, entries))
    decreases |entries|
  {
    if entries == [] {
    } else if Older(e, entries[0]) {
      assert Insert(e, entries)[1..] == entries;
      forall i | 0 <= i < |entries| ensures Older(e, entries[i]) {
        if i > 0 && e.stat.mtime == entries[i].stat.mtime {
          BeforeIsTransitive(e.key, entries[0].key, entries[i].key);
        }
      }
    } else {
      InsertRanks(e, entries[1..]);
      var rest := Insert(e, entries[1..]);
      assert Insert(e, entries)[1..] == rest;
      BeforeIsTotal(e.key, entries[0].key);
      forall i | 0 <= i < |rest| ensures Older(entries[0], rest[i]) {
        InsertMembers(e, entries[1..], i);
      }
    }
  }

  /** Ranking keeps the directory and puts colder entries first. */
  lemma {:induction false} RankedListing(entries: seq<Entry>, m: map<Key, Stat>)
    requires Lists(entries, m)
    ensures Lists(Ranked(entries), m) && OldestFirst(Ranked(entries))
    decreases |entries|
  {
    if entries != [] {
      var e := entries[0];
      var rest := Ranked(entries[1..]);
      RankedListing(entries[1..], m - {e.key});
      InsertLists(e, rest, m);
      forall i | 0 <= i < |rest| ensures rest[i].key != e.key {
        ListsOnly(rest, m - {e.key}, i);
      }
      InsertRanks(e, rest);
    }
  }

  lemma {:induction false} RankedPairs(entries: seq<Entry>, i: nat, j: nat)
    requires OldestFirst(entries) && i < j < |entries|
    ensures Older(entries[i], entries[j])
    decreases |entries|
  {
    if i > 0 {
      RankedPairs(entries[1..], i - 1, j - 1);
    }
  }

  /** In the ranking modification times do not decrease, and equal times come in key order. */
  lemma RankedByTime(entries: seq<Entry>, m: map<Key, Stat>, i: nat, j: nat)
    requires Lists(entries, m) && i < j < |Ranked(entries)|
    ensures var (a, b) := (Ranked(entries)[i], Ranked(entries)[j]);
            a.stat.mtime <= b.stat.mtime && (a.stat.mtime == b.stat.mtime ==> Before(a.key, b.key))
  {
    RankedListing(entries, m);
    RankedPairs(Ranked(entries), i, j);
  }

  lemma {:induction false} ListsDrop(a: seq<Entry>, b: seq<Entry>, m: map<Key, Stat>)
    requires b != [] && Lists(a + b, m)
    ensures Lists(a + b[1..], m - {b[0].key})
    ensures b[0].key in m && m[b[0].key] == b[0].stat
    decreases |a|
  {
    if a == [] {
      assert a + b == b && a + b[1..] == b[1..];
    } else {
      assert (a + b)[1..] == a[1..] + b && (a + b[1..])[1..] == a[1..] + b[1..];
      ListsDrop(a[1..], b, m - {a[0].key});
      assert m - {a[0].key} - {b[0].key} == m - {b[0].key} - {a[0].key};
    }
  }

  // ---- The directory ------------------------------------------------------------------------

  /** Counters of one pruning pass. */
  datatype PruneResult = PruneResult(entries: nat, bytes: nat, failed: nat, skipped: nat)

  /**
   The archives and temp files of one cache namespace. Its owner holds the
   namespace lock, so nobody else writes. `faults` counts the operations that went wrong; `blind`
   and `unseen` are what the last listing failed to show, and `stuck` the entries
   whose removal failed since it was last reset.
   */
  class Disk {
    var archives: map<Key, Stat>
    var temps: map<Path, nat>
    ghost var faults: nat
    ghost var blind: bool
    ghost var unseen: set<Key>
    ghost var stuck: set<Key>

    /** listLocalEntriesAt: an entry that cannot be measured is skipped. */
    method List() returns (r: Option<seq<Entry>>)
      modifies `faults, `blind, `unseen
      ensures faults >= old(faults) && blind == r.None?
      ensures r.Some? ==> Lists(r.value, archives - unseen)
      ensures faults == old(faults) ==> r.Some? && unseen == {}
    {
      blind, unseen := false, {};
      var unreadable: bool := *;
      if unreadable {
        faults, blind := faults + 1, true;
        return None;
      }
      var entries: seq<Entry> := [];
      var todo := archives;
      while todo != map[]
        invariant todo.Keys <= archives.Keys && forall k | k in todo :: todo[k] == archives[k]
        invariant !blind && unseen !! todo.Keys
        invariant Lists(entries, archives - unseen - todo.Keys)
        invariant faults >= old(faults) && (faults == old(faults) ==> unseen == {})
        decreases todo.Keys
      {
        var k :| k in todo;
        var unmeasurable: bool := *;
        if unmeasurable {
          faults := faults + 1;
          assert archives - (unseen + {k}) - (todo - {k}).Keys == archives - unseen - todo.Keys;
          unseen := unseen + {k};
        } else {
          var e := Entry(k, archives[k]);
          assert archives - unseen - (todo - {k}).Keys - {k} == archives - unseen - todo.Keys;
          assert ([e] + entries)[1..] == entries;
          entries := [e] + entries;
        }
        todo := todo - {k};
      }
      assert archives - unseen - todo.Keys == archives - unseen;
      r := Some(entries);
    }

    /** evictLocalEntry: re-check the entry, then remove it. */
    method Evict(e: Entry, res: PruneResult) returns (ok: bool, res': PruneResult)
      modifies `archives, `faults, `stuck
      ensures faults >= old(faults)
      ensures stuck >= old(stuck) && (!ok && e.key in old(archives) ==> e.key in stuck)
      ensures ok ==> faults == old(faults)
      ensures ok ==> && e.key in old(archives) && old(archives)[e.key] == e.stat
                     && archives == old(archives) - {e.key}
                     && res' == res.(entries := res.entries + 1, bytes := res.bytes + e.stat.size)
      ensures !ok ==> archives == old(archives)
      ensures !ok ==> res' == if faults > old(faults) then res.(failed := res.failed + 1) else res.(skipped := res.skipped + 1)
      ensures !ok && e.key in old(archives) && old(archives)[e.key] == e.stat ==> faults > old(faults)
    {
      if e.key !in archives {
        return false, res.(skipped := res.skipped + 1);
      }
      var statFails: bool := *;
      if statFails {
        faults, stuck := faults + 1, stuck + {e.key};
        return false, res.(failed := res.failed + 1);
      }
      if archives[e.key] != e.stat {
        stuck := stuck + {e.key};
        return false, res.(skipped := res.skipped + 1);
      }
      var removeFails: bool := *;
      if removeFails {
        faults, stuck := faults + 1, stuck + {e.key};
        return false, res.(failed := res.failed + 1);
      }
      archives := archives - {e.key};
      return true, res.(entries := res.entries + 1, bytes := res.bytes + e.stat.size);
    }

    /** removeCacheTemp; a file that is already gone counts as removed. */
    method RemoveTemp(path: Path) returns (ok: bool)
      modifies `temps, `faults
      ensures faults >= old(faults) && (!ok ==> faults > old(faults))
      ensures temps == if ok then old(temps) - {path} else old(temps)
    {
      var fails: bool := *;
      if fails {
        faults := faults + 1;
        return false;
      }
      temps := temps - {path};
      ok := true;
    }

    /** Any other operation that may fail. */
    method Attempt() returns (ok: bool)
      modifies `faults
      ensures faults >= old(faults) && (!ok ==> faults > old(faults))
    {
      ok := *;
      if !ok {
        faults := faults + 1;
      }
    }
  }

  // ---- The retention pass -------------------------------------------------------------------

  predicate Expired(policy: Policy, now: int, e: Entry) {
    policy.maxAge > 0 && now - e.stat.mtime > policy.maxAge
  }

  predicate OverCap(policy: Policy, e: Entry, i: nat, total: nat) {
    i > 0 && ((policy.maxBytes > 0 && total + e.stat.size > policy.maxBytes) ||
              (policy.maxEntries > 0 && i > policy.maxEntries - 1))
  }

  /** What the pass keeps of entries sorted newest first, when every removal succeeds. */
  function Survivors(policy: Policy, entries: seq<Entry>, i: nat, total: nat): (r: seq<Entry>)
    decreases |entries|
  {
    if entries == [] then []
    else if OverCap(policy, entries[0], i, total) then Survivors(policy, entries[1..], i + 1, total)
    else [entries[0]] + Survivors(policy, entries[1..], i + 1, total + entries[0].stat.size)
  }

  lemma {:induction false} SurvivorsFrom(policy: Policy, entries: seq<Entry>, last: Entry, i: nat, total: nat)
    ensures var kept := Survivors(policy, entries, i, total);
            var (n, sum) := (i + |entries|, total + TotalSize(kept));
            Survivors(policy, entries + [last], i, total) ==
            kept + (if n > 0 && ((policy.maxBytes > 0 && sum + last.stat.size > policy.maxBytes) ||
                                 (policy.maxEntries > 0 && n >= policy.maxEntries)) then [] else [last])
    decreases |entries|
  {
    if entries == [] {
      assert [last][1..] == [];
    } else {
      assert (entries + [last])[1..] == entries[1..] + [last] && (entries + [last])[0] == entries[0];
      var dropped := OverCap(policy, entries[0], i, total);
      var rest := Survivors(policy, entries[1..], i + 1, if dropped then total else total + entries[0].stat.size);
      SurvivorsFrom(policy, entries[1..], last, i + 1, if dropped then total else total + entries[0].stat.size);
      assert ([entries[0]] + rest)[1..] == rest;
    }
  }

  /**
   Which entries the pass keeps, the caps written out: the newest always; the one
   behind `newer` unless it would be one too many, counting every newer entry, or
   too large beside the newer ones that are kept.
   */
  lemma SurvivorsExactly(policy: Policy, newer: seq<Entry>, e: Entry)
    ensures var kept := Survivors(policy, newer, 0, 0);
            Survivors(policy, newer + [e], 0, 0) ==
            if && newer != []
               && (|| (policy.maxEntries > 0 && |newer| >= policy.maxEntries)
                   || (policy.maxBytes > 0 && TotalSize(kept) + e.stat.size > policy.maxBytes))
            then kept else kept + [e]
  {
    SurvivorsFrom(policy, newer, e, 0, 0);
  }

  /** Entries that meet both caps together all stay. */
  lemma {:induction false} WithinCapsAllSurvive(policy: Policy, entries: seq<Entry>, i: nat, total: nat)
    requires policy.maxBytes > 0 ==> total + TotalSize(entries) <= policy.maxBytes
    requires policy.maxEntries > 0 ==> i + |entries| <= policy.maxEntries
    ensures Survivors(policy, entries, i, total) == entries
    decreases |entries|
  {
    if entries != [] {
      WithinCapsAllSurvive(policy, entries[1..], i + 1, total + entries[0].stat.size);
      assert entries == [entries[0]] + entries[1..];
    }
  }

  predicate NewestFirst(entries: seq<Entry>) {
    forall i, j | 0 <= i < j < |entries| :: entries[i].stat.mtime >= entries[j].stat.mtime
  }

  lemma NewestFirstInsert(a: seq<Entry>, e: Entry, b: seq<Entry>)
    requires NewestFirst(a + b)
    requires forall i | 0 <= i < |a| :: a[i].stat.mtime >= e.stat.mtime
    requires forall i | 0 <= i < |b| :: b[i].stat.mtime <= e.stat.mtime
    ensures NewestFirst(a + ([e] + b))
  {
    var r := a + ([e] + b);
    forall i, j | 0 <= i < j < |r| ensures r[i].stat.mtime >= r[j].stat.mtime {
      if i < |a| < j {
        assert (a + b)[i] == r[i] && (a + b)[j - 1] == r[j];
      } else if j < |a| {
        assert (a + b)[i] == r[i] && (a + b)[j] == r[j];
      } else if i > |a| {
        assert (a + b)[i - 1] == r[i] && (a + b)[j - 1] == r[j];
      }
    }
  }

  /** One sort of the entries newest first; entries of equal age come in any order. */
  method SortNewestFirst(entries: seq<Entry>, ghost m: map<Key, Stat>) returns (r: seq<Entry>)
    requires Lists(entries, m)
    ensures Lists(r, m) && NewestFirst(r)
    decreases |entries|
  {
    if entries == [] {
      return [];
    }
    hide NewestFirst;
    var e := entries[0];
    var rest := SortNewestFirst(entries[1..], m - {e.key});
    var i := 0;
    while i < |rest| && rest[i].stat.mtime > e.stat.mtime
      invariant 0 <= i <= |rest|
      invariant forall j | 0 <= j < i :: rest[j].stat.mtime > e.stat.mtime
    {
      i := i + 1;
    }
    while i < |rest| && rest[i].stat.mtime == e.stat.mtime
      invariant 0 <= i <= |rest|
      invariant forall j | 0 <= j < i :: rest[j].stat.mtime >= e.stat.mtime
      invariant forall j | i <= j < |rest| :: rest[j].stat.mtime <= e.stat.mtime
    {
      var stop: bool := *;
      if stop {
        break;
      }
      i := i + 1;
    }
    assert rest[..i] + rest[i..] == rest;
    ListsInsert(rest[..i], e, rest[i..], m);
    NewestFirstInsert(rest[..i], e, rest[i..]);
    r := rest[..i] + ([e] + rest[i..]);
  }

  lemma {:induction false} ListsInsert(a: seq<Entry>, e: Entry, b: seq<Entry>, m: map<Key, Stat>)
    requires e.key in m && m[e.key] == e.stat && Lists(a + b, m - {e.key})
    ensures Lists(a + ([e] + b), m)
    decreases |a|
  {
    if a == [] {
      assert a + b == b && (a + ([e] + b))[1..] == b;
    } else {
      assert (a + b)[1..] == a[1..] + b && (a + ([e] + b))[1..] == a[1..] + ([e] + b);
      assert m - {e.key} - {a[0].key} == m - {a[0].key} - {e.key};
      ListsInsert(a[1..], e, b, m - {a[0].key});
    }
  }

  lemma {:induction false} TotalSizeAppend(a: seq<Entry>, e: Entry)
    ensures TotalSize(a + [e]) == TotalSize(a) + e.stat.size
    decreases |a|
  {
    if a == [] {
      assert a + [e] == [e];
    } else {
      TotalSizeAppend(a[1..], e);
      assert (a + [e])[1..] == a[1..] + [e];
    }
  }

  /** The expiry loop: what is removed leaves the accounting, what cannot be removed stays in it. */
  method Expire(ctx: Context, disk: Disk, policy: Policy, now: int, entries: seq<Entry>, ghost unseen: set<Key>)
    returns (kept: seq<Entry>, res: PruneResult, cancelled: bool)
    requires Lists(entries, disk.archives - unseen)
    modifies ctx, disk`archives, disk`faults, disk`stuck
    ensures Shrunk(old(disk.archives), disk.archives, res)
    ensures disk.faults >= old(disk.faults) && (cancelled ==> ctx.done)
    ensures !cancelled ==> Lists(kept, disk.archives - unseen)
    ensures forall k | k in old(disk.archives) && !Expired(policy, now, Entry(k, old(disk.archives)[k])) :: k in disk.archives
    ensures !cancelled && disk.faults == old(disk.faults) ==> forall i | 0 <= i < |kept| :: !Expired(policy, now, kept[i])
  {
    kept, res, cancelled := [], PruneResult(0, 0, 0, 0), false;
    var rest := entries;
    assert kept + rest == rest;
    while rest != []
      invariant Lists(kept + rest, disk.archives - unseen)
      invariant Shrunk(old(disk.archives), disk.archives, res)
      invariant disk.faults >= old(disk.faults)
      invariant forall k | k in old(disk.archives) && !Expired(policy, now, Entry(k, old(disk.archives)[k])) :: k in disk.archives
      invariant disk.faults == old(disk.faults) ==> forall i | 0 <= i < |kept| :: !Expired(policy, now, kept[i])
      decreases |rest|
    {
      var stop := ctx.Err();
      if stop {
        return kept, res, true;
      }
      var e := rest[0];
      ListsDrop(kept, rest, disk.archives - unseen);
      assert kept + rest == (kept + [e]) + rest[1..];
      assert disk.archives - unseen - {e.key} == disk.archives - {e.key} - unseen;
      var gone := false;
      if Expired(policy, now, e) {
        gone, res := EvictShrinks(disk, e, old(disk.archives), res);
      }
      if !gone {
        kept := kept + [e];
      }
      rest := rest[1..];
    }
    assert kept + rest == kept;
  }

  /** The directory lost exactly the entries and bytes the result reports. */
  ghost predicate Shrunk(before: map<Key, Stat>, after: map<Key, Stat>, res: PruneResult) {
    && (forall k | k in after :: k in before && before[k] == after[k])
    && Sum(after, Size) + res.bytes == Sum(before, Size)
    && Sum(after, One) + res.entries == Sum(before, One)
  }

  method EvictShrinks(disk: Disk, e: Entry, ghost before: map<Key, Stat>, res: PruneResult) returns (ok: bool, res': PruneResult)
    requires Shrunk(before, disk.archives, res)
    modifies disk`archives, disk`faults, disk`stuck
    ensures Shrunk(before, disk.archives, res')
    ensures disk.archives == if ok then old(disk.archives) - {e.key} else old(disk.archives)
    ensures disk.faults >= old(disk.faults) && disk.stuck >= old(disk.stuck) && (ok ==> disk.faults == old(disk.faults))
    ensures !ok && e.key in old(disk.archives) ==> e.key in disk.stuck
    ensures !ok && e.key in old(disk.archives) && old(disk.archives)[e.key] == e.stat ==> disk.faults > old(disk.faults)
  {
    ok, res' := disk.Evict(e, res);
    if ok {
      hide Sum;
      SumWithout(old(disk.archives), Size, e.key);
      SumWithout(old(disk.archives), One, e.key);
    }
  }

  /**
   Newest first, every entry that is left fits the caps together with everything
   newer that is left, unless it is the newest or could not be removed.
   */
  ghost predicate Judged(policy: Policy, alive: seq<Entry>, stuck: set<Key>) {
    forall m | 0 < m < |alive| && alive[m].key !in stuck ::
      && (policy.maxBytes > 0 ==> TotalSize(alive[..m + 1]) <= policy.maxBytes)
      && (policy.maxEntries > 0 ==> m + 1 <= policy.maxEntries)
  }

  lemma JudgedMore(policy: Policy, alive: seq<Entry>, stuck: set<Key>, stuck': set<Key>, e: Entry, i: nat)
    requires Judged(policy, alive, stuck) && stuck <= stuck' && |alive| <= i
    requires e.key in stuck' || !OverCap(policy, e, i, TotalSize(alive))
    ensures Judged(policy, alive + [e], stuck')
  {
    var more := alive + [e];
    TotalSizeAppend(alive, e);
    assert more[..|alive| + 1] == more;
    forall m | 0 < m < |more| && more[m].key !in stuck'
      ensures policy.maxBytes > 0 ==> TotalSize(more[..m + 1]) <= policy.maxBytes
      ensures policy.maxEntries > 0 ==> m + 1 <= policy.maxEntries
    {
      if m < |alive| {
        assert more[..m + 1] == alive[..m + 1];
      }
    }
  }

  /** The cap loop over entries sorted newest first. */
  method EvictOverCaps(ctx: Context, disk: Disk, policy: Policy, ranked: seq<Entry>, ghost unseen: set<Key>,
                       ghost before: map<Key, Stat>, res0: PruneResult)
    returns (res: PruneResult, cancelled: bool, ghost alive: seq<Entry>)
    requires Lists(ranked, disk.archives - unseen) && Shrunk(before, disk.archives, res0)
    modifies ctx, disk`archives, disk`faults, disk`stuck
    ensures Shrunk(before, disk.archives, res)
    ensures disk.faults >= old(disk.faults) && (cancelled ==> ctx.done)
    ensures !cancelled ==> Lists(alive, disk.archives - unseen) && Judged(policy, alive, disk.stuck)
    ensures !cancelled && disk.faults == old(disk.faults) ==> alive == Survivors(policy, ranked, 0, 0)
  {
    hide Sum, Judged, Shrunk, Lists, Passed;
    res, cancelled := res0, false;
    var k: nat, total: nat := 0, 0;
    alive := [];
    NothingJudged(policy, disk.stuck);
    PassStarts(policy, ranked, disk.archives - unseen);
    while k < |ranked|
      invariant 0 <= k <= |ranked| && |alive| <= k
      invariant Passed(policy, ranked, k, alive, total, disk.archives - unseen, disk.faults == old(disk.faults))
      invariant Shrunk(before, disk.archives, res) && Judged(policy, alive, disk.stuck)
      invariant disk.faults >= old(disk.faults)
      decreases |ranked| - k
    {
      var stop := ctx.Err();
      if stop {
        return res, true, alive;
      }
      var e := ranked[k];
      PassStep(policy, ranked, k, alive, total, disk.archives, unseen, disk.faults == old(disk.faults));
      var gone := false;
      ghost var stuck := disk.stuck;
      if OverCap(policy, e, k, total) {
        gone, res := EvictShrinks(disk, e, before, res);
      }
      if gone {
        JudgedWider(policy, alive, stuck, disk.stuck);
      } else {
        JudgedMore(policy, alive, stuck, disk.stuck, e, k);
        alive := alive + [e];
        total := total + e.stat.size;
      }
      k := k + 1;
    }
    PassEnds(policy, ranked, alive, total, disk.archives - unseen, disk.faults == old(disk.faults));
  }

  /** The cap loop before entry `k`: `alive` and the entries to come are what is there. */
  ghost predicate Passed(policy: Policy, ranked: seq<Entry>, k: nat, alive: seq<Entry>, total: nat, seen: map<Key, Stat>, clean: bool) {
    && k <= |ranked| && Lists(alive + ranked[k..], seen) && total == TotalSize(alive)
    && (clean ==> Survivors(policy, ranked, 0, 0) == alive + Survivors(policy, ranked[k..], k, total))
  }

  lemma PassStarts(policy: Policy, ranked: seq<Entry>, seen: map<Key, Stat>)
    requires Lists(ranked, seen)
    ensures Passed(policy, ranked, 0, [], 0, seen, true)
  {
    assert [] + ranked[0..] == ranked && ranked[0..] == ranked;
  }

  lemma PassStep(policy: Policy, ranked: seq<Entry>, k: nat, alive: seq<Entry>, total: nat, archives: map<Key, Stat>,
                 unseen: set<Key>, clean: bool)
    requires k < |ranked| && Passed(policy, ranked, k, alive, total, archives - unseen, clean)
    ensures var (e, over) := (ranked[k], OverCap(policy, ranked[k], k, total));
            && e.key in archives && archives[e.key] == e.stat
            && TotalSize(alive) == total
            && Passed(policy, ranked, k + 1, alive, total, archives - {e.key} - unseen, clean && over)
            && Passed(policy, ranked, k + 1, alive + [e], total + e.stat.size, archives - unseen, clean && !over)
  {
    var (e, rest) := (ranked[k], ranked[k..]);
    assert rest[0] == e && rest[1..] == ranked[k + 1..];
    ListsDrop(alive, rest, archives - unseen);
    assert archives - unseen - {e.key} == archives - {e.key} - unseen;
    assert alive + rest == (alive + [e]) + ranked[k + 1..];
    TotalSizeAppend(alive, e);
    if !OverCap(policy, e, k, total) {
      var more := Survivors(policy, ranked[k + 1..], k + 1, total + e.stat.size);
      assert alive + ([e] + more) == (alive + [e]) + more;
    }
  }

  lemma PassEnds(policy: Policy, ranked: seq<Entry>, alive: seq<Entry>, total: nat, seen: map<Key, Stat>, clean: bool)
    requires Passed(policy, ranked, |ranked|, alive, total, seen, clean)
    ensures Lists(alive, seen) && (clean ==> alive == Survivors(policy, ranked, 0, 0))
  {
    assert alive + ranked[|ranked|..] == alive && ranked[|ranked|..] == [];
    assert alive + [] == alive;
  }

  lemma JudgedWider(policy: Policy, alive: seq<Entry>, stuck: set<Key>, stuck': set<Key>)
    requires Judged(policy, alive, stuck) && stuck <= stuck'
    ensures Judged(policy, alive, stuck')
  {
  }

  lemma NothingJudged(policy: Policy, stuck: set<Key>)
    ensures Judged(policy, [], stuck)
  {
  }

  /**
   pruneLocalDir. The counters are what left the directory. Whatever could not be
   removed stays in the accounting of everything older. A pass that nothing
   disturbed leaves no expired entry and, of the others, what Survivors keeps.
   */
  method PruneLocalDir(ctx: Context, disk: Disk, policy: Policy, now: int)
    returns (res: PruneResult, completed: bool, ghost ranked: seq<Entry>, ghost alive: seq<Entry>)
    modifies ctx, disk
    ensures Shrunk(old(disk.archives), disk.archives, res)
    ensures disk.faults >= old(disk.faults) && (!completed ==> ctx.done || disk.faults > old(disk.faults))
    ensures completed ==> Lists(alive, disk.archives - disk.unseen) && Judged(policy, alive, disk.stuck)
    ensures completed && disk.faults == old(disk.faults) ==>
              && Lists(ranked, Unexpired(policy, now, old(disk.archives))) && NewestFirst(ranked)
              && alive == Survivors(policy, ranked, 0, 0) && disk.unseen == {}
  {
    hide Judged;
    ranked, alive := [], [];
    NothingShrunk(disk.archives);
    var listing := disk.List();
    ghost var unseen := disk.unseen;
    if listing.None? {
      return PruneResult(0, 0, 0, 0), false, ranked, alive;
    }
    var kept, res1, cancelled := Expire(ctx, disk, policy, now, listing.value, unseen);
    if cancelled {
      return res1, false, ranked, alive;
    }
    var order := SortNewestFirst(kept, disk.archives - unseen);
    ranked := order;
    if disk.faults == old(disk.faults) {
      OnlyUnexpiredLeft(policy, now, kept, old(disk.archives), disk.archives, unseen);
    }
    res, cancelled, alive := EvictOverCaps(ctx, disk, policy, order, unseen, old(disk.archives), res1);
    completed := !cancelled;
  }

  function Unexpired(policy: Policy, now: int, m: map<Key, Stat>): (r: map<Key, Stat>) {
    map k | k in m && !Expired(policy, now, Entry(k, m[k])) :: m[k]
  }

  /** An entry is unexpired unless there is an age limit and it is older than that. */
  lemma UnexpiredExactly(policy: Policy, now: int, m: map<Key, Stat>, k: Key)
    ensures k in Unexpired(policy, now, m) <==> k in m && (policy.maxAge <= 0 || now - m[k].mtime <= policy.maxAge)
    ensures k in Unexpired(policy, now, m) ==> Unexpired(policy, now, m)[k] == m[k]
  {
  }

  lemma OnlyUnexpiredLeft(policy: Policy, now: int, kept: seq<Entry>, before: map<Key, Stat>, after: map<Key, Stat>, unseen: set<Key>)
    requires Lists(kept, after - unseen) && unseen == {} && forall i | 0 <= i < |kept| :: !Expired(policy, now, kept[i])
    requires forall k | k in after :: k in before && before[k] == after[k]
    requires forall k | k in before && !Expired(policy, now, Entry(k, before[k])) :: k in after
    ensures after - unseen == Unexpired(policy, now, before)
  {
    assert after - unseen == after;
    forall k | k in after ensures !Expired(policy, now, Entry(k, after[k])) {
      ListsAll(kept, after, k);
      var j :| 0 <= j < |kept| && kept[j].key == k;
      ListsOnly(kept, after, j);
    }
  }

  lemma NothingShrunk(m: map<Key, Stat>)
    ensures Shrunk(m, m, PruneResult(0, 0, 0, 0))
  {
  }

  lemma {:induction false} SurvivorsMeetPolicy(policy: Policy, entries: seq<Entry>, i: nat, total: nat, kept: nat)
    requires policy.maxBytes > 0 && kept >= 1 ==> total <= policy.maxBytes || kept == 1
    requires kept <= i && (i > 0 ==> kept >= 1) && (policy.maxEntries > 0 ==> kept <= policy.maxEntries || kept == 1)
    ensures var r := Survivors(policy, entries, i, total);
            && (policy.maxBytes > 0 ==> total + TotalSize(r) <= policy.maxBytes || kept + |r| <= 1)
            && (policy.maxEntries > 0 ==> kept + |r| <= policy.maxEntries || kept + |r| <= 1)
    decreases |entries|
  {
    if entries != [] {
      if OverCap(policy, entries[0], i, total) {
        SurvivorsMeetPolicy(policy, entries[1..], i + 1, total, kept);
      } else {
        SurvivorsMeetPolicy(policy, entries[1..], i + 1, total + entries[0].stat.size, kept + 1);
        var r := Survivors(policy, entries, i, total);
        assert r[1..] == Survivors(policy, entries[1..], i + 1, total + entries[0].stat.size);
      }
    }
  }

  /** The pass meets the policy, except that the newest entry stays even when it alone is too big. */
  lemma PruneMeetsPolicy(policy: Policy, ranked: seq<Entry>)
    ensures var r := Survivors(policy, ranked, 0, 0);
            && (policy.maxBytes > 0 ==> TotalSize(r) <= policy.maxBytes || |r| <= 1)
            && (policy.maxEntries > 0 ==> |r| <= policy.maxEntries || |r| <= 1)
            && (ranked != [] ==> r != [] && r[0] == ranked[0])
  {
    SurvivorsMeetPolicy(policy, ranked, 0, 0, 0);
  }

  /** From the first entry that is over a cap on, no older entry fits into the room that is left. */
  ghost predicate NoLateFit(policy: Policy, entries: seq<Entry>, i: nat, total: nat)
    decreases |entries|
  {
    if entries == [] then true
    else if OverCap(policy, entries[0], i, total) then
      forall j | 0 <= j < |entries| :: OverCap(policy, entries[j], i + j, total)
    else NoLateFit(policy, entries[1..], i + 1, total + entries[0].stat.size)
  }

  lemma {:induction false} NothingSurvives(policy: Policy, entries: seq<Entry>, i: nat, total: nat)
    ensures Survivors(policy, entries, i, total) == [] <==>
            forall j | 0 <= j < |entries| :: OverCap(policy, entries[j], i + j, total)
    decreases |entries|
  {
    if entries != [] && OverCap(policy, entries[0], i, total) {
      NothingSurvives(policy, entries[1..], i + 1, total);
      assert forall j | 0 < j < |entries| :: entries[j] == entries[1..][j - 1];
      assert forall j | 0 <= j < |entries[1..]| ::
          OverCap(policy, entries[1..][j], i + 1 + j, total) ==> OverCap(policy, entries[j + 1], i + (j + 1), total);
    }
  }

  lemma {:induction false} SurvivorsAreEntries(policy: Policy, entries: seq<Entry>, i: nat, total: nat)
    ensures forall e | e in Survivors(policy, entries, i, total) :: e in entries
    decreases |entries|
  {
    if entries != [] {
      SurvivorsAreEntries(policy, entries[1..], i + 1, total);
      SurvivorsAreEntries(policy, entries[1..], i + 1, total + entries[0].stat.size);
    }
  }

  /**
   The pass evicts least recently used entries first exactly when, once an entry
   is over a cap, no older one is small enough to fit instead.
   */
  lemma {:induction false} EvictsOldestExactlyWhen(policy: Policy, entries: seq<Entry>, i: nat, total: nat)
    requires forall a, b | 0 <= a < b < |entries| :: entries[a] != entries[b]
    ensures Survivors(policy, entries, i, total) <= entries <==> NoLateFit(policy, entries, i, total)
    decreases |entries|
  {
    if entries != [] {
      var (e, rest) := (entries[0], entries[1..]);
      assert entries == [e] + rest;
      if OverCap(policy, e, i, total) {
        NothingSurvives(policy, entries, i, total);
        SurvivorsAreEntries(policy, rest, i + 1, total);
        var r := Survivors(policy, rest, i + 1, total);
        assert r != [] ==> r[0] in rest;
      } else {
        EvictsOldestExactlyWhen(policy, rest, i + 1, total + e.stat.size);
      }
    }
  }

  /** A newer entry can go while an older, smaller one stays. */
  lemma OldSmallEntryOutlivesNewer(a: Key, b: Key, c: Key)
    ensures var (x, y, z) := (Entry(a, Stat(5, 3)), Entry(b, Stat(10, 2)), Entry(c, Stat(2, 1)));
            NewestFirst([x, y, z]) && Survivors(Policy(8, 0, 0), [x, y, z], 0, 0) == [x, z]
  {
    var policy := Policy(8, 0, 0);
    var (x, y, z) := (Entry(a, Stat(5, 3)), Entry(b, Stat(10, 2)), Entry(c, Stat(2, 1)));
    assert [z][1..] == [] && [y, z][1..] == [z] && [x, y, z][1..] == [y, z];
    assert Survivors(policy, [z], 2, 5) == [z];
    assert Survivors(policy, [y, z], 1, 5) == [z];
  }
}
