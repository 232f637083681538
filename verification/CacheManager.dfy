/** Manager and Reservation (internal/cache/manager.go), each method a run of the ledger's steps. */
module CacheManager {
  import opened Strings
  import opened Base64
  import opened Sums
  import opened CacheLedger
  import opened CacheDirectory
  import opened Contexts

  datatype Phase = Open | PublishedPhase | ReleasedPhase | RetainedPhase
  datatype Refusal = ManagerClosed | Cancelled | ListFailed | OverBudget
  datatype Outcome = Admitted(r: Reservation) | Refused(why: Refusal)
  datatype Verdict = Fit | Exhausted | Stopped

  // ---- Shrinking the directory ----------------------------------------------------------------

  /** `victims` are exactly the entries that left the directory. */
  ghost predicate Removed(victims: seq<Entry>, before: map<Key, Stat>, after: map<Key, Stat>) {
    && (forall k | k in after :: k in before && before[k] == after[k])
    && (forall v | v in victims :: v.key in before && before[v.key] == v.stat && v.key !in after)
    && (forall k | k in before && k !in after :: Entry(k, before[k]) in victims)
  }

  /** Losing archives is a run of evictions. */
  lemma {:induction false} ShrinkingIsARun(policy: Policy, s: State, after: map<Key, Stat>) returns (steps: seq<Step>)
    requires forall k | k in after :: k in s.archives && s.archives[k] == after[k]
    ensures Run(policy, s, steps) && End(policy, s, steps) == s.(archives := after)
    ensures forall i | 0 <= i < |steps| :: steps[i].Evicted?
    decreases s.archives.Keys
  {
    if s.archives == after {
      steps := [];
    } else {
      var k :| k in s.archives && k !in after;
      var t := Apply(policy, s, Evicted(k));
      steps := ShrinkingIsARun(policy, t, after);
      assert ([Evicted(k)] + steps)[1..] == steps;
      steps := [Evicted(k)] + steps;
    }
  }

  /** So many temp files and bytes have gone. */
  ghost predicate Counted(before: map<Path, nat>, after: map<Path, nat>, files: nat, bytes: nat) {
    Sum(after, One) + files == Sum(before, One) && Sum(after, Charge) + bytes == Sum(before, Charge)
  }

  /** Temps only go, debt only grows, and what is new debt is a temp that stayed, at its size. */
  ghost predicate Reclaimed(temps: map<Path, nat>, pending: map<Path, nat>, temps': map<Path, nat>, pending': map<Path, nat>) {
    && (forall p | p in temps' :: p in temps && temps'[p] == temps[p])
    && (forall p | p in pending :: p in pending' && pending'[p] == pending[p])
    && (forall p | p in pending' && p !in pending :: p in temps' && pending'[p] == temps'[p])
  }

  /** Of the temps only those in `todo` are not yet dealt with. */
  ghost predicate Charged(temps: map<Path, nat>, pending: map<Path, nat>, before: map<Path, nat>, todo: map<Path, nat>) {
    && (forall p | p in todo :: p in temps && todo[p] == temps[p] && (p in pending ==> p in before))
    && (forall p | p in temps && p !in todo :: p in pending)
  }

  lemma NothingReclaimed(temps: map<Path, nat>, pending: map<Path, nat>)
    ensures Reclaimed(temps, pending, temps, pending) && Charged(temps, pending, pending, temps) && Counted(temps, temps, 0, 0)
  {
    hide Sum;
  }

  lemma AllCharged(temps: map<Path, nat>, pending: map<Path, nat>, before: map<Path, nat>)
    requires Charged(temps, pending, before, map[])
    ensures forall p | p in temps :: p in pending
  {
  }

  /** Dealing with one more temp: it is debt already, or it goes, or it becomes debt. */
  lemma ReclaimedMore(temps0: map<Path, nat>, pending0: map<Path, nat>, temps: map<Path, nat>, pending: map<Path, nat>,
                      todo: map<Path, nat>, path: Path, files: nat, bytes: nat)
    requires Reclaimed(temps0, pending0, temps, pending) && Charged(temps, pending, pending0, todo)
    requires path in todo && Counted(temps0, temps, files, bytes)
    ensures path in pending ==> Charged(temps, pending, pending0, todo - {path})
    ensures path !in pending ==>
              && Reclaimed(temps0, pending0, temps - {path}, pending) && Charged(temps - {path}, pending, pending0, todo - {path})
              && Counted(temps0, temps - {path}, files + 1, bytes + todo[path])
              && Reclaimed(temps0, pending0, temps, pending[path := todo[path]])
              && Charged(temps, pending[path := todo[path]], pending0, todo - {path})
  {
    hide Sum;
    SumWithout(temps, One, path);
    SumWithout(temps, Charge, path);
  }

  /** A negative request asks for nothing. */
  function Clamped(expected: int): nat {
    if expected < 0 then 0 else expected
  }

  /** The caps leave room for the charge next to everything in flight. */
  predicate Room(policy: Policy, inflight: int, count: int, charge: nat) {
    && (policy.maxBytes > 0 ==> charge <= policy.maxBytes && inflight + charge <= policy.maxBytes)
    && (policy.maxEntries > 0 ==> count + 1 <= policy.maxEntries)
  }

  class Reservation {
    const m: Manager?
    ghost const id: nat
    const n: nat
    var state: Phase

    constructor (m: Manager?, ghost id: nat, n: nat)
      ensures this.m == m && this.id == id && this.n == n && state == Open
    {
      this.m, this.id, this.n, state := m, id, n, Open;
    }

    /** Release returns an OPEN reservation's charge, once; afterwards it does nothing. */
    method Release() returns (ghost steps: seq<Step>)
      requires m != null ==> m.Valid() && m.Knows(this)
      modifies this`state, if m == null then {} else {m}
      ensures m == null ==> state == old(state)
      ensures m != null ==> m.Valid() && m.Performed(old(m.View()), steps) && m.issued == old(m.issued)
      ensures m != null ==> steps == (if old(state) == Open then [Released(id)] else [])
      ensures m != null ==> state == (if old(state) == Open then ReleasedPhase else old(state))
      ensures m != null ==>
                && m.inflight == old(m.inflight) - (if old(state) == Open then n else 0)
                && m.inflightCount == old(m.inflightCount) - (if old(state) == Open then 1 else 0)
                && m.pendingTemps == old(m.pendingTemps) && m.closed == old(m.closed) && m.locked == old(m.locked)
    {
      steps := [];
      if m == null {
        return;
      }
      if state == Open {
        steps := [Released(id)];
        m.inflight := m.inflight - n;
        m.inflightCount := m.inflightCount - 1;
        state := ReleasedPhase;
        m.OneStep(old(m.View()), steps[0]);
      }
    }
  }

  class Manager {
    const disk: Disk
    const policy: Policy
    var inflight: int
    var inflightCount: int
    var pendingTemps: map<Path, nat>
    var closed: bool
    var locked: bool
    ghost var issued: seq<Reservation>

    ghost predicate Valid()
      reads `issued
    {
      forall i | 0 <= i < |issued| :: issued[i].id == i && issued[i].m == this
    }

    ghost predicate Knows(r: Reservation)
      reads `issued
    {
      r.id < |issued| && issued[r.id] == r
    }

    ghost function OpenCharges(): (r: map<nat, nat>)
      reads `issued, issued`state
    {
      map i | 0 <= i < |issued| && issued[i].state == Open :: issued[i].n
    }

    /** The ledger this manager stands for. */
    ghost function View(): (s: State)
      reads `issued, `pendingTemps, `inflight, `inflightCount, issued`state, disk`archives
    {
      State(disk.archives, OpenCharges(), |issued|, pendingTemps, inflight, inflightCount)
    }

    /** The steps lead from `before` to the present state. */
    ghost predicate Performed(before: State, steps: seq<Step>)
      reads `issued, `pendingTemps, `inflight, `inflightCount, issued`state, disk`archives
    {
      Run(policy, before, steps) && End(policy, before, steps) == View()
    }

    lemma OneStep(before: State, step: Step)
      requires Enabled(policy, before, step) && Apply(policy, before, step) == View()
      ensures Performed(before, [step])
    {
      assert [step][1..] == [];
    }

    constructor (disk: Disk, policy: Policy)
      ensures this.disk == disk && this.policy == policy && issued == [] && !closed && locked
      ensures inflight == 0 && inflightCount == 0 && pendingTemps == map[]
    {
      this.disk, this.policy := disk, policy;
      inflight, inflightCount, pendingTemps, issued, closed, locked := 0, 0, map[], [], false, true;
    }

    /** One abandoned file: removed, or charged at its size. */
    method ReclaimTemp(path: Path, size: nat) returns (removed: bool)
      requires path !in pendingTemps
      modifies `inflight, `inflightCount, `pendingTemps, disk`temps, disk`faults
      ensures disk.faults >= old(disk.faults) && (!removed ==> disk.faults > old(disk.faults))
      ensures if removed then disk.temps == old(disk.temps) - {path} && pendingTemps == old(pendingTemps)
              else disk.temps == old(disk.temps) && pendingTemps == old(pendingTemps)[path := size]
      ensures Drift(View()) == old(Drift(View())) && CountDrift(View()) == old(CountDrift(View()))
    {
      hide Sum;
      removed := disk.RemoveTemp(path);
      if removed {
        return;
      }
      SumAdded(pendingTemps, Charge, path, size);
      SumAdded(pendingTemps, One, path, size);
      pendingTemps := pendingTemps[path := size];
      inflight := inflight + size;
      inflightCount := inflightCount + 1;
    }

    /**
     ReclaimAbandonedTemps over the owned temp files that are there. One that
     cannot be removed is charged; one that cannot be measured fails the scan, and
     so does a directory that cannot be read. When the scan is complete, every file
     that is left is charged. The counts are those of the files removed.
     */
    method ReclaimAbandonedTemps(ctx: Context) returns (measured: bool, files: nat, bytes: nat)
      requires Valid()
      modifies ctx, `inflight, `inflightCount, `pendingTemps, disk`temps, disk`faults
      ensures Drift(View()) == old(Drift(View())) && CountDrift(View()) == old(CountDrift(View()))
      ensures Reclaimed(old(disk.temps), old(pendingTemps), disk.temps, pendingTemps)
      ensures measured ==> forall p | p in disk.temps :: p in pendingTemps
      ensures Counted(old(disk.temps), disk.temps, files, bytes)
      ensures disk.faults >= old(disk.faults) && (!measured ==> closed || ctx.done || disk.faults > old(disk.faults))
      ensures ctx.background ==> ctx.done == old(ctx.done)
      ensures closed ==> !measured && disk.temps == old(disk.temps) && pendingTemps == old(pendingTemps)
    {
      hide Drift, CountDrift, Sum, Reclaimed, Charged, Counted;
      measured, files, bytes := false, 0, 0;
      NothingReclaimed(disk.temps, pendingTemps);
      if closed {
        return;
      }
      measured := disk.Attempt();
      if !measured {
        return;
      }
      var todo := disk.temps;
      while todo != map[]
        invariant Drift(View()) == old(Drift(View())) && CountDrift(View()) == old(CountDrift(View()))
        invariant Reclaimed(old(disk.temps), old(pendingTemps), disk.temps, pendingTemps)
        invariant Charged(disk.temps, pendingTemps, old(pendingTemps), todo)
        invariant Counted(old(disk.temps), disk.temps, files, bytes)
        invariant disk.faults >= old(disk.faults) && measured && (ctx.background ==> ctx.done == old(ctx.done))
        decreases todo.Keys
      {
        var stop := ctx.Err();
        if stop {
          return false, files, bytes;
        }
        var path :| path in todo;
        measured := disk.Attempt();
        if !measured {
          return;
        }
        ReclaimedMore(old(disk.temps), old(pendingTemps), disk.temps, pendingTemps, todo, path, files, bytes);
        if path !in pendingTemps {
          var removed := ReclaimTemp(path, todo[path]);
          files, bytes := if removed then files + 1 else files, if removed then bytes + todo[path] else bytes;
        }
        todo := todo - {path};
      }
      AllCharged(disk.temps, pendingTemps, old(pendingTemps));
    }

    /**
     NewManager: own the namespace, then reclaim. A manager starts with a balanced
     ledger in which every temp file left behind is charged; there is none only if
     the namespace is owned elsewhere, or the directory or a temp could not be read.
     */
    static method NewManager(disk: Disk, policy: Policy, ownedElsewhere: bool) returns (m: Manager?)
      modifies disk`temps, disk`faults
      ensures m == null ==> ownedElsewhere || disk.faults > old(disk.faults)
      ensures m != null ==>
                && fresh(m) && m.disk == disk && m.policy == policy && m.Valid() && m.issued == [] && !m.closed
                && Numbered(m.View()) && Conserved(m.View()) && m.pendingTemps == disk.temps
    {
      if ownedElsewhere {
        return null;
      }
      m := new Manager(disk, policy);
      assert Drift(m.View()) == 0 && CountDrift(m.View()) == 0;
      var background := new Context(true);
      var measured, files, bytes := m.ReclaimAbandonedTemps(background);
      if !measured {
        return null;
      }
    }

    /** RetainTempCleanup: an OPEN reservation becomes cleanup debt of the same charge. */
    method RetainTempCleanup(res: Reservation?, path: Path) returns (ok: bool, ghost steps: seq<Step>)
      requires Valid() && (res != null && res.m == this ==> Knows(res))
      modifies `pendingTemps, if res == null then {} else {res}
      ensures Valid() && Performed(old(View()), steps)
      ensures ok <==> path != [] && !closed && res != null && res.m == this && old(res.state) == Open
      ensures steps == if ok then [Retained(res.id, path)] else []
      ensures ok ==> res.state == RetainedPhase
      ensures pendingTemps == if ok then old(pendingTemps)[path := res.n] else old(pendingTemps)
    {
      steps := [];
      if res == null || path == [] || closed || res.m != this || res.state != Open {
        return false, steps;
      }
      steps := [Retained(res.id, path)];
      res.state := RetainedPhase;
      pendingTemps := pendingTemps[path := res.n];
      OneStep(old(View()), steps[0]);
      ok := true;
    }

    lemma NoSteps()
      ensures Performed(View(), [])
    {
    }

    lemma Extend(before: State, steps: seq<Step>, middle: State, step: Step)
      requires Run(policy, before, steps) && End(policy, before, steps) == middle
      requires Enabled(policy, middle, step) && Apply(policy, middle, step) == View()
      ensures Performed(before, steps + [step])
    {
      RunExtend(policy, before, steps, step);
    }

    /** One pending file: removed, its charge is returned; else nothing changes. */
    method RetryTemp(path: Path) returns (ok: bool)
      requires path in pendingTemps
      modifies `inflight, `inflightCount, `pendingTemps, disk`temps, disk`faults
      ensures disk.faults >= old(disk.faults) && (!ok ==> disk.faults > old(disk.faults))
      ensures disk.temps == if ok then old(disk.temps) - {path} else old(disk.temps)
      ensures pendingTemps == if ok then old(pendingTemps) - {path} else old(pendingTemps)
      ensures !ok ==> View() == old(View())
      ensures ok ==> Enabled(policy, old(View()), Cleaned(path)) && View() == Apply(policy, old(View()), Cleaned(path))
    {
      ok := disk.RemoveTemp(path);
      if ok {
        inflight := inflight - pendingTemps[path];
        pendingTemps := pendingTemps - {path};
        inflightCount := inflightCount - 1;
      }
    }

    method RetryTempCleanupLocked(ctx: Context) returns (removed: nat, ghost steps: seq<Step>)
      requires Valid()
      modifies ctx, `inflight, `inflightCount, `pendingTemps, disk`temps, disk`faults
      ensures Valid() && Performed(old(View()), steps)
      ensures removed == |steps| && forall i | 0 <= i < |steps| :: steps[i].Cleaned?
      ensures forall p | p in old(pendingTemps) && p !in pendingTemps :: p !in disk.temps
      ensures disk.faults == old(disk.faults) && !ctx.done ==> pendingTemps == map[]
      ensures ctx.background ==> ctx.done == old(ctx.done)
      ensures disk.faults >= old(disk.faults)
    {
      hide Run, End, Enabled, Apply;
      removed, steps := 0, [];
      NoSteps();
      var todo := pendingTemps;
      while todo != map[]
        invariant forall p | p in todo :: p in pendingTemps && pendingTemps[p] == todo[p]
        invariant Performed(old(View()), steps)
        invariant removed == |steps| && forall i | 0 <= i < |steps| :: steps[i].Cleaned?
        invariant forall p | p in pendingTemps :: p in old(pendingTemps)
        invariant forall p | p in old(pendingTemps) && p !in pendingTemps :: p !in disk.temps
        invariant disk.faults >= old(disk.faults) && ctx.done == old(ctx.done)
        invariant disk.faults == old(disk.faults) ==> pendingTemps == todo
        decreases todo.Keys
      {
        var path :| path in todo;
        var stop := ctx.Err();
        if stop {
          return;
        }
        ghost var before := View();
        var ok := RetryTemp(path);
        if ok {
          Extend(old(View()), steps, before, Cleaned(path));
          steps := steps + [Cleaned(path)];
          removed := removed + 1;
        }
        todo := todo - {path};
      }
    }

    /** RetryTempCleanup: every file that could be removed returns its charge, all of them when nothing goes wrong. */
    method RetryTempCleanup(ctx: Context) returns (removed: nat, ghost steps: seq<Step>)
      requires Valid()
      modifies ctx, `inflight, `inflightCount, `pendingTemps, disk`temps, disk`faults
      ensures Valid() && Performed(old(View()), steps)
      ensures closed ==> steps == []
      ensures removed == |steps| && forall i | 0 <= i < |steps| :: steps[i].Cleaned?
      ensures forall p | p in old(pendingTemps) && p !in pendingTemps :: p !in disk.temps
      ensures !closed && disk.faults == old(disk.faults) && !ctx.done ==> pendingTemps == map[]
    {
      if closed {
        return 0, [];
      }
      removed, steps := RetryTempCleanupLocked(ctx);
    }

    /** Close is idempotent, and a failed release of the lock can be retried. */
    method Close() returns (ok: bool, ghost steps: seq<Step>)
      requires Valid()
      modifies this, disk`temps, disk`faults
      ensures Valid() && Performed(old(View()), steps) && issued == old(issued)
      ensures closed && (ok <==> !locked)
      ensures old(closed) && !old(locked) ==> ok && steps == []
      ensures forall i | 0 <= i < |steps| :: steps[i].Cleaned?
      ensures !ok ==> disk.faults > old(disk.faults)
      ensures !(old(closed) && !old(locked)) && disk.faults == old(disk.faults) ==> pendingTemps == map[]
    {
      hide Run, End, Enabled, Apply;
      NoSteps();
      if closed && !locked {
        return true, [];
      }
      closed := true;
      var removed;
      var background := new Context(true);
      removed, steps := RetryTempCleanupLocked(background);
      if !locked {
        return true, steps;
      }
      ok := disk.Attempt();
      if ok {
        locked := false;
      }
    }

    /**
     Publish with a callback that stores `stat` under `key` or fails and stores
     nothing. A reservation that is not this manager's or not OPEN is refused
     before the callback runs.
     */
    method Publish(res: Reservation?, key: Key, stat: Stat) returns (ok: bool, ghost steps: seq<Step>)
      requires Valid() && (res != null && res.m == this ==> Knows(res))
      requires res != null && res.m == this && policy.Active() ==> stat.size <= res.n
      modifies `inflight, `inflightCount, disk`archives, disk`faults, if res == null then {} else {res}
      ensures Valid() && Performed(old(View()), steps)
      ensures ok ==> !closed && res != null && res.m == this && old(res.state) == Open && res.state == PublishedPhase
      ensures !ok && disk.faults == old(disk.faults) ==> closed || res == null || res.m != this || old(res.state) != Open
      ensures steps == if ok then [Published(res.id, key, stat)] else []
      ensures disk.archives == if ok then old(disk.archives)[key := stat] else old(disk.archives)
      ensures ok ==> inflight == old(inflight) - res.n && inflightCount == old(inflightCount) - 1
    {
      hide Run, End;
      NoSteps();
      steps := [];
      if closed || res == null || res.m != this || res.state != Open {
        return false, steps;
      }
      var stored := disk.Attempt();
      if !stored {
        return false, steps;
      }
      steps := [Published(res.id, key, stat)];
      disk.archives := disk.archives[key := stat];
      inflight := inflight - res.n;
      inflightCount := inflightCount - 1;
      res.state := PublishedPhase;
      OneStep(old(View()), steps[0]);
      ok := true;
    }

    /** Prune: a retention pass only ever removes archives, and leaves what the policy says. */
    method Prune(ctx: Context, now: int)
      returns (res: PruneResult, completed: bool, ghost steps: seq<Step>, ghost ranked: seq<Entry>, ghost alive: seq<Entry>)
      requires Valid()
      modifies ctx, disk
      ensures Valid() && Performed(old(View()), steps)
      ensures closed ==> steps == [] && !completed
      ensures Shrunk(old(disk.archives), disk.archives, res) && forall i | 0 <= i < |steps| :: steps[i].Evicted?
      ensures disk.faults >= old(disk.faults) && (!completed ==> closed || ctx.done || disk.faults > old(disk.faults))
      ensures completed ==> Lists(alive, disk.archives - disk.unseen) && Judged(policy, alive, disk.stuck)
      ensures completed && disk.faults == old(disk.faults) ==>
                && Lists(ranked, Unexpired(policy, now, old(disk.archives))) && NewestFirst(ranked)
                && alive == Survivors(policy, ranked, 0, 0) && disk.unseen == {}
    {
      if closed {
        return PruneResult(0, 0, 0, 0), false, [], [], [];
      }
      res, completed, ranked, alive := PruneLocalDir(ctx, disk, policy, now);
      steps := ShrinkingIsARun(policy, old(View()), disk.archives);
    }

    /** evictAnyOldestLocked: re-list and remove the coldest entry that can be removed. */
    method EvictAnyOldest() returns (evicted: bool, ghost victim: Entry)
      modifies disk
      ensures disk.faults >= old(disk.faults)
      ensures evicted ==> Removed([victim], old(disk.archives), disk.archives)
      ensures evicted ==> NoneColder(victim, disk.archives, disk.stuck + disk.unseen)
      ensures evicted ==>
                forall k | k in disk.archives && disk.archives[k].mtime < victim.stat.mtime :: k in disk.stuck || k in disk.unseen
      ensures !evicted ==> disk.archives == old(disk.archives)
      ensures !evicted ==> disk.blind || forall k | k in disk.archives :: k in disk.stuck || k in disk.unseen
      ensures !evicted && disk.faults == old(disk.faults) ==> disk.archives == map[]
    {
      victim := Entry([], Stat(0, 0));
      var listing := disk.List();
      if listing.None? {
        return false, victim;
      }
      hide Lists, OldestFirst, NoneColder, Ranked;
      var entries := Ranked(listing.value);
      RankedListing(listing.value, disk.archives - disk.unseen);
      disk.stuck := {};
      var res := PruneResult(0, 0, 0, 0);
      var i := 0;
      while i < |entries|
        invariant 0 <= i <= |entries|
        invariant disk.archives == old(disk.archives) && !disk.blind
        invariant Lists(entries, disk.archives - disk.unseen) && OldestFirst(entries)
        invariant disk.faults >= old(disk.faults) && (disk.faults == old(disk.faults) ==> i == 0 && disk.unseen == {})
        invariant forall j | 0 <= j < i :: entries[j].key in disk.stuck
      {
        ListsOnly(entries, disk.archives - disk.unseen, i);
        victim := entries[i];
        OlderAreTried(entries, disk.archives, disk.unseen, disk.stuck, i);
        evicted, res := disk.Evict(entries[i], res);
        if evicted {
          NoneOlder(victim, disk.archives, disk.stuck + disk.unseen);
          return true, victim;
        }
        i := i + 1;
      }
      forall k | k in disk.archives && k !in disk.unseen ensures k in disk.stuck {
        ListsAll(entries, disk.archives - disk.unseen, k);
      }
      evicted := false;
    }

    ghost predicate FitsNow(archives: map<Key, Stat>, unseen: set<Key>, charge: nat)
      reads `inflight, `inflightCount
    {
      FitsBeside(policy, archives - unseen, inflight, inflightCount, charge)
    }

    /** As long as any of the victims was there the charge did not fit. */
    ghost predicate NeededAll(victims: seq<Entry>, before: map<Key, Stat>, unseen: set<Key>, charge: nat)
      reads `inflight, `inflightCount
    {
      forall j | 0 <= j < |victims| :: !FitsNow(before - KeysOf(victims[..j]), unseen, charge)
    }

    /**
     What is known after `i` entries of the ranking have been tried: the ones that
     could not be removed and the ones not tried yet are what is left of the scan.
     While nothing went wrong, the victims are the entries tried.
     */
    ghost predicate Drained(ranked: seq<Entry>, i: nat, failed: seq<Entry>, victims: seq<Entry>, before: map<Key, Stat>,
                            archives: map<Key, Stat>, unseen: set<Key>, charge: nat, clean: bool)
      reads `inflight, `inflightCount
    {
      && i <= |ranked| && Lists(failed + ranked[i..], archives - unseen) && Removed(victims, before, archives)
      && (clean ==> failed == [] && victims == ranked[..i] && NeededAll(victims, before, unseen, charge))
    }

    /**
     The inner loop of Reserve: remove entries in ranked order until the charge
     fits. Entries that cannot be removed stay in the accounting.
     */
    method Drain(ctx: Context, charge: nat, ranked: seq<Entry>, ghost unseen: set<Key>) returns (v: Verdict, ghost victims: seq<Entry>)
      requires Lists(ranked, disk.archives - unseen)
      modifies ctx, disk`archives, disk`faults, disk`stuck
      ensures Removed(victims, old(disk.archives), disk.archives) && disk.faults >= old(disk.faults)
      ensures v.Stopped? ==> ctx.done
      ensures v.Fit? ==> FitsNow(disk.archives, unseen, charge)
      ensures v.Exhausted? ==> !FitsNow(disk.archives, unseen, charge)
      ensures disk.faults == old(disk.faults) ==>
                && victims <= ranked && Lists(ranked[|victims|..], disk.archives - unseen)
                && NeededAll(victims, old(disk.archives), unseen, charge)
                && (v.Exhausted? ==> victims == ranked)
    {
      var i, used, n := 0, TotalSize(ranked), |ranked|;
      ListsSum(ranked, disk.archives - unseen);
      victims := [];
      ghost var failed: seq<Entry> := [];
      assert failed + ranked[i..] == ranked;
      NothingRemoved(disk.archives);
      hide Sum, Removed, Lists, FitsBeside, NeededAll;
      while true
        invariant Drained(ranked, i, failed, victims, old(disk.archives), disk.archives, unseen, charge, disk.faults == old(disk.faults))
        invariant used == Sum(disk.archives - unseen, Size) && n == Sum(disk.archives - unseen, One)
        invariant disk.faults >= old(disk.faults)
        decreases |ranked| - i
      {
        var overBytes := policy.maxBytes > 0 && used + inflight + charge > policy.maxBytes;
        var overEntries := policy.maxEntries > 0 && n + inflightCount + 1 > policy.maxEntries;
        Measured(disk.archives - unseen, inflight, inflightCount, charge, used, n);
        assert failed == [] ==> failed + ranked[i..] == ranked[i..];
        if !overBytes && !overEntries {
          return Fit, victims;
        }
        if i == |ranked| {
          return Exhausted, victims;
        }
        var stop := ctx.Err();
        if stop {
          return Stopped, victims;
        }
        hide Drained;
        var ok;
        ok, failed, victims := EvictNext(ranked, i, failed, victims, old(disk.archives), unseen, charge, disk.faults == old(disk.faults));
        if ok {
          used, n := used - ranked[i].stat.size, n - 1;
        }
        i := i + 1;
      }
    }

    /** One round of the inner loop. */
    method EvictNext(ranked: seq<Entry>, i: nat, ghost failed: seq<Entry>, ghost victims: seq<Entry>, ghost before: map<Key, Stat>,
                     ghost unseen: set<Key>, ghost charge: nat, ghost clean: bool)
      returns (ok: bool, ghost failed': seq<Entry>, ghost victims': seq<Entry>)
      requires i < |ranked| && Drained(ranked, i, failed, victims, before, disk.archives, unseen, charge, clean)
      requires !FitsNow(disk.archives, unseen, charge)
      modifies disk`archives, disk`faults, disk`stuck
      ensures disk.faults >= old(disk.faults)
      ensures Drained(ranked, i + 1, failed', victims', before, disk.archives, unseen, charge, clean && disk.faults == old(disk.faults))
      ensures !ok ==> disk.archives == old(disk.archives)
      ensures ok ==>
                && Sum(old(disk.archives) - unseen, Size) == Sum(disk.archives - unseen, Size) + ranked[i].stat.size
                && Sum(old(disk.archives) - unseen, One) == Sum(disk.archives - unseen, One) + 1
    {
      hide Sum, Lists, FitsBeside;
      var e := ranked[i];
      ghost var rest := ranked[i..];
      assert rest[1..] == ranked[i + 1..] && ranked[..i] + [e] == ranked[..i + 1];
      ListsDrop(failed, rest, disk.archives - unseen);
      var res;
      ok, res := disk.Evict(e, PruneResult(0, 0, 0, 0));
      if ok {
        DropSeen(old(disk.archives), unseen, e.key);
        RemovedIs(victims, before, old(disk.archives));
        assert forall j | 0 <= j <= |victims| :: (victims + [e])[..j] == victims[..j];
        failed', victims' := failed, victims + [e];
      } else {
        assert failed + rest == failed + [e] + ranked[i + 1..];
        failed', victims' := failed + [e], victims;
      }
    }

    lemma FitsMeansRoom(seen: map<Key, Stat>, inflight: int, count: int, charge: nat)
      requires policy.maxBytes > 0 ==> charge <= policy.maxBytes
      ensures FitsBeside(policy, seen, inflight, count, charge) ==> Room(policy, inflight, count, charge)
      ensures seen == map[] && Room(policy, inflight, count, charge) ==> FitsBeside(policy, seen, inflight, count, charge)
    {
    }

    lemma Measured(seen: map<Key, Stat>, inflight: int, count: int, charge: nat, used: nat, n: nat)
      requires used == Sum(seen, Size) && n == Sum(seen, One)
      ensures FitsBeside(policy, seen, inflight, count, charge) <==>
              && !(policy.maxBytes > 0 && used + inflight + charge > policy.maxBytes)
              && !(policy.maxEntries > 0 && n + count + 1 > policy.maxEntries)
    {
    }

    /** A round in which nothing went wrong. */
    lemma CleanRound(ranked: seq<Entry>, victims: seq<Entry>, before: map<Key, Stat>, unseen: set<Key>, charge: nat)
      requires OldestFirst(ranked) && victims <= ranked && unseen == {} && Lists(ranked[|victims|..], disk.archives - unseen)
      requires Removed(victims, before, disk.archives) && NeededAll(victims, before, unseen, charge)
      ensures FitsNow(disk.archives, unseen, charge) ==> ShortestPrefix(policy, before, victims, inflight, inflightCount, charge)
      ensures victims == ranked ==> disk.archives == map[]
    {
      hide FitsBeside, Removed, OldestFirst, ColdestGone, Lists;
      assert forall m: map<Key, Stat> :: m - unseen == m;
      ColderThanTheRest(ranked, victims, disk.archives);
      NothingListed(ranked[|victims|..], disk.archives);
      RemovedIs(victims, before, disk.archives);
    }

    /** Hand out a reservation: counted under an active policy, uncounted and without charge otherwise. */
    method HandOut(charge: nat, ghost hidden: set<Key>) returns (r: Reservation, ghost step: Step)
      requires Valid() && (policy.Active() ==> FitsNow(disk.archives, hidden, charge))
      modifies `inflight, `inflightCount, `issued
      ensures Valid() && fresh(r) && issued == old(issued) + [r]
      ensures r.state == Open && r.m == this && r.id == |old(issued)| && r.n == if policy.Active() then charge else 0
      ensures step == if policy.Active() then Granted(charge, hidden) else Issued
      ensures inflight == old(inflight) + r.n && inflightCount == old(inflightCount) + (if policy.Active() then 1 else 0)
      ensures Enabled(policy, old(View()), step) && View() == Apply(policy, old(View()), step)
    {
      hide FitsBeside;
      if policy.Active() {
        r := new Reservation(this, |issued|, charge);
        step := Granted(charge, hidden);
        inflight := inflight + charge;
        inflightCount := inflightCount + 1;
      } else {
        r := new Reservation(this, |issued|, 0);
        step := Issued;
      }
      issued := issued + [r];
      assert forall i | 0 <= i < |old(issued)| :: issued[i] == old(issued)[i] && issued[i].state == old(issued[i].state);
    }

    /** Reserve's outer loop: list, rank and drain until the charge fits or nothing can be removed. */
    method MakeRoom(ctx: Context, charge: nat) returns (why: Option<Refusal>, ghost victims: seq<Entry>, ghost hidden: set<Key>)
      modifies ctx, disk
      ensures why == Some(Cancelled) ==> ctx.done
      ensures Removed(victims, old(disk.archives), disk.archives) && disk.faults >= old(disk.faults)
      ensures why in {None, Some(Cancelled), Some(ListFailed), Some(OverBudget)}
      ensures why.None? ==> FitsNow(disk.archives, hidden, charge)
      ensures why == Some(OverBudget) ==>
                && !FitsNow(disk.archives, hidden, charge)
                && (disk.blind || forall k | k in disk.archives :: k in disk.stuck || k in disk.unseen)
      ensures disk.faults == old(disk.faults) ==>
                && hidden == {} && why != Some(ListFailed)
                && (why == Some(OverBudget) ==> disk.archives == map[])
                && (why.None? ==> ShortestPrefix(policy, old(disk.archives), victims, inflight, inflightCount, charge))
    {
      victims, hidden := [], {};
      NothingRemoved(disk.archives);
      hide FitsBeside, Lists, OldestFirst, Removed, ShortestPrefix, NeededAll, NoneColder;
      while true
        invariant Removed(victims, old(disk.archives), disk.archives) && disk.faults >= old(disk.faults)
        invariant disk.faults == old(disk.faults) ==> victims == [] && hidden == {} && disk.archives == old(disk.archives)
        decreases disk.archives.Keys
      {
        var stop := ctx.Err();
        if stop {
          return Some(Cancelled), victims, hidden;
        }
        var listing := disk.List();
        if listing.None? {
          return Some(ListFailed), victims, hidden;
        }
        hidden := disk.unseen;
        var ranked := Ranked(listing.value);
        RankedListing(listing.value, disk.archives - hidden);
        ghost var listed := disk.archives;
        var v;
        ghost var more;
        v, more := Drain(ctx, charge, ranked, hidden);
        RemovedMore(victims, more, old(disk.archives), listed, disk.archives);
        if disk.faults == old(disk.faults) {
          CleanRound(ranked, more, listed, hidden, charge);
          assert victims + more == more;
        }
        victims := victims + more;
        match v
        case Fit => return None, victims, hidden;
        case Stopped => return Some(Cancelled), victims, hidden;
        case Exhausted =>
          ghost var drained := disk.archives;
          var evicted;
          ghost var victim;
          evicted, victim := EvictAnyOldest();
          if !evicted {
            return Some(OverBudget), victims, hidden;
          }
          RemovedMore(victims, [victim], old(disk.archives), drained, disk.archives);
          RemovedShrinks(more, listed, drained);
          RemovedShrinks([victim], drained, disk.archives);
          victims := victims + [victim];
      }
    }

    /**
     Reserve. Whatever the directory does, the call ends, only evicts, and
     admits the request when it fits beside what the last scan saw. When nothing
     goes wrong, the shortest prefix of the ranking that makes room goes, coldest
     first, and the request is refused exactly when it does not even fit beside
     what is in flight.
     */
    method Reserve(ctx: Context, expected: int)
      returns (out: Outcome, ghost steps: seq<Step>, ghost victims: seq<Entry>, ghost hidden: set<Key>)
      requires Valid()
      modifies ctx, this`inflight, this`inflightCount, this`issued, disk
      ensures out == Refused(Cancelled) ==> ctx.done
      ensures Valid() && Performed(old(View()), steps)
      ensures Removed(victims, old(disk.archives), disk.archives)
      ensures disk.faults >= old(disk.faults)
      ensures closed ==> out == Refused(ManagerClosed) && steps == []
      ensures out.Refused? ==> issued == old(issued) && forall i | 0 <= i < |steps| :: steps[i].Evicted?
      ensures out.Admitted? ==>
                && fresh(out.r) && issued == old(issued) + [out.r] && out.r.state == Open
                && steps != [] && (forall i | 0 <= i < |steps| - 1 :: steps[i].Evicted?)
                && steps[|steps| - 1] == if policy.Active() then Granted(Clamped(expected), hidden) else Issued
      ensures var limited := policy.maxBytes > 0 || policy.maxEntries > 0 || policy.maxAge > 0;
              && (!limited && !closed ==> out.Admitted?)
              && (out.Admitted? ==>
                    && out.r.n == (if limited && expected > 0 then expected else 0)
                    && inflight == old(inflight) + out.r.n && inflightCount == old(inflightCount) + (if limited then 1 else 0))
      ensures out.Admitted? && disk.faults == old(disk.faults) ==>
                forall v, k | v in victims && k in disk.archives :: v.stat.mtime <= disk.archives[k].mtime
      ensures out.Admitted? && policy.Active() && disk.faults == old(disk.faults) ==>
                hidden == {} && ShortestPrefix(policy, old(disk.archives), victims, old(inflight), old(inflightCount), Clamped(expected))
      ensures !closed && policy.Active() && disk.faults == old(disk.faults) && out != Refused(Cancelled) ==>
                var charge := if expected > 0 then expected else 0;
                if && (policy.maxBytes > 0 ==> charge <= policy.maxBytes && old(inflight) + charge <= policy.maxBytes)
                   && (policy.maxEntries > 0 ==> old(inflightCount) < policy.maxEntries)
                then out.Admitted? else out == Refused(OverBudget)
      ensures out == Refused(OverBudget) && (policy.maxBytes > 0 ==> expected <= policy.maxBytes) &&
              (policy.maxEntries > 0 ==> inflightCount < policy.maxEntries) ==>
                && !FitsBeside(policy, disk.archives - hidden, inflight, inflightCount, Clamped(expected))
                && (disk.blind || forall k | k in disk.archives :: k in disk.stuck || k in disk.unseen)
                && (disk.faults == old(disk.faults) ==> disk.archives == map[])
    {
      hide Run, End, Enabled, Apply, FitsBeside, Removed, ShortestPrefix;
      var charge := Clamped(expected);
      NoSteps();
      NothingRemoved(disk.archives);
      steps, victims, hidden := [], [], {};
      if closed {
        return Refused(ManagerClosed), steps, victims, hidden;
      }
      if !policy.Active() {
        var r, step := HandOut(charge, hidden);
        OneStep(old(View()), step);
        return Admitted(r), [step], victims, hidden;
      }
      var stop := ctx.Err();
      if stop {
        return Refused(Cancelled), steps, victims, hidden;
      }
      if (policy.maxBytes > 0 && charge > policy.maxBytes) || (policy.maxEntries > 0 && inflightCount + 1 > policy.maxEntries) {
        return Refused(OverBudget), steps, victims, hidden;
      }
      out, steps, victims, hidden := ReserveEvicting(ctx, charge);
      if out.Admitted? && disk.faults == old(disk.faults) {
        OldestGone(policy, old(disk.archives), victims, disk.archives, old(inflight), old(inflightCount), charge);
      }
    }

    /** Reserve past its early checks. */
    method ReserveEvicting(ctx: Context, charge: nat)
      returns (out: Outcome, ghost steps: seq<Step>, ghost victims: seq<Entry>, ghost hidden: set<Key>)
      requires Valid() && policy.Active()
      requires policy.maxBytes > 0 ==> charge <= policy.maxBytes
      modifies ctx, this`inflight, this`inflightCount, this`issued, disk
      ensures Valid() && Performed(old(View()), steps)
      ensures Removed(victims, old(disk.archives), disk.archives) && disk.faults >= old(disk.faults)
      ensures out == Refused(Cancelled) ==> ctx.done
      ensures out.Refused? ==> issued == old(issued) && forall i | 0 <= i < |steps| :: steps[i].Evicted?
      ensures out.Refused? ==> inflight == old(inflight) && inflightCount == old(inflightCount)
      ensures out.Admitted? ==>
                && fresh(out.r) && issued == old(issued) + [out.r] && out.r.state == Open
                && steps != [] && (forall i | 0 <= i < |steps| - 1 :: steps[i].Evicted?)
                && steps[|steps| - 1] == Granted(charge, hidden)
                && out.r.n == charge && inflight == old(inflight) + charge && inflightCount == old(inflightCount) + 1
      ensures disk.faults == old(disk.faults) ==>
                && (out.Admitted? ==> hidden == {} && Room(policy, old(inflight), old(inflightCount), charge))
                && (out.Admitted? ==> ShortestPrefix(policy, old(disk.archives), victims, old(inflight), old(inflightCount), charge))
                && (out.Refused? ==> out.why in {Cancelled, OverBudget})
                && (out == Refused(OverBudget) ==> disk.archives == map[] && !Room(policy, old(inflight), old(inflightCount), charge))
      ensures out == Refused(OverBudget) ==>
                && !FitsBeside(policy, disk.archives - hidden, inflight, inflightCount, charge)
                && (disk.blind || forall k | k in disk.archives :: k in disk.stuck || k in disk.unseen)
      ensures out != Refused(ManagerClosed)
    {
      hide Run, End, Enabled, Apply, FitsBeside, Removed, ShortestPrefix;
      var why;
      why, victims, hidden := MakeRoom(ctx, charge);
      RemovedShrinks(victims, old(disk.archives), disk.archives);
      steps := ShrinkingIsARun(policy, old(View()), disk.archives);
      if why.Some? {
        FitsMeansRoom(disk.archives - hidden, inflight, inflightCount, charge);
        return Refused(why.value), steps, victims, hidden;
      }
      ghost var middle := View();
      if hidden == {} {
        assert forall m: map<Key, Stat> :: m - hidden == m;
        FitsMeansRoom(disk.archives, inflight, inflightCount, charge);
      }
      var r, step := HandOut(charge, hidden);
      Extend(old(View()), steps, middle, step);
      steps := steps + [step];
      out := Admitted(r);
    }
  }

  lemma NothingRemoved(m: map<Key, Stat>)
    ensures Removed([], m, m)
  {
  }

  lemma RemovedShrinks(victims: seq<Entry>, before: map<Key, Stat>, after: map<Key, Stat>)
    requires Removed(victims, before, after)
    ensures after.Keys <= before.Keys && (victims != [] ==> after.Keys < before.Keys)
    ensures forall k | k in after :: k in before && before[k] == after[k]
  {
    if victims != [] {
      assert victims[0] in victims;
    }
  }

  lemma RemovedMore(a: seq<Entry>, b: seq<Entry>, x: map<Key, Stat>, y: map<Key, Stat>, z: map<Key, Stat>)
    requires Removed(a, x, y) && Removed(b, y, z)
    ensures Removed(a + b, x, z)
  {
  }

  /** Everything colder than `e` is among `spared`. */
  ghost predicate NoneColder(e: Entry, archives: map<Key, Stat>, spared: set<Key>) {
    forall k | k in archives && Older(Entry(k, archives[k]), e) :: k in spared
  }

  lemma NoneOlder(e: Entry, archives: map<Key, Stat>, spared: set<Key>)
    requires NoneColder(e, archives, spared)
    ensures forall k | k in archives && archives[k].mtime < e.stat.mtime :: k in spared
  {
    forall k | k in archives && archives[k].mtime < e.stat.mtime ensures k in spared {
      assert Older(Entry(k, archives[k]), e);
    }
  }

  /** When all entries before `i` are stuck, nothing colder is left to try. */
  lemma OlderAreTried(ranked: seq<Entry>, archives: map<Key, Stat>, unseen: set<Key>, stuck: set<Key>, i: nat)
    requires Lists(ranked, archives - unseen) && OldestFirst(ranked) && i < |ranked|
    requires forall j | 0 <= j < i :: ranked[j].key in stuck
    ensures NoneColder(ranked[i], archives, stuck + unseen)
  {
    var m := archives - unseen;
    forall k | k in m && Older(Entry(k, m[k]), ranked[i]) ensures k in stuck {
      ListsAll(ranked, m, k);
      var j :| 0 <= j < |ranked| && ranked[j].key == k;
      ListsOnly(ranked, m, j);
      BeforeIsTotal(k, ranked[i].key);
      if i < j {
        RankedPairs(ranked, i, j);
      }
    }
  }

  lemma {:induction false} PrefixIsRanked(ranked: seq<Entry>, n: nat)
    requires OldestFirst(ranked) && n <= |ranked|
    ensures OldestFirst(ranked[..n])
    decreases n
  {
    if n > 0 {
      PrefixIsRanked(ranked[1..], n - 1);
      assert ranked[..n][1..] == ranked[1..][..n - 1];
    }
  }

  lemma ColderThanLater(ranked: seq<Entry>, n: nat, after: map<Key, Stat>, i: nat, k: Key)
    requires OldestFirst(ranked) && i < n <= |ranked| && Lists(ranked[n..], after) && k in after
    ensures Older(ranked[i], Entry(k, after[k]))
  {
    hide OldestFirst, Lists, Older;
    var rest := ranked[n..];
    ListsAll(rest, after, k);
    var j :| 0 <= j < |rest| && rest[j].key == k;
    ListsOnly(rest, after, j);
    RankedPairs(ranked, i, n + j);
  }

  lemma ColderThanTheRest(ranked: seq<Entry>, victims: seq<Entry>, after: map<Key, Stat>)
    requires OldestFirst(ranked) && victims <= ranked && Lists(ranked[|victims|..], after)
    ensures OldestFirst(victims) && ColdestGone(victims, after)
  {
    hide OldestFirst, Lists, Older;
    PrefixIsRanked(ranked, |victims|);
    assert ranked[..|victims|] == victims;
    forall v, k | v in victims && k in after ensures Older(v, Entry(k, after[k])) {
      var i :| 0 <= i < |victims| && victims[i] == v;
      ColderThanLater(ranked, |victims|, after, i, k);
    }
  }

  lemma NothingListed(entries: seq<Entry>, m: map<Key, Stat>)
    requires Lists(entries, m)
    ensures entries == [] ==> m == map[]
  {
  }

  /** Every victim was colder than everything that is left. */
  ghost predicate ColdestGone(victims: seq<Entry>, after: map<Key, Stat>) {
    forall v, k | v in victims && k in after :: Older(v, Entry(k, after[k]))
  }

  function KeysOf(entries: seq<Entry>): (r: set<Key>) {
    set e | e in entries :: e.key
  }

  lemma RemovedIs(victims: seq<Entry>, before: map<Key, Stat>, after: map<Key, Stat>)
    requires Removed(victims, before, after)
    ensures after == before - KeysOf(victims)
  {
    forall k | k in before && k !in after ensures k in KeysOf(victims) {
      assert Entry(k, before[k]) in victims;
    }
  }

  /**
   The victims are coldest first and colder than what they leave behind; without
   them the charge fits, and without fewer of them it does not.
   */
  ghost predicate ShortestPrefix(policy: Policy, before: map<Key, Stat>, victims: seq<Entry>, inflight: int, count: int, charge: nat) {
    && OldestFirst(victims) && ColdestGone(victims, before - KeysOf(victims))
    && FitsBeside(policy, before - KeysOf(victims), inflight, count, charge)
    && forall j | 0 <= j < |victims| :: !FitsBeside(policy, before - KeysOf(victims[..j]), inflight, count, charge)
  }

  /** No victim was modified after anything that is left. */
  lemma OldestGone(policy: Policy, before: map<Key, Stat>, victims: seq<Entry>, after: map<Key, Stat>,
                   inflight: int, count: int, charge: nat)
    requires Removed(victims, before, after) && ShortestPrefix(policy, before, victims, inflight, count, charge)
    ensures forall v, k | v in victims && k in after :: v.stat.mtime <= after[k].mtime
  {
    hide FitsBeside, OldestFirst;
    RemovedIs(victims, before, after);
    forall v, k | v in victims && k in after ensures v.stat.mtime <= after[k].mtime {
      assert Older(v, Entry(k, after[k]));
    }
  }

  lemma {:induction false} ColdestArePrefix(before: map<Key, Stat>, victims: seq<Entry>, ranked: seq<Entry>)
    requires Removed(victims, before, before - KeysOf(victims))
    requires OldestFirst(victims) && ColdestGone(victims, before - KeysOf(victims))
    requires Lists(ranked, before) && OldestFirst(ranked)
    ensures victims <= ranked
    decreases |victims|
  {
    if victims != [] {
      var (v, rest) := (victims[0], before - {victims[0].key});
      ListsAll(ranked, before, v.key);
      var i :| 0 <= i < |ranked| && ranked[i].key == v.key;
      ListsOnly(ranked, before, i);
      ListsOnly(ranked, before, 0);
      assert ranked[0] == v || Older(v, ranked[0]) by {
        assert ranked[0] in victims || ranked[0].key in before - KeysOf(victims);
      }
      BeforeIsTotal(ranked[0].key, v.key);
      LaterKeysDiffer(victims, before);
      assert KeysOf(victims) == {v.key} + KeysOf(victims[1..]);
      assert rest - KeysOf(victims[1..]) == before - KeysOf(victims);
      ColdestArePrefix(rest, victims[1..], ranked[1..]);
    }
  }

  lemma LaterKeysDiffer(victims: seq<Entry>, before: map<Key, Stat>)
    requires OldestFirst(victims) && victims != [] && forall v | v in victims :: v.key in before && before[v.key] == v.stat
    ensures victims[0].key !in KeysOf(victims[1..])
  {
    BeforeIsTotal(victims[0].key, victims[0].key);
  }

  /**
   What ShortestPrefix says of the ranking: the victims are its first entries, and
   their number is the least that makes room.
   */
  lemma ShortestOfTheRanking(policy: Policy, before: map<Key, Stat>, victims: seq<Entry>, ranked: seq<Entry>,
                             inflight: int, count: int, charge: nat)
    requires Removed(victims, before, before - KeysOf(victims)) && Lists(ranked, before) && OldestFirst(ranked)
    ensures ShortestPrefix(policy, before, victims, inflight, count, charge) <==>
            && victims <= ranked && FitsBeside(policy, before - KeysOf(ranked[..|victims|]), inflight, count, charge)
            && forall j | 0 <= j < |victims| :: !FitsBeside(policy, before - KeysOf(ranked[..j]), inflight, count, charge)
  {
    hide FitsBeside, Removed, OldestFirst, ColdestGone, Lists;
    var n := |victims|;
    if victims <= ranked {
      ListsSuffix(ranked, before, n);
      var after := before - KeysOf(victims);
      assert ranked[..n] == victims;
      ColderThanTheRest(ranked, victims, after);
      assert forall j | 0 <= j < n :: ranked[..j] == victims[..j];
    } else if OldestFirst(victims) && ColdestGone(victims, before - KeysOf(victims)) {
      ColdestArePrefix(before, victims, ranked);
    }
  }

  lemma {:induction false} ListsSuffix(entries: seq<Entry>, m: map<Key, Stat>, n: nat)
    requires Lists(entries, m) && n <= |entries|
    ensures Lists(entries[n..], m - KeysOf(entries[..n]))
    decreases n
  {
    if n == 0 {
      assert entries[0..] == entries && m - KeysOf(entries[..0]) == m;
    } else {
      ListsSuffix(entries[1..], m - {entries[0].key}, n - 1);
      assert entries[..n] == [entries[0]] + entries[1..][..n - 1];
      assert KeysOf(entries[..n]) == {entries[0].key} + KeysOf(entries[1..][..n - 1]);
      assert m - {entries[0].key} - KeysOf(entries[1..][..n - 1]) == m - KeysOf(entries[..n]);
      assert entries[1..][n - 1..] == entries[n..];
    }
  }

  lemma DropSeen(archives: map<Key, Stat>, unseen: set<Key>, k: Key)
    requires k in archives && k !in unseen
    ensures archives - {k} - unseen == archives - unseen - {k}
    ensures Sum(archives - unseen, Size) == Sum(archives - {k} - unseen, Size) + archives[k].size
    ensures Sum(archives - unseen, One) == Sum(archives - {k} - unseen, One) + 1
  {
    hide Sum;
    assert archives - {k} - unseen == archives - unseen - {k};
    SumWithout(archives - unseen, Size, k);
    SumWithout(archives - unseen, One, k);
  }
}
