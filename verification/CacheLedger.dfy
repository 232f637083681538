/**
 The runner cache's budget authority as a state machine (internal/cache/manager.go).
 Every method of Manager and Reservation runs under one lock, so a run is a
 sequence of the atomic steps below; CacheManager shows that each method
 performs such a sequence.
 */
module CacheLedger {
  import opened Strings
  import opened Sums

  type Key = Text
  type Path = Text

  /** What the directory tells about one archive. */
  datatype Stat = Stat(size: nat, mtime: int)

  /** RetentionPolicy; a field that is not positive disables its dimension. */
  datatype Policy = Policy(maxBytes: int, maxEntries: int, maxAge: int) {
    predicate Active() { maxBytes > 0 || maxEntries > 0 || maxAge > 0 }
  }

  function Size(s: Stat): nat { s.size }
  function Charge(n: nat): nat { n }

  /**
   `open` maps the number of each OPEN reservation to its charge; reservations
   are numbered in the order in which they are handed out.
   */
  datatype State = State(archives: map<Key, Stat>, open: map<nat, nat>, issued: nat, pending: map<Path, nat>,
                         inflight: int, count: int)

  datatype Step =
    | Granted(charge: nat, unseen: set<Key>)
    | Issued
    | Published(id: nat, key: Key, stat: Stat)
    | Released(id: nat)
    | Retained(id: nat, path: Path)
    | Cleaned(path: Path)
    | Evicted(key: Key)

  /** The charge fits beside the archives `seen` and everything in flight. */
  ghost predicate FitsBeside(policy: Policy, seen: map<Key, Stat>, inflight: int, count: int, charge: nat) {
    && (policy.maxBytes > 0 ==> Sum(seen, Size) + inflight + charge <= policy.maxBytes)
    && (policy.maxEntries > 0 ==> Sum(seen, One) + count + 1 <= policy.maxEntries)
  }

  ghost predicate Fits(policy: Policy, s: State, charge: nat, unseen: set<Key>) {
    FitsBeside(policy, s.archives - unseen, s.inflight, s.count, charge)
  }

  ghost predicate Enabled(policy: Policy, s: State, step: Step) {
    match step
    case Granted(charge, unseen) => policy.Active() && Fits(policy, s, charge, unseen)
    case Issued => !policy.Active()
    case Published(id, key, stat) => id in s.open && (policy.Active() ==> stat.size <= s.open[id])
    case Released(id) => id in s.open
    case Retained(id, path) => id in s.open
    case Cleaned(path) => path in s.pending
    case Evicted(key) => key in s.archives
  }

  ghost function Apply(policy: Policy, s: State, step: Step): (r: State)
    requires Enabled(policy, s, step)
  {
    match step
    case Granted(charge, unseen) =>
      s.(open := s.open[s.issued := charge], issued := s.issued + 1, inflight := s.inflight + charge, count := s.count + 1)
    case Issued =>
      s.(open := s.open[s.issued := 0], issued := s.issued + 1)
    case Published(id, key, stat) =>
      s.(archives := s.archives[key := stat], open := s.open - {id}, inflight := s.inflight - s.open[id], count := s.count - 1)
    case Released(id) =>
      s.(open := s.open - {id}, inflight := s.inflight - s.open[id], count := s.count - 1)
    case Retained(id, path) =>
      s.(open := s.open - {id}, pending := s.pending[path := s.open[id]])
    case Cleaned(path) =>
      s.(pending := s.pending - {path}, inflight := s.inflight - s.pending[path], count := s.count - 1)
    case Evicted(key) =>
      s.(archives := s.archives - {key})
  }

  ghost predicate Run(policy: Policy, s: State, steps: seq<Step>)
    decreases |steps|
  {
    steps == [] || (Enabled(policy, s, steps[0]) && Run(policy, Apply(policy, s, steps[0]), steps[1..]))
  }

  ghost function End(policy: Policy, s: State, steps: seq<Step>): (r: State)
    requires Run(policy, s, steps)
    decreases |steps|
  {
    if steps == [] then s else End(policy, Apply(policy, s, steps[0]), steps[1..])
  }

  /** Reservation numbers below `issued` only. */
  predicate Numbered(s: State) {
    forall id | id in s.open :: id < s.issued
  }

  lemma {:induction false} RunExtend(policy: Policy, s: State, steps: seq<Step>, step: Step)
    requires Run(policy, s, steps) && Enabled(policy, End(policy, s, steps), step)
    ensures Run(policy, s, steps + [step])
    ensures End(policy, s, steps + [step]) == Apply(policy, End(policy, s, steps), step)
    decreases |steps|
  {
    hide Apply, Enabled;
    if steps == [] {
      assert (steps + [step])[1..] == [];
    } else {
      RunExtend(policy, Apply(policy, s, steps[0]), steps[1..], step);
      assert (steps + [step])[1..] == steps[1..] + [step];
    }
  }

  // ---- Conservation ------------------------------------------------------------------------

  ghost function Drift(s: State): (d: int) {
    s.inflight - Sum(s.open, Charge) - Sum(s.pending, Charge)
  }

  ghost function CountDrift(s: State): (d: int) {
    s.count - Sum(s.open, One) - Sum(s.pending, One)
  }

  /** inflight and inflightCount are the charges and the number of OPEN reservations and pending temps. */
  ghost predicate Conserved(s: State) {
    Drift(s) == 0 && CountDrift(s) == 0
  }

  /** A reservation retained under a path that is already pending overwrites the earlier charge. */
  predicate Overwrites(s: State, step: Step) {
    step.Retained? && step.path in s.pending
  }

  lemma StepDrift(policy: Policy, s: State, step: Step)
    requires Numbered(s) && Enabled(policy, s, step)
    ensures Numbered(Apply(policy, s, step))
    ensures Drift(Apply(policy, s, step)) == Drift(s) + (if Overwrites(s, step) then s.pending[step.path] else 0)
    ensures CountDrift(Apply(policy, s, step)) ==
            CountDrift(s) + (if Overwrites(s, step) then 1 else 0) - (if step.Issued? then 1 else 0)
  {
    hide Sum, Fits;
    match step
    case Granted(charge, unseen) =>
      SumAdded(s.open, Charge, s.issued, charge);
      SumAdded(s.open, One, s.issued, charge);
    case Issued =>
      SumAdded(s.open, Charge, s.issued, 0);
      SumAdded(s.open, One, s.issued, 0);
    case Published(id, key, stat) =>
      SumWithout(s.open, Charge, id);
      SumWithout(s.open, One, id);
    case Released(id) =>
      SumWithout(s.open, Charge, id);
      SumWithout(s.open, One, id);
    case Retained(id, path) =>
      SumWithout(s.open, Charge, id);
      SumWithout(s.open, One, id);
      SumAdded(s.pending, Charge, path, s.open[id]);
      SumAdded(s.pending, One, path, s.open[id]);
    case Cleaned(path) =>
      SumWithout(s.pending, Charge, path);
      SumWithout(s.pending, One, path);
    case Evicted(key) =>
  }

  ghost function LostBytes(policy: Policy, s: State, steps: seq<Step>): (n: nat)
    requires Run(policy, s, steps)
    decreases |steps|
  {
    if steps == [] then 0
    else (if Overwrites(s, steps[0]) then s.pending[steps[0].path] else 0) +
         LostBytes(policy, Apply(policy, s, steps[0]), steps[1..])
  }

  ghost function LostCharges(policy: Policy, s: State, steps: seq<Step>): (n: nat)
    requires Run(policy, s, steps)
    ensures n == 0 ==> LostBytes(policy, s, steps) == 0
    decreases |steps|
  {
    if steps == [] then 0
    else (if Overwrites(s, steps[0]) then 1 else 0) + LostCharges(policy, Apply(policy, s, steps[0]), steps[1..])
  }

  /** Reservations handed out under an inactive policy are never counted. */
  function Uncounted(steps: seq<Step>): (n: nat)
    decreases |steps|
  {
    if steps == [] then 0 else (if steps[0].Issued? then 1 else 0) + Uncounted(steps[1..])
  }

  /**
   Over every run the ledger differs from what OPEN reservations and pending
   temps hold by exactly the overwritten charges and the uncounted reservations.
   */
  lemma {:induction false} LedgerDrift(policy: Policy, s: State, steps: seq<Step>)
    requires Numbered(s) && Run(policy, s, steps)
    ensures Numbered(End(policy, s, steps))
    ensures Drift(End(policy, s, steps)) == Drift(s) + LostBytes(policy, s, steps)
    ensures CountDrift(End(policy, s, steps)) == CountDrift(s) + LostCharges(policy, s, steps) - Uncounted(steps)
    decreases |steps|
  {
    if steps != [] {
      hide Apply, Enabled, Drift, CountDrift, Overwrites, Numbered;
      StepDrift(policy, s, steps[0]);
      LedgerDrift(policy, Apply(policy, s, steps[0]), steps[1..]);
    }
  }

  lemma {:induction false} ActiveCountsAll(policy: Policy, s: State, steps: seq<Step>)
    requires policy.Active() && Run(policy, s, steps)
    ensures Uncounted(steps) == 0
    decreases |steps|
  {
    if steps != [] {
      ActiveCountsAll(policy, Apply(policy, s, steps[0]), steps[1..]);
    }
  }

  /**
   Conservation: under an active policy the ledger equals the charges and the
   number of OPEN reservations and pending temps at the end of every run that
   retains temps under fresh paths, and of no other run. Neither counter is
   then ever negative.
   */
  lemma LedgerConserved(policy: Policy, s: State, steps: seq<Step>)
    requires Numbered(s) && Conserved(s) && Run(policy, s, steps)
    ensures policy.Active() ==> (Conserved(End(policy, s, steps)) <==> LostCharges(policy, s, steps) == 0)
    ensures !policy.Active() ==>
              (Conserved(End(policy, s, steps)) <==>
                LostBytes(policy, s, steps) == 0 && LostCharges(policy, s, steps) == Uncounted(steps))
    ensures Conserved(End(policy, s, steps)) ==> End(policy, s, steps).inflight >= 0 && End(policy, s, steps).count >= 0
  {
    LedgerDrift(policy, s, steps);
    if policy.Active() {
      ActiveCountsAll(policy, s, steps);
    }
  }

  /** Any two OPEN reservations retained under one path leave a charge behind that nobody owns. */
  lemma RetainingTwiceLosesACharge(policy: Policy, s: State, i: nat, j: nat, path: Path)
    requires Numbered(s) && Conserved(s) && i in s.open && j in s.open && i != j && path !in s.pending
    ensures var steps := [Retained(i, path), Retained(j, path)];
            && Run(policy, s, steps) && !Conserved(End(policy, s, steps))
            && Drift(End(policy, s, steps)) == s.open[i] && CountDrift(End(policy, s, steps)) == 1
  {
    hide Drift, CountDrift;
    var t := Apply(policy, s, Retained(i, path));
    StepDrift(policy, s, Retained(i, path));
    StepDrift(policy, t, Retained(j, path));
    assert [Retained(j, path)][1..] == [];
    assert Run(policy, t, [Retained(j, path)]) && End(policy, t, [Retained(j, path)]) == Apply(policy, t, Retained(j, path));
    assert [Retained(i, path), Retained(j, path)][1..] == [Retained(j, path)];
  }

  /** From startup: two reservations retained under one path and cleaned leave the first one's charge in the ledger. */
  lemma LostChargeStays(a: nat, b: nat, path: Path)
    ensures var (policy, s) := (Policy(0, 0, 1), State(map[], map[], 0, map[], 0, 0));
            var steps := [Granted(a, {}), Granted(b, {}), Retained(0, path), Retained(1, path), Cleaned(path)];
            && policy.Active() && Numbered(s) && Conserved(s) && Run(policy, s, steps)
            && End(policy, s, steps) == State(map[], map[], 2, map[], a, 1)
  {
    var (policy, s) := (Policy(0, 0, 1), State(map[], map[], 0, map[], 0, 0));
    var steps := [Granted(a, {}), Granted(b, {}), Retained(0, path), Retained(1, path), Cleaned(path)];
    var s1 := Apply(policy, s, steps[0]);
    var s2 := Apply(policy, s1, steps[1]);
    var s3 := Apply(policy, s2, steps[2]);
    var s4 := Apply(policy, s3, steps[3]);
    assert s4.open == map[] && s4.pending == map[path := b];
    RunExtend(policy, s, [], steps[0]);
    RunExtend(policy, s, [] + [steps[0]], steps[1]);
    RunExtend(policy, s, [] + [steps[0]] + [steps[1]], steps[2]);
    RunExtend(policy, s, [] + [steps[0]] + [steps[1]] + [steps[2]], steps[3]);
    RunExtend(policy, s, [] + [steps[0]] + [steps[1]] + [steps[2]] + [steps[3]], steps[4]);
    assert [] + [steps[0]] + [steps[1]] + [steps[2]] + [steps[3]] + [steps[4]] == steps;
  }

  /** Under an inactive policy handing out and releasing one reservation leaves the count at -1. */
  lemma InactiveCountGoesNegative(policy: Policy, s: State)
    requires !policy.Active() && s == State(map[], map[], 0, map[], 0, 0)
    ensures Run(policy, s, [Issued, Released(0)]) && End(policy, s, [Issued, Released(0)]).count == -1
  {
    var t := Apply(policy, s, Issued);
    assert Run(policy, t, [Released(0)]) && End(policy, t, [Released(0)]).count == -1 by {
      assert [Released(0)][1..] == [];
    }
    assert [Issued, Released(0)][1..] == [Released(0)];
  }

  // ---- Every reservation ends once -----------------------------------------------------------

  predicate Ends(step: Step, id: nat) {
    match step
    case Published(i, _, _) => i == id
    case Released(i) => i == id
    case Retained(i, _) => i == id
    case _ => false
  }

  lemma {:induction false} StaysEnded(policy: Policy, s: State, steps: seq<Step>, id: nat, k: nat)
    requires Run(policy, s, steps) && id < s.issued && id !in s.open && k < |steps|
    ensures !Ends(steps[k], id)
    decreases |steps|
  {
    if k > 0 {
      StaysEnded(policy, Apply(policy, s, steps[0]), steps[1..], id, k - 1);
    }
  }

  /** No run publishes, releases or retains one reservation twice, in any combination. */
  lemma {:induction false} EndsAtMostOnce(policy: Policy, s: State, steps: seq<Step>, id: nat, i: nat, j: nat)
    requires Numbered(s) && Run(policy, s, steps) && i < j < |steps| && Ends(steps[i], id)
    ensures !Ends(steps[j], id)
    decreases |steps|
  {
    var t := Apply(policy, s, steps[0]);
    if i == 0 {
      StaysEnded(policy, t, steps[1..], id, j - 1);
    } else {
      StepDrift(policy, s, steps[0]);
      EndsAtMostOnce(policy, t, steps[1..], id, i - 1, j - 1);
    }
  }

  // ---- Budget safety ------------------------------------------------------------------------

  /** Bytes and entries on disk plus everything in flight stay within the caps, up to a slack. */
  ghost predicate Within(policy: Policy, s: State, bytes: nat, entries: nat) {
    && (policy.maxBytes > 0 ==> Sum(s.archives, Size) + s.inflight <= policy.maxBytes + bytes)
    && (policy.maxEntries > 0 ==> Sum(s.archives, One) + s.count <= policy.maxEntries + entries)
  }

  /** The part of the directory the scan behind a grant did not see. */
  ghost function Unseen(s: State, step: Step): (r: map<Key, Stat>)
    requires step.Granted?
  {
    map k | k in s.archives && k in step.unseen :: s.archives[k]
  }

  lemma GrantIsWithin(policy: Policy, s: State, step: Step)
    requires step.Granted? && Enabled(policy, s, step)
    ensures Within(policy, Apply(policy, s, step), Sum(Unseen(s, step), Size), Sum(Unseen(s, step), One))
    ensures Within(policy, Apply(policy, s, step), 0, 0) <==> Fits(policy, s, step.charge, {})
  {
    hide Sum;
    assert s.archives - {} == s.archives;
    SumOfParts(s.archives, s.archives - step.unseen, Unseen(s, step), Size);
    SumOfParts(s.archives, s.archives - step.unseen, Unseen(s, step), One);
  }

  lemma StepStaysWithin(policy: Policy, s: State, step: Step, bytes: nat, entries: nat)
    requires !step.Granted? && Enabled(policy, s, step) && Within(policy, s, bytes, entries)
    ensures Within(policy, Apply(policy, s, step), bytes, entries)
  {
    hide Sum, Fits;
    match step
    case Published(id, key, stat) =>
      SumAdded(s.archives, Size, key, stat);
      SumAdded(s.archives, One, key, stat);
    case Evicted(key) =>
      SumWithout(s.archives, Size, key);
      SumWithout(s.archives, One, key);
    case _ =>
  }

  /** The archives hidden from the last grant's scan, at the moment of that grant. */
  ghost function Hidden(policy: Policy, s: State, steps: seq<Step>, last: map<Key, Stat>): (r: map<Key, Stat>)
    requires Run(policy, s, steps)
    decreases |steps|
  {
    if steps == [] then last
    else Hidden(policy, Apply(policy, s, steps[0]), steps[1..], if steps[0].Granted? then Unseen(s, steps[0]) else last)
  }

  lemma {:induction false} StaysWithin(policy: Policy, s: State, steps: seq<Step>, last: map<Key, Stat>, started: bool)
    requires Run(policy, s, steps) && (started ==> Within(policy, s, Sum(last, Size), Sum(last, One)))
    ensures var hidden := Hidden(policy, s, steps, last);
            (started || exists i :: 0 <= i < |steps| && steps[i].Granted?) ==>
              Within(policy, End(policy, s, steps), Sum(hidden, Size), Sum(hidden, One))
    decreases |steps|
  {
    if steps != [] {
      hide Apply, Enabled, Sum, Within;
      var (step, rest) := (steps[0], steps[1..]);
      if step.Granted? {
        GrantIsWithin(policy, s, step);
        StaysWithin(policy, Apply(policy, s, step), rest, Unseen(s, step), true);
      } else {
        if started {
          StepStaysWithin(policy, s, step, Sum(last, Size), Sum(last, One));
        }
        StaysWithin(policy, Apply(policy, s, step), rest, last, started);
        if i :| 0 <= i < |steps| && steps[i].Granted? {
          assert rest[i - 1].Granted?;
        }
      }
    }
  }

  /** Every grant of the run was decided on a complete scan. */
  ghost predicate CompleteScans(policy: Policy, s: State, steps: seq<Step>)
    requires Run(policy, s, steps)
    decreases |steps|
  {
    steps != [] ==>
      && (steps[0].Granted? ==> Unseen(s, steps[0]) == map[])
      && CompleteScans(policy, Apply(policy, s, steps[0]), steps[1..])
  }

  lemma {:induction false} NothingHidden(policy: Policy, s: State, steps: seq<Step>)
    requires Run(policy, s, steps) && CompleteScans(policy, s, steps)
    ensures Hidden(policy, s, steps, map[]) == map[]
    decreases |steps|
  {
    if steps != [] {
      hide Apply, Enabled, Unseen;
      NothingHidden(policy, Apply(policy, s, steps[0]), steps[1..]);
    }
  }

  /**
   Budget safety: from the first grant on, in every run from any state (startup
   may begin over budget), archive bytes plus inflight stay at most MaxBytes and
   entries plus inflightCount at most MaxEntries, provided grants are decided on
   complete scans; otherwise the excess is at most what the last grant's scan
   could not see.
   */
  lemma BudgetSafe(policy: Policy, s: State, steps: seq<Step>)
    requires Run(policy, s, steps) && exists i :: 0 <= i < |steps| && steps[i].Granted?
    ensures var hidden := Hidden(policy, s, steps, map[]);
            Within(policy, End(policy, s, steps), Sum(hidden, Size), Sum(hidden, One))
    ensures CompleteScans(policy, s, steps) ==> Within(policy, End(policy, s, steps), 0, 0)
  {
    StaysWithin(policy, s, steps, map[], false);
    if CompleteScans(policy, s, steps) {
      NothingHidden(policy, s, steps);
    }
  }

  /** Every charge granted in the run fits beside the whole directory of its moment, seen or not. */
  ghost predicate GrantsFit(policy: Policy, s: State, steps: seq<Step>)
    requires Run(policy, s, steps)
    decreases |steps|
  {
    steps != [] ==>
      && (steps[0].Granted? ==> Fits(policy, s, steps[0].charge, {}))
      && GrantsFit(policy, Apply(policy, s, steps[0]), steps[1..])
  }

  /** The caps hold in every state of the run from the first grant on, or from the start if `started`. */
  ghost predicate KeepsBudget(policy: Policy, s: State, steps: seq<Step>, started: bool)
    requires Run(policy, s, steps)
    decreases |steps|
  {
    && (started ==> Within(policy, s, 0, 0))
    && (steps != [] ==> KeepsBudget(policy, Apply(policy, s, steps[0]), steps[1..], started || steps[0].Granted?))
  }

  /** The exact condition: a run keeps the budget if and only if every grant would have stood on a complete scan. */
  lemma {:induction false} BudgetKeptExactlyWhen(policy: Policy, s: State, steps: seq<Step>, started: bool)
    requires Run(policy, s, steps) && (started ==> Within(policy, s, 0, 0))
    ensures KeepsBudget(policy, s, steps, started) <==> GrantsFit(policy, s, steps)
    decreases |steps|
  {
    if steps != [] {
      hide Apply, Enabled, Fits, Within;
      var (step, rest) := (steps[0], steps[1..]);
      var t := Apply(policy, s, step);
      if step.Granted? {
        GrantIsWithin(policy, s, step);
        if Within(policy, t, 0, 0) {
          BudgetKeptExactlyWhen(policy, t, rest, true);
        }
      } else {
        if started {
          StepStaysWithin(policy, s, step, 0, 0);
        }
        BudgetKeptExactlyWhen(policy, t, rest, started);
      }
    }
  }

  /** A grant decided on an incomplete scan can take the directory past its cap. */
  lemma IncompleteScanExceedsBudget(key: Key)
    ensures var policy := Policy(10, 0, 0);
            var s := State(map[key := Stat(10, 0)], map[], 0, map[], 0, 0);
            && Run(policy, s, [Granted(10, {key})])
            && !Within(policy, End(policy, s, [Granted(10, {key})]), 0, 0)
  {
    var policy := Policy(10, 0, 0);
    var s := State(map[key := Stat(10, 0)], map[], 0, map[], 0, 0);
    assert s.archives - {key} == map[];
    assert [Granted(10, {key})][1..] == [];
    SumWithout(s.archives, Size, key);
  }
}
