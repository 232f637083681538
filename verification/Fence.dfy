/**
 MemFencer as interleaved steps (internal/cas/fence.go): a map of reference
 counted entries, each with a one-place token channel, used by any number of
 threads; and the publish/collect protocol the fence exists for.
 */
module Fence {
  import opened Strings
  import opened Sums

  type Digest = Text
  type Thread = nat
  type EntryId = nat

  /** `held`: there is a value in the token channel. */
  datatype Entry = Entry(refs: int, held: bool)

  /** Where a thread that has entered stands: waiting for the token, holding it, or about to drop its reference. */
  datatype Place = Waiting | Holding | Leaving
  datatype Visit = Visit(digest: Digest, entry: EntryId, place: Place)

  datatype State = State(keys: map<Digest, EntryId>, entries: map<EntryId, Entry>, next: EntryId, visits: map<Thread, Visit>)

  datatype Step =
    | Enter(t: Thread, digest: Digest)
    | Take(t: Thread)
    | Cancel(t: Thread)
    | Drain(t: Thread)
    | Drop(t: Thread)

  ghost predicate Enabled(s: State, step: Step) {
    match step
    case Enter(t, digest) => t !in s.visits
    case Take(t) => t in s.visits && s.visits[t].place == Waiting && s.visits[t].entry in s.entries && !s.entries[s.visits[t].entry].held
    case Cancel(t) => t in s.visits && s.visits[t].place == Waiting
    case Drain(t) => t in s.visits && s.visits[t].place == Holding && s.visits[t].entry in s.entries
    case Drop(t) => t in s.visits && s.visits[t].place == Leaving && s.visits[t].entry in s.entries
  }

  /** entryFor: the digest's entry, allocated when the map has none, with one more reference. */
  ghost function EntryFor(s: State, t: Thread, digest: Digest): (r: State)
    requires digest in s.keys ==> s.keys[digest] in s.entries
  {
    if digest in s.keys then
      var id := s.keys[digest];
      var e := s.entries[id];
      s.(entries := s.entries[id := e.(refs := e.refs + 1)], visits := s.visits[t := Visit(digest, id, Waiting)])
    else
      s.(keys := s.keys[digest := s.next], entries := s.entries[s.next := Entry(1, false)], next := s.next + 1,
         visits := s.visits[t := Visit(digest, s.next, Waiting)])
  }

  /** releaseEntry: one reference less; the last one evicts when the map is over its size. */
  ghost function ReleaseEntry(s: State, t: Thread, maxKeys: nat): (r: State)
    requires t in s.visits && s.visits[t].entry in s.entries
  {
    var v := s.visits[t];
    var e := s.entries[v.entry];
    s.(entries := s.entries[v.entry := e.(refs := e.refs - 1)],
       keys := if e.refs - 1 == 0 && |s.keys| > maxKeys then s.keys - {v.digest} else s.keys,
       visits := s.visits - {t})
  }

  ghost function Moved(s: State, t: Thread, place: Place, held: bool): (r: State)
    requires t in s.visits && s.visits[t].entry in s.entries
  {
    var v := s.visits[t];
    s.(entries := s.entries[v.entry := s.entries[v.entry].(held := held)], visits := s.visits[t := v.(place := place)])
  }

  ghost function Apply(s: State, step: Step, maxKeys: nat): (r: State)
    requires Enabled(s, step) && KeysAllocated(s) && VisitsAllocated(s)
  {
    match step
    case Enter(t, digest) => EntryFor(s, t, digest)
    case Take(t) => Moved(s, t, Holding, true)
    case Cancel(t) => Moved(s, t, Leaving, s.entries[s.visits[t].entry].held)
    case Drain(t) => Moved(s, t, Leaving, false)
    case Drop(t) => ReleaseEntry(s, t, maxKeys)
  }

  // ---- The invariant ------------------------------------------------------------------------------

  ghost predicate KeysAllocated(s: State) {
    && (forall d | d in s.keys :: s.keys[d] in s.entries)
    && (forall e | e in s.entries :: e < s.next)
  }

  ghost predicate VisitsAllocated(s: State) {
    forall t | t in s.visits :: s.visits[t].entry in s.entries
  }

  /** No two digests share an entry. */
  ghost predicate OneDigestEach(s: State) {
    forall a, b | a in s.keys && b in s.keys && s.keys[a] == s.keys[b] :: a == b
  }

  /** An entry anybody is at is the one in the map. */
  ghost predicate LiveInMap(s: State) {
    forall t | t in s.visits :: s.visits[t].digest in s.keys && s.keys[s.visits[t].digest] == s.visits[t].entry
  }

  function Here(v: Visit, e: EntryId): nat { if v.entry == e then 1 else 0 }
  function Held(v: Visit, e: EntryId): nat { if v.entry == e && v.place == Holding then 1 else 0 }

  function AtEntry(e: EntryId): Visit -> nat {
    (v: Visit) => Here(v, e)
  }

  /** The number of waiters, holders and releasers at an entry. */
  ghost function Visitors(s: State, e: EntryId): nat {
    Sum(s.visits, AtEntry(e))
  }

  function HoldsEntry(e: EntryId): Visit -> nat {
    (v: Visit) => Held(v, e)
  }

  ghost function Idle(s: State): (r: set<Digest>)
    requires KeysAllocated(s)
  {
    set d | d in s.keys && s.entries[s.keys[d]].refs == 0
  }

  ghost predicate Shape(s: State) {
    KeysAllocated(s) && VisitsAllocated(s) && OneDigestEach(s) && LiveInMap(s)
  }

  /** Reference count and token of one entry. */
  ghost predicate Counted(s: State, e: EntryId)
    requires e in s.entries
  {
    && s.entries[e].refs == Visitors(s, e)
    && Sum(s.visits, HoldsEntry(e)) == if s.entries[e].held then 1 else 0
  }

  ghost predicate Counts(s: State) {
    forall e | e in s.entries :: Counted(s, e)
  }

  ghost predicate Inv(s: State, maxKeys: nat) {
    Shape(s) && Counts(s) && |Idle(s)| <= maxKeys
  }

  lemma {:induction false} SubsetSize<T>(a: set<T>, b: set<T>)
    requires a <= b
    ensures |a| <= |b|
    decreases a
  {
    if a != {} {
      var x :| x in a;
      SubsetSize(a - {x}, b - {x});
    }
  }

  /** Both counts of one entry when one visit is added, changed or removed. */
  lemma CountChanged(visits: map<Thread, Visit>, t: Thread, v: Visit, e: EntryId)
    requires t in visits
    ensures Sum(visits[t := v], AtEntry(e)) + Here(visits[t], e) == Sum(visits, AtEntry(e)) + Here(v, e)
    ensures Sum(visits[t := v], HoldsEntry(e)) + Held(visits[t], e) == Sum(visits, HoldsEntry(e)) + Held(v, e)
  {
    hide Sum;
    SumAdded(visits, AtEntry(e), t, v);
    SumAdded(visits, HoldsEntry(e), t, v);
  }

  lemma CountAdded(visits: map<Thread, Visit>, t: Thread, v: Visit, e: EntryId)
    requires t !in visits
    ensures Sum(visits[t := v], AtEntry(e)) == Sum(visits, AtEntry(e)) + Here(v, e)
    ensures Sum(visits[t := v], HoldsEntry(e)) == Sum(visits, HoldsEntry(e)) + Held(v, e)
  {
    hide Sum;
    SumAdded(visits, AtEntry(e), t, v);
    SumAdded(visits, HoldsEntry(e), t, v);
  }

  lemma CountRemoved(visits: map<Thread, Visit>, t: Thread, e: EntryId)
    requires t in visits
    ensures Sum(visits - {t}, AtEntry(e)) + Here(visits[t], e) == Sum(visits, AtEntry(e))
    ensures Sum(visits - {t}, HoldsEntry(e)) + Held(visits[t], e) == Sum(visits, HoldsEntry(e))
  {
    hide Sum;
    SumWithout(visits, AtEntry(e), t);
    SumWithout(visits, HoldsEntry(e), t);
  }

  /** Nobody is at an entry that does not exist yet. */
  lemma {:induction false} NobodyThere(visits: map<Thread, Visit>, e: EntryId)
    requires forall t | t in visits :: visits[t].entry != e
    ensures Sum(visits, AtEntry(e)) == 0 && Sum(visits, HoldsEntry(e)) == 0
    decreases visits.Keys
  {
    if visits != map[] {
      var t :| t in visits;
      CountRemoved(visits, t, e);
      NobodyThere(visits - {t}, e);
    }
  }

  lemma EnterKeepsShape(s: State, t: Thread, digest: Digest)
    requires Shape(s) && t !in s.visits
    ensures Shape(EntryFor(s, t, digest))
  {
  }

  lemma EnterKeepsCount(s: State, t: Thread, digest: Digest, e: EntryId)
    requires Shape(s) && (e in s.entries ==> Counted(s, e)) && t !in s.visits && e in EntryFor(s, t, digest).entries
    ensures Counted(EntryFor(s, t, digest), e)
  {
    hide Sum, AtEntry, HoldsEntry;
    CountAdded(s.visits, t, EntryFor(s, t, digest).visits[t], e);
    if e !in s.entries {
      NobodyThere(s.visits, e);
    }
  }

  lemma EnterKeepsCounts(s: State, t: Thread, digest: Digest)
    requires Shape(s) && Counts(s) && t !in s.visits
    ensures Counts(EntryFor(s, t, digest))
  {
    var r := EntryFor(s, t, digest);
    forall e | e in r.entries ensures Counted(r, e) {
      EnterKeepsCount(s, t, digest, e);
    }
  }

  lemma EnterKeepsInv(s: State, t: Thread, digest: Digest, maxKeys: nat)
    requires Inv(s, maxKeys) && t !in s.visits
    ensures Inv(EntryFor(s, t, digest), maxKeys)
  {
    hide Counts;
    EnterKeepsShape(s, t, digest);
    EnterKeepsCounts(s, t, digest);
    assert Idle(EntryFor(s, t, digest)) <= Idle(s) by {
      forall e | e in s.entries ensures s.entries[e].refs >= 0 {
        CountsAreNatural(s, e);
      }
    }
    SubsetSize(Idle(EntryFor(s, t, digest)), Idle(s));
  }

  lemma CountsAreNatural(s: State, e: EntryId)
    requires Counts(s) && e in s.entries
    ensures s.entries[e].refs >= 0
  {
    assert Counted(s, e);
  }

  lemma MoveKeepsShape(s: State, t: Thread, place: Place, held: bool)
    requires Shape(s) && t in s.visits
    ensures Shape(Moved(s, t, place, held))
  {
  }

  /** Taking needs a free token, draining frees it, cancelling leaves it alone. */
  predicate TokenMoves(was: Place, place: Place, token: bool, held: bool) {
    && (place == Holding ==> was != Holding && !token && held)
    && (place != Holding ==> held == (was != Holding && token))
  }

  lemma MoveKeepsCount(s: State, t: Thread, place: Place, held: bool, e: EntryId)
    requires t in s.visits && s.visits[t].entry in s.entries && e in s.entries && Counted(s, e)
    requires TokenMoves(s.visits[t].place, place, s.entries[s.visits[t].entry].held, held)
    ensures Counted(Moved(s, t, place, held), e)
  {
    hide Sum, AtEntry, HoldsEntry;
    CountChanged(s.visits, t, s.visits[t].(place := place), e);
    CountRemoved(s.visits, t, e);
  }

  lemma MoveKeepsCounts(s: State, t: Thread, place: Place, held: bool)
    requires Shape(s) && Counts(s) && t in s.visits
    requires TokenMoves(s.visits[t].place, place, s.entries[s.visits[t].entry].held, held)
    ensures Counts(Moved(s, t, place, held))
  {
    var r := Moved(s, t, place, held);
    forall e | e in r.entries ensures Counted(r, e) {
      MoveKeepsCount(s, t, place, held, e);
    }
  }

  lemma MoveKeepsInv(s: State, t: Thread, place: Place, held: bool, maxKeys: nat)
    requires Inv(s, maxKeys) && t in s.visits
    requires TokenMoves(s.visits[t].place, place, s.entries[s.visits[t].entry].held, held)
    ensures Inv(Moved(s, t, place, held), maxKeys)
  {
    hide Counts;
    MoveKeepsShape(s, t, place, held);
    MoveKeepsCounts(s, t, place, held);
    assert Idle(Moved(s, t, place, held)) == Idle(s);
  }

  /** The last reference is dropped only when nobody else is at the entry. */
  lemma DropKeepsLive(s: State, t: Thread, u: Thread)
    requires Shape(s) && Counts(s) && t in s.visits && u in s.visits && u != t && s.visits[u].entry == s.visits[t].entry
    ensures s.entries[s.visits[t].entry].refs >= 2
  {
    hide Sum;
    var e := s.visits[t].entry;
    assert Counted(s, e);
    CountRemoved(s.visits, t, e);
    CountRemoved(s.visits - {t}, u, e);
  }

  lemma DropKeepsShape(s: State, t: Thread, maxKeys: nat)
    requires Shape(s) && Counts(s) && t in s.visits
    ensures Shape(ReleaseEntry(s, t, maxKeys))
  {
    hide Counts;
    var r := ReleaseEntry(s, t, maxKeys);
    forall u | u in r.visits ensures r.visits[u].digest in r.keys && r.keys[r.visits[u].digest] == r.visits[u].entry {
      if r.visits[u].digest == s.visits[t].digest {
        DropKeepsLive(s, t, u);
      }
    }
  }

  lemma DropKeepsCount(s: State, t: Thread, maxKeys: nat, e: EntryId)
    requires Enabled(s, Drop(t)) && e in s.entries && Counted(s, e)
    ensures Counted(ReleaseEntry(s, t, maxKeys), e)
  {
    hide Sum, AtEntry, HoldsEntry;
    CountRemoved(s.visits, t, e);
  }

  lemma DropKeepsCounts(s: State, t: Thread, maxKeys: nat)
    requires Counts(s) && Enabled(s, Drop(t))
    ensures Counts(ReleaseEntry(s, t, maxKeys))
  {
    forall e | e in ReleaseEntry(s, t, maxKeys).entries ensures Counted(ReleaseEntry(s, t, maxKeys), e) {
      DropKeepsCount(s, t, maxKeys, e);
    }
  }

  lemma DropKeepsInv(s: State, t: Thread, maxKeys: nat)
    requires Inv(s, maxKeys) && Enabled(s, Drop(t))
    ensures Inv(ReleaseEntry(s, t, maxKeys), maxKeys)
  {
    hide Counts;
    var r := ReleaseEntry(s, t, maxKeys);
    DropKeepsShape(s, t, maxKeys);
    DropKeepsCounts(s, t, maxKeys);
    if |s.keys| <= maxKeys {
      assert Idle(r) <= s.keys.Keys;
      SubsetSize(Idle(r), s.keys.Keys);
    } else {
      assert Idle(r) <= Idle(s);
      SubsetSize(Idle(r), Idle(s));
    }
  }

  lemma StepKeepsInv(s: State, step: Step, maxKeys: nat)
    requires Inv(s, maxKeys) && Enabled(s, step)
    ensures Inv(Apply(s, step, maxKeys), maxKeys)
  {
    hide Counts;
    match step
    case Enter(t, digest) => EnterKeepsInv(s, t, digest, maxKeys);
    case Take(t) => MoveKeepsInv(s, t, Holding, true, maxKeys);
    case Cancel(t) => MoveKeepsInv(s, t, Leaving, s.entries[s.visits[t].entry].held, maxKeys);
    case Drain(t) => MoveKeepsInv(s, t, Leaving, false, maxKeys);
    case Drop(t) => DropKeepsInv(s, t, maxKeys);
  }

  // ---- Every interleaving -------------------------------------------------------------------------

  ghost predicate Run(s: State, steps: seq<Step>, maxKeys: nat)
    decreases |steps|
  {
    steps == [] ||
    (Enabled(s, steps[0]) && KeysAllocated(s) && VisitsAllocated(s) && Run(Apply(s, steps[0], maxKeys), steps[1..], maxKeys))
  }

  ghost function End(s: State, steps: seq<Step>, maxKeys: nat): (r: State)
    requires Run(s, steps, maxKeys)
    decreases |steps|
  {
    if steps == [] then s else End(Apply(s, steps[0], maxKeys), steps[1..], maxKeys)
  }

  const EmptyFence := State(map[], map[], 0, map[])

  /** At most one thread holds a digest. */
  ghost predicate Exclusive(s: State) {
    forall t, u | t in s.visits && u in s.visits && s.visits[t].place == Holding && s.visits[u].place == Holding &&
                  s.visits[t].digest == s.visits[u].digest :: t == u
  }

  lemma OneHolder(s: State, t: Thread, u: Thread, maxKeys: nat)
    requires Inv(s, maxKeys) && t in s.visits && u in s.visits && s.visits[t].digest == s.visits[u].digest
    requires s.visits[t].place == Holding && s.visits[u].place == Holding
    ensures t == u
  {
    hide Sum, AtEntry, HoldsEntry;
    var e := s.visits[t].entry;
    assert s.visits[u].entry == e && Counted(s, e);
    if t != u {
      CountRemoved(s.visits, t, e);
      CountRemoved(s.visits - {t}, u, e);
    }
  }

  lemma {:induction false} RunKeepsInv(s: State, steps: seq<Step>, maxKeys: nat)
    requires Inv(s, maxKeys) && Run(s, steps, maxKeys)
    ensures Inv(End(s, steps, maxKeys), maxKeys)
    decreases |steps|
  {
    if steps != [] {
      hide Inv, Apply, Enabled;
      StepKeepsInv(s, steps[0], maxKeys);
      RunKeepsInv(Apply(s, steps[0], maxKeys), steps[1..], maxKeys);
    }
  }

  /**
   From the empty fencer, in every interleaving: one holder per digest at most;
   an entry with a waiter, holder or releaser is the one in the map; its count is
   their number; its token is out exactly while one of them holds it; and no more
   than maxKeys entries are kept idle. When everybody has left, the map itself is
   that small.
   */
  lemma FenceSafe(steps: seq<Step>, maxKeys: nat)
    requires Run(EmptyFence, steps, maxKeys)
    ensures var s := End(EmptyFence, steps, maxKeys);
            && Exclusive(s) && Shape(s) && Counts(s) && |Idle(s)| <= maxKeys
            && (s.visits == map[] ==> |s.keys| <= maxKeys)
  {
    RunKeepsInv(EmptyFence, steps, maxKeys);
    var s := End(EmptyFence, steps, maxKeys);
    forall t, u | t in s.visits && u in s.visits && s.visits[t].place == Holding && s.visits[u].place == Holding &&
                  s.visits[t].digest == s.visits[u].digest
      ensures t == u
    {
      OneHolder(s, t, u, maxKeys);
    }
    if s.visits == map[] {
      forall d | d in s.keys ensures d in Idle(s) {
        assert Counted(s, s.keys[d]);
      }
      SubsetSize(s.keys.Keys, Idle(s));
    }
  }

  // ---- Progress -------------------------------------------------------------------------------------

  lemma {:induction false} SomebodyHolds(visits: map<Thread, Visit>, e: EntryId) returns (t: Thread)
    requires Sum(visits, HoldsEntry(e)) > 0
    ensures t in visits && visits[t].entry == e && visits[t].place == Holding
    decreases visits.Keys
  {
    if u :| u in visits && visits[u].entry == e && visits[u].place == Holding {
      t := u;
    } else {
      assert visits != map[];
      var u :| u in visits;
      CountRemoved(visits, u, e);
      t := SomebodyHolds(visits - {u}, e);
    }
  }

  /**
   Nobody waits in vain: in every interleaving, a thread that waits for a digest
   can take it now, or another thread holds that digest and can release it, after
   which the waiter can take it. Waiters never block each other, a holder can
   always release, a releaser can always leave, and a waiter can always give up.
   */
  lemma WaitersCanProceed(steps: seq<Step>, maxKeys: nat, t: Thread)
    requires Run(EmptyFence, steps, maxKeys) && t in End(EmptyFence, steps, maxKeys).visits
    ensures var s := End(EmptyFence, steps, maxKeys);
            match s.visits[t].place
            case Waiting =>
              && Enabled(s, Cancel(t))
              && (|| Enabled(s, Take(t))
                  || exists u :: && u in s.visits && s.visits[u].digest == s.visits[t].digest && s.visits[u].place == Holding
                                 && Enabled(s, Drain(u)) && FreesFor(s, u, t, maxKeys))
            case Holding => Enabled(s, Drain(t))
            case Leaving => Enabled(s, Drop(t))
  {
    RunKeepsInv(EmptyFence, steps, maxKeys);
    var s := End(EmptyFence, steps, maxKeys);
    if s.visits[t].place == Waiting && s.entries[s.visits[t].entry].held {
      var u := HolderCanRelease(s, t, maxKeys);
    }
  }

  lemma HolderCanRelease(s: State, t: Thread, maxKeys: nat) returns (u: Thread)
    requires Inv(s, maxKeys) && t in s.visits && s.visits[t].place == Waiting && s.entries[s.visits[t].entry].held
    ensures && u in s.visits && s.visits[u].digest == s.visits[t].digest && s.visits[u].place == Holding
            && Enabled(s, Drain(u)) && FreesFor(s, u, t, maxKeys)
  {
    hide Sum;
    assert Counted(s, s.visits[t].entry);
    u := SomebodyHolds(s.visits, s.visits[t].entry);
    SharedEntrySharedDigest(s, t, u);
  }

  /** Once `u` has released, `t` can take. */
  ghost predicate FreesFor(s: State, u: Thread, t: Thread, maxKeys: nat) {
    && Enabled(s, Drain(u)) && KeysAllocated(s) && VisitsAllocated(s)
    && Enabled(Apply(s, Drain(u), maxKeys), Take(t))
  }

  lemma SharedEntrySharedDigest(s: State, t: Thread, u: Thread)
    requires Shape(s) && t in s.visits && u in s.visits && s.visits[t].entry == s.visits[u].entry
    ensures s.visits[t].digest == s.visits[u].digest
  {
    assert s.keys[s.visits[t].digest] == s.keys[s.visits[u].digest];
  }

  /** What each step does for the thread that makes it: wait, hold, leave, be gone. */
  lemma StepMoves(s: State, step: Step, maxKeys: nat)
    requires Enabled(s, step) && KeysAllocated(s) && VisitsAllocated(s)
    ensures var r := Apply(s, step, maxKeys);
            && (step.Enter? ==> step.t in r.visits && r.visits[step.t].place == Waiting && r.visits[step.t].digest == step.digest)
            && (step.Take? ==>
                  step.t in r.visits && r.visits[step.t].place == Holding && r.visits[step.t].digest == s.visits[step.t].digest)
            && (step.Cancel? || step.Drain? ==> step.t in r.visits && r.visits[step.t].place == Leaving)
            && (step.Drop? ==> step.t !in r.visits)
            && (forall u | u != step.t :: (u in r.visits <==> u in s.visits) && (u in s.visits ==> r.visits[u] == s.visits[u]))
  {
  }

  // ---- What the fence is for ------------------------------------------------------------------------

  /** A durable reference to a stored object. */
  datatype Reference = Reference(owner: nat, digest: Digest)

  /** What the holder of a digest has done in its critical section. */
  datatype Work = Entered | PublishedObject | SawReference | SawNone

  datatype World = World(fence: State, work: map<Thread, Work>, objects: set<Digest>, references: set<Reference>)

  datatype Act =
    | Fenced(step: Step)
    | Publish(t: Thread)
    | Commit(t: Thread, owner: nat)
    | ReRead(t: Thread)
    | Delete(t: Thread)
    | Unref(r: Reference)

  ghost predicate Referenced(references: set<Reference>, d: Digest) {
    exists r | r in references :: r.digest == d
  }

  ghost predicate HoldsWith(w: World, t: Thread, work: Work) {
    t in w.fence.visits && w.fence.visits[t].place == Holding && t in w.work && w.work[t] == work
  }

  ghost predicate CanDo(w: World, act: Act) {
    match act
    case Fenced(step) => Enabled(w.fence, step) && KeysAllocated(w.fence) && VisitsAllocated(w.fence)
    case Publish(t) => HoldsWith(w, t, Entered)
    case Commit(t, owner) => HoldsWith(w, t, PublishedObject)
    case ReRead(t) => HoldsWith(w, t, Entered)
    case Delete(t) => HoldsWith(w, t, SawNone)
    case Unref(r) => true
  }

  ghost function Do(w: World, act: Act, maxKeys: nat): (r: World)
    requires CanDo(w, act)
  {
    match act
    case Fenced(step) => w.(fence := Apply(w.fence, step, maxKeys), work := if step.Take? then w.work[step.t := Entered] else w.work)
    case Publish(t) => w.(objects := w.objects + {w.fence.visits[t].digest}, work := w.work[t := PublishedObject])
    case Commit(t, owner) => w.(references := w.references + {Reference(owner, w.fence.visits[t].digest)})
    case ReRead(t) => w.(work := w.work[t := if Referenced(w.references, w.fence.visits[t].digest) then SawReference else SawNone])
    case Delete(t) => w.(objects := w.objects - {w.fence.visits[t].digest})
    case Unref(r) => w.(references := w.references - {r})
  }

  /** What each act does to the store and the references, and that it does nothing else to them. */
  lemma ActsDo(w: World, act: Act, maxKeys: nat)
    requires CanDo(w, act)
    ensures var r := Do(w, act, maxKeys);
            && (forall d :: d in r.objects <==>
                  || (act.Publish? && d == w.fence.visits[act.t].digest)
                  || (d in w.objects && !(act.Delete? && d == w.fence.visits[act.t].digest)))
            && (forall x :: x in r.references <==>
                  || (act.Commit? && x == Reference(act.owner, w.fence.visits[act.t].digest))
                  || (x in w.references && !(act.Unref? && x == act.r)))
  {
    hide Apply;
  }

  /**
   A collector that finds no reference may delete, and one that finds any may
   not; a writer may commit once it has published; a reference may be dropped
   at any time.
   */
  lemma ProtocolProceeds(w: World, t: Thread, owner: nat, maxKeys: nat)
    requires HoldsWith(w, t, Entered)
    ensures CanDo(w, Publish(t)) && CanDo(Do(w, Publish(t), maxKeys), Commit(t, owner)) && CanDo(w, ReRead(t))
    ensures forall r :: CanDo(w, Unref(r))
    ensures CanDo(Do(w, ReRead(t), maxKeys), Delete(t)) <==> forall r | r in w.references :: r.digest != w.fence.visits[t].digest
  {
  }

  /** Every committed reference names an object that is there. */
  ghost predicate NoneDangling(w: World) {
    forall r | r in w.references :: r.digest in w.objects
  }

  ghost predicate WorldInv(w: World, maxKeys: nat) {
    && Inv(w.fence, maxKeys) && NoneDangling(w)
    && (forall t | HoldsWith(w, t, PublishedObject) :: w.fence.visits[t].digest in w.objects)
    && (forall t | HoldsWith(w, t, SawNone) :: !Referenced(w.references, w.fence.visits[t].digest))
  }

  /** What other holders know is about other digests. */
  lemma OtherDigest(w: World, t: Thread, u: Thread, maxKeys: nat)
    requires Inv(w.fence, maxKeys) && t != u
    requires t in w.fence.visits && w.fence.visits[t].place == Holding && u in w.fence.visits && w.fence.visits[u].place == Holding
    ensures w.fence.visits[t].digest != w.fence.visits[u].digest
  {
    if w.fence.visits[t].digest == w.fence.visits[u].digest {
      OneHolder(w.fence, t, u, maxKeys);
    }
  }

  lemma HolderBefore(s: State, step: Step, maxKeys: nat, t: Thread)
    requires Enabled(s, step) && KeysAllocated(s) && VisitsAllocated(s)
    requires t in Apply(s, step, maxKeys).visits && Apply(s, step, maxKeys).visits[t].place == Holding
    ensures step == Take(t) ||
            (t in s.visits && s.visits[t].place == Holding && s.visits[t].digest == Apply(s, step, maxKeys).visits[t].digest)
  {
  }

  lemma FencedActKeepsWorldInv(w: World, step: Step, maxKeys: nat)
    requires WorldInv(w, maxKeys) && CanDo(w, Fenced(step))
    ensures WorldInv(Do(w, Fenced(step), maxKeys), maxKeys)
  {
    hide Inv, Referenced, EntryFor, ReleaseEntry, Moved;
    StepKeepsInv(w.fence, step, maxKeys);
    var x := Do(w, Fenced(step), maxKeys);
    forall t, k | k != Entered && HoldsWith(x, t, k)
      ensures HoldsWith(w, t, k) && w.fence.visits[t].digest == x.fence.visits[t].digest
    {
      HolderBefore(w.fence, step, maxKeys, t);
    }
  }

  lemma CommitReferences(references: set<Reference>, r: Reference, d: Digest)
    ensures Referenced(references + {r}, d) <==> Referenced(references, d) || d == r.digest
  {
    if Referenced(references, d) {
      var q :| q in references && q.digest == d;
      assert q in references + {r};
    }
    assert r in references + {r};
  }

  lemma OthersApart(w: World, t: Thread, maxKeys: nat)
    requires Inv(w.fence, maxKeys) && t in w.fence.visits && w.fence.visits[t].place == Holding
    ensures forall u | u != t && u in w.fence.visits && w.fence.visits[u].place == Holding ::
              w.fence.visits[u].digest != w.fence.visits[t].digest
  {
    hide Inv;
    forall u | u != t && u in w.fence.visits && w.fence.visits[u].place == Holding
      ensures w.fence.visits[u].digest != w.fence.visits[t].digest
    {
      OtherDigest(w, t, u, maxKeys);
    }
  }

  /** A writer's acts change nothing that the other holders rely on. */
  lemma WriterKeepsWorldInv(w: World, act: Act, maxKeys: nat)
    requires WorldInv(w, maxKeys) && CanDo(w, act) && (act.Publish? || act.Commit?)
    ensures WorldInv(Do(w, act, maxKeys), maxKeys)
  {
    hide Referenced, Inv;
    OthersApart(w, act.t, maxKeys);
    if act.Commit? {
      var d := w.fence.visits[act.t].digest;
      forall e ensures Referenced(w.references + {Reference(act.owner, d)}, e) <==> Referenced(w.references, e) || e == d {
        CommitReferences(w.references, Reference(act.owner, d), e);
      }
    }
  }

  /** Neither do a collector's. */
  lemma CollectorKeepsWorldInv(w: World, act: Act, maxKeys: nat)
    requires WorldInv(w, maxKeys) && CanDo(w, act) && (act.ReRead? || act.Delete?)
    ensures WorldInv(Do(w, act, maxKeys), maxKeys)
  {
    hide Referenced, Inv;
    OthersApart(w, act.t, maxKeys);
    if act.Delete? {
      Unreferenced(w.references, w.fence.visits[act.t].digest);
    }
  }

  lemma Unreferenced(references: set<Reference>, d: Digest)
    requires !Referenced(references, d)
    ensures forall r | r in references :: r.digest != d
  {
  }

  lemma ActKeepsWorldInv(w: World, act: Act, maxKeys: nat)
    requires WorldInv(w, maxKeys) && CanDo(w, act)
    ensures WorldInv(Do(w, act, maxKeys), maxKeys)
  {
    if act.Fenced? {
      FencedActKeepsWorldInv(w, act.step, maxKeys);
    } else if act.Publish? || act.Commit? {
      WriterKeepsWorldInv(w, act, maxKeys);
    } else if act.ReRead? || act.Delete? {
      CollectorKeepsWorldInv(w, act, maxKeys);
    } else {
      hide Inv;
    }
  }

  ghost predicate History(w: World, acts: seq<Act>, maxKeys: nat)
    decreases |acts|
  {
    acts == [] || (CanDo(w, acts[0]) && History(Do(w, acts[0], maxKeys), acts[1..], maxKeys))
  }

  ghost function Outcome(w: World, acts: seq<Act>, maxKeys: nat): (r: World)
    requires History(w, acts, maxKeys)
    decreases |acts|
  {
    if acts == [] then w else Outcome(Do(w, acts[0], maxKeys), acts[1..], maxKeys)
  }

  lemma {:induction false} HistoryKeepsWorldInv(w: World, acts: seq<Act>, maxKeys: nat)
    requires WorldInv(w, maxKeys) && History(w, acts, maxKeys)
    ensures WorldInv(Outcome(w, acts, maxKeys), maxKeys)
    decreases |acts|
  {
    if acts != [] {
      hide WorldInv, CanDo, Do;
      ActKeepsWorldInv(w, acts[0], maxKeys);
      HistoryKeepsWorldInv(Do(w, acts[0], maxKeys), acts[1..], maxKeys);
    }
  }

  /**
   Any number of writers that publish and then commit, and collectors that
   re-read and then delete, each under the digest's fence, with references
   dropped at any time: no history reaches a committed reference to a missing
   object.
   */
  lemma NoDanglingReference(objects: set<Digest>, references: set<Reference>, acts: seq<Act>, maxKeys: nat)
    requires forall r | r in references :: r.digest in objects
    requires History(World(EmptyFence, map[], objects, references), acts, maxKeys)
    ensures NoneDangling(Outcome(World(EmptyFence, map[], objects, references), acts, maxKeys))
  {
    var w := World(EmptyFence, map[], objects, references);
    assert Idle(EmptyFence) == {};
    HistoryKeepsWorldInv(w, acts, maxKeys);
  }
}
