/**
 The three inactivity guards (internal/app/server_runner.go, internal/blob/s3.go,
 internal/cache/cache.go) against one specification, in timed runs in which a
 timer's callback may have been dispatched before the timer is reset or stopped.
 */
module Guards {
  import opened Base64

  /** What every guard is: watching since `last`, or over. */
  datatype Phase = Live | Fired | Stopped

  /** `closed` is done or stopped; `deadline` is when the timer is due, if it is armed. */
  datatype Guard = Guard(idle: nat, last: int, deadline: Option<int>, closed: bool, fired: bool) {
    function Phase(): Phase { if fired then Fired else if closed then Stopped else Live }
  }

  function NewGuard(idle: nat, now: int): Guard {
    Guard(idle, now, Some(now + idle), false, false)
  }

  /** idleGuard and s3BodyGuard re-arm on progress, storeStallGuard in the callback. */
  datatype Kind = IdleKind | BodyKind | StoreKind

  /** onIdle and check: fire after a full window without progress, else wait for the rest of it. */
  function OnTimer(kind: Kind, g: Guard, now: int): Guard {
    if g.closed then g
    else if g.idle - (now - g.last) > 0 then g.(deadline := Some(now + (g.idle - (now - g.last))))
    else g.(fired := true, closed := g.closed || !kind.StoreKind?)
  }

  function OnProgress(kind: Kind, g: Guard, now: int): Guard {
    if kind.StoreKind? then g.(last := now)
    else if g.closed then g
    else g.(last := now, deadline := Some(now + g.idle))
  }

  function OnStop(kind: Kind, g: Guard): Guard {
    if kind.IdleKind? && g.closed then g
    else if kind.StoreKind? && g.closed then g
    else g.(closed := true, deadline := None)
  }

  // ---- The guards as the code has them ------------------------------------------------------------

  /** idleGuard; whether it fired is known only to the context it cancelled. */
  class IdleGuard {
    const idle: nat
    var last: int
    var timer: Option<int>
    var done: bool
    ghost var cancelled: bool

    ghost function View(): Guard
      reads this
    {
      Guard(idle, last, timer, done, cancelled)
    }

    constructor (idle: nat, now: int)
      ensures View() == NewGuard(idle, now)
    {
      this.idle, last, timer, done, cancelled := idle, now, Some(now + idle), false, false;
    }

    method OnIdle(now: int) returns (cancel: bool)
      modifies this
      ensures View() == OnTimer(IdleKind, old(View()), now)
      ensures cancel <==> !old(done) && now - old(last) >= idle
      ensures last == old(last) && done == (old(done) || cancel) && cancelled == (old(cancelled) || cancel)
    {
      if done {
        return false;
      }
      var left := idle - (now - last);
      if left > 0 {
        timer := Some(now + left);
        return false;
      }
      done, cancelled := true, true;
      cancel := true;
    }

    method Reset(now: int)
      modifies this
      ensures View() == OnProgress(IdleKind, old(View()), now)
    {
      if done {
        return;
      }
      last, timer := now, Some(now + idle);
    }

    method Release()
      modifies this
      ensures View() == OnStop(IdleKind, old(View()))
      ensures done && (!old(done) ==> timer.None?) && last == old(last) && cancelled == old(cancelled)
    {
      if done {
        return;
      }
      done, timer := true, None;
    }
  }

  class BodyGuard {
    const idle: nat
    var last: int
    var timer: Option<int>
    var done: bool
    var fired: bool

    ghost function View(): Guard
      reads this
    {
      Guard(idle, last, timer, done, fired)
    }

    constructor (idle: nat, now: int)
      ensures View() == NewGuard(idle, now)
    {
      this.idle, last, timer, done, fired := idle, now, Some(now + idle), false, false;
    }

    method OnIdle(now: int) returns (cancel: bool)
      modifies this
      ensures View() == OnTimer(BodyKind, old(View()), now)
      ensures cancel <==> !old(done) && now - old(last) >= idle
      ensures last == old(last) && done == (old(done) || cancel) && fired == (old(fired) || cancel)
    {
      if done {
        return false;
      }
      var left := idle - (now - last);
      if left > 0 {
        timer := Some(now + left);
        return false;
      }
      done, fired := true, true;
      cancel := true;
    }

    method Progress(now: int)
      modifies this
      ensures View() == OnProgress(BodyKind, old(View()), now)
    {
      if done {
        return;
      }
      last, timer := now, Some(now + idle);
    }

    method Stop()
      modifies this
      ensures View() == OnStop(BodyKind, old(View()))
      ensures done && timer.None? && last == old(last) && fired == old(fired)
    {
      done := true;
      timer := None;
    }
  }

  class StallGuard {
    const idle: nat
    var last: int
    var timer: Option<int>
    var fired: bool
    var stopped: bool

    ghost function View(): Guard
      reads this
    {
      Guard(idle, last, timer, stopped, fired)
    }

    constructor (idle: nat, now: int)
      ensures View() == NewGuard(idle, now)
    {
      this.idle, last, timer, stopped, fired := idle, now, Some(now + idle), false, false;
    }

    method Check(now: int) returns (cancel: bool)
      modifies this
      ensures View() == OnTimer(StoreKind, old(View()), now)
      ensures cancel <==> !old(stopped) && now - old(last) >= idle
      ensures last == old(last) && stopped == old(stopped) && fired == (old(fired) || cancel)
    {
      if stopped {
        return false;
      }
      var left := idle - (now - last);
      if left > 0 {
        timer := Some(now + left);
        return false;
      }
      fired := true;
      cancel := true;
    }

    method Progress(now: int)
      modifies this
      ensures View() == OnProgress(StoreKind, old(View()), now)
    {
      last := now;
    }

    method Stop()
      modifies this
      ensures View() == OnStop(StoreKind, old(View()))
      ensures stopped && (!old(stopped) ==> timer.None?) && last == old(last) && fired == old(fired)
    {
      var first := !stopped;
      stopped := true;
      if first {
        timer := None;
      }
    }
  }

  // ---- Timed runs -----------------------------------------------------------------------------------

  /** `dispatched` callbacks are on their way; resetting or stopping the timer does not recall them. */
  datatype World = World(now: int, guard: Guard, dispatched: nat)

  datatype Event = Tick(to: int) | Progress | Stop | Dispatch | Callback

  predicate Enabled(w: World, e: Event) {
    match e
    case Tick(to) => to >= w.now
    case Dispatch => w.guard.deadline.Some? && w.guard.deadline.value <= w.now
    case Callback => w.dispatched > 0
    case _ => true
  }

  function Next(kind: Kind, w: World, e: Event): (r: World)
    requires Enabled(w, e)
  {
    match e
    case Tick(to) => w.(now := to)
    case Progress => w.(guard := OnProgress(kind, w.guard, w.now))
    case Stop => w.(guard := OnStop(kind, w.guard))
    case Dispatch => w.(guard := w.guard.(deadline := None), dispatched := w.dispatched + 1)
    case Callback => w.(guard := OnTimer(kind, w.guard, w.now), dispatched := w.dispatched - 1)
  }

  predicate Run(kind: Kind, w: World, events: seq<Event>)
    decreases |events|
  {
    events == [] || (Enabled(w, events[0]) && Run(kind, Next(kind, w, events[0]), events[1..]))
  }

  function End(kind: Kind, w: World, events: seq<Event>): (r: World)
    requires Run(kind, w, events)
    decreases |events|
  {
    if events == [] then w else End(kind, Next(kind, w, events[0]), events[1..])
  }

  // ---- The specification ------------------------------------------------------------------------------

  /** A watch that knows the time, when the transfer last made progress, and whether it is over. */
  datatype Watch = Watch(now: int, progressed: int, phase: Phase)

  /** Progress counts while the watch is live; it may fire after a full idle window without any; fired and stopped are final. */
  predicate WatchStep(idle: nat, a: Watch, b: Watch) {
    || b == a
    || (b.now >= a.now && b == a.(now := b.now))
    || (a.phase == Live && b == a.(progressed := a.now))
    || (a.phase == Live && a.now - a.progressed >= idle && b == a.(phase := Fired))
    || (a.phase == Live && b == a.(phase := Stopped))
  }

  /** When progress was last made while the guard was live, read off the run itself. */
  function LastProgress(kind: Kind, w: World, events: seq<Event>, progressed: int): (r: int)
    requires Run(kind, w, events)
    decreases |events|
  {
    if events == [] then progressed
    else LastProgress(kind, Next(kind, w, events[0]), events[1..],
                      if events[0] == Progress && w.guard.Phase() == Live then w.now else progressed)
  }

  /** When the guard fired in the run, `fired` if it did not. */
  function FiringTime(kind: Kind, w: World, events: seq<Event>, fired: int): (r: int)
    requires Run(kind, w, events)
    decreases |events|
  {
    if events == [] then fired
    else
      var x := Next(kind, w, events[0]);
      FiringTime(kind, x, events[1..], if w.guard.Phase() == Live && x.guard.Phase() == Fired then w.now else fired)
  }

  /** While live, the guard's own record is the progress of the run. */
  predicate Tracks(w: World, watch: Watch) {
    watch.now == w.now && watch.phase == w.guard.Phase() && (watch.phase == Live ==> watch.progressed == w.guard.last)
  }

  /** Every event of every guard is a step of the watch. */
  lemma Refines(kind: Kind, w: World, e: Event, progressed: int)
    requires Enabled(w, e) && Tracks(w, Watch(w.now, progressed, w.guard.Phase()))
    ensures var x := Next(kind, w, e);
            var p := if e == Progress && w.guard.Phase() == Live then w.now else progressed;
            && WatchStep(w.guard.idle, Watch(w.now, progressed, w.guard.Phase()), Watch(x.now, p, x.guard.Phase()))
            && Tracks(x, Watch(x.now, p, x.guard.Phase())) && x.guard.idle == w.guard.idle
  {
  }

  /** Fired and stopped are final: nothing counts any more. */
  lemma {:induction false} OverIsOver(kind: Kind, w: World, events: seq<Event>, progressed: int, fired: int)
    requires Run(kind, w, events) && w.guard.Phase() != Live
    ensures End(kind, w, events).guard.Phase() == w.guard.Phase()
    ensures LastProgress(kind, w, events, progressed) == progressed && FiringTime(kind, w, events, fired) == fired
    decreases |events|
  {
    if events != [] {
      OverIsOver(kind, Next(kind, w, events[0]), events[1..], progressed, fired);
    }
  }

  /** Stopping a live guard stops it; stopping one that is over changes nothing about that. */
  lemma StopStops(kind: Kind, w: World)
    ensures Next(kind, w, Stop).guard.Phase() == if w.guard.Phase() == Fired then Fired else Stopped
  {
  }

  /**
   Wherever in a run a live guard is stopped, it ends stopped: it never fires
   afterwards, whatever callbacks were dispatched before.
   */
  lemma {:induction false} StoppedNeverFires(kind: Kind, w: World, before: seq<Event>, after: seq<Event>)
    requires Run(kind, w, before + [Stop] + after)
    ensures Run(kind, w, before)
    ensures End(kind, w, before).guard.Phase() == Live ==> End(kind, w, before + [Stop] + after).guard.Phase() == Stopped
    decreases |before|
  {
    var events := before + [Stop] + after;
    if before == [] {
      assert events[0] == Stop && events[1..] == after;
      StopStops(kind, w);
      if w.guard.Phase() == Live {
        OverIsOver(kind, Next(kind, w, Stop), after, 0, 0);
      }
    } else {
      assert events[0] == before[0] && events[1..] == before[1..] + [Stop] + after;
      StoppedNeverFires(kind, Next(kind, w, before[0]), before[1..], after);
    }
  }

  /** Any progress while the guard is live restarts its window. */
  lemma ProgressRestarts(kind: Kind, w: World)
    requires w.guard.Phase() == Live
    ensures var g := Next(kind, w, Progress).guard; g.Phase() == Live && g.last == w.now && g.idle == w.guard.idle
  {
  }

  /**
   In every timed run, stale callbacks included, a guard fires only when a full
   idle window has passed since the run's last progress.
   */
  lemma {:induction false} FiresOnlyAfterSilence(kind: Kind, w: World, events: seq<Event>, progressed: int, fired: int)
    requires Run(kind, w, events) && Tracks(w, Watch(w.now, progressed, Live))
    ensures End(kind, w, events).guard.Phase() == Fired ==>
              FiringTime(kind, w, events, fired) - LastProgress(kind, w, events, progressed) >= w.guard.idle
    decreases |events|
  {
    if events != [] {
      Refines(kind, w, events[0], progressed);
      var x := Next(kind, w, events[0]);
      var p := if events[0] == Progress then w.now else progressed;
      hide Next, Enabled;
      if x.guard.Phase() == Live {
        FiresOnlyAfterSilence(kind, x, events[1..], p, fired);
      } else {
        OverIsOver(kind, x, events[1..], p, if x.guard.Phase() == Fired then w.now else fired);
      }
    }
  }

  // ---- Prompt runs --------------------------------------------------------------------------------------

  /** Timers go off when they are due and callbacks run before time moves on. */
  predicate Prompt(w: World, e: Event) {
    e.Tick? ==> w.dispatched == 0 && (w.guard.deadline.Some? ==> e.to <= w.guard.deadline.value)
  }

  predicate PromptRun(kind: Kind, w: World, events: seq<Event>)
    requires Run(kind, w, events)
    decreases |events|
  {
    events != [] ==> Prompt(w, events[0]) && PromptRun(kind, Next(kind, w, events[0]), events[1..])
  }

  /** A live guard has a timer due, or a callback under way, by the end of the window. */
  predicate Watched(w: World) {
    w.guard.Phase() == Live ==>
      && w.guard.last <= w.now <= w.guard.last + w.guard.idle
      && (w.dispatched > 0 || (w.guard.deadline.Some? && w.guard.deadline.value <= w.guard.last + w.guard.idle))
  }

  lemma StaysWatched(kind: Kind, w: World, e: Event)
    requires Enabled(w, e) && Prompt(w, e) && Watched(w)
    ensures Watched(Next(kind, w, e))
    ensures w.guard.Phase() == Live && Next(kind, w, e).guard.Phase() == Fired ==> w.now == w.guard.last + w.guard.idle
  {
  }

  /**
   Silence is detected on time: in every prompt run a guard that is still live
   has seen progress within the last idle window, and one that fires does so at
   exactly the run's last progress plus the window.
   */
  lemma {:induction false} SilenceIsDetected(kind: Kind, w: World, events: seq<Event>, progressed: int, fired: int)
    requires Run(kind, w, events) && PromptRun(kind, w, events) && Watched(w) && Tracks(w, Watch(w.now, progressed, Live))
    ensures var x := End(kind, w, events);
            var p := LastProgress(kind, w, events, progressed);
            && (x.guard.Phase() == Live ==> x.now <= p + w.guard.idle)
            && (x.guard.Phase() == Fired ==> FiringTime(kind, w, events, fired) == p + w.guard.idle)
    decreases |events|
  {
    if events != [] {
      StaysWatched(kind, w, events[0]);
      Refines(kind, w, events[0], progressed);
      var x := Next(kind, w, events[0]);
      var p := if events[0] == Progress then w.now else progressed;
      assert x.guard.Phase() == Fired ==> p == progressed;
      hide Next, Enabled, Prompt;
      if x.guard.Phase() == Live {
        SilenceIsDetected(kind, x, events[1..], p, fired);
      } else {
        OverIsOver(kind, x, events[1..], p, if x.guard.Phase() == Fired then w.now else fired);
      }
    }
  }

  /** A guard and its timer as they are started, before anything happens. */
  function Start(idle: nat, now: int): (w: World)
    ensures Watched(w) && Tracks(w, Watch(now, now, Live)) && w.guard.idle == idle
  {
    World(now, NewGuard(idle, now), 0)
  }

  /**
   Both halves for a guard of any kind from its start: it fires no earlier than a
   full window after the last progress; and if timers are prompt no later either.
   */
  lemma GuardIsPunctual(kind: Kind, idle: nat, now: int, events: seq<Event>)
    requires Run(kind, Start(idle, now), events)
    ensures var (w, p) := (End(kind, Start(idle, now), events), LastProgress(kind, Start(idle, now), events, now));
            && (w.guard.Phase() == Fired ==> FiringTime(kind, Start(idle, now), events, now) >= p + idle)
            && (PromptRun(kind, Start(idle, now), events) ==>
                  && (w.guard.Phase() == Live ==> w.now <= p + idle)
                  && (w.guard.Phase() == Fired ==> FiringTime(kind, Start(idle, now), events, now) == p + idle))
  {
    FiresOnlyAfterSilence(kind, Start(idle, now), events, now, now);
    if PromptRun(kind, Start(idle, now), events) {
      SilenceIsDetected(kind, Start(idle, now), events, now, now);
    }
  }
}
