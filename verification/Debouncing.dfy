/** The debounced writer (ui/async/debouncer.go).

  The class has the code of each critical section; the state machine interleaves
  them with the timer and with the writes, which run outside the mutex. */
module Debouncing {
  import opened Prelude

  // What the mutex guards.  `armed` says whether the timer is going to fire.
  datatype Core<T> = Core(pending: Option<T>, hasTimer: bool, armed: bool, inFlight: bool)

  function Scheduled<T>(c: Core<T>, v: T): Core<T> {
    c.(pending := Some(v), hasTimer := true, armed := true)
  }

  // The job that flush or Flush takes on entry.
  function Job<T>(c: Core<T>): Option<T> {
    if c.inFlight then None else c.pending
  }

  function Taken<T>(c: Core<T>): Core<T> {
    if Job(c).Some? then c.(pending := None, inFlight := true) else c
  }

  function Stopped<T>(c: Core<T>): Core<T> {
    c.(armed := c.armed && !c.hasTimer)
  }

  function Released<T>(c: Core<T>, rearm: bool): Core<T> {
    c.(inFlight := false, armed := c.armed || (rearm && c.pending.Some?))
  }

  class Debouncer<T> {
    var pending: Option<T>
    var hasTimer: bool
    var armed: bool
    var inFlight: bool

    ghost function View(): Core<T>
      reads this
    {
      Core(pending, hasTimer, armed, inFlight)
    }

    constructor ()
      ensures View() == Core(None, false, false, false)
    {
      pending, hasTimer, armed, inFlight := None, false, false, false;
    }

    // Schedule
    method Schedule(v: T)
      modifies this
      ensures View() == Scheduled(old(View()), v)
    {
      pending := Some(v);
      if !hasTimer {
        hasTimer, armed := true, true;
        return;
      }
      armed := true;
    }

    // flush, up to the write
    method FlushEnter() returns (job: Option<T>)
      modifies this
      ensures job == Job(old(View())) && View() == Taken(old(View()))
    {
      if inFlight {
        return None;
      }
      job := pending;
      pending := None;
      if job == None {
        return;
      }
      inFlight := true;
    }

    // flush, after the write
    method FlushExit()
      modifies this
      ensures View() == Released(old(View()), true)
    {
      inFlight := false;
      if pending != None {
        armed := true;
      }
    }

    // Flush, up to the write
    method StopEnter() returns (job: Option<T>)
      modifies this
      ensures job == Job(Stopped(old(View()))) && View() == Taken(Stopped(old(View())))
    {
      if hasTimer {
        armed := false;
      }
      job := FlushEnter();
    }

    // Flush, after the write
    method StopExit()
      modifies this
      ensures View() == Released(old(View()), false)
    {
      inFlight := false;
    }
  }

  // ----- interleavings -----

  // A write outside the mutex: whose it is, and whether write has returned.
  datatype Writer = Writer(job: nat, timer: bool, done: bool)

  // Values are numbered in the order of their Schedule calls.  `fired` counts the
  // timer callbacks that have not reached the mutex yet.
  datatype State = State(core: Core<nat>, scheduled: nat, fired: nat, writers: seq<Writer>, written: seq<nat>)

  datatype Event =
    | ScheduleCall       // Schedule
    | FlushCall          // Flush enters
    | Fire               // the armed timer starts a callback
    | Enter              // a callback enters flush
    | WriteDone(i: nat)  // write returns
    | Exit(i: nat)       // flush or Flush leaves

  const INIT := State(Core(None, false, false, false), 0, 0, [], [])

  predicate Enabled(s: State, e: Event) {
    match e
    case ScheduleCall => true
    case FlushCall => true
    case Fire => s.core.armed
    case Enter => s.fired > 0
    case WriteDone(i) => i < |s.writers| && !s.writers[i].done
    case Exit(i) => i < |s.writers| && s.writers[i].done
  }

  // The core c's job is handed to a new writer.
  function Begin(s: State, c: Core<nat>, timer: bool): State {
    match Job(c)
    case None => s.(core := Taken(c))
    case Some(j) => s.(core := Taken(c), writers := s.writers + [Writer(j, timer, false)])
  }

  function Next(s: State, e: Event): State
    requires Enabled(s, e)
  {
    match e
    case ScheduleCall => s.(core := Scheduled(s.core, s.scheduled), scheduled := s.scheduled + 1)
    case FlushCall => Begin(s, Stopped(s.core), false)
    case Fire => s.(core := s.core.(armed := false), fired := s.fired + 1)
    case Enter => Begin(s.(fired := s.fired - 1), s.core, true)
    case WriteDone(i) =>
      s.(writers := s.writers[i := s.writers[i].(done := true)], written := s.written + [s.writers[i].job])
    case Exit(i) => s.(core := Released(s.core, s.writers[i].timer), writers := s.writers[..i] + s.writers[i + 1..])
  }

  function RunFrom(s: State, events: seq<Event>): Option<State> {
    if events == [] then Some(s)
    else match RunFrom(s, events[..|events| - 1])
      case None => None
      case Some(t) => if Enabled(t, events[|events| - 1]) then Some(Next(t, events[|events| - 1])) else None
  }

  predicate Reachable(s: State, events: seq<Event>) {
    RunFrom(INIT, events) == Some(s)
  }

  // ----- what every run keeps -----

  predicate AllBelow(s: seq<nat>, n: nat) {
    forall i | 0 <= i < |s| :: s[i] < n
  }

  predicate LastWritten(s: State, j: nat) {
    s.written != [] && s.written[|s.written| - 1] == j
  }

  predicate Invariant(s: State) {
    && |s.writers| <= 1 && (s.core.inFlight <==> |s.writers| == 1)
    && (s.core.armed || s.core.pending.Some? ==> s.core.hasTimer)
    && Increasing(s.written) && AllBelow(s.written, s.scheduled)
    && (s.core.pending.Some? ==>
          && s.core.pending.value + 1 == s.scheduled
          && AllBelow(s.written, s.core.pending.value)
          && (|s.writers| == 1 ==> s.writers[0].job < s.core.pending.value))
    && (|s.writers| == 1 ==>
          && s.writers[0].job < s.scheduled
          && if s.writers[0].done then LastWritten(s, s.writers[0].job) else AllBelow(s.written, s.writers[0].job))
    && (s.core.pending.None? && s.scheduled > 0 ==>
          LastWritten(s, s.scheduled - 1) || (|s.writers| == 1 && s.writers[0].job == s.scheduled - 1))
  }

  lemma InvariantStep(s: State, e: Event)
    requires Invariant(s) && Enabled(s, e)
    ensures Invariant(Next(s, e))
  {
    var t := Next(s, e);
    if e.WriteDone? {
      assert t.written[..|s.written|] == s.written;
    }
  }

  lemma {:induction false} RunInvariant(events: seq<Event>, s: State)
    requires Reachable(s, events)
    ensures Invariant(s)
  {
    if events != [] {
      var n := |events| - 1;
      var t := RunFrom(INIT, events[..n]).value;
      RunInvariant(events[..n], t);
      InvariantStep(t, events[n]);
    }
  }

  // In every interleaving, Flush calls included: at most one write is in flight, and
  // values are written in the order they were scheduled, each at most once.
  lemma OneWriterInOrder(events: seq<Event>, s: State)
    requires Reachable(s, events)
    ensures |s.writers| <= 1 && Increasing(s.written) && AllBelow(s.written, s.scheduled)
  {
    RunInvariant(events, s);
  }

  // ----- nothing is left behind -----

  predicate Internal(e: Event) {
    !e.ScheduleCall? && !e.FlushCall?
  }

  predicate AllInternal(events: seq<Event>) {
    forall i | 0 <= i < |events| :: Internal(events[i])
  }

  // Nothing moves until someone calls.
  predicate Quiet(s: State) {
    !s.core.armed && s.fired == 0 && s.writers == []
  }

  lemma QuietIsStuck(s: State)
    ensures Quiet(s) <==> forall e: Event | Internal(e) :: !Enabled(s, e)
  {
    if !Quiet(s) {
      var e :=
        if s.core.armed then Fire
        else if s.fired > 0 then Enter
        else if s.writers[0].done then Exit(0)
        else WriteDone(0);
      assert Internal(e) && Enabled(s, e);
    }
  }

  // Every step nobody calls for brings quiet closer.
  function Measure(s: State): nat {
    (if s.core.pending.Some? then 4 else 0) + (if s.core.armed then 2 else 0) + s.fired + WriterMeasure(s.writers)
  }

  function WriterMeasure(ws: seq<Writer>): nat {
    if ws == [] then 0 else WriterMeasure(ws[..|ws| - 1]) + (if ws[|ws| - 1].done then 3 else 4)
  }

  lemma MeasureDecreases(s: State, e: Event)
    requires Invariant(s) && Enabled(s, e) && Internal(e)
    ensures Measure(Next(s, e)) < Measure(s)
  {
    var t := Next(s, e);
    WriterMeasureOne(s.writers);
    WriterMeasureOne(t.writers);
    InvariantStep(s, e);
  }

  lemma WriterMeasureOne(ws: seq<Writer>)
    requires |ws| <= 1
    ensures WriterMeasure(ws) == if ws == [] then 0 else if ws[0].done then 3 else 4
  {
    if ws != [] {
      assert ws[..0] == [];
    }
  }

  lemma {:induction false} InternalRunsEnd(s: State, events: seq<Event>, t: State)
    requires Invariant(s) && RunFrom(s, events) == Some(t) && AllInternal(events)
    ensures Invariant(t) && |events| + Measure(t) <= Measure(s)
  {
    if events != [] {
      var n := |events| - 1;
      var u := RunFrom(s, events[..n]).value;
      InternalRunsEnd(s, events[..n], u);
      InvariantStep(u, events[n]);
      MeasureDecreases(u, events[n]);
    }
  }

  // A pending value has a timer, a callback or a timer's write that will see to it.
  predicate Attended(s: State) {
    && (s.core.pending.Some? ==> s.core.armed || s.fired > 0 || s.writers != [])
    && (forall i | 0 <= i < |s.writers| :: s.writers[i].timer)
  }

  lemma AttendedStep(s: State, e: Event)
    requires Invariant(s) && Attended(s) && Enabled(s, e) && !e.FlushCall?
    ensures Attended(Next(s, e))
  {
  }

  lemma {:induction false} StaysAttended(s: State, events: seq<Event>, t: State)
    requires Invariant(s) && Attended(s) && RunFrom(s, events) == Some(t)
    requires forall i | 0 <= i < |events| :: !events[i].FlushCall?
    ensures Invariant(t) && Attended(t)
  {
    if events != [] {
      var n := |events| - 1;
      var u := RunFrom(s, events[..n]).value;
      StaysAttended(s, events[..n], u);
      InvariantStep(u, events[n]);
      AttendedStep(u, events[n]);
    }
  }

  // In runs without Flush no value is lost: a pending one is always attended to,
  // what is left to do is bounded, and once it is quiet the last value scheduled is
  // the last one written.
  lemma NoUpdateLost(events: seq<Event>, s: State)
    requires Reachable(s, events) && forall i | 0 <= i < |events| :: !events[i].FlushCall?
    ensures s.core.pending.Some? ==> s.core.armed || s.fired > 0 || s.writers != []
    ensures forall more: seq<Event>, t: State | RunFrom(s, more) == Some(t) && AllInternal(more) :: |more| <= Measure(s)
    ensures Quiet(s) && s.scheduled > 0 ==> LastWritten(s, s.scheduled - 1)
  {
    StaysAttended(INIT, events, s);
    forall more: seq<Event>, t: State | RunFrom(s, more) == Some(t) && AllInternal(more) ensures |more| <= Measure(s) {
      InternalRunsEnd(s, more, t);
    }
  }

  // ----- Flush -----

  lemma {:induction false} RunConcat(s: State, a: seq<Event>, b: seq<Event>)
    ensures RunFrom(s, a + b) == match RunFrom(s, a) case None => None case Some(t) => RunFrom(t, b)
    decreases |b|
  {
    if b == [] {
      assert a + b == a;
    } else {
      var n := |b| - 1;
      assert (a + b)[..|a| + n] == a + b[..n];
      RunConcat(s, a, b[..n]);
    }
  }

  lemma RunOne(s: State, e: Event)
    ensures RunFrom(s, [e]) == if Enabled(s, e) then Some(Next(s, e)) else None
  {
    assert [e][..0] == [];
  }

  lemma {:induction false} UntouchedPending(s: State, events: seq<Event>, t: State)
    requires Invariant(s) && s.core.pending.None? && RunFrom(s, events) == Some(t)
    requires forall i | 0 <= i < |events| :: !events[i].ScheduleCall?
    ensures Invariant(t) && t.core.pending.None? && t.scheduled == s.scheduled
  {
    if events != [] {
      var n := |events| - 1;
      var u := RunFrom(s, events[..n]).value;
      UntouchedPending(s, events[..n], u);
      InvariantStep(u, events[n]);
    }
  }

  // The write in flight ends and its owner leaves.
  function Leaving(s: State): seq<Event>
    requires |s.writers| == 1
  {
    (if s.writers[0].done then [] else [WriteDone(0)]) + [Exit(0)]
  }

  lemma LeavingRuns(s: State) returns (t: State)
    requires |s.writers| == 1
    ensures RunFrom(s, Leaving(s)) == Some(t) && t.writers == [] && t.core.pending == s.core.pending
  {
    var c, u := [WriteDone(0)], if s.writers[0].done then s else Next(s, WriteDone(0));
    RunOne(u, Exit(0));
    t := Next(u, Exit(0));
    if s.writers[0].done {
      assert Leaving(s) == [Exit(0)];
    } else {
      RunOne(s, WriteDone(0));
      RunConcat(s, c, [Exit(0)]);
    }
  }

  lemma NoneScheduled(s: State)
    requires |s.writers| == 1
    ensures forall i | 0 <= i < |Leaving(s)| :: !Leaving(s)[i].ScheduleCall?
  {
  }

  // Flush makes sure of the last value, whatever comes between, exactly if it finds no
  // write in flight or nothing pending.  Else the write that it skips is of an older value.
  lemma FlushWritesExactly(events: seq<Event>, s: State)
    requires Reachable(s, events) && s.scheduled > 0
    ensures (forall more: seq<Event>, t: State |
               RunFrom(Next(s, FlushCall), more) == Some(t) && t.writers == []
               && (forall i | 0 <= i < |more| :: !more[i].ScheduleCall?) ::
               t.core.pending.None? && LastWritten(t, s.scheduled - 1))
      <==> (!s.core.inFlight || s.core.pending.None?)
  {
    hide RunFrom, Leaving, Reachable;
    var s1 := Next(s, FlushCall);
    RunInvariant(events, s);
    InvariantStep(s, FlushCall);
    if !s.core.inFlight || s.core.pending.None? {
      forall more: seq<Event>, t: State |
        RunFrom(s1, more) == Some(t) && t.writers == [] && (forall i | 0 <= i < |more| :: !more[i].ScheduleCall?)
        ensures t.core.pending.None? && LastWritten(t, s.scheduled - 1)
      {
        UntouchedPending(s1, more, t);
      }
    } else {
      var t := LeavingRuns(s1);
      NoneScheduled(s1);
      assert t.core.pending.Some?;
    }
  }

  // A value scheduled while the timer's write of the one before is on: Flush returns, and
  // it is not written.
  lemma FlushSkips()
    ensures var events := [ScheduleCall, Fire, Enter, ScheduleCall, FlushCall];
      var s := RunFrom(INIT, events);
      && s.Some? && s.value.scheduled == 2 && s.value.written == []
      && s.value.core.pending == Some(1) && s.value.writers == [Writer(0, true, false)]
  {
    hide RunFrom;
    var events := [ScheduleCall, Fire, Enter, ScheduleCall, FlushCall];
    var a := State(Core(Some(0), true, true, false), 1, 0, [], []);
    var b := State(Core(Some(0), true, false, false), 1, 1, [], []);
    var c := State(Core(None, true, false, true), 1, 0, [Writer(0, true, false)], []);
    var d := State(Core(Some(1), true, true, true), 2, 0, [Writer(0, true, false)], []);
    assert events[..1] == [ScheduleCall];
    RunOne(INIT, ScheduleCall);
    RunStep(events, 1, a, b);
    RunStep(events, 2, b, c);
    RunStep(events, 3, c, d);
    RunStep(events, 4, d, Next(d, FlushCall));
    assert events[..5] == events;
  }

  lemma RunStep(events: seq<Event>, n: nat, s: State, t: State)
    requires n < |events| && RunFrom(INIT, events[..n]) == Some(s) && Enabled(s, events[n]) && Next(s, events[n]) == t
    ensures RunFrom(INIT, events[..n + 1]) == Some(t)
  {
    assert events[..n + 1][..n] == events[..n];
  }

  // ----- when a value is stranded -----

  function Enters(n: nat): seq<Event> {
    seq(n, _ => Enter)
  }

  // A run in which every callback finds Flush's write still going.
  function StrandingRun(s: State): seq<Event>
    requires |s.writers| == 1
  {
    [Fire] + Enters(s.fired + 1) + (if s.writers[0].done then [] else [WriteDone(0)]) + [Exit(0)]
  }

  lemma {:induction false} EntersDropped(s: State, n: nat)
    requires s.core.inFlight && n <= s.fired
    ensures RunFrom(s, Enters(n)) == Some(s.(fired := s.fired - n))
  {
    if n > 0 {
      EntersDropped(s, n - 1);
      assert Enters(n)[..n - 1] == Enters(n - 1);
    }
  }

  // What that run ends in.
  function StrandedState(s: State): State
    requires |s.writers| == 1
  {
    var w := s.writers[0];
    State(s.core.(armed := false, inFlight := false), s.scheduled, 0, [],
          if w.done then s.written else s.written + [w.job])
  }

  // The callbacks come and go while the write is on.
  lemma CallbacksDropped(s: State)
    requires |s.writers| == 1 && s.core.armed && s.core.inFlight
    ensures RunFrom(s, [Fire] + Enters(s.fired + 1)) == Some(s.(core := s.core.(armed := false), fired := 0))
  {
    hide Enters, RunFrom;
    var t := Next(s, Fire);
    RunOne(s, Fire);
    EntersDropped(t, s.fired + 1);
    RunConcat(s, [Fire], Enters(s.fired + 1));
    assert t.(fired := t.fired - (s.fired + 1)) == s.(core := s.core.(armed := false), fired := 0);
  }

  // The write ends and Flush leaves.
  lemma WriterLeaves(s: State)
    requires |s.writers| == 1 && !s.writers[0].timer && !s.core.armed && s.core.inFlight && s.fired == 0
    ensures RunFrom(s, (if s.writers[0].done then [] else [WriteDone(0)]) + [Exit(0)]) == Some(StrandedState(s))
  {
    var c := if s.writers[0].done then [] else [WriteDone(0)];
    var t := if s.writers[0].done then s else Next(s, WriteDone(0));
    if !s.writers[0].done {
      RunOne(s, WriteDone(0));
    }
    RunOne(t, Exit(0));
    RunConcat(s, c, [Exit(0)]);
    assert Next(t, Exit(0)) == StrandedState(s);
  }

  lemma StrandingRuns(s: State)
    requires |s.writers| == 1 && !s.writers[0].timer && s.core.armed && s.core.inFlight
    ensures RunFrom(s, StrandingRun(s)) == Some(StrandedState(s))
  {
    hide RunFrom, Enters;
    var a, b := [Fire] + Enters(s.fired + 1), (if s.writers[0].done then [] else [WriteDone(0)]) + [Exit(0)];
    var t := s.(core := s.core.(armed := false), fired := 0);
    CallbacksDropped(s);
    WriterLeaves(t);
    RunConcat(s, a, b);
    assert StrandingRun(s) == a + b;
  }

  lemma Strands(s: State)
    requires Invariant(s) && |s.writers| == 1 && !s.writers[0].timer
    ensures var s1 := Next(s, ScheduleCall);
      && |s1.writers| == 1 && AllInternal(StrandingRun(s1))
      && RunFrom(s1, StrandingRun(s1)) == Some(StrandedState(s1))
      && Quiet(StrandedState(s1)) && StrandedState(s1).core.pending == Some(s.scheduled)
      && AllBelow(StrandedState(s1).written, s.scheduled)
  {
    StrandingRuns(Next(s, ScheduleCall));
  }

  // A newly scheduled value can be left pending for good, if nobody calls again,
  // exactly when it is scheduled while a Flush's own write is in flight: that write
  // does not re-arm the timer.
  lemma StrandedExactly(events: seq<Event>, s: State)
    requires Reachable(s, events)
    ensures (exists more: seq<Event>, t: State ::
               RunFrom(Next(s, ScheduleCall), more) == Some(t) && AllInternal(more) && Quiet(t) && t.core.pending.Some?)
      <==> (s.writers != [] && !s.writers[0].timer)
  {
    RunInvariant(events, s);
    InvariantStep(s, ScheduleCall);
    var s1 := Next(s, ScheduleCall);
    if s.writers != [] && !s.writers[0].timer {
      Strands(s);
      var t := StrandedState(s1);
      assert RunFrom(s1, StrandingRun(s1)) == Some(t) && AllInternal(StrandingRun(s1)) && Quiet(t) &&
        t.core.pending.Some?;
    } else {
      forall more: seq<Event>, t: State | RunFrom(s1, more) == Some(t) && AllInternal(more) && Quiet(t)
        ensures t.core.pending.None?
      {
        StaysAttended(s1, more, t);
      }
    }
  }
}
