/** The generation-counted runner (ui/async/runner.go).

  dispatch, the workers and Poll share a result channel, a generation counter and
  the cancel handle; only dispatch and Stop take the mutex.  A result is known by
  the generation that made it. */
module Running {
  import opened Prelude

  // ----- the shared fields -----

  // `cancel` is the generation whose context the handle cancels.
  datatype Core = Core(channel: seq<nat>, cancel: Option<nat>, gen: nat)

  function Front(s: seq<nat>): Option<nat> {
    if s == [] then None else Some(s[0])
  }

  function Rest(s: seq<nat>): seq<nat> {
    if s == [] then s else s[1..]
  }

  // The non-blocking receive of dispatch and Poll.
  function Received(c: Core): Core {
    c.(channel := Rest(c.channel))
  }

  function Queued(c: Core, g: nat): Core {
    c.(channel := c.channel + [g])
  }

  // The end of dispatch under the mutex.
  function Renewed(c: Core): Core {
    c.(gen := c.gen + 1, cancel := Some(c.gen + 1))
  }

  // Poll's test, and that of a worker about to send.
  predicate Current(c: Core, g: nat) {
    g == c.gen
  }

  function Disowned(c: Core): Core {
    c.(cancel := None)
  }

  class Runner {
    var channel: seq<nat>
    const capacity: nat
    var cancel: Option<nat>
    var gen: nat

    ghost function View(): Core
      reads this
    {
      Core(channel, cancel, gen)
    }

    // Results come from generations that were handed out.
    ghost predicate Valid()
      reads this
    {
      |channel| <= capacity && forall g | g in channel :: g <= gen
    }

    // NewRunner
    constructor (bufferSize: int)
      ensures Valid() && View() == Core([], None, 0) && capacity == if bufferSize > 1 then bufferSize else 1
    {
      channel, cancel, gen := [], None, 0;
      capacity := if bufferSize > 1 then bufferSize else 1;
    }

    method TryReceive() returns (r: Option<nat>)
      modifies this
      ensures r == Front(old(channel)) && View() == Received(old(View()))
      ensures forall g | g in channel :: g in old(channel)
    {
      if |channel| == 0 {
        return None;
      }
      r := Some(channel[0]);
      channel := channel[1..];
    }

    // The end of a worker: its result is dropped if a newer operation was dispatched.
    // A full channel would keep it waiting.
    method Deliver(myGen: nat) returns (sent: bool)
      requires Valid() && |channel| < capacity && myGen <= gen
      modifies this
      ensures Valid() && sent == Current(old(View()), myGen)
      ensures View() == if sent then Queued(old(View()), myGen) else old(View())
    {
      if gen != myGen {
        return false;
      }
      channel := channel + [myGen];
      sent := true;
    }

    // dispatch, when nothing comes between its steps: one old result is taken out and
    // whatever is left is stale.
    method Dispatch() returns (myGen: nat, cancelled: Option<nat>)
      requires Valid()
      modifies this
      ensures Valid() && cancelled == old(cancel) && View() == Renewed(Received(old(View())))
      ensures Current(View(), myGen) && forall g | g in channel :: !Current(View(), g)
    {
      cancelled := cancel;
      var drained := TryReceive();
      gen := gen + 1;
      myGen := gen;
      cancel := Some(myGen);
    }

    // Poll, likewise: a stale result is taken out and dropped.
    method Poll() returns (r: Option<nat>)
      requires Valid()
      modifies this
      ensures Valid() && View() == Received(old(View()))
      ensures r.Some? <==> old(channel) != [] && Current(View(), old(channel)[0])
      ensures r.Some? ==> r.value == old(channel)[0] && forall g | g in channel :: g <= r.value
    {
      var res := TryReceive();
      match res {
        case None => r := None;
        case Some(g) => r := if g != gen then None else Some(g);
      }
    }

    method Stop() returns (cancelled: Option<nat>)
      modifies this
      ensures cancelled == old(cancel) && View() == Disowned(old(View()))
    {
      cancelled := cancel;
      if cancel.Some? {
        cancel := None;
      }
    }
  }

  // ----- interleavings -----

  datatype Phase =
    | Working   // fn runs
    | Finished  // it returned
    | Sending   // the generation check passed
    | Sent
    | Gone      // it gave up

  // Where dispatch is, between its unsynchronised steps.
  datatype Dispatch = Idle | Cancelled | Drained

  datatype State = State(
    core: Core, capacity: nat, dispatch: Dispatch,
    workers: map<nat, Phase>, cancelled: set<nat>,
    held: Option<nat>,   // received by Poll, not yet checked
    returned: seq<nat>)  // what Poll returned, in order

  datatype Event =
    | CancelPrior      // dispatch locks and cancels
    | Drain            // dispatch empties one slot
    | Bump             // dispatch takes the next generation and starts its worker
    | Stop
    | Timeout(g: nat)  // a context expires
    | Return(g: nat)   // fn returns
    | Check(g: nat)    // the worker compares generations
    | Send(g: nat)     // its send goes through
    | GiveUp(g: nat)   // its context was done first
    | Receive          // Poll takes a result
    | Deliver          // Poll compares generations

  function Init(capacity: nat): State {
    State(Core([], None, 0), capacity, Idle, map[], {}, None, [])
  }

  predicate In(s: State, g: nat, p: Phase) {
    g in s.workers && s.workers[g] == p
  }

  predicate Enabled(s: State, e: Event) {
    match e
    case CancelPrior => s.dispatch == Idle
    case Drain => s.dispatch == Cancelled
    case Bump => s.dispatch == Drained
    case Stop => s.dispatch == Idle
    case Timeout(g) => g in s.workers
    case Return(g) => In(s, g, Working)
    case Check(g) => In(s, g, Finished)
    case Send(g) => In(s, g, Sending) && |s.core.channel| < s.capacity
    case GiveUp(g) => In(s, g, Sending) && g in s.cancelled
    case Receive => s.held == None && s.core.channel != []
    case Deliver => s.held != None
  }

  function CancelledBy(s: State): set<nat> {
    match s.core.cancel case None => s.cancelled case Some(g) => s.cancelled + {g}
  }

  function Next(s: State, e: Event): State
    requires Enabled(s, e)
  {
    match e
    case CancelPrior => s.(cancelled := CancelledBy(s), dispatch := Cancelled)
    case Drain => s.(core := Received(s.core), dispatch := Drained)
    case Bump =>
      var c := Renewed(s.core);
      s.(core := c, workers := s.workers[c.gen := Working], dispatch := Idle)
    case Stop => s.(cancelled := CancelledBy(s), core := Disowned(s.core))
    case Timeout(g) => s.(cancelled := s.cancelled + {g})
    case Return(g) => s.(workers := s.workers[g := Finished])
    case Check(g) => s.(workers := s.workers[g := if Current(s.core, g) then Sending else Gone])
    case Send(g) => s.(core := Queued(s.core, g), workers := s.workers[g := Sent])
    case GiveUp(g) => s.(workers := s.workers[g := Gone])
    case Receive => s.(held := Front(s.core.channel), core := Received(s.core))
    case Deliver =>
      s.(held := None, returned := if Current(s.core, s.held.value) then s.returned + [s.held.value] else s.returned)
  }

  function RunFrom(s: State, events: seq<Event>): Option<State> {
    if events == [] then Some(s)
    else match RunFrom(s, events[..|events| - 1])
      case None => None
      case Some(t) => if Enabled(t, events[|events| - 1]) then Some(Next(t, events[|events| - 1])) else None
  }

  predicate Reachable(capacity: nat, events: seq<Event>, s: State) {
    RunFrom(Init(capacity), events) == Some(s)
  }

  // ----- what every run keeps -----

  function HeldSeq(s: State): seq<nat> {
    match s.held case None => [] case Some(g) => [g]
  }

  // The results that were sent and not drained, oldest first.
  function Results(s: State): seq<nat> {
    s.returned + HeldSeq(s) + s.core.channel
  }

  predicate Distinct(s: seq<nat>) {
    forall i, j | 0 <= i < j < |s| :: s[i] != s[j]
  }

  ghost predicate Invariant(s: State) {
    && (forall g :: g in s.workers <==> 1 <= g <= s.core.gen)
    && Distinct(Results(s)) && (forall g | g in Results(s) :: In(s, g, Sent))
    && Increasing(s.returned)
    && (s.core.gen > 0 ==> s.core.cancel == Some(s.core.gen) || s.core.gen in s.cancelled)
    && (s.dispatch != Idle && s.core.gen > 0 ==> s.core.gen in s.cancelled)
    && |s.core.channel| <= s.capacity
    && (s.core.gen > 0 && s.core.gen !in s.cancelled ==>
          !In(s, s.core.gen, Gone) && (In(s, s.core.gen, Sent) ==> s.core.gen in Results(s)))
  }

  // The steps that the class's methods are made of, seen from the results: one, once
  // sent, is taken out only by a Drain, or by a Deliver if it is stale.
  lemma ResultsMove(s: State, e: Event)
    requires Enabled(s, e)
    ensures var r, t := Results(s), Results(Next(s, e));
      match e
      case Send(g) => t == r + [g]
      case Drain => t == s.returned + HeldSeq(s) + Rest(s.core.channel)
      case Deliver => t == if s.held.value == s.core.gen then r else s.returned + s.core.channel
      case _ => t == r
  {
    var t := Next(s, e);
    match e
    case Receive =>
      assert s.returned + [] + s.core.channel == s.returned + [s.core.channel[0]] + s.core.channel[1..];
    case Deliver =>
      assert s.returned + [] + s.core.channel == s.returned + s.core.channel;
      assert s.returned + [s.held.value] + [] + s.core.channel == s.returned + [s.held.value] + s.core.channel;
    case Send(g) =>
      assert Results(t) == Results(s) + [g];
    case _ =>
  }

  lemma ResultsStay(s: State, e: Event)
    requires Invariant(s) && Enabled(s, e)
    ensures var t := Next(s, e);
      && Distinct(Results(t)) && (forall g | g in Results(t) :: In(t, g, Sent))
  {
    var t := Next(s, e);
    var r := Results(s);
    ResultsMove(s, e);
    match e
    case Send(g) =>
      assert g !in r;
    case Drain =>
      DropOne(s.returned + HeldSeq(s), s.core.channel);
    case Deliver =>
      if s.held.value != s.core.gen {
        assert r == s.returned + ([s.held.value] + s.core.channel);
        DropOne(s.returned, [s.held.value] + s.core.channel);
        assert ([s.held.value] + s.core.channel)[1..] == s.core.channel;
      }
    case _ =>
  }

  lemma DropOne(a: seq<nat>, b: seq<nat>)
    ensures Distinct(a + b) ==> Distinct(a + Rest(b))
    ensures forall g :: g in a + Rest(b) ==> g in a + b
    ensures b != [] ==> forall g :: g in a + b ==> g in a + Rest(b) || g == b[0]
  {
    if b != [] {
      forall i | 0 <= i < |a + Rest(b)| ensures (a + Rest(b))[i] == (a + b)[if i < |a| then i else i + 1] {}
      assert b == [b[0]] + Rest(b);
    } else {
      assert a + Rest(b) == a + b;
    }
  }

  // Poll returns only the current generation, and each once.
  lemma ReturnedIncreases(s: State, e: Event)
    requires Invariant(s) && Enabled(s, e)
    ensures Increasing(Next(s, e).returned)
  {
    if e == Deliver && s.held.value == s.core.gen {
      var r := Results(s);
      assert r[|s.returned|] == s.core.gen;
      forall i | 0 <= i < |s.returned| ensures s.returned[i] < s.core.gen {
        assert r[i] == s.returned[i] && r[i] in r;
      }
    }
  }

  // The newest result, unless cancelled, is on its way.
  lemma NewestKept(s: State, e: Event)
    requires Invariant(s) && Enabled(s, e)
    ensures var t := Next(s, e);
      t.core.gen > 0 && t.core.gen !in t.cancelled ==>
        !In(t, t.core.gen, Gone) && (In(t, t.core.gen, Sent) ==> t.core.gen in Results(t))
  {
    var t := Next(s, e);
    ResultsMove(s, e);
    if e.Deliver? && s.held.value != s.core.gen {
      assert Results(s) == s.returned + ([s.held.value] + s.core.channel);
      DropOne(s.returned, [s.held.value] + s.core.channel);
      assert ([s.held.value] + s.core.channel)[1..] == s.core.channel;
    }
  }

  // A dispatched operation has a generation that nothing refers to yet.
  lemma DispatchedIsNew(s: State)
    requires Invariant(s) && Enabled(s, Bump)
    ensures var t := Next(s, Bump);
      && t.core.gen !in s.workers && t.core.gen !in Results(t) && In(t, t.core.gen, Working)
      && forall g | g in s.workers || g in Results(t) :: !Current(t.core, g)
  {
    var t := Next(s, Bump);
    ResultsMove(s, Bump);
    forall g | g in Results(t) ensures g in s.workers {
      assert In(s, g, Sent);
    }
  }

  lemma InvariantStep(s: State, e: Event)
    requires Invariant(s) && Enabled(s, e)
    ensures Invariant(Next(s, e))
  {
    ResultsStay(s, e);
    ReturnedIncreases(s, e);
    NewestKept(s, e);
  }

  lemma {:induction false} RunInvariant(capacity: nat, events: seq<Event>, s: State)
    requires Reachable(capacity, events, s)
    ensures Invariant(s) && s.capacity == capacity
  {
    if events != [] {
      var n := |events| - 1;
      var t := RunFrom(Init(capacity), events[..n]).value;
      RunInvariant(capacity, events[..n], t);
      InvariantStep(t, events[n]);
    }
  }

  // Over every interleaving: Poll returns strictly newer generations each time, and
  // the newest operation's result is never dropped unless that was cancelled.
  lemma Delivery(capacity: nat, events: seq<Event>, s: State)
    requires Reachable(capacity, events, s)
    ensures Increasing(s.returned)
    ensures s.core.gen > 0 && s.core.gen !in s.cancelled ==>
      || In(s, s.core.gen, Working) || In(s, s.core.gen, Finished) || In(s, s.core.gen, Sending)
      || s.core.gen in s.core.channel || s.held == Some(s.core.gen) || s.core.gen in s.returned
  {
    RunInvariant(capacity, events, s);
    assert s.core.gen in Results(s) ==>
      s.core.gen in s.returned || s.core.gen in HeldSeq(s) || s.core.gen in s.core.channel;
  }

  // ----- and it does arrive -----

  // Polls that empty the channel.
  function Polls(n: nat): seq<Event> {
    if n == 0 then [] else Polls(n - 1) + [Receive, Deliver]
  }

  function Handover(s: State): seq<Event> {
    if s.held == None then [] else [Deliver]
  }

  lemma {:induction false} RunConcat(s: State, a: seq<Event>, b: seq<Event>)
    ensures RunFrom(s, a + b) == match RunFrom(s, a) case None => None case Some(t) => RunFrom(t, b)
    decreases |b|
  {
    hide Enabled, Next;
    if b == [] {
      assert a + b == a;
    } else {
      var n := |b| - 1;
      assert (a + b)[..|a| + n] == a + b[..n];
      RunConcat(s, a, b[..n]);
    }
  }

  lemma RunOne(s: State, e: Event)
    ensures RunFrom(s, []) == Some(s)
    ensures RunFrom(s, [e]) == if Enabled(s, e) then Some(Next(s, e)) else None
  {
    assert [e][..0] == [];
  }

  lemma RunTwo(s: State, e: Event, f: Event)
    requires Enabled(s, e) && Enabled(Next(s, e), f)
    ensures RunFrom(s, [e, f]) == Some(Next(Next(s, e), f))
  {
    RunOne(s, e);
    RunOne(Next(s, e), f);
    RunConcat(s, [e], [f]);
  }

  // What polling leaves alone.
  predicate OnlyPolled(s: State, t: State) {
    && t == s.(core := s.core.(channel := t.core.channel), held := t.held, returned := t.returned)
    && s.returned <= t.returned
  }

  lemma {:induction false} PollsEmpty(s: State, n: nat) returns (t: State)
    requires s.held == None && n <= |s.core.channel|
    ensures RunFrom(s, Polls(n)) == Some(t) && OnlyPolled(s, t)
    ensures t.held == None && t.core.channel == s.core.channel[n..]
  {
    if n == 0 {
      t := s;
    } else {
      var u := PollsEmpty(s, n - 1);
      t := Next(Next(u, Receive), Deliver);
      RunTwo(u, Receive, Deliver);
      RunConcat(s, Polls(n - 1), [Receive, Deliver]);
    }
  }

  // A worker of the newest generation that wants to send is not kept waiting by stale
  // results: polling alone clears the channel, its send goes through, and the next
  // Poll returns its result.
  lemma NewestArrives(capacity: nat, events: seq<Event>, s: State)
    requires Reachable(capacity, events, s) && capacity > 0 && s.core.gen > 0 && In(s, s.core.gen, Sending)
    ensures var more := Handover(s) + Polls(|s.core.channel|) + [Send(s.core.gen)] + [Receive, Deliver];
      exists t :: RunFrom(s, more) == Some(t) && t.returned != [] && t.returned[|t.returned| - 1] == s.core.gen
  {
    hide RunFrom, Invariant, Reachable;
    RunInvariant(capacity, events, s);
    var h := Handover(s);
    var s1 := if s.held == None then s else Next(s, Deliver);
    RunOne(s, Deliver);
    var s2 := PollsEmpty(s1, |s1.core.channel|);
    RunConcat(s, h, Polls(|s.core.channel|));
    assert s1.core.channel[|s1.core.channel|..] == [];
    RunOne(s2, Send(s.core.gen));
    RunConcat(s, h + Polls(|s.core.channel|), [Send(s.core.gen)]);
    var s3 := Next(s2, Send(s.core.gen));
    RunTwo(s3, Receive, Deliver);
    RunConcat(s, h + Polls(|s.core.channel|) + [Send(s.core.gen)], [Receive, Deliver]);
    var t := Next(Next(s3, Receive), Deliver);
    assert RunFrom(s, h + Polls(|s.core.channel|) + [Send(s.core.gen)] + [Receive, Deliver]) == Some(t);
    assert t.returned[|t.returned| - 1] == s.core.gen;
  }
}
