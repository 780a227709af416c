/** The autotype queue: a key-event script played one step a tick
    (src/autotype.cpp). */
module Autotype {

  type Key = nat

  datatype Action = Type(key: Key) | Press(key: Key) | Release(key: Key) | Pause(frames: int) | Command(key: Key)
  {
    function KeyOrZero(): Key { if Pause? then 0 else key }
  }

  /** What one tick does to the outside. */
  datatype Event = KeyDown(key: Key) | KeyUp(key: Key) | Run(key: Key) | Silent

  /** The queue with its three timers and the command block. */
  datatype State = State(queue: seq<Action>, pauseCounter: int, awaitingRelease: bool, pendingKey: Key,
                         interCharPause: bool, blocked: bool)

  const IDLE := State([], 0, false, 0, false, false)

  /** No two timers run at once. */
  predicate Sound(s: State) {
    && !(s.awaitingRelease && s.interCharPause)
    && !(s.awaitingRelease && s.pauseCounter > 0)
    && !(s.interCharPause && s.pauseCounter > 0)
  }

  // ----- one step

  datatype Step = Step(state: State, event: Event, more: bool)

  /** tick. `blocks` is what the command callback would answer. */
  function Tick(s: State, blocks: bool): Step {
    if s.blocked then Step(s, Silent, true)
    else if s.awaitingRelease then
      Step(s.(awaitingRelease := false, pendingKey := 0, interCharPause := true), KeyUp(s.pendingKey), true)
    else if s.interCharPause then Step(s.(interCharPause := false), Silent, s.queue != [])
    else if s.pauseCounter > 0 then Step(s.(pauseCounter := s.pauseCounter - 1), Silent, true)
    else if s.queue == [] then Step(s, Silent, false)
    else
      var t := s.(queue := s.queue[1..]);
      match s.queue[0]
      case Type(k) => Step(t.(awaitingRelease := true, pendingKey := k), KeyDown(k), true)
      case Press(k) => Step(t, KeyDown(k), t.queue != [])
      case Release(k) => Step(t.(interCharPause := true), KeyUp(k), true)
      case Pause(n) => Step(t.(pauseCounter := n - 1), Silent, true)
      case Command(k) => Step(t.(blocked := blocks), Run(k), true)
  }

  predicate Active(s: State) {
    s.queue != [] || s.awaitingRelease || s.pauseCounter > 0 || s.interCharPause || s.blocked
  }

  // ----- the script still to be played

  function Quiet(n: nat): (r: seq<Event>)
    ensures |r| == n && forall i :: 0 <= i < n ==> r[i] == Silent
  {
    seq(n, _ => Silent)
  }

  function ActionEvents(a: Action): seq<Event> {
    match a
    case Type(k) => [KeyDown(k), KeyUp(k), Silent]
    case Press(k) => [KeyDown(k)]
    case Release(k) => [KeyUp(k), Silent]
    case Pause(n) => Quiet(if n < 1 then 1 else n)
    case Command(k) => [Run(k)]
  }

  function Script(actions: seq<Action>): seq<Event> {
    if actions == [] then [] else ActionEvents(actions[0]) + Script(actions[1..])
  }

  /** What the running timer still owes. */
  function Owed(s: State): seq<Event> {
    if s.awaitingRelease then [KeyUp(s.pendingKey), Silent]
    else if s.interCharPause then [Silent]
    else if s.pauseCounter > 0 then Quiet(s.pauseCounter)
    else []
  }

  function Residual(s: State): seq<Event> { Owed(s) + Script(s.queue) }

  function ActionCost(a: Action): nat {
    match a
    case Type(_) => 3
    case Press(_) => 1
    case Release(_) => 2
    case Pause(n) => if n < 1 then 1 else n
    case Command(_) => 1
  }

  function Cost(actions: seq<Action>): nat {
    if actions == [] then 0 else ActionCost(actions[0]) + Cost(actions[1..])
  }

  lemma {:induction false} ScriptLength(actions: seq<Action>)
    ensures |Script(actions)| == Cost(actions)
  {
    if actions != [] {
      ScriptLength(actions[1..]);
    }
  }

  lemma {:induction false} ScriptConcat(a: seq<Action>, b: seq<Action>)
    ensures Script(a + b) == Script(a) + Script(b)
  {
    if a == [] {
      assert a + b == b;
    } else {
      assert (a + b)[1..] == a[1..] + b;
      ScriptConcat(a[1..], b);
    }
  }

  /** Taking an action off the queue plays its first event and leaves a timer
      that owes the others. */
  lemma ActionPlays(s: State, blocks: bool)
    requires !s.blocked && Owed(s) == [] && s.queue != []
    ensures var r := Tick(s, blocks);
      && Sound(r.state) && r.state.queue == s.queue[1..]
      && [r.event] + Owed(r.state) == ActionEvents(s.queue[0])
  {
  }

  /** A running timer plays the first event it owes. */
  lemma TimerPlays(s: State, blocks: bool)
    requires Sound(s) && !s.blocked && Owed(s) != []
    ensures var r := Tick(s, blocks);
      Sound(r.state) && r.state.queue == s.queue && [r.event] + Owed(r.state) == Owed(s)
  {
  }

  /** An unblocked tick plays exactly the next event of what is left. */
  lemma TickPlays(s: State, blocks: bool)
    requires Sound(s) && !s.blocked
    ensures var r := Tick(s, blocks);
      && Sound(r.state)
      && (Residual(s) != [] ==> [r.event] + Residual(r.state) == Residual(s))
      && (Residual(s) == [] ==> r == Step(s, Silent, false))
  {
    hide ActionEvents;
    var r := Tick(s, blocks);
    if Owed(s) != [] {
      TimerPlays(s, blocks);
      Prepend([r.event], Owed(r.state), Script(s.queue));
    } else if s.queue != [] {
      ActionPlays(s, blocks);
      Prepend([r.event], Owed(r.state), Script(s.queue[1..]));
      assert Residual(s) == ActionEvents(s.queue[0]) + Script(s.queue[1..]);
    }
  }

  lemma Prepend(e: seq<Event>, a: seq<Event>, b: seq<Event>)
    ensures e + (a + b) == (e + a) + b
  {
  }

  /** Nothing is left to play exactly when the queue reports itself idle. */
  lemma ActiveMeansMore(s: State)
    requires Sound(s)
    ensures Active(s) <==> s.blocked || Residual(s) != []
  {
  }

  /** Every unblocked tick of an active queue costs exactly one. */
  lemma TickCost(s: State, blocks: bool)
    requires Sound(s) && !s.blocked && Active(s)
    ensures |Owed(Tick(s, blocks).state)| + Cost(Tick(s, blocks).state.queue) == |Owed(s)| + Cost(s.queue) - 1
  {
    TickPlays(s, blocks);
    ActiveMeansMore(s);
    ScriptLength(s.queue);
    ScriptLength(Tick(s, blocks).state.queue);
  }

  /** The answer "more to come" is wrong after the last frame of a pause and
      after a last command that did not block, and only then. */
  lemma AnswerExact(s: State, blocks: bool)
    requires Sound(s)
    ensures var r := Tick(s, blocks);
      r.more != Active(r.state) <==>
        && !s.blocked && !s.awaitingRelease && !s.interCharPause
        && ( || (s.pauseCounter == 1 && s.queue == [])
             || (s.pauseCounter <= 0 && |s.queue| == 1
                 && ((s.queue[0].Pause? && s.queue[0].frames <= 1) || (s.queue[0].Command? && !blocks))))
  {
  }

  // ----- the shape of a script

  /** Action k's events start after those of the actions before it. */
  lemma {:induction false} ActionPlace(actions: seq<Action>, k: nat)
    requires k < |actions|
    ensures var at, e := Cost(actions[..k]), ActionEvents(actions[k]);
      at + |e| <= |Script(actions)| && Script(actions)[at..at + |e|] == e
  {
    var p, q := actions[..k], actions[k..];
    assert actions == p + q;
    ScriptConcat(p, q);
    ScriptLength(p);
    assert Script(q) == ActionEvents(q[0]) + Script(q[1..]);
  }

  /** Every key-up is followed by a tick without an event. */
  ghost predicate QuietAfterUp(e: seq<Event>) {
    forall i :: 0 <= i < |e| && e[i].KeyUp? ==> i + 1 < |e| && e[i + 1] == Silent
  }

  lemma QuietConcat(a: seq<Event>, b: seq<Event>)
    requires QuietAfterUp(a) && QuietAfterUp(b)
    ensures QuietAfterUp(a + b)
  {
  }

  lemma {:induction false} ScriptQuiet(actions: seq<Action>)
    ensures QuietAfterUp(Script(actions))
  {
    if actions != [] {
      ScriptQuiet(actions[1..]);
      QuietConcat(ActionEvents(actions[0]), Script(actions[1..]));
    }
  }

  lemma ResidualQuiet(s: State)
    ensures QuietAfterUp(Residual(s))
  {
    ScriptQuiet(s.queue);
    QuietConcat(Owed(s), Script(s.queue));
  }

  // ----- whole runs

  datatype Call = DoTick(blocks: bool) | Enqueue(actions: seq<Action>) | Resume

  function After(s: State, c: Call): State {
    match c
    case DoTick(blocks) => Tick(s, blocks).state
    case Enqueue(actions) => s.(queue := s.queue + actions)
    case Resume => s.(blocked := false)
  }

  function RunState(s: State, calls: seq<Call>): State
    decreases |calls|
  {
    if calls == [] then s else RunState(After(s, calls[0]), calls[1..])
  }

  /** The events of the ticks that found the queue active and unblocked. */
  function Played(s: State, calls: seq<Call>): seq<Event>
    decreases |calls|
  {
    if calls == [] then []
    else
      (if calls[0].DoTick? && !s.blocked && Active(s) then [Tick(s, calls[0].blocks).event] else [])
      + Played(After(s, calls[0]), calls[1..])
  }

  function Enqueued(calls: seq<Call>): seq<Action> {
    if calls == [] then [] else (if calls[0].Enqueue? then calls[0].actions else []) + Enqueued(calls[1..])
  }

  lemma ScriptOfNone()
    ensures Script([]) == []
  {
  }

  lemma CallStep(s: State, c: Call)
    requires Sound(s)
    ensures Sound(After(s, c))
    ensures var e := if c.DoTick? && !s.blocked && Active(s) then [Tick(s, c.blocks).event] else [];
      e + Residual(After(s, c)) == Residual(s) + Script(if c.Enqueue? then c.actions else [])
  {
    hide Script, Tick, Residual;
    ScriptOfNone();
    assert Residual(s) + [] == Residual(s);
    match c
    case DoTick(blocks) =>
      ActiveMeansMore(s);
      if s.blocked { BlockedTick(s, blocks); } else { TickPlays(s, blocks); }
    case Enqueue(actions) => EnqueueAppends(s, actions);
    case Resume => SameResidual(s);
  }

  lemma BlockedTick(s: State, blocks: bool)
    requires s.blocked
    ensures Tick(s, blocks) == Step(s, Silent, true)
  {
  }

  /** Enqueuing puts the new events behind all that are left. */
  lemma EnqueueAppends(s: State, actions: seq<Action>)
    ensures Residual(s.(queue := s.queue + actions)) == Residual(s) + Script(actions)
  {
    hide Script;
    ScriptConcat(s.queue, actions);
    var t := s.(queue := s.queue + actions);
    assert Owed(t) == Owed(s);
    Prepend(Owed(s), Script(s.queue), Script(actions));
  }

  lemma SameResidual(s: State)
    requires Sound(s)
    ensures Residual(s.(blocked := false)) == Residual(s) && Sound(s.(blocked := false))
  {
  }

  /** First in, first out, nothing lost: over any run, what was played followed
      by what is left is what was left at the start followed by what was
      enqueued since. */
  lemma {:induction false} RunConserves(s: State, calls: seq<Call>)
    requires Sound(s)
    ensures Sound(RunState(s, calls))
    ensures Played(s, calls) + Residual(RunState(s, calls)) == Residual(s) + Script(Enqueued(calls))
    decreases |calls|
  {
    if calls == [] {
      assert Residual(s) + [] == Residual(s);
    } else {
      var c, t := calls[0], After(s, calls[0]);
      CallStep(s, c);
      RunConserves(t, calls[1..]);
      var e := if c.DoTick? && !s.blocked && Active(s) then [Tick(s, c.blocks).event] else [];
      var more := if c.Enqueue? then c.actions else [];
      ScriptConcat(more, Enqueued(calls[1..]));
      Rearrange(e, Played(t, calls[1..]), Residual(RunState(t, calls[1..])), Residual(t),
                Script(Enqueued(calls[1..])), Residual(s), Script(more));
    }
  }

  lemma Rearrange(e: seq<Event>, p: seq<Event>, end: seq<Event>, mid: seq<Event>, later: seq<Event>,
                  start: seq<Event>, now: seq<Event>)
    requires p + end == mid + later && e + mid == start + now
    ensures (e + p) + end == start + (now + later)
  {
    assert (e + p) + end == e + (p + end);
    assert e + (mid + later) == (e + mid) + later;
    assert (start + now) + later == start + (now + later);
  }

  /** A run from idle to idle plays the whole of what was enqueued, one event a
      tick, every key-up followed by a quiet tick. */
  lemma WholeRun(calls: seq<Call>)
    requires !Active(RunState(IDLE, calls))
    ensures Played(IDLE, calls) == Script(Enqueued(calls))
    ensures |Played(IDLE, calls)| == Cost(Enqueued(calls))
    ensures QuietAfterUp(Played(IDLE, calls))
  {
    RunConserves(IDLE, calls);
    ActiveMeansMore(RunState(IDLE, calls));
    ScriptLength(Enqueued(calls));
    ScriptQuiet(Enqueued(calls));
    assert Residual(IDLE) == [];
    assert Played(IDLE, calls) + [] == Played(IDLE, calls);
    assert [] + Script(Enqueued(calls)) == Script(Enqueued(calls));
  }

  // ----- the very next ticks

  /** A command blocks only where no timer runs. */
  predicate Settled(s: State) { Sound(s) && (s.blocked ==> Owed(s) == []) }

  lemma {:induction false} RunSettled(s: State, calls: seq<Call>)
    requires Settled(s)
    ensures Settled(RunState(s, calls))
    decreases |calls|
  {
    if calls != [] {
      RunSettled(After(s, calls[0]), calls[1..]);
    }
  }

  predicate NoTicks(calls: seq<Call>) { forall i :: 0 <= i < |calls| ==> !calls[i].DoTick? }

  lemma {:induction false} OwedStays(s: State, calls: seq<Call>)
    requires Settled(s) && Owed(s) != [] && NoTicks(calls)
    ensures Settled(RunState(s, calls)) && !RunState(s, calls).blocked && Owed(RunState(s, calls)) == Owed(s)
    decreases |calls|
  {
    if calls != [] {
      OwedStays(After(s, calls[0]), calls[1..]);
    }
  }

  /** Whatever is enqueued or resumed in between, the next tick plays the first
      event a timer owes: no tick is lost to a block. */
  lemma NextTickPlays(s: State, between: seq<Call>, blocks: bool)
    requires Settled(s) && Owed(s) != [] && NoTicks(between)
    ensures var r := Tick(RunState(s, between), blocks);
      Settled(r.state) && [r.event] + Owed(r.state) == Owed(s)
  {
    OwedStays(s, between);
    TimerPlays(RunState(s, between), blocks);
  }

  /** In every run, a typed key goes down on one tick, up on the very next, and
      the tick behind that is quiet. */
  lemma TypedKeyReleased(calls: seq<Call>, between: seq<Call>, behind: seq<Call>, b: bool, c: bool, d: bool)
    requires NoTicks(between) && NoTicks(behind)
    requires var s := RunState(IDLE, calls); !s.blocked && Owed(s) == [] && s.queue != [] && s.queue[0].Type?
    ensures var s := RunState(IDLE, calls);
      var down := Tick(s, b);
      var up := Tick(RunState(down.state, between), c);
      var rest := Tick(RunState(up.state, behind), d);
      && down.event == KeyDown(s.queue[0].key) && up.event == KeyUp(s.queue[0].key)
      && rest.event == Silent && Owed(rest.state) == []
  {
    hide Tick, Owed, RunState, ActionEvents;
    var s := RunState(IDLE, calls);
    assert Settled(s) by { IdleSettled(); RunSettled(IDLE, calls); }
    TypedKeyOwes(s, b);
    var down := Tick(s, b);
    NextTickPlays(down.state, between, c);
    var up := Tick(RunState(down.state, between), c);
    assert up.event == Owed(down.state)[0] && Owed(up.state) == Owed(down.state)[1..];
    NextTickPlays(up.state, behind, d);
    var rest := Tick(RunState(up.state, behind), d);
    assert rest.event == Owed(up.state)[0] && Owed(rest.state) == Owed(up.state)[1..];
  }

  lemma IdleSettled()
    ensures Settled(IDLE)
  {
  }

  lemma TypedKeyOwes(s: State, b: bool)
    requires Settled(s) && !s.blocked && Owed(s) == [] && s.queue != [] && s.queue[0].Type?
    ensures var r := Tick(s, b);
      && Settled(r.state) && r.event == KeyDown(s.queue[0].key)
      && Owed(r.state) == [KeyUp(s.queue[0].key), Silent]
  {
  }

  // ----- the keyboard

  function Moved(e: Event, held: set<Key>): set<Key> {
    match e
    case KeyDown(k) => held + {k}
    case KeyUp(k) => held - {k}
    case _ => held
  }

  /** The keys down after the events. */
  function Down(e: seq<Event>, held: set<Key>): set<Key>
    decreases |e|
  {
    if e == [] then held else Down(e[1..], Moved(e[0], held))
  }

  predicate Touches(a: Action, k: Key) { (a.Type? || a.Press? || a.Release?) && a.key == k }

  predicate Untouched(actions: seq<Action>, from: nat, k: Key) {
    forall j :: from <= j < |actions| ==> !Touches(actions[j], k)
  }

  predicate LastPress(actions: seq<Action>, i: nat, k: Key)
    requires i < |actions|
  {
    actions[i] == Press(k) && Untouched(actions, i + 1, k)
  }

  /** The last action on the key is a press; or there is none and it was down. */
  ghost predicate StaysDown(actions: seq<Action>, held: set<Key>, k: Key) {
    (k in held && Untouched(actions, 0, k)) || exists i :: 0 <= i < |actions| && LastPress(actions, i, k)
  }

  lemma {:induction false} DownConcat(a: seq<Event>, b: seq<Event>, held: set<Key>)
    ensures Down(a + b, held) == Down(b, Down(a, held))
    decreases |a|
  {
    if a == [] {
      assert a + b == b;
    } else {
      assert (a + b)[1..] == a[1..] + b;
      DownConcat(a[1..], b, Moved(a[0], held));
    }
  }

  lemma {:induction false} QuietDown(n: nat, held: set<Key>)
    ensures Down(Quiet(n), held) == held
  {
    if n > 0 {
      assert Quiet(n)[1..] == Quiet(n - 1);
      QuietDown(n - 1, held);
    }
  }

  lemma DownOne(e: Event, held: set<Key>)
    ensures Down([e], held) == Moved(e, held)
  {
    assert [e][1..] == [];
  }

  lemma ActionDown(a: Action, held: set<Key>, k: Key)
    ensures k in Down(ActionEvents(a), held) <==> a == Press(k) || (k in held && !Touches(a, k))
  {
    hide Down;
    match a
    case Type(x) =>
      assert ActionEvents(a) == [KeyDown(x)] + ([KeyUp(x)] + [Silent]);
      DownConcat([KeyDown(x)], [KeyUp(x)] + [Silent], held);
      DownConcat([KeyUp(x)], [Silent], held + {x});
      DownOne(KeyDown(x), held);
      DownOne(KeyUp(x), held + {x});
      DownOne(Silent, held + {x} - {x});
    case Press(x) => DownOne(KeyDown(x), held);
    case Release(x) =>
      assert ActionEvents(a) == [KeyUp(x)] + [Silent];
      DownConcat([KeyUp(x)], [Silent], held);
      DownOne(KeyUp(x), held);
      DownOne(Silent, held - {x});
    case Pause(n) => QuietDown(if n < 1 then 1 else n, held);
    case Command(x) => DownOne(Run(x), held);
  }

  lemma {:induction false} ScriptDown(actions: seq<Action>, held: set<Key>, k: Key)
    ensures k in Down(Script(actions), held) <==> StaysDown(actions, held, k)
    decreases |actions|
  {
    hide ActionEvents, Down, Touches;
    if actions == [] {
      DownNone(held);
    } else {
      var a, rest := actions[0], actions[1..];
      var next := Down(ActionEvents(a), held);
      DownConcat(ActionEvents(a), Script(rest), held);
      ScriptDown(rest, next, k);
      ActionDown(a, held, k);
      assert actions == [a] + rest;
      StaysFront(a, rest, held, next, k);
    }
  }

  lemma DownNone(held: set<Key>)
    ensures Down([], held) == held
  {
  }

  lemma UntouchedFront(a: Action, rest: seq<Action>, i: nat, k: Key)
    ensures Untouched([a] + rest, i + 1, k) <==> Untouched(rest, i, k)
    ensures Untouched([a] + rest, 0, k) <==> !Touches(a, k) && Untouched(rest, 0, k)
  {
    hide Touches;
    var all := [a] + rest;
    assert forall j :: 0 <= j < |rest| ==> rest[j] == all[j + 1];
    assert all[0] == a;
  }

  lemma StaysFront(a: Action, rest: seq<Action>, held: set<Key>, next: set<Key>, k: Key)
    requires k in next <==> a == Press(k) || (k in held && !Touches(a, k))
    ensures StaysDown([a] + rest, held, k) <==> StaysDown(rest, next, k)
  {
    hide Touches, Untouched;
    var all := [a] + rest;
    UntouchedFront(a, rest, 0, k);
    forall i: nat | i < |rest| ensures LastPress(all, i + 1, k) <==> LastPress(rest, i, k) {
      UntouchedFront(a, rest, i + 1, k);
    }
    if i :| 0 <= i < |all| && LastPress(all, i, k) {
      if i > 0 { assert LastPress(rest, i - 1, k); }
    }
    if i :| 0 <= i < |rest| && LastPress(rest, i, k) {
      assert LastPress(all, i + 1, k);
    }
    assert LastPress(all, 0, k) <==> a == Press(k) && Untouched(rest, 0, k);
  }

  /** After any run from idle to idle exactly those keys are down whose last
      action was a press, and those that were down and not acted on. */
  lemma KeysAfterRun(calls: seq<Call>, held: set<Key>, k: Key)
    requires !Active(RunState(IDLE, calls))
    ensures k in Down(Played(IDLE, calls), held) <==> StaysDown(Enqueued(calls), held, k)
  {
    hide Script, StaysDown;
    WholeRun(calls);
    ScriptDown(Enqueued(calls), held, k);
  }
}
