/**
 The reconnecting client under concurrent use.  Every `tcp_connect` call is a
 small program whose atomic steps interleave with all others; the lock is held
 across a connection attempt.
 */
module Reconnect {
  import opened Bytes

  type TaskId = nat
  type ConnId = nat

  // Where a call stands; `pass` is 0 before and 1 after its single retry.
  datatype Pc =
    | Entering(pass: nat)                       // waits for the lock in `current`
    | Connecting(pass: nat)                     // holds the lock, `connect` in flight
    | Using(pass: nat, client: ConnId)          // opens a stream on the client it was handed
    | Invalidating(failed: ConnId)              // that client died; waits for the lock in `invalidate`
    | Finished(outcome: Outcome)

  // What the caller gets: a stream, one of three errors, or nothing because it gave up.
  datatype Outcome = Opened | ClientClosed | ConnectError | StreamError | Cancelled

  // The fields behind the mutex, the lock's owner, the calls, and the connections that have closed.
  datatype State = State(
    client: Option<ConnId>, count: nat, closed: bool,
    owner: Option<TaskId>, tasks: map<TaskId, Pc>, dead: set<ConnId>)

  const INITIAL := State(None, 0, false, None, map[], {})

  datatype Step =
    | Call(t: TaskId)                           // a task calls `tcp_connect`
    | Enter(t: TaskId)                          // ... gets the lock in `current`
    | Connected(t: TaskId) | ConnectFailed(t: TaskId)
    | StreamOpened(t: TaskId) | StreamFailed(t: TaskId)
    | Invalidate(t: TaskId)                     // ... gets the lock in `invalidate`
    | Cancel(t: TaskId)                         // the caller drops the future
    | Close                                     // `close` gets the lock
    | ExternalInvalidate                        // a caller's own `invalidate` gets the lock
    | Dies(c: ConnId)                           // a connection closes

  predicate Stale(s: State) { s.client == None || s.client.value in s.dead }

  predicate IsEntering(s: State, t: TaskId) { t in s.tasks && s.tasks[t].Entering? }
  predicate IsConnecting(s: State, t: TaskId) { t in s.tasks && s.tasks[t].Connecting? }
  predicate IsUsing(s: State, t: TaskId) { t in s.tasks && s.tasks[t].Using? }
  predicate IsInvalidating(s: State, t: TaskId) { t in s.tasks && s.tasks[t].Invalidating? }

  function Goto(s: State, t: TaskId, pc: Pc): (r: State) { s.(tasks := s.tasks[t := pc]) }

  // `current`, from getting the lock to releasing it or starting to connect.
  function EnterCurrent(s: State, t: TaskId): (r: State)
    requires IsEntering(s, t)
  {
    if s.closed then Goto(s, t, Finished(ClientClosed))
    else if Stale(s) then Goto(s, t, Connecting(s.tasks[t].pass)).(owner := Some(t))
    else Goto(s, t, Using(s.tasks[t].pass, s.client.value))
  }

  /** One atomic step; a step that is not enabled leaves the state alone. */
  function Apply(s: State, step: Step): (r: State) {
    match step
    case Call(t) => if t in s.tasks then s else Goto(s, t, Entering(0))
    case Enter(t) => if !IsEntering(s, t) || s.owner.Some? then s else EnterCurrent(s, t)
    case Connected(t) =>
      if !IsConnecting(s, t) then s
      else
        // connections are numbered in the order they are established
        Goto(s, t, Using(s.tasks[t].pass, s.count)).(client := Some(s.count), count := s.count + 1, owner := None)
    case ConnectFailed(t) => if !IsConnecting(s, t) then s else Goto(s, t, Finished(ConnectError)).(owner := None)
    case StreamOpened(t) => if !IsUsing(s, t) then s else Goto(s, t, Finished(Opened))
    case StreamFailed(t) =>
      if !IsUsing(s, t) then s
      else if s.tasks[t].pass == 0 && s.tasks[t].client in s.dead then Goto(s, t, Invalidating(s.tasks[t].client))
      else Goto(s, t, Finished(StreamError))
    case Invalidate(t) =>
      if !IsInvalidating(s, t) || s.owner.Some? then s else Goto(s, t, Entering(1)).(client := None)
    case Cancel(t) =>
      if t !in s.tasks || s.tasks[t].Finished? then s
      else Goto(s, t, Finished(Cancelled)).(owner := if s.owner == Some(t) then None else s.owner)
    case Close => if s.owner.Some? then s else s.(closed := true, client := None)
    case ExternalInvalidate => if s.owner.Some? then s else s.(client := None)
    case Dies(c) => if c >= s.count then s else s.(dead := s.dead + {c})
  }

  function RunFrom(s: State, steps: seq<Step>): (r: State) {
    if steps == [] then s else Apply(RunFrom(s, steps[..|steps| - 1]), steps[|steps| - 1])
  }

  function Run(steps: seq<Step>): (s: State) { RunFrom(INITIAL, steps) }

  // ---------- what the history shows ----------

  // The step starts a connection attempt of call `t`, or completes one.
  predicate Starts(s: State, step: Step, t: TaskId) { step == Enter(t) && !IsConnecting(s, t) && IsConnecting(Apply(s, step), t) }

  predicate Establishes(s: State, step: Step) { step.Connected? && IsConnecting(s, step.t) }

  function StartsOf(steps: seq<Step>, t: TaskId): (n: nat) {
    if steps == [] then 0
    else StartsOf(steps[..|steps| - 1], t) + if Starts(Run(steps[..|steps| - 1]), steps[|steps| - 1], t) then 1 else 0
  }

  function Established(steps: seq<Step>): (n: nat) {
    if steps == [] then 0
    else Established(steps[..|steps| - 1]) + if Establishes(Run(steps[..|steps| - 1]), steps[|steps| - 1]) then 1 else 0
  }

  // Connects a call can have started by the time it is at `pc`.
  function Allowance(pc: Pc): (n: nat) {
    match pc
    case Entering(pass) => pass
    case Connecting(pass) => pass + 1
    case Using(pass, _) => pass + 1
    case Invalidating(_) => 1
    case Finished(_) => 2
  }

  predicate PassOk(pc: Pc) { (pc.Entering? || pc.Connecting? || pc.Using?) ==> pc.pass <= 1 }

  predicate ClientOk(pc: Pc, count: nat, dead: set<ConnId>) {
    && (pc.Using? ==> pc.client < count)
    && (pc.Invalidating? ==> pc.failed < count && pc.failed in dead)
  }

  ghost predicate Invariant(s: State) {
    && (s.closed ==> s.client == None && s.owner == None)
    && (forall t: TaskId :: s.owner == Some(t) <==> IsConnecting(s, t))
    && (s.client.Some? ==> s.client.value == s.count - 1)
    && (s.owner.Some? ==> Stale(s))
    && (forall c <- s.dead :: c < s.count)
    && (forall t <- s.tasks :: PassOk(s.tasks[t]))
    && (forall t <- s.tasks :: ClientOk(s.tasks[t], s.count, s.dead))
  }

  lemma EnterKeeps(s: State, t: TaskId)
    requires Invariant(s) && IsEntering(s, t) && s.owner == None
    ensures Invariant(EnterCurrent(s, t))
  {
  }

  lemma OtherStepsKeep(s: State, step: Step)
    requires Invariant(s) && !step.Enter?
    ensures Invariant(Apply(s, step))
  {
  }

  lemma StepKeeps(s: State, step: Step)
    requires Invariant(s)
    ensures Invariant(Apply(s, step))
  {
    if !step.Enter? {
      OtherStepsKeep(s, step);
    } else if IsEntering(s, step.t) && s.owner == None {
      EnterKeeps(s, step.t);
    }
  }

  /**
   Every state of every interleaving satisfies the invariant: at most one connect is
   in flight, none while a live client is installed, and the installed client is the
   newest one ever established.
   */
  lemma {:induction false} RunKeeps(s: State, steps: seq<Step>)
    requires Invariant(s)
    ensures Invariant(RunFrom(s, steps))
  {
    if steps != [] {
      RunKeeps(s, steps[..|steps| - 1]);
      StepKeeps(RunFrom(s, steps[..|steps| - 1]), steps[|steps| - 1]);
    }
  }

  // ---------- main results ----------

  /** The counter is the number of connects that succeeded. */
  lemma {:induction false} CountIsEstablished(steps: seq<Step>)
    ensures Run(steps).count == Established(steps)
  {
    if steps != [] {
      CountIsEstablished(steps[..|steps| - 1]);
    }
  }

  // Some `close` of the run got the lock.
  predicate WasClosed(steps: seq<Step>) {
    steps != []
    && (WasClosed(steps[..|steps| - 1]) || (steps[|steps| - 1] == Close && Run(steps[..|steps| - 1]).owner == None))
  }

  /** The client is closed exactly from the first `close` that gets the lock on. */
  lemma {:induction false} ClosedIff(steps: seq<Step>)
    ensures Run(steps).closed <==> WasClosed(steps)
  {
    if steps != [] {
      ClosedIff(steps[..|steps| - 1]);
    }
  }

  // Closed, with nothing installed and nobody connecting.
  predicate Shut(s: State) { s.closed && s.client == None && s.owner == None }

  /** Closing is final: whatever happens next, nothing is installed and no connect starts or succeeds. */
  lemma {:induction false} ClosedIsFinal(s: State, steps: seq<Step>, step: Step, t: TaskId)
    requires s.closed && Invariant(s)
    ensures Shut(RunFrom(s, steps)) && RunFrom(s, steps).count == s.count
    ensures !Starts(RunFrom(s, steps), step, t) && !Establishes(RunFrom(s, steps), step)
  {
    RunKeeps(s, steps);
    if steps != [] {
      ClosedIsFinal(s, steps[..|steps| - 1], step, t);
      RunKeeps(s, steps[..|steps| - 1]);
      ShutStays(RunFrom(s, steps[..|steps| - 1]), steps[|steps| - 1]);
    }
  }

  lemma ShutStays(s: State, step: Step)
    requires Shut(s) && Invariant(s)
    ensures Shut(Apply(s, step)) && Apply(s, step).count == s.count
  {
  }

  // What the counter of starts may have reached for call `t`.
  function AllowanceOf(s: State, t: TaskId): (n: nat) { if t in s.tasks then Allowance(s.tasks[t]) else 0 }

  lemma AllowanceStep(s: State, step: Step, t: TaskId)
    requires Invariant(s)
    ensures AllowanceOf(s, t) + (if Starts(s, step, t) then 1 else 0) <= AllowanceOf(Apply(s, step), t) <= 2
  {
    StepKeeps(s, step);
  }

  /** One `tcp_connect` call starts at most two connects, however calls interleave. */
  lemma {:induction false} AtMostTwoConnects(steps: seq<Step>, t: TaskId)
    ensures StartsOf(steps, t) <= AllowanceOf(Run(steps), t) <= 2
  {
    if steps != [] {
      AtMostTwoConnects(steps[..|steps| - 1], t);
      RunKeeps(INITIAL, steps[..|steps| - 1]);
      AllowanceStep(Run(steps[..|steps| - 1]), steps[|steps| - 1], t);
    }
  }

  /** A call is only ever handed the installed client: a live one, or the one it just connected. */
  lemma HandedClient(s: State, step: Step, t: TaskId)
    requires Invariant(s) && !IsUsing(s, t) && IsUsing(Apply(s, step), t)
    ensures var (s', c) := (Apply(s, step), Apply(s, step).tasks[t].client);
            && s'.client == Some(c)
            && (if Establishes(s, step) then c == s.count else s.client == Some(c) && c !in s.dead)
  {
  }

  // The step throws away an installed client that has not closed.
  predicate Discards(s: State, step: Step) {
    s.client.Some? && s.client.value !in s.dead && Apply(s, step).client == None
  }

  // The step empties the place of the installed client.
  predicate Clears(s: State, step: Step) {
    s.owner == None && (step == Close || step == ExternalInvalidate || (step.Invalidate? && IsInvalidating(s, step.t)))
  }

  // Step `i` established a connection that since then neither closed nor was cleared away.
  ghost predicate Stands(steps: seq<Step>, i: nat) {
    && i < |steps| && Establishes(Run(steps[..i]), steps[i])
    && forall j | i < j < |steps| :: steps[j] != Dies(Established(steps[..i])) && !Clears(Run(steps[..j]), steps[j])
  }

  lemma StandsBefore(steps: seq<Step>, i: nat)
    requires i < |steps| - 1
    ensures Stands(steps, i) <==>
              && Stands(steps[..|steps| - 1], i)
              && steps[|steps| - 1] != Dies(Established(steps[..i]))
              && !Clears(Run(steps[..|steps| - 1]), steps[|steps| - 1])
  {
    assert forall j | 0 <= j < |steps| :: steps[..|steps| - 1][..j] == steps[..j];
  }

  predicate Serves(s: State, c: ConnId) { s.client == Some(c) && c !in s.dead }

  lemma StepServes(s: State, step: Step, c: ConnId)
    requires Invariant(s) && Serves(s, c)
    ensures Serves(Apply(s, step), c) <==> step != Dies(c) && !Clears(s, step)
  {
  }

  lemma EstablishServes(s: State, step: Step)
    requires Invariant(s)
    ensures Establishes(s, step) ==> Serves(Apply(s, step), s.count)
    ensures !Stale(Apply(s, step)) ==> Establishes(s, step) || (!Stale(s) && Apply(s, step).client == s.client)
  {
  }

  lemma {:induction false} StandingServes(steps: seq<Step>, i: nat)
    requires Stands(steps, i)
    ensures Serves(Run(steps), Established(steps[..i]))
  {
    var before := steps[..|steps| - 1];
    RunKeeps(INITIAL, before);
    if i == |steps| - 1 {
      EstablishServes(Run(before), steps[i]);
      CountIsEstablished(before);
    } else {
      StandsBefore(steps, i);
      StandingServes(before, i);
      assert before[..i] == steps[..i];
      StepServes(Run(before), steps[|steps| - 1], Established(steps[..i]));
    }
  }

  lemma {:induction false} ServedStands(steps: seq<Step>) returns (i: nat)
    requires !Stale(Run(steps))
    ensures Stands(steps, i)
  {
    var (before, step) := (steps[..|steps| - 1], steps[|steps| - 1]);
    RunKeeps(INITIAL, before);
    EstablishServes(Run(before), step);
    if Establishes(Run(before), step) {
      i := |steps| - 1;
    } else {
      i := ServedStands(before);
      StandingServes(before, i);
      assert before[..i] == steps[..i];
      StepServes(Run(before), step, Established(steps[..i]));
      StandsBefore(steps, i);
    }
  }

  // Where a call can be once it has connected `c` itself.
  predicate HasConnected(pc: Pc, c: ConnId) {
    match pc
    case Entering(pass) => pass > 0
    case Connecting(pass) => pass > 0
    case Using(pass, client) => pass > 0 || client == c
    case Invalidating(failed) => failed == c
    case Finished(_) => true
  }

  lemma HasConnectedStays(s: State, step: Step, t: TaskId, c: ConnId)
    requires t in s.tasks && HasConnected(s.tasks[t], c)
    ensures t in Apply(s, step).tasks && HasConnected(Apply(s, step).tasks[t], c)
  {
  }

  lemma {:induction false} OwnConnection(steps: seq<Step>, i: nat)
    requires i < |steps| && Establishes(Run(steps[..i]), steps[i])
    ensures steps[i].t in Run(steps).tasks && HasConnected(Run(steps).tasks[steps[i].t], Established(steps[..i]))
  {
    var before := steps[..|steps| - 1];
    if i == |steps| - 1 {
      CountIsEstablished(before);
    } else {
      assert before[..i] == steps[..i];
      OwnConnection(before, i);
      HasConnectedStays(Run(before), steps[|steps| - 1], steps[i].t, Established(steps[..i]));
    }
  }

  lemma DiscardsIffLive(s: State, t: TaskId)
    requires IsInvalidating(s, t) && s.owner == None
    ensures Discards(s, Invalidate(t)) <==> !Stale(s)
  {
  }

  lemma ServingIsNewer(s: State, t: TaskId, c: ConnId)
    requires Invariant(s) && IsInvalidating(s, t) && Serves(s, c)
    ensures s.tasks[t].failed < c
  {
    assert ClientOk(s.tasks[t], s.count, s.dead);
  }

  lemma StandingIsAnothers(steps: seq<Step>, i: nat, t: TaskId)
    requires IsInvalidating(Run(steps), t) && Stands(steps, i)
    ensures steps[i].t != t && Run(steps).tasks[t].failed < Established(steps[..i])
  {
    RunKeeps(INITIAL, steps);
    StandingServes(steps, i);
    ServingIsNewer(Run(steps), t, Established(steps[..i]));
    OwnConnection(steps, i);
  }

  lemma LiveIffStands(steps: seq<Step>)
    ensures !Stale(Run(steps)) <==> exists i: nat :: Stands(steps, i)
  {
    if !Stale(Run(steps)) {
      var i := ServedStands(steps);
    } else if i: nat :| Stands(steps, i) {
      StandingServes(steps, i);
    }
  }

  /**
   A call's invalidation discards a live client if and only if some earlier step
   established one that has neither closed nor been cleared away since.  That step
   is then another call's, and its client newer than the one that failed this call.
   */
  lemma InvalidateDiscardsIff(steps: seq<Step>, t: TaskId)
    requires IsInvalidating(Run(steps), t) && Run(steps).owner == None
    ensures Discards(Run(steps), Invalidate(t)) <==> exists i: nat :: Stands(steps, i)
    ensures forall i: nat | Stands(steps, i) ::
              steps[i].t != t && Run(steps).tasks[t].failed < Established(steps[..i])
  {
    DiscardsIffLive(Run(steps), t);
    LiveIffStands(steps);
    forall i: nat | Stands(steps, i)
      ensures steps[i].t != t && Run(steps).tasks[t].failed < Established(steps[..i])
    {
      StandingIsAnothers(steps, i, t);
    }
  }

  // Two calls share connection 0; it dies under both; the first call reconnects and
  // succeeds on connection 1 before the second one gets to invalidate.
  const SHARE := [Call(0), Call(1), Enter(0), Connected(0)]
  const FAIL := [Enter(1), Dies(0), StreamFailed(0), StreamFailed(1)]
  const RETRY := [Invalidate(0), Enter(0), Connected(0), StreamOpened(0)]

  lemma {:induction false} RunConcat(s: State, a: seq<Step>, b: seq<Step>)
    ensures RunFrom(s, a + b) == RunFrom(RunFrom(s, a), b)
  {
    if b == [] {
      assert a + b == a;
    } else {
      RunConcat(s, a, b[..|b| - 1]);
      assert (a + b)[..|a + b| - 1] == a + b[..|b| - 1];
    }
  }

  lemma RunOne(s: State, step: Step)
    ensures RunFrom(s, [step]) == Apply(s, step)
  {
    assert [step][..0] == [];
  }

  lemma Run4(s: State, a: Step, b: Step, c: Step, d: Step)
    ensures RunFrom(s, [a, b, c, d]) == Apply(Apply(Apply(Apply(s, a), b), c), d)
  {
    RunOne(s, a);
    RunConcat(s, [a], [b]);
    RunConcat(s, [a, b], [c]);
    RunConcat(s, [a, b, c], [d]);
    RunOne(Apply(s, a), b);
    RunOne(Apply(Apply(s, a), b), c);
    RunOne(Apply(Apply(Apply(s, a), b), c), d);
    assert [a] + [b] == [a, b] && [a, b] + [c] == [a, b, c] && [a, b, c] + [d] == [a, b, c, d];
  }

  const SHARED := State(Some(0), 1, false, None, map[0 := Using(0, 0), 1 := Entering(0)], {})
  const FAILED := State(Some(0), 1, false, None, map[0 := Invalidating(0), 1 := Invalidating(0)], {0})
  const RETRIED := State(Some(1), 2, false, None, map[0 := Finished(Opened), 1 := Invalidating(0)], {0})

  lemma AfterShare()
    ensures RunFrom(INITIAL, SHARE) == SHARED
  {
    Run4(INITIAL, Call(0), Call(1), Enter(0), Connected(0));
  }

  lemma AfterFail()
    ensures RunFrom(SHARED, FAIL) == FAILED
  {
    Run4(SHARED, Enter(1), Dies(0), StreamFailed(0), StreamFailed(1));
  }

  lemma AfterRetry()
    ensures RunFrom(FAILED, RETRY) == RETRIED
  {
    Run4(FAILED, Invalidate(0), Enter(0), Connected(0), StreamOpened(0));
  }

  /** Invalidation is not tied to the failed connection: a call can throw away another call's fresh one. */
  lemma FreshClientCanBeDiscarded()
    ensures Run(SHARE + FAIL + RETRY).client == Some(1)
    ensures Discards(Run(SHARE + FAIL + RETRY), Invalidate(1))
  {
    AfterShare();
    AfterFail();
    AfterRetry();
    RunConcat(INITIAL, SHARE, FAIL);
    RunConcat(INITIAL, SHARE + FAIL, RETRY);
  }

  // ---------- how a call ends ----------

  // The step is one of call `t`'s own, and takes effect.
  predicate Effective(s: State, step: Step, t: TaskId) {
    match step
    case Call(u) => u == t && t !in s.tasks
    case Enter(u) => u == t && IsEntering(s, t) && s.owner == None
    case Connected(u) => u == t && IsConnecting(s, t)
    case ConnectFailed(u) => u == t && IsConnecting(s, t)
    case StreamOpened(u) => u == t && IsUsing(s, t)
    case StreamFailed(u) => u == t && IsUsing(s, t)
    case Invalidate(u) => u == t && IsInvalidating(s, t) && s.owner == None
    case Cancel(u) => u == t && t in s.tasks && !s.tasks[t].Finished?
    case _ => false
  }

  // The call's last own step, and whether it has invalidated before.
  function LastOwn(steps: seq<Step>, t: TaskId): (i: Option<nat>)
    ensures i.Some? ==> i.value < |steps|
  {
    if steps == [] then None
    else if Effective(Run(steps[..|steps| - 1]), steps[|steps| - 1], t) then Some(|steps| - 1)
    else LastOwn(steps[..|steps| - 1], t)
  }

  predicate Retried(steps: seq<Step>, t: TaskId) {
    steps != []
    && (Retried(steps[..|steps| - 1], t)
        || (steps[|steps| - 1] == Invalidate(t) && Effective(Run(steps[..|steps| - 1]), steps[|steps| - 1], t)))
  }

  lemma OthersKeepPc(s: State, step: Step, t: TaskId)
    requires !Effective(s, step, t)
    ensures t in Apply(s, step).tasks <==> t in s.tasks
    ensures t in s.tasks ==> Apply(s, step).tasks[t] == s.tasks[t]
  {
  }

  // A call stands where its last own step put it.
  lemma {:induction false} PcSince(steps: seq<Step>, t: TaskId)
    ensures t in Run(steps).tasks <==> LastOwn(steps, t).Some?
    ensures LastOwn(steps, t).Some? ==>
              var i := LastOwn(steps, t).value;
              && Effective(Run(steps[..i]), steps[i], t) && t in Apply(Run(steps[..i]), steps[i]).tasks
              && Run(steps).tasks[t] == Apply(Run(steps[..i]), steps[i]).tasks[t]
  {
    if steps != [] {
      var (before, step) := (steps[..|steps| - 1], steps[|steps| - 1]);
      PcSince(before, t);
      if !Effective(Run(before), step, t) {
        OthersKeepPc(Run(before), step, t);
        assert LastOwn(before, t).Some? ==> before[..LastOwn(before, t).value] == steps[..LastOwn(before, t).value];
      }
    }
  }

  // The second pass begins with the call's own invalidation.
  predicate PassTells(pc: Pc, retried: bool) {
    match pc
    case Entering(pass) => pass == if retried then 1 else 0
    case Connecting(pass) => pass == if retried then 1 else 0
    case Using(pass, _) => pass == if retried then 1 else 0
    case Invalidating(_) => !retried
    case Finished(_) => true
  }

  lemma StepTells(s: State, step: Step, t: TaskId, retried: bool)
    requires t in s.tasks ==> PassTells(s.tasks[t], retried)
    requires t !in s.tasks ==> !retried
    ensures var s' := Apply(s, step);
            if t in s'.tasks
            then PassTells(s'.tasks[t], retried || (step == Invalidate(t) && Effective(s, step, t)))
            else !(retried || (step == Invalidate(t) && Effective(s, step, t)))
  {
  }

  lemma {:induction false} RetriedIff(steps: seq<Step>, t: TaskId)
    ensures t in Run(steps).tasks ==> PassTells(Run(steps).tasks[t], Retried(steps, t))
    ensures t !in Run(steps).tasks ==> !Retried(steps, t)
  {
    if steps != [] {
      RetriedIff(steps[..|steps| - 1], t);
      StepTells(Run(steps[..|steps| - 1]), steps[|steps| - 1], t, Retried(steps[..|steps| - 1], t));
    }
  }

  predicate Ended(s: State, t: TaskId, o: Outcome) { t in s.tasks && s.tasks[t] == Finished(o) }

  // The client a call was using had closed.
  predicate UsedDead(s: State, t: TaskId) { IsUsing(s, t) && s.tasks[t].client in s.dead }

  lemma OutcomeOf(s: State, step: Step, t: TaskId)
    requires Effective(s, step, t)
    ensures var s' := Apply(s, step);
            && (Ended(s', t, Opened) <==> step == StreamOpened(t))
            && (Ended(s', t, ConnectError) <==> step == ConnectFailed(t))
            && (Ended(s', t, ClientClosed) <==> step == Enter(t) && s.closed)
            && (Ended(s', t, Cancelled) <==> step == Cancel(t))
            && (Ended(s', t, StreamError) <==> step == StreamFailed(t) && !(s.tasks[t].pass == 0 && UsedDead(s, t)))
            && (IsInvalidating(s', t) <==> step == StreamFailed(t) && s.tasks[t].pass == 0 && UsedDead(s, t))
            && (IsConnecting(s', t) <==> step == Enter(t) && !s.closed && Stale(s))
  {
  }

  // How a call that stands at its own step `step` in state `s` has ended, if it has.
  ghost predicate Settled(s': State, t: TaskId, s: State, step: Step, retried: bool) {
    && (Ended(s', t, Opened) <==> step == StreamOpened(t))
    && (Ended(s', t, ConnectError) <==> step == ConnectFailed(t))
    && (Ended(s', t, ClientClosed) <==> step == Enter(t) && s.closed)
    && (Ended(s', t, Cancelled) <==> step == Cancel(t))
    && (Ended(s', t, StreamError) <==> step == StreamFailed(t) && (retried || !UsedDead(s, t)))
    && (IsInvalidating(s', t) <==> step == StreamFailed(t) && !retried && UsedDead(s, t))
  }

  /**
   A call's outcome from its own steps, in every run: it opens a stream, or fails in
   `connect`, or finds the client closed, exactly if its last step did.  A failed stream
   ends it exactly on its second pass or if the connection is alive; else it retries.
   */
  lemma OutcomeIff(steps: seq<Step>, t: TaskId)
    ensures t in Run(steps).tasks <==> LastOwn(steps, t).Some?
    ensures LastOwn(steps, t).Some? ==>
              var i := LastOwn(steps, t).value;
              Settled(Run(steps), t, Run(steps[..i]), steps[i], Retried(steps[..i], t))
  {
    PcSince(steps, t);
    if LastOwn(steps, t).Some? {
      var i := LastOwn(steps, t).value;
      RetriedIff(steps[..i], t);
      OutcomeOf(Run(steps[..i]), steps[i], t);
    }
  }

  // ---------- the code under the lock ----------

  // A whole `current` call: the lock is not released between the check and the outcome of `connect`.
  function CurrentCall(s: State, t: TaskId, succeeds: bool): (r: State) {
    var e := Apply(s, Enter(t));
    if IsConnecting(e, t) then Apply(e, if succeeds then Connected(t) else ConnectFailed(t)) else e
  }

  /** With the lock free, `current` hands out a live client unless closed, or unless it had to connect and failed. */
  lemma CurrentSucceedsIff(s: State, t: TaskId, succeeds: bool)
    requires Invariant(s) && IsEntering(s, t) && s.owner == None
    ensures IsUsing(CurrentCall(s, t, succeeds), t) <==> !s.closed && (succeeds || !Stale(s))
    ensures IsUsing(CurrentCall(s, t, succeeds), t) ==>
              var (s', c) := (CurrentCall(s, t, succeeds), CurrentCall(s, t, succeeds).tasks[t].client);
              s'.client == Some(c) && c !in s'.dead && s'.owner == None
  {
  }

  class ReconnectableClient {
    var client: Option<ConnId>
    var count: nat
    var closed: bool

    ghost predicate Shows(s: State)
      reads this
    {
      client == s.client && count == s.count && closed == s.closed
    }

    constructor ()
      ensures Shows(INITIAL)
    {
      client, count, closed := None, 0, false;
    }

    /** `dead` are the closed connections; `succeeds` is the outcome of a connect, should one be needed. */
    method Current(dead: set<ConnId>, succeeds: bool, ghost s: State, ghost t: TaskId) returns (r: Option<ConnId>)
      requires Shows(s) && dead == s.dead && IsEntering(s, t) && s.owner == None
      modifies this
      ensures Shows(CurrentCall(s, t, succeeds))
      ensures r == if IsUsing(CurrentCall(s, t, succeeds), t) then Some(CurrentCall(s, t, succeeds).tasks[t].client) else None
      ensures closed == old(closed) && (r.Some? ==> !closed && client == r)
      ensures r == None <==> closed || (!succeeds && (old(client) == None || old(client).value in dead))
    {
      if closed {
        return None;
      }
      var stale := client == None || client.value in dead;
      if stale {
        if !succeeds {
          return None;
        }
        r := Some(count);
        client := r;
        count := count + 1;
      } else {
        r := client;
      }
    }

    method InvalidateCurrent(ghost s: State)
      requires Shows(s) && s.owner == None
      modifies this`client
      ensures Shows(Apply(s, ExternalInvalidate)) && client == None
    {
      client := None;
    }

    method CloseForGood(ghost s: State)
      requires Shows(s) && s.owner == None
      modifies this
      ensures Shows(Apply(s, Close)) && closed && client == None && count == old(count)
    {
      closed := true;
      client := None;
    }
  }
}
