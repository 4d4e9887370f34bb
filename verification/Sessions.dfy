/**
 UDP sessions over one QUIC connection: the manager routes inbound datagrams to
 bounded per-session queues, each session reassembles its own messages.  The
 interleavings of all tasks are runs of atomic steps over one system state.
 */
module Sessions {
  import opened Bytes
  import opened UdpMessages
  import opened Defragmentation

  const SESSION_CHAN_SIZE := 1024
  const WRAP := 0x1_0000_0000

  // ---------- queues and one session ----------

  // `try_send` on the bounded channel.
  function TrySend(queue: seq<UdpMessage>, m: UdpMessage): (r: seq<UdpMessage>) {
    if |queue| < SESSION_CHAN_SIZE then queue + [m] else queue
  }

  // A session's queue and reassembly table, with the messages it has taken from
  // the queue and the datagrams it has returned so far.
  datatype Session = Session(queue: seq<UdpMessage>, defrag: Table, taken: seq<UdpMessage>, returned: seq<UdpMessage>)

  const NEW := Session([], EMPTY, [], [])

  // What a single session can experience.
  datatype Local = Arrival(m: UdpMessage) | Take | Nothing

  // One turn of the `recv` loop.
  function TakeOne(s: Session): (r: Session) {
    if s.queue == [] then s
    else
      var m := s.queue[0];
      var fed := FeedStep(s.defrag, m);
      Session(s.queue[1..], fed.0, s.taken + [m], s.returned + if fed.1.Some? then [fed.1.value] else [])
  }

  function LocalStep(s: Session, l: Local): (r: Session) {
    match l
    case Arrival(m) => s.(queue := TrySend(s.queue, m))
    case Take => TakeOne(s)
    case Nothing => s
  }

  function LocalRun(ls: seq<Local>): (s: Session) {
    if ls == [] then NEW else LocalStep(LocalRun(ls[..|ls| - 1]), ls[|ls| - 1])
  }

  // The messages that arrived for a session, in order.
  function ArrivalsOf(ls: seq<Local>): (ms: seq<UdpMessage>) {
    if ls == [] then []
    else ArrivalsOf(ls[..|ls| - 1]) + if ls[|ls| - 1].Arrival? then [ls[|ls| - 1].m] else []
  }

  // `a` is `b` with some elements left out.
  predicate IsSubsequence(a: seq<UdpMessage>, b: seq<UdpMessage>) {
    if a == [] then true
    else if b == [] then false
    else if a[|a| - 1] == b[|b| - 1] then IsSubsequence(a[..|a| - 1], b[..|b| - 1])
    else IsSubsequence(a, b[..|b| - 1])
  }

  lemma {:induction false} SubsequenceSkips(a: seq<UdpMessage>, b: seq<UdpMessage>, x: UdpMessage)
    requires IsSubsequence(a, b)
    ensures IsSubsequence(a, b + [x])
    decreases |b|, 1
  {
    assert (b + [x])[..|b|] == b;
    if a != [] && a[|a| - 1] == x {
      FrontIsSubsequence(a, b);
    }
  }

  lemma {:induction false} FrontIsSubsequence(a: seq<UdpMessage>, b: seq<UdpMessage>)
    requires a != [] && IsSubsequence(a, b)
    ensures IsSubsequence(a[..|a| - 1], b)
    decreases |b|, 0
  {
    var (a', b') := (a[..|a| - 1], b[..|b| - 1]);
    assert b == b' + [b[|b| - 1]];
    if a[|a| - 1] == b[|b| - 1] {
      SubsequenceSkips(a', b', b[|b| - 1]);
    } else {
      FrontIsSubsequence(a, b');
      SubsequenceSkips(a', b', b[|b| - 1]);
    }
  }

  // The datagrams a lone defragger with table `t` returns for `ms`.
  function Outputs(t: Table, ms: seq<UdpMessage>): (r: seq<UdpMessage>) {
    if ms == [] then []
    else
      var o := FeedStep(Run(t, ms[..|ms| - 1]), ms[|ms| - 1]).1;
      Outputs(t, ms[..|ms| - 1]) + if o.Some? then [o.value] else []
  }

  // The datagrams the history of `ms` demands, stated without any reassembly table.
  function Demanded(ms: seq<UdpMessage>): (r: seq<UdpMessage>) {
    if ms == [] then []
    else
      var o := Expected(ms[..|ms| - 1], ms[|ms| - 1]);
      Demanded(ms[..|ms| - 1]) + if o.Some? then [o.value] else []
  }

  lemma {:induction false} OutputsAreDemanded(ms: seq<UdpMessage>)
    ensures Outputs(EMPTY, ms) == Demanded(ms)
  {
    if ms != [] {
      OutputsAreDemanded(ms[..|ms| - 1]);
      DefaultRefinesHistory(ms[..|ms| - 1], ms[|ms| - 1]);
    }
  }

  // How many messages wait, and which arrivals found room, counted from the experience alone.
  function Waiting(ls: seq<Local>): (n: nat) {
    if ls == [] then 0
    else
      var n := Waiting(ls[..|ls| - 1]);
      match ls[|ls| - 1]
      case Arrival(_) => Min(n + 1, 1024)
      case Take => Max(n - 1, 0)
      case Nothing => n
  }

  function Accepted(ls: seq<Local>): (ms: seq<UdpMessage>) {
    if ls == [] then []
    else
      var (before, l) := (ls[..|ls| - 1], ls[|ls| - 1]);
      Accepted(before) + if l.Arrival? && Waiting(before) < 1024 then [l.m] else []
  }

  // What always holds of a session that experienced `ls`.
  ghost predicate LocalInvariant(s: Session, ls: seq<Local>) {
    && |s.queue| == Waiting(ls) <= 1024
    && s.taken + s.queue == Accepted(ls)
    && IsSubsequence(s.taken + s.queue, ArrivalsOf(ls))
    && s.defrag == Run(EMPTY, s.taken)
    && s.returned == Outputs(EMPTY, s.taken)
  }

  lemma TakeKeeps(s: Session, ls: seq<Local>)
    requires LocalInvariant(s, ls)
    ensures LocalInvariant(TakeOne(s), ls + [Take])
  {
    assert (ls + [Take])[..|ls|] == ls;
    assert ArrivalsOf(ls + [Take]) == ArrivalsOf(ls) && Accepted(ls + [Take]) == Accepted(ls);
    if s.queue == [] {
      return;
    }
    var taken := s.taken + [s.queue[0]];
    assert taken[..|taken| - 1] == s.taken;
    assert taken + s.queue[1..] == s.taken + s.queue;
  }

  lemma ArriveKeeps(s: Session, ls: seq<Local>, m: UdpMessage)
    requires LocalInvariant(s, ls)
    ensures LocalInvariant(s.(queue := TrySend(s.queue, m)), ls + [Arrival(m)])
  {
    var (a, b) := (s.taken + s.queue, ArrivalsOf(ls));
    assert (ls + [Arrival(m)])[..|ls|] == ls;
    assert Accepted(ls + [Arrival(m)]) == a + if |s.queue| < SESSION_CHAN_SIZE then [m] else [];
    if |s.queue| < SESSION_CHAN_SIZE {
      assert s.taken + (s.queue + [m]) == a + [m];
      assert (a + [m])[..|a|] == a && (b + [m])[..|b|] == b;
    } else {
      SubsequenceSkips(a, b, m);
    }
  }

  /**
   A lone session, whatever it experiences: its queue is bounded, taken and waiting
   messages are exactly the arrivals that found fewer than 1024 waiting, in order,
   and it returns exactly what a lone defragger returns on the taken ones.
   */
  lemma {:induction false} LocalRunHolds(ls: seq<Local>)
    ensures LocalInvariant(LocalRun(ls), ls)
  {
    if ls != [] {
      var (before, l) := (ls[..|ls| - 1], ls[|ls| - 1]);
      LocalRunHolds(before);
      var s := LocalRun(before);
      assert ls == before + [l];
      if l.Arrival? {
        ArriveKeeps(s, before, l.m);
      } else if l.Take? {
        TakeKeeps(s, before);
      } else {
        assert ArrivalsOf(ls) == ArrivalsOf(before) && Accepted(ls) == Accepted(before);
      }
    }
  }

  // ---------- the system ----------

  // Sessions are numbered by the order of their opening; `routes` maps a session id
  // to the session whose queue the manager's sender for that id feeds.
  datatype System = System(total: nat, routes: map<u32, nat>, live: map<nat, Session>, manager: bool, receiving: bool)

  const INITIAL := System(0, map[], map[], true, true)

  // The wrapping 32-bit counter starts at 1.
  function IdOf(k: nat): (id: u32) { (1 + k) % WRAP }

  datatype Step = Open | Datagram(d: seq<byte>) | Recv(k: nat) | Drop(k: nat) | ConnectionClosed | ManagerDropped

  function Dispatch(s: System, m: UdpMessage): (r: System) {
    if m.sessionId !in s.routes || s.routes[m.sessionId] !in s.live then s
    else
      var k := s.routes[m.sessionId];
      s.(live := s.live[k := s.live[k].(queue := TrySend(s.live[k].queue, m))])
  }

  function Apply(s: System, step: Step): (r: System) {
    match step
    case Open =>
      if !s.manager then s
      else s.(total := s.total + 1, routes := s.routes[IdOf(s.total) := s.total], live := s.live[s.total := NEW])
    case Datagram(d) =>
      var m := Parse(d);
      if !s.receiving || m == None then s
      else if !s.manager then s.(receiving := false)
      else Dispatch(s, m.value)
    case Recv(k) => if k !in s.live then s else s.(live := s.live[k := TakeOne(s.live[k])])
    case Drop(k) =>
      if k !in s.live then s
      else s.(live := s.live - {k}, routes := if s.manager then s.routes - {IdOf(k)} else s.routes)
    case ConnectionClosed => s.(receiving := false)
    case ManagerDropped => s.(manager := false, routes := map[])
  }

  function RunSystem(steps: seq<Step>): (s: System) {
    if steps == [] then INITIAL else Apply(RunSystem(steps[..|steps| - 1]), steps[|steps| - 1])
  }

  // A step that takes session `k`'s route away while the manager lives: an opening
  // that is handed `k`'s id, or the end of another session of that id.
  predicate TakesRoute(s: System, step: Step, k: nat) {
    && s.manager && k < s.total
    && (|| (step == Open && (s.total - k) % WRAP == 0)
        || (step.Drop? && step.k in s.live && step.k != k && (step.k - k) % WRAP == 0))
  }

  predicate Displaced(steps: seq<Step>, k: nat) {
    steps != []
    && (Displaced(steps[..|steps| - 1], k) || TakesRoute(RunSystem(steps[..|steps| - 1]), steps[|steps| - 1], k))
  }

  // What step `step` means for session `k` after the steps `before`: a message for its
  // id arrives unless the session has lost its route.
  function View(before: seq<Step>, step: Step, k: nat): (l: Local) {
    match step
    case Datagram(d) =>
      var s := RunSystem(before);
      if s.receiving && s.manager && !Displaced(before, k) && Parse(d).Some? && Parse(d).value.sessionId == IdOf(k)
      then Arrival(Parse(d).value) else Nothing
    case Recv(j) => if j == k then Take else Nothing
    case _ => Nothing
  }

  // Everything session `k` experienced since it was opened.
  function Trace(steps: seq<Step>, k: nat): (ls: seq<Local>) {
    if steps == [] then []
    else
      var before := steps[..|steps| - 1];
      if k < RunSystem(before).total then Trace(before, k) + [View(before, steps[|steps| - 1], k)] else []
  }

  // ---------- identifiers ----------

  // No live session was opened a multiple of 2^32 openings ago.
  ghost predicate FreshId(s: System) { forall k <- s.live :: (s.total - k) % WRAP != 0 }

  ghost predicate MayStep(s: System, step: Step) { step == Open && s.manager ==> FreshId(s) }

  // No opening of the run meets a live session of such an age.
  ghost predicate NoReuse(steps: seq<Step>) {
    if steps == [] then true
    else
      && NoReuse(steps[..|steps| - 1])
      && MayStep(RunSystem(steps[..|steps| - 1]), steps[|steps| - 1])
  }

  ghost predicate DistinctIds(s: System) {
    forall j, k | j in s.live && k in s.live && j != k :: IdOf(j) != IdOf(k)
  }

  // Routes and live sessions are in one-to-one correspondence while the manager exists.
  ghost predicate Routed(s: System) {
    && (forall k <- s.live :: k < s.total)
    && (forall id <- s.routes :: s.routes[id] in s.live && IdOf(s.routes[id]) == id)
    && (s.manager ==> forall k <- s.live :: IdOf(k) in s.routes && s.routes[IdOf(k)] == k)
    && (!s.manager ==> s.routes == map[])
    && DistinctIds(s)
  }

  lemma SameIdIff(j: nat, k: nat)
    ensures IdOf(j) == IdOf(k) <==> (j - k) % WRAP == 0
  {
  }

  lemma FreshIdIsUnused(s: System)
    ensures FreshId(s) <==> forall k <- s.live :: IdOf(k) != IdOf(s.total)
  {
    forall k <- s.live
      ensures (s.total - k) % WRAP == 0 <==> IdOf(k) == IdOf(s.total)
    {
      SameIdIff(s.total, k);
    }
  }

  lemma OpenKeepsRoutes(s: System)
    requires Routed(s) && MayStep(s, Open)
    ensures Routed(Apply(s, Open))
  {
    FreshIdIsUnused(s);
  }

  lemma DropKeepsRoutes(s: System, k: nat)
    requires Routed(s)
    ensures Routed(Apply(s, Drop(k)))
  {
  }

  lemma StepKeepsRoutes(s: System, step: Step)
    requires Routed(s) && MayStep(s, step)
    ensures Routed(Apply(s, step))
  {
    match step
    case Open => OpenKeepsRoutes(s);
    case Drop(k) => DropKeepsRoutes(s, k);
    case _ =>
  }

  lemma {:induction false} RunKeepsRoutes(steps: seq<Step>)
    requires NoReuse(steps)
    ensures Routed(RunSystem(steps))
  {
    if steps != [] {
      RunKeepsRoutes(steps[..|steps| - 1]);
      StepKeepsRoutes(RunSystem(steps[..|steps| - 1]), steps[|steps| - 1]);
    }
  }

  lemma {:induction false} LiveWereOpened(steps: seq<Step>)
    ensures forall k <- RunSystem(steps).live :: k < RunSystem(steps).total
  {
    if steps != [] {
      LiveWereOpened(steps[..|steps| - 1]);
    }
  }

  lemma OpenedGrows(s: System, step: Step)
    ensures s.total <= Apply(s, step).total <= s.total + 1
    ensures step == Open && s.manager ==> Apply(s, step).total == s.total + 1
  {
  }

  lemma FewAreFresh(s: System)
    requires (forall k <- s.live :: k < s.total) && s.total < WRAP
    ensures FreshId(s)
  {
  }

  /** With at most 2^32 sessions ever opened no id is reused. */
  lemma {:induction false} FewSessionsNoReuse(steps: seq<Step>)
    requires RunSystem(steps).total <= WRAP
    ensures NoReuse(steps)
  {
    if steps != [] {
      var (before, step) := (steps[..|steps| - 1], steps[|steps| - 1]);
      var s := RunSystem(before);
      OpenedGrows(s, step);
      FewSessionsNoReuse(before);
      LiveWereOpened(before);
      if step == Open && s.manager {
        FewAreFresh(s);
      }
    }
  }

  lemma OpenDistinctIff(s: System)
    requires s.manager && DistinctIds(s) && forall k <- s.live :: k < s.total
    ensures DistinctIds(Apply(s, Open)) <==> FreshId(s)
  {
    var s' := Apply(s, Open);
    FreshIdIsUnused(s);
    assert s.total in s'.live && s.total !in s.live;
    assert forall k <- s.live :: k in s'.live && k != s.total;
  }

  ghost predicate AlwaysDistinct(steps: seq<Step>) {
    forall i | 0 <= i <= |steps| :: DistinctIds(RunSystem(steps[..i]))
  }

  lemma AlwaysDistinctSnoc(steps: seq<Step>)
    requires steps != []
    ensures AlwaysDistinct(steps) <==> AlwaysDistinct(steps[..|steps| - 1]) && DistinctIds(RunSystem(steps))
  {
    var before := steps[..|steps| - 1];
    assert steps[..|steps|] == steps;
    assert forall i | 0 <= i < |steps| :: before[..i] == steps[..i];
  }

  /**
   The live sessions' ids are distinct at every moment of a run if and only if no
   opening of it meets a live session a multiple of 2^32 openings old.
   */
  lemma {:induction false} NoReuseIff(steps: seq<Step>)
    ensures NoReuse(steps) <==> AlwaysDistinct(steps)
  {
    if steps != [] {
      var (before, step) := (steps[..|steps| - 1], steps[|steps| - 1]);
      NoReuseIff(before);
      AlwaysDistinctSnoc(steps);
      LiveWereOpened(before);
      if NoReuse(before) {
        RunKeepsRoutes(before);
        if step == Open && RunSystem(before).manager {
          OpenDistinctIff(RunSystem(before));
        } else {
          StepKeepsRoutes(RunSystem(before), step);
        }
      }
    }
  }

  // ---------- senders ----------

  // Some sender for the session's channel still exists.
  predicate HasSender(s: System, k: nat) { IdOf(k) in s.routes && s.routes[IdOf(k)] == k }

  lemma {:induction false} DisplacedWasOpened(steps: seq<Step>, k: nat)
    ensures Displaced(steps, k) ==> k < RunSystem(steps).total
  {
    if steps != [] {
      DisplacedWasOpened(steps[..|steps| - 1], k);
      OpenedGrows(RunSystem(steps[..|steps| - 1]), steps[|steps| - 1]);
    }
  }

  lemma {:induction false} NoManagerNoRoutes(steps: seq<Step>)
    ensures !RunSystem(steps).manager ==> RunSystem(steps).routes == map[]
  {
    if steps != [] {
      NoManagerNoRoutes(steps[..|steps| - 1]);
    }
  }

  lemma StepTakesSender(s: System, step: Step, k: nat)
    requires k in s.live && k in Apply(s, step).live && k < s.total && (!s.manager ==> s.routes == map[])
    ensures HasSender(Apply(s, step), k) <==>
              HasSender(s, k) && Apply(s, step).manager && !TakesRoute(s, step, k)
  {
    match step
    case Open => SameIdIff(s.total, k);
    case Drop(j) => SameIdIff(j, k);
    case _ =>
  }

  // In every run, a live session's sender exists until the manager goes or its route is taken.
  lemma {:induction false} HasSenderIff(steps: seq<Step>, k: nat)
    requires k in RunSystem(steps).live
    ensures HasSender(RunSystem(steps), k) <==> RunSystem(steps).manager && !Displaced(steps, k)
  {
    var (before, step) := (steps[..|steps| - 1], steps[|steps| - 1]);
    var s := RunSystem(before);
    LiveWereOpened(before);
    NoManagerNoRoutes(before);
    if k in s.live {
      HasSenderIff(before, k);
      StepTakesSender(s, step, k);
    } else {
      assert step == Open && k == s.total;
      DisplacedWasOpened(before, k);
    }
  }

  // Routes lead to live sessions of their id.
  ghost predicate RoutesLead(s: System) {
    forall id <- s.routes :: s.routes[id] in s.live && IdOf(s.routes[id]) == id
  }

  lemma {:induction false} RunRoutesLead(steps: seq<Step>)
    ensures RoutesLead(RunSystem(steps))
  {
    if steps != [] {
      RunRoutesLead(steps[..|steps| - 1]);
      NoManagerNoRoutes(steps[..|steps| - 1]);
      StepRoutesLead(RunSystem(steps[..|steps| - 1]), steps[|steps| - 1]);
    }
  }

  lemma StepRoutesLead(s: System, step: Step)
    requires RoutesLead(s) && (!s.manager ==> s.routes == map[])
    ensures RoutesLead(Apply(s, step))
  {
  }

  // ---------- non-interference ----------

  lemma DispatchIsLocal(s: System, m: UdpMessage, k: nat)
    requires RoutesLead(s) && k in s.live
    ensures k in Dispatch(s, m).live
    ensures Dispatch(s, m).live[k] ==
              LocalStep(s.live[k], if HasSender(s, k) && m.sessionId == IdOf(k) then Arrival(m) else Nothing)
  {
  }

  // Whatever any task does, session `k` experiences only its own view of it.
  lemma StepIsLocal(before: seq<Step>, step: Step, k: nat)
    requires k in RunSystem(before).live && k in Apply(RunSystem(before), step).live
    ensures Apply(RunSystem(before), step).live[k] == LocalStep(RunSystem(before).live[k], View(before, step, k))
  {
    var s := RunSystem(before);
    LiveWereOpened(before);
    match step
    case Datagram(d) =>
      if s.receiving && s.manager && Parse(d).Some? {
        RunRoutesLead(before);
        HasSenderIff(before, k);
        DispatchIsLocal(s, Parse(d).value, k);
      }
    case _ =>
  }

  /**
   Non-interference over every interleaving, with or without reuse of ids: a live session
   is exactly where it would be, had it alone experienced its own receives and the
   messages for its id that came while it held its route.
   */
  lemma {:induction false} SessionsDoNotInterfere(steps: seq<Step>, k: nat)
    requires k in RunSystem(steps).live
    ensures RunSystem(steps).live[k] == LocalRun(Trace(steps, k))
  {
    var (before, step) := (steps[..|steps| - 1], steps[|steps| - 1]);
    var s := RunSystem(before);
    LiveWereOpened(before);
    if k in s.live {
      SessionsDoNotInterfere(before, k);
      StepIsLocal(before, step, k);
      var t := Trace(steps, k);
      assert t[..|t| - 1] == Trace(before, k);
    } else {
      assert step == Open && k == s.total;
    }
  }

  /**
   What every session of every run guarantees: a bounded queue, and returned datagrams
   equal to a lone defragger's, and so to what the history demands, on a FIFO subsequence
   of the messages that reached the session, all of its own id; and, without reuse,
   distinct live ids.
   */
  lemma EverySessionHolds(steps: seq<Step>, k: nat)
    requires k in RunSystem(steps).live
    ensures LocalInvariant(RunSystem(steps).live[k], Trace(steps, k))
    ensures RunSystem(steps).live[k].returned == Demanded(RunSystem(steps).live[k].taken)
    ensures forall m <- ArrivalsOf(Trace(steps, k)) :: m.sessionId == IdOf(k)
    ensures NoReuse(steps) ==> DistinctIds(RunSystem(steps))
  {
    if NoReuse(steps) {
      RunKeepsRoutes(steps);
    }
    SessionsDoNotInterfere(steps, k);
    LocalRunHolds(Trace(steps, k));
    OutputsAreDemanded(RunSystem(steps).live[k].taken);
    ArrivalsCarryId(steps, k);
  }

  lemma {:induction false} ArrivalsCarryId(steps: seq<Step>, k: nat)
    ensures forall m <- ArrivalsOf(Trace(steps, k)) :: m.sessionId == IdOf(k)
  {
    if steps != [] && k < RunSystem(steps[..|steps| - 1]).total {
      ArrivalsCarryId(steps[..|steps| - 1], k);
      var t := Trace(steps, k);
      assert t[..|t| - 1] == Trace(steps[..|steps| - 1], k);
    }
  }

  /** The manager lives until it is dropped, and while it does, datagrams are taken in until the connection closes. */
  lemma {:induction false} FlagsIff(steps: seq<Step>)
    ensures RunSystem(steps).manager <==> ManagerDropped !in steps
    ensures RunSystem(steps).manager ==> (RunSystem(steps).receiving <==> ConnectionClosed !in steps)
  {
    if steps != [] {
      SplitLast([], steps);
      FlagsIff(steps[..|steps| - 1]);
    }
  }

  /** What is to come of the next turn of `recv` is what the turn then appends to the returned messages. */
  lemma NextRecvIs(s: System, k: nat)
    requires k in s.live
    ensures k in Apply(s, Recv(k)).live
    ensures match NextRecv(s, k)
            case Returns(m) => Apply(s, Recv(k)).live[k].returned == s.live[k].returned + [m] && s.live[k].queue != []
            case _ => Apply(s, Recv(k)).live[k].returned == s.live[k].returned
    ensures NextRecv(s, k) == Waits || NextRecv(s, k) == Fails <==> s.live[k].queue == []
  {
  }

  // ---------- after 2^32 sessions ----------

  lemma {:induction false} OnlyOpens(steps: seq<Step>)
    requires forall step <- steps :: step == Open
    ensures var s := RunSystem(steps);
            && s.manager && s.receiving && s.total == |steps|
            && (forall k: nat :: k in s.live <==> k < |steps|)
            && (forall k <- s.live :: s.live[k] == NEW)
            && (steps != [] ==> IdOf(|steps| - 1) in s.routes && s.routes[IdOf(|steps| - 1)] == |steps| - 1)
  {
    if steps != [] {
      var before := steps[..|steps| - 1];
      assert steps == before + [steps[|steps| - 1]];
      assert forall step <- before :: step in steps;
      assert steps[|steps| - 1] in steps;
      OnlyOpens(before);
    }
  }

  /**
   The bound is exact: the session opened after 2^32 others shares its id with the
   first one if that is still live.  Its messages then never reach the first
   session, and dropping the first one cuts it off.
   */
  lemma WrappedIdCollides(steps: seq<Step>, m: UdpMessage)
    requires |steps| == WRAP + 1 && (forall step <- steps :: step == Open) && m.sessionId == IdOf(0)
    ensures var s := RunSystem(steps);
            && 0 in s.live && WRAP in s.live && IdOf(0) == IdOf(WRAP) && !DistinctIds(s)
            && Dispatch(s, m).live == s.live[WRAP := NEW.(queue := [m])]
            && Dispatch(Apply(s, Drop(0)), m) == Apply(s, Drop(0))
  {
    OnlyOpens(steps);
    var s := RunSystem(steps);
    assert 0 in s.live && WRAP in s.live;
    assert IdOf(0) == IdOf(WRAP) == 1;
    assert [] + [m] == [m];
  }

  // ---------- the end of a session ----------

  datatype RecvResult = Returns(m: UdpMessage) | TakesMore | Waits | Fails

  // What the next turn of session `k`'s `recv` loop does.
  function NextRecv(s: System, k: nat): (r: RecvResult)
    requires k in s.live
  {
    var x := s.live[k];
    if x.queue != [] then
      var o := FeedStep(x.defrag, x.queue[0]).1;
      if o.Some? then Returns(o.value) else TakesMore
    else if HasSender(s, k) then Waits
    else Fails
  }

  /**
   In every run, `recv` fails exactly when its queue is drained and either the manager
   is gone or a later user of the same id has taken the session's route.
   */
  lemma RecvFailsIff(steps: seq<Step>, k: nat)
    requires k in RunSystem(steps).live
    ensures NextRecv(RunSystem(steps), k) == Fails <==>
              RunSystem(steps).live[k].queue == [] && (!RunSystem(steps).manager || Displaced(steps, k))
  {
    HasSenderIff(steps, k);
  }

  /** Without reuse no live session is ever displaced: `recv` then fails only with the manager gone. */
  lemma NotDisplaced(steps: seq<Step>, k: nat)
    requires NoReuse(steps) && k in RunSystem(steps).live
    ensures RunSystem(steps).manager ==> !Displaced(steps, k)
  {
    RunKeepsRoutes(steps);
    HasSenderIff(steps, k);
  }

  // The session can still be received from, nothing waits for it and nothing more will come.
  ghost predicate Idle(s: System, k: nat) {
    k in s.live && s.live[k].queue == [] && s.manager && !s.receiving
  }

  lemma StepKeepsIdle(s: System, step: Step, k: nat)
    requires Idle(s, k) && k < s.total && step != Drop(k) && step != ManagerDropped
    ensures Idle(Apply(s, step), k)
  {
  }

  lemma {:induction false} StaysIdle(before: seq<Step>, after: seq<Step>, k: nat)
    requires Idle(RunSystem(before), k)
    requires forall i | 0 <= i < |after| :: after[i] != Drop(k) && after[i] != ManagerDropped
    ensures Idle(RunSystem(before + after), k)
  {
    if after == [] {
      assert before + after == before;
    } else {
      var all := before + after;
      assert all[..|all| - 1] == before + after[..|after| - 1];
      StaysIdle(before, after[..|after| - 1], k);
      LiveWereOpened(before + after[..|after| - 1]);
      StepKeepsIdle(RunSystem(all[..|all| - 1]), after[|after| - 1], k);
    }
  }

  /**
   The closing of the connection never fails a pending `recv`.  In any run, a session
   with an empty queue on a closed connection waits through whatever follows, until it
   or the manager is dropped or its route is taken; without reuse, for ever.
   */
  lemma ClosedConnectionWaits(before: seq<Step>, after: seq<Step>, k: nat)
    requires Idle(RunSystem(before), k)
    requires forall i | 0 <= i < |after| :: after[i] != Drop(k) && after[i] != ManagerDropped
    ensures k in RunSystem(before + after).live
    ensures NextRecv(RunSystem(before + after), k) == if Displaced(before + after, k) then Fails else Waits
    ensures NoReuse(before + after) ==> NextRecv(RunSystem(before + after), k) == Waits
  {
    StaysIdle(before, after, k);
    HasSenderIff(before + after, k);
    if NoReuse(before + after) {
      NotDisplaced(before + after, k);
    }
  }

  /** A displaced session's `recv` fails although the manager and the connection live. */
  lemma DisplacedSessionFails(steps: seq<Step>)
    requires |steps| == WRAP + 1 && forall step <- steps :: step == Open
    ensures RunSystem(steps).manager && RunSystem(steps).receiving && 0 in RunSystem(steps).live
    ensures NextRecv(RunSystem(steps), 0) == Fails
  {
    OnlyOpens(steps);
    assert IdOf(0) == IdOf(WRAP) == 1;
  }
}
