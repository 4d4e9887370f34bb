/** A fragmented message on its way through the whole receiving side: wire, routing, queue and session. */
module Delivery {
  import opened Bytes
  import opened UdpMessages
  import opened Fragmentation
  import opened Defragmentation
  import opened EndToEnd
  import opened Sessions

  // ---------- what a lone defragger returns around a fragmented message ----------

  // The messages that are not fragmented at all.
  function Whole(ms: seq<UdpMessage>): (r: seq<UdpMessage>) {
    if ms == [] then [] else Whole(ms[..|ms| - 1]) + if ms[|ms| - 1].fragCount <= 1 then [ms[|ms| - 1]] else []
  }

  lemma WholeSnoc(ms: seq<UdpMessage>, x: UdpMessage)
    ensures Whole(ms + [x]) == if x.fragCount <= 1 then Whole(ms) + [x] else Whole(ms)
  {
    assert (ms + [x])[..|ms|] == ms;
  }

  // What an answer adds to the outputs.
  function Given(o: Option<UdpMessage>): (r: seq<UdpMessage>) { if o.Some? then [o.value] else [] }

  lemma OutputsSnoc(t: Table, ms: seq<UdpMessage>, x: UdpMessage)
    ensures Outputs(t, ms + [x]) == Outputs(t, ms) + Given(FeedStep(Run(t, ms), x).1)
  {
    assert (ms + [x])[..|ms|] == ms;
  }

  lemma {:induction false} OutputsConcat(t: Table, a: seq<UdpMessage>, b: seq<UdpMessage>)
    ensures Outputs(t, a + b) == Outputs(t, a) + Outputs(Run(t, a), b)
  {
    if b == [] {
      assert a + b == a;
    } else {
      var (front, x) := (b[..|b| - 1], b[|b| - 1]);
      OutputsConcat(t, a, front);
      RunConcat(t, a, front);
      OutputsSnoc(t, a + front, x);
      OutputsSnoc(Run(t, a), front, x);
      Associative(Outputs(t, a), Outputs(Run(t, a), front), Given(FeedStep(Run(t, a + front), x).1));
      SplitLast(a, b);
    }
  }

  // The answers given, without the empty ones.
  function Somes(os: seq<Option<UdpMessage>>): (r: seq<UdpMessage>) {
    if os == [] then [] else Somes(os[..|os| - 1]) + Given(os[|os| - 1])
  }

  lemma {:induction false} SomesConcat(a: seq<Option<UdpMessage>>, b: seq<Option<UdpMessage>>)
    ensures Somes(a + b) == Somes(a) + Somes(b)
  {
    if b == [] {
      assert a + b == a;
    } else {
      SomesConcat(a, b[..|b| - 1]);
      assert (a + b)[..|a + b| - 1] == a + b[..|b| - 1];
      Associative(Somes(a), Somes(b[..|b| - 1]), Given(b[|b| - 1]));
    }
  }

  function Answers(t: Table, ms: seq<UdpMessage>): (os: seq<Option<UdpMessage>>)
    ensures |os| == |ms| && forall k | 0 <= k < |ms| :: os[k] == OutputAt(t, ms, k)
  {
    seq(|ms|, k requires 0 <= k < |ms| => OutputAt(t, ms, k))
  }

  lemma {:induction false} OutputsAreSomes(t: Table, ms: seq<UdpMessage>)
    ensures Outputs(t, ms) == Somes(Answers(t, ms))
  {
    if ms != [] {
      var (front, x, os) := (ms[..|ms| - 1], ms[|ms| - 1], Answers(t, ms));
      OutputsAreSomes(t, front);
      AnswersFront(t, ms);
      SplitLast([], ms);
      OutputsSnoc(t, front, x);
    }
  }

  lemma AnswersFront(t: Table, ms: seq<UdpMessage>)
    requires ms != []
    ensures Answers(t, ms)[..|ms| - 1] == Answers(t, ms[..|ms| - 1])
    ensures Answers(t, ms)[|ms| - 1] == FeedStep(Run(t, ms[..|ms| - 1]), ms[|ms| - 1]).1
  {
    var front := ms[..|ms| - 1];
    assert forall k | 0 <= k < |front| :: front[..k] == ms[..k];
  }

  // The answer to a message that takes no part in the assembly.
  function PassThrough(x: UdpMessage): (o: Option<UdpMessage>) { if x.fragCount <= 1 then Some(x) else None }

  lemma {:induction false} SomesPass(os: seq<Option<UdpMessage>>, ms: seq<UdpMessage>)
    requires |os| == |ms| && forall k | 0 <= k < |ms| :: os[k] == PassThrough(ms[k])
    ensures Somes(os) == Whole(ms)
  {
    if ms != [] {
      SomesPass(os[..|os| - 1], ms[..|ms| - 1]);
    }
  }

  lemma SomesAround(os: seq<Option<UdpMessage>>, ms: seq<UdpMessage>, m: UdpMessage, j: nat)
    requires |os| == |ms| && j < |ms| && os[j] == Some(m)
    requires forall k | 0 <= k < |ms| && k != j :: os[k] == PassThrough(ms[k])
    ensures Somes(os) == Whole(ms[..j]) + [m] + Whole(ms[j + 1..])
  {
    SomesPass(os[..j], ms[..j]);
    SomesPass(os[j + 1..], ms[j + 1..]);
    SomesSplit(os, j);
  }

  lemma SomesSplit(os: seq<Option<UdpMessage>>, j: nat)
    requires j < |os|
    ensures Somes(os) == Somes(os[..j]) + Given(os[j]) + Somes(os[j + 1..])
  {
    SomesConcat(os[..j + 1], os[j + 1..]);
    SplitAt(os, j);
  }

  lemma SplitAt(os: seq<Option<UdpMessage>>, j: nat)
    requires j < |os|
    ensures os[..j + 1] + os[j + 1..] == os && os[..j + 1][..j] == os[..j]
  {
  }

  // The unfragmented messages of `ms` in order, with `m` at the place of the `j`-th arrival.
  ghost predicate OnceAmong(outputs: seq<UdpMessage>, ms: seq<UdpMessage>, m: UdpMessage, j: nat) {
    j < |ms| && outputs == Whole(ms[..j]) + [m] + Whole(ms[j + 1..])
  }

  /** A defragger not tracking the packet returns the message once, among the unfragmented messages in their order. */
  lemma ReturnedOnce(m: UdpMessage, limit: nat, t: Table, ms: seq<UdpMessage>) returns (j: nat)
    requires NeedsFragments(m, limit) && Count(m, limit) <= 255
    requires Untracked(t, m.packetId, Count(m, limit)) && Arrivals(ms, Fragments(m, limit))
    ensures OnceAmong(Outputs(t, ms), ms, m, j)
  {
    var frags := Fragments(m, limit);
    j := DeliveredOnce(m, limit, t, ms);
    var cs, p := FragmentsSplit(m, limit);
    FragmentFields(m, frags, cs, p);
    var os := Answers(t, ms);
    forall k | 0 <= k < |ms| && k != j
      ensures os[k] == PassThrough(ms[k])
    {
      assert ms[k] in ms;
    }
    SomesAround(os, ms, m, j);
    OutputsAreSomes(t, ms);
  }

  // ---------- the session ----------

  function Takes(n: nat): (ls: seq<Local>) { if n == 0 then [] else Takes(n - 1) + [Take] }

  function Recvs(k: nat, n: nat): (steps: seq<Step>) { if n == 0 then [] else Recvs(k, n - 1) + [Recv(k)] }

  lemma LocalTake(ls: seq<Local>)
    ensures Waiting(ls + [Take]) == Max(Waiting(ls) - 1, 0) && Accepted(ls + [Take]) == Accepted(ls)
  {
    assert (ls + [Take])[..|ls|] == ls;
  }

  lemma {:induction false} TakesDrain(ls: seq<Local>, n: nat)
    ensures Waiting(ls + Takes(n)) == Max(Waiting(ls) - n, 0)
    ensures Accepted(ls + Takes(n)) == Accepted(ls)
  {
    if n == 0 {
      assert ls + Takes(0) == ls;
    } else {
      TakesDrain(ls, n - 1);
      LocalTake(ls + Takes(n - 1));
      NextTake(ls, n);
    }
  }

  lemma NextTake(ls: seq<Local>, n: nat)
    requires n > 0
    ensures ls + Takes(n) == ls + Takes(n - 1) + [Take]
  {
  }

  // Enough takes return what a lone defragger makes of everything that found room.
  lemma LocalReturns(ls: seq<Local>, n: nat)
    requires n >= |LocalRun(ls).queue|
    ensures LocalRun(ls + Takes(n)).returned == Outputs(EMPTY, Accepted(ls))
  {
    LocalRunHolds(ls);
    TakesDrain(ls, n);
    LocalRunHolds(ls + Takes(n));
    var x := LocalRun(ls + Takes(n));
    assert x.taken + x.queue == x.taken;
  }

  lemma RecvTrace(before: seq<Step>, k: nat)
    requires k in RunSystem(before).live
    ensures k in RunSystem(before + [Recv(k)]).live
    ensures Trace(before + [Recv(k)], k) == Trace(before, k) + [Take]
  {
    LiveWereOpened(before);
    assert (before + [Recv(k)])[..|before|] == before;
  }

  lemma {:induction false} RecvsAreTakes(steps: seq<Step>, k: nat, n: nat)
    requires k in RunSystem(steps).live
    ensures k in RunSystem(steps + Recvs(k, n)).live
    ensures Trace(steps + Recvs(k, n), k) == Trace(steps, k) + Takes(n)
  {
    if n == 0 {
      assert steps + Recvs(k, 0) == steps;
    } else {
      RecvsAreTakes(steps, k, n - 1);
      RecvTrace(steps + Recvs(k, n - 1), k);
      assert steps + Recvs(k, n) == steps + Recvs(k, n - 1) + [Recv(k)];
      NextTake(Trace(steps, k), n);
    }
  }

  lemma SessionReturns(steps: seq<Step>, k: nat, n: nat)
    requires k in RunSystem(steps).live && n >= |RunSystem(steps).live[k].queue|
    ensures k in RunSystem(steps + Recvs(k, n)).live
    ensures RunSystem(steps + Recvs(k, n)).live[k].returned == Outputs(EMPTY, Accepted(Trace(steps, k)))
  {
    RecvsAreTakes(steps, k, n);
    SessionsDoNotInterfere(steps, k);
    SessionsDoNotInterfere(steps + Recvs(k, n), k);
    LocalReturns(Trace(steps, k), n);
  }

  /**
   From the wire to the caller, in any run and among any other sessions' traffic: if what
   reached session `k` is some history, then the datagrams of a message of at most 255
   fragments in any order with any duplicates, then anything, and no arrival found the
   queue full, then enough receives return that message exactly once between what the
   history and the remainder yield.
   */
  lemma MessageReachesSession(steps: seq<Step>, k: nat, n: nat, m: UdpMessage, limit: nat,
                              h: seq<UdpMessage>, ds: seq<seq<byte>>, rest: seq<UdpMessage>)
    returns (j: nat, out: seq<UdpMessage>)
    requires k in RunSystem(steps).live && n >= |RunSystem(steps).live[k].queue|
    requires Accepted(Trace(steps, k)) == ArrivalsOf(Trace(steps, k)) == h + EndToEnd.Received(ds) + rest
    requires NeedsFragments(m, limit) && Deliverable(m) && Count(m, limit) <= 255
    requires WireArrivals(ds, Fragments(m, limit)) && Untracked(Run(EMPTY, h), m.packetId, Count(m, limit))
    ensures OnceAmong(out, EndToEnd.Received(ds), m, j)
    ensures k in RunSystem(steps + Recvs(k, n)).live
    ensures RunSystem(steps + Recvs(k, n)).live[k].returned ==
              Outputs(EMPTY, h) + out + Outputs(Run(EMPTY, h + EndToEnd.Received(ds)), rest)
  {
    var ms := EndToEnd.Received(ds);
    ReceivedArrivals(m, limit, ds);
    j := ReturnedOnce(m, limit, Run(EMPTY, h), ms);
    out := Outputs(Run(EMPTY, h), ms);
    SessionReturns(steps, k, n);
    OutputsConcat(EMPTY, h, ms);
    OutputsConcat(EMPTY, h + ms, rest);
  }
}
