/**
 The switchable upload controller: Brutal and a second controller run side by
 side, and the handshake's outcome decides which one governs and at what rate.
 */
module Switchable {
  import opened Bytes
  import opened Brutal

  class AtomicBool {
    var value: bool
  }

  /** Post-handshake reconciliation of the configured rate with the server's answer. */
  method Reconcile(rate: AtomicU64, useBbr: AtomicBool, txBps: u64, rxAuto: bool, serverRx: u64)
    modifies rate, useBbr
    ensures (rate.value, useBbr.value) == Reconciled(old(rate.value), old(useBbr.value), txBps, rxAuto, serverRx)
  {
    if rxAuto {
      useBbr.value := true;
    } else if serverRx > 0 {
      var clamped := Min(txBps, serverRx);
      rate.value := clamped;
    }
  }

  function Reconciled(rate: u64, useBbr: bool, txBps: u64, rxAuto: bool, serverRx: u64): (r: (u64, bool)) {
    if rxAuto then (rate, true)
    else if serverRx > 0 then (Min(txBps, serverRx), useBbr)
    else (rate, useBbr)
  }

  // What a controller can read of the round-trip estimator.
  datatype Rtt = Rtt(estimate: nat, min: nat, conservative: nat)

  // The controller callbacks with everything that is forwarded.
  datatype Callback =
    | OnSent(now: nat, bytes: u64, lastPacket: u64)
    | OnAck(now: nat, sent: nat, bytes: u64, appLimited: bool, rtt: Rtt)
    | OnEndAcks(now: nat, inFlight: u64, appLimited: bool, largestAcked: Option<u64>)
    | OnCongestion(now: nat, sent: nat, persistent: bool, lostBytes: u64)
    | OnMtu(mtu: u16)

  // What Brutal makes of a callback.
  function Seen(c: Callback): (ev: Event) {
    match c
    case OnAck(now, _, _, _, rtt) => Ack(now, rtt.estimate)
    case OnCongestion(now, _, _, lostBytes) => Loss(now, lostBytes)
    case OnMtu(mtu) => Mtu(mtu)
    case _ => Other
  }

  // Both controllers and the two shared cells; `B` is the state of the second controller.
  datatype Switch<B> = Switch(brutal: Controller, bbr: B, rate: u64, useBbr: bool)

  datatype Action = Path(call: Callback) | Handshake(rxAuto: bool, serverRx: u64)

  function Start<B>(mtu: u16, bbr: B, txBps: u64): (s: Switch<B>) { Switch(Fresh(mtu), bbr, txBps, false) }

  function Act<B>(base: nat, txBps: u64, bbrStep: (B, Callback) -> B, s: Switch<B>, a: Action): (r: Switch<B>) {
    match a
    case Path(c) => s.(brutal := Step(base, s.brutal, Seen(c)), bbr := bbrStep(s.bbr, c))
    case Handshake(rxAuto, serverRx) =>
      var r := Reconciled(s.rate, s.useBbr, txBps, rxAuto, serverRx);
      s.(rate := r.0, useBbr := r.1)
  }

  function RunAll<B>(base: nat, mtu: u16, txBps: u64, bbrStep: (B, Callback) -> B, bbr: B, acts: seq<Action>): (s: Switch<B>) {
    if acts == [] then Start(mtu, bbr, txBps)
    else Act(base, txBps, bbrStep, RunAll(base, mtu, txBps, bbrStep, bbr, acts[..|acts| - 1]), acts[|acts| - 1])
  }

  function SwitchWindow<B>(s: Switch<B>, bbrWindow: B -> nat): (w: nat)
    requires s.brutal.ackRate > 0.0
  {
    if s.useBbr then bbrWindow(s.bbr) else Window(s.brutal, s.rate)
  }

  // ---------- the forwarding object ----------

  // The second controller: any state, any reaction to a callback, any window.
  class SecondController<B> {
    const step: (B, Callback) -> B
    const window: B -> nat
    var state: B

    constructor (state: B, step: (B, Callback) -> B, window: B -> nat)
      ensures this.state == state && this.step == step && this.window == window
    {
      this.state, this.step, this.window := state, step, window;
    }

    method Handle(c: Callback)
      modifies this
      ensures state == step(old(state), c)
    {
      state := step(state, c);
    }
  }

  class SwitchableController<B> {
    const brutal: BrutalController
    const bbr: SecondController<B>
    const useBbr: AtomicBool

    ghost predicate Valid()
      reads brutal
    {
      brutal.Valid()
    }

    ghost function View(): (s: Switch<B>)
      requires Valid()
      reads brutal, brutal.slots, brutal.rate, bbr, useBbr
    {
      Switch(brutal.View(), bbr.state, brutal.rate.value, useBbr.value)
    }

    constructor (brutal: BrutalController, bbr: SecondController<B>, useBbr: AtomicBool)
      requires brutal.Valid()
      ensures Valid() && this.brutal == brutal && this.bbr == bbr && this.useBbr == useBbr
    {
      this.brutal, this.bbr, this.useBbr := brutal, bbr, useBbr;
    }

    method OnSent(now: nat, bytes: u64, lastPacket: u64, ghost txBps: u64)
      requires Valid()
      modifies bbr
      ensures Valid()
      ensures View() == Act(brutal.base, txBps, bbr.step, old(View()), Path(Callback.OnSent(now, bytes, lastPacket)))
    {
      // Brutal keeps the default, which does nothing.
      bbr.Handle(Callback.OnSent(now, bytes, lastPacket));
    }

    method OnAck(now: nat, sent: nat, bytes: u64, appLimited: bool, rtt: Rtt, ghost txBps: u64)
      requires Valid()
      modifies brutal, brutal.slots, bbr
      ensures Valid()
      ensures View() == Act(brutal.base, txBps, bbr.step, old(View()), Path(Callback.OnAck(now, sent, bytes, appLimited, rtt)))
      ensures brutal.View() == Step(brutal.base, old(brutal.View()), Ack(now, rtt.estimate))
    {
      brutal.OnAck(now, rtt.estimate);
      bbr.Handle(Callback.OnAck(now, sent, bytes, appLimited, rtt));
    }

    method OnEndAcks(now: nat, inFlight: u64, appLimited: bool, largestAcked: Option<u64>, ghost txBps: u64)
      requires Valid()
      modifies bbr
      ensures Valid()
      ensures View() ==
                Act(brutal.base, txBps, bbr.step, old(View()), Path(Callback.OnEndAcks(now, inFlight, appLimited, largestAcked)))
    {
      bbr.Handle(Callback.OnEndAcks(now, inFlight, appLimited, largestAcked));
    }

    method OnCongestionEvent(now: nat, sent: nat, persistent: bool, lostBytes: u64, ghost txBps: u64)
      requires Valid()
      modifies brutal, brutal.slots, bbr
      ensures Valid()
      ensures View() ==
                Act(brutal.base, txBps, bbr.step, old(View()), Path(OnCongestion(now, sent, persistent, lostBytes)))
      ensures brutal.View() == Step(brutal.base, old(brutal.View()), Loss(now, lostBytes))
    {
      brutal.OnCongestionEvent(now, lostBytes);
      bbr.Handle(OnCongestion(now, sent, persistent, lostBytes));
    }

    method OnMtuUpdate(newMtu: u16, ghost txBps: u64)
      requires Valid()
      modifies brutal, bbr
      ensures Valid()
      ensures View() == Act(brutal.base, txBps, bbr.step, old(View()), Path(OnMtu(newMtu)))
    {
      brutal.OnMtuUpdate(newMtu);
      bbr.Handle(OnMtu(newMtu));
    }

    /** The handshake changes the shared cells and neither controller. */
    method Settle(txBps: u64, rxAuto: bool, serverRx: u64)
      requires Valid()
      modifies brutal.rate, useBbr
      ensures Valid()
      ensures View() == Act(brutal.base, txBps, bbr.step, old(View()), Handshake(rxAuto, serverRx))
    {
      Reconcile(brutal.rate, useBbr, txBps, rxAuto, serverRx);
    }

    method CurrentWindow() returns (w: nat)
      requires Valid()
      ensures w == SwitchWindow(View(), bbr.window)
    {
      if useBbr.value {
        w := bbr.window(bbr.state);
      } else {
        w := brutal.CurrentWindow();
      }
    }
  }

  // ---------- every run ----------

  // The callbacks of a run, what Brutal sees of them, and the second controller run alone on them.
  function Calls(acts: seq<Action>): (cs: seq<Callback>) {
    if acts == [] then []
    else Calls(acts[..|acts| - 1]) + if acts[|acts| - 1].Path? then [acts[|acts| - 1].call] else []
  }

  function AllSeen(cs: seq<Callback>): (evs: seq<Event>)
    ensures |evs| == |cs| && forall i | 0 <= i < |cs| :: evs[i] == Seen(cs[i])
  {
    seq(|cs|, i requires 0 <= i < |cs| => Seen(cs[i]))
  }

  // `ev` is the part of callback `c` that concerns Brutal: time and smoothed round trip of an
  // acknowledgement, time and size of a loss, a new packet size, and nothing of the others.
  predicate Concerns(ev: Event, c: Callback) {
    && (c.OnAck? ==> ev == Ack(c.now, c.rtt.estimate))
    && (c.OnCongestion? ==> ev == Loss(c.now, c.lostBytes))
    && (c.OnMtu? ==> ev == Mtu(c.mtu))
    && (c.OnSent? || c.OnEndAcks? ==> ev == Other)
  }

  ghost predicate AllConcern(evs: seq<Event>, cs: seq<Callback>) {
    |evs| == |cs| && forall i | 0 <= i < |cs| :: Concerns(evs[i], cs[i])
  }

  lemma ConcernsAreSeen(evs: seq<Event>, cs: seq<Callback>)
    requires AllConcern(evs, cs)
    ensures evs == AllSeen(cs)
  {
    forall i | 0 <= i < |cs|
      ensures evs[i] == Seen(cs[i])
    {
      assert Concerns(evs[i], cs[i]);
    }
  }

  function RunBbr<B>(bbrStep: (B, Callback) -> B, bbr: B, cs: seq<Callback>): (b: B) {
    if cs == [] then bbr else bbrStep(RunBbr(bbrStep, bbr, cs[..|cs| - 1]), cs[|cs| - 1])
  }

  // What the handshakes so far settled: automatic, or the rate in force.
  predicate SettledAuto(acts: seq<Action>) { exists a <- acts :: a.Handshake? && a.rxAuto }

  function SettledRate(acts: seq<Action>, txBps: u64): (r: u64) {
    if acts == [] then txBps
    else
      var a := acts[|acts| - 1];
      if a.Handshake? && !a.rxAuto && a.serverRx > 0 then Min(txBps, a.serverRx)
      else SettledRate(acts[..|acts| - 1], txBps)
  }

  /**
   For every interleaving of path events and handshake outcomes: each controller is
   exactly where it would be had it run alone on all callbacks, Brutal on the events that
   concern it, so switching is seamless, and the shared cells hold what the handshakes settled.
   */
  lemma BothStayWarm<B>(base: nat, mtu: u16, txBps: u64, bbrStep: (B, Callback) -> B, bbr: B, acts: seq<Action>, evs: seq<Event>)
    requires AllConcern(evs, Calls(acts))
    ensures RunAll(base, mtu, txBps, bbrStep, bbr, acts) ==
              Switch(Run(base, mtu, evs), RunBbr(bbrStep, bbr, Calls(acts)), SettledRate(acts, txBps), SettledAuto(acts))
  {
    ConcernsAreSeen(evs, Calls(acts));
    BothRun(base, mtu, txBps, bbrStep, bbr, acts);
  }

  lemma {:induction false} BothRun<B>(base: nat, mtu: u16, txBps: u64, bbrStep: (B, Callback) -> B, bbr: B, acts: seq<Action>)
    ensures RunAll(base, mtu, txBps, bbrStep, bbr, acts) ==
              Switch(Run(base, mtu, AllSeen(Calls(acts))), RunBbr(bbrStep, bbr, Calls(acts)),
                     SettledRate(acts, txBps), SettledAuto(acts))
  {
    if acts != [] {
      var (before, a) := (acts[..|acts| - 1], acts[|acts| - 1]);
      BothRun(base, mtu, txBps, bbrStep, bbr, before);
      SettledAutoSnoc(before, a);
      assert acts == before + [a];
      if a.Path? {
        ForwardStep(base, mtu, txBps, bbrStep, bbr, Calls(before), a.call, SettledRate(before, txBps), SettledAuto(before));
        assert Calls(acts) == Calls(before) + [a.call];
      } else {
        assert Calls(acts) == Calls(before);
      }
    }
  }

  lemma SettledAutoSnoc(acts: seq<Action>, a: Action)
    ensures SettledAuto(acts + [a]) <==> SettledAuto(acts) || (a.Handshake? && a.rxAuto)
  {
  }

  lemma RunsSnoc<B>(base: nat, mtu: u16, bbrStep: (B, Callback) -> B, bbr: B, cs: seq<Callback>, c: Callback)
    ensures Run(base, mtu, AllSeen(cs + [c])) == Step(base, Run(base, mtu, AllSeen(cs)), Seen(c))
    ensures RunBbr(bbrStep, bbr, cs + [c]) == bbrStep(RunBbr(bbrStep, bbr, cs), c)
  {
    var evs := AllSeen(cs + [c]);
    assert evs[..|evs| - 1] == AllSeen(cs);
    assert (cs + [c])[..|cs|] == cs;
  }

  lemma ForwardStep<B>(base: nat, mtu: u16, txBps: u64, bbrStep: (B, Callback) -> B, bbr: B, cs: seq<Callback>, c: Callback,
                       rate: u64, useBbr: bool)
    ensures Act(base, txBps, bbrStep, Switch(Run(base, mtu, AllSeen(cs)), RunBbr(bbrStep, bbr, cs), rate, useBbr), Path(c)) ==
              Switch(Run(base, mtu, AllSeen(cs + [c])), RunBbr(bbrStep, bbr, cs + [c]), rate, useBbr)
  {
    RunsSnoc(base, mtu, bbrStep, bbr, cs, c);
  }

  /** The window is the second controller's once `auto` was seen, else Brutal's, within bounds of the settled rate. */
  lemma SettledWindow<B>(base: nat, mtu: u16, txBps: u64, bbrStep: (B, Callback) -> B, bbrWindow: B -> nat, bbr: B,
                         acts: seq<Action>, evs: seq<Event>)
    requires AllConcern(evs, Calls(acts))
    ensures WindowInBounds(Run(base, mtu, evs), SettledRate(acts, txBps))
    ensures RunAll(base, mtu, txBps, bbrStep, bbr, acts).brutal.ackRate > 0.0
    ensures SwitchWindow(RunAll(base, mtu, txBps, bbrStep, bbr, acts), bbrWindow) ==
              if SettledAuto(acts) then bbrWindow(RunBbr(bbrStep, bbr, Calls(acts)))
              else Window(Run(base, mtu, evs), SettledRate(acts, txBps))
  {
    BothStayWarm(base, mtu, txBps, bbrStep, bbr, acts, evs);
    WindowBounds(base, mtu, evs, SettledRate(acts, txBps));
  }

  /** One numeric handshake settles the smaller of the two rates, and never more than configured. */
  lemma {:induction false} SettledRateIsMin(acts: seq<Action>, txBps: u64, k: nat)
    requires k < |acts| && acts[k].Handshake? && !acts[k].rxAuto && acts[k].serverRx > 0
    requires forall i | k < i < |acts| :: acts[i].Path?
    ensures SettledRate(acts, txBps) == Min(txBps, acts[k].serverRx)
  {
    if k < |acts| - 1 {
      SettledRateIsMin(acts[..|acts| - 1], txBps, k);
    }
  }
}
