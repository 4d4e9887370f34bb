/**
 The Brutal congestion controller: a five-slot ring of per-second counters, the
 acknowledgement-rate estimate and the window.  Floating-point quantities are
 exact reals and counters are unbounded naturals.
 */
module Brutal {
  import opened Bytes

  const SLOT_COUNT := 5
  const MIN_SAMPLE_COUNT := 50
  const MIN_ACK_RATE := 0.8
  const NANOS := 1_000_000_000
  const U64_MAX := 0xFFFF_FFFF_FFFF_FFFF

  // Acknowledged and lost packets of one second: a slot of the ring, or one entry of the history.
  datatype Slot = Slot(ts: nat, ack: nat, loss: nat)

  datatype Kind = Acks | Losses

  function Of(s: Slot, k: Kind): (n: nat) { if k.Acks? then s.ack else s.loss }

  // ---------- one record ----------

  function Secs(base: nat, now: nat): (s: nat) { if now < base then 0 else (now - base) / NANOS }

  function Recorded(slots: seq<Slot>, s: Slot): (r: seq<Slot>)
    requires |slots| == SLOT_COUNT
    ensures |r| == SLOT_COUNT
  {
    var i := s.ts % SLOT_COUNT;
    if slots[i].ts == s.ts then slots[i := Slot(s.ts, slots[i].ack + s.ack, slots[i].loss + s.loss)]
    else slots[i := s]
  }

  // The slots not older than `minTs`, summed.
  function Recent(slots: seq<Slot>, k: Kind, minTs: int): (n: nat) {
    if slots == [] then 0
    else Recent(slots[..|slots| - 1], k, minTs) + Contribution(slots[|slots| - 1], k, minTs)
  }

  function Contribution(s: Slot, k: Kind, minTs: int): (n: nat) { if s.ts < minTs then 0 else Of(s, k) }

  function AckRate(acks: nat, losses: nat): (r: real) {
    if acks + losses < MIN_SAMPLE_COUNT then 1.0
    else
      var rate := acks as real / (acks + losses) as real;
      if rate > MIN_ACK_RATE then rate else MIN_ACK_RATE
  }

  // ---------- the controller ----------

  datatype State = State(mtu: u16, srtt: nat, ackRate: real, slots: seq<Slot>)

  type Controller = st: State | |st.slots| == SLOT_COUNT
    witness State(0, 0, 1.0, seq(SLOT_COUNT, _ => Slot(0, 0, 0)))

  function Fresh(mtu: u16): (st: Controller) {
    State(mtu, 0, 1.0, seq(SLOT_COUNT, _ => Slot(0, 0, 0)))
  }

  // Path events.  `Other` stands for the callbacks Brutal does not override.
  datatype Event = Ack(now: nat, rtt: nat) | Loss(now: nat, lostBytes: nat) | Mtu(mtu: u16) | Other

  function LostPackets(lostBytes: nat, mtu: u16): (n: nat) { Max(lostBytes / Max(mtu, 1), 1) }

  function Record(st: Controller, s: Slot): (r: Controller) {
    var slots := Recorded(st.slots, s);
    var minTs := s.ts - SLOT_COUNT;
    st.(slots := slots, ackRate := AckRate(Recent(slots, Acks, minTs), Recent(slots, Losses, minTs)))
  }

  function Step(base: nat, st: Controller, ev: Event): (r: Controller) {
    match ev
    case Ack(now, rtt) => Record(st.(srtt := rtt), Slot(Secs(base, now), 1, 0))
    case Loss(now, lostBytes) => Record(st, Slot(Secs(base, now), 0, LostPackets(lostBytes, st.mtu)))
    case Mtu(mtu) => st.(mtu := mtu)
    case Other => st
  }

  function Floor(mtu: u16): (w: nat) { Max(mtu * 2, 10_240) }

  // `x as u64`: truncation, saturating at the ends.
  function AsU64(x: real): (n: u64) {
    if x < 0.0 then 0 else if x.Floor > U64_MAX then U64_MAX else x.Floor
  }

  function Seconds(nanos: nat): (s: real) { nanos as real / NANOS as real }

  function Cwnd(rate: u64, srtt: nat, ackRate: real): (x: real)
    requires ackRate > 0.0
  {
    rate as real * Seconds(srtt) / ackRate
  }

  function Window(st: Controller, rate: u64): (w: nat)
    requires st.ackRate > 0.0
  {
    if st.srtt == 0 then Floor(st.mtu)
    else Max(AsU64(Cwnd(rate, st.srtt, st.ackRate)), Floor(st.mtu))
  }

  class AtomicU64 {
    var value: u64
  }

  class BrutalController {
    const rate: AtomicU64
    const base: nat
    const slots: array<Slot>
    var mtu: u16
    var srtt: nat
    var ackRate: real

    ghost predicate Valid()
      reads this
    {
      slots.Length == SLOT_COUNT && ackRate > 0.0
    }

    ghost function View(): (st: Controller)
      reads this, slots
      requires Valid()
    {
      State(mtu, srtt, ackRate, slots[..])
    }

    constructor (rate: AtomicU64, mtu: u16, now: nat)
      ensures Valid() && fresh(slots) && View() == Fresh(mtu)
      ensures this.rate == rate && base == now
    {
      this.rate, this.base, this.mtu, srtt, ackRate := rate, now, mtu, 0, 1.0;
      slots := new Slot[SLOT_COUNT](_ => Slot(0, 0, 0));
    }

    method RecordSample(now: nat, ack: nat, loss: nat)
      requires Valid()
      modifies this`ackRate, slots
      ensures Valid() && View() == Record(old(View()), Slot(Secs(base, now), ack, loss))
    {
      var ts := Secs(base, now);
      var i := ts % SLOT_COUNT;
      if slots[i].ts == ts {
        slots[i] := slots[i].(ack := slots[i].ack + ack, loss := slots[i].loss + loss);
      } else {
        slots[i] := Slot(ts, ack, loss);
      }
      assert slots[..] == Recorded(old(slots[..]), Slot(ts, ack, loss));
      UpdateAckRate(ts);
    }

    method UpdateAckRate(nowTs: nat)
      requires Valid()
      modifies this`ackRate
      ensures Valid()
      ensures var minTs := nowTs - SLOT_COUNT;
              ackRate == AckRate(Recent(slots[..], Acks, minTs), Recent(slots[..], Losses, minTs))
    {
      var minTs := nowTs - SLOT_COUNT;
      var acks: nat, losses: nat := 0, 0;
      for k := 0 to SLOT_COUNT
        invariant acks == Recent(slots[..k], Acks, minTs) && losses == Recent(slots[..k], Losses, minTs)
      {
        assert slots[..k + 1][..k] == slots[..k];
        var s := slots[k];
        if !(s.ts < minTs) {
          acks := acks + s.ack;
          losses := losses + s.loss;
        }
      }
      assert slots[..SLOT_COUNT] == slots[..];
      if acks + losses < MIN_SAMPLE_COUNT {
        ackRate := 1.0;
        return;
      }
      var rate := acks as real / (acks + losses) as real;
      ackRate := if rate > MIN_ACK_RATE then rate else MIN_ACK_RATE;
    }

    method OnAck(now: nat, rtt: nat)
      requires Valid()
      modifies this`srtt, this`ackRate, slots
      ensures Valid() && View() == Step(base, old(View()), Ack(now, rtt))
    {
      srtt := rtt;
      RecordSample(now, 1, 0);
    }

    method OnCongestionEvent(now: nat, lostBytes: nat)
      requires Valid()
      modifies this`ackRate, slots
      ensures Valid() && View() == Step(base, old(View()), Loss(now, lostBytes))
    {
      var lostPkts := Max(lostBytes / Max(mtu, 1), 1);
      RecordSample(now, 0, lostPkts);
    }

    method OnMtuUpdate(newMtu: u16)
      requires Valid()
      modifies this`mtu
      ensures Valid() && View() == Step(base, old(View()), Mtu(newMtu))
    {
      mtu := newMtu;
    }

    method CurrentWindow() returns (w: nat)
      requires Valid()
      ensures w == Window(View(), rate.value)
    {
      var floor := Max(mtu * 2, 10_240);
      if srtt == 0 {
        return floor;
      }
      var cwnd := Cwnd(rate.value, srtt, ackRate);
      w := Max(AsU64(cwnd), floor);
    }
  }

  // ---------- runs and the history they leave ----------

  function Run(base: nat, mtu: u16, evs: seq<Event>): (st: Controller) {
    if evs == [] then Fresh(mtu) else Step(base, Run(base, mtu, evs[..|evs| - 1]), evs[|evs| - 1])
  }

  // What was acknowledged or lost in which second, over the whole run.
  function History(base: nat, mtu: u16, evs: seq<Event>): (h: seq<Slot>) {
    if evs == [] then []
    else
      var before := evs[..|evs| - 1];
      var ev := evs[|evs| - 1];
      History(base, mtu, before) + if Timed(ev) then [SampleOf(base, MtuAfter(mtu, before), ev)] else []
  }

  // The history entry of one acknowledgement or loss event.
  function SampleOf(base: nat, mtu: u16, ev: Event): (s: Slot)
    requires Timed(ev)
  {
    if ev.Ack? then Slot(Secs(base, ev.now), 1, 0)
    else Slot(Secs(base, ev.now), 0, LostPackets(ev.lostBytes, mtu))
  }

  function MtuAfter(mtu: u16, evs: seq<Event>): (r: u16) {
    if evs == [] then mtu
    else if evs[|evs| - 1].Mtu? then evs[|evs| - 1].mtu
    else MtuAfter(mtu, evs[..|evs| - 1])
  }

  predicate Timed(ev: Event) { ev.Ack? || ev.Loss? }

  predicate Monotone(evs: seq<Event>) {
    forall i, j | 0 <= i < j < |evs| && Timed(evs[i]) && Timed(evs[j]) :: evs[i].now <= evs[j].now
  }

  // Everything in `h` from second `lo` to second `hi`.
  function Between(h: seq<Slot>, k: Kind, lo: int, hi: int): (n: nat) {
    if h == [] then 0
    else Between(h[..|h| - 1], k, lo, hi) + if lo <= h[|h| - 1].ts <= hi then Of(h[|h| - 1], k) else 0
  }

  function Last(h: seq<Slot>): (ts: nat)
    requires h != []
  {
    h[|h| - 1].ts
  }

  lemma {:induction false} NothingBetween(h: seq<Slot>, k: Kind, lo: int, hi: int)
    requires forall s <- h :: !(lo <= s.ts <= hi)
    ensures Between(h, k, lo, hi) == 0
  {
    if h != [] {
      assert h[|h| - 1] in h;
      NothingBetween(h[..|h| - 1], k, lo, hi);
    }
  }

  lemma {:induction false} SplitBetween(h: seq<Slot>, k: Kind, lo: int, mid: int, hi: int)
    requires lo <= mid <= hi + 1
    ensures Between(h, k, lo, hi) == Between(h, k, lo, mid - 1) + Between(h, k, mid, hi)
  {
    if h != [] {
      SplitBetween(h[..|h| - 1], k, lo, mid, hi);
    }
  }

  lemma BetweenSnoc(h: seq<Slot>, s: Slot, k: Kind, lo: int, hi: int)
    ensures Between(h + [s], k, lo, hi) == Between(h, k, lo, hi) + if lo <= s.ts <= hi then Of(s, k) else 0
  {
    assert (h + [s])[..|h|] == h;
  }

  // ---------- the ring invariant ----------

  // Slot `i` holds the full count of the latest second congruent to `i` seen so far.
  ghost predicate SlotHolds(slot: Slot, i: nat, h: seq<Slot>) {
    && (forall s <- h :: s.ts % SLOT_COUNT == i ==> s.ts <= slot.ts)
    && (if slot.ts % SLOT_COUNT == i
        then forall k: Kind :: Of(slot, k) == Between(h, k, slot.ts, slot.ts)
        else slot == Slot(0, 0, 0))
    && (slot.ts == 0 || exists s <- h :: s.ts == slot.ts)
  }

  ghost predicate RingHolds(slots: seq<Slot>, h: seq<Slot>) {
    |slots| == SLOT_COUNT && forall i | 0 <= i < SLOT_COUNT :: SlotHolds(slots[i], i, h)
  }

  lemma OtherSlot(slot: Slot, i: nat, h: seq<Slot>, s: Slot)
    requires SlotHolds(slot, i, h) && s.ts % SLOT_COUNT != i
    ensures SlotHolds(slot, i, h + [s])
  {
    forall k: Kind
      ensures slot.ts % SLOT_COUNT == i ==> Between(h + [s], k, slot.ts, slot.ts) == Between(h, k, slot.ts, slot.ts)
    {
      BetweenSnoc(h, s, k, slot.ts, slot.ts);
    }
    assert forall x <- h :: x in h + [s];
  }

  lemma HitSlot(slot: Slot, i: nat, h: seq<Slot>, s: Slot)
    requires SlotHolds(slot, i, h) && s.ts % SLOT_COUNT == i
    requires forall x <- h :: x.ts <= s.ts
    ensures SlotHolds(if slot.ts == s.ts then Slot(s.ts, slot.ack + s.ack, slot.loss + s.loss) else s, i, h + [s])
  {
    assert s in h + [s];
    assert slot.ts <= s.ts;
    forall k: Kind
      ensures Between(h + [s], k, s.ts, s.ts) == Of(s, k) + if slot.ts == s.ts then Of(slot, k) else 0
    {
      BetweenSnoc(h, s, k, s.ts, s.ts);
      if slot.ts != s.ts {
        NothingBetween(h, k, s.ts, s.ts);
      }
    }
  }

  lemma RecordKeepsRing(slots: seq<Slot>, h: seq<Slot>, s: Slot)
    requires RingHolds(slots, h) && forall x <- h :: x.ts <= s.ts
    ensures RingHolds(Recorded(slots, s), h + [s])
  {
    var slots' := Recorded(slots, s);
    forall i | 0 <= i < SLOT_COUNT
      ensures SlotHolds(slots'[i], i, h + [s])
    {
      if i == s.ts % SLOT_COUNT {
        HitSlot(slots[i], i, h, s);
      } else {
        OtherSlot(slots[i], i, h, s);
      }
    }
  }

  // The second congruent to `i` among the last five.
  function SecondOf(i: nat, now: nat): (t: int) { now - (now - i) % SLOT_COUNT }

  function At(h: seq<Slot>, k: Kind, t: int): (n: nat) { Between(h, k, t, t) }

  lemma SecondOfIsUnique(i: nat, now: nat, t: int)
    requires i < SLOT_COUNT && t % SLOT_COUNT == i && now - SLOT_COUNT < t <= now
    ensures t == SecondOf(i, now)
  {
  }

  lemma SecondOfIsRecent(i: nat, now: nat)
    requires i < SLOT_COUNT
    ensures now - SLOT_COUNT < SecondOf(i, now) <= now && SecondOf(i, now) % SLOT_COUNT == i
  {
  }

  // A slot admitted by the filter counts for exactly one of the last five seconds:
  // the second now-5 the filter also admits has been overwritten by now.
  lemma SlotContributes(slots: seq<Slot>, i: nat, h: seq<Slot>, k: Kind, now: nat)
    requires RingHolds(slots, h) && i < SLOT_COUNT
    requires (forall s <- h :: s.ts <= now) && slots[now % SLOT_COUNT].ts == now
    ensures Contribution(slots[i], k, now - SLOT_COUNT) == At(h, k, SecondOf(i, now))
  {
    var (slot, t) := (slots[i], SecondOf(i, now));
    assert SlotHolds(slot, i, h);
    SecondOfIsRecent(i, now);
    if slot.ts % SLOT_COUNT == i && now - SLOT_COUNT < slot.ts <= now {
      SecondOfIsUnique(i, now, slot.ts);
    }
    if slot.ts % SLOT_COUNT != i || slot.ts != t {
      assert forall s <- h :: s.ts != t;
      NothingBetween(h, k, t, t);
    }
  }

  lemma RecentIsSum(slots: seq<Slot>, k: Kind, minTs: int)
    requires |slots| == SLOT_COUNT
    ensures Recent(slots, k, minTs) ==
              Contribution(slots[0], k, minTs) + Contribution(slots[1], k, minTs) + Contribution(slots[2], k, minTs)
              + Contribution(slots[3], k, minTs) + Contribution(slots[4], k, minTs)
  {
    assert slots[..4][..3] == slots[..3] && slots[..3][..2] == slots[..2] && slots[..2][..1] == slots[..1];
    assert Recent(slots[..1], k, minTs) == Contribution(slots[0], k, minTs);
    assert Recent(slots[..3], k, minTs) == Recent(slots[..2], k, minTs) + Contribution(slots[2], k, minTs);
  }

  lemma FiveSeconds(h: seq<Slot>, k: Kind, now: int)
    ensures Between(h, k, now - 4, now) ==
              At(h, k, now) + At(h, k, now - 1) + At(h, k, now - 2) + At(h, k, now - 3) + At(h, k, now - 4)
  {
    SplitBetween(h, k, now - 4, now - 3, now);
    SplitBetween(h, k, now - 3, now - 2, now);
    SplitBetween(h, k, now - 2, now - 1, now);
    SplitBetween(h, k, now - 1, now, now);
  }

  lemma SecondsOf(now: nat)
    ensures var r := now % SLOT_COUNT;
            && SecondOf(0, now) == now - r
            && SecondOf(1, now) == now - (if r >= 1 then r - 1 else r + 4)
            && SecondOf(2, now) == now - (if r >= 2 then r - 2 else r + 3)
            && SecondOf(3, now) == now - (if r >= 3 then r - 3 else r + 2)
            && SecondOf(4, now) == now - (if r >= 4 then r - 4 else r + 1)
  {
  }

  // The five slots stand for the last five seconds, in some rotation.
  lemma Rotation(h: seq<Slot>, k: Kind, now: nat)
    ensures At(h, k, SecondOf(0, now)) + At(h, k, SecondOf(1, now)) + At(h, k, SecondOf(2, now))
            + At(h, k, SecondOf(3, now)) + At(h, k, SecondOf(4, now))
            == At(h, k, now) + At(h, k, now - 1) + At(h, k, now - 2) + At(h, k, now - 3) + At(h, k, now - 4)
  {
    SecondsOf(now);
    var r := now % SLOT_COUNT;
    if r == 0 {
    } else if r == 1 {
    } else if r == 2 {
    } else if r == 3 {
    } else {
      assert r == 4;
    }
  }

  /** The sum over the ring is the sum over exactly the last five seconds of the history. */
  lemma RingSum(slots: seq<Slot>, h: seq<Slot>, k: Kind, now: nat)
    requires RingHolds(slots, h)
    requires (forall s <- h :: s.ts <= now) && slots[now % SLOT_COUNT].ts == now
    ensures Recent(slots, k, now - SLOT_COUNT) == Between(h, k, now - 4, now)
  {
    RecentIsSum(slots, k, now - SLOT_COUNT);
    SlotContributes(slots, 0, h, k, now);
    SlotContributes(slots, 1, h, k, now);
    SlotContributes(slots, 2, h, k, now);
    SlotContributes(slots, 3, h, k, now);
    SlotContributes(slots, 4, h, k, now);
    Rotation(h, k, now);
    FiveSeconds(h, k, now);
  }

  lemma SecsMonotone(base: nat, a: nat, b: nat)
    requires a <= b
    ensures Secs(base, a) <= Secs(base, b)
  {
  }

  lemma {:induction false} MtuIsTracked(base: nat, mtu: u16, evs: seq<Event>)
    ensures Run(base, mtu, evs).mtu == MtuAfter(mtu, evs)
  {
    if evs != [] {
      MtuIsTracked(base, mtu, evs[..|evs| - 1]);
    }
  }

  lemma {:induction false} HistoryBounded(base: nat, mtu: u16, evs: seq<Event>, now: nat)
    requires forall ev <- evs :: Timed(ev) ==> ev.now <= now
    ensures forall s <- History(base, mtu, evs) :: s.ts <= Secs(base, now)
  {
    if evs != [] {
      var ev := evs[|evs| - 1];
      assert ev in evs;
      HistoryBounded(base, mtu, evs[..|evs| - 1], now);
      if Timed(ev) {
        SecsMonotone(base, ev.now, now);
      }
    }
  }

  lemma TimedStep(base: nat, mtu: u16, evs: seq<Event>)
    requires evs != [] && Timed(evs[|evs| - 1]) && Monotone(evs)
    ensures var (before, ev) := (evs[..|evs| - 1], evs[|evs| - 1]);
            var (st, s) := (Run(base, mtu, before), SampleOf(base, MtuAfter(mtu, before), ev));
            && History(base, mtu, evs) == History(base, mtu, before) + [s]
            && Run(base, mtu, evs) == Record(if ev.Ack? then st.(srtt := ev.rtt) else st, s)
            && (forall x <- History(base, mtu, before) :: x.ts <= s.ts)
  {
    var (before, ev) := (evs[..|evs| - 1], evs[|evs| - 1]);
    MtuIsTracked(base, mtu, before);
    HistoryBounded(base, mtu, before, ev.now);
  }

  // The estimate over the five seconds that end at the last entry of the history.
  function Estimate(h: seq<Slot>): (r: real) {
    if h == [] then 1.0
    else AckRate(Between(h, Acks, Last(h) - 4, Last(h)), Between(h, Losses, Last(h) - 4, Last(h)))
  }

  // The ring's sum for one kind is the history's over the last five seconds.
  predicate SumAgrees(slots: seq<Slot>, h: seq<Slot>, k: Kind)
    requires h != []
  {
    Recent(slots, k, Last(h) - SLOT_COUNT) == Between(h, k, Last(h) - 4, Last(h))
  }

  lemma RecordRefines(st: Controller, h: seq<Slot>, s: Slot)
    requires RingHolds(st.slots, h) && forall x <- h :: x.ts <= s.ts
    ensures var (r, h') := (Record(st, s), h + [s]);
            && RingHolds(r.slots, h') && SumAgrees(r.slots, h', Acks) && SumAgrees(r.slots, h', Losses)
            && r.ackRate == Estimate(h')
  {
    var (slots, h') := (Recorded(st.slots, s), h + [s]);
    RecordKeepsRing(st.slots, h, s);
    assert forall x <- h' :: x in h || x == s;
    RingSum(slots, h', Acks, s.ts);
    RingSum(slots, h', Losses, s.ts);
  }

  /**
   For every run with non-decreasing times the ring agrees with the history, and
   the estimate is that of exactly the seconds now-4 to now of the last record.
   */
  lemma {:induction false} RingRefinesHistory(base: nat, mtu: u16, evs: seq<Event>)
    requires Monotone(evs)
    ensures var (st, h) := (Run(base, mtu, evs), History(base, mtu, evs));
            && RingHolds(st.slots, h) && st.ackRate == Estimate(h)
            && (h != [] ==> SumAgrees(st.slots, h, Acks) && SumAgrees(st.slots, h, Losses))
  {
    if evs != [] {
      var (before, ev) := (evs[..|evs| - 1], evs[|evs| - 1]);
      RingRefinesHistory(base, mtu, before);
      var (st, h) := (Run(base, mtu, before), History(base, mtu, before));
      if Timed(ev) {
        TimedStep(base, mtu, evs);
        var s := SampleOf(base, MtuAfter(mtu, before), ev);
        RecordRefines(if ev.Ack? then st.(srtt := ev.rtt) else st, h, s);
      } else {
        assert History(base, mtu, evs) == h;
        assert Run(base, mtu, evs).slots == st.slots;
      }
    }
  }

  // ---------- the window ----------

  lemma AckRateBounds(acks: nat, losses: nat)
    ensures MIN_ACK_RATE <= AckRate(acks, losses) <= 1.0
  {
    if acks + losses >= MIN_SAMPLE_COUNT {
      DivAtMostOne(acks, acks + losses);
    }
  }

  lemma DivAtMostOne(a: nat, b: nat)
    requires a <= b && b > 0
    ensures a as real / b as real <= 1.0
  {
  }

  lemma DivMonotone(a: real, a': real, b: real, b': real)
    requires 0.0 <= a <= a' && 0.0 < b' <= b
    ensures a / b <= a' / b'
  {
  }

  /** More loss never raises the estimate, also when it crosses the sample threshold. */
  lemma AckRateAntitone(acks: nat, losses: nat, more: nat)
    ensures AckRate(acks, losses + more) <= AckRate(acks, losses)
  {
    AckRateBounds(acks, losses + more);
    if acks + losses >= MIN_SAMPLE_COUNT {
      DivMonotone(acks as real, acks as real, (acks + losses + more) as real, (acks + losses) as real);
    }
  }

  lemma AsU64Monotone(x: real, y: real)
    requires x <= y
    ensures AsU64(x) <= AsU64(y)
  {
  }

  lemma WindowAntitone(a: Controller, b: Controller, rate: u64)
    requires a.srtt == b.srtt && a.mtu == b.mtu && 0.0 < b.ackRate <= a.ackRate
    ensures Window(a, rate) <= Window(b, rate)
  {
    var x := rate as real * Seconds(a.srtt);
    assert x >= 0.0;
    DivMonotone(x, x, a.ackRate, b.ackRate);
    AsU64Monotone(Cwnd(rate, a.srtt, a.ackRate), Cwnd(rate, b.srtt, b.ackRate));
  }

  /** In every reachable state the estimate lies between 0.8 and 1. */
  lemma {:induction false} ReachableAckRate(base: nat, mtu: u16, evs: seq<Event>)
    ensures MIN_ACK_RATE <= Run(base, mtu, evs).ackRate <= 1.0
  {
    if evs != [] {
      var (st, ev) := (Run(base, mtu, evs[..|evs| - 1]), evs[|evs| - 1]);
      ReachableAckRate(base, mtu, evs[..|evs| - 1]);
      if Timed(ev) {
        var st' := Run(base, mtu, evs);
        var minTs := Secs(base, ev.now) - SLOT_COUNT;
        AckRateBounds(Recent(st'.slots, Acks, minTs), Recent(st'.slots, Losses, minTs));
      }
    }
  }

  lemma Quarter(x: real)
    ensures x / 1.0 == x && x / MIN_ACK_RATE == 1.25 * x
  {
  }

  lemma CwndBounds(rate: u64, srtt: nat, ackRate: real)
    requires MIN_ACK_RATE <= ackRate <= 1.0
    ensures var x := rate as real * Seconds(srtt); x <= Cwnd(rate, srtt, ackRate) <= 1.25 * x
  {
    var x := rate as real * Seconds(srtt);
    assert x >= 0.0;
    DivMonotone(x, x, 1.0, ackRate);
    DivMonotone(x, x, ackRate, MIN_ACK_RATE);
    Quarter(x);
  }

  lemma StateWindowBounds(st: Controller, rate: u64)
    requires MIN_ACK_RATE <= st.ackRate <= 1.0 && st.srtt > 0
    ensures var x := rate as real * Seconds(st.srtt);
            Max(Floor(st.mtu), AsU64(x)) <= Window(st, rate) <= Max(Floor(st.mtu), AsU64(1.25 * x))
  {
    CwndBounds(rate, st.srtt, st.ackRate);
    var (x, y) := (rate as real * Seconds(st.srtt), Cwnd(rate, st.srtt, st.ackRate));
    AsU64Monotone(x, y);
    AsU64Monotone(y, 1.25 * x);
  }

  // The window is worth between one and 1.25 times the rate over a round trip, above the floor.
  ghost predicate WindowInBounds(st: Controller, rate: u64) {
    && st.ackRate > 0.0
    && (st.srtt == 0 ==> Window(st, rate) == Floor(st.mtu))
    && (st.srtt > 0 ==>
          var x := rate as real * Seconds(st.srtt);
          Max(Floor(st.mtu), AsU64(x)) <= Window(st, rate) <= Max(Floor(st.mtu), AsU64(1.25 * x)))
  }

  lemma RateBoundsWindow(st: Controller, rate: u64)
    requires MIN_ACK_RATE <= st.ackRate <= 1.0
    ensures WindowInBounds(st, rate)
  {
    if st.srtt > 0 {
      StateWindowBounds(st, rate);
    }
  }

  /** Every reachable window is in bounds. */
  lemma WindowBounds(base: nat, mtu: u16, evs: seq<Event>, rate: u64)
    ensures WindowInBounds(Run(base, mtu, evs), rate)
  {
    ReachableAckRate(base, mtu, evs);
    RateBoundsWindow(Run(base, mtu, evs), rate);
  }

  lemma MonotonePrefix(evs: seq<Event>, ev: Event)
    requires Monotone(evs + [ev])
    ensures Monotone(evs)
  {
    assert forall i | 0 <= i < |evs| :: (evs + [ev])[i] == evs[i];
  }

  // The counts a loss leaves for its second.
  lemma CountsAfter(h: seq<Slot>, s: Slot)
    ensures Between(h + [s], Acks, s.ts - 4, s.ts) == Between(h, Acks, s.ts - 4, s.ts) + s.ack
    ensures Between(h + [s], Losses, s.ts - 4, s.ts) == Between(h, Losses, s.ts - 4, s.ts) + s.loss
  {
    BetweenSnoc(h, s, Acks, s.ts - 4, s.ts);
    BetweenSnoc(h, s, Losses, s.ts - 4, s.ts);
  }

  lemma LossEntry(base: nat, mtu: u16, evs: seq<Event>, loss: Event)
    requires loss.Loss? && Monotone(evs + [loss])
    ensures var (st, st') := (Run(base, mtu, evs), Run(base, mtu, evs + [loss]));
            var s := Slot(Secs(base, loss.now), 0, LostPackets(loss.lostBytes, st.mtu));
            && st' == Record(st, s)
            && (forall x <- History(base, mtu, evs) :: x.ts <= s.ts)
  {
    var all := evs + [loss];
    assert all[..|evs|] == evs;
    TimedStep(base, mtu, all);
    MtuIsTracked(base, mtu, evs);
  }

  // What one more loss at second `now` does to a state with history `h`: the
  // estimate becomes that of the seconds retained at its time.
  ghost predicate LossEffect(st: Controller, st': Controller, h: seq<Slot>, now: int, lost: nat) {
    && st'.srtt == st.srtt && st'.mtu == st.mtu && st.ackRate == Estimate(h)
    && st'.ackRate == AckRate(Between(h, Acks, now - 4, now), Between(h, Losses, now - 4, now) + lost)
  }

  lemma RecordLoss(st: Controller, h: seq<Slot>, s: Slot)
    requires RingHolds(st.slots, h) && st.ackRate == Estimate(h) && s.ack == 0
    requires forall x <- h :: x.ts <= s.ts
    ensures LossEffect(st, Record(st, s), h, s.ts, s.loss)
  {
    RecordRefines(st, h, s);
    CountsAfter(h, s);
  }

  lemma AfterLoss(base: nat, mtu: u16, evs: seq<Event>, loss: Event)
    requires loss.Loss? && Monotone(evs + [loss])
    ensures LossEffect(Run(base, mtu, evs), Run(base, mtu, evs + [loss]), History(base, mtu, evs),
                       Secs(base, loss.now), LostPackets(loss.lostBytes, Run(base, mtu, evs).mtu))
  {
    MonotonePrefix(evs, loss);
    LossEntry(base, mtu, evs, loss);
    RingRefinesHistory(base, mtu, evs);
    var st := Run(base, mtu, evs);
    RecordLoss(st, History(base, mtu, evs), Slot(Secs(base, loss.now), 0, LostPackets(loss.lostBytes, st.mtu)));
  }

  ghost predicate NoSmaller(st: Controller, st': Controller, rate: u64) {
    0.0 < st'.ackRate <= st.ackRate && Window(st, rate) <= Window(st', rate)
  }

  lemma SameSecond(st: Controller, st': Controller, h: seq<Slot>, now: nat, lost: nat, rate: u64)
    requires LossEffect(st, st', h, now, lost) && (h == [] || Last(h) == now)
    ensures NoSmaller(st, st', rate)
  {
    var (a, l) := (Between(h, Acks, now - 4, now), Between(h, Losses, now - 4, now));
    AckRateBounds(a, l + lost);
    AckRateAntitone(a, l, lost);
    WindowAntitone(st, st', rate);
  }

  /** A loss in the second of the last record (or as the first record) never shrinks the window. */
  lemma LossKeepsWindow(base: nat, mtu: u16, evs: seq<Event>, loss: Event, rate: u64)
    requires loss.Loss? && Monotone(evs + [loss])
    requires History(base, mtu, evs) == [] || Secs(base, loss.now) == Last(History(base, mtu, evs))
    ensures NoSmaller(Run(base, mtu, evs), Run(base, mtu, evs + [loss]), rate)
  {
    AfterLoss(base, mtu, evs, loss);
    SameSecond(Run(base, mtu, evs), Run(base, mtu, evs + [loss]), History(base, mtu, evs),
               Secs(base, loss.now), LostPackets(loss.lostBytes, Run(base, mtu, evs).mtu), rate);
  }

  // ---------- across seconds ----------

  // The estimate rises: a loss rate worse than allowed is followed by a better one
  // over the retained seconds.  All comparisons are between counters.
  predicate Recovers(acks: nat, losses: nat, acks': nat, losses': nat) {
    && acks + losses >= MIN_SAMPLE_COUNT && losses > 0
    && (acks' + losses' < MIN_SAMPLE_COUNT
        || (5 * acks' > 4 * (acks' + losses') && acks' * (acks + losses) > acks * (acks' + losses')))
  }

  lemma CrossMultiply(a: nat, b: nat, c: nat, d: nat)
    requires b > 0 && d > 0
    ensures a as real / b as real > c as real / d as real <==> a * d > c * b
  {
    var (x, y) := (a as real / b as real, c as real / d as real);
    assert x * (b as real) == a as real && y * (d as real) == c as real;
    var bd := b as real * d as real;
    assert bd > 0.0;
    assert (a * d) as real == x * bd && (c * b) as real == y * bd;
    assert x > y <==> x * bd > y * bd;
  }

  lemma AckRateRisesIff(acks: nat, losses: nat, acks': nat, losses': nat)
    ensures AckRate(acks', losses') > AckRate(acks, losses) <==> Recovers(acks, losses, acks', losses')
  {
    AckRateBounds(acks, losses);
    AckRateBounds(acks', losses');
    var (n, n') := (acks + losses, acks' + losses');
    if n >= MIN_SAMPLE_COUNT {
      CrossMultiply(1, 1, acks, n);
      if n' >= MIN_SAMPLE_COUNT {
        CrossMultiply(acks', n', acks, n);
        CrossMultiply(acks', n', 4, 5);
      }
    }
  }

  // The counters of the last record against those retained at second `now` plus the new losses.
  ghost predicate RecoversAt(h: seq<Slot>, now: int, lost: nat)
    requires h != []
  {
    Recovers(Between(h, Acks, Last(h) - 4, Last(h)), Between(h, Losses, Last(h) - 4, Last(h)),
             Between(h, Acks, now - 4, now), Between(h, Losses, now - 4, now) + lost)
  }

  lemma EffectRaisesIff(st: Controller, st': Controller, h: seq<Slot>, now: int, lost: nat)
    requires LossEffect(st, st', h, now, lost) && h != []
    ensures st'.ackRate > st.ackRate <==> RecoversAt(h, now, lost)
  {
    AckRateRisesIff(Between(h, Acks, Last(h) - 4, Last(h)), Between(h, Losses, Last(h) - 4, Last(h)),
                    Between(h, Acks, now - 4, now), Between(h, Losses, now - 4, now) + lost);
  }

  /**
   The exact condition under which a loss raises the estimate (and so may shrink
   the window): the counters retained for the new second, plus the new losses,
   recover against the counters of the last record.
   */
  lemma LossRaisesEstimateIff(base: nat, mtu: u16, evs: seq<Event>, loss: Event)
    requires loss.Loss? && Monotone(evs + [loss]) && History(base, mtu, evs) != []
    ensures Run(base, mtu, evs + [loss]).ackRate > Run(base, mtu, evs).ackRate <==>
              RecoversAt(History(base, mtu, evs), Secs(base, loss.now),
                         LostPackets(loss.lostBytes, Run(base, mtu, evs).mtu))
  {
    AfterLoss(base, mtu, evs, loss);
    EffectRaisesIff(Run(base, mtu, evs), Run(base, mtu, evs + [loss]), History(base, mtu, evs),
                    Secs(base, loss.now), LostPackets(loss.lostBytes, Run(base, mtu, evs).mtu));
  }

  /** Unless the counters recover, a loss in any second leaves the window no smaller, at every rate. */
  lemma LossKeepsWindowUnlessRecovered(base: nat, mtu: u16, evs: seq<Event>, loss: Event, rate: u64)
    requires loss.Loss? && Monotone(evs + [loss]) && History(base, mtu, evs) != []
    requires !RecoversAt(History(base, mtu, evs), Secs(base, loss.now),
                         LostPackets(loss.lostBytes, Run(base, mtu, evs).mtu))
    ensures NoSmaller(Run(base, mtu, evs), Run(base, mtu, evs + [loss]), rate)
  {
    AfterLoss(base, mtu, evs, loss);
    LossRaisesEstimateIff(base, mtu, evs, loss);
    ReachableAckRate(base, mtu, evs + [loss]);
    WindowAntitone(Run(base, mtu, evs), Run(base, mtu, evs + [loss]), rate);
  }

  // ---------- exactly when a loss shrinks the window ----------

  // The estimate as a quotient of counters.
  datatype Quotient = Quotient(num: nat, den: nat)

  function AckQuotient(acks: nat, losses: nat): (q: Quotient)
    ensures q.num > 0 && q.den > 0
  {
    if acks + losses < MIN_SAMPLE_COUNT then Quotient(1, 1)
    else if 5 * acks > 4 * (acks + losses) then Quotient(acks, acks + losses)
    else Quotient(4, 5)
  }

  lemma AckRateIsQuotient(acks: nat, losses: nat)
    ensures AckRate(acks, losses) == AckQuotient(acks, losses).num as real / AckQuotient(acks, losses).den as real
  {
    if acks + losses >= MIN_SAMPLE_COUNT {
      CrossMultiply(acks, acks + losses, 4, 5);
    }
  }

  lemma AsU64Below(x: real, w: nat)
    requires 0.0 <= x && w <= U64_MAX
    ensures AsU64(x) < w <==> x < w as real
  {
  }

  lemma ScaledBelow(y: real, w: real, c: real)
    requires c > 0.0
    ensures y < w <==> y * c < w * c
  {
  }

  lemma TimesDenominator(x: real, y: real, n: real, d: real)
    requires d > 0.0 && y * (n / d) == x
    ensures x * d == y * n
  {
    var q := n / d;
    assert q * d == n;
    assert y * q * d == y * (q * d);
  }

  // `x / (n/d) < w` without division.
  lemma QuotientBelow(x: real, n: real, d: real, w: real)
    requires n > 0.0 && d > 0.0
    ensures n / d > 0.0
    ensures x / (n / d) < w <==> x * d < w * n
  {
    var q := n / d;
    assert q > 0.0;
    var y := x / q;
    assert y * q == x;
    TimesDenominator(x, y, n, d);
    ScaledBelow(y, w, n);
  }

  lemma ScaleByNanos(rate: u64, srtt: nat, n: nat, d: nat, w: nat)
    ensures rate as real * Seconds(srtt) * d as real < w as real * n as real <==> rate * srtt * d < NANOS * n * w
  {
    var x := rate as real * Seconds(srtt);
    assert x * NANOS as real == (rate * srtt) as real;
    var (l, r) := (x * d as real, w as real * n as real);
    assert l * NANOS as real == (rate * srtt * d) as real;
    assert r * NANOS as real == (NANOS * n * w) as real;
    assert l < r <==> l * NANOS as real < r * NANOS as real;
  }

  lemma DivNonNegative(x: real, y: real)
    requires x >= 0.0 && y > 0.0
    ensures x / y >= 0.0
  {
  }

  lemma CwndBelow(rate: u64, srtt: nat, q: Quotient, w: nat)
    requires q.num > 0 && q.den > 0 && w <= U64_MAX
    ensures q.num as real / q.den as real > 0.0
    ensures AsU64(Cwnd(rate, srtt, q.num as real / q.den as real)) < w <==> rate * srtt * q.den < NANOS * q.num * w
  {
    var x := rate as real * Seconds(srtt);
    var (n, d) := (q.num as real, q.den as real);
    QuotientBelow(x, n, d, w as real);
    DivNonNegative(x, n / d);
    AsU64Below(x / (n / d), w);
    ScaleByNanos(rate, srtt, q.num, q.den, w);
  }

  // A window of `w` is above the floor and above what the rate is worth at estimate `q`.
  predicate Exceeds(w: nat, mtu: u16, rate: u64, srtt: nat, q: Quotient) {
    Floor(mtu) < w && rate * srtt * q.den < NANOS * q.num * w
  }

  lemma WindowFits(st: Controller, rate: u64)
    requires st.ackRate > 0.0
    ensures Floor(st.mtu) <= Window(st, rate) <= U64_MAX
  {
  }

  lemma WindowBelowIff(st: Controller, st': Controller, rate: u64, q: Quotient)
    requires st.ackRate > 0.0 && st'.ackRate > 0.0 && st'.srtt == st.srtt && st'.mtu == st.mtu
    requires q.num > 0 && q.den > 0 && st'.ackRate == q.num as real / q.den as real
    ensures Window(st', rate) < Window(st, rate) <==> Exceeds(Window(st, rate), st.mtu, rate, st.srtt, q)
  {
    WindowFits(st, rate);
    CwndBelow(rate, st.srtt, q, Window(st, rate));
  }

  // The quotient of the counters retained at second `now` plus the new losses.
  function RetainedQuotient(h: seq<Slot>, now: int, lost: nat): (q: Quotient)
    ensures q.num > 0 && q.den > 0
  {
    AckQuotient(Between(h, Acks, now - 4, now), Between(h, Losses, now - 4, now) + lost)
  }

  lemma EffectShrinksIff(st: Controller, st': Controller, h: seq<Slot>, now: int, lost: nat, rate: u64)
    requires LossEffect(st, st', h, now, lost) && st.ackRate > 0.0 && st'.ackRate > 0.0
    ensures Window(st', rate) < Window(st, rate) <==>
              Exceeds(Window(st, rate), st.mtu, rate, st.srtt, RetainedQuotient(h, now, lost))
  {
    AckRateIsQuotient(Between(h, Acks, now - 4, now), Between(h, Losses, now - 4, now) + lost);
    WindowBelowIff(st, st', rate, RetainedQuotient(h, now, lost));
  }

  /**
   A loss shrinks the window if and only if the window before it is above the floor
   and above what the rate is worth at the retained counters' quotient: a comparison
   of integers that are all known before the loss.
   */
  lemma LossShrinksWindowIff(base: nat, mtu: u16, evs: seq<Event>, loss: Event, rate: u64)
    requires loss.Loss? && Monotone(evs + [loss])
    ensures Run(base, mtu, evs).ackRate > 0.0 && Run(base, mtu, evs + [loss]).ackRate > 0.0
    ensures Window(Run(base, mtu, evs + [loss]), rate) < Window(Run(base, mtu, evs), rate) <==>
              Exceeds(Window(Run(base, mtu, evs), rate), Run(base, mtu, evs).mtu, rate, Run(base, mtu, evs).srtt,
                      RetainedQuotient(History(base, mtu, evs), Secs(base, loss.now),
                                       LostPackets(loss.lostBytes, Run(base, mtu, evs).mtu)))
  {
    ReachableAckRate(base, mtu, evs);
    ReachableAckRate(base, mtu, evs + [loss]);
    AfterLoss(base, mtu, evs, loss);
    EffectShrinksIff(Run(base, mtu, evs), Run(base, mtu, evs + [loss]), History(base, mtu, evs), Secs(base, loss.now),
                     LostPackets(loss.lostBytes, Run(base, mtu, evs).mtu), rate);
  }

  // A second with one acknowledgement and a hundred losses.
  const HEAVY := [Ack(0, NANOS), Loss(0, 120_000)]

  lemma FirstAck()
    ensures Run(0, 1200, [Ack(0, NANOS)]).srtt == NANOS && Run(0, 1200, [Ack(0, NANOS)]).mtu == 1200
    ensures History(0, 1200, [Ack(0, NANOS)]) == [Slot(0, 1, 0)]
  {
    var first := [Ack(0, NANOS)];
    assert first[..|first| - 1] == [];
    assert History(0, 1200, []) == [];
    assert SampleOf(0, 1200, first[0]) == Slot(0, 1, 0);
  }

  lemma HeavyEffect(st: Controller, st': Controller)
    requires LossEffect(st, st', [Slot(0, 1, 0)], 0, 100)
    ensures st'.ackRate == 0.8
  {
    var h := [Slot(0, 1, 0)];
    assert h[..|h| - 1] == [];
    assert Between(h, Acks, -4, 0) == 1 && Between(h, Losses, -4, 0) == 0;
    CrossMultiply(1, 101, 4, 5);
  }

  lemma HeavyHistory()
    ensures forall s <- History(0, 1200, HEAVY) :: s.ts == 0
  {
    HistoryBounded(0, 1200, HEAVY, 0);
  }

  lemma HeavyLoss()
    ensures Run(0, 1200, HEAVY).ackRate == 0.8
    ensures Run(0, 1200, HEAVY).srtt == NANOS && Run(0, 1200, HEAVY).mtu == 1200
  {
    var first := [Ack(0, NANOS)];
    FirstAck();
    assert first + [Loss(0, 120_000)] == HEAVY;
    AfterLoss(0, 1200, first, Loss(0, 120_000));
    HeavyEffect(Run(0, 1200, first), Run(0, 1200, HEAVY));
  }

  ghost predicate Shrinks(st: Controller, st': Controller, rate: u64) {
    && st.srtt == st'.srtt && st.mtu == st'.mtu && st.ackRate > 0.0 && st'.ackRate > 0.0
    && Window(st', rate) < Window(st, rate)
  }

  lemma RecoveredWindow(st: Controller, st': Controller)
    requires st.srtt == st'.srtt == NANOS && st.mtu == st'.mtu == 1200
    requires st.ackRate == 0.8 && st'.ackRate == 1.0
    ensures Shrinks(st, st', 1_000_000)
  {
    assert Cwnd(1_000_000, NANOS, 0.8) == 1_250_000.0 && Cwnd(1_000_000, NANOS, 1.0) == 1_000_000.0;
  }

  // After more than five quiet seconds a small loss starts from a clean slate.
  lemma QuietLoss(st: Controller, st': Controller, h: seq<Slot>, now: int, lost: nat)
    requires LossEffect(st, st', h, now, lost) && lost < MIN_SAMPLE_COUNT && forall s <- h :: s.ts < now - 4
    ensures st'.ackRate == 1.0 && st'.srtt == st.srtt && st'.mtu == st.mtu
  {
    NothingBetween(h, Acks, now - 4, now);
    NothingBetween(h, Losses, now - 4, now);
  }

  /** "Never shrink the window" fails across seconds: a loss after ten quiet seconds lowers it. */
  lemma LossCanShrinkWindow()
    ensures Monotone(HEAVY + [Loss(10 * NANOS, 1)])
    ensures Shrinks(Run(0, 1200, HEAVY), Run(0, 1200, HEAVY + [Loss(10 * NANOS, 1)]), 1_000_000)
  {
    HeavyLoss();
    HeavyHistory();
    var (st, st') := (Run(0, 1200, HEAVY), Run(0, 1200, HEAVY + [Loss(10 * NANOS, 1)]));
    AfterLoss(0, 1200, HEAVY, Loss(10 * NANOS, 1));
    QuietLoss(st, st', History(0, 1200, HEAVY), 10, 1);
    RecoveredWindow(st, st');
  }

  // ---------- estimate and window from the event times ----------

  // An event at `t` still counts at `last`: no more than four whole seconds, counted
  // from `base`, lie between them.
  predicate StillCounts(base: nat, t: nat, last: nat) {
    Max(last - base, 0) / 1_000_000_000 - Max(t - base, 0) / 1_000_000_000 <= 4
  }

  // The acknowledgements and the lost packets that still count at `last`.
  function AcksAt(base: nat, evs: seq<Event>, last: nat): (n: nat) {
    if evs == [] then 0
    else
      var ev := evs[|evs| - 1];
      AcksAt(base, evs[..|evs| - 1], last) + if ev.Ack? && StillCounts(base, ev.now, last) then 1 else 0
  }

  function LossesAt(base: nat, mtu: u16, evs: seq<Event>, last: nat): (n: nat) {
    if evs == [] then 0
    else
      var (before, ev) := (evs[..|evs| - 1], evs[|evs| - 1]);
      LossesAt(base, mtu, before, last)
      + if ev.Loss? && StillCounts(base, ev.now, last) then Max(ev.lostBytes / Max(MtuAfter(mtu, before), 1), 1) else 0
  }

  // When the last acknowledgement or loss came.
  function LastTime(evs: seq<Event>): (t: Option<nat>) {
    if evs == [] then None
    else if Timed(evs[|evs| - 1]) then Some(evs[|evs| - 1].now)
    else LastTime(evs[..|evs| - 1])
  }

  /** In nanoseconds: four seconds back an event always counts, five seconds back it never does. */
  lemma CountsForFiveSeconds(base: nat, t: nat, last: nat)
    requires t <= last
    ensures Max(last, base) - Max(t, base) <= 4_000_000_000 ==> StillCounts(base, t, last)
    ensures Max(last, base) - Max(t, base) >= 5_000_000_000 ==> !StillCounts(base, t, last)
  {
  }

  lemma CountsIff(base: nat, t: nat, last: nat)
    requires t <= last
    ensures StillCounts(base, t, last) <==> Secs(base, last) - 4 <= Secs(base, t) <= Secs(base, last)
  {
    SecsMonotone(base, t, last);
  }

  lemma {:induction false} AcksAreBetween(base: nat, mtu: u16, evs: seq<Event>, last: nat)
    requires forall i | 0 <= i < |evs| :: Timed(evs[i]) ==> evs[i].now <= last
    ensures Between(History(base, mtu, evs), Acks, Secs(base, last) - 4, Secs(base, last)) == AcksAt(base, evs, last)
  {
    if evs != [] {
      var (before, ev) := (evs[..|evs| - 1], evs[|evs| - 1]);
      AcksAreBetween(base, mtu, before, last);
      HistoryStep(base, mtu, evs, Acks, Secs(base, last) - 4, Secs(base, last));
      if Timed(ev) {
        CountsIff(base, ev.now, last);
      }
    }
  }

  lemma {:induction false} LossesAreBetween(base: nat, mtu: u16, evs: seq<Event>, last: nat)
    requires forall i | 0 <= i < |evs| :: Timed(evs[i]) ==> evs[i].now <= last
    ensures Between(History(base, mtu, evs), Losses, Secs(base, last) - 4, Secs(base, last)) == LossesAt(base, mtu, evs, last)
  {
    if evs != [] {
      var (before, ev) := (evs[..|evs| - 1], evs[|evs| - 1]);
      LossesAreBetween(base, mtu, before, last);
      HistoryStep(base, mtu, evs, Losses, Secs(base, last) - 4, Secs(base, last));
      if Timed(ev) {
        CountsIff(base, ev.now, last);
      }
    }
  }

  lemma HistoryStep(base: nat, mtu: u16, evs: seq<Event>, k: Kind, lo: int, hi: int)
    requires evs != []
    ensures var (before, ev) := (evs[..|evs| - 1], evs[|evs| - 1]);
            Between(History(base, mtu, evs), k, lo, hi) == Between(History(base, mtu, before), k, lo, hi)
              + if Timed(ev) && lo <= Secs(base, ev.now) <= hi then Of(SampleOf(base, MtuAfter(mtu, before), ev), k) else 0
  {
    var (before, ev) := (evs[..|evs| - 1], evs[|evs| - 1]);
    if Timed(ev) {
      BetweenSnoc(History(base, mtu, before), SampleOf(base, MtuAfter(mtu, before), ev), k, lo, hi);
    } else {
      assert History(base, mtu, evs) == History(base, mtu, before);
    }
  }

  lemma {:induction false} LastOfHistory(base: nat, mtu: u16, evs: seq<Event>)
    ensures History(base, mtu, evs) == [] <==> LastTime(evs) == None
    ensures LastTime(evs).Some? ==> Last(History(base, mtu, evs)) == Secs(base, LastTime(evs).value)
  {
    if evs != [] {
      LastOfHistory(base, mtu, evs[..|evs| - 1]);
      if !Timed(evs[|evs| - 1]) {
        assert History(base, mtu, evs) == History(base, mtu, evs[..|evs| - 1]);
      }
    }
  }

  lemma {:induction false} LastIsLatest(evs: seq<Event>)
    requires Monotone(evs)
    ensures forall i | 0 <= i < |evs| && Timed(evs[i]) :: LastTime(evs).Some? && evs[i].now <= LastTime(evs).value
  {
    if evs != [] && !Timed(evs[|evs| - 1]) {
      LastIsLatest(evs[..|evs| - 1]);
      assert forall i | 0 <= i < |evs| - 1 :: evs[..|evs| - 1][i] == evs[i];
    }
  }

  // The estimate that `acks` and `losses` call for, as a quotient.
  function Called(acks: nat, losses: nat): (q: Quotient) {
    if acks + losses < 50 then Quotient(1, 1)
    else if 5 * acks > 4 * (acks + losses) then Quotient(acks, acks + losses)
    else Quotient(4, 5)
  }

  ghost predicate Worth(r: real, q: Quotient) { q.num > 0 && q.den > 0 && r == q.num as real / q.den as real }

  lemma AckRateIsCalled(acks: nat, losses: nat)
    ensures Worth(AckRate(acks, losses), Called(acks, losses))
  {
    AckRateIsQuotient(acks, losses);
  }

  /**
   The estimate from the event times alone: the events of the last five seconds decide
   it, at least 50 of them, never below four fifths.
   */
  lemma EstimateFromTimes(base: nat, mtu: u16, evs: seq<Event>)
    requires Monotone(evs)
    ensures LastTime(evs) == None ==> Run(base, mtu, evs).ackRate == 1.0
    ensures LastTime(evs).Some? ==>
              var last := LastTime(evs).value;
              Worth(Run(base, mtu, evs).ackRate, Called(AcksAt(base, evs, last), LossesAt(base, mtu, evs, last)))
  {
    RingRefinesHistory(base, mtu, evs);
    LastOfHistory(base, mtu, evs);
    LastIsLatest(evs);
    if LastTime(evs).Some? {
      var last := LastTime(evs).value;
      AcksAreBetween(base, mtu, evs, last);
      LossesAreBetween(base, mtu, evs, last);
      AckRateIsCalled(AcksAt(base, evs, last), LossesAt(base, mtu, evs, last));
    }
  }

  lemma DivIs(n: nat, d: nat, v: nat)
    requires d > 0 && d * v <= n < d * (v + 1)
    ensures n / d == v
  {
    var k := n / d;
    assert k * d <= n < (k + 1) * d;
    assert k < v ==> (k + 1) * d <= v * d;
    assert k > v ==> (v + 1) * d <= k * d;
  }

  lemma DivAtLeast(n: nat, d: nat, v: nat)
    requires d > 0 && d * v <= n
    ensures n / d >= v
  {
    var k := n / d;
    assert n < (k + 1) * d;
    assert k < v ==> (k + 1) * d <= v * d;
  }

  lemma CwndIs(rate: u64, srtt: nat, q: Quotient)
    requires q.num > 0 && q.den > 0
    ensures q.num as real / q.den as real > 0.0
    ensures AsU64(Cwnd(rate, srtt, q.num as real / q.den as real))
            == Min(rate * srtt * q.den / (NANOS * q.num), 0xFFFF_FFFF_FFFF_FFFF)
  {
    CwndBelow(rate, srtt, q, 0);
    var v := AsU64(Cwnd(rate, srtt, q.num as real / q.den as real));
    var (n, d) := (rate * srtt * q.den, NANOS * q.num);
    assert n >= 0;
    CwndBelow(rate, srtt, q, v);
    if v < U64_MAX {
      CwndBelow(rate, srtt, q, v + 1);
      DivIs(n, d, v);
    } else {
      DivAtLeast(n, d, v);
    }
  }

  /** The window in whole bytes: rate times round trip over the estimate, between the floor and 2^64 - 1. */
  lemma WindowInBytes(st: Controller, rate: u64, q: Quotient)
    requires Worth(st.ackRate, q)
    ensures st.ackRate > 0.0
    ensures Window(st, rate) ==
              Max(Max(2 * st.mtu, 10_240),
                  if st.srtt == 0 then 0
                  else Min(rate * st.srtt * q.den / (1_000_000_000 * q.num), 0xFFFF_FFFF_FFFF_FFFF))
  {
    CwndIs(rate, st.srtt, q);
  }

  // The round-trip time of the last acknowledgement, 0 before any.
  function RttAfter(evs: seq<Event>): (rtt: nat) {
    if evs == [] then 0
    else if evs[|evs| - 1].Ack? then evs[|evs| - 1].rtt
    else RttAfter(evs[..|evs| - 1])
  }

  lemma {:induction false} RttIsTracked(base: nat, mtu: u16, evs: seq<Event>)
    ensures Run(base, mtu, evs).srtt == RttAfter(evs)
  {
    if evs != [] {
      RttIsTracked(base, mtu, evs[..|evs| - 1]);
    }
  }

  /** The reachable window from the events alone. */
  lemma WindowFromTimes(base: nat, mtu: u16, evs: seq<Event>, rate: u64, last: nat)
    requires Monotone(evs) && LastTime(evs) == Some(last)
    ensures var st := Run(base, mtu, evs);
            var q := Called(AcksAt(base, evs, last), LossesAt(base, mtu, evs, last));
            && st.ackRate > 0.0 && q.num > 0
            && Window(st, rate) ==
                 Max(Max(2 * MtuAfter(mtu, evs), 10_240),
                     if RttAfter(evs) == 0 then 0
                     else Min(rate * RttAfter(evs) * q.den / (1_000_000_000 * q.num), 0xFFFF_FFFF_FFFF_FFFF))
  {
    RttIsTracked(base, mtu, evs);
    EstimateFromTimes(base, mtu, evs);
    MtuIsTracked(base, mtu, evs);
    WindowInBytes(Run(base, mtu, evs), rate, Called(AcksAt(base, evs, last), LossesAt(base, mtu, evs, last)));
  }
}
