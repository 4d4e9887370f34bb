/**
 Reassembly of fragmented UDP messages: the slot table as the program keeps it,
 and an independent account of what it must output, stated over the whole
 history of messages fed to it.
 */
module Defragmentation {
  import opened Bytes
  import opened UdpMessages

  type Slots = seq<Option<UdpMessage>>

  // ---------- the slot table ----------

  datatype Table = Table(pktId: u16, frags: Slots, count: byte, size: nat)

  const EMPTY := Table(0, [], 0, 0)

  function Vacant(n: nat): (f: Slots)
    ensures |f| == n && forall i | 0 <= i < n :: f[i] == None
  {
    seq(n, _ => None)
  }

  // The payloads of the filled slots, in slot order.
  function Payload(f: Slots): (data: seq<byte>) {
    if f == [] then []
    else Payload(f[..|f| - 1]) + (if f[|f| - 1].Some? then f[|f| - 1].value.data else [])
  }

  // The message in the lowest filled slot.
  function First(f: Slots): (r: Option<UdpMessage>) {
    if f == [] then None
    else
      var earlier := First(f[..|f| - 1]);
      if earlier.Some? then earlier else f[|f| - 1]
  }

  function Assemble(f: Slots): (r: Option<UdpMessage>) {
    if First(f) == None then None
    else Some(First(f).value.(data := Payload(f), fragId := 0, fragCount := 1))
  }

  predicate IsFragment(m: UdpMessage) { m.fragCount > 1 && m.fragId < m.fragCount }

  predicate Tracks(t: Table, pktId: u16, n: nat) { t.pktId == pktId && |t.frags| == n }

  /** One call of `feed`: the new table and the result. */
  function FeedStep(t: Table, m: UdpMessage): (r: (Table, Option<UdpMessage>)) {
    if m.fragCount <= 1 then (t, Some(m))
    else if m.fragId >= m.fragCount then (t, None)
    else if !Tracks(t, m.packetId, m.fragCount) then
      (Table(m.packetId, Vacant(m.fragCount)[m.fragId := Some(m)], 1, |m.data|), None)
    else if t.frags[m.fragId].Some? then (t, None)
    else
      var frags := t.frags[m.fragId := Some(m)];
      var count := (t.count + 1) % 256;
      var size := t.size + |m.data|;
      if count == |frags| then (Table(t.pktId, Vacant(|frags|), count, size), Assemble(frags))
      else (Table(t.pktId, frags, count, size), None)
  }

  // The step increments a counter that already stands at 255.
  predicate Overflows(t: Table, m: UdpMessage) {
    IsFragment(m) && Tracks(t, m.packetId, m.fragCount) && t.frags[m.fragId] == None && t.count == 255
  }

  class Defragger {
    var pktId: u16
    var frags: Slots
    var count: byte
    var size: nat

    ghost function State(): (t: Table)
      reads this
    {
      Table(pktId, frags, count, size)
    }

    constructor ()
      ensures State() == EMPTY
    {
      pktId, frags, count, size := 0, [], 0, 0;
    }

    // `overflow` tells whether the counter wrapped, which is where a debug build panics.
    method Feed(m: UdpMessage) returns (out: Option<UdpMessage>, overflow: bool)
      modifies this
      ensures (State(), out) == FeedStep(old(State()), m)
      ensures overflow <==> Overflows(old(State()), m)
    {
      overflow := false;
      if m.fragCount <= 1 {
        return Some(m), false;
      }
      if m.fragId >= m.fragCount {
        return None, false;
      }
      if m.packetId != pktId || m.fragCount != |frags| {
        pktId := m.packetId;
        frags := Vacant(m.fragCount);
        size := |m.data|;
        count := 1;
        frags := frags[m.fragId := Some(m)];
        return None, false;
      } else if frags[m.fragId] == None {
        size := size + |m.data|;
        overflow := count == 255;
        count := (count + 1) % 256;
        frags := frags[m.fragId := Some(m)];
        if count == |frags| {
          out := TakeAll();
          return;
        } else {
          return None, overflow;
        }
      } else {
        return None, false;
      }
    }

    // The assembly loop: take every slot in order, keeping the first message.
    method TakeAll() returns (out: Option<UdpMessage>)
      modifies this`frags
      ensures out == Assemble(old(frags))
      ensures frags == Vacant(|old(frags)|)
    {
      ghost var was := frags;
      var data: seq<byte> := [];
      var first: Option<UdpMessage> := None;
      for i := 0 to |frags|
        invariant |frags| == |was|
        invariant forall j | 0 <= j < i :: frags[j] == None
        invariant frags[i..] == was[i..]
        invariant data == Payload(was[..i]) && first == First(was[..i])
      {
        assert was[..i + 1][..i] == was[..i];
        assert frags[i] == frags[i..][0] == was[i];
        var slot := frags[i];
        frags := frags[i := None];
        if slot.Some? {
          data := data + slot.value.data;
          if first == None {
            first := slot;
          }
        }
      }
      assert was[..|was|] == was;
      assert frags == Vacant(|was|);
      if first == None {
        return None;
      }
      out := Some(first.value.(data := data, fragId := 0, fragCount := 1));
    }
  }

  // ---------- runs ----------

  function Run(t: Table, ms: seq<UdpMessage>): (r: Table) {
    if ms == [] then t else FeedStep(Run(t, ms[..|ms| - 1]), ms[|ms| - 1]).0
  }

  // The result of the call that feeds `ms[j]` in the run of `ms` from `t`.
  function OutputAt(t: Table, ms: seq<UdpMessage>, j: nat): (r: Option<UdpMessage>)
    requires j < |ms|
  {
    FeedStep(Run(t, ms[..j]), ms[j]).1
  }

  lemma {:induction false} RunConcat(t: Table, a: seq<UdpMessage>, b: seq<UdpMessage>)
    ensures Run(t, a + b) == Run(Run(t, a), b)
  {
    if b == [] {
      assert a + b == a;
    } else {
      RunConcat(t, a, b[..|b| - 1]);
      assert (a + b)[..|a + b| - 1] == a + b[..|b| - 1];
    }
  }

  // ---------- what the history demands ----------

  // The fragments of (pktId, n) at the end of the history, back to the last
  // fragment of any other packet.  Messages that are not fragments do not interrupt.
  function Epoch(h: seq<UdpMessage>, pktId: u16, n: byte): (e: seq<UdpMessage>)
    ensures forall m <- e :: m in h && IsFragment(m) && m.packetId == pktId && m.fragCount == n
  {
    if h == [] then []
    else
      var last := h[|h| - 1];
      if !IsFragment(last) then Epoch(h[..|h| - 1], pktId, n)
      else if last.packetId == pktId && last.fragCount == n then Epoch(h[..|h| - 1], pktId, n) + [last]
      else []
  }

  function FirstArrival(e: seq<UdpMessage>, i: nat): (r: Option<UdpMessage>)
    ensures r.Some? ==> r.value in e && r.value.fragId == i
  {
    if e == [] then None
    else
      var earlier := FirstArrival(e[..|e| - 1], i);
      if earlier.Some? then earlier
      else if e[|e| - 1].fragId == i then Some(e[|e| - 1])
      else None
  }

  predicate Covered(e: seq<UdpMessage>, n: nat) {
    forall i | 0 <= i < n :: FirstArrival(e, i).Some?
  }

  function FirstArrivals(e: seq<UdpMessage>, n: nat): (data: seq<byte>)
    requires Covered(e, n)
  {
    if n == 0 then [] else FirstArrivals(e, n - 1) + FirstArrival(e, n - 1).value.data
  }

  // Index-order concatenation of the first-arrived fragments, under the addressing of fragment 0.
  function Reassembly(e: seq<UdpMessage>, n: nat): (m: UdpMessage)
    requires n > 0 && Covered(e, n)
  {
    FirstArrival(e, 0).value.(data := FirstArrivals(e, n), fragId := 0, fragCount := 1)
  }

  // `m` brings the only fragment its packet was still missing.
  predicate Completes(h: seq<UdpMessage>, m: UdpMessage) {
    var e := Epoch(h, m.packetId, m.fragCount);
    IsFragment(m) && FirstArrival(e, m.fragId) == None && Covered(e + [m], m.fragCount)
  }

  /** The answer that history `h` demands for a further message `m`. */
  function Expected(h: seq<UdpMessage>, m: UdpMessage): (r: Option<UdpMessage>) {
    if m.fragCount <= 1 then Some(m)
    else if Completes(h, m) then Some(Reassembly(Epoch(h, m.packetId, m.fragCount) + [m], m.fragCount))
    else None
  }

  // ---------- facts about slot tables ----------

  function Filled(f: Slots): (k: nat)
    ensures k <= |f|
  {
    if f == [] then 0 else Filled(f[..|f| - 1]) + (if f[|f| - 1].Some? then 1 else 0)
  }

  lemma {:induction false} FillSlot(f: Slots, i: nat, m: UdpMessage)
    requires i < |f| && f[i] == None
    ensures Filled(f[i := Some(m)]) == Filled(f) + 1
    ensures |Payload(f[i := Some(m)])| == |Payload(f)| + |m.data|
  {
    var g := f[i := Some(m)];
    var k := |f| - 1;
    if i == k {
      assert g[..k] == f[..k];
    } else {
      FillSlot(f[..k], i, m);
      assert g[..k] == f[..k][i := Some(m)];
    }
  }

  predicate Full(f: Slots) { forall i | 0 <= i < |f| :: f[i].Some? }

  lemma {:induction false} FullTable(f: Slots)
    ensures Filled(f) == |f| <==> Full(f)
  {
    if f != [] {
      var k := |f| - 1;
      FullTable(f[..k]);
      assert forall i | 0 <= i < k :: f[i] == f[..k][i];
    }
  }

  lemma {:induction false} VacantTable(f: Slots)
    requires forall i | 0 <= i < |f| :: f[i] == None
    ensures Filled(f) == 0 && Payload(f) == []
  {
    if f != [] {
      VacantTable(f[..|f| - 1]);
    }
  }

  // ---------- the invariant ----------

  // The table holds exactly the first arrivals of `e`.
  ghost predicate Mirrors(f: Slots, e: seq<UdpMessage>) {
    forall i | 0 <= i < |f| :: f[i] == FirstArrival(e, i)
  }

  // The part of an epoch that came after the packet was complete.
  function Late(e: seq<UdpMessage>, n: nat): (r: seq<UdpMessage>) {
    if e == [] || !Covered(e[..|e| - 1], n) then [] else Late(e[..|e| - 1], n) + [e[|e| - 1]]
  }

  lemma LateSnoc(e: seq<UdpMessage>, m: UdpMessage, n: nat)
    ensures Late(e + [m], n) == if Covered(e, n) then Late(e, n) + [m] else []
  {
    assert (e + [m])[..|e|] == e;
  }

  // Before completion the table mirrors the epoch.  After it, the table mirrors the late
  // duplicates, and the wrapping counter stands at n plus the number of slots they refilled.
  ghost predicate Follows(t: Table, n: byte, e: seq<UdpMessage>)
    requires |t.frags| == n
  {
    if Covered(e, n) then Mirrors(t.frags, Late(e, n)) && t.count == (n + Filled(t.frags)) % 256
    else Mirrors(t.frags, e) && t.count == Filled(t.frags) && t.size == |Payload(t.frags)|
  }

  ghost predicate Related(t: Table, pktId: u16, n: byte, e: seq<UdpMessage>) {
    if e == [] then !Tracks(t, pktId, n) else Tracks(t, pktId, n) && Follows(t, n, e)
  }

  lemma FirstArrivalSnoc(e: seq<UdpMessage>, m: UdpMessage, i: nat)
    ensures FirstArrival(e + [m], i) ==
              if FirstArrival(e, i).Some? then FirstArrival(e, i) else if m.fragId == i then Some(m) else None
  {
    assert (e + [m])[..|e|] == e;
  }

  lemma CoveredSnoc(e: seq<UdpMessage>, m: UdpMessage, n: nat)
    ensures Covered(e, n) ==> Covered(e + [m], n)
    ensures Covered(e + [m], n) && FirstArrival(e, m.fragId).Some? ==> Covered(e, n)
  {
    forall i | 0 <= i < n
      ensures FirstArrival(e, i).Some? ==> FirstArrival(e + [m], i).Some?
      ensures FirstArrival(e + [m], i).Some? && FirstArrival(e, m.fragId).Some? ==> FirstArrival(e, i).Some?
    {
      FirstArrivalSnoc(e, m, i);
    }
  }

  // A lone fragment of a packet of two or more does not cover it.
  lemma NotCoveredByOne(m: UdpMessage)
    requires IsFragment(m)
    ensures !Covered([m], m.fragCount)
  {
    var other := if m.fragId == 0 then 1 else 0;
    FirstArrivalSnoc([], m, other);
    assert [] + [m] == [m];
    assert FirstArrival([m], other) == None;
  }

  lemma MirrorsSnoc(f: Slots, e: seq<UdpMessage>, m: UdpMessage)
    requires Mirrors(f, e) && m.fragId < |f|
    ensures FirstArrival(e, m.fragId) == None ==> Mirrors(f[m.fragId := Some(m)], e + [m])
    ensures FirstArrival(e, m.fragId).Some? ==> Mirrors(f, e + [m])
  {
    forall i | 0 <= i < |f|
      ensures FirstArrival(e + [m], i) == if f[i] == None && i == m.fragId then Some(m) else f[i]
    {
      FirstArrivalSnoc(e, m, i);
    }
  }

  lemma MirrorFull(f: Slots, e: seq<UdpMessage>)
    requires Mirrors(f, e)
    ensures Filled(f) == |f| <==> Covered(e, |f|)
  {
    FullTable(f);
  }

  lemma AfterReset(t: Table, m: UdpMessage)
    requires IsFragment(m) && !Tracks(t, m.packetId, m.fragCount)
    ensures Related(FeedStep(t, m).0, m.packetId, m.fragCount, [m])
  {
    var n := m.fragCount;
    VacantTable(Vacant(n));
    FillSlot(Vacant(n), m.fragId, m);
    MirrorsSnoc(Vacant(n), [], m);
    assert [] + [m] == [m];
    NotCoveredByOne(m);
  }

  // What a fragment into an empty slot of the tracked packet does.
  lemma FillStep(t: Table, m: UdpMessage, frags: Slots, count: byte)
    requires IsFragment(m) && Tracks(t, m.packetId, m.fragCount) && t.frags[m.fragId] == None
    requires frags == t.frags[m.fragId := Some(m)] && count == (t.count + 1) % 256
    ensures count == m.fragCount ==>
              FeedStep(t, m) == (Table(t.pktId, Vacant(m.fragCount), count, t.size + |m.data|), Assemble(frags))
    ensures count != m.fragCount ==>
              FeedStep(t, m) == (Table(t.pktId, frags, count, t.size + |m.data|), None)
  {
  }

  lemma MissingSlot(t: Table, e: seq<UdpMessage>, m: UdpMessage)
    requires IsFragment(m) && e != [] && Related(t, m.packetId, m.fragCount, e)
    requires !Covered(e, m.fragCount) && FirstArrival(e, m.fragId) == None
    ensures var frags := t.frags[m.fragId := Some(m)];
            && t.frags[m.fragId] == None && Mirrors(frags, e + [m])
            && (t.count + 1) % 256 == Filled(frags) && t.size + |m.data| == |Payload(frags)|
            && (Filled(frags) == m.fragCount <==> Covered(e + [m], m.fragCount))
  {
    var frags := t.frags[m.fragId := Some(m)];
    assert t.frags[m.fragId] == FirstArrival(e, m.fragId);
    FillSlot(t.frags, m.fragId, m);
    MirrorsSnoc(t.frags, e, m);
    MirrorFull(frags, e + [m]);
  }

  // The last missing fragment: the packet is assembled and the slots are emptied.
  lemma LastStep(t: Table, e: seq<UdpMessage>, m: UdpMessage)
    requires IsFragment(m) && e != [] && Related(t, m.packetId, m.fragCount, e)
    requires !Covered(e, m.fragCount) && FirstArrival(e, m.fragId) == None && Covered(e + [m], m.fragCount)
    ensures FeedStep(t, m) ==
              (Table(m.packetId, Vacant(m.fragCount), m.fragCount, |FirstArrivals(e + [m], m.fragCount)|),
               Some(Reassembly(e + [m], m.fragCount)))
  {
    var frags := t.frags[m.fragId := Some(m)];
    MissingSlot(t, e, m);
    FillStep(t, m, frags, Filled(frags));
    MirrorAssembles(frags, e + [m]);
    MirrorPayload(frags, e + [m]);
  }

  lemma LastSlot(t: Table, e: seq<UdpMessage>, m: UdpMessage)
    requires IsFragment(m) && e != [] && Related(t, m.packetId, m.fragCount, e)
    requires !Covered(e, m.fragCount) && FirstArrival(e, m.fragId) == None && Covered(e + [m], m.fragCount)
    ensures Related(FeedStep(t, m).0, m.packetId, m.fragCount, e + [m])
    ensures FeedStep(t, m).1 == Some(Reassembly(e + [m], m.fragCount))
  {
    LastStep(t, e, m);
    LateSnoc(e, m, m.fragCount);
    CompletedTable(m.packetId, m.fragCount, |FirstArrivals(e + [m], m.fragCount)|, e + [m]);
  }

  // A further fragment that leaves the packet incomplete.
  lemma OpenSlot(t: Table, e: seq<UdpMessage>, m: UdpMessage)
    requires IsFragment(m) && e != [] && Related(t, m.packetId, m.fragCount, e)
    requires FirstArrival(e, m.fragId) == None && !Covered(e + [m], m.fragCount)
    ensures Related(FeedStep(t, m).0, m.packetId, m.fragCount, e + [m])
    ensures FeedStep(t, m).1 == None
  {
    var frags := t.frags[m.fragId := Some(m)];
    CoveredSnoc(e, m, m.fragCount);
    MissingSlot(t, e, m);
    FillStep(t, m, frags, Filled(frags));
    OpenTable(t.pktId, frags, e + [m]);
  }

  lemma CompletedTable(pktId: u16, n: byte, size: nat, e: seq<UdpMessage>)
    requires e != [] && Covered(e, n) && Late(e, n) == []
    ensures Related(Table(pktId, Vacant(n), n, size), pktId, n, e)
  {
    VacantTable(Vacant(n));
  }

  lemma OpenTable(pktId: u16, frags: Slots, e: seq<UdpMessage>)
    requires e != [] && |frags| < 256 && Mirrors(frags, e) && !Covered(e, |frags|)
    ensures Related(Table(pktId, frags, Filled(frags), |Payload(frags)|), pktId, |frags|, e)
  {
  }

  lemma RefilledTable(pktId: u16, frags: Slots, size: nat, e: seq<UdpMessage>)
    requires e != [] && |frags| < 256 && Covered(e, |frags|) && Mirrors(frags, Late(e, |frags|))
    ensures Related(Table(pktId, frags, (|frags| + Filled(frags)) % 256, size), pktId, |frags|, e)
  {
  }

  // After completion, at most n <= 255 refills never bring the counter back to n.
  lemma NeverAgain(n: byte, k: nat)
    requires 1 <= k <= n
    ensures (n + k) % 256 != n
  {
  }

  lemma LateDuplicate(t: Table, e: seq<UdpMessage>, m: UdpMessage)
    requires IsFragment(m) && e != [] && Related(t, m.packetId, m.fragCount, e) && Covered(e, m.fragCount)
    ensures Related(FeedStep(t, m).0, m.packetId, m.fragCount, e + [m])
    ensures FeedStep(t, m).1 == None
  {
    LateStep(t, Late(e, m.fragCount), m);
    CoveredSnoc(e, m, m.fragCount);
    LateSnoc(e, m, m.fragCount);
    RefilledTable(m.packetId, FeedStep(t, m).0.frags, FeedStep(t, m).0.size, e + [m]);
  }

  lemma LateStep(t: Table, late: seq<UdpMessage>, m: UdpMessage)
    requires IsFragment(m) && Tracks(t, m.packetId, m.fragCount) && Mirrors(t.frags, late)
    requires t.count == (m.fragCount + Filled(t.frags)) % 256
    ensures Tracks(FeedStep(t, m).0, m.packetId, m.fragCount) && Mirrors(FeedStep(t, m).0.frags, late + [m])
    ensures FeedStep(t, m).0.count == (m.fragCount + Filled(FeedStep(t, m).0.frags)) % 256
    ensures FeedStep(t, m).1 == None
  {
    MirrorsSnoc(t.frags, late, m);
    assert t.frags[m.fragId] == FirstArrival(late, m.fragId);
    if t.frags[m.fragId] == None {
      RefillStep(t, m);
    }
  }

  // A late duplicate into an emptied slot.
  lemma RefillStep(t: Table, m: UdpMessage)
    requires IsFragment(m) && Tracks(t, m.packetId, m.fragCount) && t.frags[m.fragId] == None
    requires t.count == (m.fragCount + Filled(t.frags)) % 256
    ensures var frags := t.frags[m.fragId := Some(m)];
            FeedStep(t, m) == (Table(t.pktId, frags, (m.fragCount + Filled(frags)) % 256, t.size + |m.data|), None)
  {
    var (n, frags) := (m.fragCount, t.frags[m.fragId := Some(m)]);
    FillSlot(t.frags, m.fragId, m);
    NeverAgain(n, Filled(frags));
    WrappingIncrement(n + Filled(t.frags));
    FillStep(t, m, frags, (n + Filled(frags)) % 256);
  }

  lemma EarlyDuplicate(t: Table, e: seq<UdpMessage>, m: UdpMessage)
    requires IsFragment(m) && e != [] && Related(t, m.packetId, m.fragCount, e)
    requires !Covered(e, m.fragCount) && FirstArrival(e, m.fragId).Some?
    ensures Related(FeedStep(t, m).0, m.packetId, m.fragCount, e + [m])
    ensures FeedStep(t, m).1 == None
  {
    CoveredSnoc(e, m, m.fragCount);
    MirrorsSnoc(t.frags, e, m);
  }

  /** One fragment fed to a table related to its epoch. */
  lemma FragmentStep(t: Table, e: seq<UdpMessage>, m: UdpMessage)
    requires IsFragment(m) && Related(t, m.packetId, m.fragCount, e)
    ensures Related(FeedStep(t, m).0, m.packetId, m.fragCount, e + [m])
    ensures FeedStep(t, m).1 ==
              if FirstArrival(e, m.fragId) == None && Covered(e + [m], m.fragCount)
              then Some(Reassembly(e + [m], m.fragCount)) else None
  {
    if e == [] {
      AfterReset(t, m);
      assert e + [m] == [m];
      NotCoveredByOne(m);
    } else if Covered(e, m.fragCount) {
      LateDuplicate(t, e, m);
      assert FirstArrival(e, m.fragId).Some?;
    } else if FirstArrival(e, m.fragId).Some? {
      EarlyDuplicate(t, e, m);
    } else if Covered(e + [m], m.fragCount) {
      LastSlot(t, e, m);
    } else {
      OpenSlot(t, e, m);
    }
  }

  // A full mirror assembles into the reassembly of the epoch.
  lemma MirrorAssembles(f: Slots, e: seq<UdpMessage>)
    requires |f| > 0 && Mirrors(f, e) && Covered(e, |f|)
    ensures Assemble(f) == Some(Reassembly(e, |f|))
  {
    assert f[0] == FirstArrival(e, 0);
    FirstIsSlotZero(f);
    MirrorPayload(f, e);
  }

  lemma {:induction false} FirstIsSlotZero(f: Slots)
    requires |f| > 0 && f[0].Some?
    ensures First(f) == f[0]
  {
    if |f| > 1 {
      FirstIsSlotZero(f[..|f| - 1]);
    } else {
      assert First(f[..0]) == None;
    }
  }

  lemma {:induction false} MirrorPayload(f: Slots, e: seq<UdpMessage>)
    requires Mirrors(f, e) && Covered(e, |f|)
    ensures Payload(f) == FirstArrivals(e, |f|)
  {
    if f != [] {
      var k := |f| - 1;
      assert f[k] == FirstArrival(e, k);
      MirrorPayload(f[..k], e);
    }
  }

  /** Over every run from a table not tracking (pktId, n), the table stays related to the epoch. */
  lemma {:induction false} RunInvariant(t: Table, h: seq<UdpMessage>, pktId: u16, n: byte)
    requires n > 1 && !Tracks(t, pktId, n)
    ensures Related(Run(t, h), pktId, n, Epoch(h, pktId, n))
  {
    if h != [] {
      var (before, m) := (h[..|h| - 1], h[|h| - 1]);
      RunInvariant(t, before, pktId, n);
      var (s, e) := (Run(t, before), Epoch(before, pktId, n));
      if IsFragment(m) && m.packetId == pktId && m.fragCount == n {
        FragmentStep(s, e, m);
      }
    }
  }

  /**
   The defragger answers exactly what the history demands: soundness, completeness
   and at-most-once delivery in one equation, for every run and every next message.
   */
  lemma FeedRefinesHistory(t: Table, h: seq<UdpMessage>, m: UdpMessage)
    requires m.fragCount > 1 ==> !Tracks(t, m.packetId, m.fragCount)
    ensures FeedStep(Run(t, h), m).1 == Expected(h, m)
  {
    if IsFragment(m) {
      RunInvariant(t, h, m.packetId, m.fragCount);
      FragmentStep(Run(t, h), Epoch(h, m.packetId, m.fragCount), m);
    }
  }

  /** From the default state the equation holds without any condition. */
  lemma DefaultRefinesHistory(h: seq<UdpMessage>, m: UdpMessage)
    ensures FeedStep(Run(EMPTY, h), m).1 == Expected(h, m)
  {
    FeedRefinesHistory(EMPTY, h, m);
  }

  /**
   When a packet completes, every slot is filled, so an output exists; the tracked
   size is the output's length; and all contributing fragments carry the output's packet id.
   */
  lemma CompletionIsFull(h: seq<UdpMessage>, m: UdpMessage)
    requires Completes(h, m)
    ensures var t := Run(EMPTY, h);
            && Tracks(t, m.packetId, m.fragCount)
            && Full(t.frags[m.fragId := Some(m)])
            && FeedStep(t, m).1.Some?
            && FeedStep(t, m).0.size == |FeedStep(t, m).1.value.data|
            && FeedStep(t, m).1.value.packetId == m.packetId
  {
    var n := m.fragCount;
    var e := Epoch(h, m.packetId, n);
    var t := Run(EMPTY, h);
    RunInvariant(EMPTY, h, m.packetId, n);
    assert e != [] by {
      NotCoveredByOne(m);
      assert [] + [m] == [m];
    }
    assert FirstArrival(e, m.fragId) == None && !Covered(e, n);
    LastStep(t, e, m);
    MissingSlot(t, e, m);
    FullTable(t.frags[m.fragId := Some(m)]);
  }

  // ---------- at most one output per epoch ----------

  // No fragment of another packet lies in `ms`.
  predicate Uninterrupted(ms: seq<UdpMessage>, pktId: u16, n: byte) {
    forall m <- ms :: IsFragment(m) ==> m.packetId == pktId && m.fragCount == n
  }

  function FragmentsOf(ms: seq<UdpMessage>): (r: seq<UdpMessage>) {
    if ms == [] then []
    else FragmentsOf(ms[..|ms| - 1]) + (if IsFragment(ms[|ms| - 1]) then [ms[|ms| - 1]] else [])
  }

  lemma {:induction false} EpochExtends(h: seq<UdpMessage>, ms: seq<UdpMessage>, pktId: u16, n: byte)
    requires Uninterrupted(ms, pktId, n)
    ensures Epoch(h + ms, pktId, n) == Epoch(h, pktId, n) + FragmentsOf(ms)
  {
    if ms == [] {
      assert h + ms == h;
    } else {
      var k := |ms| - 1;
      EpochExtends(h, ms[..k], pktId, n);
      assert (h + ms)[..|h + ms| - 1] == h + ms[..k];
      assert ms[k] in ms;
    }
  }

  lemma {:induction false} FirstArrivalPersists(e: seq<UdpMessage>, rest: seq<UdpMessage>, i: nat)
    requires FirstArrival(e, i).Some?
    ensures FirstArrival(e + rest, i) == FirstArrival(e, i)
  {
    if rest == [] {
      assert e + rest == e;
    } else {
      FirstArrivalPersists(e, rest[..|rest| - 1], i);
      assert (e + rest)[..|e + rest| - 1] == e + rest[..|rest| - 1];
    }
  }

  /**
   Two reassembled outputs of one (packet id, fragment count) are always separated
   by a fragment of some other packet: a late duplicate never re-delivers.
   */
  lemma AtMostOncePerEpoch(ms: seq<UdpMessage>, j: nat, k: nat)
    requires j < k < |ms| && IsFragment(ms[j]) && IsFragment(ms[k])
    requires ms[j].packetId == ms[k].packetId && ms[j].fragCount == ms[k].fragCount
    requires OutputAt(EMPTY, ms, j).Some? && OutputAt(EMPTY, ms, k).Some?
    ensures !Uninterrupted(ms[j..k], ms[j].packetId, ms[j].fragCount)
  {
    var (a, b) := (ms[j], ms[k]);
    DefaultRefinesHistory(ms[..j], a);
    DefaultRefinesHistory(ms[..k], b);
    if Uninterrupted(ms[j..k], a.packetId, a.fragCount) {
      EpochContinues(ms, j, k);
      var upTo := Epoch(ms[..j], a.packetId, a.fragCount) + [a];
      var later := FragmentsOf(ms[j + 1..k]);
      assert FirstArrival(upTo, b.fragId).Some?;
      FirstArrivalPersists(upTo, later, b.fragId);
      assert false;
    }
  }

  lemma EpochContinues(ms: seq<UdpMessage>, j: nat, k: nat)
    requires j < k < |ms| && IsFragment(ms[j])
    requires Uninterrupted(ms[j..k], ms[j].packetId, ms[j].fragCount)
    ensures Epoch(ms[..k], ms[j].packetId, ms[j].fragCount)
            == Epoch(ms[..j], ms[j].packetId, ms[j].fragCount) + [ms[j]] + FragmentsOf(ms[j + 1..k])
  {
    var (pktId, n) := (ms[j].packetId, ms[j].fragCount);
    var later := ms[j + 1..k];
    assert Uninterrupted(later, pktId, n) by {
      assert forall m <- later :: m in ms[j..k];
    }
    assert ms[..j + 1][..j] == ms[..j];
    EpochExtends(ms[..j + 1], later, pktId, n);
    assert ms[..j + 1] + later == ms[..k];
  }

  // ---------- when the counter overflows ----------

  // How many of the ids below `n` occur in `e`.
  function Ids(e: seq<UdpMessage>, n: nat): (k: nat) {
    if n == 0 then 0 else Ids(e, n - 1) + if FirstArrival(e, n - 1).Some? then 1 else 0
  }

  lemma {:induction false} MirrorCounts(f: Slots, e: seq<UdpMessage>)
    requires Mirrors(f, e)
    ensures Filled(f) == Ids(e, |f|)
  {
    if f != [] {
      var k := |f| - 1;
      assert f[k] == FirstArrival(e, k);
      MirrorCounts(f[..k], e);
    }
  }

  // The packet is complete, this id has not come again since, and the distinct ids that
  // have come again bring the counter to 255.
  predicate Exhausts(h: seq<UdpMessage>, m: UdpMessage) {
    var e := Epoch(h, m.packetId, m.fragCount);
    var late := Late(e, m.fragCount);
    && IsFragment(m) && Covered(e, m.fragCount)
    && FirstArrival(late, m.fragId) == None && m.fragCount + Ids(late, m.fragCount) == 255
  }

  lemma VacancyIsNotFull(f: Slots, i: nat)
    requires i < |f| && f[i] == None
    ensures Filled(f) < |f|
  {
    FullTable(f);
  }

  lemma Reaches255(n: byte, k: nat)
    requires k < n
    ensures (n + k) % 256 == 255 <==> n + k == 255
    ensures n + k == 255 ==> n >= 128
  {
  }

  lemma OpenNeverOverflows(t: Table, e: seq<UdpMessage>, m: UdpMessage)
    requires IsFragment(m) && e != [] && Related(t, m.packetId, m.fragCount, e) && !Covered(e, m.fragCount)
    ensures !Overflows(t, m)
  {
    if t.frags[m.fragId] == None {
      VacancyIsNotFull(t.frags, m.fragId);
    }
  }

  lemma LateOverflowsIff(t: Table, late: seq<UdpMessage>, m: UdpMessage)
    requires IsFragment(m) && Tracks(t, m.packetId, m.fragCount) && Mirrors(t.frags, late)
    requires t.count == (m.fragCount + Filled(t.frags)) % 256
    ensures Overflows(t, m) <==> FirstArrival(late, m.fragId) == None && m.fragCount + Ids(late, m.fragCount) == 255
    ensures Overflows(t, m) ==> m.fragCount >= 128
  {
    MirrorCounts(t.frags, late);
    if t.frags[m.fragId] == None {
      VacancyIsNotFull(t.frags, m.fragId);
      Reaches255(m.fragCount, Filled(t.frags));
    }
  }

  /**
   The increment of the counter overflows exactly after these histories, and so only
   for packets of 128 fragments or more.
   */
  lemma OverflowsIff(t: Table, h: seq<UdpMessage>, m: UdpMessage)
    requires m.fragCount > 1 ==> !Tracks(t, m.packetId, m.fragCount)
    ensures Overflows(Run(t, h), m) <==> Exhausts(h, m)
    ensures Overflows(Run(t, h), m) ==> m.fragCount >= 128
  {
    if IsFragment(m) {
      RunInvariant(t, h, m.packetId, m.fragCount);
      var e := Epoch(h, m.packetId, m.fragCount);
      if e == [] {
        assert FirstArrival(e, 0) == None;
      } else if Covered(e, m.fragCount) {
        LateOverflowsIff(Run(t, h), Late(e, m.fragCount), m);
      } else {
        OpenNeverOverflows(Run(t, h), e, m);
      }
    }
  }

  // The fragments of a packet of `n`, sent in order and then once more: the first `k` of them.
  function Piece(n: byte, i: nat): (m: UdpMessage)
    requires i < 2 * n
    ensures m.packetId == 7 && m.fragCount == n && m.fragId == if i < n then i else i - n
  {
    UdpMessage(1, 7, if i < n then i else i - n, n, [0x61], [])
  }

  function Replay(n: byte, k: nat): (ms: seq<UdpMessage>)
    requires k <= 2 * n
  {
    if k == 0 then [] else Replay(n, k - 1) + [Piece(n, k - 1)]
  }

  lemma EpochSnoc(h: seq<UdpMessage>, m: UdpMessage)
    requires IsFragment(m)
    ensures Epoch(h + [m], m.packetId, m.fragCount) == Epoch(h, m.packetId, m.fragCount) + [m]
  {
    assert (h + [m])[..|h|] == h;
  }

  lemma {:induction false} ReplayIsEpoch(n: byte, k: nat)
    requires n > 1 && k <= 2 * n
    ensures Epoch(Replay(n, k), 7, n) == Replay(n, k)
  {
    if k > 0 {
      ReplayIsEpoch(n, k - 1);
      EpochSnoc(Replay(n, k - 1), Piece(n, k - 1));
    }
  }

  lemma {:induction false} ReplayArrivals(n: byte, k: nat, i: nat)
    requires n > 1 && i < n && k <= 2 * n
    ensures FirstArrival(Replay(n, k), i).Some? <==> i < k
  {
    if k > 0 {
      ReplayArrivals(n, k - 1, i);
      FirstArrivalSnoc(Replay(n, k - 1), Piece(n, k - 1), i);
    }
  }

  lemma ReplayCovers(n: byte, k: nat)
    requires n > 1 && k <= 2 * n
    ensures Covered(Replay(n, k), n) <==> k >= n
  {
    forall i | 0 <= i < n
      ensures FirstArrival(Replay(n, k), i).Some? <==> i < k
    {
      ReplayArrivals(n, k, i);
    }
    assert k < n ==> !FirstArrival(Replay(n, k), k).Some?;
  }

  lemma {:induction false} ReplayLate(n: byte, k: nat, i: nat)
    requires n > 1 && i < n && k <= 2 * n
    ensures FirstArrival(Late(Replay(n, k), n), i).Some? <==> n + i < k
  {
    if k > 0 {
      ReplayLate(n, k - 1, i);
      ReplayCovers(n, k - 1);
      var (before, m) := (Replay(n, k - 1), Piece(n, k - 1));
      LateSnoc(before, m, n);
      if k - 1 >= n {
        FirstArrivalSnoc(Late(before, n), m, i);
      } else {
        assert Late(before + [m], n) == [];
      }
    }
  }

  lemma {:induction false} ReplayIds(n: byte, k: nat, j: nat)
    requires n > 1 && n <= k <= 2 * n && j <= n
    ensures Ids(Late(Replay(n, k), n), j) == Min(j, k - n)
  {
    if j > 0 {
      ReplayIds(n, k, j - 1);
      ReplayLate(n, k, j - 1);
    }
  }

  /** Every count from 128 on can overflow: all fragments once, and then all again. */
  lemma OverflowIsReachable(n: byte)
    requires n >= 128
    ensures Overflows(Run(EMPTY, Replay(n, 255)), Piece(n, 255))
  {
    var m := Piece(n, 255);
    ReplayIsEpoch(n, 255);
    ReplayCovers(n, 255);
    ReplayLate(n, 255, m.fragId);
    ReplayIds(n, 255, n);
    OverflowsIff(EMPTY, Replay(n, 255), m);
  }
}
