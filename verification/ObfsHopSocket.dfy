/**
 The datagram socket under QUIC: outbound packets are obfuscated and redirected
 to a rotating destination, inbound batches are unmasked in place and compacted.
 */
module ObfsHopSockets {
  import opened Bytes
  import opened Salamander

  const SCRATCH_DATAGRAM := 2048

  type Addr = int

  datatype RecvMeta = RecvMeta(addr: Addr, len: nat, stride: nat, ecn: int, dstIp: int)
  datatype Transmit = Transmit(destination: Addr, ecn: int, contents: seq<byte>, segmentSize: Option<nat>, srcIp: int)

  // ---------- the inner socket ----------

  // A datagram as it lands in a 2048-byte receive buffer.
  type Raw = s: seq<byte> | |s| <= SCRATCH_DATAGRAM
  datatype Datagram = Datagram(bytes: Raw, addr: Addr, ecn: int, dstIp: int)
  datatype InnerPoll = Batch(ds: seq<Datagram>) | Idle | Broken(code: int)
  datatype InnerResult = Filled(n: nat) | InnerPending | InnerError(code: int)

  // The inner socket next fills no more than the `count` buffers it is given.
  predicate Honest(polls: seq<InnerPoll>, count: nat) {
    polls != [] && polls[0].Batch? ==> |polls[0].ds| <= count
  }

  function MetaOf(d: Datagram): (m: RecvMeta) { RecvMeta(d.addr, |d.bytes|, |d.bytes|, d.ecn, d.dstIp) }

  // Chunk `k` of the receive buffer holds datagram `d`.
  predicate HoldsAt(scratch: seq<byte>, m: RecvMeta, d: Datagram, k: nat) {
    && (k + 1) * SCRATCH_DATAGRAM <= |scratch|
    && m == MetaOf(d) && scratch[k * SCRATCH_DATAGRAM..k * SCRATCH_DATAGRAM + |d.bytes|] == d.bytes
  }

  predicate Holds(scratch: seq<byte>, meta: seq<RecvMeta>, ds: seq<Datagram>) {
    |ds| <= |meta| && forall k | 0 <= k < |ds| :: HoldsAt(scratch, meta[k], ds[k], k)
  }

  ghost predicate HoldsBatch(scratch: array<byte>, meta: array<RecvMeta>, ds: seq<Datagram>)
    reads scratch, meta
  {
    Holds(scratch[..], meta[..], ds)
  }

  // Rewriting chunk `k` leaves the earlier chunks alone.
  lemma EarlierChunk(before: seq<byte>, after: seq<byte>, m: RecvMeta, d: Datagram, j: nat, k: nat)
    requires j < k && HoldsAt(before, m, d, j) && |after| == |before| && k * SCRATCH_DATAGRAM <= |before|
    requires after[..k * SCRATCH_DATAGRAM] == before[..k * SCRATCH_DATAGRAM]
    ensures HoldsAt(after, m, d, j)
  {
    var at := j * SCRATCH_DATAGRAM;
    var (x, y) := (before[..k * SCRATCH_DATAGRAM], after[..k * SCRATCH_DATAGRAM]);
    assert x[at..at + |d.bytes|] == before[at..at + |d.bytes|];
    assert y[at..at + |d.bytes|] == after[at..at + |d.bytes|];
  }

  method StoreBatch(scratch: array<byte>, meta: array<RecvMeta>, ds: seq<Datagram>, count: nat)
    requires |ds| <= count && count * SCRATCH_DATAGRAM <= scratch.Length && count <= meta.Length
    modifies scratch, meta
    ensures HoldsBatch(scratch, meta, ds)
  {
    for k := 0 to |ds|
      invariant forall j | 0 <= j < k :: HoldsAt(scratch[..], meta[j], ds[j], j)
    {
      ghost var before := scratch[..];
      CopyFromSlice(scratch, k * SCRATCH_DATAGRAM, ds[k].bytes);
      meta[k] := MetaOf(ds[k]);
      assert scratch[..][..k * SCRATCH_DATAGRAM] == before[..k * SCRATCH_DATAGRAM];
      forall j | 0 <= j < k
        ensures HoldsAt(scratch[..], meta[j], ds[j], j)
      {
        EarlierChunk(before, scratch[..], meta[j], ds[j], j, k);
      }
    }
  }

  class InnerSocket {
    var polls: seq<InnerPoll>

    constructor (polls: seq<InnerPoll>)
      ensures this.polls == polls
    {
      this.polls := polls;
    }

    method PollRecv(scratch: array<byte>, meta: array<RecvMeta>, count: nat) returns (r: InnerResult)
      requires Honest(polls, count) && count * SCRATCH_DATAGRAM <= scratch.Length && count <= meta.Length
      modifies this, scratch, meta
      ensures polls == if old(polls) == [] then [] else old(polls)[1..]
      ensures r == match (if old(polls) == [] then Idle else old(polls)[0])
                   case Batch(ds) => Filled(|ds|)
                   case Idle => InnerPending
                   case Broken(code) => InnerError(code)
      ensures r.Filled? ==> HoldsBatch(scratch, meta, old(polls)[0].ds)
    {
      if polls == [] {
        return InnerPending;
      }
      var p := polls[0];
      polls := polls[1..];
      match p {
        case Idle => return InnerPending;
        case Broken(code) => return InnerError(code);
        case Batch(ds) =>
          StoreBatch(scratch, meta, ds, count);
          return Filled(|ds|);
      }
    }
  }

  // ---------- compaction: what must come out ----------

  // How a socket recovers a payload from a packet.
  type Unmasker = seq<byte> -> Option<seq<byte>>

  function UnmaskerOf(hash: Hash, psk: seq<byte>): (o: Unmasker) { d => Recovered(hash, psk, d) }

  // Payloads are shorter than their packets by at least a salt.
  ghost predicate StripsSalt(o: Unmasker) {
    forall d :: o(d).Some? ==> |o(d).value| + SALT_LEN <= |d|
  }

  lemma UnmaskerStripsSalt(hash: Hash, psk: seq<byte>)
    ensures StripsSalt(UnmaskerOf(hash, psk))
  {
  }

  datatype Received = Received(meta: RecvMeta, payload: seq<byte>)

  // How the socket reports a payload `p` received from `addr`.
  function Report(addr: Addr, ecn: int, dstIp: int, p: seq<byte>, rewrite: Option<Addr>): (r: Received) {
    Received(RecvMeta(if rewrite.Some? then rewrite.value else addr, |p|, |p|, ecn, dstIp), p)
  }

  function ReportOf(d: Datagram, p: seq<byte>, rewrite: Option<Addr>): (r: Received) {
    Report(d.addr, d.ecn, d.dstIp, p, rewrite)
  }

  // The packet unmasks and its payload fits a buffer of `cap` bytes.
  predicate Admits(o: Unmasker, raw: seq<byte>, cap: nat) {
    var p := o(raw);
    p.Some? && |p.value| <= cap
  }

  // The datagrams that unmask, in order, each into the next caller buffer if it fits there.
  function Kept(o: Unmasker, ds: seq<Datagram>, caps: seq<nat>, rewrite: Option<Addr>): (r: seq<Received>)
    requires |ds| <= |caps|
    ensures |r| <= |ds|
  {
    if ds == [] then []
    else
      var kept := Kept(o, ds[..|ds| - 1], caps, rewrite);
      Grown(o, kept, ds[|ds| - 1], caps[|kept|], rewrite)
  }

  // One more packet, kept if it unmasks and fits the next buffer.
  function Grown(o: Unmasker, kept: seq<Received>, d: Datagram, cap: nat, rewrite: Option<Addr>): (r: seq<Received>) {
    if Admits(o, d.bytes, cap) then kept + [ReportOf(d, o(d.bytes).value, rewrite)] else kept
  }

  lemma KeptStep(o: Unmasker, ds: seq<Datagram>, k: nat, caps: seq<nat>, rewrite: Option<Addr>)
    requires k < |ds| <= |caps|
    ensures var kept := Kept(o, ds[..k], caps, rewrite);
            Kept(o, ds[..k + 1], caps, rewrite) == Grown(o, kept, ds[k], caps[|kept|], rewrite)
  {
    assert ds[..k + 1][..k] == ds[..k];
  }

  // The order-preserving filter-map: every datagram longer than a salt, unmasked.
  function Unmasked(o: Unmasker, ds: seq<Datagram>, rewrite: Option<Addr>): (r: seq<Received>) {
    if ds == [] then []
    else
      var p := o(ds[|ds| - 1].bytes);
      Unmasked(o, ds[..|ds| - 1], rewrite) + if p.Some? then [ReportOf(ds[|ds| - 1], p.value, rewrite)] else []
  }

  // Every payload fits the buffer its position assigns it.
  predicate AllFit(rs: seq<Received>, caps: seq<nat>)
    requires |rs| <= |caps|
  {
    forall i | 0 <= i < |rs| :: |rs[i].payload| <= caps[i]
  }

  /** The loop yields the whole filter-map exactly when every payload fits its buffer; otherwise messages are lost. */
  lemma {:induction false} KeptIff(o: Unmasker, ds: seq<Datagram>, caps: seq<nat>, rewrite: Option<Addr>)
    requires |ds| <= |caps|
    ensures |Unmasked(o, ds, rewrite)| <= |ds|
    ensures if AllFit(Unmasked(o, ds, rewrite), caps) then Kept(o, ds, caps, rewrite) == Unmasked(o, ds, rewrite)
            else |Kept(o, ds, caps, rewrite)| < |Unmasked(o, ds, rewrite)|
  {
    if ds != [] {
      var (front, d) := (ds[..|ds| - 1], ds[|ds| - 1]);
      KeptIff(o, front, caps, rewrite);
      var (kept, before) := (Kept(o, front, caps, rewrite), Unmasked(o, front, rewrite));
      if o(d.bytes).Some? {
        FitSnoc(before, ReportOf(d, o(d.bytes).value, rewrite), caps);
      } else {
        assert Unmasked(o, ds, rewrite) == before;
      }
    }
  }

  lemma FitSnoc(rs: seq<Received>, r: Received, caps: seq<nat>)
    requires |rs| < |caps|
    ensures AllFit(rs + [r], caps) <==> AllFit(rs, caps) && |r.payload| <= caps[|rs|]
  {
    assert forall i | 0 <= i < |rs| :: (rs + [r])[i] == rs[i];
    assert (rs + [r])[|rs|] == r;
  }

  // Caller buffers that hold any payload of a 2048-byte packet.
  predicate Roomy(caps: seq<nat>) {
    forall i | 0 <= i < |caps| :: caps[i] >= 2040
  }

  lemma {:induction false} PayloadsAreShort(o: Unmasker, ds: seq<Datagram>, rewrite: Option<Addr>)
    requires StripsSalt(o)
    ensures forall r <- Unmasked(o, ds, rewrite) :: |r.payload| <= SCRATCH_DATAGRAM - SALT_LEN
  {
    if ds != [] {
      PayloadsAreShort(o, ds[..|ds| - 1], rewrite);
    }
  }

  /** With caller buffers of at least 2040 bytes nothing that unmasks is lost. */
  lemma KeptIsFilterMap(o: Unmasker, ds: seq<Datagram>, caps: seq<nat>, rewrite: Option<Addr>)
    requires StripsSalt(o) && |ds| <= |caps| && Roomy(caps)
    ensures Kept(o, ds, caps, rewrite) == Unmasked(o, ds, rewrite)
  {
    KeptIff(o, ds, caps, rewrite);
    PayloadsAreShort(o, ds, rewrite);
    var rs := Unmasked(o, ds, rewrite);
    assert forall i | 0 <= i < |rs| :: rs[i] in rs;
  }

  lemma {:induction false} UnmaskedConcat(o: Unmasker, a: seq<Datagram>, b: seq<Datagram>, rewrite: Option<Addr>)
    ensures Unmasked(o, a + b, rewrite) == Unmasked(o, a, rewrite) + Unmasked(o, b, rewrite)
  {
    if b == [] {
      assert a + b == a;
    } else {
      UnmaskedConcat(o, a, b[..|b| - 1], rewrite);
      assert (a + b)[..|a + b| - 1] == a + b[..|b| - 1];
    }
  }

  // ---------- polling ----------

  // What the caller of `poll_recv` is told.
  datatype Polled = Count(n: nat) | NotReady | Failed(code: int)

  datatype PollResult = Ready(received: seq<Received>) | Pending | Error(code: int)

  // The inner socket is honest in every poll that one `poll_recv` makes of it.
  predicate Serves(o: Unmasker, polls: seq<InnerPoll>, caps: seq<nat>, rewrite: Option<Addr>) {
    polls != [] && polls[0].Batch? ==>
      && |polls[0].ds| <= |caps|
      && (polls[0].ds != [] && Kept(o, polls[0].ds, caps, rewrite) == [] ==> Serves(o, polls[1..], caps, rewrite))
  }

  // One `poll_recv`: batches that leave nothing are skipped and the inner socket polled again.
  function PollSpec(o: Unmasker, polls: seq<InnerPoll>, caps: seq<nat>, rewrite: Option<Addr>): (r: (seq<InnerPoll>, PollResult))
    requires Serves(o, polls, caps, rewrite)
  {
    if polls == [] then (polls, Pending)
    else
      match polls[0]
      case Idle => (polls[1..], Pending)
      case Broken(code) => (polls[1..], Error(code))
      case Batch(ds) =>
        var kept := Kept(o, ds, caps, rewrite);
        if ds == [] || kept != [] then (polls[1..], Ready(kept)) else PollSpec(o, polls[1..], caps, rewrite)
  }

  // A batch of which nothing unmasks into the first buffer.
  predicate Fruitless(o: Unmasker, ds: seq<Datagram>, caps: seq<nat>) {
    0 < |ds| <= |caps| && forall i | 0 <= i < |ds| :: !Admits(o, ds[i].bytes, caps[0])
  }

  lemma {:induction false} FruitlessIff(o: Unmasker, ds: seq<Datagram>, caps: seq<nat>, rewrite: Option<Addr>)
    requires 0 < |ds| <= |caps|
    ensures Fruitless(o, ds, caps) <==> Kept(o, ds, caps, rewrite) == []
  {
    var front := ds[..|ds| - 1];
    if front != [] {
      FruitlessIff(o, front, caps, rewrite);
      assert forall i | 0 <= i < |front| :: front[i] == ds[i];
    } else {
      assert Kept(o, front, caps, rewrite) == [];
    }
    assert ds[|ds| - 1] in ds;
  }

  // The first event that is not such a batch.
  function Decisive(o: Unmasker, polls: seq<InnerPoll>, caps: seq<nat>): (e: Option<InnerPoll>) {
    if polls == [] then None
    else if polls[0].Batch? && Fruitless(o, polls[0].ds, caps) then Decisive(o, polls[1..], caps)
    else Some(polls[0])
  }

  /**
   What a poll answers, from the inner socket's events alone: fruitless batches are
   skipped; then it is pending exactly if the inner socket is or has nothing, fails exactly
   if it fails, and hands out something exactly if the next batch holds something.
   */
  lemma {:induction false} PollAnswers(o: Unmasker, polls: seq<InnerPoll>, caps: seq<nat>, rewrite: Option<Addr>)
    requires Serves(o, polls, caps, rewrite)
    ensures var (r, e) := (PollSpec(o, polls, caps, rewrite).1, Decisive(o, polls, caps));
            && (r == Pending <==> e == None || e == Some(Idle))
            && (forall code :: r == Error(code) <==> e == Some(Broken(code)))
            && (r == Ready([]) <==> e == Some(Batch([])))
            && (r.Ready? && r.received != [] <==> e.Some? && e.value.Batch? && e.value.ds != [])
  {
    if polls != [] && polls[0].Batch? && polls[0].ds != [] {
      FruitlessIff(o, polls[0].ds, caps, rewrite);
      if Fruitless(o, polls[0].ds, caps) {
        PollAnswers(o, polls[1..], caps, rewrite);
      }
    }
  }

  // The received message is what `d` carried, reported as coming from `addr`.
  predicate Carried(o: Unmasker, d: Datagram, addr: Addr, r: Received) {
    && o(d.bytes) == Some(r.payload)
    && r.meta.addr == addr && r.meta.len == |r.payload| && r.meta.stride == |r.payload|
    && r.meta.ecn == d.ecn && r.meta.dstIp == d.dstIp
  }

  // Some inbound datagram carried it; the sender is replaced by `rewrite`, if any.
  ghost predicate CameFrom(o: Unmasker, ds: seq<Datagram>, rewrite: Option<Addr>, r: Received) {
    exists i | 0 <= i < |ds| :: Carried(o, ds[i], if rewrite.Some? then rewrite.value else ds[i].addr, r)
  }

  lemma CameFromMore(o: Unmasker, a: seq<Datagram>, b: seq<Datagram>, rewrite: Option<Addr>, r: Received)
    requires CameFrom(o, a, rewrite, r) || CameFrom(o, b, rewrite, r)
    ensures CameFrom(o, a + b, rewrite, r)
  {
    var ds := a + b;
    if i :| 0 <= i < |a| && Carried(o, a[i], if rewrite.Some? then rewrite.value else a[i].addr, r) {
      assert ds[i] == a[i];
    } else {
      var i :| 0 <= i < |b| && Carried(o, b[i], if rewrite.Some? then rewrite.value else b[i].addr, r);
      assert ds[|a| + i] == b[i];
    }
  }

  lemma {:induction false} KeptCame(o: Unmasker, ds: seq<Datagram>, caps: seq<nat>, rewrite: Option<Addr>, k: nat)
    requires |ds| <= |caps| && k < |Kept(o, ds, caps, rewrite)|
    ensures CameFrom(o, ds, rewrite, Kept(o, ds, caps, rewrite)[k])
  {
    var (front, d) := (ds[..|ds| - 1], ds[|ds| - 1]);
    var (kept, r) := (Kept(o, front, caps, rewrite), Kept(o, ds, caps, rewrite)[k]);
    if k < |kept| {
      KeptCame(o, front, caps, rewrite, k);
    } else {
      assert Carried(o, [d][0], if rewrite.Some? then rewrite.value else d.addr, r);
    }
    CameFromMore(o, front, [d], rewrite, r);
    assert ds == front + [d];
  }

  lemma {:induction false} PollCame(o: Unmasker, polls: seq<InnerPoll>, caps: seq<nat>, rewrite: Option<Addr>, k: nat)
    requires Serves(o, polls, caps, rewrite) && PollSpec(o, polls, caps, rewrite).1.Ready?
    requires k < |PollSpec(o, polls, caps, rewrite).1.received|
    ensures CameFrom(o, Inbound(polls), rewrite, PollSpec(o, polls, caps, rewrite).1.received[k])
  {
    var ds := polls[0].ds;
    if ds == [] || Kept(o, ds, caps, rewrite) != [] {
      KeptCame(o, ds, caps, rewrite, k);
    } else {
      PollCame(o, polls[1..], caps, rewrite, k);
    }
    CameFromMore(o, ds, Inbound(polls[1..]), rewrite, PollSpec(o, polls, caps, rewrite).1.received[k]);
  }

  class ObfsHopSocket {
    const inner: InnerSocket
    const obfs: Obfuscator?
    const hopAddrs: seq<Addr>
    const canonical: Addr
    const writeBuf: array<byte>
    var hopIndex: Option<nat>
    var scratch: array<byte>
    var tmpMeta: array<RecvMeta>

    ghost predicate Valid()
      reads this
    {
      && writeBuf.Length == SCRATCH_DATAGRAM && writeBuf != scratch
      && (hopIndex.Some? ==> hopIndex.value < |hopAddrs|)
    }

    function Rewrite(): (r: Option<Addr>)
      reads this
    {
      if hopIndex.Some? then Some(canonical) else None
    }

    // `hop` lists the candidate addresses, `start` is the random first index.
    constructor (inner: InnerSocket, canonical: Addr, obfs: Obfuscator?, hop: Option<seq<Addr>>, start: nat)
      requires hop.Some? && |hop.value| > 1 ==> start < |hop.value|
      ensures Valid() && this.inner == inner && this.obfs == obfs && this.canonical == canonical
      ensures fresh(writeBuf) && fresh(scratch) && fresh(tmpMeta)
      ensures hopIndex == if hop.Some? && |hop.value| > 1 then Some(start) else None
      ensures hopAddrs == if hop.Some? then hop.value else [canonical]
    {
      this.inner, this.obfs, this.canonical := inner, obfs, canonical;
      hopIndex := if hop.Some? && |hop.value| > 1 then Some(start) else None;
      hopAddrs := if hop.Some? then hop.value else [canonical];
      writeBuf := new byte[SCRATCH_DATAGRAM](_ => 0);
      scratch := new byte[0];
      tmpMeta := new RecvMeta[0];
    }

    /** No socket exactly when neither feature is requested; hopping exactly with more than one address. */
    static method Create(inner: InnerSocket, canonical: Addr, obfs: Obfuscator?, hop: Option<seq<Addr>>, start: nat)
      returns (s: ObfsHopSocket?)
      requires hop.Some? && |hop.value| > 1 ==> start < |hop.value|
      ensures s == null <==> obfs == null && hop == None
      ensures s != null ==> fresh(s) && s.Valid() && s.inner == inner && s.obfs == obfs && s.canonical == canonical
      ensures s != null ==> s.hopIndex == if hop.Some? && |hop.value| > 1 then Some(start) else None
      ensures s != null ==> s.hopAddrs == if hop.Some? then hop.value else [canonical]
    {
      if obfs == null && hop == None {
        return null;
      }
      s := new ObfsHopSocket(inner, canonical, obfs, hop, start);
    }

    /** One tick of the hop task: a random index replaces the current one. */
    method Hop(next: nat)
      requires Valid() && hopIndex.Some? && next < |hopAddrs|
      modifies this`hopIndex
      ensures Valid() && hopIndex == Some(next)
    {
      hopIndex := Some(next);
    }

    method CurrentDest() returns (d: Addr)
      requires Valid()
      ensures d == if hopIndex.Some? then hopAddrs[hopIndex.value] else canonical
    {
      if hopIndex.Some? {
        d := hopAddrs[hopIndex.value % |hopAddrs|];
      } else {
        d := canonical;
      }
    }

    /** The packet handed to the inner socket, if any; `salt` is the random draw of the obfuscator. */
    method TrySend(t: Transmit, salt: Salt) returns (sent: Option<Transmit>)
      requires Valid()
      modifies writeBuf
      ensures Valid()
      ensures sent.Some? ==>
                sent.value.destination == (if hopIndex.Some? then hopAddrs[hopIndex.value] else t.destination)
      ensures sent == None <==> obfs != null && |t.contents| > 2040
      ensures sent.Some? ==>
                sent.value.contents == (if obfs == null then t.contents else Obfuscated(obfs.hash, obfs.psk, salt, t.contents))
      ensures sent.Some? ==> sent.value.ecn == t.ecn && sent.value.srcIp == t.srcIp
      ensures sent.Some? ==> sent.value.segmentSize == (if obfs == null then t.segmentSize else None)
    {
      var dest := t.destination;
      if hopIndex.Some? {
        dest := CurrentDest();
      }
      if obfs == null {
        return Some(Transmit(dest, t.ecn, t.contents, t.segmentSize, t.srcIp));
      }
      var n := obfs.Obfuscate(t.contents, writeBuf, salt);
      if n == 0 {
        return None;
      }
      sent := Some(Transmit(dest, t.ecn, writeBuf[..n], None, t.srcIp));
    }

    // One turn of the compaction loop: unmask chunk `k` into the next free caller buffer.
    method Unmask(k: nat, bufs: seq<array<byte>>, meta: array<RecvMeta>, out: nat, ghost d: Datagram, ghost kept: seq<Received>)
      returns (out': nat)
      requires obfs != null && out == |kept| < |bufs| <= meta.Length && Delivered(bufs, meta, kept)
      requires k < tmpMeta.Length && HoldsAt(scratch[..], tmpMeta[k], d, k)
      requires meta != tmpMeta && scratch !in bufs && Distinct(bufs)
      modifies bufs[out], meta
      ensures var kept' := Grown(UnmaskerOf(obfs.hash, obfs.psk), kept, d, bufs[out].Length, Rewrite());
              out' == |kept'| && Delivered(bufs, meta, kept')
    {
      var rewrite := Rewrite();
      var rawEnd := tmpMeta[k].len;
      var raw := scratch[k * SCRATCH_DATAGRAM..k * SCRATCH_DATAGRAM + rawEnd];
      assert raw == scratch[..][k * SCRATCH_DATAGRAM..k * SCRATCH_DATAGRAM + rawEnd] == d.bytes;
      var plainLen := obfs.Deobfuscate(raw, bufs[out]);
      assert forall i | 0 <= i < out :: HoldsReceived(bufs[i], meta[i], kept[i]);
      if plainLen == 0 {
        return out;
      }
      meta[out] := RecvMeta(if rewrite.Some? then rewrite.value else tmpMeta[k].addr,
                            plainLen, plainLen, tmpMeta[k].ecn, tmpMeta[k].dstIp);
      out' := out + 1;
    }

    // After `k` packets of the batch the first `out` caller buffers hold what was kept of them.
    ghost predicate Compacted(bufs: seq<array<byte>>, meta: array<RecvMeta>, ds: seq<Datagram>, k: nat, out: nat)
      requires obfs != null && k <= |ds| <= |bufs|
      reads this, bufs, meta
    {
      && out == |Kept(UnmaskerOf(obfs.hash, obfs.psk), ds[..k], Caps(bufs), Rewrite())| <= k
      && Delivered(bufs, meta, Kept(UnmaskerOf(obfs.hash, obfs.psk), ds[..k], Caps(bufs), Rewrite()))
    }

    lemma CompactedNone(bufs: seq<array<byte>>, meta: array<RecvMeta>, ds: seq<Datagram>)
      requires obfs != null && |ds| <= |bufs|
      ensures Compacted(bufs, meta, ds, 0, 0)
    {
      assert ds[..0] == [];
    }

    lemma CompactedAll(bufs: seq<array<byte>>, meta: array<RecvMeta>, ds: seq<Datagram>, out: nat)
      requires obfs != null && |ds| <= |bufs| && Compacted(bufs, meta, ds, |ds|, out)
      ensures out == |Kept(UnmaskerOf(obfs.hash, obfs.psk), ds, Caps(bufs), Rewrite())|
      ensures Delivered(bufs, meta, Kept(UnmaskerOf(obfs.hash, obfs.psk), ds, Caps(bufs), Rewrite()))
    {
      assert ds[..|ds|] == ds;
    }

    // The loop body: packet `k` of the batch.
    method UnmaskNext(k: nat, bufs: seq<array<byte>>, meta: array<RecvMeta>, out: nat, ghost ds: seq<Datagram>)
      returns (out': nat)
      requires obfs != null && k < |ds| <= |bufs| <= meta.Length && HoldsBatch(scratch, tmpMeta, ds)
      requires meta != tmpMeta && scratch !in bufs && Distinct(bufs)
      requires Compacted(bufs, meta, ds, k, out)
      modifies bufs, meta
      ensures HoldsBatch(scratch, tmpMeta, ds) && Compacted(bufs, meta, ds, k + 1, out')
    {
      ghost var (o, caps, rewrite) := (UnmaskerOf(obfs.hash, obfs.psk), Caps(bufs), Rewrite());
      KeptStep(o, ds, k, caps, rewrite);
      out' := Unmask(k, bufs, meta, out, ds[k], Kept(o, ds[..k], caps, rewrite));
    }

    // The compaction loop over one received batch.
    method Compact(bufs: seq<array<byte>>, meta: array<RecvMeta>, n: nat, ghost ds: seq<Datagram>) returns (out: nat)
      requires obfs != null && HoldsBatch(scratch, tmpMeta, ds) && n == |ds| <= |bufs| <= meta.Length
      requires meta != tmpMeta && scratch !in bufs && Distinct(bufs)
      modifies bufs, meta
      ensures out == |Kept(UnmaskerOf(obfs.hash, obfs.psk), ds, Caps(bufs), Rewrite())|
      ensures Delivered(bufs, meta, Kept(UnmaskerOf(obfs.hash, obfs.psk), ds, Caps(bufs), Rewrite()))
    {
      out := 0;
      CompactedNone(bufs, meta, ds);
      for k := 0 to n
        invariant HoldsBatch(scratch, tmpMeta, ds) && Compacted(bufs, meta, ds, k, out)
      {
        out := UnmaskNext(k, bufs, meta, out, ds);
      }
      CompactedAll(bufs, meta, ds, out);
    }

    // Grow the reused scratch buffers to `count` datagrams.
    method Reserve(count: nat)
      modifies this`scratch, this`tmpMeta
      ensures scratch == old(scratch) || fresh(scratch)
      ensures tmpMeta == old(tmpMeta) || fresh(tmpMeta)
      ensures scratch.Length >= count * SCRATCH_DATAGRAM && tmpMeta.Length >= count
    {
      if scratch.Length < count * SCRATCH_DATAGRAM {
        scratch := new byte[count * SCRATCH_DATAGRAM](_ => 0);
      }
      if tmpMeta.Length < count {
        tmpMeta := new RecvMeta[count](_ => RecvMeta(0, 0, 0, 0, 0));
      }
    }

    // `m` and the front of `buf` tell of one of the datagrams `ds`: its unmasked payload, its
    // marks, and as sender the canonical address while hopping, else its own.
    ghost predicate Reported(ds: seq<Datagram>, buf: array<byte>, m: RecvMeta)
      requires obfs != null
      reads this, buf
    {
      && m.len == m.stride <= buf.Length
      && exists i | 0 <= i < |ds| ::
           && Recovered(obfs.hash, obfs.psk, ds[i].bytes) == Some(buf[..m.len])
           && m.ecn == ds[i].ecn && m.dstIp == ds[i].dstIp
           && (hopIndex.Some? ==> m.addr == canonical) && (hopIndex == None ==> m.addr == ds[i].addr)
    }

    lemma CameIsReported(ds: seq<Datagram>, buf: array<byte>, m: RecvMeta, r: Received)
      requires obfs != null && HoldsReceived(buf, m, r) && CameFrom(UnmaskerOf(obfs.hash, obfs.psk), ds, Rewrite(), r)
      ensures Reported(ds, buf, m)
    {
      var rewrite := Rewrite();
      var i :| 0 <= i < |ds| &&
        Carried(UnmaskerOf(obfs.hash, obfs.psk), ds[i], if rewrite.Some? then rewrite.value else ds[i].addr, r);
      assert Recovered(obfs.hash, obfs.psk, ds[i].bytes) == Some(buf[..m.len]);
    }

    method PollRecv(bufs: seq<array<byte>>, meta: array<RecvMeta>) returns (r: Polled)
      requires Valid() && obfs != null && |bufs| <= meta.Length
      requires Serves(UnmaskerOf(obfs.hash, obfs.psk), inner.polls, Caps(bufs), Rewrite())
      requires meta != tmpMeta && scratch !in bufs && writeBuf !in bufs
      requires Distinct(bufs)
      modifies this`scratch, this`tmpMeta, scratch, tmpMeta, inner, bufs, meta
      ensures Valid()
      ensures inner.polls == PollSpec(UnmaskerOf(obfs.hash, obfs.psk), old(inner.polls), Caps(bufs), Rewrite()).0
      ensures r.Count? ==>
                r.n <= |bufs| && forall i | 0 <= i < r.n :: Reported(Inbound(old(inner.polls)), bufs[i], meta[i])
      ensures match PollSpec(UnmaskerOf(obfs.hash, obfs.psk), old(inner.polls), Caps(bufs), Rewrite()).1
              case Ready(rs) => r == Count(|rs|) && Delivered(bufs, meta, rs)
              case Pending => r == NotReady
              case Error(code) => r == Failed(code)
    {
      ghost var (o, polls) := (UnmaskerOf(obfs.hash, obfs.psk), inner.polls);
      r := PollLoop(bufs, meta);
      if r.Count? {
        ghost var rs := PollSpec(o, polls, Caps(bufs), Rewrite()).1.received;
        forall i | 0 <= i < r.n
          ensures Reported(Inbound(polls), bufs[i], meta[i])
        {
          PollCame(o, polls, Caps(bufs), Rewrite(), i);
          CameIsReported(Inbound(polls), bufs[i], meta[i], rs[i]);
        }
      }
    }

    // The polling loop.
    method PollLoop(bufs: seq<array<byte>>, meta: array<RecvMeta>) returns (r: Polled)
      requires Valid() && obfs != null && |bufs| <= meta.Length
      requires Serves(UnmaskerOf(obfs.hash, obfs.psk), inner.polls, Caps(bufs), Rewrite())
      requires meta != tmpMeta && scratch !in bufs && writeBuf !in bufs
      requires Distinct(bufs)
      modifies this`scratch, this`tmpMeta, scratch, tmpMeta, inner, bufs, meta
      ensures Valid()
      ensures inner.polls == PollSpec(UnmaskerOf(obfs.hash, obfs.psk), old(inner.polls), Caps(bufs), Rewrite()).0
      ensures match PollSpec(UnmaskerOf(obfs.hash, obfs.psk), old(inner.polls), Caps(bufs), Rewrite()).1
              case Ready(rs) => r == Count(|rs|) && Delivered(bufs, meta, rs)
              case Pending => r == NotReady
              case Error(code) => r == Failed(code)
    {
      var count := |bufs|;
      Reserve(count);
      ghost var o := UnmaskerOf(obfs.hash, obfs.psk);
      ghost var expected := PollSpec(o, inner.polls, Caps(bufs), Rewrite());
      while true
        invariant Serves(o, inner.polls, Caps(bufs), Rewrite())
        invariant PollSpec(o, inner.polls, Caps(bufs), Rewrite()) == expected
        modifies scratch, tmpMeta, inner, bufs, meta
        decreases |inner.polls|
      {
        ghost var polls := inner.polls;
        var p := inner.PollRecv(scratch, tmpMeta, count);
        if p.InnerPending? {
          return NotReady;
        } else if p.InnerError? {
          return Failed(p.code);
        } else if p.n == 0 {
          return Count(0);
        }
        var out := Compact(bufs, meta, p.n, polls[0].ds);
        if out > 0 {
          return Count(out);
        }
      }
    }
  }

  predicate Distinct(bufs: seq<array<byte>>) { forall i, j | 0 <= i < j < |bufs| :: bufs[i] != bufs[j] }

  ghost function Caps(bufs: seq<array<byte>>): (r: seq<nat>)
    ensures |r| == |bufs| && forall i | 0 <= i < |bufs| :: r[i] == bufs[i].Length
  {
    seq(|bufs|, i requires 0 <= i < |bufs| => bufs[i].Length)
  }

  ghost predicate HoldsReceived(buf: array<byte>, m: RecvMeta, r: Received)
    reads buf
  {
    m == r.meta && |r.payload| == m.len <= buf.Length && buf[..m.len] == r.payload
  }

  // The caller's buffers and metadata hold exactly the received messages, without gaps.
  ghost predicate Delivered(bufs: seq<array<byte>>, meta: array<RecvMeta>, rs: seq<Received>)
    reads bufs, meta
  {
    && |rs| <= |bufs| && |rs| <= meta.Length
    && forall i | 0 <= i < |rs| :: HoldsReceived(bufs[i], meta[i], rs[i])
  }

  // ---------- every run of polls ----------

  // Everything the inner socket ever receives.
  function Inbound(polls: seq<InnerPoll>): (ds: seq<Datagram>) {
    if polls == [] then []
    else (if polls[0].Batch? then polls[0].ds else []) + Inbound(polls[1..])
  }

  predicate AllRoomy(capss: seq<seq<nat>>) { forall i | 0 <= i < |capss| :: Roomy(capss[i]) }

  // Successive polls, each with its own buffers: what is left and all that was received.
  function Drain(o: Unmasker, polls: seq<InnerPoll>, capss: seq<seq<nat>>, rewrite: Option<Addr>)
    : (r: (seq<InnerPoll>, seq<Received>))
    requires ServesAll(o, polls, capss, rewrite)
    decreases |capss|
  {
    if capss == [] then (polls, [])
    else
      var next := PollSpec(o, polls, capss[0], rewrite);
      var rest := Drain(o, next.0, capss[1..], rewrite);
      (rest.0, Output(next.1) + rest.1)
  }

  // The inner socket is honest throughout these polls.
  predicate ServesAll(o: Unmasker, polls: seq<InnerPoll>, capss: seq<seq<nat>>, rewrite: Option<Addr>)
    decreases |capss|
  {
    capss == [] ||
    (Serves(o, polls, capss[0], rewrite) && ServesAll(o, PollSpec(o, polls, capss[0], rewrite).0, capss[1..], rewrite))
  }

  function Output(r: PollResult): (rs: seq<Received>) { if r.Ready? then r.received else [] }

  // What a poll hands out and what it leaves make up what was inbound before.
  predicate Conserved(o: Unmasker, polls: seq<InnerPoll>, result: (seq<InnerPoll>, PollResult), rewrite: Option<Addr>) {
    Unmasked(o, Inbound(polls), rewrite) == Output(result.1) + Unmasked(o, Inbound(result.0), rewrite)
  }

  lemma {:induction false} PollConserves(o: Unmasker, polls: seq<InnerPoll>, caps: seq<nat>, rewrite: Option<Addr>)
    requires StripsSalt(o) && Serves(o, polls, caps, rewrite) && Roomy(caps)
    ensures Conserved(o, polls, PollSpec(o, polls, caps, rewrite), rewrite)
  {
    if polls != [] {
      var rest := polls[1..];
      if polls[0].Batch? {
        var (ds, kept) := (polls[0].ds, Kept(o, polls[0].ds, caps, rewrite));
        BatchConserves(o, ds, Inbound(rest), caps, rewrite);
        assert Inbound(polls) == ds + Inbound(rest);
        if ds == [] || kept != [] {
          assert PollSpec(o, polls, caps, rewrite) == (rest, Ready(kept));
        } else {
          assert PollSpec(o, polls, caps, rewrite) == PollSpec(o, rest, caps, rewrite);
          PollConserves(o, rest, caps, rewrite);
          assert kept + Unmasked(o, Inbound(rest), rewrite) == Unmasked(o, Inbound(rest), rewrite);
        }
      } else {
        assert Inbound(polls) == Inbound(rest);
      }
    }
  }

  lemma BatchConserves(o: Unmasker, ds: seq<Datagram>, later: seq<Datagram>, caps: seq<nat>, rewrite: Option<Addr>)
    requires StripsSalt(o) && |ds| <= |caps| && Roomy(caps)
    ensures Unmasked(o, ds + later, rewrite) == Kept(o, ds, caps, rewrite) + Unmasked(o, later, rewrite)
  {
    UnmaskedConcat(o, ds, later, rewrite);
    KeptIsFilterMap(o, ds, caps, rewrite);
  }

  /**
   Over any number of polls, whatever the batching and the buffers: what the caller has
   received is, in order and without gaps, the unmasked payloads of the datagrams taken
   so far, and the rest is still to come.
   */
  lemma {:induction false} DrainIsFilterMap(o: Unmasker, polls: seq<InnerPoll>, capss: seq<seq<nat>>, rewrite: Option<Addr>)
    requires StripsSalt(o) && ServesAll(o, polls, capss, rewrite) && AllRoomy(capss)
    ensures Accounted(o, polls, Drain(o, polls, capss, rewrite), rewrite)
    decreases |capss|
  {
    if capss != [] {
      var next := PollSpec(o, polls, capss[0], rewrite);
      PollConserves(o, polls, capss[0], rewrite);
      DrainIsFilterMap(o, next.0, capss[1..], rewrite);
      AccountStep(o, polls, next, Drain(o, next.0, capss[1..], rewrite), rewrite);
    }
  }

  lemma {:induction false} PollProgresses(o: Unmasker, polls: seq<InnerPoll>, caps: seq<nat>, rewrite: Option<Addr>)
    requires Serves(o, polls, caps, rewrite)
    ensures |PollSpec(o, polls, caps, rewrite).0| <= Max(|polls| - 1, 0)
  {
    if polls != [] && polls[0].Batch? && polls[0].ds != [] && Kept(o, polls[0].ds, caps, rewrite) == [] {
      PollProgresses(o, polls[1..], caps, rewrite);
    }
  }

  // Every poll uses up at least one event of the inner socket.
  lemma {:induction false} DrainProgresses(o: Unmasker, polls: seq<InnerPoll>, capss: seq<seq<nat>>, rewrite: Option<Addr>)
    requires ServesAll(o, polls, capss, rewrite)
    ensures |Drain(o, polls, capss, rewrite).0| <= Max(|polls| - |capss|, 0)
    decreases |capss|
  {
    if capss != [] {
      PollProgresses(o, polls, capss[0], rewrite);
      DrainProgresses(o, PollSpec(o, polls, capss[0], rewrite).0, capss[1..], rewrite);
    }
  }

  /** The same for the socket's own unmasking, whatever hash and key it uses; enough polls receive everything. */
  lemma ReceiveIsFilterMap(hash: Hash, psk: seq<byte>, polls: seq<InnerPoll>, capss: seq<seq<nat>>, rewrite: Option<Addr>)
    requires ServesAll(UnmaskerOf(hash, psk), polls, capss, rewrite) && AllRoomy(capss)
    ensures Accounted(UnmaskerOf(hash, psk), polls, Drain(UnmaskerOf(hash, psk), polls, capss, rewrite), rewrite)
    ensures |capss| >= |polls| ==>
              Drain(UnmaskerOf(hash, psk), polls, capss, rewrite).1 == Unmasked(UnmaskerOf(hash, psk), Inbound(polls), rewrite)
  {
    var o := UnmaskerOf(hash, psk);
    UnmaskerStripsSalt(hash, psk);
    DrainIsFilterMap(o, polls, capss, rewrite);
    DrainProgresses(o, polls, capss, rewrite);
  }

  // The payloads handed out so far and those still inbound are the payloads of everything inbound.
  predicate Accounted(o: Unmasker, polls: seq<InnerPoll>, state: (seq<InnerPoll>, seq<Received>), rewrite: Option<Addr>) {
    Unmasked(o, Inbound(polls), rewrite) == state.1 + Unmasked(o, Inbound(state.0), rewrite)
  }

  lemma AccountStep(o: Unmasker, polls: seq<InnerPoll>, next: (seq<InnerPoll>, PollResult),
                    rest: (seq<InnerPoll>, seq<Received>), rewrite: Option<Addr>)
    requires Conserved(o, polls, next, rewrite) && Accounted(o, next.0, rest, rewrite)
    ensures Accounted(o, polls, (rest.0, Output(next.1) + rest.1), rewrite)
  {
    var later := Unmasked(o, Inbound(rest.0), rewrite);
    assert Output(next.1) + (rest.1 + later) == (Output(next.1) + rest.1) + later;
  }

  /** A packet that fits the receive buffer yields its payload to a socket with the same key, unless that is empty. */
  lemma WireRoundTrip(hash: Hash, psk: seq<byte>, salt: Salt, d: Datagram, payload: seq<byte>, rewrite: Option<Addr>)
    requires d.bytes == Obfuscated(hash, psk, salt, payload)
    ensures |payload| <= SCRATCH_DATAGRAM - SALT_LEN
    ensures Unmasked(UnmaskerOf(hash, psk), [d], rewrite) == if payload == [] then [] else [ReportOf(d, payload, rewrite)]
  {
    RecoverObfuscated(hash, psk, salt, payload);
    assert Unmasked(UnmaskerOf(hash, psk), [d][..0], rewrite) == [];
  }

  // ---------- a peer with the same key ----------

  function Payloads(rs: seq<Received>): (ps: seq<seq<byte>>) {
    if rs == [] then [] else Payloads(rs[..|rs| - 1]) + [rs[|rs| - 1].payload]
  }

  function NonEmpty(ps: seq<seq<byte>>): (r: seq<seq<byte>>) {
    if ps == [] then []
    else NonEmpty(ps[..|ps| - 1]) + if ps[|ps| - 1] == [] then [] else [ps[|ps| - 1]]
  }

  // The datagrams are what a peer's socket makes of the payloads, each under a salt of its own.
  ghost predicate SentAs(ds: seq<Datagram>, hash: Hash, psk: seq<byte>, salts: seq<Salt>, ps: seq<seq<byte>>) {
    && |ds| == |ps| == |salts|
    && forall i | 0 <= i < |ds| :: ds[i].bytes == Obfuscated(hash, psk, salts[i], ps[i])
  }

  lemma {:induction false} PayloadsConcat(a: seq<Received>, b: seq<Received>)
    ensures Payloads(a + b) == Payloads(a) + Payloads(b)
  {
    if b == [] {
      assert a + b == a;
    } else {
      PayloadsConcat(a, b[..|b| - 1]);
      assert (a + b)[..|a + b| - 1] == a + b[..|b| - 1];
    }
  }

  lemma {:induction false} UnmaskedPayloads(hash: Hash, psk: seq<byte>, salts: seq<Salt>, ps: seq<seq<byte>>,
                                            ds: seq<Datagram>, rewrite: Option<Addr>)
    requires SentAs(ds, hash, psk, salts, ps)
    ensures Payloads(Unmasked(UnmaskerOf(hash, psk), ds, rewrite)) == NonEmpty(ps)
  {
    if ds != [] {
      var k := |ds| - 1;
      UnmaskedPayloads(hash, psk, salts[..k], ps[..k], ds[..k], rewrite);
      RecoverObfuscated(hash, psk, salts[k], ps[k]);
      var rs := Unmasked(UnmaskerOf(hash, psk), ds[..k], rewrite);
      if ps[k] == [] {
        assert Unmasked(UnmaskerOf(hash, psk), ds, rewrite) == rs;
      } else {
        assert (rs + [ReportOf(ds[k], ps[k], rewrite)])[..|rs|] == rs;
      }
    }
  }

  /**
   What a peer with the same key sends comes out in order, whatever the salts, the
   batching and the buffers: at any time a prefix of its non-empty payloads, and all
   of them once there were as many polls as the inner socket has events.
   */
  lemma PeerPayloadsArrive(hash: Hash, psk: seq<byte>, salts: seq<Salt>, ps: seq<seq<byte>>,
                           polls: seq<InnerPoll>, capss: seq<seq<nat>>, rewrite: Option<Addr>)
    requires SentAs(Inbound(polls), hash, psk, salts, ps)
    requires ServesAll(UnmaskerOf(hash, psk), polls, capss, rewrite) && AllRoomy(capss)
    ensures Payloads(Drain(UnmaskerOf(hash, psk), polls, capss, rewrite).1) <= NonEmpty(ps)
    ensures |capss| >= |polls| ==> Payloads(Drain(UnmaskerOf(hash, psk), polls, capss, rewrite).1) == NonEmpty(ps)
  {
    var o := UnmaskerOf(hash, psk);
    var state := Drain(o, polls, capss, rewrite);
    ReceiveIsFilterMap(hash, psk, polls, capss, rewrite);
    UnmaskedPayloads(hash, psk, salts, ps, Inbound(polls), rewrite);
    PayloadsConcat(state.1, Unmasked(o, Inbound(state.0), rewrite));
  }
}
