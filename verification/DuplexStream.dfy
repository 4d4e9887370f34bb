/**
 The proxied TCP stream: the response header is parsed and stripped lazily, then
 the bytes that arrived with it are drained, then the receive stream passes through.
 */
module DuplexStreams {
  import opened Bytes
  import TcpResponse

  // ---------- the receive stream ----------

  // What the network does at successive polls.  `Fin` is the end of the stream and
  // stays; `Reset` is an error, after which anything may follow.
  datatype Event = Chunk(bytes: seq<byte>) | NotReady | Fin | Reset(code: int)

  predicate Proper(net: seq<Event>) { forall e <- net :: e.Chunk? ==> e.bytes != [] }

  datatype Polled = Data(bytes: seq<byte>) | Pending | Failed(code: int)

  // One poll with room for `cap` bytes.
  function PollNet(net: seq<Event>, cap: nat): (r: (seq<Event>, Polled)) {
    if cap == 0 then (net, Data([]))
    else if net == [] then (net, Pending)
    else
      match net[0]
      case Chunk(b) =>
        if |b| <= cap then (net[1..], Data(b)) else ([Chunk(b[cap..])] + net[1..], Data(b[..cap]))
      case NotReady => (net[1..], Pending)
      case Fin => (net, Data([]))
      case Reset(code) => (net[1..], Failed(code))
  }

  // All bytes the stream carries, however they are chunked and scheduled.
  function Flow(net: seq<Event>): (s: seq<byte>) {
    if net == [] then []
    else
      match net[0]
      case Chunk(b) => b + Flow(net[1..])
      case Fin => []
      case _ => Flow(net[1..])
  }

  lemma ProperTail(net: seq<Event>)
    requires Proper(net) && net != []
    ensures Proper(net[1..]) && (net[0].Chunk? ==> net[0].bytes != [])
  {
    assert net[0] in net;
    assert forall e <- net[1..] :: e in net;
  }

  // Delivering the front of a chunk leaves its rest at the head.
  lemma PartialChunk(b: seq<byte>, rest: seq<Event>, cap: nat)
    requires Proper(rest) && 0 < cap < |b|
    ensures var net' := [Chunk(b[cap..])] + rest;
            Proper(net') && b + Flow(rest) == b[..cap] + Flow(net')
  {
    var net' := [Chunk(b[cap..])] + rest;
    assert net'[1..] == rest;
    assert b == b[..cap] + b[cap..];
    assert Flow(net') == b[cap..] + Flow(rest);
  }

  // Delivered bytes, if the poll delivered any.
  function BytesOf(r: Polled): (s: seq<byte>) { if r.Data? then r.bytes else [] }

  predicate AtEnd(net: seq<Event>) { net != [] && net[0] == Fin }

  lemma PollNetFlow(net: seq<Event>, cap: nat)
    requires Proper(net)
    ensures Proper(PollNet(net, cap).0)
    ensures Flow(net) == BytesOf(PollNet(net, cap).1) + Flow(PollNet(net, cap).0)
    ensures |BytesOf(PollNet(net, cap).1)| <= cap
    ensures PollNet(net, cap).1 == Data([]) && cap > 0 ==> AtEnd(net) && PollNet(net, cap).0 == net
  {
    if cap > 0 && net != [] {
      ProperTail(net);
      assert [] + Flow(net[1..]) == Flow(net[1..]);
      if net[0].Chunk? && |net[0].bytes| > cap {
        PartialChunk(net[0].bytes, net[1..], cap);
      }
    }
  }

  class RecvStream {
    var net: seq<Event>

    constructor (net: seq<Event>)
      ensures this.net == net
    {
      this.net := net;
    }

    method PollRead(cap: nat) returns (r: Polled)
      modifies this
      ensures (net, r) == PollNet(old(net), cap)
    {
      if cap == 0 {
        r := Data([]);
      } else if net == [] {
        r := Pending;
      } else {
        match net[0] {
          case Chunk(b) =>
            if |b| <= cap {
              net, r := net[1..], Data(b);
            } else {
              net, r := [Chunk(b[cap..])] + net[1..], Data(b[..cap]);
            }
          case NotReady => net, r := net[1..], Pending;
          case Fin => r := Data([]);
          case Reset(code) => net, r := net[1..], Failed(code);
        }
      }
    }
  }

  // ---------- the stream ----------

  datatype Error = ConnectionRefused | InvalidData | UnexpectedEof | Net(code: int)
  datatype Poll<+T> = Ready(value: T) | Err(error: Error) | Later

  datatype Stream = Stream(
    net: seq<Event>, responseDone: bool, scratch: seq<byte>, leftover: seq<byte>, leftoverPos: nat)

  predicate Valid(st: Stream) {
    st.leftoverPos <= |st.leftover| && (!st.responseDone ==> st.leftover == [])
  }

  function New(net: seq<Event>): (st: Stream) { Stream(net, false, [], [], 0) }

  // Bytes still missing before the parser must have decided.
  function Patience(scratch: seq<byte>): (n: nat) { Max(0, TcpResponse.MAX_HEADER - |scratch|) }

  /** One poll of the header phase. */
  function PollEstablish(st: Stream): (r: (Stream, Poll<()>))
    requires Valid(st)
    ensures Valid(r.0) && (r.1.Ready? <==> r.0.responseDone)
    decreases Patience(st.scratch)
  {
    if st.responseDone then (st, Ready(()))
    else
      match TcpResponse.Parse(st.scratch)
      case Done(ok, consumed) =>
        if !ok then (st, Err(ConnectionRefused))
        else (st.(leftover := st.scratch[consumed..], scratch := [], responseDone := true), Ready(()))
      case Invalid => (st, Err(InvalidData))
      case NeedMore =>
        var (net', p) := PollNet(st.net, 512);
        var st' := st.(net := net');
        match p
        case Pending => (st', Later)
        case Failed(code) => (st', Err(Net(code)))
        case Data(bytes) =>
          if bytes == [] then (st', Err(UnexpectedEof))
          else
            assert Patience(st.scratch + bytes) < Patience(st.scratch) by { NeedMoreIsShort(st.scratch); }
            PollEstablish(st'.(scratch := st.scratch + bytes))
  }

  lemma NeedMoreIsShort(scratch: seq<byte>)
    requires TcpResponse.Parse(scratch) == TcpResponse.NeedMore
    ensures |scratch| < TcpResponse.MAX_HEADER
  {
    if |scratch| >= TcpResponse.MAX_HEADER {
      TcpResponse.LongIsDecided(scratch);
    }
  }

  // Phases 2 and 3: drain what arrived with the header, then pass through.
  function PollBody(st: Stream, cap: nat): (r: (Stream, Poll<seq<byte>>))
    requires Valid(st) && st.responseDone
    ensures Valid(r.0) && r.0.responseDone
  {
    if st.leftoverPos < |st.leftover| then
      var n := Min(|st.leftover| - st.leftoverPos, cap);
      (st.(leftoverPos := st.leftoverPos + n), Ready(st.leftover[st.leftoverPos..st.leftoverPos + n]))
    else
      var (net', p) := PollNet(st.net, cap);
      (st.(net := net'),
       match p case Data(bytes) => Ready(bytes) case Pending => Later case Failed(code) => Err(Net(code)))
  }

  /** One poll for application data with room for `cap` bytes. */
  function PollRead(st: Stream, cap: nat): (r: (Stream, Poll<seq<byte>>))
    requires Valid(st)
    ensures Valid(r.0) && (r.1.Ready? ==> r.0.responseDone)
  {
    var (st1, e) := PollEstablish(st);
    match e
    case Err(error) => (st1, Err(error))
    case Later => (st1, Later)
    case Ready(_) => PollBody(st1, cap)
  }

  class DuplexStream {
    const recv: RecvStream
    var responseDone: bool
    var scratch: seq<byte>
    var leftover: seq<byte>
    var leftoverPos: nat

    ghost function State(): (st: Stream)
      reads this, recv
    {
      Stream(recv.net, responseDone, scratch, leftover, leftoverPos)
    }

    constructor (recv: RecvStream)
      ensures State() == New(recv.net) && this.recv == recv
    {
      this.recv := recv;
      responseDone, scratch, leftover, leftoverPos := false, [], [], 0;
    }

    method Establish() returns (r: Poll<()>)
      requires Valid(State())
      modifies this, recv
      ensures (State(), r) == PollEstablish(old(State()))
    {
      while !responseDone
        invariant Valid(State())
        invariant PollEstablish(State()) == PollEstablish(old(State()))
        decreases if responseDone then 0 else 1, Patience(scratch)
      {
        var parsed := TcpResponse.Parse(scratch);
        match parsed {
          case Done(ok, consumed) =>
            if !ok {
              return Err(ConnectionRefused);
            }
            leftover := scratch[consumed..];
            scratch := [];
            responseDone := true;
          case Invalid =>
            return Err(InvalidData);
          case NeedMore =>
            NeedMoreIsShort(scratch);
            var p := recv.PollRead(512);
            match p {
              case Data(filled) =>
                if filled == [] {
                  return Err(UnexpectedEof);
                }
                scratch := scratch + filled;
              case Failed(code) => return Err(Net(code));
              case Pending => return Later;
            }
        }
      }
      return Ready(());
    }

    method Read(cap: nat) returns (r: Poll<seq<byte>>)
      requires Valid(State())
      modifies this, recv
      ensures (State(), r) == PollRead(old(State()), cap)
    {
      if !responseDone {
        var e := Establish();
        match e {
          case Ready(_) =>
          case Err(error) => return Err(error);
          case Later => return Later;
        }
      }
      if leftoverPos < |leftover| {
        var rest := leftover[leftoverPos..];
        var n := Min(|rest|, cap);
        r := Ready(rest[..n]);
        assert rest[..n] == leftover[leftoverPos..leftoverPos + n];
        leftoverPos := leftoverPos + n;
        return;
      }
      var p := recv.PollRead(cap);
      r := match p case Data(bytes) => Ready(bytes) case Pending => Later case Failed(code) => Err(Net(code));
    }
  }

  // ---------- every run ----------

  // What the caller may do: wait for the header (fast-open off), or read.
  datatype Op = Establish | Read(cap: nat)

  // The state and the application bytes delivered after `ops`.
  function Run(st: Stream, ops: seq<Op>): (r: (Stream, seq<byte>))
    requires Valid(st)
    ensures Valid(r.0)
  {
    if ops == [] then (st, [])
    else
      var (before, got) := Run(st, ops[..|ops| - 1]);
      match ops[|ops| - 1]
      case Establish => (PollEstablish(before).0, got)
      case Read(cap) =>
        var (after, r) := PollRead(before, cap);
        (after, got + Got(r))
  }

  // How a reachable state accounts for the bytes `all` of the receive stream, on
  // which the header parser's verdict is `parsed`.
  ghost predicate AccountsAs(all: seq<byte>, parsed: TcpResponse.Outcome, st: Stream, delivered: seq<byte>) {
    && Valid(st) && Proper(st.net)
    && if st.responseDone then
         && parsed.Done? && parsed.ok && parsed.consumed <= |all| && st.scratch == []
         && all[parsed.consumed..] == delivered + st.leftover[st.leftoverPos..] + Flow(st.net)
       else
         && delivered == [] && all == st.scratch + Flow(st.net)
         && |st.scratch| < TcpResponse.MAX_HEADER + 512
  }

  ghost predicate Accounts(all: seq<byte>, st: Stream, delivered: seq<byte>) {
    AccountsAs(all, TcpResponse.Parse(all), st, delivered)
  }

  // Which verdict on the whole stream an establish error stands for.
  ghost predicate Explains(all: seq<byte>, st: Stream, e: Error) {
    match e
    case ConnectionRefused =>
      TcpResponse.Parse(st.scratch) == TcpResponse.Parse(all) && TcpResponse.Parse(all).Done? && !TcpResponse.Parse(all).ok
    case InvalidData => TcpResponse.Parse(st.scratch) == TcpResponse.Parse(all) == TcpResponse.Invalid
    case UnexpectedEof => TcpResponse.Parse(all) == TcpResponse.NeedMore && st.scratch == all
    case Net(_) => true
  }

  lemma HeaderStripped(all: seq<byte>, scratch: seq<byte>, rest: seq<byte>)
    requires all == scratch + rest && TcpResponse.Parse(scratch).Done?
    ensures TcpResponse.Parse(all) == TcpResponse.Parse(scratch)
    ensures var c := TcpResponse.Parse(scratch).consumed; all[c..] == scratch[c..] + rest
  {
    TcpResponse.DecidedIsStable(scratch, rest);
  }

  // What an establish poll must leave behind.
  ghost predicate EstablishOk(all: seq<byte>, delivered: seq<byte>, result: (Stream, Poll<()>)) {
    Accounts(all, result.0, delivered) && (result.1.Err? ==> Explains(all, result.0, result.1.error))
  }

  lemma DecidedAccounts(all: seq<byte>, st: Stream, delivered: seq<byte>)
    requires Accounts(all, st, delivered) && !st.responseDone && !TcpResponse.Parse(st.scratch).NeedMore?
    ensures EstablishOk(all, delivered, PollEstablish(st))
  {
    TcpResponse.DecidedIsStable(st.scratch, Flow(st.net));
    if TcpResponse.Parse(st.scratch).Done? {
      HeaderStripped(all, st.scratch, Flow(st.net));
      var left := st.scratch[TcpResponse.Parse(st.scratch).consumed..];
      assert left[0..] == left && [] + left == left;
    }
  }

  // A poll while the header is undecided moves bytes from the network to the scratch buffer.
  lemma MoreAccounts(all: seq<byte>, st: Stream, delivered: seq<byte>)
    requires Accounts(all, st, delivered) && !st.responseDone && TcpResponse.Parse(st.scratch).NeedMore?
    ensures Accounts(all, st.(net := PollNet(st.net, 512).0, scratch := st.scratch + BytesOf(PollNet(st.net, 512).1)), delivered)
    ensures PollNet(st.net, 512).1 == Data([]) ==> all == st.scratch
  {
    NeedMoreIsShort(st.scratch);
    PollNetFlow(st.net, 512);
    var (net', p) := PollNet(st.net, 512);
    assert all == (st.scratch + BytesOf(p)) + Flow(net');
    if p == Data([]) {
      assert Flow(st.net) == [];
    }
  }

  lemma {:induction false} EstablishAccounts(all: seq<byte>, st: Stream, delivered: seq<byte>)
    requires Accounts(all, st, delivered)
    ensures EstablishOk(all, delivered, PollEstablish(st))
    decreases Patience(st.scratch)
  {
    if st.responseDone {
    } else if !TcpResponse.Parse(st.scratch).NeedMore? {
      DecidedAccounts(all, st, delivered);
    } else {
      NeedMoreIsShort(st.scratch);
      MoreAccounts(all, st, delivered);
      var (net', p) := PollNet(st.net, 512);
      if p.Data? && p.bytes != [] {
        EstablishAccounts(all, st.(net := net', scratch := st.scratch + p.bytes), delivered);
      } else {
        assert st.scratch + BytesOf(p) == st.scratch;
      }
    }
  }

  // Application bytes a read returned.
  function Got(r: Poll<seq<byte>>): (s: seq<byte>) { if r.Ready? then r.value else [] }

  lemma DrainAccounts(all: seq<byte>, parsed: TcpResponse.Outcome, st: Stream, delivered: seq<byte>, cap: nat)
    requires AccountsAs(all, parsed, st, delivered) && st.responseDone && st.leftoverPos < |st.leftover|
    ensures AccountsAs(all, parsed, PollBody(st, cap).0, delivered + Got(PollBody(st, cap).1))
  {
    var rest := st.leftover[st.leftoverPos..];
    var n := Min(|rest|, cap);
    var (st', r) := PollBody(st, cap);
    assert Got(r) == rest[..n] by {
      assert st.leftover[st.leftoverPos..st.leftoverPos + n] == rest[..n];
    }
    assert st'.leftover[st'.leftoverPos..] == rest[n..];
    assert rest == rest[..n] + rest[n..];
    Regroup(delivered, rest[..n], rest[n..], Flow(st.net));
  }

  lemma Regroup(a: seq<byte>, b: seq<byte>, c: seq<byte>, d: seq<byte>)
    ensures a + (b + c) + d == (a + b) + c + d
  {
  }

  lemma PassAccounts(all: seq<byte>, parsed: TcpResponse.Outcome, st: Stream, delivered: seq<byte>, cap: nat)
    requires AccountsAs(all, parsed, st, delivered) && st.responseDone && st.leftoverPos == |st.leftover|
    ensures AccountsAs(all, parsed, PollBody(st, cap).0, delivered + Got(PollBody(st, cap).1))
  {
    PollNetFlow(st.net, cap);
    var (net', p) := PollNet(st.net, cap);
    var rest := st.leftover[st.leftoverPos..];
    assert rest == [];
    assert Got(PollBody(st, cap).1) == BytesOf(p);
    PassOver(delivered, BytesOf(p), Flow(net'));
  }

  lemma PassOver(a: seq<byte>, b: seq<byte>, c: seq<byte>)
    ensures a + [] + (b + c) == (a + b) + [] + c
  {
  }

  lemma BodyAccounts(all: seq<byte>, parsed: TcpResponse.Outcome, st: Stream, delivered: seq<byte>, cap: nat)
    requires AccountsAs(all, parsed, st, delivered) && st.responseDone
    ensures AccountsAs(all, parsed, PollBody(st, cap).0, delivered + Got(PollBody(st, cap).1))
  {
    if st.leftoverPos < |st.leftover| {
      DrainAccounts(all, parsed, st, delivered, cap);
    } else {
      PassAccounts(all, parsed, st, delivered, cap);
    }
  }

  lemma ReadAccounts(all: seq<byte>, st: Stream, delivered: seq<byte>, cap: nat)
    requires Accounts(all, st, delivered)
    ensures Accounts(all, PollRead(st, cap).0, delivered + Got(PollRead(st, cap).1))
  {
    EstablishAccounts(all, st, delivered);
    var (st1, e) := PollEstablish(st);
    if e.Ready? {
      BodyAccounts(all, TcpResponse.Parse(all), st1, delivered, cap);
    } else {
      assert delivered + [] == delivered;
    }
  }

  /**
   Transparency over every run: whatever the chunking, the pending polls, the
   errors and the caller's buffer sizes, the bytes pulled from the receive stream
   are the header, the delivered bytes and the undrained leftover, in that order.
   */
  lemma {:induction false} RunAccounts(net: seq<Event>, ops: seq<Op>)
    requires Proper(net)
    ensures Accounts(Flow(net), Run(New(net), ops).0, Run(New(net), ops).1)
  {
    if ops != [] {
      RunAccounts(net, ops[..|ops| - 1]);
      var (st, got) := Run(New(net), ops[..|ops| - 1]);
      match ops[|ops| - 1]
      case Establish => EstablishAccounts(Flow(net), st, got);
      case Read(cap) => ReadAccounts(Flow(net), st, got, cap);
    }
  }

  // The application bytes of a stream: everything behind an accepted header.
  function AppBytes(all: seq<byte>): (s: seq<byte>) {
    match TcpResponse.Parse(all)
    case Done(ok, c) => if ok then all[c..] else []
    case _ => []
  }

  /** What is delivered depends on the bytes alone: always a prefix of the application bytes. */
  lemma DeliveredIsPrefix(net: seq<Event>, ops: seq<Op>)
    requires Proper(net)
    ensures Run(New(net), ops).1 <= AppBytes(Flow(net))
  {
    RunAccounts(net, ops);
  }

  /**
   Two schedules of the same bytes, eager or lazy, never disagree on a delivered byte;
   and once a stream that ends has been read enough under both, both have delivered the same.
   */
  lemma ChunkingIsInvisible(net1: seq<Event>, ops1: seq<Op>, net2: seq<Event>, ops2: seq<Op>)
    requires Proper(net1) && Proper(net2) && Flow(net1) == Flow(net2)
    ensures var (got1, got2) := (Run(New(net1), ops1).1, Run(New(net2), ops2).1);
            if |got1| <= |got2| then got1 <= got2 else got2 <= got1
    ensures Enough(net1, ops1) && Enough(net2, ops2) ==> Run(New(net1), ops1).1 == Run(New(net2), ops2).1
  {
    DeliveredIsPrefix(net1, ops1);
    DeliveredIsPrefix(net2, ops2);
    if Enough(net1, ops1) && Enough(net2, ops2) {
      EverythingArrives(net1, ops1);
      EverythingArrives(net2, ops2);
    }
  }

  lemma BodyEof(st: Stream, cap: nat)
    requires Valid(st) && st.responseDone && Proper(st.net) && cap > 0
    requires PollBody(st, cap).1 == Ready([])
    ensures st.leftoverPos == |st.leftover| && AtEnd(st.net) && PollBody(st, cap).0.net == st.net
  {
    PollNetFlow(st.net, cap);
  }

  lemma EofAccounts(all: seq<byte>, parsed: TcpResponse.Outcome, st: Stream, delivered: seq<byte>)
    requires AccountsAs(all, parsed, st, delivered) && st.responseDone
    requires st.leftoverPos == |st.leftover| && AtEnd(st.net)
    ensures parsed.Done? && parsed.ok && parsed.consumed <= |all| && all[parsed.consumed..] == delivered
  {
    assert st.leftover[st.leftoverPos..] == [] && Flow(st.net) == [];
  }

  /**
   No false end of stream: a successful empty read into a non-empty buffer happens
   only when the network has ended and every application byte was delivered.
   */
  lemma NoFalseEof(net: seq<Event>, ops: seq<Op>, cap: nat)
    requires Proper(net) && cap > 0
    requires PollRead(Run(New(net), ops).0, cap).1 == Ready([])
    ensures Run(New(net), ops).1 == AppBytes(Flow(net))
    ensures AtEnd(PollRead(Run(New(net), ops).0, cap).0.net)
  {
    var (st, got) := Run(New(net), ops);
    RunAccounts(net, ops);
    EstablishAccounts(Flow(net), st, got);
    BodyEof(PollEstablish(st).0, cap);
    EofAccounts(Flow(net), TcpResponse.Parse(Flow(net)), PollEstablish(st).0, got);
  }

  /** The same verdict for every schedule: an establish error is a property of the bytes. */
  lemma ErrorsAreDetermined(net: seq<Event>, ops: seq<Op>)
    requires Proper(net)
    ensures var (st', r) := PollEstablish(Run(New(net), ops).0);
            r.Err? ==> Explains(Flow(net), st', r.error)
  {
    var (st, got) := Run(New(net), ops);
    RunAccounts(net, ops);
    EstablishAccounts(Flow(net), st, got);
  }

  // The header has been refused or found malformed.
  predicate Rejected(st: Stream) {
    && !st.responseDone
    && match TcpResponse.Parse(st.scratch)
       case Done(ok, _) => !ok
       case Invalid => true
       case NeedMore => false
  }

  function Verdict(st: Stream): (e: Error) {
    if TcpResponse.Parse(st.scratch).Invalid? then InvalidData else ConnectionRefused
  }

  lemma RejectedStep(st: Stream, cap: nat)
    requires Valid(st) && Rejected(st)
    ensures PollEstablish(st) == (st, Err(Verdict(st))) && PollRead(st, cap) == (st, Err(Verdict(st)))
  {
    assert PollEstablish(st) == (st, Err(Verdict(st)));
  }

  /** Rejection is sticky: every later operation fails alike, changes nothing and delivers nothing. */
  lemma {:induction false} RejectionIsSticky(st: Stream, ops: seq<Op>, cap: nat)
    requires Valid(st) && Rejected(st)
    ensures Run(st, ops) == (st, [])
    ensures PollRead(Run(st, ops).0, cap) == (st, Err(Verdict(st)))
  {
    RejectedStep(st, cap);
    if ops != [] {
      RejectionIsSticky(st, ops[..|ops| - 1], cap);
      match ops[|ops| - 1]
      case Establish =>
      case Read(c) =>
        RejectedStep(st, c);
        assert Run(st, ops).1 == [] + [];
    }
  }

  /** A refusal or guard violation leaves the stream in the sticky state. */
  lemma {:induction false} RejectionIsReached(st: Stream)
    requires Valid(st)
    ensures var (st', r) := PollEstablish(st);
            r == Err(ConnectionRefused) || r == Err(InvalidData) ==> Rejected(st')
    decreases Patience(st.scratch)
  {
    if !st.responseDone && TcpResponse.Parse(st.scratch).NeedMore? {
      NeedMoreIsShort(st.scratch);
      var (net', p) := PollNet(st.net, 512);
      if p.Data? && p.bytes != [] {
        RejectionIsReached(st.(net := net', scratch := st.scratch + p.bytes));
      }
    }
  }

  // ---------- what one poll answers ----------

  // The bytes at hand: all chunks before the first event that is none, and that event.
  function AtHand(net: seq<Event>): (s: seq<byte>) {
    if net == [] || !net[0].Chunk? then [] else net[0].bytes + AtHand(net[1..])
  }

  function Stop(net: seq<Event>): (e: Option<Event>)
    ensures e.Some? ==> !e.value.Chunk?
  {
    if net == [] then None else if net[0].Chunk? then Stop(net[1..]) else Some(net[0])
  }

  // The answer of a poll that still lacks bytes when it meets `stop`.
  ghost predicate StopsWith<T>(r: Poll<T>, stop: Option<Event>) {
    && (r == Later <==> stop == None || stop == Some(NotReady))
    && (r == Err(UnexpectedEof) <==> stop == Some(Fin))
    && (forall code :: r == Err(Net(code)) <==> stop == Some(Reset(code)))
    && !r.Ready? && r != Err(ConnectionRefused) && r != Err(InvalidData)
  }

  // The header verdict on the bytes at hand.
  ghost predicate AnswersOn<T>(parsed: TcpResponse.Outcome, r: Poll<T>, stop: Option<Event>) {
    match parsed
    case Done(ok, _) => if ok then r.Ready? else r == Err(ConnectionRefused)
    case Invalid => r == Err(InvalidData)
    case NeedMore => StopsWith(r, stop)
  }

  lemma PartialAtHand(b: seq<byte>, rest: seq<Event>, cap: nat)
    requires 0 < cap < |b|
    ensures var net' := [Chunk(b[cap..])] + rest;
            b + AtHand(rest) == b[..cap] + AtHand(net') && Stop(net') == Stop(rest)
  {
    var net' := [Chunk(b[cap..])] + rest;
    assert net'[1..] == rest;
    assert AtHand(net') == b[cap..] + AtHand(rest);
    Associative(b[..cap], b[cap..], AtHand(rest));
    assert b == b[..cap] + b[cap..];
  }

  // A poll of the stream moves bytes at hand.
  lemma PollAtHand(net: seq<Event>, cap: nat)
    requires Proper(net) && cap > 0 && net != [] && net[0].Chunk?
    ensures PollNet(net, cap).1.Data? && PollNet(net, cap).1.bytes != []
    ensures AtHand(net) == PollNet(net, cap).1.bytes + AtHand(PollNet(net, cap).0)
    ensures Stop(PollNet(net, cap).0) == Stop(net)
  {
    ProperTail(net);
    if |net[0].bytes| > cap {
      PartialAtHand(net[0].bytes, net[1..], cap);
    }
  }

  lemma DecidedAnswers(st: Stream)
    requires Valid(st) && !st.responseDone && !TcpResponse.Parse(st.scratch).NeedMore?
    ensures TcpResponse.Parse(st.scratch + AtHand(st.net)) == TcpResponse.Parse(st.scratch)
    ensures AnswersOn(TcpResponse.Parse(st.scratch), PollEstablish(st).1, Stop(st.net))
  {
    TcpResponse.DecidedIsStable(st.scratch, AtHand(st.net));
  }

  lemma StoppedAnswers(st: Stream)
    requires Valid(st) && !st.responseDone && TcpResponse.Parse(st.scratch).NeedMore?
    requires st.net == [] || !st.net[0].Chunk?
    ensures StopsWith(PollEstablish(st).1, Stop(st.net)) && st.scratch + AtHand(st.net) == st.scratch
  {
  }

  lemma ChunkStep(st: Stream)
    requires Valid(st) && !st.responseDone && TcpResponse.Parse(st.scratch).NeedMore?
    requires PollNet(st.net, 512).1.Data? && PollNet(st.net, 512).1.bytes != []
    ensures PollEstablish(st) ==
              PollEstablish(st.(net := PollNet(st.net, 512).0, scratch := st.scratch + PollNet(st.net, 512).1.bytes))
  {
  }

  /**
   What an establish poll answers, from the events alone: it takes in the bytes at hand.
   If they decide the header, that is the answer.  If not, it is pending exactly if the
   next event is a pending one or there is none yet, a network error exactly if that is
   next, and an early end exactly if the stream ends there.
   */
  lemma {:induction false} EstablishAnswers(st: Stream)
    requires Valid(st) && Proper(st.net) && !st.responseDone
    ensures AnswersOn(TcpResponse.Parse(st.scratch + AtHand(st.net)), PollEstablish(st).1, Stop(st.net))
    decreases Patience(st.scratch)
  {
    if !TcpResponse.Parse(st.scratch).NeedMore? {
      DecidedAnswers(st);
    } else if st.net == [] || !st.net[0].Chunk? {
      StoppedAnswers(st);
    } else {
      NeedMoreIsShort(st.scratch);
      PollNetFlow(st.net, 512);
      PollAtHand(st.net, 512);
      var (net', bytes) := (PollNet(st.net, 512).0, PollNet(st.net, 512).1.bytes);
      ChunkStep(st);
      EstablishAnswers(st.(net := net', scratch := st.scratch + bytes));
      Associative(st.scratch, bytes, AtHand(net'));
    }
  }

  /** Before the header is accepted a read answers like the establish poll. */
  lemma ReadAnswersBefore(st: Stream, cap: nat)
    requires Valid(st) && Proper(st.net) && !st.responseDone && !PollEstablish(st).1.Ready?
    ensures AnswersOn(TcpResponse.Parse(st.scratch + AtHand(st.net)), PollRead(st, cap).1, Stop(st.net))
  {
    EstablishAnswers(st);
  }

  // What a read with room answers once the leftover is drained.
  ghost predicate PassesOn(net: seq<Event>, cap: nat, r: Poll<seq<byte>>) {
    && (r == Later <==> net == [] || net[0] == NotReady)
    && (forall code :: r == Err(Net(code)) <==> net != [] && net[0] == Reset(code))
    && (r == Ready([]) <==> net != [] && net[0] == Fin)
    && (r.Ready? && r.value != [] <==> net != [] && net[0].Chunk?)
    && (r.Ready? && r.value != [] ==> r.value == net[0].bytes[..Min(|net[0].bytes|, cap)])
    && (r.Err? ==> r.error.Net?)
  }

  lemma DrainedAnswers(st: Stream, cap: nat)
    requires Valid(st) && st.responseDone && Proper(st.net) && st.leftoverPos == |st.leftover| && cap > 0
    ensures PassesOn(st.net, cap, PollBody(st, cap).1)
  {
    if st.net != [] {
      ProperTail(st.net);
    }
  }

  lemma BodyAnswers(st: Stream, cap: nat)
    requires Valid(st) && st.responseDone && Proper(st.net)
    ensures var (rest, r) := (st.leftover[st.leftoverPos..], PollBody(st, cap).1);
            if rest != [] then r == Ready(rest[..Min(|rest|, cap)])
            else if cap == 0 then r == Ready([])
            else PassesOn(st.net, cap, r)
  {
    if st.leftoverPos < |st.leftover| {
      var n := Min(|st.leftover| - st.leftoverPos, cap);
      assert st.leftover[st.leftoverPos..st.leftoverPos + n] == st.leftover[st.leftoverPos..][..n];
    } else if cap > 0 {
      DrainedAnswers(st, cap);
    }
  }

  /**
   Behind the header a read first drains what came with it.  Then it is pending exactly if
   the next event is a pending one or there is none yet, fails exactly on a network error,
   and otherwise returns the front of the next chunk, or nothing at the end.
   */
  lemma ReadAnswersBehind(st: Stream, cap: nat)
    requires Valid(st) && Proper(st.net) && PollEstablish(st).1.Ready?
    ensures var (st1, r) := (PollEstablish(st).0, PollRead(st, cap).1);
            var rest := st1.leftover[st1.leftoverPos..];
            if rest != [] then r == Ready(rest[..Min(|rest|, cap)])
            else if cap == 0 then r == Ready([])
            else PassesOn(st1.net, cap, r)
  {
    EstablishProper(st);
    BodyAnswers(PollEstablish(st).0, cap);
  }

  // ---------- eager and lazy ----------

  // What one operation leaves and delivers.
  function After(st: Stream, op: Op): (r: Stream)
    requires Valid(st)
  {
    match op case Establish => PollEstablish(st).0 case Read(cap) => PollRead(st, cap).0
  }

  function Out(st: Stream, op: Op): (s: seq<byte>)
    requires Valid(st)
  {
    match op case Establish => [] case Read(cap) => Got(PollRead(st, cap).1)
  }

  lemma RunSnoc(st: Stream, ops: seq<Op>, op: Op)
    requires Valid(st)
    ensures Run(st, ops + [op]).0 == After(Run(st, ops).0, op)
    ensures Run(st, ops + [op]).1 == Run(st, ops).1 + Out(Run(st, ops).0, op)
  {
    assert (ops + [op])[..|ops|] == ops;
  }

  lemma {:induction false} RunConcat(st: Stream, a: seq<Op>, b: seq<Op>)
    requires Valid(st)
    ensures Run(st, a + b).0 == Run(Run(st, a).0, b).0
    ensures Run(st, a + b).1 == Run(st, a).1 + Run(Run(st, a).0, b).1
  {
    if b == [] {
      assert a + b == a;
    } else {
      var (front, op) := (b[..|b| - 1], b[|b| - 1]);
      RunConcat(st, a, front);
      SplitLast(a, b);
      RunSnoc(st, a + front, op);
      RunSnoc(Run(st, a).0, front, op);
      Associative(Run(st, a).1, Run(Run(st, a).0, front).1, Out(Run(st, a + front).0, op));
    }
  }

  function Establishes(n: nat): (ops: seq<Op>) { if n == 0 then [] else Establishes(n - 1) + [Establish] }

  function Reads(caps: seq<nat>): (ops: seq<Op>) {
    if caps == [] then [] else Reads(caps[..|caps| - 1]) + [Read(caps[|caps| - 1])]
  }

  // While the header is incomplete, waiting for it and reading do the same.
  lemma {:induction false} WaitsAreReads(st: Stream, caps: seq<nat>)
    requires Valid(st) && !Run(st, Establishes(|caps|)).0.responseDone
    ensures Run(st, Reads(caps)) == Run(st, Establishes(|caps|)) && Run(st, Reads(caps)).1 == []
  {
    if caps != [] {
      var (front, cap) := (caps[..|caps| - 1], caps[|caps| - 1]);
      var before := Run(st, Establishes(|front|)).0;
      RunSnoc(st, Establishes(|front|), Establish);
      assert !before.responseDone;
      WaitsAreReads(st, front);
      RunSnoc(st, Reads(front), Read(cap));
      assert !PollEstablish(before).1.Ready?;
      assert [] + Got(PollRead(before, cap).1) == [];
    }
  }

  /**
   Waiting for the header first, over any number of polls, and reading then is the same
   as reading at once: same state and same bytes, whatever the caller does afterwards.
   */
  lemma EagerEqualsLazy(st: Stream, caps: seq<nat>, cap: nat, rest: seq<Op>)
    requires Valid(st)
    requires !Run(st, Establishes(|caps|)).0.responseDone && Run(st, Establishes(|caps| + 1)).0.responseDone
    ensures Run(st, Establishes(|caps| + 1) + [Read(cap)] + rest) == Run(st, Reads(caps) + [Read(cap)] + rest)
  {
    var waits := Establishes(|caps|);
    var before := Run(st, waits).0;
    WaitsAreReads(st, caps);
    RunSnoc(st, waits, Establish);
    assert PollRead(PollEstablish(before).0, cap) == PollRead(before, cap);
    RunSnoc(st, waits + [Establish], Read(cap));
    RunSnoc(st, Reads(caps), Read(cap));
    RunConcat(st, waits + [Establish] + [Read(cap)], rest);
    RunConcat(st, Reads(caps) + [Read(cap)], rest);
  }

  // ---------- progress ----------

  // Work left in the network: every byte counts twice, every idle event once.
  function Weight(net: seq<Event>): (w: nat) {
    if net == [] then 0
    else
      match net[0]
      case Fin => 0
      case Chunk(b) => 2 * |b| + Weight(net[1..])
      case _ => 1 + Weight(net[1..])
  }

  function Work(st: Stream): (w: int) { Weight(st.net) + |st.scratch| + |st.leftover| - st.leftoverPos }

  lemma PollNetWork(net: seq<Event>, cap: nat)
    requires Proper(net) && Fin in net && cap > 0
    ensures var (net', r) := PollNet(net, cap);
            && Fin in net'
            && (if r.Data? then Weight(net') + 2 * |r.bytes| <= Weight(net) else Weight(net') < Weight(net))
  {
    assert net == [net[0]] + net[1..];
    if net[0].Chunk? && |net[0].bytes| > cap {
      var net' := [Chunk(net[0].bytes[cap..])] + net[1..];
      assert net'[1..] == net[1..];
    }
  }

  lemma {:induction false} EstablishWork(st: Stream)
    requires Valid(st) && Proper(st.net) && Fin in st.net
    ensures var (st', r) := PollEstablish(st);
            && Fin in st'.net && Work(st') <= Work(st)
            && (r.Later? || (r.Err? && r.error.Net?) ==> Work(st') < Work(st))
    decreases Patience(st.scratch)
  {
    if !st.responseDone && TcpResponse.Parse(st.scratch).NeedMore? {
      NeedMoreIsShort(st.scratch);
      PollNetFlow(st.net, 512);
      PollNetWork(st.net, 512);
      var (net', p) := PollNet(st.net, 512);
      if p.Data? && p.bytes != [] {
        EstablishWork(st.(net := net', scratch := st.scratch + p.bytes));
      }
    }
  }

  // What an establish poll must answer in the end, from the bytes alone.
  function VerdictOn(all: seq<byte>): (r: Poll<()>) {
    match TcpResponse.Parse(all)
    case Done(ok, _) => if ok then Ready(()) else Err(ConnectionRefused)
    case Invalid => Err(InvalidData)
    case NeedMore => Err(UnexpectedEof)
  }

  predicate IsVerdict(r: Poll<()>) { r.Ready? || (r.Err? && !r.error.Net?) }

  lemma {:induction false} VerdictStays(st: Stream)
    requires Valid(st) && Proper(st.net) && IsVerdict(PollEstablish(st).1)
    ensures PollEstablish(PollEstablish(st).0) == PollEstablish(st)
    decreases Patience(st.scratch)
  {
    if !st.responseDone && TcpResponse.Parse(st.scratch).NeedMore? {
      NeedMoreIsShort(st.scratch);
      PollNetFlow(st.net, 512);
      var (net', p) := PollNet(st.net, 512);
      if p.Data? && p.bytes != [] {
        VerdictStays(st.(net := net', scratch := st.scratch + p.bytes));
      }
    }
  }

  lemma VerdictIs(all: seq<byte>, st: Stream, delivered: seq<byte>)
    requires Accounts(all, st, delivered) && IsVerdict(PollEstablish(st).1)
    ensures PollEstablish(st).1 == VerdictOn(all)
  {
    EstablishAccounts(all, st, delivered);
    var (st', r) := PollEstablish(st);
    if r.Ready? {
      assert st'.responseDone && r.value == ();
    } else {
      assert Explains(all, st', r.error);
    }
  }

  // The state an operation leaves, seen from the header phase.
  lemma OpKeepsVerdict(st: Stream, cap: nat)
    requires Valid(st) && Proper(st.net) && IsVerdict(PollEstablish(st).1)
    ensures IsVerdict(PollEstablish(PollEstablish(st).0).1) && IsVerdict(PollEstablish(PollRead(st, cap).0).1)
  {
    VerdictStays(st);
  }

  lemma NewWork(net: seq<Event>)
    ensures Run(New(net), []).0 == New(net) && Work(New(net)) == Weight(net)
  {
  }

  lemma {:induction false} VerdictOrWork(net: seq<Event>, ops: seq<Op>)
    requires Proper(net) && Fin in net
    ensures Fin in Run(New(net), ops).0.net
    ensures IsVerdict(PollEstablish(Run(New(net), ops).0).1) || Work(Run(New(net), ops).0) + |ops| <= Weight(net)
  {
    if ops != [] {
      var (before, op) := (ops[..|ops| - 1], ops[|ops| - 1]);
      SplitLast([], ops);
      VerdictOrWork(net, before);
      RunAccounts(net, before);
      RunSnoc(New(net), before, op);
      OpProgresses(Run(New(net), before).0, op);
    } else {
      NewWork(net);
    }
  }

  /**
   The verdict is reached: once a stream that ends has been polled often enough, in
   whatever way, an establish poll answers from the bytes alone: ready, refused,
   malformed, or ended too early.
   */
  lemma VerdictIsReached(net: seq<Event>, ops: seq<Op>)
    requires Proper(net) && Fin in net && |ops| > Weight(net)
    ensures PollEstablish(Run(New(net), ops).0).1 == VerdictOn(Flow(net))
  {
    RunAccounts(net, ops);
    VerdictOrWork(net, ops);
    VerdictIs(Flow(net), Run(New(net), ops).0, Run(New(net), ops).1);
  }

  lemma OpProgresses(st: Stream, op: Op)
    requires Valid(st) && Proper(st.net) && Fin in st.net
    ensures Fin in After(st, op).net
    ensures if IsVerdict(PollEstablish(st).1) then IsVerdict(PollEstablish(After(st, op)).1) else Work(After(st, op)) < Work(st)
  {
    EstablishWork(st);
    EstablishProper(st);
    if PollEstablish(st).1.Ready? && op.Read? {
      BodyKeepsFin(PollEstablish(st).0, op.cap);
    }
    if IsVerdict(PollEstablish(st).1) {
      OpKeepsVerdict(st, if op.Read? then op.cap else 0);
    }
  }

  lemma {:induction false} EstablishProper(st: Stream)
    requires Valid(st) && Proper(st.net)
    ensures Proper(PollEstablish(st).0.net)
    decreases Patience(st.scratch)
  {
    if !st.responseDone && TcpResponse.Parse(st.scratch).NeedMore? {
      NeedMoreIsShort(st.scratch);
      PollNetFlow(st.net, 512);
      var (net', p) := PollNet(st.net, 512);
      if p.Data? && p.bytes != [] {
        EstablishProper(st.(net := net', scratch := st.scratch + p.bytes));
      }
    }
  }

  lemma BodyKeepsFin(st: Stream, cap: nat)
    requires Valid(st) && st.responseDone && Proper(st.net) && Fin in st.net
    ensures Fin in PollBody(st, cap).0.net && Work(PollBody(st, cap).0) <= Work(st)
  {
    if st.leftoverPos == |st.leftover| && cap > 0 {
      PollNetWork(st.net, cap);
    }
  }

  lemma BodyWork(st: Stream, cap: nat)
    requires Valid(st) && st.responseDone && Proper(st.net) && Fin in st.net && cap > 0
    ensures var (st', r) := PollBody(st, cap);
            Fin in st'.net && (r == Ready([]) || Work(st') < Work(st))
  {
    if st.leftoverPos == |st.leftover| {
      PollNetWork(st.net, cap);
    }
  }

  // How much nearer the end an operation must bring an accepted stream.
  function Effort(op: Op): (n: nat) { if op.Read? && op.cap > 0 then 1 else 0 }

  function NonEmptyReads(ops: seq<Op>): (n: nat) {
    if ops == [] then 0 else NonEmptyReads(ops[..|ops| - 1]) + Effort(ops[|ops| - 1])
  }

  // The stream ends, and there are more non-empty reads than work in it.
  predicate Enough(net: seq<Event>, ops: seq<Op>) { Fin in net && NonEmptyReads(ops) > Weight(net) }

  // Every non-empty read of an accepted, ended stream makes progress until everything
  // is delivered, and no operation undoes any.
  lemma OpWork(all: seq<byte>, st: Stream, delivered: seq<byte>, op: Op)
    requires Accounts(all, st, delivered) && Fin in st.net
    requires TcpResponse.Parse(all).Done? && TcpResponse.Parse(all).ok
    ensures Fin in After(st, op).net
    ensures || Work(After(st, op)) + Effort(op) <= Work(st)
            || (op.Read? && op.cap > 0 && PollRead(st, op.cap).1 == Ready([]))
  {
    EstablishAccounts(all, st, delivered);
    EstablishWork(st);
    var (st1, e) := PollEstablish(st);
    if op.Read? && e.Ready? {
      BodyKeepsFin(st1, op.cap);
      if op.cap > 0 {
        BodyWork(st1, op.cap);
      }
    }
  }

  lemma {:induction false} WorkIsDone(net: seq<Event>, ops: seq<Op>)
    requires Proper(net) && Fin in net
    requires TcpResponse.Parse(Flow(net)).Done? && TcpResponse.Parse(Flow(net)).ok
    ensures Fin in Run(New(net), ops).0.net
    ensures || Run(New(net), ops).1 == AppBytes(Flow(net))
            || Work(Run(New(net), ops).0) + NonEmptyReads(ops) <= Weight(net)
  {
    if ops != [] {
      var (before, op) := (ops[..|ops| - 1], ops[|ops| - 1]);
      WorkIsDone(net, before);
      var (st, got) := Run(New(net), before);
      RunAccounts(net, before);
      OpWork(Flow(net), st, got, op);
      DeliveredIsPrefix(net, ops);
      if op.Read? && op.cap > 0 && PollRead(st, op.cap).1 == Ready([]) {
        NoFalseEof(net, before, op.cap);
        assert got + [] == got;
      }
    }
  }

  /**
   Total correctness: if the stream ends, any run with enough non-empty reads has
   delivered exactly the application bytes, whatever establish polls and empty reads
   lie between them.
   */
  lemma EverythingArrives(net: seq<Event>, ops: seq<Op>)
    requires Proper(net) && Enough(net, ops)
    ensures Run(New(net), ops).1 == AppBytes(Flow(net))
  {
    RunAccounts(net, ops);
    DeliveredIsPrefix(net, ops);
    if TcpResponse.Parse(Flow(net)).Done? && TcpResponse.Parse(Flow(net)).ok {
      WorkIsDone(net, ops);
    }
  }
}
