/** The objects behind the sessions: channels, the session manager, and a session's `send` and `recv`. */
module UdpSessions {
  import opened Bytes
  import opened UdpMessages
  import Varint
  import opened Fragmentation
  import opened Defragmentation
  import opened EndToEnd
  import Sessions

  const MAX_UDP_SIZE := 4096
  const MAX_DATAGRAM_FRAME_SIZE := 1200

  class Channel {
    var queue: seq<UdpMessage>
    var hasSender: bool

    constructor ()
      ensures queue == [] && hasSender
    {
      queue, hasSender := [], true;
    }

    method TrySend(m: UdpMessage)
      modifies this`queue
      ensures queue == Sessions.TrySend(old(queue), m)
    {
      if |queue| < Sessions.SESSION_CHAN_SIZE {
        queue := queue + [m];
      }
    }
  }

  // What a channel holds at one moment.
  datatype Link = Link(queue: seq<UdpMessage>, hasSender: bool)

  ghost function Links(chans: map<nat, Channel>): (links: map<nat, Link>)
    reads chans.Values
  {
    map k <- chans :: Link(chans[k].queue, chans[k].hasSender)
  }

  // The senders registered in `sessions` are those of system state `s`, in which
  // session `k` reads from `chans[k]`.
  ghost predicate Registers(s: Sessions.System, chans: map<nat, Channel>, sessions: map<u32, Channel>) {
    && sessions.Keys == s.routes.Keys
    && forall id <- sessions :: Routes(s, id) in chans && sessions[id] == chans[Routes(s, id)]
  }

  ghost predicate Distinct(chans: map<nat, Channel>) {
    forall j, k | j in chans && k in chans && j != k :: chans[j] != chans[k]
  }

  // The session that `id` leads to.
  function Routes(s: Sessions.System, id: u32): (k: nat) { if id in s.routes then s.routes[id] else s.total }

  // What the state says of the channels; routes lead to sessions of that id.
  ghost predicate Reads(s: Sessions.System, links: map<nat, Link>) {
    && s.live.Keys == links.Keys
    && (forall k <- links :: Agrees(s, k, links[k]))
    && (forall id <- s.routes :: Sessions.IdOf(Routes(s, id)) == id)
  }

  ghost predicate Agrees(s: Sessions.System, k: nat, link: Link) {
    k in s.live && k < s.total && link == Link(s.live[k].queue, Sessions.HasSender(s, k))
  }

  // `k`'s channel is the one registered for `id`.
  ghost predicate Fed(chans: map<nat, Channel>, sessions: map<u32, Channel>, id: u32, k: nat)
    requires k in chans
  {
    id in sessions && sessions[id] == chans[k]
  }

  lemma FedIffRouted(s: Sessions.System, chans: map<nat, Channel>, sessions: map<u32, Channel>, id: u32, k: nat)
    requires Registers(s, chans, sessions) && Distinct(chans) && k in chans && k < s.total
    ensures Fed(chans, sessions, id, k) <==> Routes(s, id) == k
  {
  }

  lemma OpenRegisters(s: Sessions.System, chans: map<nat, Channel>, sessions: map<u32, Channel>, ch: Channel)
    requires s.manager && Registers(s, chans, sessions) && s.total !in chans
    ensures Registers(Sessions.Apply(s, Sessions.Open), chans[s.total := ch], sessions[Sessions.IdOf(s.total) := ch])
  {
  }

  function Unfed(link: Link, fed: bool): (r: Link) { if fed then link.(hasSender := false) else link }

  lemma OpenAgrees(s: Sessions.System, k: nat, link: Link)
    requires s.manager && Agrees(s, k, link)
    requires forall id <- s.routes :: Sessions.IdOf(Routes(s, id)) == id
    ensures Agrees(Sessions.Apply(s, Sessions.Open), k, Unfed(link, Routes(s, Sessions.IdOf(s.total)) == k))
  {
  }

  // The displaced channel, if any, loses its sender.
  lemma OpenReads(s: Sessions.System, links: map<nat, Link>, links': map<nat, Link>)
    requires s.manager && Reads(s, links)
    requires links'.Keys == links.Keys + {s.total} && links'[s.total] == Link([], true)
    requires forall k <- links :: links'[k] == Unfed(links[k], Routes(s, Sessions.IdOf(s.total)) == k)
    ensures Reads(Sessions.Apply(s, Sessions.Open), links')
  {
    var s' := Sessions.Apply(s, Sessions.Open);
    forall k <- links'
      ensures Agrees(s', k, links'[k])
    {
      if k in links {
        OpenAgrees(s, k, links[k]);
      }
    }
  }

  lemma DispatchReads(s: Sessions.System, m: UdpMessage, links: map<nat, Link>, links': map<nat, Link>)
    requires Reads(s, links) && links'.Keys == links.Keys
    requires forall k <- links ::
               links'[k] == if Routes(s, m.sessionId) == k then Link(Sessions.TrySend(links[k].queue, m), links[k].hasSender) else links[k]
    ensures Reads(Sessions.Dispatch(s, m), links')
  {
    forall k <- links'
      ensures Agrees(Sessions.Dispatch(s, m), k, links'[k])
    {
      assert Agrees(s, k, links[k]);
    }
  }

  lemma DropRegisters(s: Sessions.System, chans: map<nat, Channel>, sessions: map<u32, Channel>, k: nat)
    requires s.manager && k in s.live && Registers(s, chans, sessions)
    requires forall id <- s.routes :: Sessions.IdOf(Routes(s, id)) == id
    ensures Registers(Sessions.Apply(s, Sessions.Drop(k)), chans - {k}, sessions - {Sessions.IdOf(k)})
  {
  }

  lemma DropAgrees(s: Sessions.System, k: nat, j: nat, link: Link)
    requires s.manager && k in s.live && Agrees(s, j, link) && j != k
    requires forall id <- s.routes :: Sessions.IdOf(Routes(s, id)) == id
    ensures Agrees(Sessions.Apply(s, Sessions.Drop(k)), j, Unfed(link, Routes(s, Sessions.IdOf(k)) == j))
  {
  }

  lemma DropReads(s: Sessions.System, k: nat, links: map<nat, Link>, links': map<nat, Link>)
    requires s.manager && k in s.live && Reads(s, links) && links'.Keys == links.Keys - {k}
    requires forall j <- links' :: links'[j] == Unfed(links[j], Routes(s, Sessions.IdOf(k)) == j)
    ensures Reads(Sessions.Apply(s, Sessions.Drop(k)), links')
  {
    forall j <- links'
      ensures Agrees(Sessions.Apply(s, Sessions.Drop(k)), j, links'[j])
    {
      DropAgrees(s, k, j, links[j]);
    }
  }

  // A manager with these fields is that of system state `s`.
  ghost predicate Wired(s: Sessions.System, nextId: u32, sessions: map<u32, Channel>, chans: map<nat, Channel>) {
    && s.manager && nextId == Sessions.IdOf(s.total) && chans.Keys == s.live.Keys
    && Registers(s, chans, sessions) && Distinct(chans)
  }

  lemma AllFedIffRouted(s: Sessions.System, nextId: u32, sessions: map<u32, Channel>, chans: map<nat, Channel>, links: map<nat, Link>, id: u32)
    requires Wired(s, nextId, sessions, chans) && Reads(s, links)
    ensures forall k <- chans :: Fed(chans, sessions, id, k) <==> Routes(s, id) == k
  {
    forall k <- chans
      ensures Fed(chans, sessions, id, k) <==> Routes(s, id) == k
    {
      assert Agrees(s, k, links[k]);
      FedIffRouted(s, chans, sessions, id, k);
    }
  }

  lemma DistinctExtends(chans: map<nat, Channel>, k: nat, ch: Channel)
    requires Distinct(chans) && ch !in chans.Values && k !in chans
    ensures Distinct(chans[k := ch])
  {
    assert forall j <- chans :: chans[j] in chans.Values;
  }

  lemma NextIsUnused(s: Sessions.System, links: map<nat, Link>)
    requires Reads(s, links)
    ensures s.total !in s.live
  {
    assert s.total in links ==> Agrees(s, s.total, links[s.total]);
  }

  lemma NextId(k: nat)
    ensures (Sessions.IdOf(k) + 1) % Sessions.WRAP == Sessions.IdOf(k + 1)
  {
  }

  lemma OpenWired(s: Sessions.System, sessions: map<u32, Channel>, chans: map<nat, Channel>, ch: Channel)
    requires Wired(s, Sessions.IdOf(s.total), sessions, chans) && ch !in chans.Values && s.total !in chans
    ensures Wired(Sessions.Apply(s, Sessions.Open), (Sessions.IdOf(s.total) + 1) % Sessions.WRAP,
                  sessions[Sessions.IdOf(s.total) := ch], chans[s.total := ch])
  {
    NextId(s.total);
    OpenRegisters(s, chans, sessions, ch);
    DistinctExtends(chans, s.total, ch);
  }

  // The heap after an opening, against the channels' contents before it.
  lemma OpenLinks(s: Sessions.System, sessions: map<u32, Channel>, chans: map<nat, Channel>, ch: Channel, links: map<nat, Link>)
    requires Wired(s, Sessions.IdOf(s.total), sessions, chans) && Reads(s, links)
    requires ch.queue == [] && ch.hasSender
    requires forall k <- chans ::
               Link(chans[k].queue, chans[k].hasSender) == Unfed(links[k], Fed(chans, sessions, Sessions.IdOf(s.total), k))
    ensures s.total !in chans && Reads(Sessions.Apply(s, Sessions.Open), Links(chans[s.total := ch]))
  {
    AllFedIffRouted(s, Sessions.IdOf(s.total), sessions, chans, links, Sessions.IdOf(s.total));
    NextIsUnused(s, links);
    OpenReads(s, links, Links(chans[s.total := ch]));
  }

  class SessionManager {
    var sessions: map<u32, Channel>
    var nextId: u32

    // This object is the manager of system state `s`.
    ghost predicate Shows(s: Sessions.System, chans: map<nat, Channel>)
      reads this, chans.Values
    {
      Wired(s, nextId, sessions, chans) && Reads(s, Links(chans))
    }

    constructor ()
      ensures Shows(Sessions.INITIAL, map[])
      ensures sessions == map[] && nextId == 1
    {
      sessions, nextId := map[], 1;
    }

    /** Opens a session under the next id; a channel already registered there loses its sender. */
    method NewSession(ghost s: Sessions.System, ghost chans: map<nat, Channel>) returns (r: UdpSession)
      modifies this, if nextId in sessions then {sessions[nextId]} else {}
      ensures fresh(r) && fresh(r.rx) && fresh(r.defrag)
      ensures r.id == old(nextId) && r.rx.queue == [] && r.rx.hasSender && r.defrag.State() == EMPTY
      ensures sessions == old(sessions)[old(nextId) := r.rx] && nextId == (old(nextId) + 1) % 0x1_0000_0000
      ensures old(nextId) in old(sessions) ==>
                !old(sessions)[old(nextId)].hasSender && old(sessions)[old(nextId)].queue == old(sessions[nextId].queue)
      ensures old(Shows(s, chans)) ==> Shows(Sessions.Apply(s, Sessions.Open), chans[s.total := r.rx])
    {
      var id := nextId;
      var ch := Register(s, chans);
      r := new UdpSession(id, ch);
      assert old(Shows(s, chans)) ==> chans.Keys == s.live.Keys;
    }

    // Inserts the sender of a new channel under the next id; the sender it replaces is dropped.
    method Register(ghost s: Sessions.System, ghost chans: map<nat, Channel>) returns (ch: Channel)
      modifies this, if nextId in sessions then {sessions[nextId]} else {}
      ensures fresh(ch) && ch.queue == [] && ch.hasSender
      ensures sessions == old(sessions)[old(nextId) := ch] && nextId == (old(nextId) + 1) % 0x1_0000_0000
      ensures old(nextId) in old(sessions) ==>
                !old(sessions)[old(nextId)].hasSender && old(sessions)[old(nextId)].queue == old(sessions[nextId].queue)
      ensures old(Shows(s, chans)) ==> Shows(Sessions.Apply(s, Sessions.Open), chans[s.total := ch])
    {
      ghost var (links, registered) := (Links(chans), sessions);
      ch := new Channel();
      if nextId in sessions {
        sessions[nextId].hasSender := false;
      }
      sessions := sessions[nextId := ch];
      nextId := (nextId + 1) % Sessions.WRAP;
      if old(Shows(s, chans)) {
        assert ch !in chans.Values;
        OpenShows(s, registered, chans, ch, links);
      }
    }

    // The heap after an opening, against the fields and the channels' contents before it.
    lemma OpenShows(s: Sessions.System, registered: map<u32, Channel>, chans: map<nat, Channel>, ch: Channel, links: map<nat, Link>)
      requires Wired(s, Sessions.IdOf(s.total), registered, chans) && Reads(s, links) && ch !in chans.Values
      requires ch.queue == [] && ch.hasSender && sessions == registered[Sessions.IdOf(s.total) := ch]
      requires nextId == (Sessions.IdOf(s.total) + 1) % Sessions.WRAP
      requires forall k <- chans ::
                 Link(chans[k].queue, chans[k].hasSender) == Unfed(links[k], Fed(chans, registered, Sessions.IdOf(s.total), k))
      ensures Shows(Sessions.Apply(s, Sessions.Open), chans[s.total := ch])
    {
      OpenLinks(s, registered, chans, ch, links);
      OpenWired(s, registered, chans, ch);
    }

    /** Routes by session id; a full queue or an unknown id drops the message. */
    method Dispatch(m: UdpMessage, ghost s: Sessions.System, ghost chans: map<nat, Channel>)
      modifies if m.sessionId in sessions then {sessions[m.sessionId]} else {}
      ensures m.sessionId in sessions ==>
                sessions[m.sessionId].queue == Sessions.TrySend(old(sessions[m.sessionId].queue), m)
      ensures forall id <- sessions :: sessions[id].hasSender == old(sessions[id].hasSender)
      ensures forall id <- sessions | m.sessionId !in sessions || sessions[id] != sessions[m.sessionId] ::
                sessions[id].queue == old(sessions[id].queue)
      ensures old(Shows(s, chans)) ==> Shows(Sessions.Dispatch(s, m), chans)
    {
      if m.sessionId in sessions {
        sessions[m.sessionId].TrySend(m);
      }
      if old(Shows(s, chans)) {
        AllFedIffRouted(s, nextId, sessions, chans, old(Links(chans)), m.sessionId);
        DispatchReads(s, m, old(Links(chans)), Links(chans));
      }
    }

    /** Called when session `k` of the system ends. */
    method Remove(id: u32, ghost s: Sessions.System, ghost chans: map<nat, Channel>, ghost k: nat)
      modifies this`sessions, if id in sessions then {sessions[id]} else {}
      ensures sessions == old(sessions) - {id}
      ensures id in old(sessions) ==>
                !old(sessions)[id].hasSender && old(sessions)[id].queue == old(sessions[id].queue)
      ensures old(Shows(s, chans)) && k in chans && id == Sessions.IdOf(k) ==>
                Shows(Sessions.Apply(s, Sessions.Drop(k)), chans - {k})
    {
      if id in sessions {
        sessions[id].hasSender := false;
      }
      sessions := sessions - {id};
      if old(Shows(s, chans)) && k in chans && id == Sessions.IdOf(k) {
        AllFedIffRouted(s, nextId, old(sessions), chans, old(Links(chans)), id);
        DropRegisters(s, chans, old(sessions), k);
        DropReads(s, k, old(Links(chans)), Links(chans - {k}));
      }
    }
  }

  // ---------- receiving ----------

  datatype Received = Got(data: seq<byte>, addr: seq<byte>) | Waits | Closed

  // The `recv` loop on a queue: the rest of the queue, the table, and the first completed message.
  function Pull(queue: seq<UdpMessage>, t: Table): (r: (seq<UdpMessage>, Table, Option<UdpMessage>)) {
    if queue == [] then (queue, t, None)
    else
      var fed := FeedStep(t, queue[0]);
      if fed.1.Some? then (queue[1..], fed.0, fed.1) else Pull(queue[1..], fed.0)
  }

  function TakeMany(s: Sessions.Session, n: nat): (r: Sessions.Session)
    decreases n
  {
    if n == 0 then s else TakeMany(Sessions.TakeOne(s), n - 1)
  }

  /** A `recv` call is some number of atomic takes, of which only the last returns anything. */
  lemma {:induction false} PullIsTakes(s: Sessions.Session) returns (n: nat)
    ensures var (queue, t, out) := Pull(s.queue, s.defrag);
            var r := TakeMany(s, n);
            && r.queue == queue && r.defrag == t && n == |s.queue| - |queue|
            && r.taken == s.taken + s.queue[..n]
            && r.returned == s.returned + if out.Some? then [out.value] else []
    decreases |s.queue|
  {
    if s.queue == [] {
      n := 0;
    } else {
      var next := Sessions.TakeOne(s);
      var fed := FeedStep(s.defrag, s.queue[0]);
      if fed.1.Some? {
        n := 1;
        assert TakeMany(s, 1) == TakeMany(next, 0);
      } else {
        var k := PullIsTakes(next);
        n := k + 1;
        assert s.queue[..n] == [s.queue[0]] + s.queue[1..][..k];
      }
    }
  }

  // The steps of the system that one `recv` call of session `k` amounts to.
  function RecvMany(s: Sessions.System, k: nat, n: nat): (r: Sessions.System)
    decreases n
  {
    if n == 0 then s else RecvMany(Sessions.Apply(s, Sessions.Recv(k)), k, n - 1)
  }

  lemma {:induction false} RecvManyIs(s: Sessions.System, k: nat, n: nat)
    requires k in s.live
    ensures RecvMany(s, k, n) == s.(live := s.live[k := TakeMany(s.live[k], n)])
    decreases n
  {
    if n == 0 {
      assert s.live[k := s.live[k]] == s.live;
    } else {
      var s' := Sessions.Apply(s, Sessions.Recv(k));
      RecvManyIs(s', k, n - 1);
      assert s'.live[k := TakeMany(s'.live[k], n - 1)] == s.live[k := TakeMany(s.live[k], n)];
    }
  }

  lemma RecvReads(s: Sessions.System, k: nat, x: Sessions.Session, links: map<nat, Link>, links': map<nat, Link>)
    requires Reads(s, links) && k in s.live && links' == links[k := links[k].(queue := x.queue)]
    ensures Reads(s.(live := s.live[k := x]), links')
  {
    var s' := s.(live := s.live[k := x]);
    forall j <- links'
      ensures Agrees(s', j, links'[j])
    {
      assert Agrees(s, j, links[j]);
    }
  }

  lemma {:induction false} PullShortens(queue: seq<UdpMessage>, t: Table)
    ensures |Pull(queue, t).0| <= |queue|
  {
    if queue != [] {
      PullShortens(queue[1..], FeedStep(t, queue[0]).0);
    }
  }

  // The channels after a `recv` call of session `k` against those before it.
  lemma RecvLinks(s: Sessions.System, k: nat, links: map<nat, Link>, t: Table, n: nat)
    requires Reads(s, links) && k in s.live && s.live[k].defrag == t && n == |links[k].queue| - |Pull(links[k].queue, t).0|
    ensures Reads(RecvMany(s, k, n), links[k := links[k].(queue := Pull(links[k].queue, t).0)])
    ensures k in RecvMany(s, k, n).live && RecvMany(s, k, n).live[k].defrag == Pull(links[k].queue, t).1
  {
    assert Agrees(s, k, links[k]);
    var n' := PullIsTakes(s.live[k]);
    RecvManyIs(s, k, n);
    RecvReads(s, k, TakeMany(s.live[k], n), links, links[k := links[k].(queue := Pull(links[k].queue, t).0)]);
  }

  lemma RecvWired(s: Sessions.System, k: nat, n: nat, nextId: u32, sessions: map<u32, Channel>, chans: map<nat, Channel>)
    requires Wired(s, nextId, sessions, chans) && k in s.live
    ensures Wired(RecvMany(s, k, n), nextId, sessions, chans)
  {
    RecvManyIs(s, k, n);
    var s' := RecvMany(s, k, n);
    assert forall id <- sessions :: Routes(s', id) == Routes(s, id);
  }

  // The heap after the call against the channels' contents before it.
  lemma RecvShows(mgr: SessionManager, s: Sessions.System, chans: map<nat, Channel>, k: nat, links: map<nat, Link>, t: Table, n: nat)
    requires Wired(s, mgr.nextId, mgr.sessions, chans) && Reads(s, links) && k in chans && s.live[k].defrag == t
    requires n == |links[k].queue| - |Pull(links[k].queue, t).0|
    requires forall j <- chans ::
               Link(chans[j].queue, chans[j].hasSender) ==
                 if j == k then Link(Pull(links[k].queue, t).0, links[k].hasSender) else links[j]
    ensures mgr.Shows(RecvMany(s, k, n), chans)
    ensures k in RecvMany(s, k, n).live && RecvMany(s, k, n).live[k].defrag == Pull(links[k].queue, t).1
  {
    assert Links(chans) == links[k := links[k].(queue := Pull(links[k].queue, t).0)];
    RecvLinks(s, k, links, t, n);
    RecvWired(s, k, n, mgr.nextId, mgr.sessions, chans);
  }

  // ---------- sending ----------

  // A message as `send` builds it, and the datagrams that carry it under `limit`.
  function Outgoing(id: u32, addr: Str, data: seq<byte>): (m: UdpMessage) { UdpMessage(id, 0, 0, 1, addr, data) }

  function EncodeAll(ms: seq<UdpMessage>): (ds: seq<seq<byte>>)
    ensures |ds| == |ms| && forall i | 0 <= i < |ms| :: ds[i] == Encode(ms[i])
  {
    seq(|ms|, i requires 0 <= i < |ms| => Encode(ms[i]))
  }

  function Wire(m: UdpMessage, limit: nat, packetId: u16): (ds: seq<seq<byte>>) {
    if Size(m) <= limit then [Encode(m)] else EncodeAll(Fragments(m.(packetId := packetId), limit))
  }

  // The connection as a caller finds it at one moment: broken for some reason, and
  // the largest datagram it takes, if it takes any.
  datatype Path = Path(fault: Option<int>, limit: Option<nat>)

  datatype Answer = Accepted | TooLarge | Failed

  function AnswerTo(p: Path, size: nat): (a: Answer) {
    if p.fault.Some? || p.limit == None then Failed else if size > p.limit.value then TooLarge else Accepted
  }

  // The connection's datagram channel; `path` is what it is like at each of the moments it is used.
  class Connection {
    const path: nat -> Path
    var moment: nat
    var sent: seq<seq<byte>>

    constructor (path: nat -> Path)
      ensures this.path == path && moment == 0 && sent == []
    {
      this.path, moment, sent := path, 0, [];
    }

    method SendDatagram(d: seq<byte>) returns (a: Answer)
      modifies this
      ensures a == AnswerTo(path(old(moment)), |d|) && moment == old(moment) + 1
      ensures sent == if a == Accepted then old(sent) + [d] else old(sent)
    {
      a := AnswerTo(path(moment), |d|);
      moment := moment + 1;
      if a == Accepted {
        sent := sent + [d];
      }
    }

    method MaxDatagramSize() returns (n: Option<nat>)
      modifies this`moment
      ensures n == path(old(moment)).limit && moment == old(moment) + 1
    {
      n := path(moment).limit;
      moment := moment + 1;
    }
  }

  predicate Takes(path: nat -> Path, n: nat, d: seq<byte>) { AnswerTo(path(n), |d|) == Accepted }

  // How many of `ds` are accepted, from the `k`-th on, before one is not.
  function FirstRefused(path: nat -> Path, now: nat, ds: seq<seq<byte>>, k: nat): (n: nat)
    requires k <= |ds|
    ensures k <= n <= |ds|
    decreases |ds| - k
  {
    if k < |ds| && Takes(path, now + k, ds[k]) then FirstRefused(path, now, ds, k + 1) else k
  }

  lemma {:induction false} FirstRefusedIs(path: nat -> Path, now: nat, ds: seq<seq<byte>>, k: nat)
    requires k <= |ds|
    ensures var n := FirstRefused(path, now, ds, k);
            && (forall i | k <= i < n :: Takes(path, now + i, ds[i]))
            && (n < |ds| ==> !Takes(path, now + n, ds[n]))
    decreases |ds| - k
  {
    if k < |ds| && Takes(path, now + k, ds[k]) {
      FirstRefusedIs(path, now, ds, k + 1);
    }
  }

  // What a `send` that starts at `now` puts on the wire, and whether it succeeds.
  datatype Transmission = Transmission(sent: seq<seq<byte>>, ok: bool)

  function Transmit(path: nat -> Path, now: nat, m: UdpMessage, packetId: u16): (r: Transmission) {
    match AnswerTo(path(now), Size(m))
    case Accepted => Transmission([Encode(m)], true)
    case Failed => Transmission([], false)
    case TooLarge =>
      var limit := if path(now + 1).limit.Some? then path(now + 1).limit.value else MAX_DATAGRAM_FRAME_SIZE;
      var ds := EncodeAll(Fragments(m.(packetId := packetId), limit));
      var n := FirstRefused(path, now + 2, ds, 0);
      Transmission(ds[..n], n == |ds|)
  }

  class UdpSession {
    const id: u32
    const rx: Channel
    const defrag: Defragger

    constructor (id: u32, rx: Channel)
      ensures this.id == id && this.rx == rx && fresh(defrag) && defrag.State() == EMPTY
    {
      this.id, this.rx := id, rx;
      defrag := new Defragger();
    }

    // `mgr`, `s`, `chans` and `k` say which session of the system this is; `n` counts the messages taken.
    method Recv(ghost mgr: SessionManager, ghost s: Sessions.System, ghost chans: map<nat, Channel>, ghost k: nat)
      returns (r: Received, ghost n: nat)
      modifies rx`queue, defrag
      ensures (rx.queue, defrag.State()) == (Pull(old(rx.queue), old(defrag.State())).0, Pull(old(rx.queue), old(defrag.State())).1)
      ensures var out := Pull(old(rx.queue), old(defrag.State())).2;
              r == if out.Some? then Got(out.value.data, out.value.addr) else if rx.hasSender then Waits else Closed
      ensures n == |old(rx.queue)| - |rx.queue|
      ensures old(mgr.Shows(s, chans)) && k in chans && rx == chans[k] && s.live[k].defrag == old(defrag.State()) ==>
                mgr.Shows(RecvMany(s, k, n), chans) && RecvMany(s, k, n).live[k].defrag == defrag.State()
    {
      ghost var (links, t, queue) := (Links(chans), defrag.State(), rx.queue);
      PullShortens(queue, t);
      r := RecvLoop();
      n := |queue| - |rx.queue|;
      if old(mgr.Shows(s, chans)) && k in chans && rx == chans[k] && s.live[k].defrag == t {
        RecvShows(mgr, s, chans, k, links, t, n);
      }
    }

    // The loop itself.
    method RecvLoop() returns (r: Received)
      modifies rx`queue, defrag
      ensures (rx.queue, defrag.State()) == (Pull(old(rx.queue), old(defrag.State())).0, Pull(old(rx.queue), old(defrag.State())).1)
      ensures var out := Pull(old(rx.queue), old(defrag.State())).2;
              r == if out.Some? then Got(out.value.data, out.value.addr) else if rx.hasSender then Waits else Closed
    {
      ghost var expected := Pull(rx.queue, defrag.State());
      while rx.queue != []
        invariant Pull(rx.queue, defrag.State()) == expected
        decreases |rx.queue|
      {
        var m := rx.queue[0];
        rx.queue := rx.queue[1..];
        var full, _ := defrag.Feed(m);
        if full.Some? {
          return Got(full.value.data, full.value.addr);
        }
      }
      r := if rx.hasSender then Waits else Closed;
    }

    /** `packetId` is the random draw for a fragmented message. */
    method Send(conn: Connection, data: seq<byte>, addr: Str, packetId: u16) returns (ok: bool)
      modifies conn
      ensures var r := Transmit(conn.path, old(conn.moment), Outgoing(id, addr, data), packetId);
              conn.sent == old(conn.sent) + r.sent && ok == r.ok
      ensures Sendable(addr, data) ==> AllSentFor(conn.sent[|old(conn.sent)|..], id, addr)
      ensures Sendable(addr, data) && ok && conn.sent != old(conn.sent) ==> PayloadOf(conn.sent[|old(conn.sent)|..]) == data
    {
      ok := Emit(conn, data, addr, packetId);
      ghost var r := Transmit(conn.path, old(conn.moment), Outgoing(id, addr, data), packetId);
      assert conn.sent[|old(conn.sent)|..] == r.sent;
      if Sendable(addr, data) {
        SendIsRead(conn.path, old(conn.moment), id, addr, data, packetId);
        SendCarriesData(conn.path, old(conn.moment), id, addr, data, packetId);
      }
    }

    method Emit(conn: Connection, data: seq<byte>, addr: Str, packetId: u16) returns (ok: bool)
      modifies conn
      ensures var r := Transmit(conn.path, old(conn.moment), Outgoing(id, addr, data), packetId);
              conn.sent == old(conn.sent) + r.sent && ok == r.ok
    {
      var msg := Outgoing(id, addr, data);
      var whole := Datagram(msg, Max(Size(msg), MAX_UDP_SIZE));
      var answer := conn.SendDatagram(whole);
      match answer {
        case Accepted => return true;
        case Failed =>
          assert old(conn.sent) + [] == old(conn.sent);
          return false;
        case TooLarge =>
      }
      var max := conn.MaxDatagramSize();
      var limit := if max.Some? then max.value else MAX_DATAGRAM_FRAME_SIZE;
      var frags, _ := FragUdpMessage(msg.(packetId := packetId), limit);
      ok := SendAll(conn, frags);
    }
  }

  lemma PrefixGrows(sent: seq<seq<byte>>, ds: seq<seq<byte>>, k: nat)
    requires k < |ds|
    ensures sent + ds[..k] + [ds[k]] == sent + ds[..k + 1]
  {
  }

  method SendOne(conn: Connection, f: UdpMessage) returns (a: Answer)
    modifies conn
    ensures conn.moment == old(conn.moment) + 1 && (a == Accepted <==> Takes(conn.path, old(conn.moment), Encode(f)))
    ensures conn.sent == if a == Accepted then old(conn.sent) + [Encode(f)] else old(conn.sent)
  {
    var d := Datagram(f, Size(f));
    a := conn.SendDatagram(d);
  }

  method SendAll(conn: Connection, frags: seq<UdpMessage>) returns (ok: bool)
    modifies conn
    ensures var n := FirstRefused(conn.path, old(conn.moment), EncodeAll(frags), 0);
            conn.sent == old(conn.sent) + EncodeAll(frags)[..n] && ok == (n == |frags|)
  {
    ghost var (ds, path, now, sent) := (EncodeAll(frags), conn.path, conn.moment, conn.sent);
    for k := 0 to |frags|
      invariant conn.moment == now + k
      invariant conn.sent == sent + ds[..k]
      invariant FirstRefused(path, now, ds, 0) == FirstRefused(path, now, ds, k)
    {
      var answer := SendOne(conn, frags[k]);
      if answer != Accepted {
        assert FirstRefused(path, now, ds, k) == k;
        return false;
      }
      assert FirstRefused(path, now, ds, k) == FirstRefused(path, now, ds, k + 1);
      PrefixGrows(sent, ds, k);
    }
    assert FirstRefused(path, now, ds, |ds|) == |ds|;
    ok := true;
  }

  // Serializes into a zeroed buffer of `size` bytes and cuts it to what was written.
  method Datagram(m: UdpMessage, size: nat) returns (d: seq<byte>)
    requires size >= Size(m)
    ensures d == Encode(m)
  {
    var buf := new byte[size](_ => 0);
    var n := Serialize(m, buf);
    d := buf[..n.value];
  }

  // The datagram limit does not change; faults may come at any moment.
  ghost predicate Steady(path: nat -> Path, limit: nat) { forall n: nat :: path(n).limit == Some(limit) }

  lemma WireFits(m: UdpMessage, limit: nat, packetId: u16)
    ensures forall i | 0 <= i < |Wire(m, limit, packetId)| :: |Wire(m, limit, packetId)[i]| <= limit
  {
    if Size(m) > limit {
      var frags := Fragments(m.(packetId := packetId), limit);
      FragmentsFit(m.(packetId := packetId), limit);
      assert forall i | 0 <= i < |frags| :: frags[i] in frags;
    }
  }

  predicate Works(path: nat -> Path, n: nat) { path(n).fault == None }

  ghost predicate WorksThrough(path: nat -> Path, from: nat, to: nat) { forall n | from <= n < to :: Works(path, n) }

  // Nothing breaks at the moments the message needs.
  ghost predicate NoFault(path: nat -> Path, now: nat, m: UdpMessage, packetId: u16, limit: nat) {
    && Works(path, now)
    && (Size(m) > limit ==> WorksThrough(path, now + 2, now + 2 + |Wire(m, limit, packetId)|))
  }

  lemma RefusedAtFault(path: nat -> Path, now: nat, ds: seq<seq<byte>>, limit: nat)
    requires Steady(path, limit) && forall i | 0 <= i < |ds| :: |ds[i]| <= limit
    ensures FirstRefused(path, now, ds, 0) == |ds| <==> WorksThrough(path, now, now + |ds|)
  {
    FirstRefusedIs(path, now, ds, 0);
    forall i | 0 <= i < |ds|
      ensures Takes(path, now + i, ds[i]) <==> Works(path, now + i)
    {
      assert path(now + i).limit == Some(limit);
    }
    if FirstRefused(path, now, ds, 0) == |ds| {
      forall n | now <= n < now + |ds|
        ensures Works(path, n)
      {
        assert Takes(path, now + (n - now), ds[n - now]);
      }
    }
  }

  /**
   While the limit is steady, `send` succeeds exactly if no fault meets it, and puts a
   prefix of the message's datagrams on the wire: all of them if it succeeds, never all
   of them if it fails.  The one exception is a limit that leaves no room for a payload
   byte: then nothing is sent, and without a fault `send` still succeeds.
   */
  lemma SendOnSteadyPath(path: nat -> Path, now: nat, m: UdpMessage, packetId: u16, limit: nat)
    requires Steady(path, limit)
    ensures Transmit(path, now, m, packetId).ok <==> NoFault(path, now, m, packetId, limit)
    ensures Transmit(path, now, m, packetId).sent <= Wire(m, limit, packetId)
    ensures Wire(m, limit, packetId) != [] ==>
              (Transmit(path, now, m, packetId).ok <==> Transmit(path, now, m, packetId).sent == Wire(m, limit, packetId))
    ensures Wire(m, limit, packetId) == [] <==> limit < Size(m) && limit <= HeaderSize(m)
  {
    var wire := Wire(m, limit, packetId);
    WireFits(m, limit, packetId);
    NothingFitsIff(m.(packetId := packetId), limit);
    assert path(now).limit == Some(limit) && path(now + 1).limit == Some(limit);
    if AnswerTo(path(now), Size(m)) == TooLarge {
      RefusedAtFault(path, now + 2, wire, limit);
    }
  }

  // ---------- what a peer reads ----------

  // An address and payload that the peer's parser accepts.
  predicate Sendable(addr: Str, data: seq<byte>) { 1 <= |addr| <= 2048 && ValidUtf8(addr) && data != [] }

  // The datagram parses to a message of session `id` for `addr`.
  predicate SentFor(d: seq<byte>, id: u32, addr: Str) {
    Parse(d).Some? && Parse(d).value.sessionId == id && Parse(d).value.addr == addr
  }

  predicate AllSentFor(ds: seq<seq<byte>>, id: u32, addr: Str) { forall i | 0 <= i < |ds| :: SentFor(ds[i], id, addr) }

  // The payloads the peer reads, joined.
  function PayloadOf(ds: seq<seq<byte>>): (data: seq<byte>) {
    if ds == [] then []
    else PayloadOf(ds[..|ds| - 1]) + if Parse(ds[|ds| - 1]).Some? then Parse(ds[|ds| - 1]).value.data else []
  }

  lemma FragmentsAreRead(m: UdpMessage, limit: nat)
    requires Deliverable(m)
    ensures forall i | 0 <= i < |Fragments(m, limit)| ::
              && Parse(Encode(Fragments(m, limit)[i])) == Some(Fragments(m, limit)[i])
              && Fragments(m, limit)[i].sessionId == m.sessionId && Fragments(m, limit)[i].addr == m.addr
              && Fragments(m, limit)[i].packetId == m.packetId
  {
    var frags := Fragments(m, limit);
    if Size(m) > limit {
      FragmentsFit(m, limit);
    }
    forall i | 0 <= i < |frags|
      ensures frags[i].sessionId == m.sessionId && frags[i].addr == m.addr && frags[i].packetId == m.packetId
      ensures Parse(Encode(frags[i])) == Some(frags[i])
    {
      assert frags[i] in frags;
      ParseEncode(frags[i]);
    }
  }

  lemma {:induction false} PayloadOfAll(ms: seq<UdpMessage>, cs: seq<seq<byte>>)
    requires |ms| == |cs| && forall i | 0 <= i < |ms| :: Parse(Encode(ms[i])) == Some(ms[i]) && ms[i].data == cs[i]
    ensures PayloadOf(EncodeAll(ms)) == Join(cs)
  {
    if ms != [] {
      var k := |ms| - 1;
      PayloadOfAll(ms[..k], cs[..k]);
      assert EncodeAll(ms)[..k] == EncodeAll(ms[..k]);
    }
  }

  lemma FragmentPayload(m: UdpMessage, limit: nat)
    requires Deliverable(m) && Fragments(m, limit) != []
    ensures PayloadOf(EncodeAll(Fragments(m, limit))) == m.data
  {
    FragmentsAreRead(m, limit);
    if Size(m) <= limit {
      PayloadOfAll([m], [m.data]);
      assert [m.data][..0] == [];
      assert Join([m.data]) == m.data;
    } else {
      var cs := Chunks(m.data, MaxPayload(m, limit));
      FragmentAllAt(m, cs, |cs|);
      JoinChunks(m.data, MaxPayload(m, limit));
      PayloadOfAll(Fragments(m, limit), cs);
    }
  }

  lemma FragmentsSentFor(m: UdpMessage, limit: nat, n: nat)
    requires Deliverable(m) && n <= |Fragments(m, limit)|
    ensures AllSentFor(EncodeAll(Fragments(m, limit))[..n], m.sessionId, m.addr)
  {
    FragmentsAreRead(m, limit);
  }

  /** Whatever `send` puts on the wire, whole or in part, the peer reads as messages of this session for this address. */
  lemma SendIsRead(path: nat -> Path, now: nat, id: u32, addr: Str, data: seq<byte>, packetId: u16)
    requires Sendable(addr, data)
    ensures AllSentFor(Transmit(path, now, Outgoing(id, addr, data), packetId).sent, id, addr)
  {
    var m := Outgoing(id, addr, data);
    if AnswerTo(path(now), Size(m)) == Accepted {
      ParseEncode(m);
    } else if AnswerTo(path(now), Size(m)) == TooLarge {
      var limit := if path(now + 1).limit.Some? then path(now + 1).limit.value else MAX_DATAGRAM_FRAME_SIZE;
      var m' := m.(packetId := packetId);
      FragmentsSentFor(m', limit, |Transmit(path, now, m, packetId).sent|);
    }
  }

  /** If it succeeds and something was sent, the payloads the peer reads are exactly the data. */
  lemma SendCarriesData(path: nat -> Path, now: nat, id: u32, addr: Str, data: seq<byte>, packetId: u16)
    requires Sendable(addr, data)
    ensures var r := Transmit(path, now, Outgoing(id, addr, data), packetId);
            r.ok && r.sent != [] ==> PayloadOf(r.sent) == data
  {
    var m := Outgoing(id, addr, data);
    var r := Transmit(path, now, m, packetId);
    if AnswerTo(path(now), Size(m)) == Accepted {
      ParseEncode(m);
      assert [Encode(m)][..0] == [];
      assert PayloadOf([Encode(m)]) == data;
    } else if AnswerTo(path(now), Size(m)) == TooLarge && r.ok && r.sent != [] {
      var limit := if path(now + 1).limit.Some? then path(now + 1).limit.value else MAX_DATAGRAM_FRAME_SIZE;
      var ds := EncodeAll(Fragments(m.(packetId := packetId), limit));
      assert ds[..|ds|] == ds;
      FragmentPayload(m.(packetId := packetId), limit);
    }
  }

  /** A datagram large enough for header and data carries the message whole, under packet id 0. */
  lemma SendWhole(path: nat -> Path, now: nat, id: u32, addr: Str, data: seq<byte>, packetId: u16, limit: nat)
    requires Sendable(addr, data) && path(now) == Path(None, Some(limit))
    requires 8 + Varint.Len(|addr|) + |addr| + |data| <= limit
    ensures var r := Transmit(path, now, Outgoing(id, addr, data), packetId);
            r.ok && |r.sent| == 1 && Parse(r.sent[0]) == Some(UdpMessage(id, 0, 0, 1, addr, data))
  {
    ParseEncode(Outgoing(id, addr, data));
  }

  /** When the connection names no limit at the moment it is asked, fragments are cut for 1200 bytes. */
  lemma SendWithoutLimit(path: nat -> Path, now: nat, id: u32, addr: Str, data: seq<byte>, packetId: u16)
    requires AnswerTo(path(now), Size(Outgoing(id, addr, data))) == TooLarge && path(now + 1).limit == None
    ensures Transmit(path, now, Outgoing(id, addr, data), packetId).sent
            <= EncodeAll(Fragments(UdpMessage(id, packetId, 0, 1, addr, data), 1200))
  {
  }

  /**
   What `send` puts on the wire for a message too large for one datagram reaches any
   peer session that is not already assembling that packet, in any order and with any
   duplicates, as one message of that session with that address and data, if and only if
   at most 255 fragments are needed.
   */
  lemma SendDelivers(id: u32, addr: Str, data: seq<byte>, limit: nat, packetId: u16, t: Table, ds: seq<seq<byte>>)
    requires var m := UdpMessage(id, packetId, 0, 1, addr, data);
             && NeedsFragments(m, limit) && Deliverable(m) && Untracked(t, packetId, Count(m, limit))
    requires forall d <- Wire(Outgoing(id, addr, data), limit, packetId) :: d in ds
    requires forall d <- ds :: d in Wire(Outgoing(id, addr, data), limit, packetId)
                               || Parse(d) == None || !IsFragment(Parse(d).value)
    ensures var m := UdpMessage(id, packetId, 0, 1, addr, data);
            Delivers(t, EndToEnd.Received(ds), Fragments(m, limit), m) <==> Count(m, limit) <= 255
  {
    var m := Outgoing(id, addr, data).(packetId := packetId);
    var frags := Fragments(m, limit);
    assert Wire(Outgoing(id, addr, data), limit, packetId) == EncodeAll(frags);
    forall f <- frags
      ensures Encode(f) in ds
    {
      var i :| 0 <= i < |frags| && frags[i] == f;
      assert EncodeAll(frags)[i] in EncodeAll(frags);
    }
    forall d <- ds
      ensures FragmentOrNoise(d, frags)
    {
      if d in EncodeAll(frags) {
        var i :| 0 <= i < |frags| && EncodeAll(frags)[i] == d;
        assert frags[i] in frags;
      }
    }
    DeliveryIff(m, limit, t, ds);
  }
}
