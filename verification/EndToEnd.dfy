/**
 A message fragmented, sent as datagrams, received in any order with any
 duplicates, and reassembled.
 */
module EndToEnd {
  import opened Bytes
  import opened UdpMessages
  import opened Fragmentation
  import opened Defragmentation

  // The messages the receive loop gets out of a sequence of datagrams.
  function Received(ds: seq<seq<byte>>): (ms: seq<UdpMessage>) {
    if ds == [] then []
    else
      var r := Parse(ds[|ds| - 1]);
      Received(ds[..|ds| - 1]) + (if r.Some? then [r.value] else [])
  }

  // A message as `send` builds it, too large for one datagram but with room for a payload byte.
  predicate NeedsFragments(m: UdpMessage, limit: nat) {
    m.fragId == 0 && m.fragCount == 1 && HeaderSize(m) < limit < Size(m)
  }

  function Count(m: UdpMessage, limit: nat): (n: nat)
    requires NeedsFragments(m, limit)
  {
    DivCeil(|m.data|, MaxPayload(m, limit))
  }

  // The table is not assembling fragments of that packet id and of that count, as truncated.
  predicate Untracked(t: Table, pktId: u16, n: nat) { n % 256 > 1 ==> !Tracks(t, pktId, n % 256) }

  // `ms` holds every fragment at least once, in any order, mixed with anything but foreign fragments.
  predicate Arrivals(ms: seq<UdpMessage>, frags: seq<UdpMessage>) {
    (forall x <- ms :: x in frags || !IsFragment(x)) && Holds(ms, frags)
  }

  predicate Holds(ms: seq<UdpMessage>, frags: seq<UdpMessage>) { forall f <- frags :: f in ms }

  // `frags` are the fragments of `m` with payloads `cs`, each of at most `p` bytes.
  ghost predicate SplitInto(m: UdpMessage, frags: seq<UdpMessage>, cs: seq<seq<byte>>, p: nat) {
    && m.fragId == 0 && m.fragCount == 1
    && |frags| == |cs| >= 2 && Join(cs) == m.data
    && (forall i | 0 <= i < |cs| :: frags[i] == Fragment(m, cs[i], i, |cs|) && |cs[i]| <= p)
    && (|cs| > 255 ==> |m.data| > 255 * p)
  }

  lemma ChunkNumbers(data: seq<byte>, p: nat)
    requires 0 < p < |data|
    ensures |Chunks(data, p)| >= 2
    ensures |Chunks(data, p)| > 255 ==> |data| > 255 * p
  {
    ChunkCount(data, p);
    Multiples(|Chunks(data, p)|, p);
  }

  lemma Multiples(n: nat, p: nat)
    ensures n <= 1 ==> n * p <= p
    ensures n > 255 ==> (n - 1) * p >= 255 * p
  {
  }

  lemma FragmentsSplit(m: UdpMessage, limit: nat) returns (cs: seq<seq<byte>>, p: nat)
    requires NeedsFragments(m, limit)
    ensures p == MaxPayload(m, limit) > 0 && cs == Chunks(m.data, p)
    ensures SplitInto(m, Fragments(m, limit), cs, p) && |cs| == Count(m, limit)
  {
    p := MaxPayload(m, limit);
    cs := Chunks(m.data, p);
    ChunkCount(m.data, p);
    ChunkNumbers(m.data, p);
    ChunksInBounds(m.data, p);
    JoinChunks(m.data, p);
    forall i | 0 <= i < |cs|
      ensures |cs[i]| <= p
    {
      assert cs[i] in cs;
    }
    FragmentAllAt(m, cs, |cs|);
    assert Fragments(m, limit) == FragmentAll(m, cs, |cs|);
  }

  lemma FragmentFields(m: UdpMessage, frags: seq<UdpMessage>, cs: seq<seq<byte>>, p: nat)
    requires SplitInto(m, frags, cs, p)
    ensures forall f <- frags :: |f.data| <= p && f.packetId == m.packetId && f.fragCount == |cs| % 256
    ensures |cs| <= 255 ==> forall j | 0 <= j < |frags| :: frags[j].fragId == j && IsFragment(frags[j])
  {
    forall f <- frags
      ensures |f.data| <= p && f.packetId == m.packetId && f.fragCount == |cs| % 256
    {
      var i :| 0 <= i < |cs| && f == frags[i];
    }
  }

  // ---------- at most 255 fragments: fragment i is the only message with id i ----------

  lemma {:induction false} FirstArrivalOf(ms: seq<UdpMessage>, frags: seq<UdpMessage>, i: nat)
    requires forall x <- ms :: x in frags || !IsFragment(x)
    requires forall j | 0 <= j < |frags| :: frags[j].fragId == j && IsFragment(frags[j])
    requires i < |frags|
    ensures FirstArrival(FragmentsOf(ms), i) == if frags[i] in ms then Some(frags[i]) else None
  {
    if ms != [] {
      var (before, last) := (ms[..|ms| - 1], ms[|ms| - 1]);
      assert ms == before + [last];
      FirstArrivalOf(before, frags, i);
      if IsFragment(last) {
        assert last in ms;
        var j :| 0 <= j < |frags| && frags[j] == last;
        FirstArrivalSnoc(FragmentsOf(before), last, i);
      } else {
        assert frags[i] != last;
        assert FragmentsOf(ms) == FragmentsOf(before);
      }
    }
  }

  lemma {:induction false} JoinFirstArrivals(e: seq<UdpMessage>, cs: seq<seq<byte>>, frags: seq<UdpMessage>, n: nat)
    requires n <= |cs| == |frags| && Covered(e, n)
    requires forall i | 0 <= i < |cs| :: frags[i].data == cs[i]
    requires forall i | 0 <= i < n :: FirstArrival(e, i) == Some(frags[i])
    ensures FirstArrivals(e, n) == Join(cs[..n])
  {
    if n > 0 {
      JoinFirstArrivals(e, cs, frags, n - 1);
      assert cs[..n][..n - 1] == cs[..n - 1];
      assert FirstArrival(e, n - 1) == Some(frags[n - 1]);
    }
  }

  lemma CoveredIffHolds(ms: seq<UdpMessage>, frags: seq<UdpMessage>)
    requires forall x <- ms :: x in frags || !IsFragment(x)
    requires forall j | 0 <= j < |frags| :: frags[j].fragId == j && IsFragment(frags[j])
    ensures Covered(FragmentsOf(ms), |frags|) <==> Holds(ms, frags)
    ensures Holds(ms, frags) ==> forall i | 0 <= i < |frags| :: FirstArrival(FragmentsOf(ms), i) == Some(frags[i])
  {
    forall i | 0 <= i < |frags|
      ensures FirstArrival(FragmentsOf(ms), i) == if frags[i] in ms then Some(frags[i]) else None
    {
      FirstArrivalOf(ms, frags, i);
    }
    assert forall i | 0 <= i < |frags| :: frags[i] in frags;
  }

  lemma FullReassembly(m: UdpMessage, frags: seq<UdpMessage>, cs: seq<seq<byte>>, p: nat, e: seq<UdpMessage>)
    requires SplitInto(m, frags, cs, p) && Covered(e, |cs|)
    requires forall i | 0 <= i < |frags| :: FirstArrival(e, i) == Some(frags[i])
    ensures Reassembly(e, |cs|) == m
  {
    assert FirstArrival(e, 0) == Some(frags[0]);
    JoinFirstArrivals(e, cs, frags, |cs|);
    assert cs[..|cs|] == cs;
  }

  lemma WholeEpoch(ms: seq<UdpMessage>, frags: seq<UdpMessage>, pktId: u16, n: byte)
    requires forall x <- ms :: x in frags || !IsFragment(x)
    requires forall f <- frags :: f.packetId == pktId && f.fragCount == n
    ensures Epoch(ms, pktId, n) == FragmentsOf(ms)
  {
    EpochExtends([], ms, pktId, n);
    assert [] + ms == ms;
    assert [] + FragmentsOf(ms) == FragmentsOf(ms);
  }

  // What the history demands at one position of the arrivals.
  lemma AnswerAt(m: UdpMessage, frags: seq<UdpMessage>, cs: seq<seq<byte>>, p: nat, before: seq<UdpMessage>, f: UdpMessage)
    requires SplitInto(m, frags, cs, p) && |cs| <= 255 && f in frags
    requires forall x <- before :: x in frags || !IsFragment(x)
    ensures Expected(before, f) == if f !in before && Holds(before + [f], frags) then Some(m) else None
  {
    FragmentFields(m, frags, cs, p);
    WholeEpoch(before, frags, m.packetId, |cs|);
    var (e, all) := (FragmentsOf(before), before + [f]);
    assert all[..|before|] == before;
    var i :| 0 <= i < |frags| && f == frags[i];
    FirstArrivalOf(before, frags, i);
    CoveredIffHolds(all, frags);
    assert FragmentsOf(all) == e + [f];
    if Holds(all, frags) {
      FullReassembly(m, frags, cs, p, e + [f]);
    }
  }

  // The position at which the last missing fragment arrives.
  lemma {:induction false} CompletionPoint(ms: seq<UdpMessage>, frags: seq<UdpMessage>) returns (j: nat)
    requires frags != [] && Holds(ms, frags)
    ensures j < |ms| && Holds(ms[..j + 1], frags) && !Holds(ms[..j], frags)
  {
    assert frags[0] in ms;
    var k := |ms| - 1;
    if Holds(ms[..k], frags) {
      j := CompletionPoint(ms[..k], frags);
      assert ms[..k][..j + 1] == ms[..j + 1] && ms[..k][..j] == ms[..j];
    } else {
      j := k;
      assert ms[..k + 1] == ms;
    }
  }

  lemma HoldsMonotone(ms: seq<UdpMessage>, frags: seq<UdpMessage>, j: nat, k: nat)
    requires j <= k <= |ms|
    ensures Holds(ms[..j], frags) ==> Holds(ms[..k], frags)
  {
    assert ms[..j] == ms[..k][..j];
  }

  lemma OutputIs(m: UdpMessage, frags: seq<UdpMessage>, cs: seq<seq<byte>>, p: nat,
                 t: Table, ms: seq<UdpMessage>, k: nat)
    requires SplitInto(m, frags, cs, p) && |cs| <= 255 && !Tracks(t, m.packetId, |cs|)
    requires Arrivals(ms, frags) && k < |ms| && ms[k] in frags
    ensures OutputAt(t, ms, k) == if ms[k] !in ms[..k] && Holds(ms[..k + 1], frags) then Some(m) else None
  {
    FragmentFields(m, frags, cs, p);
    FeedRefinesHistory(t, ms[..k], ms[k]);
    assert forall x <- ms[..k] :: x in ms;
    AnswerAt(m, frags, cs, p, ms[..k], ms[k]);
    assert ms[..k] + [ms[k]] == ms[..k + 1];
  }

  // A fragment completes the set exactly at the completion point.
  lemma CompletesOnlyAt(ms: seq<UdpMessage>, frags: seq<UdpMessage>, j: nat, k: nat)
    requires j < |ms| && Holds(ms[..j + 1], frags) && !Holds(ms[..j], frags)
    requires k < |ms| && ms[k] in frags
    ensures ms[k] !in ms[..k] && Holds(ms[..k + 1], frags) <==> k == j
  {
    if k == j {
      assert ms[..j] + [ms[j]] == ms[..j + 1];
      LastIsMissing(ms[..j], ms[j], frags);
    } else if k > j {
      HoldsMonotone(ms, frags, j + 1, k);
    } else {
      HoldsMonotone(ms, frags, k + 1, j);
    }
  }

  /** Up to 255 fragments: exactly one of the fragments' arrivals yields an output, and it is the message. */
  lemma DeliveredOnce(m: UdpMessage, limit: nat, t: Table, ms: seq<UdpMessage>) returns (j: nat)
    requires NeedsFragments(m, limit) && Count(m, limit) <= 255
    requires Untracked(t, m.packetId, Count(m, limit))
    requires Arrivals(ms, Fragments(m, limit))
    ensures j < |ms| && ms[j] in Fragments(m, limit) && OutputAt(t, ms, j) == Some(m)
    ensures forall k | 0 <= k < |ms| && ms[k] in Fragments(m, limit) && k != j :: OutputAt(t, ms, k) == None
  {
    var frags := Fragments(m, limit);
    var cs, p := FragmentsSplit(m, limit);
    j := CompletionPoint(ms, frags);
    assert ms[..j + 1] == ms[..j] + [ms[j]];
    LastIsMissing(ms[..j], ms[j], frags);
    forall k | 0 <= k < |ms| && ms[k] in frags
      ensures OutputAt(t, ms, k) == if k == j then Some(m) else None
    {
      OutputIs(m, frags, cs, p, t, ms, k);
      CompletesOnlyAt(ms, frags, j, k);
    }
  }

  lemma LastIsMissing(before: seq<UdpMessage>, x: UdpMessage, frags: seq<UdpMessage>)
    requires Holds(before + [x], frags) && !Holds(before, frags)
    ensures x in frags && x !in before
  {
    var f :| f in frags && f !in before;
    assert f in before + [x];
  }

  // ---------- more than 255 fragments ----------

  lemma {:induction false} ShortReassembly(e: seq<UdpMessage>, n: nat, p: nat)
    requires Covered(e, n) && forall f <- e :: |f.data| <= p
    ensures |FirstArrivals(e, n)| <= n * p
  {
    if n > 0 {
      ShortReassembly(e, n - 1, p);
      assert n * p == (n - 1) * p + p;
    }
  }

  lemma AtMost255(n: byte, p: nat)
    ensures n * p <= 255 * p && p <= 255 * p
  {
  }

  lemma ShortAnswer(h: seq<UdpMessage>, f: UdpMessage, p: nat)
    requires forall x <- h :: IsFragment(x) && x.packetId == f.packetId ==> |x.data| <= p
    requires |f.data| <= p
    ensures Expected(h, f).Some? ==> |Expected(h, f).value.data| <= 255 * p
  {
    AtMost255(f.fragCount, p);
    if Completes(h, f) {
      var before := Epoch(h, f.packetId, f.fragCount);
      assert forall x <- before :: |x.data| <= p;
      var e := before + [f];
      assert forall x <- e :: x in before || x == f;
      ShortReassembly(e, f.fragCount, p);
    }
  }

  /** With the counters truncated to a byte, no output of any arrival order carries the whole payload. */
  lemma TruncatedNeverDelivers(m: UdpMessage, frags: seq<UdpMessage>, cs: seq<seq<byte>>, p: nat,
                               t: Table, ms: seq<UdpMessage>, k: nat)
    requires SplitInto(m, frags, cs, p) && |cs| > 255 && Untracked(t, m.packetId, |cs|)
    requires Arrivals(ms, frags)
    requires k < |ms| && ms[k] in frags
    ensures OutputAt(t, ms, k) != Some(m)
  {
    FragmentFields(m, frags, cs, p);
    FeedRefinesHistory(t, ms[..k], ms[k]);
    assert forall x <- ms[..k] :: x in ms;
    ShortAnswer(ms[..k], ms[k], p);
  }

  /** A count that truncates to 0 or 1: every arriving fragment is output as if it were a whole message. */
  lemma TruncatedPassesThrough(m: UdpMessage, limit: nat, t: Table, ms: seq<UdpMessage>, k: nat)
    requires NeedsFragments(m, limit) && Count(m, limit) % 256 <= 1
    requires k < |ms| && ms[k] in Fragments(m, limit)
    ensures OutputAt(t, ms, k) == Some(ms[k])
  {
    var cs, p := FragmentsSplit(m, limit);
    FragmentFields(m, Fragments(m, limit), cs, p);
  }

  // The chunks at the picked positions, joined.
  function JoinPicks(cs: seq<seq<byte>>, picks: seq<nat>): (data: seq<byte>)
    requires forall i | 0 <= i < |picks| :: picks[i] < |cs|
  {
    if picks == [] then [] else JoinPicks(cs, picks[..|picks| - 1]) + cs[picks[|picks| - 1]]
  }

  // Position i is filled by a chunk whose number is i modulo 256.
  predicate PicksOf(cs: seq<seq<byte>>, picks: seq<nat>, n: nat) {
    |picks| == n && forall i | 0 <= i < n :: picks[i] < |cs| && picks[i] % 256 == i
  }

  lemma {:induction false} PickFirstArrivals(m: UdpMessage, frags: seq<UdpMessage>, cs: seq<seq<byte>>, p: nat, e: seq<UdpMessage>, n: nat)
    returns (picks: seq<nat>)
    requires SplitInto(m, frags, cs, p) && Covered(e, n) && forall f <- e :: f in frags
    ensures PicksOf(cs, picks, n) && FirstArrivals(e, n) == JoinPicks(cs, picks)
  {
    if n == 0 {
      picks := [];
    } else {
      var front := PickFirstArrivals(m, frags, cs, p, e, n - 1);
      var f := FirstArrival(e, n - 1).value;
      var i :| 0 <= i < |frags| && frags[i] == f;
      picks := front + [i];
      assert picks[..n - 1] == front;
    }
  }

  // The first `k` arrivals fill every slot of a table of `n`.
  ghost predicate Done(ms: seq<UdpMessage>, k: nat, n: nat)
    requires k <= |ms|
  {
    Covered(FragmentsOf(ms[..k]), n)
  }

  lemma FragmentsOfStep(ms: seq<UdpMessage>, k: nat)
    requires k < |ms|
    ensures FragmentsOf(ms[..k + 1]) == if IsFragment(ms[k]) then FragmentsOf(ms[..k]) + [ms[k]] else FragmentsOf(ms[..k])
  {
    assert ms[..k + 1][..k] == ms[..k];
  }

  lemma NothingDone(ms: seq<UdpMessage>, n: nat)
    requires n > 0
    ensures !Done(ms, 0, n)
  {
    assert FirstArrival(FragmentsOf(ms[..0]), 0) == None;
  }

  lemma DoneStep(ms: seq<UdpMessage>, k: nat, n: nat)
    requires k < |ms|
    ensures Done(ms, k, n) ==> Done(ms, k + 1, n)
  {
    FragmentsOfStep(ms, k);
    CoveredSnoc(FragmentsOf(ms[..k]), ms[k], n);
  }

  lemma {:induction false} DoneStays(ms: seq<UdpMessage>, j: nat, k: nat, n: nat)
    requires j <= k <= |ms| && Done(ms, j, n)
    ensures Done(ms, k, n)
    decreases k
  {
    if j < k {
      DoneStays(ms, j, k - 1, n);
      DoneStep(ms, k - 1, n);
    }
  }

  lemma {:induction false} DonePoint(ms: seq<UdpMessage>, k: nat, n: nat) returns (j: nat)
    requires n > 0 && k <= |ms| && Done(ms, k, n)
    ensures j < k && Done(ms, j + 1, n) && !Done(ms, j, n)
    decreases k
  {
    NothingDone(ms, n);
    if Done(ms, k - 1, n) {
      j := DonePoint(ms, k - 1, n);
    } else {
      j := k - 1;
    }
  }

  // An arrival completes the packet exactly if it makes the slots covered.
  lemma CompletesIff(ms: seq<UdpMessage>, frags: seq<UdpMessage>, pktId: u16, n: byte, k: nat)
    requires k < |ms| && forall x <- ms :: x in frags || !IsFragment(x)
    requires (forall f <- frags :: f.packetId == pktId && f.fragCount == n) && ms[k] in frags
    ensures Epoch(ms[..k], pktId, n) == FragmentsOf(ms[..k])
    ensures Completes(ms[..k], ms[k]) <==> Done(ms, k + 1, n) && !Done(ms, k, n)
    ensures IsFragment(ms[k]) ==> FragmentsOf(ms[..k + 1]) == FragmentsOf(ms[..k]) + [ms[k]]
  {
    assert forall x <- ms[..k] :: x in ms;
    WholeEpoch(ms[..k], frags, pktId, n);
    FragmentsOfStep(ms, k);
    CoveredSnoc(FragmentsOf(ms[..k]), ms[k], n);
  }

  lemma {:induction false} FragmentsOfMember(ms: seq<UdpMessage>, f: UdpMessage)
    ensures f in FragmentsOf(ms) <==> f in ms && IsFragment(f)
  {
    if ms != [] {
      FragmentsOfMember(ms[..|ms| - 1], f);
      assert ms == ms[..|ms| - 1] + [ms[|ms| - 1]];
    }
  }

  lemma {:induction false} ArrivedIsSome(e: seq<UdpMessage>, f: UdpMessage)
    requires f in e
    ensures FirstArrival(e, f.fragId).Some?
  {
    if e[|e| - 1] != f {
      assert e == e[..|e| - 1] + [e[|e| - 1]];
      ArrivedIsSome(e[..|e| - 1], f);
    }
  }

  lemma AllArrivedIsDone(m: UdpMessage, frags: seq<UdpMessage>, cs: seq<seq<byte>>, p: nat, ms: seq<UdpMessage>)
    requires SplitInto(m, frags, cs, p) && |cs| > 255 && |cs| % 256 > 1 && Arrivals(ms, frags)
    ensures Done(ms, |ms|, |cs| % 256)
  {
    assert ms[..|ms|] == ms;
    forall i | 0 <= i < |cs| % 256
      ensures FirstArrival(FragmentsOf(ms), i).Some?
    {
      assert frags[i] in frags && frags[i].fragId == i;
      FragmentsOfMember(ms, frags[i]);
      ArrivedIsSome(FragmentsOf(ms), frags[i]);
    }
  }

  lemma MixedReassembly(m: UdpMessage, frags: seq<UdpMessage>, cs: seq<seq<byte>>, p: nat, e: seq<UdpMessage>, n: nat)
    returns (picks: seq<nat>)
    requires SplitInto(m, frags, cs, p) && n > 0 && Covered(e, n) && forall f <- e :: f in frags
    ensures PicksOf(cs, picks, n) && Reassembly(e, n) == m.(data := JoinPicks(cs, picks))
  {
    picks := PickFirstArrivals(m, frags, cs, p, e, n);
    var f := FirstArrival(e, 0).value;
    var i :| 0 <= i < |frags| && frags[i] == f;
  }

  lemma OneTruncatedOutput(m: UdpMessage, frags: seq<UdpMessage>, cs: seq<seq<byte>>, p: nat, t: Table, ms: seq<UdpMessage>)
    returns (j: nat, picks: seq<nat>)
    requires SplitInto(m, frags, cs, p) && |cs| > 255 && |cs| % 256 > 1 && !Tracks(t, m.packetId, |cs| % 256)
    requires Arrivals(ms, frags)
    ensures j < |ms| && ms[j] in frags && PicksOf(cs, picks, |cs| % 256)
    ensures OutputAt(t, ms, j) == Some(m.(data := JoinPicks(cs, picks)))
    ensures forall k | 0 <= k < |ms| && ms[k] in frags && k != j :: OutputAt(t, ms, k) == None
  {
    var n := |cs| % 256;
    FragmentFields(m, frags, cs, p);
    AllArrivedIsDone(m, frags, cs, p, ms);
    j := DonePoint(ms, |ms|, n);
    DoneOnlyByFragment(ms, j, n);
    assert ms[j] in ms;
    forall k | 0 <= k < |ms| && ms[k] in frags
      ensures OutputAt(t, ms, k) == Expected(ms[..k], ms[k]) && (Completes(ms[..k], ms[k]) <==> k == j)
    {
      FeedRefinesHistory(t, ms[..k], ms[k]);
      CompletesIff(ms, frags, m.packetId, n, k);
      if k < j && Done(ms, k + 1, n) {
        DoneStays(ms, k + 1, j, n);
      } else if k > j {
        DoneStays(ms, j + 1, k, n);
      }
    }
    CompletesIff(ms, frags, m.packetId, n, j);
    var e := FragmentsOf(ms[..j + 1]);
    forall f <- e
      ensures f in frags
    {
      FragmentsOfMember(ms[..j + 1], f);
      assert f in ms;
    }
    picks := MixedReassembly(m, frags, cs, p, e, n);
  }

  lemma DoneOnlyByFragment(ms: seq<UdpMessage>, j: nat, n: nat)
    requires j < |ms| && Done(ms, j + 1, n) && !Done(ms, j, n)
    ensures IsFragment(ms[j])
  {
    FragmentsOfStep(ms, j);
  }

  /**
   A count beyond 255 that truncates to r > 1: exactly one arrival yields an output.  It
   carries the message's addressing and r chunks, the i-th of them one of those numbered
   i modulo 256.
   */
  lemma TruncatedOutput(m: UdpMessage, limit: nat, t: Table, ms: seq<UdpMessage>) returns (j: nat, picks: seq<nat>)
    requires NeedsFragments(m, limit) && Count(m, limit) > 255 && Count(m, limit) % 256 > 1
    requires Untracked(t, m.packetId, Count(m, limit))
    requires Arrivals(ms, Fragments(m, limit))
    ensures j < |ms| && ms[j] in Fragments(m, limit)
    ensures PicksOf(Chunks(m.data, MaxPayload(m, limit)), picks, Count(m, limit) % 256)
    ensures OutputAt(t, ms, j) == Some(m.(data := JoinPicks(Chunks(m.data, MaxPayload(m, limit)), picks)))
    ensures forall k | 0 <= k < |ms| && ms[k] in Fragments(m, limit) && k != j :: OutputAt(t, ms, k) == None
  {
    var cs, p := FragmentsSplit(m, limit);
    j, picks := OneTruncatedOutput(m, Fragments(m, limit), cs, p, t, ms);
  }

  // ---------- over the wire ----------

  // The datagram of one of the fragments, or one that carries no fragment at all.
  ghost predicate FragmentOrNoise(d: seq<byte>, frags: seq<UdpMessage>) {
    (exists f <- frags :: d == Encode(f)) || Parse(d) == None || !IsFragment(Parse(d).value)
  }

  // Every fragment's datagram arrives at least once, mixed only with noise.
  ghost predicate WireArrivals(ds: seq<seq<byte>>, frags: seq<UdpMessage>) {
    && (forall f <- frags :: Encode(f) in ds)
    && (forall d <- ds :: FragmentOrNoise(d, frags))
  }

  ghost predicate Delivers(t: Table, ms: seq<UdpMessage>, frags: seq<UdpMessage>, m: UdpMessage) {
    exists j | 0 <= j < |ms| && ms[j] in frags :: OutputAt(t, ms, j) == Some(m)
  }

  ghost predicate AtMostOneOutput(t: Table, ms: seq<UdpMessage>, frags: seq<UdpMessage>) {
    forall j, k | 0 <= j < k < |ms| && ms[j] in frags && ms[k] in frags ::
      OutputAt(t, ms, j) == None || OutputAt(t, ms, k) == None
  }

  /**
   End to end over the wire: from any table not tracking the packet, any order of
   the datagrams with any duplicates, mixed with datagrams that are unparsable or
   hold no fragment, delivers the message if and only if it needs at most 255
   fragments; and then no other arrival of its fragments yields anything.
   */
  lemma DeliveryIff(m: UdpMessage, limit: nat, t: Table, ds: seq<seq<byte>>)
    requires NeedsFragments(m, limit) && Deliverable(m)
    requires Untracked(t, m.packetId, Count(m, limit))
    requires WireArrivals(ds, Fragments(m, limit))
    ensures Delivers(t, Received(ds), Fragments(m, limit), m) <==> Count(m, limit) <= 255
    ensures Count(m, limit) <= 255 ==> AtMostOneOutput(t, Received(ds), Fragments(m, limit))
  {
    var (ms, frags) := (Received(ds), Fragments(m, limit));
    ReceivedArrivals(m, limit, ds);
    if Count(m, limit) <= 255 {
      var j := DeliveredOnce(m, limit, t, ms);
    } else {
      var cs, p := FragmentsSplit(m, limit);
      forall k | 0 <= k < |ms| && ms[k] in frags
        ensures OutputAt(t, ms, k) != Some(m)
      {
        TruncatedNeverDelivers(m, frags, cs, p, t, ms, k);
      }
    }
  }

  /** A concrete message beyond the limit: 256 one-byte fragments, and no arrival order delivers it. */
  lemma OversizedIsLost(t: Table, ds: seq<seq<byte>>)
    requires WireArrivals(ds, Fragments(OVERSIZED, 11))
    ensures NeedsFragments(OVERSIZED, 11) && Deliverable(OVERSIZED) && Count(OVERSIZED, 11) == 256
    ensures !Delivers(t, Received(ds), Fragments(OVERSIZED, 11), OVERSIZED)
  {
    assert ValidUtf8(OVERSIZED.addr) by {
      assert OVERSIZED.addr[1..] == [];
    }
    DeliveryIff(OVERSIZED, 11, t, ds);
  }

  const OVERSIZED := UdpMessage(1, 7, 0, 1, [0x61], seq(256, _ => 0))

  lemma ReceivedArrivals(m: UdpMessage, limit: nat, ds: seq<seq<byte>>)
    requires NeedsFragments(m, limit) && Deliverable(m)
    requires WireArrivals(ds, Fragments(m, limit))
    ensures Arrivals(Received(ds), Fragments(m, limit))
  {
    var frags := Fragments(m, limit);
    FragmentsFit(m, limit);
    forall f <- frags
      ensures Parse(Encode(f)) == Some(f) && f in Received(ds)
    {
      ParseEncode(f);
      ReceivedMember(ds, Encode(f));
    }
    forall x <- Received(ds)
      ensures x in frags || !IsFragment(x)
    {
      var d := ReceivedFrom(ds, x);
    }
  }

  lemma {:induction false} ReceivedMember(ds: seq<seq<byte>>, d: seq<byte>)
    requires d in ds && Parse(d).Some?
    ensures Parse(d).value in Received(ds)
  {
    var k := |ds| - 1;
    assert ds == ds[..k] + [ds[k]];
    if d != ds[k] {
      ReceivedMember(ds[..k], d);
    }
  }

  lemma {:induction false} ReceivedFrom(ds: seq<seq<byte>>, x: UdpMessage) returns (d: seq<byte>)
    requires x in Received(ds)
    ensures d in ds && Parse(d) == Some(x)
  {
    var k := |ds| - 1;
    if Parse(ds[k]) == Some(x) {
      d := ds[k];
    } else {
      d := ReceivedFrom(ds[..k], x);
    }
  }

  /** A message that fits one datagram is delivered at every arrival, duplicates included. */
  lemma UnfragmentedPassesThrough(m: UdpMessage, limit: nat, t: Table, ms: seq<UdpMessage>, j: nat)
    requires m.fragId == 0 && m.fragCount == 1 && Size(m) <= limit
    requires j < |ms| && ms[j] in Fragments(m, limit)
    ensures OutputAt(t, ms, j) == Some(m) && Run(t, ms[..j + 1]) == Run(t, ms[..j])
  {
    assert ms[..j + 1][..j] == ms[..j];
  }

  // ---------- a packet id drawn again ----------

  lemma CoveredSwallows(h: seq<UdpMessage>, ms: seq<UdpMessage>, k: nat, pktId: u16, n: byte)
    requires n > 1 && Covered(Epoch(h, pktId, n), n) && k < |ms|
    requires Uninterrupted(ms[..k], pktId, n) && ms[k].packetId == pktId && ms[k].fragCount == n
    ensures OutputAt(Run(EMPTY, h), ms, k) == None
  {
    RunConcat(EMPTY, h, ms[..k]);
    DefaultRefinesHistory(h + ms[..k], ms[k]);
    EpochExtends(h, ms[..k], pktId, n);
    if IsFragment(ms[k]) {
      FirstArrivalPersists(Epoch(h, pktId, n), FragmentsOf(ms[..k]), ms[k].fragId);
    }
  }

  /**
   A message that draws the packet id of a packet just completed, with the same number of
   fragments, is swallowed: whatever the order and the duplicates, none of its fragments
   yields an output.
   */
  lemma RedrawnIdIsSwallowed(m: UdpMessage, limit: nat, h: seq<UdpMessage>, ms: seq<UdpMessage>, k: nat)
    requires NeedsFragments(m, limit) && Count(m, limit) % 256 > 1
    requires Covered(Epoch(h, m.packetId, Count(m, limit) % 256), Count(m, limit) % 256)
    requires (forall x <- ms :: x in Fragments(m, limit) || !IsFragment(x)) && k < |ms| && ms[k] in Fragments(m, limit)
    ensures OutputAt(Run(EMPTY, h), ms, k) == None
  {
    var cs, p := FragmentsSplit(m, limit);
    FragmentFields(m, Fragments(m, limit), cs, p);
    assert forall x <- ms[..k] :: x in ms;
    CoveredSwallows(h, ms, k, m.packetId, Count(m, limit) % 256);
  }
}
