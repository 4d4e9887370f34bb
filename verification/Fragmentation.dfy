/** Splitting a UDP message into fragments that fit a datagram size limit. */
module Fragmentation {
  import opened Bytes
  import opened UdpMessages

  function MaxPayload(m: UdpMessage, maxSize: nat): (p: nat) {
    if maxSize <= HeaderSize(m) then 0 else maxSize - HeaderSize(m)
  }

  function DivCeil(a: nat, b: nat): (q: nat)
    requires b > 0
  {
    (a + b - 1) / b
  }

  // The payload in consecutive pieces of `p` bytes, the last one possibly shorter.
  function Chunks(data: seq<byte>, p: nat): (cs: seq<seq<byte>>)
    requires p > 0
    decreases |data|
  {
    if data == [] then []
    else if |data| <= p then [data]
    else [data[..p]] + Chunks(data[p..], p)
  }

  // Fragment `i` of `n`: both numbers are truncated to the wire's single byte.
  function Fragment(m: UdpMessage, chunk: seq<byte>, i: nat, n: nat): (f: UdpMessage) {
    m.(fragId := i % 256, fragCount := n % 256, data := chunk)
  }

  function FragmentAll(m: UdpMessage, cs: seq<seq<byte>>, n: nat): (fs: seq<UdpMessage>)
    ensures |fs| == |cs|
  {
    if cs == [] then []
    else FragmentAll(m, cs[..|cs| - 1], n) + [Fragment(m, cs[|cs| - 1], |cs| - 1, n)]
  }

  lemma {:induction false} FragmentAllAt(m: UdpMessage, cs: seq<seq<byte>>, n: nat)
    ensures forall i | 0 <= i < |cs| :: FragmentAll(m, cs, n)[i] == Fragment(m, cs[i], i, n)
  {
    if cs != [] {
      FragmentAllAt(m, cs[..|cs| - 1], n);
    }
  }

  function Fragments(m: UdpMessage, maxSize: nat): (fs: seq<UdpMessage>) {
    if Size(m) <= maxSize then [m]
    else
      var p := MaxPayload(m, maxSize);
      if p == 0 then [] else FragmentAll(m, Chunks(m.data, p), |Chunks(m.data, p)|)
  }

  lemma {:induction false} ChunkCount(data: seq<byte>, p: nat)
    requires p > 0
    ensures |Chunks(data, p)| == DivCeil(|data|, p)
    ensures data != [] ==> |Chunks(data, p)| >= 1 && (|Chunks(data, p)| - 1) * p < |data| <= |Chunks(data, p)| * p
    decreases |data|
  {
    if data == [] {
      DivUnique(p - 1, p, 0, p - 1);
    } else if |data| <= p {
      DivUnique(|data| + p - 1, p, 1, |data| - 1);
    } else {
      ChunkCount(data[p..], p);
      var k := |Chunks(data[p..], p)|;
      assert (k + 1) * p == k * p + p;
      assert (k - 1) * p == k * p - p;
      DivUnique(|data| + p - 1, p, k + 1, |data| - 1 - k * p);
    }
  }

  lemma DivUnique(a: nat, b: nat, q: nat, r: nat)
    requires b > 0 && a == q * b + r && r < b
    ensures a / b == q
  {
    var k := a / b - q;
    assert k * b == r - a % b by {
      assert (a / b) * b - q * b == k * b;
    }
    assert k >= 1 ==> k * b >= b;
    assert k <= -1 ==> k * b <= -1 * b;
  }

  lemma {:induction false} ChunksInBounds(data: seq<byte>, p: nat)
    requires p > 0
    ensures forall c <- Chunks(data, p) :: 1 <= |c| <= p
    decreases |data|
  {
    if |data| > p {
      ChunksInBounds(data[p..], p);
    }
  }

  function Join(cs: seq<seq<byte>>): (data: seq<byte>) {
    if cs == [] then [] else Join(cs[..|cs| - 1]) + cs[|cs| - 1]
  }

  lemma {:induction false} JoinCons(c: seq<byte>, cs: seq<seq<byte>>)
    ensures Join([c] + cs) == c + Join(cs)
  {
    var all := [c] + cs;
    if cs == [] {
      assert all[..0] == [];
    } else {
      JoinCons(c, cs[..|cs| - 1]);
      assert all[..|all| - 1] == [c] + cs[..|cs| - 1];
    }
  }

  /** Nothing is lost or reordered by the split. */
  lemma {:induction false} JoinChunks(data: seq<byte>, p: nat)
    requires p > 0
    ensures Join(Chunks(data, p)) == data
    decreases |data|
  {
    if data == [] {
    } else if |data| <= p {
      JoinCons(data, []);
      assert [data] + [] == [data];
    } else {
      JoinChunks(data[p..], p);
      JoinCons(data[..p], Chunks(data[p..], p));
    }
  }

  lemma NextChunk(data: seq<byte>, off: nat, p: nat)
    requires p > 0 && off < |data|
    ensures var end := Min(off + p, |data|);
            Chunks(data[off..], p) == [data[off..end]] + Chunks(data[end..], p)
  {
    var rest := data[off..];
    if |rest| <= p {
      assert data[off..|data|] == rest;
    } else {
      assert rest[..p] == data[off..off + p] && rest[p..] == data[off + p..];
    }
  }

  // Taking the chunk at `off` off the front of the remaining chunks.
  lemma ChunkAt(cs: seq<seq<byte>>, k: nat, data: seq<byte>, off: nat, p: nat)
    requires p > 0 && off < |data| && k <= |cs| && cs[k..] == Chunks(data[off..], p)
    ensures var end := Min(off + p, |data|);
            k < |cs| && cs[k] == data[off..end] && cs[k + 1..] == Chunks(data[end..], p)
  {
    NextChunk(data, off, p);
    assert cs[k..][0] == cs[k] && cs[k..][1..] == cs[k + 1..];
  }

  lemma FragmentAllSnoc(m: UdpMessage, cs: seq<seq<byte>>, k: nat, n: nat)
    requires k < |cs|
    ensures FragmentAll(m, cs[..k + 1], n) == FragmentAll(m, cs[..k], n) + [Fragment(m, cs[k], k, n)]
  {
    assert cs[..k + 1][..k] == cs[..k];
  }

  lemma WrapsAt255(k: nat)
    ensures k > 255 || k % 256 == 255 <==> k + 1 > 255
  {
  }

  // The fragmentation loop.  `overflow` tells whether incrementing the fragment id
  // ever wrapped, which is where a debug build panics.
  method Split(m: UdpMessage, maxPayload: nat, fragCount: nat) returns (frags: seq<UdpMessage>, overflow: bool)
    requires maxPayload > 0
    ensures frags == FragmentAll(m, Chunks(m.data, maxPayload), fragCount)
    ensures overflow <==> |frags| > 255
  {
    ghost var cs := Chunks(m.data, maxPayload);
    ghost var k := 0;
    frags, overflow := [], false;
    var off := 0;
    var fragId: byte := 0;
    assert m.data[0..] == m.data && cs[0..] == cs;
    while off < |m.data|
      invariant off <= |m.data| && k <= |cs| && fragId == k % 256
      invariant overflow <==> k > 255
      invariant cs[k..] == Chunks(m.data[off..], maxPayload)
      invariant frags == FragmentAll(m, cs[..k], fragCount)
    {
      var end := Min(off + maxPayload, |m.data|);
      ChunkAt(cs, k, m.data, off, maxPayload);
      FragmentAllSnoc(m, cs, k, fragCount);
      var f := UdpMessage(m.sessionId, m.packetId, fragId, fragCount % 256, m.addr, m.data[off..end]);
      assert f == Fragment(m, cs[k], k, fragCount);
      frags := frags + [f];
      off := end;
      WrappingIncrement(k);
      WrapsAt255(k);
      overflow := overflow || fragId == 255;
      fragId := (fragId + 1) % 256;
      k := k + 1;
    }
    assert m.data[off..] == [];
    assert cs[k..] == [];
    assert cs[..k] == cs;
  }

  /** The fragment id overflows exactly on a message of more than 255 fragments. */
  method FragUdpMessage(m: UdpMessage, maxSize: nat) returns (frags: seq<UdpMessage>, overflow: bool)
    ensures frags == Fragments(m, maxSize)
    ensures overflow <==> |Fragments(m, maxSize)| > 255
  {
    if Size(m) <= maxSize {
      return [m], false;
    }
    var maxPayload := MaxPayload(m, maxSize);
    if maxPayload == 0 {
      return [], false;
    }
    var fragCount := DivCeil(|m.data|, maxPayload);
    ChunkCount(m.data, maxPayload);
    frags, overflow := Split(m, maxPayload, fragCount);
  }

  /** Every fragment fits the limit, keeps the addressing and carries at least one byte. */
  lemma FragmentsFit(m: UdpMessage, maxSize: nat)
    requires Size(m) > maxSize
    ensures forall f <- Fragments(m, maxSize) ::
              && Size(f) <= maxSize && f.data != [] && |f.data| <= MaxPayload(m, maxSize)
              && f.sessionId == m.sessionId && f.packetId == m.packetId && f.addr == m.addr
  {
    var p := MaxPayload(m, maxSize);
    if p > 0 {
      ChunksInBounds(m.data, p);
      var cs := Chunks(m.data, p);
      FragmentAllAt(m, cs, |cs|);
      forall f <- Fragments(m, maxSize)
        ensures f.data in cs && HeaderSize(f) == HeaderSize(m)
      {
        var i :| 0 <= i < |cs| && f == Fragment(m, cs[i], i, |cs|);
        assert cs[i] in cs;
      }
    }
  }

  /** Nothing is produced exactly when the message is too large and the limit leaves no room for a payload byte. */
  lemma NothingFitsIff(m: UdpMessage, maxSize: nat)
    ensures Fragments(m, maxSize) == [] <==> maxSize < Size(m) && maxSize <= HeaderSize(m)
  {
    var p := MaxPayload(m, maxSize);
    if Size(m) > maxSize && p > 0 {
      ChunkCount(m.data, p);
    }
  }

  lemma {:induction false} ChunksAreFull(data: seq<byte>, p: nat, i: nat)
    requires p > 0 && i < |Chunks(data, p)| - 1
    ensures |Chunks(data, p)[i]| == p
    decreases |data|
  {
    if i > 0 {
      ChunksAreFull(data[p..], p, i - 1);
    }
  }

  /** As few fragments as the room behind the header allows: all but the last fill it. */
  lemma FewestFragments(m: UdpMessage, maxSize: nat)
    requires HeaderSize(m) < maxSize < Size(m)
    ensures var (n, room) := (|Fragments(m, maxSize)|, maxSize - HeaderSize(m));
            && n >= 1 && (n - 1) * room < |m.data| <= n * room
            && forall i | 0 <= i < n - 1 :: |Fragments(m, maxSize)[i].data| == room
  {
    var room := maxSize - HeaderSize(m);
    var cs := Chunks(m.data, room);
    ChunkCount(m.data, room);
    FragmentAllAt(m, cs, |cs|);
    forall i | 0 <= i < |cs| - 1
      ensures |cs[i]| == room
    {
      ChunksAreFull(m.data, room, i);
    }
  }
}
