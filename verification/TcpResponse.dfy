/**
 The resumable parser of the TCPResponse header:
 status, varint-prefixed message, varint-prefixed padding.
 */
module TcpResponse {
  import opened Bytes
  import Varint

  const MAX_PADDING_LENGTH := 4096

  datatype Outcome = NeedMore | Done(ok: bool, consumed: nat) | Invalid

  // A length-prefixed field from `pos`: where it ends, if it is all there and within its guard.
  datatype Field = Partial | TooLong | Until(end: nat)

  function ParseField(buf: seq<byte>, pos: nat, guard: nat): (f: Field)
    requires pos <= |buf|
    ensures f.Until? ==> pos < f.end <= |buf|
  {
    var v := Varint.Decode(buf[pos..]);
    if v == None then Partial
    else
      var (len, n) := v.value;
      if len > guard then TooLong
      else
        var end := pos + n + len;
        if |buf| < end then Partial else Until(end)
  }

  function Parse(buf: seq<byte>): (r: Outcome)
    ensures r.Done? ==> r.consumed <= |buf|
  {
    if buf == [] then NeedMore
    else
      match ParseField(buf, 1, MAX_MESSAGE_LENGTH)
      case Partial => NeedMore
      case TooLong => Invalid
      case Until(p) =>
        match ParseField(buf, p, MAX_PADDING_LENGTH)
        case Partial => NeedMore
        case TooLong => Invalid
        case Until(q) => Done(buf[0] == 0, q)
  }

  // ---------- stability under arrival of more bytes ----------

  lemma FieldPrefix(buf: seq<byte>, k: nat, pos: nat, guard: nat)
    requires pos <= k <= |buf|
    ensures var (whole, part) := (ParseField(buf, pos, guard), ParseField(buf[..k], pos, guard));
            && (part != Partial ==> whole == part)
            && (whole.Until? ==> part == if whole.end <= k then whole else Partial)
  {
    assert buf[..k][pos..] == buf[pos..][..k - pos];
    Varint.DecodePrefix(buf[pos..], k - pos);
  }

  /** Done on a buffer: every prefix short of the header needs more, every other one agrees. */
  lemma DonePrefix(buf: seq<byte>, k: nat)
    requires k <= |buf| && Parse(buf).Done?
    ensures Parse(buf[..k]) == if Parse(buf).consumed <= k then Parse(buf) else NeedMore
  {
    if k > 0 {
      FieldPrefix(buf, k, 1, MAX_MESSAGE_LENGTH);
      var p := ParseField(buf, 1, MAX_MESSAGE_LENGTH).end;
      if p <= k {
        FieldPrefix(buf, k, p, MAX_PADDING_LENGTH);
      }
    }
  }

  /** Once decided, the answer never changes however the buffer grows. */
  lemma DecidedIsStable(buf: seq<byte>, rest: seq<byte>)
    requires Parse(buf) != NeedMore
    ensures Parse(buf + rest) == Parse(buf)
  {
    var all := buf + rest;
    assert all[..|buf|] == buf;
    FieldPrefix(all, |buf|, 1, MAX_MESSAGE_LENGTH);
    if ParseField(buf, 1, MAX_MESSAGE_LENGTH).Until? {
      FieldPrefix(all, |buf|, ParseField(buf, 1, MAX_MESSAGE_LENGTH).end, MAX_PADDING_LENGTH);
    }
  }

  // ---------- the bound ----------

  const MAX_HEADER := 1 + 8 + MAX_MESSAGE_LENGTH + 8 + MAX_PADDING_LENGTH

  /** Every buffer of 6161 bytes or more is decided. */
  lemma LongIsDecided(buf: seq<byte>)
    requires |buf| >= MAX_HEADER
    ensures Parse(buf) != NeedMore
    ensures MAX_HEADER == 6161
  {
    var first := ParseField(buf, 1, MAX_MESSAGE_LENGTH);
    if first.Until? {
      assert first.end <= 1 + 8 + MAX_MESSAGE_LENGTH;
    }
  }

  /** The bound is exact: some buffer of 6160 bytes is still undecided. */
  lemma BoundIsExact()
    ensures exists buf: seq<byte> :: |buf| == MAX_HEADER - 1 && Parse(buf) == NeedMore
  {
    var a: seq<byte> := [0xC0, 0, 0, 0, 0, 0, 0x08, 0x00];
    var b: seq<byte> := [0xC0, 0, 0, 0, 0, 0, 0x10, 0x00];
    var (msg, pad) := (seq(2048, _ => 0), seq(4095, _ => 0));
    var buf: seq<byte> := [0] + a + msg + b + pad;
    WideLength(8, a);
    WideLength(16, b);
    assert buf[1..] == a + (msg + b + pad);
    Varint.DecodeExtend(a, msg + b + pad);
    assert buf[2057..] == b + pad;
    Varint.DecodeExtend(b, pad);
    assert Parse(buf) == NeedMore;
  }

  lemma {:induction false} LeadingZeros(s: seq<byte>)
    requires forall i | 0 <= i < |s| :: s[i] == 0
    ensures Varint.Digits(0, s) == 0
  {
    if s != [] {
      LeadingZeros(s[..|s| - 1]);
    }
  }

  // A two-byte length in the eight-byte form.
  lemma WideLength(h: byte, s: seq<byte>)
    requires s == [0xC0, 0, 0, 0, 0, 0, h, 0]
    ensures Varint.Decode(s) == Some((h * 256, 8))
  {
    var t: seq<byte> := s[1..8];
    var u := t[..6];
    assert s[1] == 0 && s[2] == 0 && s[3] == 0 && s[4] == 0 && s[5] == 0;
    assert forall i | 0 <= i < 5 :: u[..5][i] == s[i + 1];
    LeadingZeros(u[..5]);
    assert Varint.Digits(0, u) == Varint.Digits(0, u[..5]) * 256 + u[5];
  }

  // ---------- the grammar ----------

  // `s` is exactly a length prefix, in any varint form, followed by that many bytes.
  predicate IsField(s: seq<byte>, guard: nat) {
    var v := Varint.Decode(s);
    v.Some? && v.value.0 <= guard && |s| == v.value.1 + v.value.0
  }

  predicate SplitsAt(h: seq<byte>, p: nat) {
    1 <= p <= |h| && IsField(h[1..p], MAX_MESSAGE_LENGTH) && IsField(h[p..], MAX_PADDING_LENGTH)
  }

  ghost predicate IsHeader(h: seq<byte>) { exists p: nat :: SplitsAt(h, p) }

  lemma FieldIff(buf: seq<byte>, pos: nat, end: nat, guard: nat)
    requires pos <= end <= |buf|
    ensures ParseField(buf, pos, guard) == Until(end) <==> IsField(buf[pos..end], guard)
  {
    assert buf[pos..][..end - pos] == buf[pos..end];
    Varint.DecodePrefix(buf[pos..], end - pos);
  }

  /** Done is reported exactly for a well-formed header at the front, with its status and length. */
  lemma DoneIff(buf: seq<byte>, ok: bool, c: nat)
    ensures Parse(buf) == Done(ok, c) <==> c <= |buf| && IsHeader(buf[..c]) && ok == (buf[0] == 0)
  {
    if Parse(buf) == Done(ok, c) {
      var p := ParseField(buf, 1, MAX_MESSAGE_LENGTH).end;
      FieldIff(buf, 1, p, MAX_MESSAGE_LENGTH);
      FieldIff(buf, p, c, MAX_PADDING_LENGTH);
      assert buf[..c][1..p] == buf[1..p] && buf[..c][p..] == buf[p..c];
      assert SplitsAt(buf[..c], p);
    }
    if c <= |buf| && IsHeader(buf[..c]) && ok == (buf[0] == 0) {
      var p: nat :| SplitsAt(buf[..c], p);
      assert buf[..c][1..p] == buf[1..p] && buf[..c][p..] == buf[p..c];
      FieldIff(buf, 1, p, MAX_MESSAGE_LENGTH);
      FieldIff(buf, p, c, MAX_PADDING_LENGTH);
    }
  }

  // A response as a server lays it out.
  function EncodeResponse(status: byte, msg: seq<byte>, pad: seq<byte>): (s: seq<byte>)
    requires |msg| < Varint.LIMIT && |pad| < Varint.LIMIT
  {
    [status] + (Varint.Encode(|msg|) + msg) + (Varint.Encode(|pad|) + pad)
  }

  lemma EncodedField(front: seq<byte>, body: seq<byte>, rest: seq<byte>, guard: nat)
    requires |body| < Varint.LIMIT
    ensures var enc := Varint.Encode(|body|) + body;
            ParseField(front + enc + rest, |front|, guard)
            == if |body| > guard then TooLong else Until(|front + enc|)
  {
    var enc := Varint.Encode(|body|) + body;
    var buf := front + enc + rest;
    assert buf[|front|..] == Varint.Encode(|body|) + (body + rest);
    Varint.DecodeEncode(|body|, body + rest);
  }

  /** What a server encodes is what the client parses, whatever follows; oversized fields are refused. */
  lemma ParseEncodeResponse(status: byte, msg: seq<byte>, pad: seq<byte>, rest: seq<byte>)
    requires |msg| < Varint.LIMIT && |pad| < Varint.LIMIT
    ensures Parse(EncodeResponse(status, msg, pad) + rest) ==
              if |msg| > 2048 || |pad| > 4096 then Invalid
              else Done(status == 0, |EncodeResponse(status, msg, pad)|)
  {
    var (m, p) := (Varint.Encode(|msg|) + msg, Varint.Encode(|pad|) + pad);
    var buf := EncodeResponse(status, msg, pad) + rest;
    EncodedField([status], msg, p + rest, MAX_MESSAGE_LENGTH);
    assert buf == [status] + m + (p + rest);
    EncodedField([status] + m, pad, rest, MAX_PADDING_LENGTH);
    assert buf == ([status] + m) + p + rest;
  }
}
