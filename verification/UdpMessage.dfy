/** The UDP relay message and its datagram format. */
module UdpMessages {
  import opened Bytes
  import Varint

  // ---------- addresses: UTF-8 strings ----------

  predicate Tail(b: byte) { 0x80 <= b <= 0xBF }

  // Length of the well-formed UTF-8 sequence at the front of `s` (section 4 of RFC 3629), 0 if none.
  function Utf8Unit(s: seq<byte>): (n: nat)
    requires s != []
    ensures n <= |s|
  {
    var a := s[0];
    if a <= 0x7F then 1
    else if |s| >= 2 && 0xC2 <= a <= 0xDF && Tail(s[1]) then 2
    else if |s| >= 3 && 0xE0 <= a <= 0xEF && Tail(s[1]) && Tail(s[2])
         && (a == 0xE0 ==> s[1] >= 0xA0) && (a == 0xED ==> s[1] <= 0x9F) then 3
    else if |s| >= 4 && 0xF0 <= a <= 0xF4 && Tail(s[1]) && Tail(s[2]) && Tail(s[3])
         && (a == 0xF0 ==> s[1] >= 0x90) && (a == 0xF4 ==> s[1] <= 0x8F) then 4
    else 0
  }

  predicate ValidUtf8(s: seq<byte>) {
    s == [] || (Utf8Unit(s) > 0 && ValidUtf8(s[Utf8Unit(s)..]))
  }

  // The encoding of one Unicode scalar value (section 3 of RFC 3629).
  function Utf8Of(c: char): (s: seq<byte>)
    ensures s != []
  {
    var n := c as int;
    if n < 0x80 then [n]
    else if n < 0x800 then [0xC0 + n / 0x40, 0x80 + n % 0x40]
    else if n < 0x1_0000 then [0xE0 + n / 0x1000, 0x80 + n / 0x40 % 0x40, 0x80 + n % 0x40]
    else [0xF0 + n / 0x4_0000, 0x80 + n / 0x1000 % 0x40, 0x80 + n / 0x40 % 0x40, 0x80 + n % 0x40]
  }

  function Utf8(text: string): (s: seq<byte>) { if text == [] then [] else Utf8Of(text[0]) + Utf8(text[1..]) }

  lemma LeadThree(n: nat)
    requires 0x800 <= n < 0x1_0000 && !(0xD800 <= n < 0xE000)
    ensures var (a, b) := (0xE0 + n / 0x1000, 0x80 + n / 0x40 % 0x40);
            0xE0 <= a <= 0xEF && (a == 0xE0 ==> b >= 0xA0) && (a == 0xED ==> b <= 0x9F)
  {
    SixBitSteps(n);
  }

  lemma LeadFour(n: nat)
    requires 0x1_0000 <= n < 0x11_0000
    ensures var (a, b) := (0xF0 + n / 0x4_0000, 0x80 + n / 0x1000 % 0x40);
            0xF0 <= a <= 0xF4 && (a == 0xF0 ==> b >= 0x90) && (a == 0xF4 ==> b <= 0x8F)
  {
    SixBitSteps(n);
  }

  lemma UnitOfThree(s: seq<byte>, n: nat)
    requires 0x800 <= n < 0x1_0000 && !(0xD800 <= n < 0xE000) && |s| >= 3
    requires s[0] == 0xE0 + n / 0x1000 && s[1] == 0x80 + n / 0x40 % 0x40 && s[2] == 0x80 + n % 0x40
    ensures Utf8Unit(s) == 3
  {
    LeadThree(n);
  }

  lemma UnitOfFour(s: seq<byte>, n: nat)
    requires 0x1_0000 <= n < 0x11_0000 && |s| >= 4
    requires s[0] == 0xF0 + n / 0x4_0000 && s[1] == 0x80 + n / 0x1000 % 0x40
    requires s[2] == 0x80 + n / 0x40 % 0x40 && s[3] == 0x80 + n % 0x40
    ensures Utf8Unit(s) == 4
  {
    LeadFour(n);
  }

  lemma UnitOfChar(c: char, rest: seq<byte>)
    ensures Utf8Unit(Utf8Of(c) + rest) == |Utf8Of(c)|
  {
    var (n, s) := (c as int, Utf8Of(c) + rest);
    if n >= 0x1_0000 {
      UnitOfFour(s, n);
    } else if n >= 0x800 {
      UnitOfThree(s, n);
    }
  }

  lemma CharOfUnit(s: seq<byte>) returns (c: char)
    requires s != [] && Utf8Unit(s) > 0
    ensures Utf8Of(c) == s[..Utf8Unit(s)]
  {
    if Utf8Unit(s) == 1 {
      c := s[0] as char;
    } else if Utf8Unit(s) == 2 {
      c := Two(s[0], s[1]);
    } else if Utf8Unit(s) == 3 {
      c := Three(s[0], s[1], s[2]);
    } else {
      c := Four(s[0], s[1], s[2], s[3]);
    }
  }

  lemma Two(a: byte, b: byte) returns (c: char)
    requires 0xC2 <= a <= 0xDF && Tail(b)
    ensures Utf8Of(c) == [a, b]
  {
    c := ((a - 0xC0) * 0x40 + (b - 0x80)) as char;
  }

  // One more group of six bits.
  lemma SixBits(x: nat, y: nat)
    requires y < 0x40
    ensures (x * 0x40 + y) / 0x40 == x && (x * 0x40 + y) % 0x40 == y
  {
  }

  lemma SixBitSteps(n: nat)
    ensures n / 0x40 / 0x40 == n / 0x1000 && n / 0x1000 / 0x40 == n / 0x4_0000
  {
  }

  lemma Groups(x: nat, y: nat, z: nat)
    requires y < 0x40 && z < 0x40
    ensures var n := (x * 0x40 + y) * 0x40 + z; n / 0x1000 == x && n / 0x40 % 0x40 == y && n % 0x40 == z
  {
    var n := (x * 0x40 + y) * 0x40 + z;
    SixBits(x * 0x40 + y, z);
    SixBits(x, y);
    SixBitSteps(n);
  }

  lemma Three(a: byte, b: byte, d: byte) returns (c: char)
    requires 0xE0 <= a <= 0xEF && Tail(b) && Tail(d) && (a == 0xE0 ==> b >= 0xA0) && (a == 0xED ==> b <= 0x9F)
    ensures Utf8Of(c) == [a, b, d]
  {
    var n := ((a - 0xE0) * 0x40 + (b - 0x80)) * 0x40 + (d - 0x80);
    Groups(a - 0xE0, b - 0x80, d - 0x80);
    c := n as char;
  }

  lemma Four(a: byte, b: byte, d: byte, e: byte) returns (c: char)
    requires 0xF0 <= a <= 0xF4 && Tail(b) && Tail(d) && Tail(e) && (a == 0xF0 ==> b >= 0x90) && (a == 0xF4 ==> b <= 0x8F)
    ensures Utf8Of(c) == [a, b, d, e]
  {
    var x := (a - 0xF0) * 0x40 + (b - 0x80);
    var n := (x * 0x40 + (d - 0x80)) * 0x40 + (e - 0x80);
    Groups(x, d - 0x80, e - 0x80);
    SixBits(a - 0xF0, b - 0x80);
    SixBitSteps(n);
    c := n as char;
  }

  lemma {:induction false} EncodedIsValid(text: string)
    ensures ValidUtf8(Utf8(text))
  {
    if text != [] {
      EncodedIsValid(text[1..]);
      UnitOfChar(text[0], Utf8(text[1..]));
      var s := Utf8(text);
      assert s[|Utf8Of(text[0])|..] == Utf8(text[1..]);
    }
  }

  lemma {:induction false} ValidIsEncoded(s: seq<byte>) returns (text: string)
    requires ValidUtf8(s)
    ensures Utf8(text) == s
    decreases |s|
  {
    if s == [] {
      text := [];
    } else {
      var c := CharOfUnit(s);
      var rest := ValidIsEncoded(s[Utf8Unit(s)..]);
      text := [c] + rest;
      Utf8Cons(c, rest);
      SplitFront(s, Utf8Unit(s));
    }
  }

  lemma Utf8Cons(c: char, rest: string)
    ensures Utf8([c] + rest) == Utf8Of(c) + Utf8(rest)
  {
    assert ([c] + rest)[1..] == rest;
  }

  lemma SplitFront(s: seq<byte>, n: nat)
    requires n <= |s|
    ensures s == s[..n] + s[n..]
  {
  }

  /** The accepted addresses are exactly the encodings of texts. */
  lemma ValidUtf8Iff(s: seq<byte>)
    ensures ValidUtf8(s) <==> exists text: string :: Utf8(text) == s
  {
    if ValidUtf8(s) {
      var text := ValidIsEncoded(s);
    }
    if text: string :| Utf8(text) == s {
      EncodedIsValid(text);
    }
  }

  // The bytes of a string: at most isize::MAX of them.  That they are well-formed
  // UTF-8 is part of `Deliverable` below.
  type Str = s: seq<byte> | |s| < 0x8000_0000_0000_0000

  datatype UdpMessage = UdpMessage(
    sessionId: u32, packetId: u16, fragId: byte, fragCount: byte, addr: Str, data: seq<byte>)

  function HeaderSize(m: UdpMessage): (n: nat) {
    4 + 2 + 1 + 1 + Varint.Len(|m.addr|) + |m.addr|
  }

  function Size(m: UdpMessage): (n: nat) { HeaderSize(m) + |m.data| }

  // Session id, packet id, fragment id and fragment count, big-endian.
  function FixedHeader(m: UdpMessage): (s: seq<byte>)
    ensures |s| == 8
  {
    Varint.LowBytes(m.sessionId, 4) + Varint.LowBytes(m.packetId, 2) + [m.fragId, m.fragCount]
  }

  /** The datagram that carries `m`. */
  function Encode(m: UdpMessage): (d: seq<byte>)
    ensures |d| == Size(m)
  {
    FixedHeader(m) + Varint.Encode(|m.addr|) + m.addr + m.data
  }

  function Parse(d: seq<byte>): (r: Option<UdpMessage>) {
    if |d| < 8 then None
    else
      var v := Varint.Decode(d[8..]);
      if v == None then None else ParseAt(d, v.value.0, 8 + v.value.1)
  }

  // The rest of the datagram once the address is known to be `addrLen` bytes from `addrStart`.
  function ParseAt(d: seq<byte>, addrLen: nat, addrStart: nat): (r: Option<UdpMessage>)
    requires 8 <= |d|
  {
    if addrLen == 0 || addrLen > MAX_MESSAGE_LENGTH then None
    else
      var addrEnd := addrStart + addrLen;
      if |d| <= addrEnd then None
      else if !ValidUtf8(d[addrStart..addrEnd]) then None
      else Some(UdpMessage(BeU32(d[..4]), BeU16(d[4..6]), d[6], d[7], d[addrStart..addrEnd], d[addrEnd..]))
  }

  function BeU32(s: seq<byte>): (r: u32)
    requires |s| == 4
  {
    Varint.DigitsBound(0, s);
    Varint.Pow256Values();
    Varint.Digits(0, s)
  }

  function BeU16(s: seq<byte>): (r: u16)
    requires |s| == 2
  {
    Varint.DigitsBound(0, s);
    Varint.Pow256Values();
    Varint.Digits(0, s)
  }

  // ---------- serialization into a caller's buffer ----------

  // Writing `s` right behind a finished prefix extends the finished prefix.
  lemma WriteBehind(was: seq<byte>, done: seq<byte>, s: seq<byte>)
    requires |done| + |s| <= |was|
    ensures var now := done + was[|done|..];
            now[..|done|] + s + now[|done| + |s|..] == (done + s) + was[|done + s|..]
  {
  }

  method SerializeFixed(m: UdpMessage, buf: array<byte>)
    requires 8 <= buf.Length
    modifies buf
    ensures buf[..] == FixedHeader(m) + old(buf[8..])
  {
    ghost var was := buf[..];
    var session, packet := Varint.LowBytes(m.sessionId, 4), Varint.LowBytes(m.packetId, 2);
    CopyFromSlice(buf, 0, session);
    assert buf[..] == session + was[4..];
    CopyFromSlice(buf, 4, packet);
    WriteBehind(was, session, packet);
    ghost var now := buf[..];
    assert now == session + packet + was[6..];
    buf[6] := m.fragId;
    buf[7] := m.fragCount;
    assert buf[..6] == now[..6] && buf[8..] == now[8..];
    TwoMore(session + packet, was, buf[..]);
  }

  lemma TwoMore(done: seq<byte>, was: seq<byte>, now: seq<byte>)
    requires |done| == 6 && 8 <= |was| == |now| && now[..6] == done && now[8..] == was[8..]
    ensures now == done + [now[6], now[7]] + was[8..]
  {
  }

  method Serialize(m: UdpMessage, buf: array<byte>) returns (r: Option<nat>)
    modifies buf
    ensures r == if buf.Length < Size(m) then None else Some(Size(m))
    ensures buf[..] == if r == None then old(buf[..]) else Encode(m) + old(buf[Size(m)..])
  {
    var total := Size(m);
    if buf.Length < total {
      return None;
    }
    ghost var was := buf[..];
    SerializeFixed(m, buf);
    var i := 8;
    ghost var done := FixedHeader(m);
    var n := Varint.PutSlice(buf, i, |m.addr|);
    WriteBehind(was, done, Varint.Encode(|m.addr|));
    i, done := i + n, done + Varint.Encode(|m.addr|);
    CopyFromSlice(buf, i, m.addr);
    WriteBehind(was, done, m.addr);
    i, done := i + |m.addr|, done + m.addr;
    CopyFromSlice(buf, i, m.data);
    WriteBehind(was, done, m.data);
    i := i + |m.data|;
    r := Some(i);
  }

  lemma HeaderBytes(m: UdpMessage)
    ensures FixedHeader(m) ==
              [m.sessionId / 0x100_0000, m.sessionId / 0x1_0000 % 0x100, m.sessionId / 0x100 % 0x100, m.sessionId % 0x100]
              + [m.packetId / 0x100, m.packetId % 0x100] + [m.fragId, m.fragCount]
  {
    SessionBytes(m.sessionId);
    Varint.LowBytes2(m.packetId);
  }

  lemma SessionBytes(id: u32)
    ensures Varint.LowBytes(id, 4) == [id / 0x100_0000, id / 0x1_0000 % 0x100, id / 0x100 % 0x100, id % 0x100]
  {
    Varint.LowBytes4(id);
  }

  /** The datagram byte by byte, all numbers most significant byte first. */
  lemma Layout(m: UdpMessage)
    ensures Encode(m) ==
              [m.sessionId / 0x100_0000, m.sessionId / 0x1_0000 % 0x100, m.sessionId / 0x100 % 0x100, m.sessionId % 0x100]
              + [m.packetId / 0x100, m.packetId % 0x100] + [m.fragId, m.fragCount]
              + Varint.Written(|m.addr|) + m.addr + m.data
  {
    HeaderBytes(m);
    Varint.WrittenIsEncode(|m.addr|);
  }

  // ---------- round trips ----------

  predicate Deliverable(m: UdpMessage) {
    1 <= |m.addr| <= 2048 && ValidUtf8(m.addr) && m.data != []
  }

  lemma FixedFields(sessionId: u32, packetId: u16)
    ensures BeU32(Varint.LowBytes(sessionId, 4)) == sessionId
    ensures BeU16(Varint.LowBytes(packetId, 2)) == packetId
  {
    Varint.DigitsOfLowBytes(0, sessionId, 4);
    Varint.DigitsOfLowBytes(0, packetId, 2);
    Varint.Pow256Values();
  }

  lemma LayoutSlices(head: seq<byte>, len: seq<byte>, addr: seq<byte>, data: seq<byte>)
    requires |head| == 8
    ensures var d := head + len + addr + data;
            && d[8..] == len + (addr + data)
            && d[..4] == head[..4] && d[4..6] == head[4..6] && d[6] == head[6] && d[7] == head[7]
            && d[8 + |len|..8 + |len| + |addr|] == addr && d[8 + |len| + |addr|..] == data
  {
  }

  // What the parser does with a datagram laid out as header, length, address, payload.
  lemma ParseLayout(head: seq<byte>, len: seq<byte>, addr: seq<byte>, data: seq<byte>)
    requires |head| == 8 && Varint.Decode(len + (addr + data)) == Some((|addr|, |len|))
    requires 1 <= |addr| <= MAX_MESSAGE_LENGTH && ValidUtf8(addr) && data != []
    ensures Parse(head + len + addr + data)
            == Some(UdpMessage(BeU32(head[..4]), BeU16(head[4..6]), head[6], head[7], addr, data))
  {
    var d := head + len + addr + data;
    LayoutSlices(head, len, addr, data);
    assert Parse(d) == ParseAt(d, |addr|, 8 + |len|);
  }

  lemma HeaderFields(m: UdpMessage)
    ensures var h := FixedHeader(m);
            BeU32(h[..4]) == m.sessionId && BeU16(h[4..6]) == m.packetId && h[6] == m.fragId && h[7] == m.fragCount
  {
    var h := FixedHeader(m);
    FixedFields(m.sessionId, m.packetId);
    assert h[..4] == Varint.LowBytes(m.sessionId, 4);
    assert h[4..6] == Varint.LowBytes(m.packetId, 2);
  }

  /** A message survives its own encoding exactly when its address is 1 to 2048 bytes of UTF-8 and it has a payload. */
  lemma ParseEncode(m: UdpMessage)
    ensures Parse(Encode(m)) == Some(m) <==> Deliverable(m)
  {
    if Deliverable(m) {
      DeliverableParses(m);
    } else if Parse(Encode(m)).Some? {
      ParsedIsDeliverable(Encode(m));
    }
  }

  lemma DeliverableParses(m: UdpMessage)
    requires Deliverable(m)
    ensures Parse(Encode(m)) == Some(m)
  {
    HeaderFields(m);
    Varint.DecodeEncode(|m.addr|, m.addr + m.data);
    ParseLayout(FixedHeader(m), Varint.Encode(|m.addr|), m.addr, m.data);
  }

  lemma ParsedIsDeliverable(d: seq<byte>)
    requires Parse(d).Some?
    ensures Deliverable(Parse(d).value)
  {
  }

  /**
   Whatever datagram is accepted, re-encoding it is no longer than the original,
   parses to the same message, and equals the original exactly when the original
   used the shortest address-length varint.
   */
  lemma ParseNormalises(d: seq<byte>)
    requires Parse(d).Some?
    ensures var m := Parse(d).value;
            && Size(m) <= |d|
            && Parse(Encode(m)) == Some(m)
            && (Encode(m) == d <==> Size(m) == |d|)
  {
    var m := Parse(d).value;
    ParsedIsDeliverable(d);
    ParseEncode(m);
    Varint.DecodeBounds(d[8..]);
    if Size(m) == |d| {
      CanonicalDatagram(d);
    }
  }

  // A header is determined by the fields read from it.
  lemma HeaderCanonical(head: seq<byte>, m: UdpMessage)
    requires |head| == 8 && BeU32(head[..4]) == m.sessionId && BeU16(head[4..6]) == m.packetId
    requires head[6] == m.fragId && head[7] == m.fragCount
    ensures FixedHeader(m) == head
  {
    FieldsCanonical(head[..4], head[4..6], m.sessionId, m.packetId);
    EightBytes(head);
  }

  lemma FieldsCanonical(session: seq<byte>, packet: seq<byte>, sessionId: u32, packetId: u16)
    requires |session| == 4 && |packet| == 2 && BeU32(session) == sessionId && BeU16(packet) == packetId
    ensures Varint.LowBytes(sessionId, 4) == session && Varint.LowBytes(packetId, 2) == packet
  {
    FixedFields(sessionId, packetId);
    Varint.DigitsInjective(0, session, 0, Varint.LowBytes(sessionId, 4));
    Varint.DigitsInjective(0, packet, 0, Varint.LowBytes(packetId, 2));
  }

  lemma EightBytes(head: seq<byte>)
    requires |head| == 8
    ensures head == head[..4] + head[4..6] + [head[6], head[7]]
  {
  }

  lemma CanonicalDatagram(d: seq<byte>)
    requires Parse(d).Some? && Size(Parse(d).value) == |d|
    ensures Encode(Parse(d).value) == d
  {
    var m := Parse(d).value;
    var (addrLen, n) := Varint.Decode(d[8..]).value;
    Varint.DecodeBounds(d[8..]);
    Varint.MinimalIsCanonical(d[8..]);
    assert d[..8][..4] == d[..4] && d[..8][4..6] == d[4..6];
    HeaderCanonical(d[..8], m);
    var len := d[8..8 + n];
    assert d[8..][..n] == len;
    assert d == d[..8] + len + m.addr + m.data;
  }
}
