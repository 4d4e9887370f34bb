/**
 Salamander packet obfuscation: an eight-byte salt, then the payload XORed with
 a 32-byte key derived from the pre-shared key and the salt.  The hash is an
 arbitrary function to 32-byte keys.
 */
module Salamander {
  import opened Bytes

  const SALT_LEN := 8
  const KEY_LEN := 32
  const MIN_PSK_LEN := 4

  type Key = k: seq<byte> | |k| == KEY_LEN witness seq(KEY_LEN, _ => 0)
  type Salt = s: seq<byte> | |s| == SALT_LEN witness seq(SALT_LEN, _ => 0)
  type Hash = seq<byte> -> Key

  // ---------- exclusive or ----------

  function Pow2(n: nat): (p: nat)
    ensures p >= 1
  {
    if n == 0 then 1 else 2 * Pow2(n - 1)
  }

  // Bitwise exclusive or of the low `n` bits.
  function XorBits(a: nat, b: nat, n: nat): (r: nat)
    ensures r < Pow2(n)
  {
    if n == 0 then 0 else 2 * XorBits(a / 2, b / 2, n - 1) + (a + b) % 2
  }

  lemma LowBit(x: nat, a: nat, b: nat)
    ensures var y := 2 * x + (a + b) % 2; y / 2 == x && (y + b) % 2 == a % 2
  {
  }

  lemma {:induction false} XorTwice(a: nat, b: nat, n: nat)
    requires a < Pow2(n)
    ensures XorBits(XorBits(a, b, n), b, n) == a
  {
    if n > 0 {
      XorTwice(a / 2, b / 2, n - 1);
      var x := XorBits(a / 2, b / 2, n - 1);
      LowBit(x, a, b);
      var y := XorBits(a, b, n);
      assert y == 2 * x + (a + b) % 2;
      assert XorBits(y, b, n) == 2 * XorBits(y / 2, b / 2, n - 1) + (y + b) % 2;
    }
  }

  lemma Pow2Of8()
    ensures Pow2(8) == 256
  {
    assert Pow2(4) == 16;
  }

  function Xor(a: byte, b: byte): (r: byte) {
    Pow2Of8();
    XorBits(a, b, 8)
  }

  function Bit(x: nat, k: nat): (b: nat)
    ensures b < 2
  {
    if k == 0 then x % 2 else Bit(x / 2, k - 1)
  }

  lemma {:induction false} XorBitsAt(a: nat, b: nat, n: nat, k: nat)
    requires k < n
    ensures Bit(XorBits(a, b, n), k) == 1 <==> Bit(a, k) != Bit(b, k)
  {
    LowBit(XorBits(a / 2, b / 2, n - 1), a, b);
    if k > 0 {
      XorBitsAt(a / 2, b / 2, n - 1, k - 1);
    }
  }

  /** Each bit of the result is set exactly if the two bits differ. */
  lemma XorAt(a: byte, b: byte, k: nat)
    requires k < 8
    ensures Bit(Xor(a, b), k) == 1 <==> Bit(a, k) != Bit(b, k)
  {
    Pow2Of8();
    XorBitsAt(a, b, 8, k);
  }

  lemma XorCancels(a: byte, b: byte)
    ensures Xor(Xor(a, b), b) == a
  {
    Pow2Of8();
    XorTwice(a, b, 8);
  }

  lemma {:induction false} XorDetermines(a: nat, b: nat, c: nat, n: nat)
    requires b < Pow2(n) && c < Pow2(n) && XorBits(a, b, n) == XorBits(a, c, n)
    ensures b == c
  {
    if n > 0 {
      SplitBits(XorBits(a / 2, b / 2, n - 1), XorBits(a / 2, c / 2, n - 1), a, b, c);
      XorDetermines(a / 2, b / 2, c / 2, n - 1);
    }
  }

  lemma SplitBits(x: nat, y: nat, a: nat, b: nat, c: nat)
    requires 2 * x + (a + b) % 2 == 2 * y + (a + c) % 2
    ensures x == y && b % 2 == c % 2
  {
  }

  // Only the key byte that masked a byte unmasks it.
  lemma XorCancelsOnly(a: byte, b: byte, c: byte)
    ensures Xor(Xor(a, b), c) == a <==> b == c
  {
    Pow2Of8();
    XorCancels(a, b);
    if Xor(Xor(a, b), c) == a {
      XorDetermines(Xor(a, b), b, c, 8);
    }
  }

  // ---------- the packet format ----------

  // The payload under the repeated key.
  function Mask(key: Key, s: seq<byte>): (r: seq<byte>)
    ensures |r| == |s|
    ensures forall i | 0 <= i < |s| :: r[i] == Xor(s[i], key[i % KEY_LEN])
  {
    seq(|s|, i requires 0 <= i < |s| => Xor(s[i], key[i % KEY_LEN]))
  }

  lemma MaskTwice(key: Key, s: seq<byte>)
    ensures Mask(key, Mask(key, s)) == s
  {
    forall i | 0 <= i < |s|
      ensures Mask(key, Mask(key, s))[i] == s[i]
    {
      XorCancels(s[i], key[i % KEY_LEN]);
    }
  }

  // The packet on the wire.
  function Obfuscated(hash: Hash, psk: seq<byte>, salt: Salt, payload: seq<byte>): (d: seq<byte>) {
    salt + Mask(hash(psk + salt), payload)
  }

  // The payload of a packet, if it is longer than a salt.
  function Recovered(hash: Hash, psk: seq<byte>, d: seq<byte>): (r: Option<seq<byte>>) {
    if |d| <= SALT_LEN then None else Some(Mask(hash(psk + d[..SALT_LEN]), d[SALT_LEN..]))
  }

  /**
   The packet byte by byte: eight bytes of salt, then the payload, each bit flipped where
   the 32-byte key derived from pre-shared key and salt, repeated, has a one.
   */
  lemma PacketLayout(hash: Hash, psk: seq<byte>, salt: Salt, payload: seq<byte>)
    ensures var d := Obfuscated(hash, psk, salt, payload);
            && |d| == 8 + |payload|
            && (forall i | 0 <= i < 8 :: d[i] == salt[i])
            && (forall i, k: nat | 0 <= i < |payload| && k < 8 ::
                  Bit(d[8 + i], k) == 1 <==> Bit(payload[i], k) != Bit(hash(psk + salt)[i % 32], k))
  {
    var d := Obfuscated(hash, psk, salt, payload);
    forall i, k: nat | 0 <= i < |payload| && k < 8
      ensures Bit(d[8 + i], k) == 1 <==> Bit(payload[i], k) != Bit(hash(psk + salt)[i % 32], k)
    {
      XorAt(payload[i], hash(psk + salt)[i % 32], k);
    }
  }

  /** A peer with the same key recovers exactly the non-empty payloads. */
  lemma RecoverObfuscated(hash: Hash, psk: seq<byte>, salt: Salt, payload: seq<byte>)
    ensures Recovered(hash, psk, Obfuscated(hash, psk, salt, payload)) ==
              if payload == [] then None else Some(payload)
  {
    var d := Obfuscated(hash, psk, salt, payload);
    assert d[..SALT_LEN] == salt;
    assert d[SALT_LEN..] == Mask(hash(psk + salt), payload);
    MaskTwice(hash(psk + salt), payload);
  }

  /** A peer under another key recovers the payload if and only if the keys agree on every byte used. */
  lemma OtherKeyIff(hash: Hash, psk: seq<byte>, psk': seq<byte>, salt: Salt, payload: seq<byte>)
    requires payload != []
    ensures Recovered(hash, psk', Obfuscated(hash, psk, salt, payload)) == Some(payload) <==>
              forall i | 0 <= i < |payload| :: hash(psk + salt)[i % KEY_LEN] == hash(psk' + salt)[i % KEY_LEN]
  {
    var (key, key') := (hash(psk + salt), hash(psk' + salt));
    var d := Obfuscated(hash, psk, salt, payload);
    assert d[..SALT_LEN] == salt;
    assert d[SALT_LEN..] == Mask(key, payload);
    var r := Mask(key', Mask(key, payload));
    forall i | 0 <= i < |payload|
      ensures r[i] == payload[i] <==> key[i % KEY_LEN] == key'[i % KEY_LEN]
    {
      XorCancelsOnly(payload[i], key[i % KEY_LEN], key'[i % KEY_LEN]);
    }
    if r == payload {
      assert forall i | 0 <= i < |payload| :: r[i] == payload[i];
    }
  }

  class Obfuscator {
    const hash: Hash
    const psk: seq<byte>

    constructor (hash: Hash, psk: seq<byte>)
      ensures this.hash == hash && this.psk == psk
    {
      this.hash, this.psk := hash, psk;
    }

    static method Create(hash: Hash, psk: seq<byte>) returns (o: Obfuscator?)
      ensures (o == null) == (|psk| < 4)
      ensures o != null ==> fresh(o) && o.hash == hash && o.psk == psk
    {
      if |psk| < MIN_PSK_LEN {
        return null;
      }
      o := new Obfuscator(hash, psk);
    }

    /** Writes the packet to the front of `out`, or nothing if it does not fit; `salt` is the random draw. */
    method Obfuscate(input: seq<byte>, out: array<byte>, salt: Salt) returns (n: nat)
      modifies out
      ensures n == if out.Length < |input| + 8 then 0 else |input| + 8
      ensures n > 0 ==> out[..n] == Obfuscated(hash, psk, salt, input)
      ensures out[n..] == old(out[n..])
    {
      var outLen := |input| + SALT_LEN;
      if out.Length < outLen {
        return 0;
      }
      for j := 0 to SALT_LEN
        invariant out[..j] == salt[..j]
        invariant out[SALT_LEN..] == old(out[SALT_LEN..])
      {
        out[j] := salt[j];
      }
      assert out[..SALT_LEN] == salt;
      var key := hash(psk + salt);
      for i := 0 to |input|
        invariant out[..SALT_LEN] == salt
        invariant forall j | 0 <= j < i :: out[j + SALT_LEN] == Xor(input[j], key[j % KEY_LEN])
        invariant out[outLen..] == old(out[outLen..])
      {
        out[i + SALT_LEN] := Xor(input[i], key[i % KEY_LEN]);
      }
      assert out[SALT_LEN..outLen] == Mask(key, input);
      assert out[..outLen] == out[..SALT_LEN] + out[SALT_LEN..outLen];
      n := outLen;
    }

    /** Writes the payload to the front of `out`; 0 if the packet is a runt or does not fit. */
    method Deobfuscate(input: seq<byte>, out: array<byte>) returns (n: nat)
      modifies out
      ensures n == if |input| <= 8 || out.Length < |input| - 8 then 0 else |input| - 8
      ensures n > 0 ==> Recovered(hash, psk, input) == Some(out[..n])
      ensures out[n..] == old(out[n..])
    {
      if |input| <= SALT_LEN {
        return 0;
      }
      var outLen := |input| - SALT_LEN;
      if out.Length < outLen {
        return 0;
      }
      var key := hash(psk + input[..SALT_LEN]);
      for i := 0 to outLen
        invariant forall j | 0 <= j < i :: out[j] == Xor(input[SALT_LEN..][j], key[j % KEY_LEN])
        invariant out[outLen..] == old(out[outLen..])
      {
        out[i] := Xor(input[SALT_LEN..][i], key[i % KEY_LEN]);
      }
      assert out[..outLen] == Mask(key, input[SALT_LEN..]);
      n := outLen;
    }
  }
}
