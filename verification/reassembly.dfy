/**
 Turning the eight response bytes back into the 64-bit ciphertext: a left fold
 that shifts the accumulator up by one byte and ORs the next byte in, so the
 first byte received ends up most significant.
 */
module Reassembly {
  import opened Bits

  /** The response is exactly this many bytes. */
  const CIPHERTEXT_LEN: nat := 8

  /** One step of the fold: `(acc << 8) | b as u64`. */
  function Step(acc: u64, b: u8): (r: u64)
    ensures acc < Pow2(56) ==> r == acc * U8_LIMIT + b
  {
    Pow2Small();
    Pow2Limit();
    Pow2Monotone(8, 64);
    OrBound(Shl64(acc, 8), b, 64);
    if acc < Pow2(56) then
      Pow2Add(56, 8);
      OrDisjoint(Shl64(acc, 8), b, 8);
      Or(Shl64(acc, 8), b)
    else
      Or(Shl64(acc, 8), b)
  }

  /** The left fold of `Step` over `bytes`, starting from `acc`. */
  function Fold(acc: u64, bytes: seq<u8>): u64
    decreases |bytes|
  {
    if bytes == [] then acc else Fold(Step(acc, bytes[0]), bytes[1..])
  }

  /** The ciphertext as the link driver recovers it, folding from a zero accumulator. */
  function Reassemble(ciphertext: seq<u8>): u64
  {
    Fold(0, ciphertext)
  }

  /** The big-endian value of `bytes`: the sum of `bytes[i] * 256^(|bytes| - 1 - i)`. */
  function BigEndian(bytes: seq<u8>): nat
  {
    if bytes == [] then 0 else bytes[0] * Pow2(8 * (|bytes| - 1)) + BigEndian(bytes[1..])
  }

  /** `n` bytes hold a value below `2^(8 * n)`. */
  lemma {:induction false} BigEndianBound(bytes: seq<u8>)
    ensures BigEndian(bytes) < Pow2(8 * |bytes|)
  {
    if bytes != [] {
      var n := |bytes| - 1;
      var p := Pow2(8 * n);
      BigEndianBound(bytes[1..]);
      assert Pow2(8 * |bytes|) == U8_LIMIT * p by {
        Pow2Byte(8 * n);
      }
      MulMonotone(bytes[0], U8_LIMIT - 1, p);
    }
  }

  /**
   Folding `bytes` into an accumulator with room for them shifts the
   accumulator up past them and adds their big-endian value; no bit is lost.
   */
  lemma {:induction false} FoldIsBigEndian(acc: u64, bytes: seq<u8>)
    requires |bytes| <= CIPHERTEXT_LEN
    requires acc < Pow2(64 - 8 * |bytes|)
    ensures Fold(acc, bytes) == acc * Pow2(8 * |bytes|) + BigEndian(bytes)
    decreases |bytes|
  {
    if bytes != [] {
      var n := |bytes| - 1;
      var p := Pow2(8 * n);
      var q := Pow2(8 * |bytes|);
      var acc' := acc * U8_LIMIT + bytes[0];
      var rest := BigEndian(bytes[1..]);
      assert Step(acc, bytes[0]) == acc' by {
        Pow2Monotone(64 - 8 * |bytes|, 56);
      }
      assert acc' < Pow2(64 - 8 * n) by {
        Pow2Byte(64 - 8 * |bytes|);
      }
      assert q == U8_LIMIT * p by {
        Pow2Byte(8 * n);
      }
      calc {
        Fold(acc, bytes);
        Fold(acc', bytes[1..]);
        { FoldIsBigEndian(acc', bytes[1..]); }
        acc' * p + rest;
        { Distribute(acc, bytes[0], acc', p, rest); }
        acc * (U8_LIMIT * p) + (bytes[0] * p + rest);
        acc * q + (bytes[0] * p + rest);
        { BigEndianCons(bytes); }
        acc * q + BigEndian(bytes);
      }
    }
  }

  lemma BigEndianCons(bytes: seq<u8>)
    requires bytes != []
    ensures BigEndian(bytes) == bytes[0] * Pow2(8 * (|bytes| - 1)) + BigEndian(bytes[1..])
  {
  }

  lemma Distribute(acc: int, b: int, shifted: int, p: int, rest: int)
    requires shifted == acc * U8_LIMIT + b
    ensures shifted * p + rest == acc * (U8_LIMIT * p) + (b * p + rest)
  {
  }

  /** Reassembly is big-endian: the first byte received is the most significant. */
  lemma ReassembleIsBigEndian(ciphertext: seq<u8>)
    requires |ciphertext| <= CIPHERTEXT_LEN
    ensures Reassemble(ciphertext) == BigEndian(ciphertext)
  {
    Pow2Small();
    FoldIsBigEndian(0, ciphertext);
  }

  /** Before the last byte is folded in, the accumulator is below `2^56`, so `acc << 8` drops nothing. */
  lemma AccumulatorFits(ciphertext: seq<u8>, k: nat)
    requires |ciphertext| == CIPHERTEXT_LEN && k < CIPHERTEXT_LEN
    ensures Reassemble(ciphertext[..k]) < Pow2(56)
  {
    ReassembleIsBigEndian(ciphertext[..k]);
    BigEndianBound(ciphertext[..k]);
    Pow2Monotone(8 * k, 56);
  }

  /** Byte sequences of one length with the same big-endian value are equal. */
  lemma {:induction false} BigEndianInjective(a: seq<u8>, b: seq<u8>)
    requires |a| == |b|
    requires BigEndian(a) == BigEndian(b)
    ensures a == b
  {
    if a != [] {
      var p := Pow2(8 * (|a| - 1));
      BigEndianBound(a[1..]);
      BigEndianBound(b[1..]);
      DivModUnique(BigEndian(a), p, a[0], BigEndian(a[1..]));
      DivModUnique(BigEndian(b), p, b[0], BigEndian(b[1..]));
      BigEndianInjective(a[1..], b[1..]);
      assert a == [a[0]] + a[1..];
      assert b == [b[0]] + b[1..];
    }
  }

  /** Distinct 8-byte responses reassemble to distinct ciphertexts. */
  lemma ReassembleInjective(a: seq<u8>, b: seq<u8>)
    requires |a| == CIPHERTEXT_LEN && |b| == CIPHERTEXT_LEN
    ensures Reassemble(a) == Reassemble(b) ==> a == b
  {
    ReassembleIsBigEndian(a);
    ReassembleIsBigEndian(b);
    if Reassemble(a) == Reassemble(b) {
      BigEndianInjective(a, b);
    }
  }

  /** The byte weights `2^(8 * k)` of an 8-byte big-endian number. */
  lemma ByteWeights()
    ensures Pow2(0) == 1
    ensures Pow2(8) == 0x100
    ensures Pow2(16) == 0x1_0000
    ensures Pow2(24) == 0x100_0000
    ensures Pow2(32) == 0x1_0000_0000
    ensures Pow2(40) == 0x100_0000_0000
    ensures Pow2(48) == 0x1_0000_0000_0000
    ensures Pow2(56) == 0x100_0000_0000_0000
  {
    Pow2Small();
    Pow2Add(8, 8);
    Pow2Add(16, 8);
    Pow2Add(24, 8);
    Pow2Add(32, 8);
    Pow2Add(40, 8);
    Pow2Add(48, 8);
  }

  /** A response whose bytes spell out the ciphertext in hexadecimal, most significant first. */
  lemma ReassembleExample()
    ensures Reassemble([0x12, 0x34, 0x56, 0x78, 0x9A, 0xBC, 0xDE, 0xF0]) == 0x1234_5678_9ABC_DEF0
  {
    var c: seq<u8> := [0x12, 0x34, 0x56, 0x78, 0x9A, 0xBC, 0xDE, 0xF0];
    ReassembleIsBigEndian(c);
    ByteWeights();
    assert BigEndian(c[7..]) == 0xF0;
    assert BigEndian(c[6..]) == 0xDEF0;
    assert BigEndian(c[5..]) == 0xBC_DEF0;
    assert BigEndian(c[4..]) == 0x9ABC_DEF0;
    assert BigEndian(c[3..]) == 0x78_9ABC_DEF0;
    assert BigEndian(c[2..]) == 0x5678_9ABC_DEF0;
    assert BigEndian(c[1..]) == 0x34_5678_9ABC_DEF0;
  }
}
