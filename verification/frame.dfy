/**
 The 7+1 transfer framing: a 64-bit operand becomes ten bytes. Transfers 0-8
 each carry seven value bits, most significant first, with the top bit clear;
 transfer 9 carries bit 0 of the value with the top bit set, marking the last
 transfer of the operand.

 `Encode` states the framing field by field, `PrepareTransfers` is the encoder
 loop written with the bit operators, and `Decode` is what a receiver does with
 a frame: strip the flag bits and shift the fields back in, seven bits at a
 time, then the final bit.
 */
module Frame {
  import opened Bits

  const FRAME_LEN: nat := 10
  /** Transfers 0-8 are data transfers; transfer 9 is the last one. */
  const DATA_TRANSFERS: nat := 9
  const FIELD_MASK: nat := 0x7F
  /** The "last transfer" flag, the top bit of a transfer byte. */
  const LAST_FLAG: nat := 0x80

  /** Shift amount for data transfer `i`: `64 - 7 * (i + 1)` never underflows and stays below 64. */
  function Shift(i: nat): (s: nat)
    requires i < DATA_TRANSFERS
    ensures 1 <= s <= 57
    ensures i == 0 ==> s == 57
    ensures i == DATA_TRANSFERS - 1 ==> s == 1
  {
    64 - 7 * (i + 1)
  }

  /**
   The bits of `value` from bit `64 - 7 * k` upward, for `k` in 1..9: what is
   left of the value once the fields of transfers `k` to 8 and bit 0 are cut
   off. `Above(value, 9)` drops bit 0, each lower `k` drops one more field.
   */
  function Above(value: u64, k: nat): nat
    requires k <= DATA_TRANSFERS
    decreases DATA_TRANSFERS - k
  {
    if k == DATA_TRANSFERS then value / 2 else Above(value, k + 1) / 0x80
  }

  /** The seven bits data transfer `i` carries: value bits `Shift(i) + 6` down to `Shift(i)`. */
  function Field(value: u64, i: nat): (f: nat)
    requires i < DATA_TRANSFERS
    ensures f < LAST_FLAG
  {
    Above(value, i + 1) % 0x80
  }

  /** The shape every frame has: data transfers have the flag clear, the last has it set and nothing but bit 0 below it. */
  predicate WellFormed(frame: seq<u8>)
  {
    && |frame| == FRAME_LEN
    && (forall i :: 0 <= i < DATA_TRANSFERS ==> frame[i] < LAST_FLAG)
    && LAST_FLAG <= frame[DATA_TRANSFERS] <= LAST_FLAG + 1
  }

  /** The frame of `value`, field by field. */
  function Encode(value: u64): (frame: seq<u8>)
    ensures WellFormed(frame)
  {
    seq(FRAME_LEN, i requires 0 <= i < FRAME_LEN =>
      if i < DATA_TRANSFERS then Field(value, i) else LAST_FLAG + value % 2)
  }

  /** The data bits of transfers 0 to `k - 1`, flag bits stripped, shifted in most significant first. */
  function Prefix(frame: seq<u8>, k: nat): nat
    requires |frame| == FRAME_LEN && k <= DATA_TRANSFERS
  {
    if k == 0 then 0 else Prefix(frame, k - 1) * 0x80 + frame[k - 1] % 0x80
  }

  /** The 64-bit value a receiver reassembles from a frame: the nine fields, then bit 0 of the last transfer. */
  function Decode(frame: seq<u8>): (value: u64)
    requires |frame| == FRAME_LEN
  {
    assert Prefix(frame, DATA_TRANSFERS) * 2 + 1 < U64_LIMIT by {
      PrefixBound(frame, DATA_TRANSFERS);
      Pow2Limit();
    }
    Prefix(frame, DATA_TRANSFERS) * 2 + frame[DATA_TRANSFERS] % 2
  }

  /** The framing loop: nine masked shifts, then the flagged low bit. */
  method PrepareTransfers(value: u64) returns (transfers: seq<u8>)
    ensures transfers == Encode(value)
  {
    transfers := seq(FRAME_LEN, _ => 0);
    for i := 0 to DATA_TRANSFERS
      invariant |transfers| == FRAME_LEN
      invariant forall j :: 0 <= j < i ==> transfers[j] == Field(value, j)
    {
      var shift := Shift(i);
      MaskField(value, i);
      transfers := transfers[i := And(Shr(value, shift), FIELD_MASK)];
    }
    LastTransfer(value);
    transfers := transfers[DATA_TRANSFERS := Or(LAST_FLAG, And(value, 0x1))];
  }

  /** `Above(value, k)` is `value >> (64 - 7 * k)`. */
  lemma {:induction false} AboveIsShift(value: u64, k: nat)
    requires 1 <= k <= DATA_TRANSFERS
    ensures Above(value, k) == Shr(value, 64 - 7 * k)
    decreases DATA_TRANSFERS - k
  {
    if k < DATA_TRANSFERS {
      var s := 64 - 7 * (k + 1);
      AboveIsShift(value, k + 1);
      ShrAdd(value, s, 7);
      ShrIsDiv(Shr(value, s), 7);
      Pow2Small();
    }
  }

  /** `(value >> shift) & 0x7F` is the seven-bit field of transfer `i`. */
  lemma MaskField(value: u64, i: nat)
    requires i < DATA_TRANSFERS
    ensures And(Shr(value, Shift(i)), FIELD_MASK) == Field(value, i)
  {
    AboveIsShift(value, i + 1);
    Pow2Small();
    AndLowMask(Above(value, i + 1), 7);
  }

  /** `0x80 | (value & 0x1)` is the flag plus bit 0 of the value. */
  lemma LastTransfer(value: u64)
    ensures Or(LAST_FLAG, And(value, 0x1)) == LAST_FLAG + value % 2
  {
    Pow2Small();
    AndLowMask(value, 1);
    OrDisjoint(LAST_FLAG, And(value, 0x1), 1);
  }

  /** Nothing of the value lies above bit 63: `Above(value, k)` fits in `7 * k` bits. */
  lemma {:induction false} AboveBound(value: u64, k: nat)
    requires k <= DATA_TRANSFERS
    ensures Above(value, k) < Pow2(7 * k)
    decreases DATA_TRANSFERS - k
  {
    if k == DATA_TRANSFERS {
      Pow2Limit();
    } else {
      AboveBound(value, k + 1);
      Pow2Seven(7 * k);
    }
  }

  /** `k` seven-bit fields shifted in fit in `7 * k` bits. */
  lemma {:induction false} PrefixBound(frame: seq<u8>, k: nat)
    requires |frame| == FRAME_LEN && k <= DATA_TRANSFERS
    ensures Prefix(frame, k) < Pow2(7 * k)
  {
    if k > 0 {
      PrefixBound(frame, k - 1);
      Pow2Seven(7 * (k - 1));
    }
  }

  /** Shifting in the first `k` fields of `Encode(value)` rebuilds the bits of `value` above bit `64 - 7 * k`. */
  lemma {:induction false} PrefixOfEncode(value: u64, k: nat)
    requires k <= DATA_TRANSFERS
    ensures Prefix(Encode(value), k) == Above(value, k)
  {
    if k == 0 {
      AboveBound(value, 0);
    } else {
      PrefixOfEncode(value, k - 1);
      assert Encode(value)[k - 1] == Above(value, k) % 0x80;
    }
  }

  /** Round trip: the receiver recovers every 64-bit operand exactly. */
  lemma EncodeDecode(value: u64)
    ensures Decode(Encode(value)) == value
  {
    PrefixOfEncode(value, DATA_TRANSFERS);
  }

  /** Distinct operands never share a frame. */
  lemma EncodeInjective(a: u64, b: u64)
    ensures Encode(a) == Encode(b) ==> a == b
  {
    EncodeDecode(a);
    EncodeDecode(b);
  }

  /** The value decoded from a frame has, above bit `64 - 7 * k`, exactly the first `k` fields of the frame. */
  lemma {:induction false} AboveOfDecode(frame: seq<u8>, k: nat)
    requires |frame| == FRAME_LEN && k <= DATA_TRANSFERS
    ensures Above(Decode(frame), k) == Prefix(frame, k)
    decreases DATA_TRANSFERS - k
  {
    if k < DATA_TRANSFERS {
      AboveOfDecode(frame, k + 1);
    }
  }

  /** Every well-formed frame is the frame of the value it decodes to. */
  lemma DecodeEncode(frame: seq<u8>)
    requires WellFormed(frame)
    ensures Encode(Decode(frame)) == frame
  {
    var value := Decode(frame);
    forall i | 0 <= i < FRAME_LEN
      ensures Encode(value)[i] == frame[i]
    {
      if i < DATA_TRANSFERS {
        FieldOfDecode(frame, i);
      } else {
        LastOfDecode(frame);
      }
    }
  }

  /** The last transfer of a well-formed frame is the flag plus bit 0 of the value it decodes to. */
  lemma LastOfDecode(frame: seq<u8>)
    requires WellFormed(frame)
    ensures LAST_FLAG + Decode(frame) % 2 == frame[DATA_TRANSFERS]
  {
  }

  /** Data transfer `i` of a well-formed frame is the field at that position of the value it decodes to. */
  lemma FieldOfDecode(frame: seq<u8>, i: nat)
    requires WellFormed(frame) && i < DATA_TRANSFERS
    ensures Field(Decode(frame), i) == frame[i]
  {
    var value := Decode(frame);
    var high := Prefix(frame, i);
    assert Above(value, i + 1) == high * 0x80 + frame[i] by {
      AboveOfDecode(frame, i + 1);
    }
    ShiftInField(high, frame[i]);
  }

  /** Shifting a seven-bit field in leaves it as the low seven bits. */
  lemma ShiftInField(high: nat, f: nat)
    requires f < 0x80
    ensures (high * 0x80 + f) % 0x80 == f
  {
  }

  /** A frame written out transfer by transfer. */
  lemma EncodeDisplay(value: u64)
    ensures Encode(value) == [Field(value, 0), Field(value, 1), Field(value, 2), Field(value, 3), Field(value, 4),
                              Field(value, 5), Field(value, 6), Field(value, 7), Field(value, 8), LAST_FLAG + value % 2]
  {
  }

  /** The all-zero operand: nine empty data transfers, then the bare flag. */
  lemma EncodeZero()
    ensures Encode(0) == [0x00, 0x00, 0x00, 0x00, 0x00, 0x00, 0x00, 0x00, 0x00, 0x80]
  {
    var v: u64 := 0;
    assert Above(v, 9) == 0x0;
    assert Above(v, 8) == 0x0;
    assert Above(v, 7) == 0x0;
    assert Above(v, 6) == 0x0;
    assert Above(v, 5) == 0x0;
    assert Above(v, 4) == 0x0;
    assert Above(v, 3) == 0x0;
    assert Above(v, 2) == 0x0;
    assert Above(v, 1) == 0x0;
    EncodeDisplay(v);
  }

  /** The all-one operand: nine full data transfers, then the flag with bit 0 set. */
  lemma EncodeAllOnes()
    ensures Encode(0xFFFF_FFFF_FFFF_FFFF) == [0x7F, 0x7F, 0x7F, 0x7F, 0x7F, 0x7F, 0x7F, 0x7F, 0x7F, 0x81]
  {
    var v: u64 := 0xFFFF_FFFF_FFFF_FFFF;
    assert Above(v, 9) == 0x7FFFFFFFFFFFFFFF;
    assert Above(v, 8) == 0xFFFFFFFFFFFFFF;
    assert Above(v, 7) == 0x1FFFFFFFFFFFF;
    assert Above(v, 6) == 0x3FFFFFFFFFF;
    assert Above(v, 5) == 0x7FFFFFFFF;
    assert Above(v, 4) == 0xFFFFFFF;
    assert Above(v, 3) == 0x1FFFFF;
    assert Above(v, 2) == 0x3FFF;
    assert Above(v, 1) == 0x7F;
    EncodeDisplay(v);
  }

  /** The message operand the session sends. */
  lemma EncodeMessage()
    ensures Encode(0x4BBD_0103_63A9_55C0) == [0x25, 0x6F, 0x20, 0x10, 0x1B, 0x0E, 0x52, 0x55, 0x60, 0x80]
  {
    var v: u64 := 0x4BBD_0103_63A9_55C0;
    assert Above(v, 9) == 0x25DE8081B1D4AAE0;
    assert Above(v, 8) == 0x4BBD010363A955;
    assert Above(v, 7) == 0x977A0206C752;
    assert Above(v, 6) == 0x12EF4040D8E;
    assert Above(v, 5) == 0x25DE8081B;
    assert Above(v, 4) == 0x4BBD010;
    assert Above(v, 3) == 0x977A0;
    assert Above(v, 2) == 0x12EF;
    assert Above(v, 1) == 0x25;
    EncodeDisplay(v);
  }

  /** The key operand the session sends. */
  lemma EncodeKey()
    ensures Encode(0xA1B2_C3D4_E5F6_1234) == [0x50, 0x6C, 0x58, 0x3D, 0x27, 0x17, 0x6C, 0x12, 0x1A, 0x80]
  {
    var v: u64 := 0xA1B2_C3D4_E5F6_1234;
    assert Above(v, 9) == 0x50D961EA72FB091A;
    assert Above(v, 8) == 0xA1B2C3D4E5F612;
    assert Above(v, 7) == 0x1436587A9CBEC;
    assert Above(v, 6) == 0x286CB0F5397;
    assert Above(v, 5) == 0x50D961EA7;
    assert Above(v, 4) == 0xA1B2C3D;
    assert Above(v, 3) == 0x143658;
    assert Above(v, 2) == 0x286C;
    assert Above(v, 1) == 0x50;
    EncodeDisplay(v);
  }
}
