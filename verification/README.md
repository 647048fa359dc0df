# FPGA cipher link: transfer framing, ciphertext reassembly and the session

This project models the host side of a serial link to an FPGA block-cipher
accelerator (`Rust/main.rs`). It covers three parts:

- **Framing** (`Frame`, `prepare_transfers`). A 64-bit operand becomes ten
  transfer bytes in the 7+1 scheme.
  - Transfers 0-8 each carry seven value bits, most significant first. Their
    top bit is clear.
  - Transfer 9 carries bit 0 of the value. Its top bit is set, marking the
    end of the operand.
- **Reassembly** (`Reassembly`). The eight response bytes are folded into a
  `u64` with `(acc << 8) | b`, so the first byte received is the most
  significant.
- **Session** (`Session`, the body of `main`):
  - the message frame goes out, then the key frame;
  - each byte is written and then flushed;
  - then one `read_exact` of eight bytes;
  - the first operation that fails ends the session with its error.

`Bits` models the Rust operators the code uses (`>>`, `<<` on `u64`, `&`,
`|`) over unbounded integers:

- `Shr` halves one bit at a time.
- `Shl64` drops bits above bit 63.
- `And` and `Or` are defined bit by bit.

The bridge lemmas turning them into division, remainder and addition carry
the reasoning about masks and disjoint bit fields.

`Frame.PrepareTransfers` is the loop written with those operators. It is
proved equal to `Frame.Encode`, a field-by-field reference definition.
`Frame.Decode` inverts the framing:

- strip the flags;
- shift the nine fields in, seven bits at a time;
- then shift in the last bit.

The two are proved inverse in both directions. `Reassembly.Fold` is proved
equal to the big-endian sum `Σ b[i] · 256^(7-i)`.

`Session.RunSession` runs against a `Channel`. A `Channel` gives the outcome
of the k-th write or flush and what the device delivers to the read. It
returns the trace of operations it attempted and either the ciphertext or
the error.

The shifts `64 - 7 * (i + 1)` cover value bits 63 down to 1, leaving bit 0
for transfer 9; `Frame.AboveIsShift` and `Frame.EncodeDecode` show that all
64 bits travel.

## Model

| member | source | states |
|---|---|---|
| Frame.Shift | Rust/main.rs:65-67 | the shift `64 - 7 * (i + 1)` of every data transfer lies in 1..57, so it neither underflows nor reaches 64; transfer 0 shifts by 57 and transfer 8 by 1 |
| Frame.Field | Rust/main.rs:66-68 | every data transfer is below 0x80: its top (command) bit is clear |
| Frame.Encode | Rust/main.rs:60-72 | every frame has exactly 10 transfers; 0-8 have the top bit clear; transfer 9 is 0x80 or 0x81 |
| Frame.PrepareTransfers | Rust/main.rs:63-73 | the loop of masked shifts plus `0x80` OR `(value & 0x1)` yields exactly the field-by-field frame `Encode(value)` |
| Frame.AboveIsShift | Rust/main.rs:67-68 | `value >> (64 - 7k)` is the part of the value above bit `64 - 7k`, i.e. what is left after cutting off the later fields and bit 0 |
| Frame.MaskField | Rust/main.rs:67-68 | `(value >> shift) & 0x7F` is exactly the seven-bit field of transfer `i` |
| Frame.LastTransfer | Rust/main.rs:70-71 | `0x80` OR `(value & 0x1)` is the flag plus bit 0 of the value |
| Frame.AboveBound | Rust/main.rs:65-69 | the part of a 64-bit value above bit `64 - 7k` fits in `7k` bits, so transfer 0 takes the top seven bits and nothing more |
| Frame.PrefixBound | Rust/main.rs:65-69 | the first `k` data transfers shifted back in fit in `7k` bits, so a decoded frame fits in a `u64` |
| Frame.PrefixOfEncode | Rust/main.rs:65-69 | shifting the first `k` transfers of a frame back in rebuilds the value's bits above bit `64 - 7k` |
| Frame.EncodeDecode | Rust/main.rs:63-73 | round trip: decoding the frame of any 64-bit value gives the value back, so no bit is lost |
| Frame.EncodeInjective | Rust/main.rs:63-73 | distinct operands always produce distinct frames |
| Frame.AboveOfDecode | Rust/main.rs:65-71 | the value decoded from a frame has, above bit `64 - 7k`, exactly the first `k` fields of the frame |
| Frame.FieldOfDecode | Rust/main.rs:66-68 | in a well-formed frame, data transfer `i` is the field at that position of the decoded value |
| Frame.LastOfDecode | Rust/main.rs:70-71 | in a well-formed frame, the last transfer is the flag plus bit 0 of the decoded value |
| Frame.DecodeEncode | Rust/main.rs:63-73 | every well-formed frame (flags as the framing sets them) is the frame of the value it decodes to: the framing is onto its wire format |
| Frame.EncodeZero | Rust/main.rs:63-73 | 0 frames as nine 0x00 transfers followed by 0x80 |
| Frame.EncodeAllOnes | Rust/main.rs:63-73 | 0xFFFF_FFFF_FFFF_FFFF frames as nine 0x7F transfers followed by 0x81 |
| Frame.EncodeMessage | Rust/main.rs:17 | the session's message 0x4BBD010363A955C0 goes out as 25 6F 20 10 1B 0E 52 55 60 80 |
| Frame.EncodeKey | Rust/main.rs:18 | the session's key 0xA1B2C3D4E5F61234 goes out as 50 6C 58 3D 27 17 6C 12 1A 80 |
| Bits.ShrIsDiv | Rust/main.rs:68 | `v >> n` is `v` divided by `2^n`, rounding down |
| Bits.ShrAdd | Rust/main.rs:68 | shifting right by `a + b` is shifting by `a`, then by `b` |
| Bits.Shl64 | Rust/main.rs:54 | `acc << n` on a `u64` is `acc * 2^n` whenever no bit passes bit 63 |
| Bits.AndLowMask | Rust/main.rs:68 | masking with `2^w - 1` (0x7F, 0x1) keeps exactly the low `w` bits |
| Bits.OrDisjoint | Rust/main.rs:71 | OR of a value with its low `w` bits clear and a value below `2^w` is their sum |
| Bits.OrBound | Rust/main.rs:54 | OR of two values below `2^w` stays below `2^w` |
| Reassembly.Step | Rust/main.rs:54 | one fold step `(acc << 8)` OR `b` on an accumulator below `2^56` is `acc * 256 + b` |
| Reassembly.BigEndianBound | Rust/main.rs:54 | `n` bytes in big-endian order are worth less than `2^(8n)` |
| Reassembly.FoldIsBigEndian | Rust/main.rs:54 | folding bytes into an accumulator with room for them shifts the accumulator past them and adds their big-endian value |
| Reassembly.ReassembleIsBigEndian | Rust/main.rs:54 | the fold from 0 is the big-endian value `Σ b[i] · 256^(n-1-i)`: first byte received is most significant |
| Reassembly.AccumulatorFits | Rust/main.rs:54 | before each of the eight steps the accumulator is below `2^56`, so `acc << 8` never drops a bit |
| Reassembly.BigEndianInjective | Rust/main.rs:54 | equal-length byte strings with the same big-endian value are equal |
| Reassembly.ReassembleInjective | Rust/main.rs:54 | distinct 8-byte responses reassemble to distinct ciphertexts |
| Reassembly.ReassembleExample | Rust/main.rs:54 | the response 12 34 56 78 9A BC DE F0 reassembles to 0x123456789ABCDEF0 |
| Session.ReadExactly | Rust/main.rs:43-44 | `read_exact(8)` succeeds exactly when at least eight bytes are delivered, and then with the first eight; fewer before the timeout is a timeout error, a port error is passed on |
| Session.SendOps | Rust/main.rs:23-28 | sending a frame of `n` transfers takes exactly `2n` operations, one write and one flush per transfer |
| Session.SendOpsAt | Rust/main.rs:23-26 | transfer `i` is written at position `2i` and flushed at `2i + 1`, in index order |
| Session.SendFrame | Rust/main.rs:23-28 | the operations attempted are a prefix of the frame's write/flush plan; all succeed and the plan completes, or the last one attempted fails and its error is returned and nothing follows it |
| Session.RunSession | Rust/main.rs:20-44 | the trace is a nonempty prefix of the plan (message frame, key frame, one 8-byte read); every operation before the last succeeded; an aborted session ends at the first failing operation with its error; a completed one ran the whole plan and returns the big-endian value of the eight delivered bytes |
| Session.WrittenSendOps | Rust/main.rs:23-26 | a frame's operations put exactly that frame on the wire |
| Session.PlanWrites | Rust/main.rs:20-44 | a session that reaches the read has written exactly 20 bytes, the message frame then the key frame, from which `Frame.Decode` recovers message and key, and then issues one read of 8 bytes |
| Session.PlanFlushesEachWrite | Rust/main.rs:25-26 | in the plan every one of the 20 writes is immediately followed by its flush |

## Left out

- Opening and configuring the port (`Rust/main.rs:6-14`): a `Session.Channel` parameter stands for the opened port. Name, baud rate and timeout are not modelled, and neither is a failure to open.
- The 10 ms sleeps after each flush (`Rust/main.rs:27`, `37`): timing is not modelled. A channel whose outcomes depend on pacing is just another `Channel`.
- Printing (`Rust/main.rs:22-24`, `34`, `40`, `47-51`, `55`): it has no effect on the link.
- `Box<dyn Error>` and the process exit status: the error a failed operation reports is modelled as an abstract `Session.IoError` that the session hands on. The error text and exit code are not modelled.
- The cipher the device computes: the delivered bytes are an input of the channel, unrelated to the message and key.
- Session.ReadExactly: a read that gets fewer than eight bytes before the timeout is modelled as `TimedOut`. The exact error kind the serial driver reports is not visible in the code.
- Reassembly.Step: states its result only for accumulators below `2^56`. For larger ones the result is the wrapped `u64` `Or(Shl64(acc, 8), b)`, which never happens on an 8-byte response (`Reassembly.AccumulatorFits`).
- The `as u8` casts on lines 68 and 71 are not modelled as truncations: both values are already below 0x100 (`Frame.MaskField`, `Frame.LastTransfer`).
