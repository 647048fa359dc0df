/**
 One session of the link driver over an abstract duplex channel: the message
 frame goes out one byte at a time, each byte written and then flushed, then
 the key frame the same way, then one blocking read of the eight ciphertext
 bytes. The first write, flush or read that fails ends the session with that
 error; nothing further is done on the channel.

 The channel is what the session can observe of the far side: the outcome of
 its k-th write or flush, and what the device delivers to the read. The trace
 records every operation the session attempts, in order, including the one
 that failed.
 */
module Session {
  import opened Bits
  import opened Frame
  import opened Reassembly

  /** The cause a failed channel operation reports; the session hands it on unchanged. */
  datatype IoError = TimedOut | Disconnected | Other(code: int)

  /** The outcome of one write or flush. */
  datatype Status = Done | Failed(error: IoError)

  /** What reaches the blocking read: the bytes that arrived before the timeout, or an error from the port. */
  datatype Delivery = Delivered(bytes: seq<u8>) | ReadFailed(error: IoError)

  /** The far side of the link: `status(k)` is the outcome of the k-th write or flush, counting from 0. */
  datatype Channel = Channel(status: nat -> Status, delivery: Delivery)

  /** A channel operation as the session issues it. */
  datatype Op = Write(byte: u8) | Flush | ReadExact(len: nat)

  datatype ReadResult = Got(bytes: seq<u8>) | ReadError(error: IoError)

  /** How a session ends: with the reassembled ciphertext, or with the error that stopped it. */
  datatype Outcome = Ciphertext(value: u64) | Aborted(error: IoError)

  /** Writes and flushes of a session that gets as far as the read: one of each per transfer of both frames. */
  const SEND_OPS: nat := 4 * FRAME_LEN

  /**
   `read_exact(n)`: exactly `n` bytes or an error. Fewer than `n` bytes before
   the timeout is a timeout, never a short result.
   */
  function ReadExactly(d: Delivery, n: nat): (r: ReadResult)
    ensures r.Got? ==> d.Delivered? && n <= |d.bytes| && r.bytes == d.bytes[..n]
    ensures d.Delivered? && n <= |d.bytes| ==> r == Got(d.bytes[..n])
    ensures d.Delivered? && |d.bytes| < n ==> r == ReadError(TimedOut)
    ensures d.ReadFailed? ==> r == ReadError(d.error)
  {
    match d
    case ReadFailed(e) => ReadError(e)
    case Delivered(bytes) => if |bytes| < n then ReadError(TimedOut) else Got(bytes[..n])
  }

  /** The operations that send one frame: each transfer written, then flushed, in index order. */
  function SendOps(frame: seq<u8>): (ops: seq<Op>)
    ensures |ops| == 2 * |frame|
  {
    if frame == [] then [] else [Write(frame[0]), Flush] + SendOps(frame[1..])
  }

  /** Every operation of a session in which nothing fails. */
  function Plan(message: u64, key: u64): seq<Op>
  {
    SendOps(Encode(message)) + SendOps(Encode(key)) + [ReadExact(CIPHERTEXT_LEN)]
  }

  /** The bytes a sequence of operations puts on the wire. */
  function Written(ops: seq<Op>): seq<u8>
  {
    if ops == [] then []
    else (if ops[0].Write? then [ops[0].byte] else []) + Written(ops[1..])
  }

  /** Writes and flushes of the channel numbered `from` to `to - 1` all succeed. */
  predicate AllDone(ch: Channel, from: nat, to: nat)
  {
    forall k :: from <= k < to ==> ch.status(k) == Done
  }

  /** Whether the k-th operation of the session plan succeeds on `ch`. */
  predicate Succeeds(ch: Channel, k: nat)
  {
    if k < SEND_OPS then ch.status(k) == Done else ReadExactly(ch.delivery, CIPHERTEXT_LEN).Got?
  }

  /** The error the k-th operation of the plan reports when it fails. */
  function ErrorAt(ch: Channel, k: nat): IoError
    requires !Succeeds(ch, k)
  {
    if k < SEND_OPS then ch.status(k).error else ReadExactly(ch.delivery, CIPHERTEXT_LEN).error
  }

  /**
   Sends one frame, a write and a flush per transfer, with the channel's
   operation counter starting at `start`. Stops at the first failure.
   */
  method SendFrame(ch: Channel, frame: seq<u8>, start: nat) returns (ops: seq<Op>, status: Status)
    ensures 0 < |ops| <= |SendOps(frame)| || (frame == [] && ops == [])
    ensures ops == SendOps(frame)[..|ops|]
    ensures status.Done? ==> ops == SendOps(frame) && AllDone(ch, start, start + |ops|)
    ensures status.Failed? ==>
      && 0 < |ops|
      && AllDone(ch, start, start + |ops| - 1)
      && ch.status(start + |ops| - 1) == status
  {
    ops := [];
    status := Done;
    for i := 0 to |frame|
      invariant ops == SendOps(frame)[..2 * i]
      invariant AllDone(ch, start, start + 2 * i)
      invariant status == Done
    {
      SendOpsAt(frame, i);
      ops := ops + [Write(frame[i])];
      status := ch.status(start + 2 * i);
      if status.Failed? {
        return;
      }
      ops := ops + [Flush];
      status := ch.status(start + 2 * i + 1);
      if status.Failed? {
        return;
      }
    }
  }

  /**
   The session of the link driver: send the message frame, send the key
   frame, read the eight ciphertext bytes and reassemble them.
   */
  method RunSession(ch: Channel, message: u64, key: u64) returns (trace: seq<Op>, outcome: Outcome)
    ensures 0 < |trace| <= |Plan(message, key)|
    ensures trace == Plan(message, key)[..|trace|]
    ensures forall k :: 0 <= k < |trace| - 1 ==> Succeeds(ch, k)
    ensures outcome.Aborted? ==> !Succeeds(ch, |trace| - 1) && outcome.error == ErrorAt(ch, |trace| - 1)
    ensures outcome.Ciphertext? ==>
      && trace == Plan(message, key)
      && Succeeds(ch, |trace| - 1)
      && outcome.value == BigEndian(ch.delivery.bytes[..CIPHERTEXT_LEN])
  {
    var msgTransfers := PrepareTransfers(message);
    var msgOps, msgStatus := SendFrame(ch, msgTransfers, 0);
    trace := msgOps;
    if msgStatus.Failed? {
      return trace, Aborted(msgStatus.error);
    }

    var keyTransfers := PrepareTransfers(key);
    var keyOps, keyStatus := SendFrame(ch, keyTransfers, 2 * FRAME_LEN);
    PrefixOfConcat(msgOps, keyOps, SendOps(keyTransfers), [ReadExact(CIPHERTEXT_LEN)]);
    trace := trace + keyOps;
    if keyStatus.Failed? {
      return trace, Aborted(keyStatus.error);
    }

    trace := trace + [ReadExact(CIPHERTEXT_LEN)];
    match ReadExactly(ch.delivery, CIPHERTEXT_LEN)
    case ReadError(e) =>
      outcome := Aborted(e);
    case Got(ciphertext) =>
      ReassembleIsBigEndian(ciphertext);
      outcome := Ciphertext(Reassemble(ciphertext));
  }

  lemma {:induction false} SendOpsAt(frame: seq<u8>, i: nat)
    requires i < |frame|
    ensures SendOps(frame)[2 * i] == Write(frame[i])
    ensures SendOps(frame)[2 * i + 1] == Flush
    ensures SendOps(frame)[..2 * i + 1] == SendOps(frame)[..2 * i] + [Write(frame[i])]
    ensures SendOps(frame)[..2 * i + 2] == SendOps(frame)[..2 * i] + [Write(frame[i]), Flush]
  {
    if i > 0 {
      SendOpsAt(frame[1..], i - 1);
      assert SendOps(frame)[..2 * i + 2] == [Write(frame[0]), Flush] + SendOps(frame[1..])[..2 * i];
      assert SendOps(frame)[..2 * i] == [Write(frame[0]), Flush] + SendOps(frame[1..])[..2 * (i - 1)];
    }
  }

  lemma PrefixOfConcat(a: seq<Op>, b: seq<Op>, full: seq<Op>, tail: seq<Op>)
    requires |b| <= |full| && b == full[..|b|]
    ensures a + b == (a + full + tail)[..|a| + |b|]
  {
  }

  /** A frame's operations put exactly that frame on the wire. */
  lemma {:induction false} WrittenSendOps(frame: seq<u8>)
    ensures Written(SendOps(frame)) == frame
  {
    if frame != [] {
      WrittenSendOps(frame[1..]);
      WrittenConcat([Write(frame[0]), Flush], SendOps(frame[1..]));
      assert Written([Write(frame[0]), Flush]) == [frame[0]];
      assert frame == [frame[0]] + frame[1..];
    }
  }

  lemma {:induction false} WrittenConcat(a: seq<Op>, b: seq<Op>)
    ensures Written(a + b) == Written(a) + Written(b)
  {
    if a == [] {
      assert a + b == b;
    } else {
      var head := if a[0].Write? then [a[0].byte] else [];
      assert (a + b)[0] == a[0];
      assert (a + b)[1..] == a[1..] + b;
      calc {
        Written(a + b);
        head + Written(a[1..] + b);
        { WrittenConcat(a[1..], b); }
        head + (Written(a[1..]) + Written(b));
        (head + Written(a[1..])) + Written(b);
        Written(a) + Written(b);
      }
    }
  }

  /**
   A session that reaches the read has written exactly 20 bytes, the message
   frame followed by the key frame, and from them `Decode` recovers both
   operands.
   */
  lemma PlanWrites(message: u64, key: u64)
    ensures |Plan(message, key)| == SEND_OPS + 1
    ensures Plan(message, key)[SEND_OPS] == ReadExact(CIPHERTEXT_LEN)
    ensures Written(Plan(message, key)) == Encode(message) + Encode(key)
    ensures |Written(Plan(message, key))| == 2 * FRAME_LEN
    ensures Decode(Written(Plan(message, key))[..FRAME_LEN]) == message
    ensures Decode(Written(Plan(message, key))[FRAME_LEN..]) == key
  {
    var m := SendOps(Encode(message));
    var k := SendOps(Encode(key));
    WrittenConcat(m + k, [ReadExact(CIPHERTEXT_LEN)]);
    WrittenConcat(m, k);
    WrittenSendOps(Encode(message));
    WrittenSendOps(Encode(key));
    assert Written([ReadExact(CIPHERTEXT_LEN)]) == [];
    var w := Encode(message) + Encode(key);
    assert w[..FRAME_LEN] == Encode(message);
    assert w[FRAME_LEN..] == Encode(key);
    EncodeDecode(message);
    EncodeDecode(key);
  }

  /** In the plan every write is immediately followed by its flush. */
  lemma PlanFlushesEachWrite(message: u64, key: u64, i: nat)
    requires i < 2 * FRAME_LEN
    ensures Plan(message, key)[2 * i] == Write((Encode(message) + Encode(key))[i])
    ensures Plan(message, key)[2 * i + 1] == Flush
  {
    var w := Encode(message) + Encode(key);
    if i < FRAME_LEN {
      SendOpsAt(Encode(message), i);
    } else {
      SendOpsAt(Encode(key), i - FRAME_LEN);
    }
  }
}
