/** Vocabulary shared by both endpoints: packet bodies, frames, outcomes, events,
    configuration and the clock. */
module Types {

  const U32_MAX: nat := 0xFFFF_FFFF
  const U16_MAX: nat := 0xFFFF

  /** Most sequence numbers one `Nack` may carry. */
  const MAX_NACK_ENTRIES: nat := 128

  /** Largest payload of one `Data` packet. */
  const MAX_PAYLOAD: nat := 1024

  type Byte = x: int | 0 <= x < 256

  datatype Option<+T> = None | Some(value: T)

  /** A point in time, in nanoseconds from an arbitrary origin. */
  type Instant = int

  /** `duration_since`: zero, not negative, when `then` lies in the future. */
  function Since(now: Instant, then': Instant): (d: nat)
    ensures now <= then' ==> d == 0
    ensures then' <= now ==> then' + d == now
  {
    if now < then' then 0 else now - then'
  }

  const HOUR: nat := 3_600_000_000_000
  const DEFAULT_NACK_DELAY: nat := 100_000_000

  datatype Body =
    | Data(ts: nat, payload: seq<Byte>)
    | End(finalSeq: nat)
    | EndAck
    | Ack(contiguous: nat, highest: nat, bufferedMs: nat)
    | Nack(missing: seq<nat>)
    | Keepalive(lostBelow: nat)

  const HEADER_LEN: nat := 22
  const TAG_LEN: nat := 16

  /** Length of the encoded body. */
  function BodySize(b: Body): (n: nat)
  {
    match b
    case Data(_, payload) => 8 + |payload|
    case End(_) => 4
    case EndAck => 0
    case Ack(_, _, _) => 10
    case Nack(missing) => 2 + 4 * |missing|
    case Keepalive(_) => 4
  }

  /** A sealed datagram, represented by what it opens to: the header's sequence number and
      the body. The header kind and direction follow from the body. */
  datatype Datagram = Datagram(seqNo: nat, body: Body)
  {
    function Size(): (n: nat)
    {
      HEADER_LEN + BodySize(body) + TAG_LEN
    }
  }

  datatype Frame = Frame(seqNo: nat, ts: nat, payload: seq<Byte>)

  datatype RelAbortReason =
    UnrecoverableGap | BufferExhausted | Stalled | SenderDiscarded | PeerGone | NotAttempted

  datatype RelOutcome = Complete(finalSeq: nat) | Aborted(reason: RelAbortReason)

  datatype RecvEvent =
    | Unreliable(frame: Frame)
    | Reliable(frame: Frame)
    | SendNack(missing: seq<nat>)
    | SendAck(contiguous: nat, highest: nat, bufferedMs: nat)
    | SendEndAck
    | RelFinished(outcome: RelOutcome)
    | Closed

  datatype RecvMode = Dual | RelOnly

  datatype ReceiverConfig = ReceiverConfig(
    mode: RecvMode,
    reorderWindow: nat,
    maxReorderBytes: nat,
    maxNackAttempts: nat,
    nackBackoff: seq<nat>,
    relStallTimeout: nat,
    idleTimeout: nat,
    ackInterval: nat)
  {
    /** The last backoff repeats; an empty table means 100 ms. */
    function NackDelay(attempt: nat): (d: nat)
      ensures attempt < |nackBackoff| ==> d == nackBackoff[attempt]
      ensures nackBackoff != [] && attempt >= |nackBackoff| ==> d == nackBackoff[|nackBackoff| - 1]
      ensures nackBackoff == [] ==> d == 100_000_000
    {
      var last := if |nackBackoff| == 0 then 0 else |nackBackoff| - 1;
      var i := if attempt < last then attempt else last;
      if i < |nackBackoff| then nackBackoff[i] else DEFAULT_NACK_DELAY
    }
  }

  datatype SenderConfig = SenderConfig(
    retransRingFrames: nat,
    retransRingBytes: nat,
    maxOutstanding: nat,
    bufferHighWaterMs: nat,
    bufferLowWaterMs: nat,
    firstAckTimeout: nat,
    tailKeepaliveInterval: nat,
    finalizeTimeout: nat)
}
