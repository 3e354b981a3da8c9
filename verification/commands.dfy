/**
 * The gateway's commands to the scale. Each command first sends the fixed
 * identification frame and then one frame; the transport write itself is
 * not modelled, only the sequence of byte strings handed to it.
 */
module Commands {
  import opened Bytes
  import opened FrameBuilder

  datatype Command = GetSettings | DoTare | StartTimer | StopTimer | ResetTimer | HeartBeat

  /** Message type the command passes to the builder. Every type fits in
      the one byte the builder keeps of it. */
  function MsgType(c: Command): (t: int)
    ensures 0 <= t < 256 && t % 256 == t
    ensures c.StartTimer? || c.StopTimer? || c.ResetTimer? <==> t == 13
  {
    match c
    case GetSettings => 6
    case DoTare => 4
    case StartTimer | StopTimer | ResetTimer => 13
    case HeartBeat => 0
  }

  /** Payload the command passes to the builder. */
  function Payload(c: Command): (p: seq<byte>)
    ensures |p| <= MaxPayload
  {
    match c
    case GetSettings => seq(16, _ => 0)
    case DoTare => [0]
    case StartTimer => [0, 0]
    case StopTimer => [0, 2]
    case ResetTimer => [0, 1]
    case HeartBeat => [2, 0]
  }

  /** The identification frame, sent verbatim before every command. */
  const IdFrame: seq<byte> :=
    [0xef, 0xdd, 0x0b, 0x30, 0x31, 0x32, 0x33, 0x34, 0x35, 0x36, 0x37,
     0x38, 0x39, 0x30, 0x31, 0x32, 0x33, 0x34, 0x9a, 0x6d, 0x00]

  /** The notification-subscription frame, sent verbatim. */
  const NotificationFrame: seq<byte> :=
    [0xef, 0xdd, 0x0c, 0x09, 0x00, 0x01, 0x01, 0x02, 0x02, 0x05, 0x03, 0x04, 0x15, 0x06]

  /** The identifier the identification frame carries: the ASCII digits
      "012345678901234", kept in two halves so that the checksum of each
      half is computed on its own. */
  const IdPayload: seq<byte> := IdHead + IdTail
  const IdHead: seq<byte> := [0x30, 0x31, 0x32, 0x33, 0x34, 0x35, 0x36, 0x37]
  const IdTail: seq<byte> := [0x38, 0x39, 0x30, 0x31, 0x32, 0x33, 0x34]

  /** The payload the notification-subscription frame carries. */
  const NotificationPayload: seq<byte> := [0x09, 0x00, 0x01, 0x01, 0x02, 0x02, 0x05, 0x03, 0x04]

  /** The frames a command writes, in order. The gateway writes
      `sizeof(payload) + 5` bytes of the builder's buffer; that prefix is the
      whole built frame, so no byte of an earlier, longer frame leaks. */
  function CommandWrites(c: Command): (w: seq<seq<byte>>)
    ensures w == [IdFrame, BuildFrame(MsgType(c), Payload(c))]
  {
    var frame := BuildFrame(MsgType(c), Payload(c));
    assert frame[..|Payload(c)| + 5] == frame;
    [IdFrame, frame[..|Payload(c)| + 5]]
  }

  /** The frames a notification request writes, in order. */
  function NotificationRequestWrites(): (w: seq<seq<byte>>)
    ensures |w| == 2 && w[0] == IdFrame
    ensures ParseRequest(w[1]) == Some((0x0C, NotificationPayload))
  {
    NotificationFrameIsBuilt();
    ParseBuiltFrame(0x0C, NotificationPayload);
    [IdFrame, NotificationFrame]
  }

  /** The literal subscription frame obeys the checksum rule. */
  lemma NotificationFrameIsBuilt()
    ensures NotificationFrame == BuildFrame(0x0C, NotificationPayload)
  {
    NotificationChecksum();
    assert NotificationFrame == [0xEF, 0xDD, 0x0C] + NotificationPayload + Checksum(NotificationPayload);
  }

  /** The checksum bytes of the subscription payload are 15 06. */
  lemma NotificationChecksum()
    ensures Checksum(NotificationPayload) == [0x15, 0x06]
  {
    assert EvenSum(NotificationPayload) == 0x15 && OddSum(NotificationPayload) == 0x06;
  }

  /** The literal identification frame is a built frame followed by one
      zero byte. */
  lemma IdFrameIsBuilt()
    ensures |IdFrame| == 21 && IdFrame[20] == 0
    ensures IdFrame[..20] == BuildFrame(0x0B, IdPayload)
  {
    IdChecksum();
    assert IdFrame[..20] == [0xEF, 0xDD, 0x0B] + IdPayload + Checksum(IdPayload);
  }

  /** The checksum bytes of the identifier are 9A 6D. */
  lemma IdChecksum()
    ensures Checksum(IdPayload) == [0x9a, 0x6d]
  {
    assert EvenSum(IdHead) == 204 && OddSum(IdHead) == 208;
    assert EvenSum(IdTail) == 206 && OddSum(IdTail) == 157;
    ParitySumsAppend(IdHead, IdTail);
  }

  /** The frame each command sends after the identification frame. */
  lemma CommandFrames()
    ensures CommandWrites(HeartBeat)[1] == [0xEF, 0xDD, 0x00, 0x02, 0x00, 0x02, 0x00]
    ensures CommandWrites(DoTare)[1] == [0xEF, 0xDD, 0x04, 0x00, 0x00, 0x00]
    ensures CommandWrites(StartTimer)[1] == [0xEF, 0xDD, 0x0D, 0x00, 0x00, 0x00, 0x00]
    ensures CommandWrites(ResetTimer)[1] == [0xEF, 0xDD, 0x0D, 0x00, 0x01, 0x00, 0x01]
    ensures CommandWrites(StopTimer)[1] == [0xEF, 0xDD, 0x0D, 0x00, 0x02, 0x00, 0x02]
    ensures CommandWrites(GetSettings)[1] == [0xEF, 0xDD, 0x06] + seq(18, _ => 0)
  {
    var zeros := seq(16, _ => 0);
    assert EvenSum(zeros) == 0 && OddSum(zeros) == 0 by {
      ZeroSums(zeros);
    }
    assert [0xEF, 0xDD, 0x06] + zeros + [0, 0] == [0xEF, 0xDD, 0x06] + seq(18, _ => 0);
  }

  /** Both sums of an all-zero payload are zero. */
  lemma {:induction false} ZeroSums(s: seq<byte>)
    requires forall i :: 0 <= i < |s| ==> s[i] == 0
    ensures EvenSum(s) == 0 && OddSum(s) == 0
  {
    if |s| > 0 {
      ZeroSums(s[1..]);
    }
  }
}
