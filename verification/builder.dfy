/**
 * The request-frame builder of the gateway (`_prepareRequest`).
 *
 * A request frame is the sync pair EF DD, the message type, the payload,
 * and two checksum bytes: the low byte of the sum of the payload bytes at
 * even positions, then the low byte of the sum at odd positions.
 */
module FrameBuilder {
  import opened Bytes

  /** The request buffer is a static array of 32 bytes, and a frame holds
      five bytes besides its payload. */
  const RequestCapacity: nat := 32
  const MaxPayload: nat := RequestCapacity - 5

  /** The two checksum bytes of a payload. */
  function Checksum(payload: seq<byte>): (c: seq<byte>)
    ensures |c| == 2
  {
    [EvenSum(payload) % 256, OddSum(payload) % 256]
  }

  /** The frame carrying `payload` under message type `msgType`. The type
      is a C `int` stored into a `uint8_t`, so only its low byte is sent. */
  function BuildFrame(msgType: int, payload: seq<byte>): (f: seq<byte>)
    requires |payload| <= MaxPayload
    ensures |f| == |payload| + 5 <= RequestCapacity
    ensures f[0] == SyncFirst && f[1] == SyncSecond && f[2] == msgType % 256
    ensures forall i :: 0 <= i < |payload| ==> f[3 + i] == payload[i]
    ensures f[|payload| + 3] == EvenSum(payload) % 256
    ensures f[|payload| + 4] == OddSum(payload) % 256
  {
    [SyncFirst, SyncSecond, msgType % 256] + payload + Checksum(payload)
  }

  /** The builder as the gateway runs it: one pass over the payload that
      copies each byte and adds it into one of two 8-bit accumulators,
      chosen by the parity of its position; each accumulator wraps at 256. */
  method PrepareRequest(msgType: int, message: seq<byte>) returns (request: seq<byte>)
    requires |message| <= MaxPayload
    ensures request == BuildFrame(msgType, message)
  {
    var header := [SyncFirst, SyncSecond, msgType % 256];
    request := header;
    var checksum1: byte := 0;
    var checksum2: byte := 0;
    var i := 0;
    while i < |message|
      invariant 0 <= i <= |message|
      invariant request == header + message[..i]
      invariant checksum1 == EvenSum(message[..i]) % 256
      invariant checksum2 == OddSum(message[..i]) % 256
    {
      var tempval := message[i];
      assert message[..i + 1] == message[..i] + [tempval];
      ParitySumsSnoc(message[..i], tempval);
      WrapStep(EvenSum(message[..i]), EvenSum(message[..i + 1]), tempval, i % 2 == 0);
      WrapStep(OddSum(message[..i]), OddSum(message[..i + 1]), tempval, i % 2 == 1);
      request := request + [tempval];
      if i % 2 == 0 {
        checksum1 := (checksum1 + tempval) % 256;
      } else {
        checksum2 := (checksum2 + tempval) % 256;
      }
      i := i + 1;
    }
    assert message[..i] == message;
    request := request + [checksum1, checksum2];
  }

  /** One step of the builder's loop on one 8-bit accumulator: whether or
      not the position's parity makes it take the byte `x`, it keeps
      tracking the low byte of its running sum. */
  lemma WrapStep(before: nat, after: nat, x: byte, adds: bool)
    requires after == before + (if adds then x else 0)
    ensures after % 256 == (if adds then (before % 256 + x) % 256 else before % 256)
  {
    if adds {
      AddLowByte(before, x);
    }
  }

  /** Adding into an 8-bit accumulator that already wrapped gives the low
      byte of the unwrapped sum. */
  lemma AddLowByte(a: nat, x: nat)
    ensures (a % 256 + x) % 256 == (a + x) % 256
  {
    var y := a % 256 + x;
    assert a + x == 256 * (a / 256 + y / 256) + y % 256;
    ModUnique(a + x, 256, a / 256 + y / 256, y % 256);
  }

  /** The receiving side of a request frame: checks the sync pair and both
      checksums and splits the frame into its type byte and payload. */
  function ParseRequest(f: seq<byte>): (r: Option<(byte, seq<byte>)>)
    ensures r.Some? ==> 5 <= |f| && |r.value.1| == |f| - 5
  {
    if |f| < 5 || f[0] != SyncFirst || f[1] != SyncSecond then None
    else
      var payload := f[3..|f| - 2];
      if f[|f| - 2..] == Checksum(payload) then Some((f[2], payload)) else None
  }

  /** Every built frame is accepted and yields back its type byte and
      payload. */
  lemma ParseBuiltFrame(msgType: int, payload: seq<byte>)
    requires |payload| <= MaxPayload
    ensures ParseRequest(BuildFrame(msgType, payload)) == Some((msgType % 256, payload))
  {
    var f := BuildFrame(msgType, payload);
    assert f[3..|f| - 2] == payload;
    assert f[|f| - 2..] == Checksum(payload);
  }

  /** Every accepted frame that fits the request buffer is exactly the frame
      the builder makes from its parts: the checksums leave no freedom. */
  lemma BuildParsedFrame(f: seq<byte>)
    requires |f| <= RequestCapacity
    requires ParseRequest(f).Some?
    ensures BuildFrame(ParseRequest(f).value.0, ParseRequest(f).value.1) == f
  {
    var payload := f[3..|f| - 2];
    assert f == [f[0], f[1], f[2]] + payload + f[|f| - 2..];
  }

  /** An empty payload gives a five-byte frame ending in two zero bytes. */
  lemma EmptyPayloadFrame(msgType: int)
    ensures BuildFrame(msgType, []) == [SyncFirst, SyncSecond, msgType % 256, 0, 0]
  {
  }
}
