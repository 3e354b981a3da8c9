/**
 * Properties of the notification decoder: what each outcome means for the
 * buffer, how the battery and weight rules read the frame, that decoding
 * twice changes nothing more, that no byte past the frame's end matters,
 * and that the decoder finds the frames the builder makes.
 */
module DecoderProperties {
  import opened Bytes
  import opened FrameBuilder
  import opened FrameDecoder

  /** A located frame is malformed exactly when its header is cut off, its
      declared size runs past the buffer, or it is a weight frame whose
      payload, with the copy's terminator, is too short for the six bytes
      the weight rule reads. */
  lemma DecodeMalformed(g: Gateway, buf: seq<byte>, start: nat)
    requires Scan(buf) == Some(start)
    ensures Decode(g, buf).result.MalformedFrame? <==>
              || start + 4 >= |buf|
              || start + buf[start + 3] + 5 > |buf|
              || (buf[start + 2] == WeightTopic && buf[start + 4] == WeightType
                  && buf[start + 3] < MinWeightPayload)
  {
  }

  /** A battery frame sets the battery to the low seven bits of the byte at
      offset 4, the type position, whatever the type; the weight stays. */
  lemma DecodeBattery(g: Gateway, buf: seq<byte>, start: nat)
    requires Scan(buf) == Some(start)
    requires start + 4 < |buf| && start + buf[start + 3] + 5 <= |buf|
    requires buf[start + 2] == BatteryTopic
    ensures Decode(g, buf).result.Frame?
    ensures 0 <= Decode(g, buf).state.battery < 128
    ensures Decode(g, buf).state.battery == buf[start + 4] % 128
    ensures Decode(g, buf).state.weight == g.weight
    ensures Decode(g, buf) == Decoded(Frame(BatteryTopic, buf[start + 4], buf[start + 5..start + 5 + buf[start + 3]]),
                                      g.(battery := buf[start + 4] % 128))
  {
  }

  /** A weight frame sets the weight to the little-endian magnitude at
      offsets 5 and 6, divided by the unit's power of ten (offset 9) and
      negated when bit 1 of the flags (offset 10) is set; the battery
      stays. A five-byte payload has no flags byte of its own: the copy's
      terminator stands in, so the weight is never negated. */
  lemma DecodeWeight(g: Gateway, buf: seq<byte>, start: nat)
    requires Scan(buf) == Some(start)
    requires start + 4 < |buf| && start + buf[start + 3] + 5 <= |buf|
    requires buf[start + 2] == WeightTopic && buf[start + 4] == WeightType
    requires buf[start + 3] >= MinWeightPayload
    ensures Decode(g, buf).result.Frame?
    ensures ReportsWeight(Decode(g, buf).state.weight, buf[start + 5], buf[start + 6], buf[start + 9],
                          if buf[start + 3] == MinWeightPayload then 0 else buf[start + 10])
    ensures Decode(g, buf).state.battery == g.battery
  {
    var size := buf[start + 3];
    var p := Allocation(buf[start + 5..start + 5 + size]);
    DecodeWeightFrame(g, buf, start);
    assert p[0] == buf[start + 5] && p[1] == buf[start + 6] && p[4] == buf[start + 9];
    assert p[5] == if size == MinWeightPayload then 0 else buf[start + 10];
  }

  /** A weight frame's outcome: the frame itself, and the weight the rule
      reads from its payload copy, terminator included. */
  lemma DecodeWeightFrame(g: Gateway, buf: seq<byte>, start: nat)
    requires Scan(buf) == Some(start)
    requires start + 4 < |buf| && start + buf[start + 3] + 5 <= |buf|
    requires buf[start + 2] == WeightTopic && buf[start + 4] == WeightType
    requires buf[start + 3] >= MinWeightPayload
    ensures var message := buf[start + 5..start + 5 + buf[start + 3]];
            Decode(g, buf) == Decoded(Frame(WeightTopic, WeightType, message),
                                      g.(weight := WeightValue(Allocation(message))))
  {
  }

  /** A frame of any other topic and type is accepted and changes
      nothing. */
  lemma DecodeUnrecognised(g: Gateway, buf: seq<byte>)
    requires Decode(g, buf).result.Frame?
    requires Decode(g, buf).result.topic != BatteryTopic
    requires !(Decode(g, buf).result.topic == WeightTopic && Decode(g, buf).result.msgType == WeightType)
    ensures Decode(g, buf).state == g
  {
  }

  /** Every update overwrites, so decoding a buffer a second time leaves the
      state where the first decoding put it. */
  lemma DecodeIdempotent(g: Gateway, buf: seq<byte>)
    ensures Decode(Decode(g, buf).state, buf) == Decode(g, buf)
  {
  }

  /** The scan's answer depends only on the bytes up to the second byte of
      the sync pair it found. */
  lemma ScanIgnoresTail(buf: seq<byte>, start: nat, n: nat, tail: seq<byte>)
    requires Scan(buf) == Some(start)
    requires start + 2 <= n <= |buf|
    ensures Scan(buf[..n] + tail) == Some(start)
  {
    var b := buf[..n] + tail;
    assert forall k :: 0 <= k < n ==> b[k] == buf[k];
    assert BeforeTerminator(b, start);
    assert SyncAt(b, start);
    assert forall k :: 0 <= k < start ==> !SyncAt(b, k) by {
      forall k | 0 <= k < start
        ensures !SyncAt(b, k)
      {
        assert !SyncAt(buf, k);
      }
    }
  }

  /** No byte after the end of the located frame is read: replacing
      everything past it leaves the outcome and the state unchanged. */
  lemma DecodeIgnoresTail(g: Gateway, buf: seq<byte>, tail: seq<byte>)
    requires Decode(g, buf).result.Frame?
    ensures var start := Scan(buf).value;
            var end := start + 5 + |Decode(g, buf).result.payload|;
            Decode(g, buf[..end] + tail) == Decode(g, buf)
  {
    var start := Scan(buf).value;
    var end := start + 5 + |Decode(g, buf).result.payload|;
    var b := buf[..end] + tail;
    ScanIgnoresTail(buf, start, end, tail);
    assert b[start + 4..end] == buf[start + 4..end];
    assert b[start + 5..end] == buf[start + 5..end];
  }

  /** The decoder's scan finds every frame the builder makes at its first
      byte. */
  lemma ScanBuiltFrame(msgType: int, payload: seq<byte>)
    requires |payload| <= MaxPayload
    ensures Scan(BuildFrame(msgType, payload)) == Some(0)
  {
    var f := BuildFrame(msgType, payload);
    assert BeforeTerminator(f, 0);
    assert SyncAt(f, 0);
  }

  /** When a built frame's payload opens with a size that fits and a type
      byte, the decoder reads back the builder's message type as the
      topic. */
  lemma DecodeBuiltFrame(g: Gateway, msgType: int, payload: seq<byte>)
    requires 2 <= |payload| <= MaxPayload
    requires payload[0] <= |payload|
    requires !(msgType % 256 == WeightTopic && payload[1] == WeightType && payload[0] < MinWeightPayload)
    ensures var d := Decode(g, BuildFrame(msgType, payload));
            && d.result.Frame?
            && d.result.topic == msgType % 256
            && d.result.msgType == payload[1]
            && |d.result.payload| == payload[0]
  {
    ScanBuiltFrame(msgType, payload);
  }
}
