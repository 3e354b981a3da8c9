/**
 * The notification decoder of the gateway (`decodeMessage` and `_substr`).
 *
 * An incoming frame is EF DD, topic, size, type, `size` payload bytes and
 * two checksum bytes. The decoder looks for the first sync pair, reads the
 * header, and updates the gateway's battery level or weight when it
 * recognises the topic and type. The checksum is not checked.
 */
module FrameDecoder {
  import opened Bytes

  const BatteryTopic: byte := 0x08
  const WeightTopic: byte := 0x0C
  const WeightType: byte := 0x05

  /** Bytes the weight rule reads from the payload copy: magnitude (2),
      two ignored bytes, unit, flags. */
  const WeightFieldsSize: nat := 6

  /** The shortest weight payload the weight rule reads inside the copy's
      allocation: the copy carries one terminating zero byte after the
      payload, so a five-byte payload has its flags read as that zero. */
  const MinWeightPayload: nat := WeightFieldsSize - 1

  /** The observable state of the gateway: `battery` is a percentage,
      `weight` the last weight reported, held exactly. */
  datatype Gateway = Gateway(weight: real, battery: int)

  /** What one call of the decoder found in a buffer. `Frame` carries the
      topic, type and message payload of the frame located. */
  datatype DecodeResult =
    | NoFrame
    | MalformedFrame
    | Frame(topic: byte, msgType: byte, payload: seq<byte>)

  datatype Decoded = Decoded(result: DecodeResult, state: Gateway)

  /** The sync pair starts at index `i` of `buf`. */
  predicate SyncAt(buf: seq<byte>, i: int)
  {
    0 <= i && i + 1 < |buf| && buf[i] == SyncFirst && buf[i + 1] == SyncSecond
  }

  /** Index `i` lies before the first zero byte of `buf`: the buffer is a C
      string and the scan stops at its terminator. */
  predicate BeforeTerminator(buf: seq<byte>, i: int)
  {
    0 <= i < |buf| && forall k :: 0 <= k <= i ==> buf[k] != 0
  }

  /** The scan from index `i` on, every earlier index having been passed
      over. */
  function ScanFrom(buf: seq<byte>, i: nat): (r: Option<nat>)
    requires i <= |buf|
    requires forall k :: 0 <= k < i ==> buf[k] != 0 && !SyncAt(buf, k)
    ensures r.Some? ==> i <= r.value && SyncAt(buf, r.value) && BeforeTerminator(buf, r.value)
    ensures r.Some? ==> forall k :: 0 <= k < r.value ==> !SyncAt(buf, k)
    ensures r.None? ==> forall k :: BeforeTerminator(buf, k) ==> !SyncAt(buf, k)
    decreases |buf| - i
  {
    if i == |buf| || buf[i] == 0 then None
    else if SyncAt(buf, i) then Some(i)
    else ScanFrom(buf, i + 1)
  }

  /** The start of the first frame: the least index before the terminator
      at which the sync pair stands, or None when there is none. */
  function Scan(buf: seq<byte>): (r: Option<nat>)
    ensures r.Some? ==> SyncAt(buf, r.value) && BeforeTerminator(buf, r.value)
    ensures r.Some? ==> forall k :: 0 <= k < r.value ==> !SyncAt(buf, k)
    ensures r.None? <==> forall k :: BeforeTerminator(buf, k) ==> !SyncAt(buf, k)
  {
    ScanFrom(buf, 0)
  }

  /** A fresh copy of `src[start..end)`, or None when the range is
      reversed. A forward range must lie inside `src`. */
  function Substr(src: seq<byte>, start: int, end: int): (r: Option<seq<byte>>)
    requires end < start || 0 <= start <= end <= |src|
    ensures r.None? <==> end < start
    ensures r.Some? ==> |r.value| == end - start
    ensures r.Some? ==> forall k :: 0 <= k < |r.value| ==> r.value[k] == src[start + k]
  {
    if end - start < 0 then None else Some(src[start..end])
  }

  /** The memory a copy occupies: `_substr` allocates one byte more than the
      copy and stores a terminating zero there. */
  function Allocation(copy: seq<byte>): (a: seq<byte>)
    ensures |a| == |copy| + 1 && a[|copy|] == 0
    ensures forall k :: 0 <= k < |copy| ==> a[k] == copy[k]
  {
    copy + [0]
  }

  /** Battery percentage: the low seven bits of the byte. */
  function BatteryLevel(b: byte): (r: int)
    ensures 0 <= r < 128
    ensures r == b % 128
  {
    OnesMask(b, 7);
    LowBitsMod(b, 7);
    BitAnd(b, 0x7F)
  }

  /** The sign flag: bit 1 of the flags byte. */
  function Negative(flags: byte): (neg: bool)
    ensures neg <==> (flags / 2) % 2 == 1
  {
    BitOneMask(flags);
    BitAnd(flags, 0x02) == 0x02
  }

  /** The weight's magnitude: a little-endian unsigned 16-bit number, the
      high byte shifted left by eight bits. */
  function Magnitude(lo: byte, hi: byte): (m: int)
    ensures 0 <= m < 0x1_0000
    ensures m % 256 == lo && m / 256 == hi
  {
    hi * 256 + lo
  }

  /** 10 to the power `n`. */
  function Pow10(n: nat): (r: nat)
    ensures r >= 1
  {
    if n == 0 then 1 else 10 * Pow10(n - 1)
  }

  /** The scale a unit byte stands for: units 1 to 4 are one to four
      decimal places; any other unit is whole. */
  function Scale(unit: byte): nat
  {
    if 1 <= unit <= 4 then Pow10(unit) else 1
  }

  /** The divisor the gateway's unit switch selects. */
  function Divisor(unit: byte): (d: nat)
    ensures 1 <= unit <= 4 ==> d == Pow10(unit)
    ensures !(1 <= unit <= 4) ==> d == 1
    ensures d == Scale(unit)
  {
    if unit == 1 then 10
    else if unit == 2 then 100
    else if unit == 3 then 1000
    else if unit == 4 then 10000
    else 1
  }

  /** `w` is the weight a scale reports with magnitude bytes `lo` and `hi`
      (little-endian), unit byte `unit` and flags byte `flags`: times the
      unit's scale it is the magnitude, negated when bit 1 of the flags is
      set. */
  predicate ReportsWeight(w: real, lo: byte, hi: byte, unit: byte, flags: byte)
  {
    var scaled := w * Scale(unit) as real;
    var magnitude := (lo as int + 256 * (hi as int)) as real;
    if (flags / 2) % 2 == 1 then scaled == -magnitude else scaled == magnitude
  }

  /** The weight a weight payload reports: magnitude at 0 and 1, unit at 4,
      flags at 5. */
  function WeightValue(p: seq<byte>): (w: real)
    requires |p| >= WeightFieldsSize
    ensures ReportsWeight(w, p[0], p[1], p[4], p[5])
    ensures -65535.0 <= w <= 65535.0
    ensures w < 0.0 ==> (p[5] / 2) % 2 == 1
  {
    var neg := Negative(p[5]);
    var m := Magnitude(p[0], p[1]);
    var d := Divisor(p[4]);
    WeightFromFields(p[0], p[1], p[4], p[5], m, d, neg);
    var magnitude := m as real / d as real;
    if neg then -magnitude else magnitude
  }

  /** Dividing the magnitude by the unit's divisor, and negating when the
      sign flag is set, gives the weight the fields report; it lies within
      the 16-bit magnitude's range and is negative only with the flag
      set. */
  lemma WeightFromFields(lo: byte, hi: byte, unit: byte, flags: byte, m: nat, d: nat, neg: bool)
    requires m == lo as int + 256 * (hi as int)
    requires d == Scale(unit)
    requires neg <==> (flags / 2) % 2 == 1
    ensures var q := m as real / d as real;
            var w := if neg then -q else q;
            && ReportsWeight(w, lo, hi, unit, flags)
            && -65535.0 <= w <= 65535.0
            && (w < 0.0 ==> (flags / 2) % 2 == 1)
  {
    SignedQuotient(m, d, neg);
    var q := m as real / d as real;
    WeightReported(if neg then -q else q, lo, hi, unit, flags, m, d, neg);
  }

  /** The weight rule's equation, once the magnitude, divisor and sign flag
      are known. */
  lemma WeightReported(w: real, lo: byte, hi: byte, unit: byte, flags: byte, m: int, d: nat, neg: bool)
    requires m == lo as int + 256 * (hi as int)
    requires d == Scale(unit)
    requires neg <==> (flags / 2) % 2 == 1
    requires if neg then w * d as real == -(m as real) else w * d as real == m as real
    ensures ReportsWeight(w, lo, hi, unit, flags)
  {
  }

  /** Dividing a magnitude by a divisor of at least one, and negating when
      asked, gives a value the divisor multiplies back to the signed
      magnitude; it is no larger than the magnitude and negative only when
      negated. */
  lemma SignedQuotient(m: nat, d: nat, neg: bool)
    requires d >= 1
    ensures var q := m as real / d as real;
            var w := if neg then -q else q;
            && (if neg then w * d as real == -(m as real) else w * d as real == m as real)
            && -(m as real) <= w <= m as real
            && (w < 0.0 ==> neg)
  {
    var q := m as real / d as real;
    QuotientBounds(m as real, d as real);
    if neg {
      assert (-q) * d as real == -(q * d as real);
    }
  }

  /** A non-negative quotient by a divisor of at least one lies between
      zero and the dividend and multiplies back to it. */
  lemma QuotientBounds(m: real, d: real)
    requires m >= 0.0 && d >= 1.0
    ensures (m / d) * d == m
    ensures 0.0 <= m / d <= m
  {
    var q := m / d;
    assert q * d == m;
    assert q * (d - 1.0) >= 0.0;
  }

  /** The state change a located frame causes. `message` is the payload,
      `withType` is the type byte followed by the payload. The weight rule
      reads the payload copy's allocation, terminator included. */
  function ApplyFrame(g: Gateway, topic: byte, msgType: byte, message: seq<byte>, withType: seq<byte>): (g': Gateway)
    requires |withType| >= 1
    requires topic == WeightTopic && msgType == WeightType ==> |message| >= MinWeightPayload
    ensures topic == BatteryTopic ==> g'.battery == withType[0] % 128 && g'.weight == g.weight
    ensures topic == WeightTopic && msgType == WeightType ==>
              && g'.weight == WeightValue(message + [0])
              && (|message| == MinWeightPayload ==> g'.weight >= 0.0)
              && g'.battery == g.battery
    ensures topic != BatteryTopic && !(topic == WeightTopic && msgType == WeightType) ==> g' == g
  {
    var g1 := if topic == BatteryTopic then g.(battery := BatteryLevel(withType[0])) else g;
    if topic == WeightTopic && msgType == WeightType then g1.(weight := WeightValue(Allocation(message))) else g1
  }

  /** The frame, if any, at the start of `buf` that the scan found, and the
      gateway state after decoding it. Where the gateway reads without a
      bounds check, the model answers MalformedFrame and leaves the state
      alone: a header cut off by the end of the buffer, a declared size
      that runs past the end, and a weight frame whose payload copy, with
      its terminator, is shorter than the six bytes the weight rule reads. */
  function Decode(g: Gateway, buf: seq<byte>): (d: Decoded)
    ensures d.result.NoFrame? <==> Scan(buf).None?
    ensures !d.result.Frame? ==> d.state == g
    ensures d.result.Frame? ==>
              var start := Scan(buf).value;
              && start + 5 + |d.result.payload| <= |buf|
              && d.result.topic == buf[start + 2]
              && |d.result.payload| == buf[start + 3]
              && d.result.msgType == buf[start + 4]
              && d.result.payload == buf[start + 5..start + 5 + buf[start + 3]]
  {
    match Scan(buf)
    case None => Decoded(NoFrame, g)
    case Some(start) =>
      if start + 4 >= |buf| then Decoded(MalformedFrame, g)
      else
        var end := start + buf[start + 3] + 5;
        if end > |buf| then Decoded(MalformedFrame, g)
        else
          var topic := buf[start + 2];
          var msgType := buf[start + 4];
          var message := Substr(buf, start + 5, end).value;
          var withType := Substr(buf, start + 4, end).value;
          if topic == WeightTopic && msgType == WeightType && |message| < MinWeightPayload then
            Decoded(MalformedFrame, g)
          else
            Decoded(Frame(topic, msgType, message), ApplyFrame(g, topic, msgType, message, withType))
  }
}
