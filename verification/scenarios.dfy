/**
 * Concrete notification buffers and what the decoder makes of them.
 */
module Scenarios {
  import opened Bytes
  import opened FrameDecoder
  import opened DecoderProperties

  /** A weight frame after one stray byte: magnitude 100, unit 2 (two
      decimal places), no sign flag, so the scale reads 1.00. */
  lemma WeightScenario(g: Gateway)
    ensures Decode(g, [0x01, 0xEF, 0xDD, 0x0C, 0x06, 0x05, 0x64, 0x00, 0x00, 0x00, 0x02, 0x00, 0x6A, 0x00])
            == Decoded(Frame(0x0C, 0x05, [0x64, 0x00, 0x00, 0x00, 0x02, 0x00]), g.(weight := 1.0))
  {
    var buf: seq<byte> := [0x01, 0xEF, 0xDD, 0x0C, 0x06, 0x05, 0x64, 0x00, 0x00, 0x00, 0x02, 0x00, 0x6A, 0x00];
    assert !SyncAt(buf, 0) && SyncAt(buf, 1);
    assert Scan(buf) == Some(1);
    var message := buf[6..12];
    assert message == [0x64, 0x00, 0x00, 0x00, 0x02, 0x00];
    DecodeWeightFrame(g, buf, 1);
    var w := WeightValue(Allocation(message));
    assert Scale(2) == 100;
    assert w * 100.0 == 100.0;
  }

  /** The same frame with the sign flag set reads -1.00. */
  lemma NegativeWeightScenario(g: Gateway)
    ensures Decode(g, [0xEF, 0xDD, 0x0C, 0x06, 0x05, 0x64, 0x00, 0x00, 0x00, 0x02, 0x02, 0x6A, 0x02])
            == Decoded(Frame(0x0C, 0x05, [0x64, 0x00, 0x00, 0x00, 0x02, 0x02]), g.(weight := -1.0))
  {
    var buf: seq<byte> := [0xEF, 0xDD, 0x0C, 0x06, 0x05, 0x64, 0x00, 0x00, 0x00, 0x02, 0x02, 0x6A, 0x02];
    assert Scan(buf) == Some(0) by {
      assert BeforeTerminator(buf, 0) && SyncAt(buf, 0);
    }
    var message := buf[5..11];
    assert message == [0x64, 0x00, 0x00, 0x00, 0x02, 0x02];
    DecodeWeightFrame(g, buf, 0);
    var w := WeightValue(Allocation(message));
    assert Scale(2) == 100;
    assert w * 100.0 == -100.0;
  }

  /** A battery frame: the byte at the type position sets the battery to
      its low seven bits, so AB gives 43. */
  lemma BatteryScenario(g: Gateway, b: byte, buf: seq<byte>)
    requires buf == [0xEF, 0xDD, 0x08, 0x00, b, 0x00, 0x00]
    ensures Decode(g, buf) == Decoded(Frame(0x08, b, []), g.(battery := b % 128))
    ensures b == 0xAB ==> Decode(g, buf).state.battery == 43
  {
    assert Scan(buf) == Some(0) by {
      assert BeforeTerminator(buf, 0) && SyncAt(buf, 0);
    }
    DecodeBattery(g, buf, 0);
    assert buf[5..5] == [];
    assert 0xAB % 128 == 43;
  }

  /** A weight frame with a five-byte payload: the flags position is the
      copy's terminator, so magnitude 100 in unit 2 reads 1.00 and is not
      negated, whatever byte follows the frame in the buffer. */
  lemma ShortWeightScenario(g: Gateway, buf: seq<byte>)
    requires buf == [0xEF, 0xDD, 0x0C, 0x05, 0x05, 0x64, 0x00, 0x00, 0x00, 0x02, 0x02, 0x6A]
    ensures Decode(g, buf) == Decoded(Frame(0x0C, 0x05, [0x64, 0x00, 0x00, 0x00, 0x02]), g.(weight := 1.0))
  {
    assert Scan(buf) == Some(0) by {
      assert BeforeTerminator(buf, 0) && SyncAt(buf, 0);
    }
    assert buf[5..10] == [0x64, 0x00, 0x00, 0x00, 0x02];
    assert Allocation(buf[5..10]) == [0x64, 0x00, 0x00, 0x00, 0x02, 0x00];
  }

  /** A buffer that opens with its terminator holds no frame, and the state
      stays. The gateway's code would go on with start index -1 and read
      `00 08 00 2A` as topic 08, size 00 and type 2A, setting the battery
      to 42. */
  lemma PhantomFrameScenario(g: Gateway, buf: seq<byte>)
    requires buf == [0x00, 0x08, 0x00, 0x2A, 0x00]
    ensures Decode(g, buf) == Decoded(NoFrame, g)
    ensures buf[1] == BatteryTopic && buf[-1 + 3] == 0 && buf[-1 + 4] % 128 == 42
  {
    assert ScanFrom(buf, 0) == None;
  }

  /** A sync pair behind a zero byte is never reached. */
  lemma SyncAfterTerminatorScenario(g: Gateway)
    ensures Decode(g, [0x01, 0x00, 0xEF, 0xDD, 0x08, 0x00, 0xAB]) == Decoded(NoFrame, g)
  {
    var buf: seq<byte> := [0x01, 0x00, 0xEF, 0xDD, 0x08, 0x00, 0xAB];
    assert ScanFrom(buf, 1) == None;
  }

  /** A frame declaring nine payload bytes in a five-byte buffer is
      malformed and changes nothing. */
  lemma TruncatedScenario(g: Gateway)
    ensures Decode(g, [0xEF, 0xDD, 0x0C, 0x09, 0x05]) == Decoded(MalformedFrame, g)
  {
    var buf: seq<byte> := [0xEF, 0xDD, 0x0C, 0x09, 0x05];
    assert Scan(buf) == Some(0) by {
      assert BeforeTerminator(buf, 0) && SyncAt(buf, 0);
    }
  }
}
