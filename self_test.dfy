/**
 * `PacketStream::self_test` (PacketStream.cpp): the encoding and decoding test
 * vectors, the recovery from a malformed frame, the empty frame, and the
 * loopback of random packets and of `printf`/`scanf` numbers through the ring
 * buffer. The random choices of `self_test` are parameters here, so the
 * postcondition `passed` says the test passes for every choice it can make.
 */
module SelfTest {
  import opened Bytes
  import opened Cobs
  import opened Format
  import opened Stream
  import opened TestHandles

  datatype Vector = Vector(decoded: seq<byte>, encoded: seq<byte>)

  /** `n` consecutive byte values starting at `first`. */
  function Ramp(first: nat, n: nat): (r: seq<byte>)
    requires first + n <= 256
    ensures |r| == n && forall i :: 0 <= i < n ==> r[i] == first + i
  {
    seq(n, i requires 0 <= i < n => first + i)
  }

  /** The table of `get_test_vector`: a payload and its frame, delimiter included. */
  const Vectors: seq<Vector> := [V0, V1, V2, V3, V4, V5, V6, V7, V8, V9, V10]

  const V0: Vector := Vector([0x00], [0x01, 0x01, 0x00])
  const V1: Vector := Vector([0x00, 0x00], [0x01, 0x01, 0x01, 0x00])
  const V2: Vector := Vector([0x11, 0x22, 0x00, 0x33], [0x03, 0x11, 0x22, 0x02, 0x33, 0x00])
  const V3: Vector := Vector([0x11, 0x22, 0x33, 0x44], [0x05, 0x11, 0x22, 0x33, 0x44, 0x00])
  const V4: Vector := Vector([0x11, 0x00, 0x00, 0x00], [0x02, 0x11, 0x01, 0x01, 0x01, 0x00])
  /** 01 .. FE */
  const V5: Vector := Vector(Ramp(1, 254), [0xFF] + Ramp(1, 254) + [0x00])
  /** 00 .. FE */
  const V6: Vector := Vector([0x00] + Ramp(1, 254), [0x01, 0xFF] + Ramp(1, 254) + [0x00])
  /** 01 .. FF */
  const V7: Vector := Vector(Ramp(1, 254) + [0xFF], [0xFF] + Ramp(1, 254) + [0x02, 0xFF, 0x00])
  /** 02 .. FF 00 */
  const V8: Vector := Vector(Ramp(2, 254) + [0x00], [0xFF] + Ramp(2, 254) + [0x01, 0x01, 0x00])
  /** 03 .. FF 00 01 */
  const V9: Vector := Vector(Ramp(3, 253) + [0x00, 0x01], [0xFE] + Ramp(3, 253) + [0x02, 0x01, 0x00])
  /** The empty packet. */
  const V10: Vector := Vector([], [0x01, 0x00])

  predicate Encodes(v: Vector)
  {
    Frame(v.decoded) == v.encoded
  }

  /** After a buffered run the frame continues from that run. */
  lemma FrameAfterRun(run: seq<byte>, tail: seq<byte>)
    requires IsRun(run)
    ensures Frame(run + tail) == FrameFrom(run, tail)
  {
    FrameIsFrameFrom(run + tail);
    EncodeAppend([], run, tail);
    EncodeBuffers([], run);
    assert [] + run == run;
    assert [] + Encode(run, tail).chunks == Encode(run, tail).chunks;
  }

  /** The payload `b` after `run`, as one step of the encoder and the frame of the rest. */
  lemma FrameStep(run: seq<byte>, b: byte, tail: seq<byte>)
    requires IsRun(run)
    ensures FrameFrom(run, [b] + tail)
         == Flatten(EncodeByte(run, b).chunks) + FrameFrom(EncodeByte(run, b).run, tail)
  {
    FrameFromStep(run, b, tail);
  }

  lemma Vector0Encodes() ensures Encodes(V0) {}
  lemma Vector1Encodes() ensures Encodes(V1) {}
  lemma Vector2Encodes() ensures Encodes(V2) {}
  lemma Vector3Encodes() ensures Encodes(V3) {}
  lemma Vector4Encodes() ensures Encodes(V4) {}
  lemma Vector10Encodes() ensures Encodes(V10) {}

  /** A run of at most 254 non-zero bytes is held, not flushed, until the final chunk. */
  lemma RunFrame(r: seq<byte>)
    requires IsRun(r)
    ensures Frame(r) == Chunk(r) + [0x00]
  {
    FrameAfterRun(r, []);
    assert r + [] == r;
  }

  /** A zero, then a run: an empty chunk, then the run's final chunk. */
  lemma ZeroThenRunFrame(r: seq<byte>)
    requires IsRun(r)
    ensures Frame([0x00] + r) == [0x01] + Chunk(r) + [0x00]
  {
    FrameIsFrameFrom([0x00] + r);
    FrameStep([], 0x00, r);
    assert Chunk([]) == [0x01];
    assert EncodeByte([], 0x00).chunks == [[0x01]];
    FlattenOne([0x01]);
    EncodeBuffers([], r);
    assert [] + r == r;
    assert FrameFrom([], r) == FinalChunk(r);
    AppendAssoc([0x01], Chunk(r), [0x00]);
  }

  /** A 255th non-zero byte forces the 254 before it out as a full chunk. */
  lemma FullRunThenByteFrame(r: seq<byte>, b: byte)
    requires IsRun(r) && |r| == MaxRun && b != 0
    ensures Frame(r + [b]) == Chunk(r) + [0x02, b, 0x00]
  {
    FrameAfterRun(r, [b]);
    FrameStep(r, b, []);
    assert [b] + [] == [b];
    assert EncodeByte(r, b) == Encoded([Chunk(r)], [b]);
    FlattenOne(Chunk(r));
    assert FrameFrom([b], []) == [0x02, b, 0x00];
  }

  /** A zero after 254 non-zero bytes: the forced full chunk, then an empty one. */
  lemma FullRunThenZeroFrame(r: seq<byte>)
    requires IsRun(r) && |r| == MaxRun
    ensures Frame(r + [0x00]) == Chunk(r) + [0x01, 0x01, 0x00]
  {
    FrameAfterRun(r, [0x00]);
    FrameStep(r, 0x00, []);
    assert Flatten([Chunk(r), Chunk([])]) == Chunk(r) + [0x01] by {
      assert [Chunk(r), Chunk([])][1..] == [Chunk([])];
      FlattenOne(Chunk([]));
    }
  }

  /** A zero after a shorter run ends that run's chunk; the byte after it starts the final one. */
  lemma RunThenZeroThenByteFrame(r: seq<byte>, b: byte)
    requires IsRun(r) && |r| < MaxRun && b != 0
    ensures Frame(r + [0x00, b]) == Chunk(r) + [0x02, b, 0x00]
  {
    FrameAfterRun(r, [0x00, b]);
    assert [0x00, b] == [0x00] + [b];
    FrameStep(r, 0x00, [b]);
    FlattenOne(Chunk(r));
    FrameStep([], b, []);
    assert [b] + [] == [b];
  }

  lemma Vector5Encodes()
    ensures Encodes(V5)
  {
    RunFrame(Ramp(1, 254));
  }

  lemma Vector6Encodes()
    ensures Encodes(V6)
  {
    var r := Ramp(1, 254);
    ZeroThenRunFrame(r);
    assert V6.encoded == [0x01] + Chunk(r) + [0x00];
  }

  lemma Vector7Encodes()
    ensures Encodes(V7)
  {
    FullRunThenByteFrame(Ramp(1, 254), 0xFF);
  }

  lemma Vector8Encodes()
    ensures Encodes(V8)
  {
    FullRunThenZeroFrame(Ramp(2, 254));
  }

  lemma Vector9Encodes()
    ensures Encodes(V9)
  {
    RunThenZeroThenByteFrame(Ramp(3, 253), 0x01);
  }

  /** `write` turns every payload of the table into its frame. */
  lemma VectorEncodes(k: nat)
    requires k < |Vectors|
    ensures Encodes(Vectors[k]) && |Vectors[k].decoded| <= 255
  {
    if k == 0 { assert Vectors[k] == V0; Vector0Encodes(); }
    else if k == 1 { assert Vectors[k] == V1; Vector1Encodes(); }
    else if k == 2 { assert Vectors[k] == V2; Vector2Encodes(); }
    else if k == 3 { assert Vectors[k] == V3; Vector3Encodes(); }
    else if k == 4 { assert Vectors[k] == V4; Vector4Encodes(); }
    else if k == 5 { assert Vectors[k] == V5; Vector5Encodes(); }
    else if k == 6 { assert Vectors[k] == V6; Vector6Encodes(); }
    else if k == 7 { assert Vectors[k] == V7; Vector7Encodes(); }
    else if k == 8 { assert Vectors[k] == V8; Vector8Encodes(); }
    else if k == 9 { assert Vectors[k] == V9; Vector9Encodes(); }
    else { assert Vectors[k] == V10; Vector10Encodes(); }
  }

  /** `read` turns every frame of the table back into its payload. */
  lemma VectorDecodes(k: nat, rest: seq<byte>)
    requires k < |Vectors|
    ensures ReadFrame(Initial, Vectors[k].encoded + rest)
            == Decoded(Done, Vectors[k].decoded, |Vectors[k].encoded|, Initial)
  {
    VectorEncodes(k);
    RoundTrip(Vectors[k].decoded, rest);
  }

  /** The malformed frame of the test is rejected at its delimiter, with the decoder reset. */
  lemma BadFrame(rest: seq<byte>)
    ensures ReadFrame(Initial, [0x01, 0x02, 0x00] + rest) == Decoded(CobsError, [0x00], 3, Initial)
  {
    var input := [0x01, 0x02, 0x00] + rest;
    assert input[1..] == [0x02, 0x00] + rest && input[2..] == [0x00] + rest;
    assert ReadFrame(RxState(2, false), input[2..]) == Decoded(CobsError, [], 1, Initial);
    assert ReadFrame(RxState(1, false), input[1..]) == Decoded(CobsError, [0x00], 2, Initial);
  }

  /** A lone delimiter is the empty packet. */
  lemma EmptyFrame(rest: seq<byte>)
    ensures ReadFrame(Initial, [0x00] + rest) == Decoded(Done, [], 1, Initial)
  {
  }

  /** Hands every buffer of `chunks` to the mock's `write`, in order. */
  method Replay(mock: TestFileHandle, chunks: seq<seq<byte>>)
    requires mock.Valid()
    modifies mock
    ensures mock.Valid() && mock.written == old(mock.written) + Flatten(chunks)
    ensures mock.armed == old(mock.armed) && mock.writeBuf == old(mock.writeBuf)
  {
    ghost var w0 := mock.written;
    var j := 0;
    while j < |chunks|
      invariant 0 <= j <= |chunks| && mock.Valid()
      invariant mock.written == w0 + Flatten(chunks[..j])
      invariant mock.armed == old(mock.armed) && mock.writeBuf == old(mock.writeBuf)
    {
      FlattenPrefix(chunks, j);
      var _ := mock.Write(chunks[j]);
      j := j + 1;
    }
    assert chunks[..j] == chunks;
  }

  /** One vector through the write half: the mock, given its frame, receives exactly that frame. */
  method WriteVector(serial: PacketStream, io: FileHandle, mock: TestFileHandle, v: Vector)
    returns (passed: bool)
    requires Encodes(v) && serial.Valid() && serial.io == io && mock.Valid()
    modifies serial, serial.txBuf, io, mock
    ensures passed && serial.Valid() && mock.Valid()
    ensures io.input == old(io.input) && serial.Rx() == old(serial.Rx())
  {
    mock.WriteSetExpected(v.encoded);
    var from := |io.log|;
    var _ := serial.Write(v.decoded);
    assert io.log[from..] == FrameChunks(v.decoded);
    Replay(mock, io.log[from..]);
    return mock.WriteValid();
  }

  /** The write half: every payload is written, and the mock sees exactly its frame. */
  method WriteTests(serial: PacketStream, io: FileHandle, mock: TestFileHandle) returns (passed: bool)
    requires serial.Valid() && serial.io == io && mock.Valid()
    modifies serial, serial.txBuf, io, mock
    ensures passed && serial.Valid() && mock.Valid()
    ensures io.input == old(io.input) && serial.Rx() == old(serial.Rx())
  {
    // Each vector passes by `VectorEncodes` and `WriteVector`; the invariants
    // only keep the stream and the mock usable for the next pass.
    var i := 0;
    while i < |Vectors|
      invariant serial.Valid() && mock.Valid()
      invariant io.input == old(io.input) && serial.Rx() == old(serial.Rx())
    {
      VectorEncodes(i);
      passed := WriteVector(serial, io, mock, Vectors[i]);
      if !passed {
        return false;
      }
      i := i + 1;
    }
    return true;
  }

  /** A 512-byte buffer of zeros, `uint8_t actual_decoded[512]` after its `memset`. */
  method Cleared() returns (a: array<byte>)
    ensures fresh(a) && a.Length == 512 && a[..] == seq(512, _ => 0)
  {
    a := new byte[512](_ => 0);
  }

  /** One vector through the read half: once its frame has arrived, `read` returns its payload. */
  method ReadVector(serial: PacketStream, io: FileHandle, v: Vector) returns (passed: bool)
    requires Encodes(v) && |v.decoded| <= 512
    requires serial.Valid() && serial.io == io && serial.Rx() == Initial && io.input == []
    modifies serial, io
    ensures passed && serial.Valid() && serial.Rx() == Initial && io.input == []
  {
    RoundTrip(v.decoded, []);
    io.Receive(v.encoded);
    assert io.input == Frame(v.decoded) + [];
    var actualDecoded := Cleared();
    var _, actualSize := serial.Read(actualDecoded, 512, 0);
    if actualSize != |v.decoded| {
      return false;
    }
    assert actualDecoded[..actualSize] == v.decoded;
    return actualDecoded[..actualSize] == v.decoded;
  }

  /** The read half: every frame of the table decodes to its payload. */
  method ReadTests(serial: PacketStream, io: FileHandle) returns (passed: bool)
    requires serial.Valid() && serial.io == io && serial.Rx() == Initial && io.input == []
    modifies serial, io
    ensures passed && serial.Valid() && serial.Rx() == Initial && io.input == []
  {
    var i := 0;
    while i < |Vectors|
      invariant serial.Valid() && serial.Rx() == Initial && io.input == []
    {
      VectorEncodes(i);
      passed := ReadVector(serial, io, Vectors[i]);
      if !passed {
        return false;
      }
      i := i + 1;
    }
    return true;
  }

  /**
   * The malformed frame `01 02 00` is reported as a failure, and the frame
   * `01 01 00` after it decodes to `00`; then the lone delimiter is the empty
   * packet.
   */
  method RecoveryTests(serial: PacketStream, io: FileHandle) returns (passed: bool)
    requires serial.Valid() && serial.io == io && serial.Rx() == Initial && io.input == []
    modifies serial, io
    ensures passed && serial.Valid() && serial.Rx() == Initial && io.input == []
  {
    BadFrame([]);
    io.Receive([0x01, 0x02, 0x00]);
    assert io.input == [0x01, 0x02, 0x00] + [];
    var actualDecoded := Cleared();
    var ret, actualSize := serial.Read(actualDecoded, 512, 0xFFFF_FFFF);
    if ret {
      return false;
    }
    RoundTrip([0x00], []);
    Vector0Encodes();
    io.Receive([0x01, 0x01, 0x00]);
    assert io.input == Frame([0x00]) + [];
    actualDecoded := Cleared();
    ret, actualSize := serial.Read(actualDecoded, 512, 0);
    // `self_test` only prints this failure (PacketStream.cpp:573-575); it does not return false.
    assert ret && actualSize == 1 && actualDecoded[..actualSize] == [0x00];
    EmptyFrame([]);
    io.Receive([0x00]);
    assert io.input == [0x00] + [];
    actualDecoded := Cleared();
    ret, actualSize := serial.Read(actualDecoded, 512, 0xFFFF_FFFF);
    if !ret || actualSize != 0 {
      return false;
    }
    return true;
  }

  /**
   * The loopback wiring: what the stream wrote since its `from`th write passes
   * through the ring buffer and arrives at the same stream's input.
   */
  method Pump(ring: LoopFileHandle, io: FileHandle, from: nat)
    requires ring.Valid() && ring.contents == [] && from <= |io.log|
    requires |Flatten(io.log[from..])| < RingSize
    modifies ring, ring.buf, io
    ensures ring.Valid() && ring.contents == []
    ensures io.input == old(io.input) + Flatten(old(io.log)[from..]) && io.log == old(io.log)
  {
    var chunks := io.log[from..];
    var j := 0;
    while j < |chunks|
      invariant 0 <= j <= |chunks| && ring.Valid()
      invariant ring.contents == Flatten(chunks[..j])
      invariant io.log == old(io.log) && io.input == old(io.input)
    {
      FlattenPrefix(chunks, j);
      var _ := ring.Write(chunks[j]);
      j := j + 1;
    }
    assert chunks[..j] == chunks;
    var held := new byte[RingSize];
    var n := ring.Read(held, RingSize);
    io.Receive(held[..n]);
  }

  /** A packet of fewer than 1024 bytes written to the loopback is read back unchanged. */
  method LoopbackTest(loopback: PacketStream, io: FileHandle, ring: LoopFileHandle, src: seq<byte>)
    returns (passed: bool)
    requires loopback.Valid() && loopback.io == io && loopback.Rx() == Initial && io.input == []
    requires ring.Valid() && ring.contents == [] && |src| < 1024
    modifies loopback, loopback.txBuf, io, ring, ring.buf
    ensures passed && loopback.Valid() && loopback.Rx() == Initial && io.input == []
    ensures ring.Valid() && ring.contents == []
  {
    var from := |io.log|;
    var _ := loopback.Write(src);
    assert io.log[from..] == FrameChunks(src);
    FrameLength(src);
    Pump(ring, io, from);
    RoundTrip(src, []);
    assert io.input == Frame(src) + [];
    var dst := new byte[1024](_ => 0);
    var ret, realSize := loopback.Read(dst, 1024, 0);
    if !ret {
      return false;
    }
    if realSize != |src| {
      return false;
    }
    if dst[..|src|] != src {
      return false;
    }
    return true;
  }

  /** `"Number is "`. */
  const NumberText: seq<byte> := [0x4E, 0x75, 0x6D, 0x62, 0x65, 0x72, 0x20, 0x69, 0x73, 0x20]

  /** `"Number is %i"`. */
  const NumberFormat: seq<byte> := NumberText + [Percent, LowerI]

  /** The number format takes one argument and prints it after the text. */
  lemma NumberFormatRenders(n: int)
    ensures WellFormed(NumberFormat) && Separated(NumberFormat) && Conversions(NumberFormat) == 1
    ensures Render(NumberFormat, [n]) == NumberText + Decimal(n)
  {
    RenderConversion([], [n]);
    assert [Percent, LowerI] + [] == [Percent, LowerI];
    RenderLiteral(NumberText, [Percent, LowerI], [n]);
    assert Render([], []) == [];
  }

  /** The largest value `rand()` returns here: `RAND_MAX` is at most `INT_MAX`. */
  const IntMax: int := 0x7FFF_FFFF

  /** A number `printf` sends through the loopback comes back from `scanf` as one match of the same value. */
  method NumberTest(loopback: PacketStream, io: FileHandle, ring: LoopFileHandle, srcNum: int)
    returns (passed: bool)
    requires loopback.Valid() && loopback.io == io && loopback.Rx() == Initial && io.input == []
    requires ring.Valid() && ring.contents == [] && 0 <= srcNum <= IntMax
    modifies loopback, loopback.txBuf, io, ring, ring.buf
    ensures passed && loopback.Valid() && loopback.Rx() == Initial && io.input == []
    ensures ring.Valid() && ring.contents == []
  {
    var fmt := NumberFormat;
    NumberFormatRenders(srcNum);
    var text := Render(fmt, [srcNum]);
    DigitsLength(srcNum, 10);
    assert |text| <= ScanCapacity;
    var from := |io.log|;
    var _ := loopback.Printf(fmt, [srcNum]);
    assert io.log[from..] == FrameChunks(text);
    FrameLength(text);
    Pump(ring, io, from);
    RoundTrip(text, []);
    assert io.input == Frame(text) + [];
    ScanReplyRendered(fmt, [srcNum]);
    var ret, dstNum := loopback.Scanf(fmt, [0]);
    if ret != 1 {
      return false;
    }
    if dstNum[0] != srcNum {
      return false;
    }
    return true;
  }

  /**
   * `self_test`: the vectors through the mock, the recovery cases, then the
   * loopback of the `sources` packets and of the `numbers`, which stand for the
   * sizes and contents `rand()` picks. It passes whatever they are.
   */
  method Run(sources: seq<seq<byte>>, numbers: seq<int>) returns (passed: bool)
    requires forall k :: 0 <= k < |sources| ==> |sources[k]| < 1024
    requires forall k :: 0 <= k < |numbers| ==> 0 <= numbers[k] <= IntMax
    ensures passed
  {
    var mock := new TestFileHandle();
    var io := new FileHandle([], []);
    var serial := new PacketStream(io);
    passed := WriteTests(serial, io, mock);
    if !passed {
      return;
    }
    passed := ReadTests(serial, io);
    if !passed {
      return;
    }
    passed := RecoveryTests(serial, io);
    if !passed {
      return;
    }
    var loopMock := new LoopFileHandle();
    var lio := new FileHandle([], []);
    var loopback := new PacketStream(lio);
    var i := 0;
    while i < |sources|
      invariant loopback.Valid() && loopback.io == lio && loopback.Rx() == Initial && lio.input == []
      invariant loopMock.Valid() && loopMock.contents == []
      invariant fresh(loopback.txBuf) && fresh(loopMock.buf)
    {
      passed := LoopbackTest(loopback, lio, loopMock, sources[i]);
      if !passed {
        return;
      }
      i := i + 1;
    }
    i := 0;
    while i < |numbers|
      invariant loopback.Valid() && loopback.io == lio && loopback.Rx() == Initial && lio.input == []
      invariant loopMock.Valid() && loopMock.contents == []
      invariant fresh(loopback.txBuf) && fresh(loopMock.buf)
    {
      passed := NumberTest(loopback, lio, loopMock, numbers[i]);
      if !passed {
        return;
      }
      i := i + 1;
    }
    return true;
  }
}
