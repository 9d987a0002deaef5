/**
 * The device side of the update protocol (RemoteFile.h): a file whose every
 * operation is a request packet sent over a `PacketStream` to the host,
 * followed by the host's reply. `read` is answered by one data packet; `write`
 * sends its data as a second packet; `write`, `seek` and `close` are answered
 * by one decimal number.
 */
module Remote {
  import opened Bytes
  import opened Cobs
  import opened Format
  import opened Stream

  /** The values of a 32-bit `int` (and of `off_t` on the device). */
  type int32 = x: int | -0x8000_0000 <= x < 0x8000_0000

  /** The values of a 32-bit `size_t`. */
  type size32 = x: nat | x < 0x1_0000_0000

  /** `(int)size`: a size above `INT_MAX` wraps around to a negative value. */
  function AsInt(size: size32): (r: int32)
    ensures size < 0x8000_0000 ==> r == size
    ensures size >= 0x8000_0000 ==> r < 0 && r + 0x1_0000_0000 == size
  {
    if size < 0x8000_0000 then size else size - 0x1_0000_0000
  }

  const Comma: byte := 0x2C

  /** `"read,"`. */
  const ReadText: seq<byte> := [0x72, 0x65, 0x61, 0x64, Comma]
  /** `"read,%i"`. */
  const ReadFormat: seq<byte> := ReadText + [Percent, LowerI]
  /** `"write"`. */
  const WriteFormat: seq<byte> := [0x77, 0x72, 0x69, 0x74, 0x65]
  /** `"seek,"`. */
  const SeekText: seq<byte> := [0x73, 0x65, 0x65, 0x6B, Comma]
  /** `"seek,%i,%i"`. */
  const SeekFormat: seq<byte> := SeekText + [Percent, LowerI, Comma, Percent, LowerI]
  /** `"close"`. */
  const CloseFormat: seq<byte> := [0x63, 0x6C, 0x6F, 0x73, 0x65]
  /** `"%i"`: the format of every numeric reply. */
  const ReplyFormat: seq<byte> := [Percent, LowerI]

  /** The read request carries the size as one decimal number after `read,`. */
  lemma ReadFormatRenders(n: int)
    ensures WellFormed(ReadFormat) && Conversions(ReadFormat) == 1
    ensures Render(ReadFormat, [n]) == ReadText + Decimal(n)
  {
    RenderConversion([], [n]);
    assert [Percent, LowerI] + [] == [Percent, LowerI];
    RenderLiteral(ReadText, [Percent, LowerI], [n]);
    assert Render([], []) == [];
  }

  /** The seek request carries offset and origin as two decimal numbers after `seek,`, comma separated. */
  lemma SeekFormatRenders(offset: int, whence: int)
    ensures WellFormed(SeekFormat) && Conversions(SeekFormat) == 2
    ensures Render(SeekFormat, [offset, whence]) == SeekText + Decimal(offset) + [Comma] + Decimal(whence)
  {
    var last := [Percent, LowerI];
    RenderConversion([], [whence]);
    assert last + [] == last;
    assert Render([], []) == [];
    RenderLiteral([Comma], last, [whence]);
    RenderConversion([Comma] + last, [offset, whence]);
    assert [offset, whence][1..] == [whence];
    assert [Percent, LowerI] + ([Comma] + last) == [Percent, LowerI, Comma, Percent, LowerI];
    RenderLiteral(SeekText, [Percent, LowerI, Comma, Percent, LowerI], [offset, whence]);
  }

  /** A request without conversions is sent as its own text. */
  lemma PlainRenders(text: seq<byte>)
    requires forall i :: 0 <= i < |text| ==> text[i] != Percent && text[i] != Nul
    ensures WellFormed(text) && Conversions(text) == 0 && Render(text, []) == text
  {
    RenderLiteral(text, [], []);
    assert text + [] == text;
    assert Render([], []) == [];
  }

  /**
   * What `int ret = -1; scanf("%i", &ret)` leaves in `ret` after the reply
   * read `d`: the number the reply starts with, or -1 when no packet was
   * decoded or the reply does not start with a number.
   */
  function Reply(d: Decoded): int
  {
    if d.status == Done then
      var s := ScanReply(d.out, ReplyFormat);
      if |s.values| == 1 then s.values[0] else -1
    else -1
  }

  /** A host reply of `%i` with a 32-bit value is read back as that value, and nothing after its frame is consumed. */
  lemma ReplyRoundTrip(n: int32, rest: seq<byte>)
    ensures var d := ReadFrame(Initial, Frame(Decimal(n)) + rest);
            Reply(d) == n && d.used == |Frame(Decimal(n))| && d.st == Initial
  {
    RenderConversion([], [n]);
    assert ReplyFormat + [] == ReplyFormat;
    assert Render([], []) == [];
    assert [n][1..] == [];
    assert Render(ReplyFormat, [n]) == Decimal(n);
    var m: int := n;
    DigitsLength(if m < 0 then -m else m, 10);
    RoundTrip(Decimal(n), rest);
    ScanReplyRendered(ReplyFormat, [n]);
  }

  /** An empty reply, or one that fails to decode, leaves `ret` at -1. */
  lemma ReplyMissing(d: Decoded)
    requires d.status != Done || d.out == []
    ensures Reply(d) == -1
  {
    if d.status == Done {
      ScanEmpty(ReplyFormat);
      assert CString(d.out[..Min(|d.out|, ScanCapacity)]) == [];
    }
  }

  /**
   * What `read` returns for the reply read `d`: the decoded length, and -1
   * when no packet was decoded.
   */
  function ReadResult(d: Decoded): (r: int)
    ensures r >= 0 <==> d.status == Done
    ensures d.status == Done ==> r == |d.out|
  {
    if d.status == Done then |d.out| else -1
  }

  /** What `read` as written returns: on a failed packet read, whatever the uninitialised `actual` held. */
  function ReadResultAsWritten(d: Decoded, uninitialised: nat): (r: int)
    ensures d.status == Done ==> r == |d.out|
  {
    if d.status == Done then |d.out| else uninitialised
  }

  /**
   * As written, a read that decoded nothing (the stream ended) can report the
   * same count as a read that decoded a packet; the corrected result tells
   * the two apart.
   */
  lemma ReadFailureIndistinguishable(data: seq<byte>)
    ensures var failed := ReadFrame(Initial, []);
            var good := ReadFrame(Initial, Frame(data));
            failed.status != Done && good.status == Done &&
            ReadResultAsWritten(failed, |data|) == ReadResultAsWritten(good, 0) &&
            ReadResult(failed) < 0 <= ReadResult(good)
  {
    RoundTrip(data, []);
    assert Frame(data) + [] == Frame(data);
  }

  /** `RemoteFile`: a file handle whose operations the host carries out. */
  class RemoteFile {
    /** `_stream`. */
    const stream: PacketStream

    ghost predicate Valid()
      reads this, stream, stream.txBuf
    {
      stream.Valid()
    }

    constructor (stream: PacketStream)
      ensures this.stream == stream
    {
      this.stream := stream;
    }

    /**
     * `read`: requests `size` bytes and reads the reply packet into `buffer`,
     * which keeps at most `size` of them. Returns the packet's length, or -1
     * when no packet was read (as written, the uninitialised `actual`).
     */
    method Read(buffer: array<byte>, size: size32) returns (r: int)
      requires Valid() && size <= buffer.Length && buffer != stream.txBuf
      modifies stream, stream.txBuf, stream.io, buffer
      ensures Valid()
      ensures stream.io.log == old(stream.io.log) + FrameChunks(ReadText + Decimal(AsInt(size)))
      ensures var d := ReadFrame(old(stream.Rx()), old(stream.io.input));
              r == ReadResult(d) && buffer[..] == Store(old(buffer[..]), d.out, size) &&
              stream.io.input == old(stream.io.input)[d.used..] && stream.Rx() == d.st
    {
      ReadFormatRenders(AsInt(size));
      var _ := stream.Printf(ReadFormat, [AsInt(size)]);
      var ok, actual := stream.Read(buffer, size, 0);
      r := if ok then actual else -1;
    }

    /** `write`: announces a write, sends `buf` as the next packet, and returns the host's numeric reply. */
    method Write(buf: seq<byte>) returns (r: int)
      requires Valid()
      modifies stream, stream.txBuf, stream.io
      ensures Valid()
      ensures stream.io.log == old(stream.io.log) + FrameChunks(WriteFormat) + FrameChunks(buf)
      ensures var d := ReadFrame(old(stream.Rx()), old(stream.io.input));
              r == Reply(d) && stream.io.input == old(stream.io.input)[d.used..] && stream.Rx() == d.st
    {
      PlainRenders(WriteFormat);
      var _ := stream.Printf(WriteFormat, []);
      var _ := stream.Write(buf);
      r := Answer();
    }

    /** `seek`: requests a move to `offset` from `whence` and returns the host's numeric reply. */
    method Seek(offset: int32, whence: int32) returns (r: int)
      requires Valid()
      modifies stream, stream.txBuf, stream.io
      ensures Valid()
      ensures stream.io.log == old(stream.io.log) + FrameChunks(SeekText + Decimal(offset) + [Comma] + Decimal(whence))
      ensures var d := ReadFrame(old(stream.Rx()), old(stream.io.input));
              r == Reply(d) && stream.io.input == old(stream.io.input)[d.used..] && stream.Rx() == d.st
    {
      SeekFormatRenders(offset, whence);
      var _ := stream.Printf(SeekFormat, [offset, whence]);
      r := Answer();
    }

    /** `close`: tells the host the file is complete and returns its numeric reply. */
    method Close() returns (r: int)
      requires Valid()
      modifies stream, stream.txBuf, stream.io
      ensures Valid()
      ensures stream.io.log == old(stream.io.log) + FrameChunks(CloseFormat)
      ensures var d := ReadFrame(old(stream.Rx()), old(stream.io.input));
              r == Reply(d) && stream.io.input == old(stream.io.input)[d.used..] && stream.Rx() == d.st
    {
      PlainRenders(CloseFormat);
      var _ := stream.Printf(CloseFormat, []);
      r := Answer();
    }

    /** The shared tail of `write`, `seek` and `close`: `int ret = -1; scanf("%i", &ret); return ret;`. */
    method Answer() returns (r: int)
      requires Valid()
      modifies stream, stream.io
      ensures Valid() && stream.io.log == old(stream.io.log)
      ensures var d := ReadFrame(old(stream.Rx()), old(stream.io.input));
              r == Reply(d) && stream.io.input == old(stream.io.input)[d.used..] && stream.Rx() == d.st
    {
      var _, args := stream.Scanf(ReplyFormat, [-1]);
      r := args[0];
    }
  }
}
