/**
 * The update protocol end to end: what the device's `RemoteFile` sends is a
 * request the host's `RemoteFile` understands as the operation called, and
 * what the host sends back is what the device's operation returns.
 *
 * On the wire every packet is a COBS frame: the device writes `Frame(p)`; the
 * host's serial stream splits at the zero delimiter and hands the bytes before
 * it to `cobs_decode`, and it sends `cobs_encode(p)` followed by a zero.
 */
module Protocol {
  import opened Bytes
  import opened Cobs
  import opened Format
  import Remote
  import Host
  import PyCobs

  /** The packet the host's stream hands on for the device's frame of `pkt`: the frame without its delimiter. */
  function Received(pkt: seq<byte>): (x: seq<byte>)
  {
    var f := Frame(pkt);
    FrameLength(pkt);
    f[..|f| - 1]
  }

  /** The bytes the host's stream writes for a packet: the host encoding and the delimiter. */
  function Sent(pkt: seq<byte>): seq<byte>
  {
    PyCobs.Stuffed(pkt, false) + [0]
  }

  /** Both ends frame a packet alike, and the host decodes the device's frame back to the packet. */
  lemma Delivered(pkt: seq<byte>)
    ensures Sent(pkt) == Frame(pkt)
    ensures Received(pkt) == PyCobs.Stuffed(pkt, false)
    ensures PyCobs.Unstuffed(Received(pkt), false) == Ok(pkt)
  {
    PyCobs.StuffedFrame(pkt);
    var s := PyCobs.Stuffed(pkt, false);
    assert Frame(pkt)[..|Frame(pkt)| - 1] == (s + [0])[..|s|] == s;
    PyCobs.RoundTrip(pkt);
  }

  /** The request text the device's `RemoteFile` prints for each operation. */
  function DeviceRequest(c: Host.Command): seq<byte>
  {
    match c
    case ReadCmd(size) => Remote.ReadText + Decimal(size)
    case WriteCmd => Remote.WriteFormat
    case SeekCmd(offset, origin) => Remote.SeekText + Decimal(offset) + [Remote.Comma] + Decimal(origin)
    case CloseCmd => Remote.CloseFormat
  }

  /** The device prints exactly the request a host client would: key, then the decimal arguments. */
  lemma SameRequest(c: Host.Command)
    ensures DeviceRequest(c) == Host.Request(c)
  {
    match c
    case ReadCmd(size) =>
      assert Remote.ReadText == Host.ReadKey + [Host.Comma];
    case WriteCmd =>
    case SeekCmd(offset, origin) =>
      assert Remote.SeekText == Host.SeekKey + [Host.Comma];
    case CloseCmd =>
  }

  /** Every request the device sends arrives at the host as the command it stands for. */
  lemma RequestUnderstood(c: Host.Command)
    ensures var p := PyCobs.Unstuffed(Received(DeviceRequest(c)), false);
            p == Ok(DeviceRequest(c)) && Host.Parse(p.value) == Ok(c)
  {
    Delivered(DeviceRequest(c));
    SameRequest(c);
    Host.ParseRequest(c);
  }

  /**
   * A numeric reply from the host reaches `write`, `seek` or `close` as the
   * number sent, provided it fits the device's `int`; the device reads the
   * reply's frame and nothing after it.
   */
  lemma ReplyDelivered(v: int, rest: seq<byte>)
    requires -0x8000_0000 <= v < 0x8000_0000
    ensures var d := ReadFrame(Initial, Sent(Decimal(v)) + rest);
            Remote.Reply(d) == v && d.used == |Sent(Decimal(v))| && d.st == Initial
  {
    Delivered(Decimal(v));
    Remote.ReplyRoundTrip(v, rest);
  }

  /**
   * The host's answer to `read` is the slice itself: the device's `read`
   * returns its length and decodes exactly the slice, which `Read` stores
   * in its buffer up to the size asked for.
   */
  lemma ReadDelivered(slice: seq<byte>, rest: seq<byte>)
    ensures var d := ReadFrame(Initial, Sent(slice) + rest);
            Remote.ReadResult(d) == |slice| && d.out == slice && d.used == |Sent(slice)| && d.st == Initial
  {
    Delivered(slice);
    RoundTrip(slice, rest);
  }

  /**
   * A device `read(buffer, size)` end to end, for a host holding `data` at
   * `pos` and a size below 2^31: `(int)size` is the size itself, the host
   * parses the request as a read of `size` bytes, and the device decodes the
   * next `size` bytes of the data, fewer only at its end, and returns their
   * count.
   */
  lemma ReadOutcome(data: seq<byte>, pos: nat, size: Remote.size32, rest: seq<byte>)
    requires pos <= |data| && size < 0x8000_0000
    ensures Remote.AsInt(size) == size
    ensures Host.Parse(Host.Request(Host.ReadCmd(Remote.AsInt(size)))) == Ok(Host.ReadCmd(size))
    ensures var d := ReadFrame(Initial, Sent(Host.Slice(data, pos, pos + size)) + rest);
            d.status == Done &&
            d.out == data[pos..Min(pos + size, |data|)] &&
            Remote.ReadResult(d) == Min(size, |data| - pos)
  {
    Host.ParseRequest(Host.ReadCmd(size));
    ReadDelivered(Host.Slice(data, pos, pos + size), rest);
  }

  /** `write` returns the length the host stored, for data shorter than 2 GiB. */
  lemma WriteOutcome(buf: seq<byte>, rest: seq<byte>)
    requires |buf| < 0x8000_0000
    ensures Remote.Reply(ReadFrame(Initial, Sent(Decimal(|buf|)) + rest)) == |buf|
  {
    ReplyDelivered(|buf|, rest);
  }

  /** What the host's `seek` replies: the new position, or -1 for an unknown origin. */
  function SeekReply(pos: int, size: nat, offset: int, origin: int): int
  {
    if origin in {0, 1, 2} then Host.Clamp(Host.SeekTarget(pos, size, offset, origin), size) else -1
  }

  /**
   * For a file shorter than 2 GiB, `seek` on the device returns the host's
   * new position, which lies within the file, or -1 for an unknown origin.
   */
  lemma SeekOutcome(pos: int, size: nat, offset: int, origin: int, rest: seq<byte>)
    requires size < 0x8000_0000
    ensures var v := SeekReply(pos, size, offset, origin);
            (origin in {0, 1, 2} ==> 0 <= v <= size) && (origin !in {0, 1, 2} ==> v == -1) &&
            Remote.Reply(ReadFrame(Initial, Sent(Decimal(v)) + rest)) == v
  {
    ReplyDelivered(SeekReply(pos, size, offset, origin), rest);
  }

  /** `close` returns the host's 0. */
  lemma CloseOutcome(rest: seq<byte>)
    ensures Remote.Reply(ReadFrame(Initial, Sent(Decimal(0)) + rest)) == 0
  {
    ReplyDelivered(0, rest);
  }
}
