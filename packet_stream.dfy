/**
 * The device-side codec object `PacketStream` (PacketStream.h, PacketStream.cpp)
 * and the byte stream it is bound to.
 *
 * The stream holds the bytes the peer has sent and not yet been read, whose
 * reads come up short once it is exhausted, and whose writes are kept as a log of buffers, answered from a
 * script of reply counts (a count different from the buffer's length is a
 * failed write). `PacketStream` keeps the four fields of the C++ class and
 * updates them in place; each method is proved against the framing functions
 * of module `Cobs`.
 */
module Stream {
  import opened Bytes
  import opened Cobs
  import opened Format

  /** An `mbed::FileHandle`: what `read` hands out, and what `write` was given. */
  class FileHandle {
    /** The bytes the peer has sent that have not been read yet. */
    var input: seq<byte>
    /** Every buffer passed to `write`, oldest first. */
    var log: seq<seq<byte>>
    /** The counts the stream reports for the first writes; later writes are accepted in full. */
    const replies: seq<int>

    /** What the `k`th write of `n` bytes returns. */
    function Reply(k: nat, n: nat): int
      reads this
    {
      if k < |replies| then replies[k] else n
    }

    /** Every write since the `from`th was reported as complete. */
    ghost predicate AllAccepted(from: nat)
      reads this
    {
      forall k :: from <= k < |log| ==> Reply(k, |log[k]|) == |log[k]|
    }

    constructor (input: seq<byte>, replies: seq<int>)
      ensures this.input == input && log == [] && this.replies == replies
    {
      this.input := input;
      this.log := [];
      this.replies := replies;
    }

    /** `read(buffer, size)`: up to `size` bytes, fewer (none) once the input is exhausted. */
    method Read(size: nat) returns (r: seq<byte>)
      modifies this
      ensures r == old(input)[..Min(size, |old(input)|)]
      ensures input == old(input)[|r|..] && log == old(log)
    {
      var n := Min(size, |input|);
      r := input[..n];
      input := input[n..];
    }

    /** Bytes arriving from the peer, queued behind those not read yet. */
    method Receive(bytes: seq<byte>)
      modifies this
      ensures input == old(input) + bytes && log == old(log)
    {
      input := input + bytes;
    }

    /** `write(buffer, size)`: the buffer is logged and the scripted count returned. */
    method Write(buf: seq<byte>) returns (n: int)
      modifies this
      ensures log == old(log) + [buf] && n == Reply(|old(log)|, |buf|)
      ensures input == old(input)
    {
      n := Reply(|log|, |buf|);
      log := log + [buf];
    }
  }

  /** The caller's buffer after `read` decoded `out` into it with capacity `size`. */
  function Store(buf: seq<byte>, out: seq<byte>, size: nat): (r: seq<byte>)
    requires size <= |buf|
    ensures |r| == |buf|
    ensures forall i :: 0 <= i < |r| ==> r[i] == (if i < size && i < |out| then out[i] else buf[i])
  {
    var m := Min(size, |out|);
    out[..m] + buf[m..]
  }

  lemma StoreStep(buf: seq<byte>, out: seq<byte>, size: nat, v: byte)
    requires size <= |buf|
    ensures Store(buf, out + [v], size)
         == if |out| < size then Store(buf, out, size)[|out| := v] else Store(buf, out, size)
  {
  }

  /** The store of one decoded byte into `read`'s buffer, kept while it fits. */
  method Keep(data: array<byte>, size: nat, pos: nat, v: byte, ghost buf0: seq<byte>, ghost out: seq<byte>)
    requires size <= data.Length == |buf0| && pos == |out| && data[..] == Store(buf0, out, size)
    modifies data
    ensures data[..] == Store(buf0, out + [v], size)
  {
    StoreStep(buf0, out, size, v);
    if pos < size {
      data[pos] := v;
    }
  }

  class PacketStream {
    /** `_tx_pos`: where the next payload byte goes; slot 0 is the overhead byte. */
    var txPos: int
    /** `_tx_buf[256 + 1]`. */
    const txBuf: array<byte>
    /** `_rx_next_zero`. */
    var rxNextZero: byte
    /** `_rx_next_pad`. */
    var rxNextPad: bool
    /** `_io`. */
    const io: FileHandle

    /** The encoder's buffer holds an overhead slot and a run of at most 254 non-zero bytes. */
    ghost predicate Encoding()
      reads this, txBuf
    {
      txBuf.Length == 257 && 1 <= txPos <= MaxRun + 1 && IsRun(txBuf[1..txPos])
    }

    /** The state between calls: no packet half-sent, and a decoder counter of at least 1. */
    ghost predicate Valid()
      reads this, txBuf
    {
      Encoding() && txPos == 1 && txBuf[0] == 0 && rxNextZero >= 1
    }

    /** The run the encoder is holding. */
    ghost function Run(): seq<byte>
      reads this, txBuf
      requires Encoding()
    {
      txBuf[1..txPos]
    }

    function Rx(): RxState
      reads this
    {
      RxState(rxNextZero, rxNextPad)
    }

    constructor (io: FileHandle)
      ensures Valid() && Rx() == Initial && this.io == io && fresh(txBuf)
    {
      var buf := new byte[257];
      buf[0] := 0;
      txBuf := buf;
      txPos := 1;
      rxNextZero := 1;
      rxNextPad := true;
      this.io := io;
    }

    /** Sends a full `txBuf[..txPos]` to the stream, as every flush of `_cobs_write` does. */
    method Flush(ghost from: nat) returns (ok: bool)
      requires txBuf.Length == 257 && 1 <= txPos <= 257 && from <= |io.log|
      modifies io
      ensures io.log == old(io.log) + [txBuf[..txPos]]
      ensures ok <==> io.Reply(|old(io.log)|, txPos) == txPos
      ensures io.AllAccepted(from) <==> old(io.AllAccepted(from)) && ok
      ensures io.input == old(io.input)
    {
      var n := io.Write(txBuf[..txPos]);
      ok := n == txPos;
      assert forall k :: from <= k < |io.log| - 1 ==> io.log[k] == old(io.log)[k];
      assert io.log[|io.log| - 1] == txBuf[..txPos];
    }

    /** One pass of `_cobs_write`'s loop: the byte `b` joins the run, flushing chunks as needed. */
    method Put(b: byte, ghost from: nat) returns (ok: bool)
      requires Encoding() && from <= |io.log|
      modifies this, txBuf, io
      ensures Encoding()
      ensures var s := EncodeByte(old(Run()), b);
              io.log == old(io.log) + s.chunks && Run() == s.run
      ensures io.AllAccepted(from) <==> old(io.AllAccepted(from)) && ok
      ensures io.input == old(io.input) && Rx() == old(Rx())
    {
      ok := true;
      ghost var run := Run();
      ghost var log0 := io.log;
      ghost var s := EncodeByte(run, b);
      // Flush and stuff once 254 bytes are held.
      if txPos >= 255 {
        txBuf[0] := txPos % 256;
        assert txBuf[..txPos] == Chunk(run);
        ok := Flush(from);
        txPos := 0;
        txBuf[txPos] := 0;
        txPos := txPos + 1;
      }
      assert txBuf[1..txPos] == (if |run| == MaxRun then [] else run);
      // Escape and flush on a zero.
      if b == 0 {
        txBuf[0] := txPos;
        assert txBuf[..txPos] == Chunk(if |run| == MaxRun then [] else run);
        var ok' := Flush(from);
        ok := ok && ok';
        txPos := 0;
      }
      txBuf[txPos] := b;
      txPos := txPos + 1;
      assert io.log == log0 + s.chunks;
      assert Run() == s.run;
    }

    /**
     * `_cobs_write`: encodes `data` onto the run being held, flushing a chunk on
     * every zero and whenever 254 bytes are held, and with `last` the final chunk
     * and the delimiter. The result is false iff some write was not accepted in full.
     */
    method CobsWrite(data: seq<byte>, last: bool) returns (success: bool)
      requires Encoding()
      modifies this, txBuf, io
      ensures Encoding()
      ensures var e := Encode(old(Run()), data);
              io.log == old(io.log) + e.chunks + (if last then [FinalChunk(e.run)] else []) &&
              if last then txPos == 1 && txBuf[0] == 0 else Run() == e.run
      ensures success <==> io.AllAccepted(|old(io.log)|)
      ensures io.input == old(io.input) && Rx() == old(Rx())
    {
      success := true;
      ghost var run0 := Run();
      ghost var log0 := io.log;
      var i := 0;
      while i < |data|
        invariant 0 <= i <= |data|
        invariant Encoding()
        invariant io.log == log0 + Encode(run0, data[..i]).chunks
        invariant Run() == Encode(run0, data[..i]).run
        invariant success <==> io.AllAccepted(|log0|)
        invariant io.input == old(io.input) && Rx() == old(Rx())
      {
        EncodeStepPrefix(run0, data, i);
        var ok := Put(data[i], |log0|);
        if !ok {
          success := false;
        }
        i := i + 1;
      }
      assert data[..i] == data;
      if last {
        var ok := Finish(|log0|);
        if !ok {
          success := false;
        }
      }
    }

    /** The tail of `_cobs_write` with `last`: the final chunk and the delimiter, then an empty buffer. */
    method Finish(ghost from: nat) returns (ok: bool)
      requires Encoding() && from <= |io.log|
      modifies this, txBuf, io
      ensures Encoding() && txPos == 1 && txBuf[0] == 0
      ensures io.log == old(io.log) + [FinalChunk(old(Run()))]
      ensures io.AllAccepted(from) <==> old(io.AllAccepted(from)) && ok
      ensures io.input == old(io.input) && Rx() == old(Rx())
    {
      ghost var run := Run();
      txBuf[0] := txPos;
      txBuf[txPos] := 0;
      txPos := txPos + 1;
      assert txBuf[..txPos] == FinalChunk(run);
      ok := Flush(from);
      txBuf[0] := 0;
      txPos := 1;
    }

    /** `write`: sends `data` as one delimited packet. */
    method Write(data: seq<byte>) returns (ok: bool)
      requires Valid()
      modifies this, txBuf, io
      ensures Valid()
      ensures io.log == old(io.log) + FrameChunks(data)
      ensures ok <==> io.AllAccepted(|old(io.log)|)
      ensures io.input == old(io.input) && Rx() == old(Rx())
    {
      assert Run() == [];
      ok := CobsWrite(data, true);
    }

    /** `_getc`: one byte from the stream, or `FileError` when none can be read. */
    method Getc() returns (status: Decoding)
      modifies io
      ensures io.log == old(io.log)
      ensures if old(io.input) == []
              then status == FileError && io.input == old(io.input)
              else status == Continue(old(io.input)[0]) && io.input == old(io.input)[1..]
    {
      var r := io.Read(1);
      if |r| == 1 {
        status := Continue(r[0]);
      } else {
        status := FileError;
      }
    }

    /** `_cobs_getc`: the next decoded byte, the end of the packet, or an error. */
    method CobsGetc(ghost st: RxState, ghost rest: seq<byte>) returns (status: Decoding)
      requires rxNextZero >= 1 && Rx() == st && io.input == rest
      modifies this, io
      ensures rxNextZero >= 1
      ensures var g := Cobs.CobsGetc(st, rest);
              status == g.status && Rx() == g.st && io.input == rest[g.used..]
      ensures io.log == old(io.log)
      ensures txPos == old(txPos)
      decreases |io.input|
    {
      var s := Getc();
      if !s.Continue? {
        return s;
      }
      var b := s.val;
      rxNextZero := (rxNextZero + 255) % 256;
      // Check for the end of the packet.
      if b == 0 {
        var valid := rxNextZero == 0;
        rxNextZero := 1;
        rxNextPad := true;
        return if valid then Done else CobsError;
      }
      // An overhead byte.
      if rxNextZero == 0 {
        var prevPad := rxNextPad;
        rxNextZero := b;
        rxNextPad := b == 255;
        if prevPad {
          status := CobsGetc(Rx(), io.input);
        } else {
          status := Continue(0);
        }
        return;
      }
      // Regular data.
      return Continue(b);
    }

    /**
     * `read`: decodes one packet into `data`, keeping the first `size` bytes and
     * counting all of them. On success the count is returned as `actual`; on
     * failure `actual` is the caller's `actual0`, untouched.
     */
    method Read(data: array<byte>, size: nat, actual0: nat) returns (ok: bool, actual: nat)
      requires Valid() && size <= data.Length && data != txBuf
      modifies this, io, data
      ensures Valid()
      ensures var d := ReadFrame(old(Rx()), old(io.input));
              (ok <==> d.status == Done) &&
              actual == (if ok then |d.out| else actual0) &&
              data[..] == Store(old(data[..]), d.out, size) &&
              io.input == old(io.input)[d.used..] && Rx() == d.st
      ensures io.log == old(io.log)
    {
      ghost var buf0 := data[..];
      ghost var in0 := io.input;
      ghost var whole := ReadFrame(Rx(), in0);
      ghost var out: seq<byte> := [];
      ghost var used: nat := 0;
      ghost var rx := Rx();
      var pos := 0;
      var status: Decoding;
      while true
        invariant io.log == old(io.log)
        invariant txPos == 1 && rxNextZero >= 1
        invariant used <= |in0| && io.input == in0[used..] && Rx() == rx
        invariant whole == Prepend(out, used, ReadFrame(rx, in0[used..]))
        invariant pos == |out| && data[..] == Store(buf0, out, size)
        decreases |in0| - used
      {
        ghost var g := Cobs.CobsGetc(rx, in0[used..]);
        ReadAdvance(whole, out, used, rx, in0);
        status := CobsGetc(rx, in0[used..]);
        assert status == g.status && Rx() == g.st && io.input == in0[used + g.used..];
        if status.Continue? {
          Keep(data, size, pos, status.val, buf0, out);
          pos := pos + 1;
          out := out + [status.val];
          used := used + g.used;
          rx := g.st;
          continue;
        }
        used := used + g.used;
        rx := g.st;
        break;
      }
      if status == Done {
        return true, pos;
      }
      return false, actual0;
    }

    /**
     * `printf`: the text `vsnprintf` makes of `fmt` and `args`, sent as one
     * packet; true iff every write was accepted in full.
     */
    method Printf(fmt: seq<byte>, args: seq<int>) returns (ok: bool)
      requires Valid() && WellFormed(fmt) && |args| == Conversions(fmt)
      modifies this, txBuf, io
      ensures Valid()
      ensures io.log == old(io.log) + FrameChunks(Render(fmt, args))
      ensures ok <==> io.AllAccepted(|old(io.log)|)
      ensures io.input == old(io.input) && Rx() == old(Rx())
    {
      ok := Write(Render(fmt, args));
    }

    /**
     * `scanf`: reads one packet into a 65-byte buffer holding at most 64 of its
     * bytes, terminates the string, and scans it with `fmt`. `args0` are the
     * caller's variables: those `vsscanf` assigns are replaced, in order. A
     * failed packet read returns 0 and assigns nothing.
     */
    method Scanf(fmt: seq<byte>, args0: seq<int>) returns (ret: int, args: seq<int>)
      requires Valid() && WellFormed(fmt) && |args0| == Conversions(fmt)
      modifies this, io
      ensures Valid() && io.log == old(io.log)
      ensures var d := ReadFrame(old(Rx()), old(io.input));
              io.input == old(io.input)[d.used..] && Rx() == d.st &&
              if d.status == Done then
                var r := ScanReply(d.out, fmt);
                ret == r.count && args == r.values + args0[|r.values|..]
              else ret == 0 && args == args0
    {
      var buf := new byte[ScanCapacity + 1];
      ghost var zeros := buf[..];
      var ok, actual := Read(buf, ScanCapacity, 0);
      if !ok {
        return 0, args0;
      }
      ghost var out := ReadFrame(old(Rx()), old(io.input)).out;
      var end := ScanfTerminator(actual);
      buf[end] := 0;
      assert buf[..] == out[..end] + [Nul] + zeros[end + 1..];
      CStringTerminated(out[..end], zeros[end + 1..]);
      var r := VScan(CString(buf[..]), fmt);
      ret := r.count;
      args := r.values + args0[|r.values|..];
    }
  }

  /** `sizeof(buf) - 1`: how many bytes of a reply `scanf` keeps. */
  const ScanCapacity: nat := 64

  /** What `scanf` scans of a reply `out`: the bytes it kept, up to the first NUL. */
  function ScanReply(out: seq<byte>, fmt: seq<byte>): (r: ScanResult)
    requires WellFormed(fmt)
    ensures |r.values| <= Conversions(fmt)
  {
    VScan(CString(out[..Min(|out|, ScanCapacity)]), fmt)
  }

  /** Where `scanf` stores the terminating NUL for a reply of `actual` bytes: never past the buffer. */
  function ScanfTerminator(actual: nat): (i: nat)
    ensures i <= ScanCapacity
    ensures actual <= ScanCapacity ==> i == actual
  {
    Min(actual, ScanCapacity)
  }

  /**
   * A 65-byte reply is read in full, so `scanf` as written, storing its
   * terminator at the reply's length, writes one past the end of its 65-byte
   * buffer; the corrected index stays inside it.
   */
  lemma ScanfTerminatorOverrun()
    ensures var p := seq(ScanCapacity + 1, _ => 1);
            var d := ReadFrame(Initial, Frame(p));
            d.status == Done && |d.out| == ScanCapacity + 1
            && ScanfTerminator(|d.out|) == ScanCapacity
  {
    var p := seq(ScanCapacity + 1, _ => 1);
    RoundTrip(p, []);
    assert Frame(p) + [] == Frame(p);
  }

  /** What `scanf` as written returns for a `vsscanf` count: the count stored in a `bool`, so 0 or 1. */
  function ScanfResultAsWritten(count: int): (ret: int)
    ensures ret == 0 || ret == 1
    ensures ret == 0 <==> count == 0
  {
    if count != 0 then 1 else 0
  }

  /** Two matched values are reported as one, and end of input (EOF) is reported as one match. */
  lemma ScanfResultTruncated()
    ensures ScanfResultAsWritten(2) == 1
    ensures ScanfResultAsWritten(EOF) == 1
    ensures VScan([], [Percent, LowerI]) == ScanResult(EOF, [])
  {
    ScanEmpty([Percent, LowerI]);
  }

  /** A packet `printf` sent, read back by `scanf` with the same format, returns every argument. */
  lemma ScanReplyRendered(fmt: seq<byte>, args: seq<int>)
    requires WellFormed(fmt) && Separated(fmt) && |args| == Conversions(fmt)
    requires |Render(fmt, args)| <= ScanCapacity
    ensures ScanReply(Render(fmt, args), fmt) == ScanResult(|args|, args)
  {
    var s := Render(fmt, args);
    assert s[..Min(|s|, ScanCapacity)] == s;
    CStringZeroFree(s);
    ScanRenderRoundTrip(fmt, args);
  }
}
