/**
 * The two file handles `PacketStream::self_test` drives the codec with
 * (PacketStream.cpp): a mock that serves one scripted input and checks the
 * bytes written against an expected encoding, and a 2048-byte ring buffer
 * that hands back whatever was written to it.
 */
module TestHandles {
  import opened Bytes

  /** `PacketStreamTestFileHandle`. */
  class TestFileHandle {
    /** `_read_buf`/`_read_size`: the input `read` serves. */
    var readBuf: seq<byte>
    /** `_read_pos`. */
    var readPos: nat
    /** `_write_buf`/`_write_size`: the bytes the writes are expected to make up. */
    var writeBuf: seq<byte>
    /** `_write_pos`: how much of the expectation has been matched. */
    var writePos: nat
    /** `_write_valid`. */
    var writeValid: bool
    /** Whether an expectation has been set since construction. */
    ghost var armed: bool
    /** Every byte written since the expectation was set, in order. */
    ghost var written: seq<byte>

    /**
     * The writes so far are still a prefix of the expectation exactly when
     * `_write_valid` holds; while they are, `_write_pos` is their length.
     */
    ghost predicate Valid()
      reads this
    {
      readPos <= |readBuf| && writePos <= |writeBuf| &&
      (writeValid <==> armed && written <= writeBuf) &&
      (writeValid ==> writePos == |written|)
    }

    constructor ()
      ensures Valid() && !armed && !writeValid
      ensures readBuf == [] && readPos == 0 && writeBuf == [] && writePos == 0
    {
      readBuf, readPos := [], 0;
      writeBuf, writePos, writeValid := [], 0, false;
      armed, written := false, [];
    }

    /** `write_set_expected`: the writes from now on should make up `buffer`. */
    method WriteSetExpected(buffer: seq<byte>)
      requires Valid()
      modifies this
      ensures Valid() && armed && written == []
      ensures writeValid && writeBuf == buffer && writePos == 0
      ensures readBuf == old(readBuf) && readPos == old(readPos)
    {
      writeValid := true;
      writeBuf := buffer;
      writePos := 0;
      armed, written := true, [];
    }

    /** `write_valid`: true iff the writes since the expectation make it up exactly. */
    function WriteValid(): (r: bool)
      requires Valid()
      reads this
      ensures r <==> armed && written == writeBuf
    {
      writeValid && writePos == |writeBuf|
    }

    /** `read_set_next`: the input the following reads serve. */
    method ReadSetNext(buffer: seq<byte>)
      requires Valid()
      modifies this
      ensures Valid() && readBuf == buffer && readPos == 0
      ensures writeBuf == old(writeBuf) && writePos == old(writePos) && writeValid == old(writeValid)
      ensures armed == old(armed) && written == old(written)
    {
      readBuf := buffer;
      readPos := 0;
    }

    /** `read_done`: true iff the whole input has been served. */
    function ReadDone(): (r: bool)
      requires Valid()
      reads this
      ensures r <==> Remaining() == []
    {
      readPos == |readBuf|
    }

    /** The input not served yet. */
    ghost function Remaining(): seq<byte>
      requires Valid()
      reads this
    {
      readBuf[readPos..]
    }

    /** `read`: the next `size` bytes of the input, fewer once it runs out. */
    method Read(size: nat) returns (r: seq<byte>)
      requires Valid()
      modifies this
      ensures Valid()
      ensures r == old(Remaining())[..Min(size, |old(Remaining())|)]
      ensures Remaining() == old(Remaining())[|r|..] && readBuf == old(readBuf)
      ensures writeBuf == old(writeBuf) && writePos == old(writePos) && writeValid == old(writeValid)
      ensures armed == old(armed) && written == old(written)
    {
      var available := |readBuf| - readPos;
      var readSize := if size > available then available else size;
      r := readBuf[readPos..readPos + readSize];
      readPos := readPos + readSize;
    }

    /**
     * `write`: marks the writes invalid when `buffer` overruns or differs from
     * the expectation at the current position, and otherwise advances it; the
     * whole size is reported either way.
     */
    method Write(buffer: seq<byte>) returns (n: nat)
      requires Valid()
      modifies this
      ensures Valid() && n == |buffer|
      ensures written == old(written) + buffer && armed == old(armed)
      ensures var fits := old(writePos) + |buffer| <= |writeBuf| &&
                          writeBuf[old(writePos)..old(writePos) + |buffer|] == buffer;
              writeValid == (old(writeValid) && fits) &&
              writePos == (if fits then old(writePos) + |buffer| else old(writePos))
      ensures writeBuf == old(writeBuf) && readBuf == old(readBuf) && readPos == old(readPos)
    {
      ghost var w0 := written;
      written := written + buffer;
      NotPrefixExtended(w0, buffer, writeBuf);
      if writePos + |buffer| > |writeBuf| {
        writeValid := false;
        return |buffer|;
      }
      if buffer != writeBuf[writePos..writePos + |buffer|] {
        if writeValid {
          assert written[writePos..] == buffer;
        }
        writeValid := false;
        return |buffer|;
      }
      if writeValid {
        assert writeBuf[..writePos + |buffer|] == writeBuf[..writePos] + buffer;
      }
      writePos := writePos + |buffer|;
      return |buffer|;
    }
  }

  /** Once the writes have left the expectation, more writes do not bring them back. */
  lemma NotPrefixExtended(w: seq<byte>, b: seq<byte>, e: seq<byte>)
    ensures w + b <= e ==> w <= e
  {
    if w + b <= e {
      assert (w + b)[..|w|] == w;
    }
  }

  /** `sizeof(_buf)` of the loopback handle. */
  const RingSize: nat := 2048

  /** The buffer slot of position `k` counted from slot 0, wrapping. */
  function Slot(k: nat): (s: nat)
    ensures s < RingSize
    ensures k < RingSize ==> s == k
  {
    k % RingSize
  }

  /** The bytes `c` sit in `slots` from slot `h` on, wrapping. */
  ghost predicate RingHolds(c: seq<byte>, slots: seq<byte>, h: nat)
  {
    |slots| == RingSize && forall i :: 0 <= i < |c| ==> c[i] == slots[Slot(h + i)]
  }

  /** Dropping the oldest byte of a ring that starts at slot `h` leaves one that starts at the next slot. */
  lemma DropOldest(c: seq<byte>, slots: seq<byte>, h: nat)
    requires RingHolds(c, slots, h) && c != []
    ensures c[0] == slots[Slot(h)] && RingHolds(c[1..], slots, Slot(h + 1))
  {
    forall i | 0 <= i < |c| - 1
      ensures c[1..][i] == slots[Slot(Slot(h + 1) + i)]
    {
      assert c[1..][i] == c[i + 1];
      assert Slot(Slot(h + 1) + i) == Slot(h + (i + 1));
    }
  }

  /** Storing a byte in the slot just after the held ones appends it, while one slot stays free. */
  lemma AddNewest(c: seq<byte>, slots: seq<byte>, h: nat, v: byte)
    requires RingHolds(c, slots, h) && |c| < RingSize - 1
    ensures RingHolds(c + [v], slots[Slot(h + |c|) := v], h)
  {
    var slots' := slots[Slot(h + |c|) := v];
    forall i | 0 <= i < |c|
      ensures c[i] == slots'[Slot(h + i)]
    {
      assert Slot(h + i) != Slot(h + |c|);
    }
  }

  /** `PacketStreamLoopFileHandle`: a ring buffer whose reads return what was written to it. */
  class LoopFileHandle {
    /** `_buf[2048]`. */
    const buf: array<byte>
    /** `_head`: the slot the next read takes. */
    var head: nat
    /** `_tail`: the slot the next write fills. */
    var tail: nat
    /** `_size`. */
    const size: nat
    /** The bytes held, oldest first. */
    ghost var contents: seq<byte>

    /**
     * The held bytes sit in the slots from `head` on, wrapping; one slot
     * always stays free, so `tail` is the slot just after them.
     */
    ghost predicate Valid()
      reads this, buf
    {
      buf.Length == size == RingSize && head < size && tail < size &&
      |contents| < size && tail == Slot(head + |contents|) &&
      RingHolds(contents, buf[..], head)
    }

    constructor ()
      ensures Valid() && contents == [] && fresh(buf)
    {
      buf := new byte[RingSize];
      head, tail := 0, 0;
      size := RingSize;
      contents := [];
    }

    /** `_used`: how many bytes are held. */
    function Used(): (u: nat)
      requires Valid()
      reads this, buf
      ensures u == |contents|
    {
      if head > tail then tail + size - head else tail - head
    }

    /** `_free`: how many more bytes fit, keeping one slot free. */
    function Free(): (f: nat)
      requires Valid()
      reads this, buf
      ensures f == RingSize - 1 - |contents|
    {
      size - Used() - 1
    }

    /** One pass of `read`'s loop: the byte at `_head` is taken and `_head` moves on, wrapping. */
    method Pop() returns (v: byte)
      requires Valid() && contents != []
      modifies this
      ensures Valid() && v == old(contents)[0] && contents == old(contents)[1..]
    {
      DropOldest(contents, buf[..], head);
      v := buf[head];
      ghost var h := head;
      head := head + 1;
      if head >= size {
        head := 0;
      }
      assert head == Slot(h + 1);
      contents := contents[1..];
    }

    /** One pass of `write`'s loop: `v` is stored at `_tail` and `_tail` moves on, wrapping. */
    method Push(v: byte)
      requires Valid() && |contents| < RingSize - 1
      modifies this, buf
      ensures Valid() && contents == old(contents) + [v] && head == old(head)
    {
      AddNewest(contents, buf[..], head, v);
      buf[tail] := v;
      tail := tail + 1;
      if tail >= size {
        tail := 0;
      }
      assert tail == Slot(head + |contents| + 1);
      contents := contents + [v];
    }

    /** `read`: the oldest `min(n, used)` bytes, moved into `out` and dropped from the buffer. */
    method Read(out: array<byte>, n: nat) returns (k: nat)
      requires Valid() && n <= out.Length && out != buf
      modifies this, out
      ensures Valid()
      ensures k == Min(n, |old(contents)|)
      ensures out[..k] == old(contents)[..k] && out[k..] == old(out[k..])
      ensures contents == old(contents)[k..]
    {
      ghost var c0 := contents;
      ghost var o0 := out[..];
      var available := Used();
      k := if n < available then n else available;
      var i := 0;
      while i < k
        invariant 0 <= i <= k && Valid()
        invariant contents == c0[i..]
        invariant forall j :: 0 <= j < i ==> out[j] == c0[j]
        invariant forall j :: i <= j < out.Length ==> out[j] == o0[j]
      {
        var v := Pop();
        out[i] := v;
        i := i + 1;
      }
      assert out[..k] == c0[..k];
      assert out[k..] == o0[k..];
    }

    /** `write`: all of `src` appended, or -1 with nothing changed when it does not fit. */
    method Write(src: seq<byte>) returns (r: int)
      requires Valid()
      modifies this, buf
      ensures Valid()
      ensures if |src| > old(Free())
              then r == -1 && contents == old(contents) && head == old(head) && tail == old(tail) &&
                   buf[..] == old(buf[..])
              else r == |src| && contents == old(contents) + src
    {
      var free := Free();
      if free < |src| {
        return -1;
      }
      ghost var c0 := contents;
      var i := 0;
      while i < |src|
        invariant 0 <= i <= |src| && Valid()
        invariant contents == c0 + src[..i]
      {
        Push(src[i]);
        assert src[..i + 1] == src[..i] + [src[i]];
        i := i + 1;
      }
      assert src[..i] == src;
      return |src|;
    }
  }
}
