/**
 * The framing that PacketStream (PacketStream.cpp) puts on the wire: consistent
 * overhead byte stuffing (COBS) followed by an explicit 0x00 delimiter.
 *
 * The functions here say what the incremental encoder `_cobs_write` hands to the
 * stream, chunk by chunk, and what the per-byte decoder `_cobs_getc` and the
 * reader `read` make of the bytes they receive. The lemmas are the framing laws:
 * every packet comes back unchanged, the delimiter is the only zero on the wire,
 * and a malformed frame is forgotten at its delimiter.
 */
module Cobs {
  import opened Bytes

  // ------------------------------------------------------------------ encoder

  /** The longest run of non-zero bytes the encoder buffers; `_tx_pos >= 255` forces a flush. */
  const MaxRun: nat := 254

  /** A run buffered by the encoder, `_tx_buf[1.._tx_pos]`: short enough and free of zeros. */
  predicate IsRun(run: seq<byte>)
  {
    |run| <= MaxRun && ZeroFree(run)
  }

  /** What one flush passes to `_io->write`: the overhead byte (the run's length plus one) and the run. */
  function Chunk(run: seq<byte>): seq<byte>
    requires |run| <= MaxRun
  {
    [|run| + 1] + run
  }

  /** The last write of a packet: the final chunk followed by the delimiter. */
  function FinalChunk(run: seq<byte>): seq<byte>
    requires |run| <= MaxRun
  {
    Chunk(run) + [0]
  }

  /** The shape of every flushed chunk: its overhead byte is its own length, 1..255, and it holds no zero. */
  predicate IsChunk(c: seq<byte>)
  {
    1 <= |c| <= MaxRun + 1 && c[0] == |c| && ZeroFree(c)
  }

  datatype Encoded = Encoded(chunks: seq<seq<byte>>, run: seq<byte>)

  lemma AppendAssoc(a: seq<byte>, b: seq<byte>, c: seq<byte>)
    ensures a + (b + c) == (a + b) + c
  {
  }

  /** One iteration of `_cobs_write`'s loop: the chunks flushed while taking `b`, and the run after it. */
  function EncodeByte(run: seq<byte>, b: byte): (e: Encoded)
    requires IsRun(run)
    ensures IsRun(e.run) && (b != 0 ==> e.run != [])
    ensures forall k :: 0 <= k < |e.chunks| ==> IsChunk(e.chunks[k])
  {
    // The forced boundary is checked before the byte is looked at, so a run of
    // 254 is flushed only when a 255th byte arrives.
    var forced := if |run| == MaxRun then [Chunk(run)] else [];
    var run' := if |run| == MaxRun then [] else run;
    if b == 0 then Encoded(forced + [Chunk(run')], [])
    else Encoded(forced, run' + [b])
  }

  /** The chunks `_cobs_write` flushes while encoding `data` from the buffered run `run`, and the run left over. */
  function Encode(run: seq<byte>, data: seq<byte>): (e: Encoded)
    requires IsRun(run)
    ensures IsRun(e.run)
    ensures forall k :: 0 <= k < |e.chunks| ==> IsChunk(e.chunks[k])
    decreases |data|
  {
    if data == [] then Encoded([], run)
    else
      var s := EncodeByte(run, data[0]);
      var rest := Encode(s.run, data[1..]);
      Encoded(s.chunks + rest.chunks, rest.run)
  }

  /** Every buffer `write(data)` passes to `_io->write`, in order. */
  function FrameChunks(data: seq<byte>): seq<seq<byte>>
  {
    var e := Encode([], data);
    e.chunks + [FinalChunk(e.run)]
  }

  /** The bytes of one frame on the wire. */
  function Frame(data: seq<byte>): seq<byte>
  {
    Flatten(FrameChunks(data))
  }

  /** The frame of `data` when the encoder starts from `run`. */
  function FrameFrom(run: seq<byte>, data: seq<byte>): seq<byte>
    requires IsRun(run)
  {
    var e := Encode(run, data);
    Flatten(e.chunks) + FinalChunk(e.run)
  }

  lemma FrameIsFrameFrom(data: seq<byte>)
    ensures Frame(data) == FrameFrom([], data)
  {
    var e := Encode([], data);
    FlattenAppend(e.chunks, [FinalChunk(e.run)]);
    FlattenOne(FinalChunk(e.run));
  }

  lemma FrameFromStep(run: seq<byte>, b: byte, data: seq<byte>)
    requires IsRun(run)
    ensures FrameFrom(run, [b] + data)
         == Flatten(EncodeByte(run, b).chunks) + FrameFrom(EncodeByte(run, b).run, data)
  {
    var s := EncodeByte(run, b);
    assert ([b] + data)[0] == b && ([b] + data)[1..] == data;
    var rest := Encode(s.run, data);
    assert Encode(run, [b] + data) == Encoded(s.chunks + rest.chunks, rest.run);
    FlattenAppend(s.chunks, rest.chunks);
    AppendAssoc(Flatten(s.chunks), Flatten(rest.chunks), FinalChunk(rest.run));
  }

  /**
   * Encoding one byte after another is encoding their concatenation: the
   * encoder's state between two calls with `last == false` is just the run.
   */
  lemma {:induction false} EncodeAppend(run: seq<byte>, a: seq<byte>, b: seq<byte>)
    requires IsRun(run)
    ensures var ea := Encode(run, a);
            var eb := Encode(ea.run, b);
            Encode(run, a + b) == Encoded(ea.chunks + eb.chunks, eb.run)
    decreases |a|
  {
    if a == [] {
      assert a + b == b;
    } else {
      var s := EncodeByte(run, a[0]);
      assert (a + b)[0] == a[0] && (a + b)[1..] == a[1..] + b;
      EncodeAppend(s.run, a[1..], b);
      var ea' := Encode(s.run, a[1..]);
      var eb := Encode(ea'.run, b);
      assert Encode(run, a) == Encoded(s.chunks + ea'.chunks, ea'.run);
      assert Encode(run, a + b) == Encoded(s.chunks + (ea'.chunks + eb.chunks), eb.run);
      assert s.chunks + (ea'.chunks + eb.chunks) == (s.chunks + ea'.chunks) + eb.chunks;
    }
  }

  /** One more step of the encoder on a prefix of `data`. */
  lemma EncodeStepPrefix(run0: seq<byte>, data: seq<byte>, i: nat)
    requires IsRun(run0) && i < |data|
    ensures var e := Encode(run0, data[..i]);
            var s := EncodeByte(e.run, data[i]);
            Encode(run0, data[..i + 1]) == Encoded(e.chunks + s.chunks, s.run)
  {
    assert data[..i + 1] == data[..i] + [data[i]];
    var e := Encode(run0, data[..i]);
    EncodeAppend(run0, data[..i], [data[i]]);
    var s := EncodeByte(e.run, data[i]);
    assert [data[i]][1..] == [];
    assert Encode(e.run, [data[i]]) == Encoded(s.chunks + [], s.run);
    assert s.chunks + [] == s.chunks;
  }

  /** A zero-free stretch that fits in the run is only buffered; nothing is flushed. */
  lemma {:induction false} EncodeBuffers(run: seq<byte>, data: seq<byte>)
    requires IsRun(run) && ZeroFree(data) && |run| + |data| <= MaxRun
    ensures Encode(run, data) == Encoded([], run + data)
    decreases |data|
  {
    if data == [] {
      assert run + data == run;
    } else {
      assert run + [data[0]] + data[1..] == run + data;
      EncodeBuffers(run + [data[0]], data[1..]);
    }
  }

  /**
   * Byte accounting of the encoder: every payload byte costs one byte on the wire
   * and every forced boundary one more, and a forced boundary needs 254 buffered bytes.
   */
  lemma {:induction false} EncodeLength(run: seq<byte>, data: seq<byte>)
    requires IsRun(run)
    ensures var e := Encode(run, data);
            var extra := |Flatten(e.chunks)| + |e.run| - |run| - |data|;
            extra >= 0 && MaxRun * extra + |e.run| <= |run| + |data|
    decreases |data|
  {
    if data != [] {
      var s := EncodeByte(run, data[0]);
      var rest := Encode(s.run, data[1..]);
      EncodeLength(s.run, data[1..]);
      FlattenAppend(s.chunks, rest.chunks);
      if |run| == MaxRun {
        FlattenOne(Chunk(run));
        if data[0] == 0 {
          FlattenAppend([Chunk(run)], [Chunk([])]);
          FlattenOne(Chunk([]));
        }
      } else if data[0] == 0 {
        FlattenOne(Chunk(run));
      }
    }
  }

  /** A frame costs two bytes more than its payload, plus one per 254 payload bytes at most. */
  lemma FrameLength(data: seq<byte>)
    ensures |data| + 2 <= |Frame(data)| <= |data| + |data| / MaxRun + 2
  {
    FrameIsFrameFrom(data);
    EncodeLength([], data);
  }

  /**
   * The wire carries no stray zero: every flushed chunk holds an overhead byte in
   * 1..255 equal to its length and no zero, and the last write is such a chunk
   * followed by the delimiter, at most 256 bytes in all.
   */
  lemma FrameChunksShape(data: seq<byte>)
    ensures var cs := FrameChunks(data);
            |cs| >= 1 &&
            (forall k :: 0 <= k < |cs| - 1 ==> IsChunk(cs[k])) &&
            2 <= |cs[|cs| - 1]| <= MaxRun + 2 &&
            IsChunk(cs[|cs| - 1][..|cs[|cs| - 1]| - 1]) &&
            cs[|cs| - 1][|cs[|cs| - 1]| - 1] == 0
  {
    var e := Encode([], data);
    var last := FinalChunk(e.run);
    assert last[..|last| - 1] == Chunk(e.run);
  }

  /** The delimiter is the only zero of a frame, and it is its last byte. */
  lemma FrameZeroOnlyAtEnd(data: seq<byte>)
    ensures |Frame(data)| >= 2
    ensures Frame(data)[|Frame(data)| - 1] == 0
    ensures ZeroFree(Frame(data)[..|Frame(data)| - 1])
  {
    var e := Encode([], data);
    FrameIsFrameFrom(data);
    FlattenZeroFree(e.chunks);
    var f := Frame(data);
    assert f == Flatten(e.chunks) + Chunk(e.run) + [0];
    assert f[..|f| - 1] == Flatten(e.chunks) + Chunk(e.run);
  }

  // ------------------------------------------------------------------ decoder

  /** The decoder state `_rx_next_zero` (bytes until the next overhead byte) and `_rx_next_pad`. */
  datatype RxState = RxState(nextZero: byte, nextPad: bool)

  /** The state the constructor sets and every delimiter restores. */
  const Initial: RxState := RxState(1, true)

  /** `DecodingStatus` together with `*val`: only `Continue` carries a decoded byte. */
  datatype Decoding = Done | Continue(val: byte) | CobsError | FileError

  /** What one received byte means: a decoded byte, nothing (an overhead byte after a 255), or the delimiter. */
  datatype RxEvent = Emit(val: byte) | Skip | End(valid: bool)

  /** `_cobs_getc` on one byte it has read, up to the point where it returns or recurses. */
  function RxStep(st: RxState, b: byte): (RxEvent, RxState)
  {
    var nz := (st.nextZero + 255) % 256;  // `_rx_next_zero--` on a uint8_t
    if b == 0 then (End(nz == 0), Initial)
    else if nz == 0 then (if st.nextPad then Skip else Emit(0), RxState(b, b == 255))
    else (Emit(b), RxState(nz, st.nextPad))
  }

  datatype GetcResult = GetcResult(status: Decoding, used: nat, st: RxState)

  /**
   * One call of `_cobs_getc` on the bytes `input` still to be read: what it
   * returns, how many bytes it reads, and the decoder state it leaves.
   */
  function CobsGetc(st: RxState, input: seq<byte>): (g: GetcResult)
    ensures g.used <= |input|
    ensures g.status.FileError? || g.used >= 1
    decreases |input|
  {
    if input == [] then GetcResult(FileError, 0, st)
    else
      var (ev, st') := RxStep(st, input[0]);
      match ev
      case End(valid) => GetcResult(if valid then Done else CobsError, 1, st')
      case Emit(v) => GetcResult(Continue(v), 1, st')
      case Skip =>
        var g := CobsGetc(st', input[1..]);
        g.(used := g.used + 1)
  }

  /** "Guaranteed max two levels of recursion": one call reads at most two bytes. */
  lemma CobsGetcDepth(st: RxState, input: seq<byte>)
    ensures CobsGetc(st, input).used <= 2
  {
    if input != [] && RxStep(st, input[0]).0.Skip? {
      var st' := RxStep(st, input[0]).1;
      assert st'.nextZero == input[0] && st'.nextPad == (input[0] == 255);
      if input[1..] != [] {
        assert !RxStep(st', input[1..][0]).0.Skip?;
      }
    }
  }

  datatype Decoded = Decoded(status: Decoding, out: seq<byte>, used: nat, st: RxState)

  function Prepend(out: seq<byte>, n: nat, d: Decoded): Decoded
  {
    d.(out := out + d.out, used := n + d.used)
  }

  lemma PrependPrepend(a: seq<byte>, m: nat, b: seq<byte>, n: nat, d: Decoded)
    ensures Prepend(a, m, Prepend(b, n, d)) == Prepend(a + b, m + n, d)
  {
    AppendAssoc(a, b, d.out);
  }

  /**
   * `read` as a function of the bytes still to be read, one received byte at a
   * time: how it ends (`Done`, `CobsError` or `FileError`), every decoded byte,
   * how many bytes it reads, and the decoder state it leaves.
   */
  function ReadFrame(st: RxState, input: seq<byte>): (d: Decoded)
    ensures d.used <= |input| && !d.status.Continue?
    decreases |input|
  {
    if input == [] then Decoded(FileError, [], 0, st)
    else
      var (ev, st') := RxStep(st, input[0]);
      match ev
      case End(valid) => Decoded(if valid then Done else CobsError, [], 1, st')
      case Emit(v) => Prepend([v], 1, ReadFrame(st', input[1..]))
      case Skip => Prepend([], 1, ReadFrame(st', input[1..]))
  }

  /** `read`'s loop over `_cobs_getc` reads exactly what the byte-by-byte reader reads. */
  lemma {:induction false} ReadFrameByGetc(st: RxState, input: seq<byte>)
    ensures var g := CobsGetc(st, input);
            if g.status.Continue?
            then ReadFrame(st, input) == Prepend([g.status.val], g.used, ReadFrame(g.st, input[g.used..]))
            else ReadFrame(st, input) == Decoded(g.status, [], g.used, g.st)
    decreases |input|
  {
    if input != [] {
      var (ev, st') := RxStep(st, input[0]);
      if ev.Skip? {
        ReadFrameByGetc(st', input[1..]);
        var g := CobsGetc(st', input[1..]);
        assert input[1..][g.used..] == input[g.used + 1..];
      }
    }
  }

  /** One more decoded byte of `read`'s loop. */
  lemma ReadContinues(whole: Decoded, out: seq<byte>, n: nat, st: RxState, rest: seq<byte>)
    requires whole == Prepend(out, n, ReadFrame(st, rest))
    requires CobsGetc(st, rest).status.Continue?
    ensures var g := CobsGetc(st, rest);
            whole == Prepend(out + [g.status.val], n + g.used, ReadFrame(g.st, rest[g.used..]))
  {
    var g := CobsGetc(st, rest);
    ReadFrameByGetc(st, rest);
    PrependPrepend(out, n, [g.status.val], g.used, ReadFrame(g.st, rest[g.used..]));
  }

  /** The last step of `read`'s loop. */
  lemma ReadStops(whole: Decoded, out: seq<byte>, n: nat, st: RxState, rest: seq<byte>)
    requires whole == Prepend(out, n, ReadFrame(st, rest))
    requires !CobsGetc(st, rest).status.Continue?
    ensures var g := CobsGetc(st, rest);
            whole == Decoded(g.status, out, n + g.used, g.st)
  {
    ReadFrameByGetc(st, rest);
    assert out + [] == out;
  }

  /** One iteration of `read`'s loop over the whole input `input`, of which `n` bytes are consumed. */
  lemma ReadAdvance(whole: Decoded, out: seq<byte>, n: nat, st: RxState, input: seq<byte>)
    requires n <= |input| && whole == Prepend(out, n, ReadFrame(st, input[n..]))
    ensures var g := CobsGetc(st, input[n..]);
            n + g.used <= |input| &&
            if g.status.Continue?
            then whole == Prepend(out + [g.status.val], n + g.used, ReadFrame(g.st, input[n + g.used..]))
            else whole == Decoded(g.status, out, n + g.used, g.st)
  {
    var rest := input[n..];
    var g := CobsGetc(st, rest);
    assert rest[g.used..] == input[n + g.used..];
    if g.status.Continue? {
      ReadContinues(whole, out, n, st, rest);
    } else {
      ReadStops(whole, out, n, st, rest);
    }
  }

  /**
   * A read stops at the first zero and only there: it fails with `FileError`
   * exactly when the input holds no zero (and then it has read all of it);
   * otherwise it has read up to and including the first zero and the decoder is
   * back in its initial state, whether the frame was valid or not.
   */
  lemma {:induction false} ReadFrameStops(st: RxState, input: seq<byte>)
    ensures var d := ReadFrame(st, input);
            (d.status.FileError? <==> ZeroFree(input)) &&
            (d.status.FileError? ==> d.used == |input|) &&
            (!d.status.FileError? ==>
               1 <= d.used && input[d.used - 1] == 0 && ZeroFree(input[..d.used - 1]) && d.st == Initial)
    decreases |input|
  {
    if input != [] {
      var (ev, st') := RxStep(st, input[0]);
      if !ev.End? {
        ReadFrameStops(st', input[1..]);
        var d' := ReadFrame(st', input[1..]);
        if !d'.status.FileError? {
          assert input[..d'.used + 1] == [input[0]] + input[1..][..d'.used];
          assert input[..d'.used + 1 - 1] == [input[0]] + input[1..][..d'.used - 1];
        } else {
          assert input == [input[0]] + input[1..];
        }
      }
    }
  }

  /** Bytes after the delimiter do not change the outcome of a read. */
  lemma {:induction false} ReadFramePrefix(st: RxState, a: seq<byte>, b: seq<byte>)
    requires !ReadFrame(st, a).status.FileError?
    ensures ReadFrame(st, a + b) == ReadFrame(st, a)
    decreases |a|
  {
    var (ev, st') := RxStep(st, a[0]);
    assert (a + b)[0] == a[0];
    if !ev.End? {
      assert (a + b)[1..] == a[1..] + b;
      ReadFramePrefix(st', a[1..], b);
    }
  }

  /** Decoding a run that is not yet over: its bytes come out verbatim. */
  lemma {:induction false} ReadRun(run: seq<byte>, pad: bool, rest: seq<byte>)
    requires |run| < 255 && ZeroFree(run)
    ensures ReadFrame(RxState(|run| + 1, pad), run + rest)
         == Prepend(run, |run|, ReadFrame(RxState(1, pad), rest))
    decreases |run|
  {
    if run == [] {
      assert run + rest == rest;
    } else {
      var input := run + rest;
      assert input[0] == run[0] && input[1..] == run[1..] + rest;
      assert ReadFrame(RxState(|run| + 1, pad), input)
          == Prepend([run[0]], 1, ReadFrame(RxState(|run|, pad), run[1..] + rest));
      ReadRun(run[1..], pad, rest);
      PrependPrepend([run[0]], 1, run[1..], |run| - 1, ReadFrame(RxState(1, pad), rest));
      assert [run[0]] + run[1..] == run;
    }
  }

  /** The zero an overhead byte stands for, unless the previous overhead byte was a forced boundary. */
  function Pending(pad: bool): seq<byte>
  {
    if pad then [] else [0]
  }

  /** Decoding one flushed chunk from an overhead position. */
  lemma ReadChunk(run: seq<byte>, pad: bool, rest: seq<byte>)
    requires IsRun(run)
    ensures ReadFrame(RxState(1, pad), Chunk(run) + rest)
         == Prepend(Pending(pad) + run, |run| + 1, ReadFrame(RxState(1, |run| == MaxRun), rest))
  {
    var input := Chunk(run) + rest;
    assert input[0] == |run| + 1 && input[1..] == run + rest;
    var pad' := |run| == MaxRun;
    assert ReadFrame(RxState(1, pad), input)
        == Prepend(Pending(pad), 1, ReadFrame(RxState(|run| + 1, pad'), run + rest));
    ReadRun(run, pad', rest);
    PrependPrepend(Pending(pad), 1, run, |run|, ReadFrame(RxState(1, pad'), rest));
  }

  /**
   * Decoding what one encoder step flushes: the decoded bytes `o` together with
   * what the decoder still owes for the new run are what it owed before plus `b`.
   */
  lemma ReadStep(run: seq<byte>, b: byte, pad: bool, rest: seq<byte>) returns (pad': bool, o: seq<byte>)
    requires IsRun(run)
    ensures ReadFrame(RxState(1, pad), Flatten(EncodeByte(run, b).chunks) + rest)
         == Prepend(o, |Flatten(EncodeByte(run, b).chunks)|, ReadFrame(RxState(1, pad'), rest))
    ensures o + (Pending(pad') + EncodeByte(run, b).run) == Pending(pad) + run + [b]
  {
    var s := EncodeByte(run, b);
    var owed := Pending(pad) + run;
    if |run| < MaxRun && b != 0 {
      assert s == Encoded([], run + [b]);
      pad', o := pad, [];
      assert Flatten(s.chunks) + rest == rest;
      assert o + ReadFrame(RxState(1, pad'), rest).out == ReadFrame(RxState(1, pad'), rest).out;
      AppendAssoc(Pending(pad), run, [b]);
    } else if |run| < MaxRun {
      assert s == Encoded([Chunk(run)], []);
      FlattenOne(Chunk(run));
      ReadChunk(run, pad, rest);
      pad', o := false, owed;
    } else if b != 0 {
      assert s == Encoded([Chunk(run)], [b]);
      FlattenOne(Chunk(run));
      ReadChunk(run, pad, rest);
      pad', o := true, owed;
    } else {
      assert s == Encoded([Chunk(run), Chunk([])], []);
      assert s.chunks == [Chunk(run)] + [Chunk([])];
      FlattenAppend([Chunk(run)], [Chunk([])]);
      FlattenOne(Chunk(run));
      FlattenOne(Chunk([]));
      assert Flatten(s.chunks) + rest == Chunk(run) + (Chunk([]) + rest);
      ReadChunk(run, pad, Chunk([]) + rest);
      ReadChunk([], true, rest);
      PrependPrepend(owed, |run| + 1, [] + [], 1, ReadFrame(RxState(1, false), rest));
      assert owed + ([] + []) == owed;
      pad', o := false, owed;
    }
  }

  /** Decoding the last write of a frame. */
  lemma ReadFinal(run: seq<byte>, pad: bool, rest: seq<byte>)
    requires IsRun(run)
    ensures ReadFrame(RxState(1, pad), FinalChunk(run) + rest)
         == Decoded(Done, Pending(pad) + run, |FinalChunk(run)|, Initial)
  {
    assert FinalChunk(run) + rest == Chunk(run) + ([0] + rest);
    ReadChunk(run, pad, [0] + rest);
  }

  /** The decoder undoes the encoder from any point: encoder run and decoder state in step. */
  lemma {:induction false} ReadEncoded(run: seq<byte>, data: seq<byte>, pad: bool, rest: seq<byte>)
    requires IsRun(run)
    ensures ReadFrame(RxState(1, pad), FrameFrom(run, data) + rest)
         == Decoded(Done, Pending(pad) + run + data, |FrameFrom(run, data)|, Initial)
    decreases |data|, 1
  {
    if data == [] {
      assert FrameFrom(run, data) == [] + FinalChunk(run) == FinalChunk(run);
      ReadFinal(run, pad, rest);
      assert run + data == run;
    } else {
      ReadEncodedStep(run, data[0], data[1..], pad, rest);
      assert [data[0]] + data[1..] == data;
    }
  }

  lemma {:induction false} ReadEncodedStep(run: seq<byte>, b: byte, data: seq<byte>, pad: bool, rest: seq<byte>)
    requires IsRun(run)
    ensures ReadFrame(RxState(1, pad), FrameFrom(run, [b] + data) + rest)
         == Decoded(Done, Pending(pad) + run + [b] + data, |FrameFrom(run, [b] + data)|, Initial)
    decreases |data| + 1, 0
  {
    var s := EncodeByte(run, b);
    var flushed := Flatten(s.chunks);
    var tail := FrameFrom(s.run, data);
    var after := tail + rest;
    var frame := FrameFrom(run, [b] + data);
    assert frame + rest == flushed + after && |frame| == |flushed| + |tail| by {
      FrameFromStep(run, b, data);
    }
    var pad', o := ReadStep(run, b, pad, after);
    var owed := Pending(pad') + s.run;
    var r1 := ReadFrame(RxState(1, pad'), after);
    assert r1 == Decoded(Done, owed + data, |tail|, Initial) by {
      ReadEncoded(s.run, data, pad', rest);
    }
    var before := Pending(pad) + run + [b];
    assert o + owed == before;
    AppendAssoc(o, owed, data);
  }

  /**
   * The round-trip law: a peer's `read` returns exactly the packet `write` sent,
   * with its true length, having read the whole frame and nothing after it, and
   * leaves its decoder ready for the next frame.
   */
  lemma RoundTrip(data: seq<byte>, rest: seq<byte>)
    ensures ReadFrame(Initial, Frame(data) + rest) == Decoded(Done, data, |Frame(data)|, Initial)
  {
    FrameIsFrameFrom(data);
    ReadEncoded([], data, true, rest);
  }

  /**
   * Resynchronisation: whatever state the decoder is in and whatever zero-free
   * bytes arrive, the next zero ends that read and leaves the initial state, so the
   * frame after it is decoded correctly.
   */
  lemma Resync(st: RxState, garbage: seq<byte>, data: seq<byte>, rest: seq<byte>)
    requires ZeroFree(garbage)
    ensures var input := garbage + [0] + Frame(data) + rest;
            var d := ReadFrame(st, input);
            d.used == |garbage| + 1 && d.st == Initial &&
            ReadFrame(d.st, input[d.used..]) == Decoded(Done, data, |Frame(data)|, Initial)
  {
    var input := garbage + [0] + Frame(data) + rest;
    ReadFrameStops(st, input);
    var d := ReadFrame(st, input);
    assert input[|garbage|] == 0;
    assert !ZeroFree(input);
    assert forall i :: 0 <= i < |garbage| ==> input[i] != 0 by {
      assert forall i :: 0 <= i < |garbage| ==> input[i] == garbage[i];
    }
    assert forall i :: 0 <= i < d.used - 1 ==> input[i] != 0 by {
      assert forall i :: 0 <= i < d.used - 1 ==> input[i] == input[..d.used - 1][i];
    }
    assert input[d.used..] == Frame(data) + rest;
    RoundTrip(data, rest);
  }
}
