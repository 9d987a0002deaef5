/**
 * The host's framing codec (update.py): `cobs_encode` and `cobs_decode` work
 * on whole packets and leave the 0x00 delimiter to the serial layer.
 *
 * `cobs_encode` builds its output in place: it appends a zero placeholder for
 * every overhead byte and patches it (`encoded[last_zero] = ...`) once the run
 * it heads is over. The lemmas tie this to the device's encoder (a packet is
 * the device's frame without its delimiter), state the round trip, and show
 * that the host decoder and the device decoder agree on every zero-free frame.
 */
module PyCobs {
  import opened Bytes
  import opened Cobs
  import SelfTest

  // ------------------------------------------------------------------ encoder

  /**
   * What `cobs_encode(data, add_optional)` returns: the chunks the device's
   * encoder flushes for `data` and the chunk of its last run, followed by an
   * empty chunk when `add_optional` is set and that last run is full.
   */
  function Stuffed(data: seq<byte>, addOptional: bool): seq<byte>
  {
    var e := Encode([], data);
    Flatten(e.chunks) + Chunk(e.run) + (if addOptional && |e.run| == MaxRun then [1] else [])
  }

  /** Patching the placeholder at `|f|` with the length of the run after it, plus one, closes that chunk. */
  lemma Patch(f: seq<byte>, run: seq<byte>, tail: seq<byte>)
    requires |run| <= MaxRun
    ensures (f + [0] + run + tail)[|f| := |run| + 1] == f + Chunk(run) + tail
  {
    var a := (f + [0] + run + tail)[|f| := |run| + 1];
    var b := f + Chunk(run) + tail;
    assert |a| == |b|;
    forall i | 0 <= i < |a|
      ensures a[i] == b[i]
    {
      if i < |f| {
      } else if i == |f| {
      } else if i < |f| + 1 + |run| {
        assert a[i] == run[i - |f| - 1];
      }
    }
  }

  /**
   * One pass of `cobs_encode`'s loop, on a buffer that holds the flushed
   * bytes `f`, a zero placeholder at `last_zero` and the current run.
   */
  method StuffByte(encoded: seq<byte>, lastZero: nat, added: nat, element: byte, ghost f: seq<byte>, ghost run: seq<byte>)
    returns (encoded': seq<byte>, lastZero': nat, added': nat)
    requires IsRun(run) && encoded == f + [0] + run && lastZero == |f| && added == |run|
    ensures var s := EncodeByte(run, element);
            encoded' == f + Flatten(s.chunks) + [0] + s.run &&
            lastZero' == |f + Flatten(s.chunks)| && added' == |s.run|
  {
    encoded', lastZero', added' := encoded, lastZero, added;
    ghost var f' := f;
    ghost var run' := run;
    if added' >= 254 {
      // Bit-stuff after 254 non-zero bytes.
      encoded' := encoded' + [0];
      added' := added' + 1;
      Patch(f, run, [0]);
      encoded' := encoded'[lastZero' := added'];
      lastZero' := |encoded'| - 1;
      added' := 0;
      f', run' := f + Chunk(run), [];
      assert encoded' == f' + [0] + run';
    }
    encoded' := encoded' + [element];
    added' := added' + 1;
    if element == 0 {
      Patch(f', run', [0]);
      encoded' := encoded'[lastZero' := added'];
      lastZero' := |encoded'| - 1;
      added' := 0;
      f', run' := f' + Chunk(run'), [];
      assert encoded' == f' + [0] + run';
    } else {
      run' := run' + [element];
      assert encoded' == f' + [0] + run';
    }
    ghost var s := EncodeByte(run, element);
    assert f' == f + Flatten(s.chunks) && run' == s.run by {
      if |run| == MaxRun && element == 0 {
        FlattenAppend([Chunk(run)], [Chunk([])]);
        FlattenOne(Chunk(run));
        FlattenOne(Chunk([]));
        AppendAssoc(f, Chunk(run), Chunk([]));
      } else if |run| == MaxRun || element == 0 {
        FlattenOne(if |run| == MaxRun then Chunk(run) else Chunk(run'[..0]));
      } else {
        assert f + Flatten(s.chunks) == f + [];
      }
    }
  }

  /** `cobs_encode`: the COBS packet of `data`, without delimiter. */
  method CobsEncode(data: seq<byte>, addOptional: bool) returns (encoded: seq<byte>)
    ensures encoded == Stuffed(data, addOptional)
  {
    encoded := [0];
    var lastZero: nat := 0;
    var addedSizeZero: nat := 0;
    var i := 0;
    assert data[..0] == [];
    assert encoded == Flatten([]) + [0] + [];
    while i < |data|
      invariant 0 <= i <= |data|
      invariant var e := Encode([], data[..i]);
                encoded == Flatten(e.chunks) + [0] + e.run &&
                lastZero == |Flatten(e.chunks)| && addedSizeZero == |e.run|
    {
      ghost var e := Encode([], data[..i]);
      ghost var s := EncodeByte(e.run, data[i]);
      EncodeStepPrefix([], data, i);
      FlattenAppend(e.chunks, s.chunks);
      encoded, lastZero, addedSizeZero := StuffByte(encoded, lastZero, addedSizeZero, data[i], Flatten(e.chunks), e.run);
      i := i + 1;
    }
    assert data[..i] == data;
    ghost var e := Encode([], data);
    ghost var f := Flatten(e.chunks);
    if addOptional && addedSizeZero >= 254 {
      // The optional empty chunk after a run of 254.
      encoded := encoded + [0];
      addedSizeZero := addedSizeZero + 1;
      Patch(f, e.run, [0]);
      encoded := encoded[lastZero := addedSizeZero];
      lastZero := |encoded| - 1;
      addedSizeZero := 0;
      Patch(f + Chunk(e.run), [], []);
      encoded := encoded[lastZero := addedSizeZero + 1];
      assert encoded == f + Chunk(e.run) + Chunk([]);
    } else {
      Patch(f, e.run, []);
      assert encoded + [] == encoded;
      encoded := encoded[lastZero := addedSizeZero + 1];
    }
  }

  /** Without the optional byte, a host packet is the device's frame of the same data minus its delimiter. */
  lemma StuffedFrame(data: seq<byte>)
    ensures Stuffed(data, false) + [0] == Frame(data)
  {
    var e := Encode([], data);
    FlattenAppend(e.chunks, [FinalChunk(e.run)]);
    FlattenOne(FinalChunk(e.run));
    assert Flatten(e.chunks) + Chunk(e.run) + [] == Flatten(e.chunks) + Chunk(e.run);
  }

  /** An encoded packet never holds a zero, so the delimiter cannot occur inside it. */
  lemma StuffedZeroFree(data: seq<byte>, addOptional: bool)
    ensures ZeroFree(Stuffed(data, addOptional))
  {
    var e := Encode([], data);
    FlattenZeroFree(e.chunks);
  }

  /** The bytes after the last zero of `data`. */
  function TrailingNonZero(data: seq<byte>): (n: nat)
    ensures n <= |data|
  {
    if data == [] || data[|data| - 1] == 0 then 0 else TrailingNonZero(data[..|data| - 1]) + 1
  }

  /**
   * The run the encoder is left holding: the bytes after the last zero, less
   * every full run of 254 a forced boundary has flushed, but never empty when
   * they are not.
   */
  lemma {:induction false} LastRunLength(data: seq<byte>)
    ensures var t := TrailingNonZero(data);
            |Encode([], data).run| == if t == 0 then 0 else (t - 1) % MaxRun + 1
    decreases |data|
  {
    if data != [] {
      var n := |data| - 1;
      LastRunLength(data[..n]);
      EncodeStepPrefix([], data, n);
      assert data[..n + 1] == data;
    }
  }

  /**
   * `add_optional` changes the packet exactly when the data ends with a
   * positive multiple of 254 non-zero bytes, and then only by one trailing 01.
   */
  lemma OptionalByte(data: seq<byte>)
    ensures var t := TrailingNonZero(data);
            Stuffed(data, true) == if t > 0 && t % MaxRun == 0 then Stuffed(data, false) + [1] else Stuffed(data, false)
  {
    var t := TrailingNonZero(data);
    var e := Encode([], data);
    var plain := Flatten(e.chunks) + Chunk(e.run);
    var full := |e.run| == MaxRun;
    assert full <==> t > 0 && t % MaxRun == 0 by {
      LastRunLength(data);
      FullRun(t);
    }
    assert Stuffed(data, false) == plain + [] == plain;
    assert Stuffed(data, true) == plain + (if full then [1] else []);
  }

  /** The last run is full exactly when the trailing non-zero bytes are a positive multiple of 254. */
  lemma FullRun(t: nat)
    ensures (t != 0 && (t - 1) % MaxRun + 1 == MaxRun) <==> (t > 0 && t % MaxRun == 0)
  {
    if t > 0 {
      var q := (t - 1) / MaxRun;
      var r := (t - 1) % MaxRun;
      assert t == MaxRun * q + r + 1;
      if r == MaxRun - 1 {
        assert t == MaxRun * (q + 1);
      } else {
        assert t == MaxRun * q + (r + 1) && r + 1 < MaxRun;
      }
    }
  }

  // ------------------------------------------------------------------ decoder

  /** `decoded`, `next_zero` and `next_pad` of `cobs_decode`'s loop; `next_zero` is a Python integer. */
  datatype PyRx = PyRx(decoded: seq<byte>, nextZero: int, nextPad: bool)

  const PyStart: PyRx := PyRx([], 0, true)

  /** One pass of `cobs_decode`'s loop. */
  function PyStep(st: PyRx, element: byte): PyRx
  {
    if st.nextZero == 0 then PyRx(st.decoded + Pending(st.nextPad), element - 1, element == 0xFF)
    else PyRx(st.decoded + [element], st.nextZero - 1, st.nextPad)
  }

  /** The loop's state after the elements `data`, starting from `st`. */
  function PyFrom(st: PyRx, data: seq<byte>): PyRx
    decreases |data|
  {
    if data == [] then st else PyFrom(PyStep(st, data[0]), data[1..])
  }

  /** The two `RuntimeError`s of `cobs_decode`. */
  datatype DecodeError = LastOffsetWrong | OptionalMissing

  /** What `cobs_decode(data, require_optional)` returns or raises. */
  function Unstuffed(data: seq<byte>, requireOptional: bool): Result<seq<byte>, DecodeError>
  {
    var st := PyFrom(PyStart, data);
    if st.nextZero != 0 then Err(LastOffsetWrong)
    else if requireOptional && st.nextPad then Err(OptionalMissing)
    else Ok(st.decoded)
  }

  lemma {:induction false} PyFromAppend(st: PyRx, a: seq<byte>, b: seq<byte>)
    ensures PyFrom(st, a + b) == PyFrom(PyFrom(st, a), b)
    decreases |a|
  {
    if a == [] {
      assert a + b == b;
    } else {
      assert (a + b)[0] == a[0] && (a + b)[1..] == a[1..] + b;
      PyFromAppend(PyStep(st, a[0]), a[1..], b);
    }
  }

  lemma PyFromSnoc(st: PyRx, a: seq<byte>, x: byte)
    ensures PyFrom(st, a + [x]) == PyStep(PyFrom(st, a), x)
  {
    PyFromAppend(st, a, [x]);
    assert [x][1..] == [];
  }

  /** `cobs_decode`: the data of a packet, or the error it raises. */
  method CobsDecode(data: seq<byte>, requireOptional: bool) returns (r: Result<seq<byte>, DecodeError>)
    ensures r == Unstuffed(data, requireOptional)
  {
    var decoded: seq<byte> := [];
    var nextZero: int := 0;
    var nextPad := true;
    var i := 0;
    assert data[..0] == [];
    while i < |data|
      invariant 0 <= i <= |data|
      invariant PyFrom(PyStart, data[..i]) == PyRx(decoded, nextZero, nextPad)
    {
      PyFromSnoc(PyStart, data[..i], data[i]);
      assert data[..i + 1] == data[..i] + [data[i]];
      var element := data[i];
      if nextZero == 0 {
        nextZero := element;
        if !nextPad {
          decoded := decoded + [0];
        }
        nextPad := nextZero == 0xFF;
      } else {
        decoded := decoded + [element];
      }
      nextZero := nextZero - 1;
      i := i + 1;
    }
    assert data[..i] == data;
    if nextZero != 0 {
      return Err(LastOffsetWrong);
    }
    if requireOptional && nextPad {
      return Err(OptionalMissing);
    }
    return Ok(decoded);
  }

  /** The bytes of a run, read while `next_zero` counts down, are copied verbatim. */
  lemma {:induction false} PyData(out: seq<byte>, k: int, pad: bool, run: seq<byte>)
    requires |run| <= k
    ensures PyFrom(PyRx(out, k, pad), run) == PyRx(out + run, k - |run|, pad)
    decreases |run|
  {
    if run == [] {
      assert out + run == out;
    } else {
      PyData(out + [run[0]], k - 1, pad, run[1..]);
      assert out + [run[0]] + run[1..] == out + run;
    }
  }

  /** Decoding one chunk from an overhead position. */
  lemma PyChunk(out: seq<byte>, pad: bool, run: seq<byte>)
    requires |run| <= MaxRun
    ensures PyFrom(PyRx(out, 0, pad), Chunk(run)) == PyRx(out + Pending(pad) + run, 0, |run| == MaxRun)
  {
    var c := Chunk(run);
    assert c[0] == |run| + 1 && c[1..] == run;
    PyData(out + Pending(pad), |run|, |run| == MaxRun, run);
  }

  /** Decoding what one encoder step flushes, as `Cobs.ReadStep` does for the device's decoder. */
  lemma PyDecodeStep(run: seq<byte>, b: byte, out: seq<byte>, pad: bool) returns (pad': bool, o: seq<byte>)
    requires IsRun(run)
    ensures PyFrom(PyRx(out, 0, pad), Flatten(EncodeByte(run, b).chunks)) == PyRx(out + o, 0, pad')
    ensures o + (Pending(pad') + EncodeByte(run, b).run) == Pending(pad) + run + [b]
  {
    var s := EncodeByte(run, b);
    var owed := Pending(pad) + run;
    if |run| < MaxRun && b != 0 {
      assert s == Encoded([], run + [b]);
      pad', o := pad, [];
      assert out + o == out;
      AppendAssoc(Pending(pad), run, [b]);
    } else if |run| < MaxRun {
      assert s == Encoded([Chunk(run)], []);
      FlattenOne(Chunk(run));
      PyChunk(out, pad, run);
      pad', o := false, owed;
      AppendAssoc(out, Pending(pad), run);
    } else if b != 0 {
      assert s == Encoded([Chunk(run)], [b]);
      FlattenOne(Chunk(run));
      PyChunk(out, pad, run);
      pad', o := true, owed;
      AppendAssoc(out, Pending(pad), run);
    } else {
      assert s.chunks == [Chunk(run)] + [Chunk([])];
      FlattenAppend([Chunk(run)], [Chunk([])]);
      FlattenOne(Chunk(run));
      FlattenOne(Chunk([]));
      PyFromAppend(PyRx(out, 0, pad), Chunk(run), Chunk([]));
      PyChunk(out, pad, run);
      PyChunk(out + Pending(pad) + run, true, []);
      pad', o := false, owed;
      AppendAssoc(out, Pending(pad), run);
      assert out + Pending(pad) + run + Pending(true) + [] == out + o;
    }
  }

  /**
   * Decoding everything the encoder has flushed for `data`: what comes out,
   * followed by what the decoder still owes and the run the encoder holds, is `data`.
   */
  lemma {:induction false} PyDecodeFlushed(data: seq<byte>) returns (o: seq<byte>, pad: bool)
    ensures var e := Encode([], data);
            PyFrom(PyStart, Flatten(e.chunks)) == PyRx(o, 0, pad) && o + Pending(pad) + e.run == data
    decreases |data|
  {
    if data == [] {
      assert Encode([], data) == Encoded([], []);
      o, pad := [], true;
    } else {
      var n := |data| - 1;
      var e := Encode([], data[..n]);
      var o1, pad1 := PyDecodeFlushed(data[..n]);
      var s := EncodeByte(e.run, data[n]);
      EncodeStepPrefix([], data, n);
      assert data[..n + 1] == data;
      FlattenAppend(e.chunks, s.chunks);
      PyFromAppend(PyStart, Flatten(e.chunks), Flatten(s.chunks));
      var pad2, o2 := PyDecodeStep(e.run, data[n], o1, pad1);
      o, pad := o1 + o2, pad2;
      Regroup(o1, o2, Pending(pad1), e.run, Pending(pad2), s.run, data[n], data[..n]);
      assert data[..n] + [data[n]] == data;
    }
  }

  /** The bookkeeping of one step of `PyDecodeFlushed`. */
  lemma Regroup(o1: seq<byte>, o2: seq<byte>, p1: seq<byte>, r1: seq<byte>, p2: seq<byte>, r2: seq<byte>,
                b: byte, prefix: seq<byte>)
    requires o2 + (p2 + r2) == p1 + r1 + [b]
    requires o1 + p1 + r1 == prefix
    ensures o1 + o2 + p2 + r2 == prefix + [b]
  {
    calc {
      o1 + o2 + p2 + r2;
      o1 + (o2 + (p2 + r2));
      o1 + (p1 + r1 + [b]);
      o1 + p1 + r1 + [b];
    }
  }

  /**
   * The round-trip law of the host codec: decoding an encoded packet gives
   * the data back, unless the decoder requires the optional byte and the
   * encoder was not asked for it and had to leave it out.
   */
  lemma DecodeEncode(data: seq<byte>, addOptional: bool, requireOptional: bool)
    ensures Unstuffed(Stuffed(data, addOptional), requireOptional)
         == if requireOptional && !addOptional && |Encode([], data).run| == MaxRun
            then Err(OptionalMissing) else Ok(data)
  {
    var e := Encode([], data);
    var f := Flatten(e.chunks);
    var full := |e.run| == MaxRun;
    var tail: seq<byte> := if addOptional && full then [1] else [];
    var o, pad := PyDecodeFlushed(data);
    PyFromAppend(PyStart, f + Chunk(e.run), tail);
    PyFromAppend(PyStart, f, Chunk(e.run));
    PyChunk(o, pad, e.run);
    var st := PyRx(data, 0, full);
    assert PyFrom(PyStart, f + Chunk(e.run)) == st;
    if addOptional && full {
      assert PyFrom(st, tail) == PyRx(data + Pending(true), 0, false);
      assert data + Pending(true) == data;
    }
  }

  /** `test_cobs`'s random round trip: no zero in the packet, and the data back. */
  lemma RoundTrip(data: seq<byte>)
    ensures ZeroFree(Stuffed(data, false)) && Unstuffed(Stuffed(data, false), false) == Ok(data)
  {
    StuffedZeroFree(data, false);
    DecodeEncode(data, false, false);
  }

  /**
   * The host decoder and the device decoder agree on a zero-free packet
   * followed by the delimiter, from corresponding states: the device's
   * `_rx_next_zero` is the host's `next_zero` plus one.
   */
  lemma {:induction false} DecodersAgreeFrom(out: seq<byte>, nz: int, pad: bool, x: seq<byte>)
    requires 0 <= nz < 255 && ZeroFree(x)
    ensures var p := PyFrom(PyRx(out, nz, pad), x);
            var c := ReadFrame(RxState(nz + 1, pad), x + [0]);
            p.decoded == out + c.out && (c.status == Done <==> p.nextZero == 0) &&
            c.used == |x| + 1 && c.st == Initial
    decreases |x|
  {
    var input := x + [0];
    if x == [] {
      assert input == [0];
      assert out + [] == out;
    } else {
      var b := x[0];
      assert input[0] == b && input[1..] == x[1..] + [0];
      if nz == 0 {
        DecodersAgreeFrom(out + Pending(pad), b - 1, b == 0xFF, x[1..]);
        var c' := ReadFrame(RxState(b, b == 0xFF), input[1..]);
        AppendAssoc(out, Pending(pad), c'.out);
      } else {
        DecodersAgreeFrom(out + [b], nz - 1, pad, x[1..]);
        var c' := ReadFrame(RxState(nz, pad), input[1..]);
        AppendAssoc(out, [b], c'.out);
      }
    }
  }

  /**
   * A zero-free packet decodes on the host exactly when the device, reading
   * it with its delimiter, reports a complete packet, and both make the same
   * bytes of it.
   */
  lemma DecodersAgree(x: seq<byte>)
    requires ZeroFree(x)
    ensures var c := ReadFrame(Initial, x + [0]);
            (Unstuffed(x, false).Ok? <==> c.status == Done) &&
            (c.status == Done ==> Unstuffed(x, false) == Ok(c.out))
  {
    DecodersAgreeFrom([], 0, true, x);
    assert [] + ReadFrame(Initial, x + [0]).out == ReadFrame(Initial, x + [0]).out;
  }

  // ------------------------------------------------------------ test vectors

  /** The `tests` table: (data, packet) pairs. */
  const Tests: seq<SelfTest.Vector> := [T0, T1, T2, T3, T4, T5, T6, T7, T8, T9]

  const T0: SelfTest.Vector := SelfTest.Vector([0x00], [0x01, 0x01])
  const T1: SelfTest.Vector := SelfTest.Vector([0x00, 0x00], [0x01, 0x01, 0x01])
  const T2: SelfTest.Vector := SelfTest.Vector([0x11, 0x22, 0x00, 0x33], [0x03, 0x11, 0x22, 0x02, 0x33])
  const T3: SelfTest.Vector := SelfTest.Vector([0x11, 0x22, 0x33, 0x44], [0x05, 0x11, 0x22, 0x33, 0x44])
  const T4: SelfTest.Vector := SelfTest.Vector([0x11, 0x00, 0x00, 0x00], [0x02, 0x11, 0x01, 0x01, 0x01])
  /** `range(0x01, 0xFF)` */
  const T5: SelfTest.Vector := SelfTest.Vector(SelfTest.Ramp(1, 254), [0xFF] + SelfTest.Ramp(1, 254))
  /** `range(0x00, 0xFF)` */
  const T6: SelfTest.Vector := SelfTest.Vector(SelfTest.Ramp(0, 255), [0x01, 0xFF] + SelfTest.Ramp(1, 254))
  /** `range(0x01, 0x100)` */
  const T7: SelfTest.Vector := SelfTest.Vector(SelfTest.Ramp(1, 255), [0xFF] + SelfTest.Ramp(1, 254) + [0x02, 0xFF])
  /** `range(0x02, 0x100) + [0x00]` */
  const T8: SelfTest.Vector := SelfTest.Vector(SelfTest.Ramp(2, 254) + [0x00], [0xFF] + SelfTest.Ramp(2, 254) + [0x01, 0x01])
  /** `range(0x03, 0x100) + [0x00, 0x01]` */
  const T9: SelfTest.Vector := SelfTest.Vector(SelfTest.Ramp(3, 253) + [0x00, 0x01], [0xFE] + SelfTest.Ramp(3, 253) + [0x02, 0x01])

  /** The host's table is the device's table without the empty packet, each packet without its delimiter. */
  lemma TestIsVector(k: nat)
    requires k < |Tests|
    ensures Tests[k].decoded == SelfTest.Vectors[k].decoded
    ensures Tests[k].encoded + [0] == SelfTest.Vectors[k].encoded
  {
    if k == 0 {
      assert Tests[k] == T0;
    } else if k == 1 {
      assert Tests[k] == T1;
    } else if k == 2 {
      assert Tests[k] == T2;
    } else if k == 3 {
      assert Tests[k] == T3;
    } else if k == 4 {
      assert Tests[k] == T4;
    } else if k == 5 {
      assert Tests[k] == T5;
    } else if k == 6 {
      assert Tests[k] == T6;
      RampCons(0, 254);
    } else if k == 7 {
      assert Tests[k] == T7;
      RampSnoc(1, 254);
      AppendAssoc([0xFF] + SelfTest.Ramp(1, 254), [0x02, 0xFF], [0x00]);
    } else if k == 8 {
      assert Tests[k] == T8;
      AppendAssoc([0xFF] + SelfTest.Ramp(2, 254), [0x01, 0x01], [0x00]);
    } else {
      assert Tests[k] == T9;
      AppendAssoc([0xFF] + SelfTest.Ramp(3, 253), [0x02, 0x01], [0x00]);
    }
  }

  lemma RampSnoc(first: nat, n: nat)
    requires first + n < 256
    ensures SelfTest.Ramp(first, n + 1) == SelfTest.Ramp(first, n) + [first + n]
  {
  }

  lemma RampCons(first: nat, n: nat)
    requires first + n < 256
    ensures SelfTest.Ramp(first, n + 1) == [first] + SelfTest.Ramp(first + 1, n)
  {
  }

  /** Every pair of the table: the data encodes to the packet and the packet decodes to the data. */
  lemma TestVector(k: nat)
    requires k < |Tests|
    ensures Stuffed(Tests[k].decoded, false) == Tests[k].encoded
    ensures Unstuffed(Tests[k].encoded, false) == Ok(Tests[k].decoded)
  {
    var d := Tests[k].decoded;
    var p := Tests[k].encoded;
    TestIsVector(k);
    SelfTest.VectorEncodes(k);
    assert Frame(d) == p + [0];
    StuffedFrame(d);
    var st := Stuffed(d, false);
    assert st == (st + [0])[..|st|] == (p + [0])[..|p|] == p;
    RoundTrip(d);
  }

  /**
   * `test_cobs`: the table in both directions, then the round trip of the
   * `randoms` packets, which stand for the random ones. Every assertion holds.
   */
  method TestCobs(randoms: seq<seq<byte>>) returns (passed: bool)
    ensures passed
  {
    // Each check's outcome comes from the lemma called in its pass
    // (`TestVector`, `RoundTrip`); the invariants only bound the counters.
    var k := 0;
    while k < |Tests|
      invariant 0 <= k <= |Tests|
    {
      TestVector(k);
      var encoded := CobsEncode(Tests[k].decoded, false);
      if encoded != Tests[k].encoded {
        return false;
      }
      k := k + 1;
    }
    k := 0;
    while k < |Tests|
      invariant 0 <= k <= |Tests|
    {
      TestVector(k);
      var decoded := CobsDecode(Tests[k].encoded, false);
      if decoded != Ok(Tests[k].decoded) {
        return false;
      }
      k := k + 1;
    }
    var i := 0;
    while i < |randoms|
      invariant 0 <= i <= |randoms|
    {
      RoundTrip(randoms[i]);
      var encoded := CobsEncode(randoms[i], false);
      if exists j :: 0 <= j < |encoded| && encoded[j] == 0 {
        return false;
      }
      var decoded := CobsDecode(encoded, false);
      if decoded != Ok(randoms[i]) {
        return false;
      }
      i := i + 1;
    }
    return true;
  }
}
