# Packet stream and remote file update protocol

This project models the firmware-update path of the FPGA CI test shield updater.

- The device's `PacketStream` (PacketStream.cpp, PacketStream.h) frames packets over a byte stream with COBS (Consistent Overhead Byte Stuffing). It sends and receives them with `write`/`read` and with `printf`/`scanf` of decimal `%i` numbers.
- The device's `RemoteFile` (RemoteFile.h) turns `read`, `write`, `seek` and `close` into request packets. The host carries them out.
- The host tool (update.py) has its own COBS codec (`cobs_encode`/`cobs_decode`). Its `RemoteFile` class serves a byte array to the device through the `host` loop. `update_progress` draws the progress bar.

The files and modules:

- `bytes.dfy` (`Bytes`): bytes, `Option`/`Result`, chunk concatenation.
- `cobs.dfy` (`Cobs`): the device's framing as functions.
  - The encoder flushes one chunk per zero, and one per 254 buffered non-zero bytes: a *forced boundary*, overhead byte 255.
  - The decoder has the state `_rx_next_zero`/`_rx_next_pad`.
  - Proved against them: the round trip and resynchronisation after a malformed frame.
- `format.dfy` (`Format`): decimal `%i` rendering and parsing, in the piece of `vsnprintf`/`vsscanf` the protocol uses.
- `packet_stream.dfy` (`Stream`): the `PacketStream` class.
  - Its fields are the encoder buffer and the decoder state.
  - It is bound to a `FileHandle` that holds the unread input and logs every `write` call.
  - Each method is proved against the functions of `Cobs` and `Format`.
- `test_handles.dfy` (`TestHandles`): the two test doubles of `self_test`. One is the checking mock. The other is the 2048-byte ring buffer, kept in a real `array` with wrap-around indices.
- `self_test.dfy` (`SelfTest`): the test vectors of `get_test_vector` and `self_test`. Each part is proved to pass for every random choice.
- `remote_file.dfy` (`Remote`): the device's `RemoteFile` class over a `PacketStream`.
- `py_cobs.dfy` (`PyCobs`): the host's `cobs_encode`/`cobs_decode` loops, the `tests` table and `test_cobs`.
- `host_file.dfy` (`Host`): the host's `RemoteFile` class, its `host` loop, command parsing and `update_progress`.
- `protocol.dfy` (`Protocol`): the two sides joined. A device request is understood by the host as the operation called, and the host's reply is what the device operation returns.

Two details of the code the model follows exactly:

- **Forced boundary.** The encoder's flush happens at the START of the next payload byte (PacketStream.cpp:114-123). So a payload of exactly 254 non-zero bytes is `FF <bytes> 00`, with no empty trailing chunk. A payload of 255 non-zero bytes is `FF <254 bytes> 02 <byte> 00`. The test vectors 5 and 7 (PacketStream.cpp:429-459) agree with this.
- **`add_optional`.** The comment at update.py:345 says the optional byte follows "254 non-zero bytes". The code's condition is `added_size_zero >= 254`. `PyCobs.OptionalByte` proves that this holds exactly when the count of non-zero bytes after the last zero is a positive multiple of 254 (254, 508, …).

## Model

| member | source | states |
|---|---|---|
| Cobs.EncodeByte | PacketStream.cpp:113-136 | one pass of `_cobs_write`'s loop keeps the run at most 254 zero-free bytes; every chunk it flushes has an overhead byte equal to its length (1..255) and no zero |
| Cobs.Encode | PacketStream.cpp:111-137 | the chunks flushed while encoding a payload are all well shaped, and the run left over is a valid run |
| Cobs.EncodeAppend | PacketStream.cpp:108-137 | two calls without `last` flush what one call on the concatenation flushes; the encoder's state between calls is the run |
| Cobs.EncodeBuffers | PacketStream.cpp:113-137 | a zero-free stretch that fits in the run is buffered and nothing is written |
| Cobs.EncodeLength | PacketStream.cpp:108-155 | each payload byte costs one wire byte, each forced boundary one more, and each forced boundary needs 254 buffered bytes |
| Cobs.FrameLength | PacketStream.cpp:108-155 | a frame is at least 2 and at most `n + n/254 + 2` bytes long for an `n`-byte payload |
| Cobs.FrameChunksShape | PacketStream.cpp:139-153 | every write of a frame but the last is a well-shaped chunk; the last is a chunk plus the delimiter, 2..256 bytes in all |
| Cobs.FrameZeroOnlyAtEnd | PacketStream.cpp:139-148 | the delimiter is the only zero of a frame, and it is its last byte |
| Cobs.CobsGetc | PacketStream.cpp:157-194 | one call of `_cobs_getc` reads no more than the input; it reads at least one byte unless it reports `FileError` |
| Cobs.CobsGetcDepth | PacketStream.cpp:181-183 | "guaranteed max two levels of recursion": one call reads at most two bytes |
| Cobs.ReadFrame | PacketStream.cpp:41-63 | a read never ends in `Continue` and never consumes more than the input |
| Cobs.ReadFrameByGetc | PacketStream.cpp:46-62 | `read`'s loop over `_cobs_getc` decodes exactly what the byte-by-byte decoder decodes |
| Cobs.ReadFrameStops | PacketStream.cpp:164-173 | a read fails with `FileError` exactly when no zero arrives; otherwise it stops at the first zero, with the decoder reset whether the frame was valid or not |
| Cobs.ReadFramePrefix | PacketStream.cpp:166-173 | bytes after the delimiter do not change the outcome of a read |
| Cobs.ReadChunk | PacketStream.cpp:175-193 | a chunk decodes to the zero its overhead byte stands for (none after a 255 overhead byte or at the frame start), then its run verbatim |
| Cobs.ReadEncoded | PacketStream.cpp:108-194 | from any point of encoding, with encoder run and decoder state in step, the decoder returns the payload |
| Cobs.RoundTrip | PacketStream.h:37-59 | a frame written by `write` is read back complete (`Done`), with the same bytes and length, reading nothing after it and leaving the initial state |
| Cobs.Resync | PacketStream.cpp:166-173 | from any decoder state, zero-free garbage ends at the next zero with the decoder reset, and the following frame decodes correctly |
| Format.Digits | PacketStream.cpp:85-106 | `%i` digits are decimal digits with no leading zero |
| Format.DigitsValue | PacketStream.cpp:65-83 | decimal digits read back as their value |
| Format.Render | PacketStream.cpp:93-101 | the text `printf` formats never holds a NUL and starts with the format's first ordinary byte |
| Format.RenderLiteral | PacketStream.cpp:93-101 | ordinary format bytes are copied unchanged |
| Format.RenderConversion | PacketStream.cpp:93-101 | `%i` is replaced by its argument in decimal |
| Format.ParseDecimal | PacketStream.cpp:79 | `%i` parses back exactly the number `%i` printed when the next byte cannot extend it |
| Format.ScanBound | PacketStream.cpp:79 | `vsscanf` assigns no more values than the format has conversions |
| Format.VScan | PacketStream.cpp:79 | the count `vsscanf` returns is the number of values it assigned, or EOF with none |
| Format.ScanRenderRoundTrip | PacketStream.cpp:630-640 | scanning a rendered text with its own format returns every argument and their count |
| Format.ScanEmpty | PacketStream.h:61-68 | an input that ends before the first `%i` makes `vsscanf` return EOF |
| Format.CString | PacketStream.cpp:74 | the string `vsscanf` sees is the buffer up to its first NUL |
| Format.CStringTerminated | PacketStream.cpp:74 | the stored terminator ends the string |
| Stream.FileHandle.Read | PacketStream.cpp:196-202 | `_io->read` hands out the next bytes of the input, none once it is exhausted |
| Stream.FileHandle.Write | PacketStream.cpp:116-118 | each `_io->write` is logged and answered with its scripted count |
| Stream.Store | PacketStream.cpp:48-52 | `read`'s buffer keeps the first `size` decoded bytes; the rest of the buffer is untouched |
| Stream.PacketStream.constructor | PacketStream.cpp:25-34 | the encoder is empty (`_tx_pos == 1`) and the decoder is in its initial state (`1`, `true`) |
| Stream.PacketStream.Flush | PacketStream.cpp:114-118 | a flush logs `_tx_buf[0.._tx_pos]` and fails exactly when the handle reports a short write |
| Stream.PacketStream.Put | PacketStream.cpp:113-136 | one pass of `_cobs_write`'s loop logs the chunks of `Cobs.EncodeByte`, and the buffer holds its run |
| Stream.PacketStream.CobsWrite | PacketStream.cpp:108-155 | `_cobs_write` logs the chunks of `Cobs.Encode` (and with `last` the final chunk and the delimiter, then resets); it succeeds exactly when every write was accepted in full |
| Stream.PacketStream.Finish | PacketStream.cpp:139-153 | the tail of `_cobs_write` writes the final chunk with the delimiter and empties the buffer |
| Stream.PacketStream.Write | PacketStream.cpp:36-39 | `write` logs the frame's chunks and leaves the decoder alone |
| Stream.PacketStream.Getc | PacketStream.cpp:196-202 | `_getc` returns the next byte, or `FileError` with nothing consumed |
| Stream.PacketStream.CobsGetc | PacketStream.cpp:157-194 | `_cobs_getc` does what `Cobs.CobsGetc` says: its status, the bytes read and the new decoder state |
| Stream.PacketStream.Read | PacketStream.cpp:41-63 | `read` succeeds exactly when a frame decodes; `actual` is the full decoded length on success and untouched otherwise; the buffer keeps the first `size` bytes; the input advances past the frame |
| Stream.PacketStream.Printf | PacketStream.cpp:85-106 | `printf` writes one frame of the rendered text and succeeds exactly when every write was accepted |
| Stream.PacketStream.Scanf | PacketStream.cpp:65-83 | corrected (see Findings): `scanf` returns 0 and assigns nothing on a failed read; otherwise it scans at most 64 bytes, terminated inside the buffer, assigns the values scanned, in order, and returns `vsscanf`'s count |
| Stream.ScanReply | PacketStream.cpp:68-79 | no more values are scanned from a reply than the format has conversions |
| Stream.ScanReplyRendered | PacketStream.cpp:630-640 | a short packet `printf` sent, scanned with the same format, gives every argument |
| Stream.ScanfTerminator | PacketStream.cpp:74 | corrected: the terminator is stored inside the 65-byte buffer, right after a reply that fits |
| Stream.ScanfTerminatorOverrun | PacketStream.cpp:71-74 | as written: a 65-byte reply makes `scanf` store its terminator one past the buffer |
| Stream.ScanfResultAsWritten | PacketStream.cpp:67-82 | as written: the result stored in a `bool` is 0 or 1, and 0 exactly when nothing matched |
| Stream.ScanfResultTruncated | PacketStream.h:61-68 | as written: two matches are reported as one, and EOF is reported as one match |
| TestHandles.TestFileHandle.constructor | PacketStream.cpp:216-225 | no expectation is set and every position is 0 |
| TestHandles.TestFileHandle.WriteSetExpected | PacketStream.cpp:227-232 | the writes from now on are checked against `buffer` from its start |
| TestHandles.TestFileHandle.WriteValid | PacketStream.cpp:234-236 | true exactly when an expectation was set and the writes since make it up exactly |
| TestHandles.TestFileHandle.ReadSetNext | PacketStream.cpp:238-242 | the next reads serve `buffer` from its start; the write side is unchanged |
| TestHandles.TestFileHandle.ReadDone | PacketStream.cpp:244-247 | true exactly when the whole input has been served |
| TestHandles.TestFileHandle.Read | PacketStream.cpp:249-258 | the next `size` bytes of the input, fewer at its end |
| TestHandles.TestFileHandle.Write | PacketStream.cpp:260-278 | an overrun or a mismatch marks the writes invalid, otherwise the position advances; the full size is reported either way |
| TestHandles.NotPrefixExtended | PacketStream.cpp:264-274 | once the writes have left the expectation, later writes never bring them back |
| TestHandles.Slot | PacketStream.cpp:313-317 | a wrapped index always lies inside the 2048-byte buffer |
| TestHandles.DropOldest | PacketStream.cpp:312-318 | taking the byte at `_head` takes the oldest byte held |
| TestHandles.AddNewest | PacketStream.cpp:328-334 | storing at `_tail` appends the byte while one slot stays free |
| TestHandles.LoopFileHandle.constructor | PacketStream.cpp:302-306 | the ring starts empty |
| TestHandles.LoopFileHandle.Used | PacketStream.cpp:353-359 | `_used` is the number of bytes held |
| TestHandles.LoopFileHandle.Free | PacketStream.cpp:362-364 | `_free` keeps one slot of the 2048 unused |
| TestHandles.LoopFileHandle.Pop | PacketStream.cpp:313-317 | one pass of `read`'s loop returns and drops the oldest byte |
| TestHandles.LoopFileHandle.Push | PacketStream.cpp:329-333 | one pass of `write`'s loop appends the byte |
| TestHandles.LoopFileHandle.Read | PacketStream.cpp:308-320 | `read` moves the oldest `min(size, used)` bytes out in FIFO order |
| TestHandles.LoopFileHandle.Write | PacketStream.cpp:322-337 | `write` appends all of the data, or returns -1 and changes nothing when it does not fit |
| SelfTest.Ramp | PacketStream.cpp:426-481 | the initialisation loops fill consecutive byte values |
| SelfTest.RunFrame | PacketStream.cpp:376-390 | a run of at most 254 non-zero bytes is held until the final chunk |
| SelfTest.FullRunThenByteFrame | PacketStream.cpp:448-459 | a 255th non-zero byte forces the 254 before it out as a full chunk |
| SelfTest.FullRunThenZeroFrame | PacketStream.cpp:461-472 | a zero after 254 non-zero bytes gives the forced chunk, then an empty one |
| SelfTest.RunThenZeroThenByteFrame | PacketStream.cpp:474-485 | a zero after a shorter run closes its chunk; the byte after it starts the final one |
| SelfTest.VectorEncodes | PacketStream.cpp:374-499 | every payload of the table encodes to its listed frame |
| SelfTest.VectorDecodes | PacketStream.cpp:374-499 | every frame of the table decodes to its payload, reading nothing after it |
| SelfTest.BadFrame | PacketStream.cpp:550-567 | the malformed frame `01 02 00` is a `CobsError` at its delimiter, with the decoder reset |
| SelfTest.EmptyFrame | PacketStream.cpp:578-593 | a lone delimiter is the empty packet |
| SelfTest.WriteTests | PacketStream.cpp:510-522 | the write half of `self_test` passes |
| SelfTest.ReadVector | PacketStream.cpp:525-547 | once a frame of the table has arrived, `read` returns its payload and length |
| SelfTest.ReadTests | PacketStream.cpp:524-548 | the read half of `self_test` passes |
| SelfTest.RecoveryTests | PacketStream.cpp:550-593 | the malformed frame fails, the frame after it decodes to `00`, and the empty frame reads as length 0 |
| SelfTest.Pump | PacketStream.cpp:322-337 | what the stream wrote passes through the ring buffer to the same stream's input |
| SelfTest.LoopbackTest | PacketStream.cpp:599-628 | a packet of fewer than 1024 bytes is read back through the loopback unchanged, with its length |
| SelfTest.NumberFormatRenders | PacketStream.cpp:633 | `"Number is %i"` prints the text and then the number |
| SelfTest.NumberTest | PacketStream.cpp:630-640 | a `rand()` number sent by `printf` comes back from `scanf` as one match of the same value |
| SelfTest.Run | PacketStream.cpp:501-643 | `self_test` returns true for every size and content `rand()` can pick |
| Remote.AsInt | RemoteFile.h:34 | `(int)size` is `size` below 2^31 and wraps to a negative value above it |
| Remote.ReadFormatRenders | RemoteFile.h:34 | the read request is `read,` followed by the size in decimal |
| Remote.SeekFormatRenders | RemoteFile.h:49 | the seek request is `seek,`, the offset, a comma and the origin, in decimal |
| Remote.PlainRenders | RemoteFile.h:41 | a request without conversions is sent as its own text |
| Remote.ReplyRoundTrip | RemoteFile.h:40-44 | a `%i` reply with a 32-bit value is returned as that value, and nothing after its frame is read |
| Remote.ReplyMissing | RemoteFile.h:48-51 | a reply that fails to decode, or an empty one, leaves `ret` at -1 |
| Remote.ReadResult | RemoteFile.h:32-37 | corrected: `read` returns the decoded length exactly when a packet was decoded, and a negative value otherwise |
| Remote.ReadResultAsWritten | RemoteFile.h:33-36 | as written: on success the decoded length; on failure whatever the uninitialised `actual` held |
| Remote.ReadFailureIndistinguishable | RemoteFile.h:33-36 | as written, a read that decoded nothing can return the same count as one that decoded a packet |
| Remote.RemoteFile.constructor | RemoteFile.h:28-30 | the file is bound to the stream |
| Remote.RemoteFile.Read | RemoteFile.h:32-37 | corrected (see Findings): `read` sends `read,<(int)size>`, decodes one reply packet into the buffer (at most `size` bytes kept) and returns its full length, or -1 when none was decoded |
| Remote.RemoteFile.Write | RemoteFile.h:39-45 | `write` sends `write`, then the data as its own frame, and returns the numeric reply or -1 |
| Remote.RemoteFile.Seek | RemoteFile.h:47-52 | `seek` sends `seek,<offset>,<whence>` and returns the numeric reply or -1 |
| Remote.RemoteFile.Close | RemoteFile.h:54-59 | `close` sends `close` and returns the numeric reply or -1 |
| Remote.RemoteFile.Answer | RemoteFile.h:43-44 | `int ret = -1; scanf("%i", &ret)` returns the reply's number, or -1 |
| PyCobs.StuffByte | update.py:324-343 | one pass of `cobs_encode`'s loop: the placeholder patched and the run carried exactly as the device's encoder step |
| PyCobs.CobsEncode | update.py:319-359 | `cobs_encode` builds the flushed chunks, the final chunk and, with `add_optional` after a full run, the extra `01` |
| PyCobs.StuffedFrame | update.py:319-359 | without the optional byte, the host's packet followed by a zero is exactly the device's frame of the same data |
| PyCobs.StuffedZeroFree | update.py:412-413 | an encoded packet never holds a zero |
| PyCobs.LastRunLength | update.py:326-343 | the run left at the end has `(t - 1) % 254 + 1` bytes for `t` non-zero bytes after the last zero, and none for `t == 0` |
| PyCobs.OptionalByte | update.py:345-354 | `add_optional` appends `01` exactly when the number of trailing non-zero bytes is a positive multiple of 254; otherwise the output is the default one |
| PyCobs.CobsDecode | update.py:362-381 | `cobs_decode` returns the decoded data, or raises when the last offset is wrong or a required optional byte is missing |
| PyCobs.PyChunk | update.py:367-375 | a chunk decodes to its implied zero (unless after a 255 marker or at the start), then its run |
| PyCobs.DecodeEncode | update.py:319-381 | decoding what was encoded gives the data back, except that `require_optional` rejects a packet encoded without the optional byte after a full run |
| PyCobs.RoundTrip | update.py:410-415 | the random round trip of `test_cobs`: no zero in the packet, and the data back |
| PyCobs.DecodersAgreeFrom | update.py:362-381 | from corresponding states (device counter equal to host counter plus one), the two decoders make the same bytes and end in agreement |
| PyCobs.DecodersAgree | update.py:362-381 | a zero-free packet decodes on the host exactly when the device, reading it with its delimiter, decodes it, and both give the same data |
| PyCobs.TestIsVector | update.py:385-396 | the host's table is the device's table without the empty packet, each packet without its delimiter |
| PyCobs.TestVector | update.py:403-409 | every pair of the table maps in both directions |
| PyCobs.TestCobs | update.py:403-416 | `test_cobs` passes for every random input |
| Host.Split | update.py:261 | `split(b',')` gives at least one field, none holding a comma |
| Host.JoinSplit | update.py:261 | splitting loses nothing: the fields joined by commas are the packet |
| Host.PyIntDecimal | update.py:276 | `int()` reads back every number `%i` prints |
| Host.Parse | update.py:261-265 | a request parses as the handler its first field names, with the other fields as its arguments through `int()`; an unknown first field is an error |
| Host.ParseRequest | update.py:249-265 | every request printed as the key and decimal arguments parses as that command |
| Host.Slice | update.py:278 | the slice is `_data[_pos:_pos + size]` with Python's clipping, within the data |
| Host.Overwrite | update.py:286 | slice assignment replaces the bytes from `_pos` on, keeps the rest, and extends the data when needed |
| Host.Clamp | update.py:307-310 | the position is clipped to `0..len(_data)` |
| Host.Connection.Recv | update.py:285 | `recv` returns the next packet, or fails when none is left |
| Host.Connection.Send | update.py:271 | `send` appends one packet to what was sent |
| Host.RemoteFile.constructor | update.py:242-254 | a new file holds the data at position 0, not finished |
| Host.RemoteFile.Read | update.py:275-282 | `read` sends the slice at `_pos` and advances past it, with no numeric reply |
| Host.RemoteFile.Write | update.py:284-290 | `write` takes the next packet, overwrites from `_pos`, advances past it and replies its length; it fails when no packet arrives |
| Host.RemoteFile.Seek | update.py:292-311 | an origin outside 0..2 replies -1 and stays; otherwise the position moves to the absolute, relative or end-based target, clamped to the data, and it is replied |
| Host.RemoteFile.Close | update.py:313-316 | `close` finishes the transfer and replies 0 |
| Host.Serve | update.py:265-316 | a handler fails only for `write` with no packet left; only `read` returns `None`; only `write` takes a packet or changes the data; only `read` sends one of its own; only `close` finishes; `seek` returns the new position or -1 |
| Host.RemoteFile.Dispatch | update.py:265 | the handler's result and the new file and connection are those of `Serve` on the parsed command |
| Host.Step | update.py:260-273 | one pass of the loop: a packet whose first field is no key stops it with `RuntimeError` having consumed that packet; it stops with the data exactly when `close` ran; `RecvFailed` only with no packet left; packets are taken from the front, and sent packets are only added to |
| Host.HostRun | update.py:256-273 | the loop as passes of `Step` until one stops |
| Host.HostRunEnds | update.py:256-273 | the whole loop returns the data exactly when `close` finished it, fails with `RecvFailed` only when no packet is left, consumes packets from the front and only adds to what it sent |
| Host.StepClose | update.py:270-273 | a `close` request replies `0` and stops the loop with the data |
| Host.StepRead | update.py:265-282 | a `read` request sends the slice and nothing else, advances past it, and the loop goes on |
| Host.StepWrite | update.py:265-290 | a `write` request stores the next packet at `_pos`, advances past it, replies its length in decimal, and the loop goes on |
| Host.StepWriteMissing | update.py:285 | a `write` request with no data packet after it stops the loop with the `recv` failure |
| Host.StepSeek | update.py:265-311 | a `seek` request moves to the clamped target and replies it, or replies `-1` and stays for an origin outside 0..2, and the loop goes on |
| Host.RemoteFile.Turn | update.py:260-273 | one pass of the loop changes the file and the connection exactly as `Step` does, and returns the result exactly when `Step` stops |
| Host.RemoteFile.Host | update.py:256-273 | the result, the new data, position and finished flag, the packets left and the packets sent are exactly those of `HostRun` on the old ones; the data is returned exactly when `close` finished the transfer |
| Host.Progress | update.py:132-141 | bars and whites make 20; for `pos >= 0` the bars lie in 0..20 and the percentage in 0..100; at or past the end, once `pos >= 1`, it shows 100% and 20 bars; at position 0 it shows 0% and no bars, so closing an empty file (`_progress(0, 0)`) shows 0% |
| Host.ProgressMonotone | update.py:132-141 | a later position never shows a lower percentage or fewer bars |
| Protocol.Delivered | update.py:126 | both ends frame a packet alike, and the host decodes the device's frame, without its delimiter, back to the packet |
| Protocol.SameRequest | RemoteFile.h:32-59 | the device prints the same request a host client would: the command key, then its decimal arguments after commas |
| Protocol.RequestUnderstood | update.py:249-265 | every request the device sends reaches the host as the command it stands for |
| Protocol.ReplyDelivered | update.py:270-271 | a numeric reply that fits a 32-bit `int` reaches the device as that number |
| Protocol.ReadDelivered | update.py:281 | the host's slice reaches the device's `read` as its decoded data and length |
| Protocol.ReadOutcome | RemoteFile.h:32-37 | for a size below 2^31, `(int)size` is the size, the host parses the request as a read of that size, and the device's `read` decodes the next `size` bytes of the host's data (fewer only at its end) and returns their count |
| Protocol.WriteOutcome | update.py:290 | `write` on the device returns the length the host stored |
| Protocol.SeekOutcome | update.py:292-311 | `seek` on the device returns the host's new position, inside the file, or -1 for an unknown origin |
| Protocol.CloseOutcome | update.py:313-316 | `close` on the device returns 0 |

## Left out

- The `mbed::FileHandle` interface is not modelled as an interface. `PacketStream` works on one concrete `FileHandle` class: the input still to be read, and a log of buffers written with scripted write counts. The mock and the ring buffer of `self_test` are separate classes. The model moves their bytes to and from the stream's handle (`SelfTest.Replay`, `SelfTest.Pump`) instead of plugging them in.
- `seek` and `close` of the two test doubles always return 0 and are never called; they are not modelled.
- `printf` sizes its output with a first `vsnprintf`, then formats again with the same `va_list`. Reusing the list like this is undefined behaviour in C. The model formats once.
- `printf`'s choice between a stack buffer and a heap buffer at `STRING_STACK_LIMIT` is memory management, not behaviour.
- `printf` and `scanf` are modelled for the `%i` conversion and ordinary bytes only. Other conversions are not part of this model.
- Stream.PacketStream.Scanf: `%i` values are unbounded integers. Overflow of a C `int` while scanning is not modelled.
- Host.PyInt: Python's `int()` also accepts `_` between digits; these are not modelled, and such fields are read as not a number.
- Host.RemoteFile.Host: the progress callback `_progress` and the error messages printed before re-raising are left out; stdout is I/O.
- Host.Progress: the bar string written to stdout is left out; the model computes the percentage and the bar counts.
- `print_hex` and `PACKET_STREAM_PRINTF` are no-op debug output.
- The frame recovery check of `self_test` (PacketStream.cpp:573-575) only prints. `SelfTest.RecoveryTests` proves the recovery holds, but `self_test`'s result does not depend on it.
- `rand()` is a parameter: the sizes and contents it picks are the arguments of `SelfTest.Run` and `PyCobs.TestCobs`. The properties are proved for all of them.
- The serial link (`SerialPacketStream`, pyserial, timeouts, baud switching) and the rest of update.py (`main`, argument parsing, `FpgaCiTestShield`) are I/O. The host's connection is a `Host.Connection` holding decoded packets. `Protocol` relates its packets to the device's frames.
- main.cpp and test_update.py are not part of this model: the first is a hardware-bound dispatch loop, the second a hardware integration script.
- A read that never meets a delimiter blocks on the device (the serial `read` waits). In the model, the input ends and the read reports `FileError`.
- Stream.PacketStream.Scanf: carries the corrected behaviour of the first and third Findings rows. As written, the source stores the terminator at `buf[actual]`, past the buffer for a reply of 65 bytes or more (`Stream.ScanfTerminatorOverrun`), and returns the count through a `bool`, so 2 and EOF become 1 (`Stream.ScanfResultAsWritten`).
- Remote.RemoteFile.Read: carries the corrected behaviour of the second Findings row, -1 on a failed read. As written, the source returns the uninitialised `actual` (`Remote.ReadResultAsWritten`).
- Remote.RemoteFile.Read: a `size` of 2^31 or more is sent as the negative `(int)size`, as in the source. `Protocol.ReadOutcome` only covers sizes below 2^31.

## Findings

| source | as written | input that shows it | evidently intended | confidence | as-written member | corrected member |
|---|---|---|---|---|---|---|
| PacketStream.cpp:71-74 | `read(buf, 64, &actual)` reports the packet's full length, and `buf[actual] = 0` stores the terminator at that index of the 65-byte buffer | a reply packet of 65 or more bytes | store the terminator at `min(actual, 64)` | not executed | Stream.ScanfTerminatorOverrun | Stream.ScanfTerminator |
| RemoteFile.h:33-36 | `actual` is returned even when `_stream->read` failed and never wrote it | the stream ends before a reply frame arrives | return -1 when `read` returns false | not executed | Remote.ReadFailureIndistinguishable | Remote.ReadResult |
| PacketStream.cpp:67-82 | `vsscanf`'s count is stored in `bool ret`, so `scanf` returns 1 for two matches and 1 for EOF | an empty reply scanned with `%i` (EOF), or a reply that matches two conversions | return the count or a negative value, as PacketStream.h:61-68 documents | not executed | Stream.ScanfResultTruncated | Stream.PacketStream.Scanf |
