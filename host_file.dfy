/**
 * The host side of the update protocol (update.py): `RemoteFile` serves a
 * `bytearray` to the device as a file, one request packet at a time, and
 * `update_progress` turns a position into a progress bar.
 *
 * The packet connection the host is given (`send`/`recv`, in the tool a
 * `SerialPacketStream`) is a `Connection` holding the packets still to
 * arrive and the packets sent, already decoded.
 */
module Host {
  import opened Bytes
  import opened Format

  const Comma: byte := 0x2C

  // ------------------------------------------------------- request parsing

  /** `bytes.split(b',')`: the fields between commas, at least one. */
  function Split(s: seq<byte>): (fields: seq<seq<byte>>)
    ensures |fields| >= 1
    ensures forall k :: 0 <= k < |fields| ==> Comma !in fields[k]
    decreases |s|
  {
    if s == [] then [[]]
    else
      var rest := Split(s[1..]);
      if s[0] == Comma then [[]] + rest
      else [[s[0]] + rest[0]] + rest[1..]
  }

  /** `b','.join(fields)`. */
  function Join(fields: seq<seq<byte>>): seq<byte>
    requires |fields| >= 1
    decreases |fields|
  {
    if |fields| == 1 then fields[0] else fields[0] + [Comma] + Join(fields[1..])
  }

  /** Splitting loses nothing: the fields joined by commas are the packet again. */
  lemma {:induction false} JoinSplit(s: seq<byte>)
    ensures Join(Split(s)) == s
    decreases |s|
  {
    if s != [] {
      var rest := Split(s[1..]);
      JoinSplit(s[1..]);
      if s[0] == Comma {
        assert Split(s) == [[]] + rest;
        assert ([[]] + rest)[1..] == rest;
        assert Join(Split(s)) == [] + [Comma] + Join(rest);
      } else {
        var fields := [[s[0]] + rest[0]] + rest[1..];
        assert Split(s) == fields;
        if |rest| == 1 {
          assert Join(fields) == [s[0]] + rest[0];
        } else {
          assert fields[1..] == rest[1..];
          assert Join(rest) == rest[0] + [Comma] + Join(rest[1..]);
          assert Join(fields) == [s[0]] + rest[0] + [Comma] + Join(rest[1..]);
        }
        assert s == [s[0]] + s[1..];
      }
    }
  }

  /** A comma-free field followed by a comma is split off first. */
  lemma {:induction false} SplitField(a: seq<byte>, b: seq<byte>)
    requires Comma !in a
    ensures Split(a + [Comma] + b) == [a] + Split(b)
    decreases |a|
  {
    if a == [] {
      assert [] + [Comma] + b == [Comma] + b;
      assert ([Comma] + b)[1..] == b;
    } else {
      var s := a + [Comma] + b;
      assert s[0] == a[0] && s[1..] == a[1..] + [Comma] + b;
      SplitField(a[1..], b);
      assert [a[0]] + a[1..] == a;
    }
  }

  /** A comma-free packet is one field. */
  lemma {:induction false} SplitPlain(a: seq<byte>)
    requires Comma !in a
    ensures Split(a) == [a]
    decreases |a|
  {
    if a != [] {
      SplitPlain(a[1..]);
      assert [a[0]] + a[1..] == a;
    }
  }

  /** `s` without its trailing white space. */
  function TrimEnd(s: seq<byte>): (r: seq<byte>)
    ensures |r| <= |s| && r == s[..|r|] && (r != [] ==> !IsSpace(r[|r| - 1]))
    decreases |s|
  {
    if s != [] && IsSpace(s[|s| - 1]) then TrimEnd(s[..|s| - 1]) else s
  }

  predicate AllDigits(s: seq<byte>)
  {
    forall i :: 0 <= i < |s| ==> IsDigit(s[i])
  }

  /**
   * `int(field)` on a byte string: white space around an optional sign and
   * at least one decimal digit; `None` where Python raises `ValueError`.
   */
  function PyInt(field: seq<byte>): (r: Option<int>)
  {
    var t := TrimEnd(SkipSpace(field));
    var signed := t != [] && (t[0] == Minus || t[0] == Plus);
    var body := if signed then t[1..] else t;
    var v: int := Value(body, 10);
    if body == [] || !AllDigits(body) then None
    else if signed && t[0] == Minus then Some(-v)
    else Some(v)
  }

  /** What `%i` prints, the host reads back. */
  lemma PyIntDecimal(n: int)
    ensures PyInt(Decimal(n)) == Some(n)
  {
    var s := Decimal(n);
    var m := if n < 0 then -n else n;
    DigitsValue(m);
    assert SkipSpace(s) == s;
    assert TrimEnd(s) == s;
    if n < 0 {
      assert s[1..] == Digits(m);
    }
  }

  /** A printed number holds no comma and no white space. */
  lemma DecimalPlain(n: int)
    ensures Comma !in Decimal(n)
    ensures forall i :: 0 <= i < |Decimal(n)| ==> !IsSpace(Decimal(n)[i])
  {
    var m := if n < 0 then -n else n;
    var d := Digits(m);
    if n < 0 {
      assert forall i :: 1 <= i < |Decimal(n)| ==> Decimal(n)[i] == d[i - 1];
    }
  }

  /** The keys of `self.commands`. */
  const CloseKey: seq<byte> := [0x63, 0x6C, 0x6F, 0x73, 0x65]
  const ReadKey: seq<byte> := [0x72, 0x65, 0x61, 0x64]
  const WriteKey: seq<byte> := [0x77, 0x72, 0x69, 0x74, 0x65]
  const SeekKey: seq<byte> := [0x73, 0x65, 0x65, 0x6B]

  /** A request as the handler it selects receives it: the arguments already through `int()`. */
  datatype Command = ReadCmd(size: int) | WriteCmd | SeekCmd(offset: int, origin: int) | CloseCmd

  /**
   * The exceptions that end `host`: `RuntimeError` for an unknown command,
   * `TypeError` for the wrong number of fields, `ValueError` from `int()`,
   * and whatever `recv` raises when no packet arrives.
   */
  datatype HostError = UnknownCommand | WrongArguments | NotANumber | RecvFailed

  function Key(c: Command): seq<byte>
  {
    match c
    case ReadCmd(_) => ReadKey
    case WriteCmd => WriteKey
    case SeekCmd(_, _) => SeekKey
    case CloseCmd => CloseKey
  }

  function Args(c: Command): seq<int>
  {
    match c
    case ReadCmd(size) => [size]
    case WriteCmd => []
    case SeekCmd(offset, origin) => [offset, origin]
    case CloseCmd => []
  }

  /**
   * How `host` reads one request: the first field selects the handler and
   * the others are its arguments.
   */
  function Parse(pkt: seq<byte>): (r: Result<Command, HostError>)
    ensures r.Ok? ==> Split(pkt)[0] == Key(r.value) && |Split(pkt)| == 1 + |Args(r.value)|
    ensures r.Ok? ==> forall k :: 0 <= k < |Args(r.value)| ==> PyInt(Split(pkt)[k + 1]) == Some(Args(r.value)[k])
    ensures r == Err(UnknownCommand) <==> Split(pkt)[0] !in {CloseKey, ReadKey, WriteKey, SeekKey}
  {
    var fields := Split(pkt);
    var name := fields[0];
    var args := fields[1..];
    if name == CloseKey then
      if |args| == 0 then Ok(CloseCmd) else Err(WrongArguments)
    else if name == ReadKey then
      if |args| != 1 then Err(WrongArguments)
      else match PyInt(args[0])
        case None => Err(NotANumber)
        case Some(size) => Ok(ReadCmd(size))
    else if name == WriteKey then
      if |args| == 0 then Ok(WriteCmd) else Err(WrongArguments)
    else if name == SeekKey then
      if |args| != 2 then Err(WrongArguments)
      else match (PyInt(args[0]), PyInt(args[1]))
        case (Some(offset), Some(origin)) => Ok(SeekCmd(offset, origin))
        case _ => Err(NotANumber)
    else Err(UnknownCommand)
  }

  /** A request the way a client prints it: the key and each argument in decimal, comma separated. */
  function Request(c: Command): seq<byte>
  {
    match c
    case ReadCmd(size) => ReadKey + [Comma] + Decimal(size)
    case WriteCmd => WriteKey
    case SeekCmd(offset, origin) => SeekKey + [Comma] + Decimal(offset) + [Comma] + Decimal(origin)
    case CloseCmd => CloseKey
  }

  /** Every request a client prints is understood as the command it stands for. */
  lemma ParseRequest(c: Command)
    ensures Parse(Request(c)) == Ok(c)
  {
    match c
    case ReadCmd(size) => ParseRead(size);
    case WriteCmd => SplitPlain(WriteKey);
    case SeekCmd(offset, origin) => ParseSeek(offset, origin);
    case CloseCmd => SplitPlain(CloseKey);
  }

  lemma ParseRead(size: int)
    ensures Parse(Request(ReadCmd(size))) == Ok(ReadCmd(size))
  {
    DecimalPlain(size);
    SplitField(ReadKey, Decimal(size));
    SplitPlain(Decimal(size));
    var fields := Split(Request(ReadCmd(size)));
    assert fields == [ReadKey, Decimal(size)];
    assert fields[1..] == [Decimal(size)];
    PyIntDecimal(size);
  }

  lemma ParseSeek(offset: int, origin: int)
    ensures Parse(Request(SeekCmd(offset, origin))) == Ok(SeekCmd(offset, origin))
  {
    var pkt := Request(SeekCmd(offset, origin));
    DecimalPlain(offset);
    DecimalPlain(origin);
    SplitThree(SeekKey, Decimal(offset), Decimal(origin));
    PyIntDecimal(offset);
    PyIntDecimal(origin);
    ParseSeekFields(pkt, offset, origin);
  }

  /** Three comma-free fields joined by commas split back into those fields. */
  lemma SplitThree(k: seq<byte>, a: seq<byte>, b: seq<byte>)
    requires Comma !in k && Comma !in a && Comma !in b
    ensures Split(k + [Comma] + a + [Comma] + b) == [k, a, b]
  {
    var tail := a + [Comma] + b;
    SplitField(a, b);
    SplitPlain(b);
    assert Split(tail) == [a, b];
    assert k + [Comma] + a + [Comma] + b == k + [Comma] + tail;
    SplitField(k, tail);
  }

  /** A packet whose fields are the seek key and two numbers is a seek. */
  lemma ParseSeekFields(pkt: seq<byte>, offset: int, origin: int)
    requires |Split(pkt)| == 3 && Split(pkt)[0] == SeekKey
    requires PyInt(Split(pkt)[1]) == Some(offset) && PyInt(Split(pkt)[2]) == Some(origin)
    ensures Parse(pkt) == Ok(SeekCmd(offset, origin))
  {
    var args := Split(pkt)[1..];
    assert args[0] == Split(pkt)[1] && args[1] == Split(pkt)[2];
  }

  // ----------------------------------------------------------- file state

  /** `s[lo:hi]` with Python's rules: negative bounds count from the end, and bounds are clipped. */
  function Slice(s: seq<byte>, lo: int, hi: int): (r: seq<byte>)
    ensures |r| <= |s|
    ensures 0 <= lo <= |s| && lo <= hi ==> r == s[lo..Min(hi, |s|)]
    ensures 0 <= lo <= |s| ==> lo + |r| <= |s|
  {
    var lo' := PyIndex(lo, |s|);
    var hi' := PyIndex(hi, |s|);
    if lo' < hi' then s[lo'..hi'] else []
  }

  /** Where a slice bound lands in a sequence of `n` elements. */
  function PyIndex(i: int, n: nat): (j: nat)
    ensures j <= n
    ensures 0 <= i <= n ==> j == i
    ensures i > n ==> j == n
    ensures i < 0 ==> j == Max(i + n, 0)
  {
    if i < 0 then Max(i + n, 0) else Min(i, n)
  }

  function Max(a: int, b: int): int
  {
    if a >= b then a else b
  }

  /**
   * `s[pos:pos + len(d)] = d`: `d` replaces the bytes from `pos` on, and
   * whatever it does not cover stays; past the end the array grows.
   */
  function Overwrite(s: seq<byte>, pos: nat, d: seq<byte>): (r: seq<byte>)
    requires pos <= |s|
    ensures |r| == Max(|s|, pos + |d|)
    ensures r[..pos] == s[..pos] && r[pos..pos + |d|] == d
    ensures pos + |d| < |s| ==> r[pos + |d|..] == s[pos + |d|..]
  {
    var r := s[..pos] + d + s[Min(pos + |d|, |s|)..];
    assert r[pos..pos + |d|] == d;
    r
  }

  /** A position clipped to `0..n`. */
  function Clamp(x: int, n: nat): (r: nat)
    ensures r <= n
    ensures 0 <= x <= n ==> r == x
    ensures x < 0 ==> r == 0
    ensures x > n ==> r == n
  {
    if x < 0 then 0 else if x > n then n else x
  }

  /** Where `seek` moves from `pos` in a file of `size` bytes, before clamping. */
  function SeekTarget(pos: int, size: nat, offset: int, origin: int): int
  {
    if origin == 0 then offset else if origin == 1 then pos + offset else size + offset
  }

  // ------------------------------------------------------ the serving loop

  /**
   * Everything a `host` loop works on: the file (`_data`, `_pos`,
   * `_finished`) and the connection (packets still to arrive, packets sent).
   */
  datatype HostState = HostState(data: seq<byte>, pos: int, finished: bool,
                                 incoming: seq<seq<byte>>, sent: seq<seq<byte>>)

  predicate InFile(s: HostState)
  {
    0 <= s.pos <= |s.data|
  }

  /**
   * What `self.commands[cmd[0]](*cmd[1:])` does to the state, and the value
   * the handler returns (`None` for `read`).
   */
  function Serve(s: HostState, c: Command): (o: (Result<Option<int>, HostError>, HostState))
    requires InFile(s)
    ensures InFile(o.1)
    ensures o.0.Err? <==> c == WriteCmd && s.incoming == []
    ensures o.0.Err? ==> o.0 == Err(RecvFailed) && o.1 == s
    ensures o.0.Ok? && o.0.value.None? <==> c.ReadCmd?
    ensures o.1.incoming == s.incoming || (c == WriteCmd && o.1.incoming == s.incoming[1..])
    ensures o.1.finished <==> s.finished || c == CloseCmd
    ensures o.1.data != s.data ==> c == WriteCmd
    ensures o.1.sent == s.sent || (c.ReadCmd? && |o.1.sent| == |s.sent| + 1 && o.1.sent[..|s.sent|] == s.sent)
    ensures c.SeekCmd? ==> o.0 == Ok(Some(if c.origin in {0, 1, 2} then o.1.pos else -1))
  {
    match c
    case ReadCmd(size) =>
      var d := Slice(s.data, s.pos, s.pos + size);
      (Ok(None), s.(pos := s.pos + |d|, sent := s.sent + [d]))
    case WriteCmd =>
      if s.incoming == [] then (Err(RecvFailed), s)
      else
        var d := s.incoming[0];
        (Ok(Some(|d|)), s.(data := Overwrite(s.data, s.pos, d), pos := s.pos + |d|, incoming := s.incoming[1..]))
    case SeekCmd(offset, origin) =>
      if origin !in {0, 1, 2} then (Ok(Some(-1 as int)), s)
      else
        var p := Clamp(SeekTarget(s.pos, |s.data|, offset, origin), |s.data|);
        (Ok(Some(p)), s.(pos := p))
    case CloseCmd =>
      (Ok(Some(0)), s.(finished := true))
  }

  /** The packet a handler's result is sent back as, after the handler's own packets. */
  function Reply(sent: seq<seq<byte>>, v: Option<int>): seq<seq<byte>>
  {
    match v
    case None => sent
    case Some(n) => sent + [Decimal(n)]
  }

  /** How one pass of `host`'s loop ends: stopping with a result, or going round again. */
  datatype Pass = Stop(result: Result<seq<byte>, HostError>, state: HostState) | Go(state: HostState)

  /** `rest` is what is left of `xs` after packets were taken from its front. */
  predicate Rest(rest: seq<seq<byte>>, xs: seq<seq<byte>>)
  {
    |rest| <= |xs| && rest == xs[|xs| - |rest|..]
  }

  /** `xs` extends `ys`: nothing sent is taken back. */
  predicate Extends(xs: seq<seq<byte>>, ys: seq<seq<byte>>)
  {
    |ys| <= |xs| && xs[..|ys|] == ys
  }

  /**
   * One pass of `host`'s loop: receive a packet, split it, dispatch it on
   * its first field, send the decimal result unless it is `None`, and stop
   * with the data once `close` has run. The first exception stops it: no
   * packet (`RecvFailed`), an unknown key, wrong arity or a bad number.
   */
  function Step(s: HostState): (t: Pass)
    requires InFile(s)
    ensures InFile(t.state)
    ensures t.Stop? && t.result.Ok? ==> t.state.finished && t.result.value == t.state.data
    ensures !s.finished ==> (t.state.finished <==> t.Stop? && t.result.Ok?)
    ensures t == Stop(Err(RecvFailed), t.state) ==> t.state.incoming == []
    ensures Rest(t.state.incoming, s.incoming) && (t.Go? ==> |t.state.incoming| < |s.incoming|)
    ensures Extends(t.state.sent, s.sent)
    ensures s.incoming != [] && Split(s.incoming[0])[0] !in {CloseKey, ReadKey, WriteKey, SeekKey} ==>
              t == Stop(Err(UnknownCommand), s.(incoming := s.incoming[1..]))
  {
    if s.incoming == [] then Stop(Err(RecvFailed), s)
    else
      var s1 := s.(incoming := s.incoming[1..]);
      match Parse(s.incoming[0])
      case Err(e) => Stop(Err(e), s1)
      case Ok(c) =>
        var (ret, s2) := Serve(s1, c);
        match ret
        case Err(e) => Stop(Err(e), s2)
        case Ok(v) =>
          var s3 := s2.(sent := Reply(s2.sent, v));
          if s3.finished then Stop(Ok(s3.data), s3) else Go(s3)
  }

  /** `host`'s loop on a state: passes until one stops. */
  function HostRun(s: HostState): (o: (Result<seq<byte>, HostError>, HostState))
    requires InFile(s)
    ensures InFile(o.1)
    decreases |s.incoming|
  {
    match Step(s)
    case Stop(r, t) => (r, t)
    case Go(t) => HostRun(t)
  }

  /**
   * How a `host` loop ends: with the data exactly when `close` finished the
   * transfer, with `RecvFailed` only once no packet is left, having consumed
   * packets from the front and only added to what was sent.
   */
  lemma {:induction false} HostRunEnds(s: HostState)
    requires InFile(s)
    ensures var o := HostRun(s);
            (o.0.Ok? ==> o.1.finished && o.0.value == o.1.data) &&
            (!s.finished ==> (o.0.Ok? <==> o.1.finished)) &&
            (o.0 == Err(RecvFailed) ==> o.1.incoming == []) &&
            Rest(o.1.incoming, s.incoming) && Extends(o.1.sent, s.sent)
    decreases |s.incoming|
  {
    var t := Step(s);
    if t.Go? {
      HostRunEnds(t.state);
      var o := HostRun(t.state);
      assert Rest(o.1.incoming, s.incoming) by {
        assert s.incoming[|s.incoming| - |t.state.incoming|..][|t.state.incoming| - |o.1.incoming|..]
            == s.incoming[|s.incoming| - |o.1.incoming|..];
      }
      assert Extends(o.1.sent, s.sent) by {
        assert o.1.sent[..|t.state.sent|][..|s.sent|] == o.1.sent[..|s.sent|];
      }
    }
  }

  /** A `close` request stops the loop with the data, after replying 0. */
  lemma StepClose(s: HostState, rest: seq<seq<byte>>)
    requires InFile(s) && s.incoming == [Request(CloseCmd)] + rest
    ensures Step(s) == Stop(Ok(s.data), s.(finished := true, incoming := rest, sent := s.sent + [Decimal(0)]))
  {
    ParseRequest(CloseCmd);
    assert s.incoming[0] == Request(CloseCmd) && s.incoming[1..] == rest;
  }

  /** A `read` request is answered by the slice alone, and the loop goes round again. */
  lemma StepRead(s: HostState, size: int, rest: seq<seq<byte>>)
    requires InFile(s) && !s.finished && s.incoming == [Request(ReadCmd(size))] + rest
    ensures var d := Slice(s.data, s.pos, s.pos + size);
            Step(s) == Go(s.(pos := s.pos + |d|, incoming := rest, sent := s.sent + [d]))
  {
    ParseRequest(ReadCmd(size));
    assert s.incoming[0] == Request(ReadCmd(size)) && s.incoming[1..] == rest;
  }

  /**
   * A `write` request takes the next packet as the data, stores it at the
   * position and replies its length, and the loop goes round again.
   */
  lemma StepWrite(s: HostState, d: seq<byte>, rest: seq<seq<byte>>)
    requires InFile(s) && !s.finished && s.incoming == [Request(WriteCmd), d] + rest
    ensures Step(s) == Go(s.(data := Overwrite(s.data, s.pos, d), pos := s.pos + |d|,
                             incoming := rest, sent := s.sent + [Decimal(|d|)]))
  {
    ParseRequest(WriteCmd);
    assert s.incoming[0] == Request(WriteCmd) && s.incoming[1..] == [d] + rest;
    assert ([d] + rest)[1..] == rest;
  }

  /** A `write` request with no data packet after it stops the loop with `RecvFailed`. */
  lemma StepWriteMissing(s: HostState)
    requires InFile(s) && s.incoming == [Request(WriteCmd)]
    ensures Step(s) == Stop(Err(RecvFailed), s.(incoming := []))
  {
    ParseRequest(WriteCmd);
  }

  /** A `seek` request moves to the clamped target and replies it, or replies -1 for a bad origin and stays. */
  lemma StepSeek(s: HostState, offset: int, origin: int, rest: seq<seq<byte>>)
    requires InFile(s) && !s.finished && s.incoming == [Request(SeekCmd(offset, origin))] + rest
    ensures var p := if origin in {0, 1, 2} then Clamp(SeekTarget(s.pos, |s.data|, offset, origin), |s.data|) else s.pos;
            var v := if origin in {0, 1, 2} then p else -1;
            Step(s) == Go(s.(pos := p, incoming := rest, sent := s.sent + [Decimal(v)]))
  {
    ParseRequest(SeekCmd(offset, origin));
    assert s.incoming[0] == Request(SeekCmd(offset, origin)) && s.incoming[1..] == rest;
  }

  /** The packets a `host` loop still expects, and those it has sent. */
  class Connection {
    var incoming: seq<seq<byte>>
    var sent: seq<seq<byte>>

    constructor (incoming: seq<seq<byte>>)
      ensures this.incoming == incoming && sent == []
    {
      this.incoming := incoming;
      sent := [];
    }

    /** `recv`: the next packet, or `None` where it raises. */
    method Recv() returns (p: Option<seq<byte>>)
      modifies this
      ensures sent == old(sent)
      ensures if old(incoming) == [] then p == None && incoming == []
              else p == Some(old(incoming)[0]) && incoming == old(incoming)[1..]
    {
      if incoming == [] {
        return None;
      }
      p := Some(incoming[0]);
      incoming := incoming[1..];
    }

    /** `send`. */
    method Send(p: seq<byte>)
      modifies this
      ensures sent == old(sent) + [p] && incoming == old(incoming)
    {
      sent := sent + [p];
    }
  }

  /** `RemoteFile` of update.py: a byte array with a position, served to the device. */
  class RemoteFile {
    /** `_data`. */
    var data: seq<byte>
    /** `_finished`. */
    var finished: bool
    /** `_pos`. */
    var pos: int

    /** The position never leaves the data. */
    ghost predicate Valid()
      reads this
    {
      0 <= pos <= |data|
    }

    constructor (data: seq<byte>)
      ensures Valid() && this.data == data && !finished && pos == 0
    {
      this.data := data;
      finished := false;
      pos := 0;
    }

    /** `read`: sends `_data[_pos:_pos + size]` and moves past it; no status reply. */
    method Read(size: int, conn: Connection) returns (ret: Option<int>)
      requires Valid()
      modifies this, conn
      ensures Valid() && ret == None && data == old(data) && finished == old(finished)
      ensures var s := Slice(old(data), old(pos), old(pos) + size);
              conn.sent == old(conn.sent) + [s] && pos == old(pos) + |s|
      ensures conn.incoming == old(conn.incoming)
    {
      var s := Slice(data, pos, pos + size);
      pos := pos + |s|;
      conn.Send(s);
      return None;
    }

    /** `write`: takes the next packet as data, writes it at `_pos` and moves past it; replies its length. */
    method Write(conn: Connection) returns (ret: Result<Option<int>, HostError>)
      requires Valid()
      modifies this, conn
      ensures Valid() && finished == old(finished) && conn.sent == old(conn.sent)
      ensures if old(conn.incoming) == []
              then ret == Err(RecvFailed) && data == old(data) && pos == old(pos) && conn.incoming == []
              else var d := old(conn.incoming)[0];
                   data == Overwrite(old(data), old(pos), d) && pos == old(pos) + |d| &&
                   ret == Ok(Some(|d|)) && conn.incoming == old(conn.incoming)[1..]
    {
      var d := conn.Recv();
      if d.None? {
        return Err(RecvFailed);
      }
      data := Overwrite(data, pos, d.value);
      pos := pos + |d.value|;
      return Ok(Some(|d.value|));
    }

    /**
     * `seek`: for an origin of 0, 1 or 2, moves to the absolute, relative or
     * end-based position, clipped to the data, and replies it; otherwise
     * replies -1 and stays.
     */
    method Seek(offset: int, origin: int) returns (ret: Option<int>)
      requires Valid()
      modifies this
      ensures Valid() && data == old(data) && finished == old(finished)
      ensures if origin != 0 && origin != 1 && origin != 2 then ret == Some(-1) && pos == old(pos)
              else pos == Clamp(SeekTarget(old(pos), |data|, offset, origin), |data|) && ret == Some(pos)
    {
      if origin != 0 && origin != 1 && origin != 2 {
        return Some(-1);
      }
      if origin == 0 {
        pos := offset;
      } else if origin == 1 {
        pos := pos + offset;
      } else {
        pos := |data| + offset;
      }
      if pos < 0 {
        pos := 0;
      }
      if pos > |data| {
        pos := |data|;
      }
      return Some(pos);
    }

    /** `close`: marks the transfer finished and replies 0. */
    method Close() returns (ret: Option<int>)
      requires Valid()
      modifies this
      ensures Valid() && finished && ret == Some(0) && data == old(data) && pos == old(pos)
    {
      finished := true;
      return Some(0);
    }

    /** The file and the connection as one value. */
    function State(conn: Connection): HostState
      reads this, conn
    {
      HostState(data, pos, finished, conn.incoming, conn.sent)
    }

    /** `self.commands[cmd[0]](*cmd[1:])` on a parsed request. */
    method Dispatch(c: Command, conn: Connection) returns (ret: Result<Option<int>, HostError>)
      requires Valid()
      modifies this, conn
      ensures Valid()
      ensures (ret, State(conn)) == Serve(old(State(conn)), c)
    {
      match c
      case ReadCmd(size) =>
        var r := Read(size, conn);
        return Ok(r);
      case WriteCmd =>
        ret := Write(conn);
      case SeekCmd(offset, origin) =>
        var r := Seek(offset, origin);
        return Ok(r);
      case CloseCmd =>
        var r := Close();
        return Ok(r);
    }

    /**
     * One pass of `host`'s loop on the state `s`: receive, split, dispatch,
     * reply unless the result is `None`. It returns the result when an
     * exception ended the loop or `close` ran, and `None` to go round again.
     */
    method Turn(conn: Connection, ghost s: HostState) returns (stop: Option<Result<seq<byte>, HostError>>)
      requires Valid() && State(conn) == s
      modifies this, conn
      ensures Valid()
      ensures State(conn) == Step(s).state
      ensures stop.Some? <==> Step(s).Stop?
      ensures stop.Some? ==> stop.value == Step(s).result
    {
      var pkt := conn.Recv();
      if pkt.None? {
        assert s.incoming == [] && State(conn) == s;
        return Some(Err(RecvFailed));
      }
      ghost var s1 := State(conn);
      assert s1 == s.(incoming := s.incoming[1..]);
      var c := Parse(pkt.value);
      if c.Err? {
        return Some(Err(c.error));
      }
      var ret := Dispatch(c.value, conn);
      if ret.Err? {
        return Some(Err(ret.error));
      }
      ghost var s2 := State(conn);
      if ret.value.Some? {
        conn.Send(Decimal(ret.value.value));
      }
      assert State(conn) == s2.(sent := Reply(s2.sent, ret.value));
      if finished {
        return Some(Ok(data));
      }
      return None;
    }

    /**
     * `host`: serves requests until one fails or `close` finishes the
     * transfer, then returns the data. Every result but `read`'s is sent back
     * in decimal.
     */
    method Host(conn: Connection) returns (r: Result<seq<byte>, HostError>)
      requires Valid() && !finished
      modifies this, conn
      ensures Valid()
      ensures (r, State(conn)) == HostRun(old(State(conn)))
      ensures r.Ok? <==> finished
      ensures r.Ok? ==> r.value == data
      ensures r == Err(RecvFailed) ==> conn.incoming == []
      ensures |conn.incoming| <= |old(conn.incoming)| && conn.incoming == old(conn.incoming)[|old(conn.incoming)| - |conn.incoming|..]
    {
      ghost var s0 := State(conn);
      while true
        invariant Valid() && s0 == old(State(conn))
        invariant HostRun(State(conn)) == HostRun(s0)
        decreases |conn.incoming|
      {
        ghost var s := State(conn);
        var stop := Turn(conn, s);
        if stop.Some? {
          r := stop.value;
          HostRunEnds(s0);
          return;
        }
      }
    }
  }

  // --------------------------------------------------------------- progress

  const TotalBars: nat := 20

  datatype Bar = Bar(percent: int, bars: int, whites: int)

  /**
   * The numbers `update_progress` prints for `pos` of `size` bytes: a size of
   * at most 0 counts as 1, and a position past the end as the end (`//` on a
   * positive divisor rounds down, as Dafny's `/` does).
   */
  function Progress(pos: int, size: int): (b: Bar)
    ensures b.bars + b.whites == TotalBars
    ensures pos >= 0 ==> 0 <= b.bars <= TotalBars && 0 <= b.percent <= 100
    ensures pos >= size && pos >= 1 ==> b.percent == 100 && b.bars == TotalBars
    ensures pos == 0 ==> b.percent == 0 && b.bars == 0
  {
    var size' := if size <= 0 then 1 else size;
    var pos' := if pos > size' then size' else pos;
    ScaleBound(pos', 100, size');
    ScaleBound(pos', TotalBars, size');
    var percent := (pos' * 100) / size';
    var bars := pos' * TotalBars / size';
    Bar(percent, bars, TotalBars - bars)
  }

  /** The bar never moves back: a later position shows at least the same percentage and bars. */
  lemma ProgressMonotone(p: int, q: int, size: int)
    requires 0 <= p <= q
    ensures Progress(p, size).percent <= Progress(q, size).percent
    ensures Progress(p, size).bars <= Progress(q, size).bars
  {
    var size' := if size <= 0 then 1 else size;
    var p' := if p > size' then size' else p;
    var q' := if q > size' then size' else q;
    MulMonotone(100, p', q');
    DivMonotone(p' * 100, q' * 100, size');
    MulMonotone(TotalBars, p', q');
    DivMonotone(p' * TotalBars, q' * TotalBars, size');
  }

  /** A fraction `a / n` of `k`, rounded down, lies in `0..k`, and is `k` at the end. */
  lemma ScaleBound(a: int, k: nat, n: int)
    requires n >= 1 && a <= n
    ensures 0 <= a ==> 0 <= a * k / n <= k
    ensures a == n ==> a * k / n == k
  {
    if 0 <= a {
      MulMonotone(k, a, n);
      assert n * k / n == k by {
        DivExact(k, n);
      }
      DivMonotone(a * k, n * k, n);
    }
  }

  lemma MulMonotone(k: nat, a: int, b: int)
    requires 0 <= a <= b
    ensures 0 <= a * k <= b * k
  {
    var d := b - a;
    assert b * k == a * k + d * k;
  }

  lemma DivExact(k: nat, n: int)
    requires n >= 1
    ensures n * k / n == k
  {
    var q, r := n * k / n, n * k % n;
    assert n * (k - q) == r;
    NonNegative(n, k - q);
    NonNegative(n, q - k);
  }

  lemma DivMonotone(x: int, y: int, n: int)
    requires n >= 1 && 0 <= x <= y
    ensures 0 <= x / n <= y / n
  {
    var qx, qy := x / n, y / n;
    assert n * qx == x - x % n;
    NonNegative(n, qx);
    assert n * (qy - qx) == (y - x) + x % n - y % n;
    NonNegative(n, qy - qx);
  }

  /** A multiple of a positive `n` above `-n` is of a non-negative factor. */
  lemma NonNegative(n: int, d: int)
    requires n >= 1 && n * d > -n
    ensures d >= 0
  {
    if d < 0 {
      MulMonotone(n, 1, -d);
      assert false;
    }
  }
}
