/**
 * The part of the C library's formatted I/O that `PacketStream::printf` and
 * `PacketStream::scanf` (PacketStream.cpp) rely on: format strings built from
 * ordinary bytes, white space and the `%i` conversion, rendered by `vsnprintf`
 * and scanned back by `vsscanf` as section 7.21.6 of ISO/IEC 9899:2011 (C11)
 * describes them.
 *
 * Strings are byte strings, as in C; a C string ends at its first NUL.
 */
module Format {
  import opened Bytes

  const Nul: byte := 0
  const Percent: byte := 37    // '%'
  const LowerI: byte := 105    // 'i'
  const Minus: byte := 45      // '-'
  const Plus: byte := 43       // '+'
  const Zero: byte := 48       // '0'
  const LowerX: byte := 120    // 'x'
  const UpperX: byte := 88     // 'X'

  /** `isspace` in the "C" locale: space, tab, newline, vertical tab, form feed, carriage return. */
  predicate IsSpace(b: byte)
  {
    b == 32 || 9 <= b <= 13
  }

  predicate IsDigit(b: byte)
  {
    48 <= b <= 57
  }

  /** The value of a digit or letter in bases up to 16; 16 for anything else. */
  function DigitValue(b: byte): (v: nat)
    ensures v <= 16
    ensures IsDigit(b) ==> v == b - 48
  {
    if 48 <= b <= 57 then b - 48
    else if 97 <= b <= 102 then b - 87
    else if 65 <= b <= 70 then b - 55
    else 16
  }

  predicate IsDigitIn(b: byte, base: nat)
  {
    DigitValue(b) < base
  }

  // --------------------------------------------------------------- rendering

  /** The decimal digits of `n`, most significant first, without leading zeros. */
  function Digits(n: nat): (s: seq<byte>)
    ensures 1 <= |s| && forall i :: 0 <= i < |s| ==> IsDigit(s[i])
    ensures s[0] == Zero ==> n == 0
    decreases n
  {
    if n < 10 then [Zero + n] else Digits(n / 10) + [Zero + n % 10]
  }

  function Pow10(k: nat): nat
  {
    if k == 0 then 1 else 10 * Pow10(k - 1)
  }

  /** A number below 10^k has at most k digits. */
  lemma {:induction false} DigitsLength(n: nat, k: nat)
    requires 1 <= k && n < Pow10(k)
    ensures |Digits(n)| <= k
    decreases k
  {
    if n >= 10 {
      assert k >= 2;
      DigitsLength(n / 10, k - 1);
    }
  }

  /** What `%i` prints for `n`: a minus sign for negative values, then the digits. */
  function Decimal(n: int): (s: seq<byte>)
  {
    if n < 0 then [Minus] + Digits(-n) else Digits(n)
  }

  /** The number of `%i` conversions in `fmt`, which is the number of arguments it takes. */
  function Conversions(fmt: seq<byte>): nat
    decreases |fmt|
  {
    if fmt == [] then 0
    else if fmt[0] == Percent && |fmt| >= 2 then 1 + Conversions(fmt[2..])
    else Conversions(fmt[1..])
  }

  /**
   * A format string the model covers: a C string (no NUL inside) in which every
   * `%` starts a `%i` conversion.
   */
  predicate WellFormed(fmt: seq<byte>)
    decreases |fmt|
  {
    if fmt == [] then true
    else if fmt[0] == Percent then |fmt| >= 2 && fmt[1] == LowerI && WellFormed(fmt[2..])
    else fmt[0] != Nul && WellFormed(fmt[1..])
  }

  /** A byte that, printed right after a number, `%i` would read as part of it. */
  predicate Continues(b: byte)
  {
    IsDigit(b) || b == LowerX || b == UpperX || b == Percent
  }

  /**
   * No conversion is followed by something that would run into the printed
   * number: a digit, an `x` or `X` (after a printed `0`, a hexadecimal prefix),
   * or another conversion.
   */
  predicate Separated(fmt: seq<byte>)
  {
    forall i :: 0 <= i < |fmt| - 2 && fmt[i] == Percent ==> !Continues(fmt[i + 2])
  }

  /** `vsnprintf(fmt, args)`: the ordinary bytes copied, every `%i` replaced by its argument in decimal. */
  function Render(fmt: seq<byte>, args: seq<int>): (s: seq<byte>)
    requires WellFormed(fmt) && |args| == Conversions(fmt)
    ensures ZeroFree(s)
    ensures fmt != [] && fmt[0] != Percent ==> s != [] && s[0] == fmt[0]
    decreases |fmt|
  {
    if fmt == [] then []
    else if fmt[0] == Percent then Decimal(args[0]) + Render(fmt[2..], args[1..])
    else [fmt[0]] + Render(fmt[1..], args)
  }

  /** Ordinary bytes in front of a format are printed as they are. */
  lemma {:induction false} RenderLiteral(lit: seq<byte>, fmt: seq<byte>, args: seq<int>)
    requires forall i :: 0 <= i < |lit| ==> lit[i] != Percent && lit[i] != Nul
    requires WellFormed(fmt) && |args| == Conversions(fmt)
    ensures WellFormed(lit + fmt) && Conversions(lit + fmt) == Conversions(fmt)
    ensures Render(lit + fmt, args) == lit + Render(fmt, args)
    decreases |lit|
  {
    if lit == [] {
      assert lit + fmt == fmt;
    } else {
      assert (lit + fmt)[1..] == lit[1..] + fmt;
      RenderLiteral(lit[1..], fmt, args);
      assert lit + Render(fmt, args) == [lit[0]] + (lit[1..] + Render(fmt, args));
    }
  }

  /** A conversion in front of a format prints its argument in decimal. */
  lemma RenderConversion(fmt: seq<byte>, args: seq<int>)
    requires WellFormed(fmt) && |args| == 1 + Conversions(fmt)
    ensures WellFormed([Percent, LowerI] + fmt) && Conversions([Percent, LowerI] + fmt) == |args|
    ensures Render([Percent, LowerI] + fmt, args) == Decimal(args[0]) + Render(fmt, args[1..])
  {
    assert ([Percent, LowerI] + fmt)[2..] == fmt;
  }

  // ---------------------------------------------------------------- scanning

  /** The length of the longest prefix of `s` made of digits of `base`. */
  function Span(s: seq<byte>, base: nat): (k: nat)
    ensures k <= |s|
    ensures forall i :: 0 <= i < k ==> IsDigitIn(s[i], base)
    ensures k < |s| ==> !IsDigitIn(s[k], base)
    decreases |s|
  {
    if s == [] || !IsDigitIn(s[0], base) then 0 else 1 + Span(s[1..], base)
  }

  /** The value of a string of digits in `base`, most significant first. */
  function Value(s: seq<byte>, base: nat): nat
    decreases |s|
  {
    if s == [] then 0 else Value(s[..|s| - 1], base) * base + DigitValue(s[|s| - 1])
  }

  datatype Parsed = Parsed(value: int, used: nat)

  /**
   * The magnitude part of an `%i` input item, as `strtol` with base 0 reads it:
   * `0x` or `0X` and at least one hexadecimal digit, or `0` and octal digits, or
   * decimal digits. `0x` not followed by a hexadecimal digit is a matching failure.
   */
  function Magnitude(t: seq<byte>): (r: Option<Parsed>)
    ensures r.Some? ==> 1 <= r.value.used <= |t| && r.value.value >= 0
  {
    if |t| >= 2 && t[0] == Zero && (t[1] == LowerX || t[1] == UpperX) then
      var k := Span(t[2..], 16);
      if k == 0 then None else Some(Parsed(Value(t[2..2 + k], 16), 2 + k))
    else if t != [] && t[0] == Zero then
      var k := Span(t[1..], 8);
      Some(Parsed(Value(t[1..1 + k], 8), 1 + k))
    else if t != [] && IsDigit(t[0]) then
      var k := Span(t, 10);
      Some(Parsed(Value(t[..k], 10), k))
    else None
  }

  /** An `%i` input item at the start of `s` (white space already skipped): an optional sign and a magnitude. */
  function ParseInt(s: seq<byte>): (r: Option<Parsed>)
    ensures r.Some? ==> 1 <= r.value.used <= |s|
  {
    var sign := if s != [] && (s[0] == Minus || s[0] == Plus) then 1 else 0;
    match Magnitude(s[sign..])
    case None => None
    case Some(p) => Some(Parsed(if sign == 1 && s[0] == Minus then -p.value else p.value, sign + p.used))
  }

  /** `s` without its leading white space. */
  function SkipSpace(s: seq<byte>): (r: seq<byte>)
    ensures |r| <= |s| && (r != [] ==> !IsSpace(r[0]))
    decreases |s|
  {
    if s != [] && IsSpace(s[0]) then SkipSpace(s[1..]) else s
  }

  /** Why scanning stopped: the format was used up, an input byte did not match, or the input ran out. */
  datatype Stop = Complete | MatchingFailure | InputFailure

  datatype Scan = Scan(values: seq<int>, stop: Stop)

  /**
   * The directives of `fmt` applied to `input` in turn: white space skips any
   * amount of white space, an ordinary byte must come next, and `%i` skips white
   * space and reads an integer. `values` are the integers read before stopping.
   */
  function ScanWith(input: seq<byte>, fmt: seq<byte>): (r: Scan)
    decreases |fmt|
  {
    if fmt == [] then Scan([], Complete)
    else if IsSpace(fmt[0]) then ScanWith(SkipSpace(input), fmt[1..])
    else if fmt[0] == Percent && |fmt| >= 2 then
      var t := SkipSpace(input);
      if t == [] then Scan([], InputFailure)
      else match ParseInt(t)
        case None => Scan([], MatchingFailure)
        case Some(p) =>
          var rest := ScanWith(t[p.used..], fmt[2..]);
          Scan([p.value] + rest.values, rest.stop)
    else if input == [] then Scan([], InputFailure)
    else if input[0] == fmt[0] then ScanWith(input[1..], fmt[1..])
    else Scan([], MatchingFailure)
  }

  /** No more values are read than the format has conversions. */
  lemma {:induction false} ScanBound(input: seq<byte>, fmt: seq<byte>)
    ensures |ScanWith(input, fmt).values| <= Conversions(fmt)
    decreases |fmt|
  {
    if fmt == [] {
    } else if IsSpace(fmt[0]) {
      ScanBound(SkipSpace(input), fmt[1..]);
    } else if fmt[0] == Percent && |fmt| >= 2 {
      var t := SkipSpace(input);
      if t != [] && ParseInt(t).Some? {
        ScanBound(t[ParseInt(t).value.used..], fmt[2..]);
      }
    } else if input != [] && input[0] == fmt[0] {
      ScanBound(input[1..], fmt[1..]);
    }
  }

  /** What `vsscanf` reports: `count` is the number of values assigned, or `EOF` (-1). */
  datatype ScanResult = ScanResult(count: int, values: seq<int>)

  const EOF: int := -1

  /**
   * `vsscanf(input, fmt, ...)`: the values assigned, in order, and the count
   * returned, which is EOF when the input ran out before the first conversion.
   */
  function VScan(input: seq<byte>, fmt: seq<byte>): (r: ScanResult)
    requires WellFormed(fmt)
    ensures |r.values| <= Conversions(fmt)
    ensures r.count == |r.values| || (r.count == EOF && r.values == [])
  {
    ScanBound(input, fmt);
    var s := ScanWith(input, fmt);
    ScanResult(if s.stop == InputFailure && s.values == [] then EOF else |s.values|, s.values)
  }

  /** The C string held in `buf`: its bytes up to the first NUL. */
  function CString(buf: seq<byte>): (s: seq<byte>)
    ensures |s| <= |buf| && s == buf[..|s|] && ZeroFree(s)
    ensures |s| < |buf| ==> buf[|s|] == Nul
    decreases |buf|
  {
    if buf == [] || buf[0] == Nul then [] else [buf[0]] + CString(buf[1..])
  }

  // ------------------------------------------------------------------ lemmas

  /** Appending a digit: the value is shifted by one place. */
  lemma ValueSnoc(s: seq<byte>, d: byte, base: nat)
    ensures Value(s + [d], base) == Value(s, base) * base + DigitValue(d)
  {
    assert (s + [d])[..|s + [d]| - 1] == s;
  }

  /** The digits of `n` read back as the value `n`. */
  lemma {:induction false} DigitsValue(n: nat)
    ensures Value(Digits(n), 10) == n
    decreases n
  {
    if n < 10 {
      assert [Zero + n][..0] == [];
    } else {
      DigitsValue(n / 10);
      ValueSnoc(Digits(n / 10), Zero + n % 10, 10);
    }
  }

  /** A run of decimal digits followed by a non-digit spans exactly that run. */
  lemma {:induction false} SpanDigits(s: seq<byte>, rest: seq<byte>)
    requires forall i :: 0 <= i < |s| ==> IsDigit(s[i])
    requires rest == [] || !IsDigit(rest[0])
    ensures Span(s + rest, 10) == |s|
    decreases |s|
  {
    if s == [] {
      assert s + rest == rest;
    } else {
      assert (s + rest)[1..] == s[1..] + rest;
      SpanDigits(s[1..], rest);
    }
  }

  /** The digits `%i` printed for a magnitude read back as that magnitude. */
  lemma MagnitudeDigits(m: nat, rest: seq<byte>)
    requires rest == [] || !Continues(rest[0])
    ensures Magnitude(Digits(m) + rest) == Some(Parsed(m, |Digits(m)|))
  {
    var ds := Digits(m);
    var t := ds + rest;
    DigitsValue(m);
    if ds[0] == Zero {
      assert m == 0 && ds == [Zero];
      assert t[1..] == rest;
      assert rest != [] ==> !IsDigitIn(rest[0], 8);
      assert Span(rest, 8) == 0;
      assert t[1..1] == [];
    } else {
      SpanDigits(ds, rest);
      assert t[..|ds|] == ds;
    }
  }

  /** `%i` reads back exactly what `%i` printed, when the next byte cannot continue the number. */
  lemma ParseDecimal(n: int, rest: seq<byte>)
    requires rest == [] || !Continues(rest[0])
    ensures ParseInt(Decimal(n) + rest) == Some(Parsed(n, |Decimal(n)|))
  {
    var m := if n < 0 then -n else n;
    MagnitudeDigits(m, rest);
    var s := Decimal(n) + rest;
    if n < 0 {
      assert s == [Minus] + (Digits(m) + rest);
      assert s[1..] == Digits(m) + rest;
      assert Magnitude(s[1..]) == Some(Parsed(m, |Digits(m)|));
    } else {
      assert s == Digits(m) + rest;
      assert IsDigit(s[0]);
      assert s[0..] == s;
      assert Magnitude(s[0..]) == Some(Parsed(m, |Digits(m)|));
    }
  }

  lemma SkipSpaceIdempotent(s: seq<byte>)
    ensures SkipSpace(SkipSpace(s)) == SkipSpace(s)
  {
  }

  /** White space in front of an input that does not start with white space is skipped whole. */
  lemma {:induction false} SkipSpacePrefix(w: seq<byte>, s: seq<byte>)
    requires forall i :: 0 <= i < |w| ==> IsSpace(w[i])
    requires s == [] || !IsSpace(s[0])
    ensures SkipSpace(w + s) == s
    decreases |w|
  {
    if w == [] {
      assert w + s == s;
    } else {
      assert (w + s)[1..] == w[1..] + s;
      SkipSpacePrefix(w[1..], s);
    }
  }

  /** A format whose first directive skips white space does not care about white space in front. */
  lemma ScanSkipsSpace(input: seq<byte>, fmt: seq<byte>)
    requires fmt == [] || IsSpace(fmt[0]) || (fmt[0] == Percent && |fmt| >= 2)
    ensures ScanWith(SkipSpace(input), fmt) == ScanWith(input, fmt)
  {
    SkipSpaceIdempotent(input);
    if fmt != [] && IsSpace(fmt[0]) {
      assert ScanWith(input, fmt) == ScanWith(SkipSpace(input), fmt[1..]);
      assert ScanWith(SkipSpace(input), fmt) == ScanWith(SkipSpace(SkipSpace(input)), fmt[1..]);
    }
  }

  lemma SeparatedTail(fmt: seq<byte>, k: nat)
    requires Separated(fmt) && k <= |fmt|
    ensures Separated(fmt[k..])
  {
    forall i | 0 <= i < |fmt[k..]| - 2 && fmt[k..][i] == Percent
      ensures !Continues(fmt[k..][i + 2])
    {
      assert fmt[k + i] == Percent;
    }
  }

  /** The step of `ScanRendered` for a format that starts with `%i`. */
  lemma ScanRenderedConversion(fmt: seq<byte>, args: seq<int>)
    requires WellFormed(fmt) && Separated(fmt) && |args| == Conversions(fmt)
    requires fmt != [] && fmt[0] == Percent
    requires ScanWith(Render(fmt[2..], args[1..]), fmt[2..]) == Scan(args[1..], Complete)
    ensures ScanWith(Render(fmt, args), fmt) == Scan(args, Complete)
  {
    var tail := Render(fmt[2..], args[1..]);
    var s := Decimal(args[0]) + tail;
    assert Render(fmt, args) == s;
    assert !IsSpace(s[0]);
    assert SkipSpace(s) == s;
    assert tail == [] || !Continues(tail[0]) by {
      if fmt[2..] != [] {
        assert fmt[2..][0] == fmt[2];
      }
    }
    ParseDecimal(args[0], tail);
    assert s[|Decimal(args[0])|..] == tail;
    assert [args[0]] + args[1..] == args;
  }

  /** The step of `ScanRendered` for a format that starts with an ordinary byte or white space. */
  lemma ScanRenderedByte(fmt: seq<byte>, args: seq<int>)
    requires WellFormed(fmt) && |args| == Conversions(fmt)
    requires fmt != [] && fmt[0] != Percent
    requires ScanWith(Render(fmt[1..], args), fmt[1..]) == Scan(args, Complete)
    ensures ScanWith(Render(fmt, args), fmt) == Scan(args, Complete)
  {
    var tail := Render(fmt[1..], args);
    assert Render(fmt, args) == [fmt[0]] + tail;
    assert ([fmt[0]] + tail)[1..] == tail;
    if IsSpace(fmt[0]) {
      var t := fmt[1..];
      if t == [] || IsSpace(t[0]) || t[0] == Percent {
        ScanSkipsSpace(tail, t);
        SkipSpacePrefix([fmt[0]], SkipSpace(tail));
        SkipSpaceIdempotent(tail);
        assert SkipSpace([fmt[0]] + tail) == SkipSpace(tail);
      } else {
        SkipSpacePrefix([fmt[0]], tail);
      }
    }
  }

  /** Scanning a rendered string with its own format reads every argument back and uses the format up. */
  lemma {:induction false} ScanRendered(fmt: seq<byte>, args: seq<int>)
    requires WellFormed(fmt) && Separated(fmt) && |args| == Conversions(fmt)
    ensures ScanWith(Render(fmt, args), fmt) == Scan(args, Complete)
    decreases |fmt|
  {
    if fmt == [] {
    } else if fmt[0] == Percent {
      SeparatedTail(fmt, 2);
      ScanRendered(fmt[2..], args[1..]);
      ScanRenderedConversion(fmt, args);
    } else {
      SeparatedTail(fmt, 1);
      ScanRendered(fmt[1..], args);
      ScanRenderedByte(fmt, args);
    }
  }

  /** `vsscanf` on what `vsnprintf` printed with the same format returns every argument and their count. */
  lemma ScanRenderRoundTrip(fmt: seq<byte>, args: seq<int>)
    requires WellFormed(fmt) && Separated(fmt) && |args| == Conversions(fmt)
    ensures VScan(Render(fmt, args), fmt) == ScanResult(|args|, args)
  {
    ScanRendered(fmt, args);
  }

  /** An input that ends before the first `%i` of a format that starts with one makes `vsscanf` return EOF. */
  lemma ScanEmpty(fmt: seq<byte>)
    requires WellFormed(fmt) && |fmt| >= 2 && fmt[0] == Percent
    ensures VScan([], fmt) == ScanResult(EOF, [])
  {
  }

  /** A C string stops at the terminator that was stored after it. */
  lemma {:induction false} CStringTerminated(s: seq<byte>, tail: seq<byte>)
    ensures CString(s + [Nul] + tail) == CString(s)
    decreases |s|
  {
    if s == [] {
      assert (s + [Nul] + tail)[0] == Nul;
    } else {
      assert (s + [Nul] + tail)[1..] == s[1..] + [Nul] + tail;
      CStringTerminated(s[1..], tail);
      if s[0] != Nul {
        assert CString(s) == [s[0]] + CString(s[1..]);
      }
    }
  }

  /** A C string held without NUL is all of it. */
  lemma CStringZeroFree(s: seq<byte>)
    requires ZeroFree(s)
    ensures CString(s) == s
  {
  }
}
