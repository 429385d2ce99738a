/** `vsnprintf_`: the format machine writing into a bounded buffer. */
module Printf {
  import opened Words
  import opened Options
  import opened PrintfSpec
  import opened ReadBack

  class Printer {
    const buffer: array<char>
    const maxlen: nat
    var idx: nat
    ghost var out: string      // everything printed, kept or not
    ghost var before: seq<char>

    constructor (buffer: array<char>, maxlen: nat)
      requires maxlen <= buffer.Length
      ensures Valid() && out == "" && this.buffer == buffer && this.maxlen == maxlen && before == buffer[..]
    {
      this.buffer, this.maxlen, idx := buffer, maxlen, 0;
      out, before := "", buffer[..];
    }

    /** The buffer starts with as much of the output as fits; the rest is as it was. */
    ghost predicate Valid()
      reads this, buffer
    {
      && maxlen <= buffer.Length && |before| == buffer.Length && idx == |out|
      && forall i :: 0 <= i < buffer.Length ==> buffer[i] == if i < maxlen && i < |out| then out[i] else before[i]
    }

    /** `_out_buffer` with `idx++`. */
    method Put(c: char)
      requires Valid()
      modifies `idx, `out, buffer
      ensures Valid() && out == old(out) + [c]
    {
      if idx < maxlen {
        buffer[idx] := c;
      }
      idx := idx + 1;
      out := out + [c];
    }

    method PutSpaces(n: int)
      requires Valid()
      modifies `idx, `out, buffer
      ensures Valid() && out == old(out) + Spaces(n)
    {
      var i := 0;
      while i < n
        invariant 0 <= i && (n < 0 || i <= n) && (n < 0 ==> i == 0) && Valid() && out == old(out) + Spaces(i)
      {
        Put(' ');
        assert Spaces(i) + [' '] == Spaces(i + 1);
        i := i + 1;
      }
      assert n < 0 ==> Spaces(n) == Spaces(0);
    }

    /** `_out_rev`. */
    method OutRev(buf: string, width: nat, f: Flags)
      requires Valid()
      modifies `idx, `out, buffer
      ensures Valid() && out == old(out) + Placed(buf, width, f)
    {
      var start := idx;
      if Left !in f && ZeroPad !in f {
        PutSpaces(width - |buf|);
      }
      ghost var o1 := out;
      var len := |buf|;
      while len > 0
        invariant 0 <= len <= |buf| && Valid() && out == o1 + Reverse(buf)[..|buf| - len]
      {
        len := len - 1;
        Put(buf[len]);
        assert Reverse(buf)[..|buf| - len] == Reverse(buf)[..|buf| - len - 1] + [buf[len]];
      }
      assert Reverse(buf)[..|buf|] == Reverse(buf);
      if Left in f {
        PutSpaces(width - (idx - start));
      }
    }

    // ---------- numbers ----------

    /** The digit loop of `_ntoa_long` and `_ntoa_long_long`. */
    static method DigitLoop(buf: array<char>, value: nat, base: nat, upper: bool) returns (len: nat)
      requires buf.Length == BUFFER_SIZE && 2 <= base <= 16
      modifies buf
      ensures len <= BUFFER_SIZE && buf[..len] == Digits(value, base, upper, BUFFER_SIZE)
    {
      hide Digits, Higher, Lowest, DigitChar;
      len := 0;
      var v: nat := value;
      while true
        invariant 0 <= len < BUFFER_SIZE
        invariant Digits(value, base, upper, BUFFER_SIZE) == buf[..len] + Digits(v, base, upper, BUFFER_SIZE - len)
        decreases BUFFER_SIZE - len
      {
        DigitsTurn(buf[..len], v, base, upper, BUFFER_SIZE - len);
        ghost var done := buf[..len];
        buf[len] := DigitChar(Lowest(v, base), upper);
        assert buf[..len + 1] == done + [DigitChar(Lowest(v, base), upper)];
        len := len + 1;
        v := Higher(v, base);
        if v == 0 || len == BUFFER_SIZE {
          break;
        }
      }
    }

    /** Append zeros until the buffer holds `n` characters or is full. */
    static method ZeroLoop(buf: array<char>, len0: nat, n: nat) returns (len: nat)
      requires buf.Length == BUFFER_SIZE && len0 <= BUFFER_SIZE
      modifies buf
      ensures len <= BUFFER_SIZE && buf[..len] == PadZeros(old(buf[..len0]), n)
    {
      ghost var start := buf[..len0];
      len := len0;
      while len < n && len < BUFFER_SIZE
        invariant len0 <= len <= BUFFER_SIZE && (len <= n || len == len0) && buf[..len] == start + Zeros(len - len0)
      {
        buf[len] := '0';
        assert buf[..len + 1] == start + Zeros(len - len0) + ['0'];
        assert Zeros(len - len0) + ['0'] == Zeros(len + 1 - len0);
        len := len + 1;
      }
    }

    /** `buf[len++] = c`, guarded by the size of the buffer. */
    static method Append(buf: array<char>, len0: nat, c: char) returns (len: nat)
      requires buf.Length == BUFFER_SIZE && len0 <= BUFFER_SIZE
      modifies buf
      ensures len <= BUFFER_SIZE && buf[..len] == WithRoom(old(buf[..len0]), c)
    {
      len := len0;
      ghost var b0 := buf[..len0];
      if len < BUFFER_SIZE {
        buf[len] := c;
        len := len + 1;
        assert buf[..len] == b0 + [c];
      }
    }

    /** The `#` branch of `_ntoa_format`. */
    static method HashBranch(buf: array<char>, len0: nat, base: nat, prec: nat, width: nat, f: Flags) returns (len: nat)
      requires buf.Length == BUFFER_SIZE && len0 <= BUFFER_SIZE
      modifies buf
      ensures len <= BUFFER_SIZE && buf[..len] == HashMark(old(buf[..len0]), base, prec, width, f)
    {
      hide WithRoom;
      len := len0;
      if Hash !in f {
        return;
      }
      if Precision !in f && len > 0 && (len == prec || len == width) {
        len := len - 1;
        if len > 0 && base == 16 {
          len := len - 1;
        }
      }
      assert buf[..len] == HashTrim(old(buf[..len0]), base, prec, width, f);
      if base == 16 && Upper !in f {
        len := Append(buf, len, 'x');
      } else if base == 16 && Upper in f {
        len := Append(buf, len, 'X');
      } else if base == 2 {
        len := Append(buf, len, 'b');
      }
      len := Append(buf, len, '0');
    }

    static method SignBranch(buf: array<char>, len0: nat, negative: bool, f: Flags) returns (len: nat)
      requires buf.Length == BUFFER_SIZE && len0 <= BUFFER_SIZE
      modifies buf
      ensures len <= BUFFER_SIZE && buf[..len] == SignMark(old(buf[..len0]), negative, f)
    {
      hide WithRoom;
      len := len0;
      if negative {
        len := Append(buf, len, '-');
      } else if Plus in f {
        len := Append(buf, len, '+');
      } else if Space in f {
        len := Append(buf, len, ' ');
      }
    }

    /** `_ntoa_format`. */
    method NtoaFormat(buf: array<char>, len0: nat, negative: bool, base: nat, prec: nat, width0: nat, f: Flags)
      requires Valid() && buf.Length == BUFFER_SIZE && len0 <= BUFFER_SIZE && buf != buffer
      modifies `idx, `out, buffer, buf
      ensures Valid() && out == old(out) + Placed(NumberBuffer(old(buf[..len0]), negative, base, prec, width0, f),
                                                  SignedWidth(negative, width0, f), f)
    {
      hide PadZeros, HashMark, SignMark, Placed;
      var len, width := len0, width0;
      if Left !in f {
        if width > 0 && ZeroPad in f && (negative || Plus in f || Space in f) {
          width := width - 1;
        }
        len := ZeroLoop(buf, len, prec);
        if ZeroPad in f {
          len := ZeroLoop(buf, len, width);
        }
      }
      len := HashBranch(buf, len, base, prec, width, f);
      len := SignBranch(buf, len, negative, f);
      OutRev(buf[..len], width, f);
    }

    /** `_ntoa_long` and `_ntoa_long_long`, which differ only in the type of `value`. */
    method Ntoa(value: nat, negative: bool, base: nat, prec: nat, width: nat, flags: Flags)
      requires Valid() && 2 <= base <= 16
      modifies `idx, `out, buffer
      ensures Valid() && out == old(out) + Number(value, negative, base, prec, width, flags)
    {
      hide Digits, NumberBuffer, Placed;
      var buf := new char[BUFFER_SIZE];
      var len := 0;
      var f := flags;
      if value == 0 {
        f := f - {Hash};
      }
      if Precision !in f || value != 0 {
        len := DigitLoop(buf, value, base, Upper in f);
      }
      assert buf[..len] == NumberDigits(value, base, f);
      NtoaFormat(buf, len, negative, base, prec, width, f);
    }

    // ---------- conversions ----------

    method PutText(text: string)
      requires Valid()
      modifies `idx, `out, buffer
      ensures Valid() && out == old(out) + text
    {
      var i := 0;
      while i < |text|
        invariant 0 <= i <= |text| && Valid() && out == old(out) + text[..i]
      {
        Put(text[i]);
        assert text[..i + 1] == text[..i] + [text[i]];
        i := i + 1;
      }
      assert text[..i] == text;
    }

    /** `_strnlen_s`, which counts in full and returns 32 bits. */
    static method StrNLen(text: string, max: nat) returns (n: nat)
      ensures n == Min(|text|, max) % TWO32
    {
      var s := 0;
      while s < |text| && s < max
        invariant 0 <= s <= |text| && s <= max
      {
        s := s + 1;
      }
      n := s % TWO32;
    }

    static method PaddingLength(text: string, prec: nat, f: Flags) returns (l: nat)
      ensures l == CountedLength(text, prec, f)
    {
      l := StrNLen(text, if prec != 0 then prec else TWO64 - 1);
      if Precision in f {
        l := if l < prec then l else prec;
      }
    }

    /** The characters of `text` until its end or until the precision runs out. */
    method PutShown(text: string, prec: nat, f: Flags)
      requires Valid()
      modifies `idx, `out, buffer
      ensures Valid() && out == old(out) + Shown(text, prec, f)
    {
      hide Valid;
      var i: nat, left: nat := 0, prec;
      while i < |text| && (Precision !in f || left > 0)
        invariant 0 <= i <= |text| && (Precision in f ==> left == prec - i)
        invariant Valid() && out == old(out) + text[..i]
      {
        Put(text[i]);
        assert text[..i + 1] == text[..i] + [text[i]];
        i, left := i + 1, if Precision in f then left - 1 else left;
      }
      assert text[..i] == Shown(text, prec, f);
    }

    method PutString(text: string, prec: nat, width: nat, f: Flags)
      requires Valid()
      modifies `idx, `out, buffer
      ensures Valid() && out == old(out) + StringText(text, prec, width, f)
    {
      hide Shown, Spaces, Valid, CountedLength;
      var l := PaddingLength(text, prec, f);
      if Left !in f {
        PutSpaces(width - l);
      }
      PutShown(text, prec, f);
      if Left in f {
        PutSpaces(width - l);
      }
    }

    method PutChar(c: char, width: nat, f: Flags)
      requires Valid()
      modifies `idx, `out, buffer
      ensures Valid() && out == old(out) + CharText(c, width, f)
    {
      hide Spaces, Valid;
      if Left !in f {
        PutSpaces(width - 1);
      }
      Put(c);
      if Left in f {
        PutSpaces(width - 1);
      }
    }

    /** Base and flags of an integer conversion. */
    static method AdjustFlags(c: char, flags: Flags) returns (f: Flags, base: nat)
      requires IsInteger(c)
      ensures f == IntegerFlags(c, flags) && base == Base(c)
    {
      f, base := flags, 10;
      if c == 'x' || c == 'X' {
        base := 16;
      } else if c == 'o' {
        base := 8;
      } else if c == 'b' {
        base := 2;
      } else {
        f := f - {Hash};
      }
      if c == 'X' {
        f := f + {Upper};
      }
      if c != 'i' && c != 'd' {
        f := f - {Plus, Space};
      }
      if Precision in f {
        f := f - {ZeroPad};
      }
    }

    method PutInteger(c: char, a: Arg, prec: nat, width: nat, flags: Flags)
      requires Valid() && IsInteger(c)
      modifies `idx, `out, buffer
      ensures Valid() && out == old(out) + IntegerText(c, a, prec, width, flags)
    {
      hide Number, IntegerFlags, SignedArg, UnsignedArg;
      var f, base := AdjustFlags(c, flags);
      if c == 'i' || c == 'd' {
        var value := SignedArg(f, a);
        Ntoa(if value > 0 then value else 0 - value, value < 0, base, prec, width, f);
      } else {
        Ntoa(UnsignedArg(f, a), false, base, prec, width, f);
      }
    }

    /** The specifier switch. */
    method Convert(c: char, a: Arg, prec: nat, width: nat, f: Flags, float: FloatText)
      requires Valid()
      modifies `idx, `out, buffer
      ensures Valid() && out == old(out) + ConversionText(c, a, prec, width, f, float)
    {
      hide Number, IntegerText, StringText, CharText, Valid;
      if IsInteger(c) {
        PutInteger(c, a, prec, width, f);
      } else if IsFloat(c) {
        PutText(float(c, a, prec, width, f));
      } else if c == 'c' {
        PutChar((a.word % 0x100) as char, width, f);
      } else if c == 's' {
        PutString(a.text, prec, width, f);
      } else if c == 'p' {
        Ntoa(a.word % TWO64, false, 16, prec, 16, f + {ZeroPad, Upper});
      } else {
        Put(c);
      }
    }

    // ---------- formats ----------

    static method ParseFlags(fmt: string, start: nat) returns (f: Flags, i: nat)
      ensures (f, i) == FlagsFrom(fmt, start, {})
    {
      f, i := {}, start;
      while IsFlag(At(fmt, i))
        invariant FlagsFrom(fmt, start, {}) == FlagsFrom(fmt, i, f)
        decreases |fmt| - i
      {
        f, i := WithFlag(f, fmt[i]), i + 1;
      }
    }

    /** `_atoi`: the value of the run of digits, in 32 bits. */
    static method Atoi(fmt: string, start: nat) returns (n: nat, i: nat)
      requires start <= |fmt|
      ensures (n, i) == NumberFrom(fmt, start, 0)
      ensures start <= i <= |fmt| && n == Value(fmt[start..i], 10) % TWO32
      ensures !IsDigit(At(fmt, i)) && forall k :: start <= k < i ==> IsDigit(fmt[k])
    {
      AtoiValue(fmt, start);
      hide Value;
      n, i := 0, start;
      while IsDigit(At(fmt, i))
        invariant NumberFrom(fmt, start, 0) == NumberFrom(fmt, i, n)
        decreases |fmt| - i
      {
        n, i := (n * 10 + (fmt[i] - '0') as nat) % TWO32, i + 1;
      }
    }

    /** A width or precision, with `*` taken from the arguments. */
    static method ParseCount(fmt: string, start: nat, args: Args, k0: nat) returns (n: int, i: nat, k: nat)
      ensures var c := CountFrom(fmt, start);
              n == CountValue(c.0, args, k0) && i == c.1 && k == AfterCount(c.0, k0)
    {
      hide NumberFrom, Signed;
      n, i, k := 0, start, k0;
      if IsDigit(At(fmt, i)) {
        n, i := Atoi(fmt, i);
      } else if At(fmt, i) == '*' {
        n, i, k := Signed(args(k).word, 0x8000_0000), i + 1, k + 1;
      }
    }

    static method ParseLength(fmt: string, start: nat, f0: Flags) returns (f: Flags, i: nat)
      ensures (f, i) == LengthFrom(fmt, start, f0)
    {
      f, i := f0, start;
      if At(fmt, i) == 'l' {
        f, i := f + {Long}, i + 1;
        if At(fmt, i) == 'l' {
          f, i := f + {LongLong}, i + 1;
        }
      } else if At(fmt, i) == 'h' {
        f, i := f + {ShortSize}, i + 1;
        if At(fmt, i) == 'h' {
          f, i := f + {CharSize}, i + 1;
        }
      } else if At(fmt, i) in {'t', 'j', 'z'} {
        f, i := f + {Long}, i + 1;
      }
    }

    /** Flags, width, precision and length. */
    static method ParseDirective(fmt: string, start: nat, args: Args, k0: nat) returns (s: Settings, i: nat)
      ensures i == DirectiveFrom(fmt, start).at && s == Settled(DirectiveFrom(fmt, start), args, k0)
    {
      hide FlagsFrom, CountFrom, CountValue, AfterCount, LengthFrom;
      var f, w, p, k;
      f, i := ParseFlags(fmt, start);
      w, i, k := ParseCount(fmt, i, args, k0);
      ghost var g := f;
      if w < 0 {
        f := f + {Left};
      }
      p := 0;
      if At(fmt, i) == '.' {
        f, g, i := f + {Precision}, g + {Precision}, i + 1;
        p, i, k := ParseCount(fmt, i, args, k);
      } else {
        NoCount(args, k);
      }
      assert f == if w < 0 then g + {Left} else g;
      LengthKeepsLeft(fmt, i, g);
      f, i := ParseLength(fmt, i, f);
      s := Settings(f, if w < 0 then -w else w, if p > 0 then p else 0, k);
    }

    /**
     The loop of `_vsnprintf`, up to the terminator. `inside` is false when the format pointer has passed
     the terminator: what the source reads from there on is not part of the format.
     */
    method Print(fmt: string, args: Args, float: FloatText) returns (inside: bool)
      requires Valid() && out == ""
      modifies `idx, `out, buffer
      ensures Valid() && out == Render(fmt, 0, args, 0, float)
      ensures inside <==> Complete(fmt, 0)
    {
      hide ConversionText, DirectiveFrom, Settled, Render, Complete, Valid, NextAt;
      var i: nat, k: nat := 0, 0;
      while i < |fmt|
        invariant 0 <= i <= |fmt| + 1 && Valid()
        invariant Complete(fmt, 0) <==> i <= |fmt| && Complete(fmt, i)
        invariant Render(fmt, 0, args, 0, float) == out + Render(fmt, i, args, k, float)
      {
        CompleteStep(fmt, i);
        if fmt[i] != '%' {
          RenderLiteral(fmt, i, args, k, float);
          Put(fmt[i]);
          i := i + 1;
        } else {
          RenderDirective(fmt, i, args, k, float);
          var s, j := ParseDirective(fmt, i + 1, args, k);
          var c := At(fmt, j);
          Convert(c, args(s.k), s.prec, s.width, s.f, float);
          k, i := if TakesArg(c) then s.k + 1 else s.k, j + 1;
        }
      }
      RenderEnd(fmt, i, args, k, float);
      CompleteEnd(fmt);
      inside := i == |fmt|;
    }
  }

  /**
   `vsnprintf_`: `count` is the size of the part of the buffer it may use. `None` when the format pointer
   passes the terminator, which the source follows into whatever lies behind it.
   */
  method Vsnprintf(buffer: array<char>, count: nat, format: string, args: Args, float: FloatText) returns (n: Option<int>)
    requires count <= buffer.Length
    modifies buffer
    ensures n.Some? <==> Complete(Terminated(format), 0)
    ensures forall i :: count <= i < buffer.Length ==> buffer[i] == old(buffer[i])
    ensures n.Some? ==> var text := Render(Terminated(format), 0, args, 0, float);
              var kept := Min(|text|, count - 1);
              && n.value == Signed(|text|, 0x8000_0000)
              && (count > 0 ==> buffer[..kept] == text[..kept] && buffer[kept] == '\0')
              && forall i :: 0 <= i < buffer.Length && (count == 0 || i > kept) ==> buffer[i] == old(buffer[i])
  {
    hide Render, Complete, Signed;
    var fmt := Terminated(format);
    var p := new Printer(buffer, count);
    var inside := p.Print(fmt, args, float);
    if !inside {
      return None;
    }
    var at := if p.idx < count then p.idx else count - 1;
    if 0 <= at < count {
      buffer[at] := '\0';
    }
    n := Some(Signed(p.idx, 0x8000_0000));
  }
}
