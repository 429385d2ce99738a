/**
 What `printf` prints: the text of a whole format, said without buffers.

 A format is the characters before its terminator. The variable arguments are numbered 64-bit slots;
 a slot read as a string is the string it points to.
 */
module PrintfSpec {
  import opened Words

  const BUFFER_SIZE: int := 32   // PRINTF_NTOA_BUFFER_SIZE
  const TWO32: int := 0x1_0000_0000

  datatype Arg = Arg(word: nat, text: string)

  type Args = nat -> Arg

  datatype Flag = ZeroPad | Left | Plus | Space | Hash | Upper | CharSize | ShortSize | Long | LongLong | Precision

  /** The bits of `flags`. */
  type Flags = set<Flag>

  // ---------- integers ----------

  /** Two's complement reading of the low `2 * half` values. */
  function Signed(w: nat, half: nat): int
    requires half > 0
  {
    var u := w % (2 * half);
    if u < half then u else u - 2 * half
  }

  function Abs(x: int): nat { if x < 0 then -x else x }

  /** The signed argument after the length modifiers. */
  function SignedArg(f: Flags, a: Arg): int {
    if LongLong in f || Long in f then Signed(a.word, 0x8000_0000_0000_0000)
    else if CharSize in f then Signed(a.word, 0x80)
    else if ShortSize in f then Signed(a.word, 0x8000)
    else Signed(a.word, 0x8000_0000)
  }

  function UnsignedArg(f: Flags, a: Arg): nat {
    if LongLong in f || Long in f then a.word % TWO64
    else if CharSize in f then a.word % 0x100
    else if ShortSize in f then a.word % 0x1_0000
    else a.word % TWO32
  }

  function DigitChar(d: nat, upper: bool): char
    requires d < 16
  {
    if d < 10 then '0' + (d as char) else (if upper then 'A' else 'a') + ((d - 10) as char)
  }

  function Lowest(value: nat, base: nat): (d: nat)
    requires base >= 2
    ensures d < base
  {
    value % base
  }

  function Higher(value: nat, base: nat): nat
    requires base >= 2
  {
    value / base
  }

  /** Digits of `value`, least significant first, at least one and at most `room`. */
  function Digits(value: nat, base: nat, upper: bool, room: nat): (r: string)
    requires 2 <= base <= 16 && room > 0
    ensures 1 <= |r| <= room
    decreases room
  {
    var d := [DigitChar(Lowest(value, base), upper)];
    var rest := Higher(value, base);
    if rest == 0 || room == 1 then d else d + Digits(rest, base, upper, room - 1)
  }

  lemma DigitsStep(v: nat, base: nat, upper: bool, room: nat)
    requires 2 <= base <= 16 && room > 0
    ensures var ds := Digits(v, base, upper, room); var rest := Higher(v, base);
            && ds == [DigitChar(Lowest(v, base), upper)] + ds[1..]
            && ds[1..] == if rest == 0 || room == 1 then [] else Digits(rest, base, upper, room - 1)
  {
    hide Higher, Lowest;
  }

  /** One turn of the digit loop: `done` is what the buffer holds before it. */
  lemma DigitsTurn(done: string, v: nat, base: nat, upper: bool, room: nat)
    requires 2 <= base <= 16 && room > 0
    ensures var more := done + [DigitChar(Lowest(v, base), upper)]; var rest := Higher(v, base);
            done + Digits(v, base, upper, room)
            == if rest == 0 || room == 1 then more else more + Digits(rest, base, upper, room - 1)
  {
    hide Higher, Lowest, Digits, DigitChar;
    DigitsStep(v, base, upper, room);
  }

  function Zeros(n: int): string { seq(if n < 0 then 0 else n, i => '0') }

  function Spaces(n: int): (r: string)
    ensures |r| == if n < 0 then 0 else n
  {
    seq(if n < 0 then 0 else n, i => ' ')
  }

  function Min(x: int, y: int): int { if x < y then x else y }

  function Max(x: int, y: int): int { if x < y then y else x }

  /** Leading zeros, appended because the buffer is reversed: up to `n` characters, within the buffer. */
  function PadZeros(buf: string, n: int): string { buf + Zeros(Min(n, BUFFER_SIZE) - |buf|) }

  /** The width left for padding once a zero-padded number has reserved a place for its sign. */
  function SignedWidth(negative: bool, width: nat, f: Flags): nat {
    if Left !in f && width > 0 && ZeroPad in f && (negative || Plus in f || Space in f) then width - 1 else width
  }

  function WithRoom(buf: string, c: char): string { if |buf| < BUFFER_SIZE then buf + [c] else buf }

  /** The `#` prefix may take the place of padding zeros. */
  function HashTrim(buf: string, base: nat, prec: nat, width: nat, f: Flags): string {
    if Precision in f || |buf| == 0 || (|buf| != prec && |buf| != width) then buf
    else if |buf| > 1 && base == 16 then buf[..|buf| - 2]
    else buf[..|buf| - 1]
  }

  function HashMark(buf: string, base: nat, prec: nat, width: nat, f: Flags): string {
    if Hash !in f then buf else
    var b1 := HashTrim(buf, base, prec, width, f);
    var b2 := if base == 16 then WithRoom(b1, if Upper in f then 'X' else 'x')
              else if base == 2 then WithRoom(b1, 'b') else b1;
    WithRoom(b2, '0')
  }

  function SignMark(buf: string, negative: bool, f: Flags): string {
    if negative then WithRoom(buf, '-')
    else if Plus in f then WithRoom(buf, '+')
    else if Space in f then WithRoom(buf, ' ')
    else buf
  }

  /** The reversed digits with their padding zeros. */
  function Padded(digits: string, negative: bool, prec: nat, width: nat, f: Flags): string {
    if Left in f then digits
    else (var b := PadZeros(digits, prec); if ZeroPad in f then PadZeros(b, SignedWidth(negative, width, f)) else b)
  }

  /** The reversed number with padding zeros, prefix and sign: `_ntoa_format` up to its output. */
  function NumberBuffer(digits: string, negative: bool, base: nat, prec: nat, width: nat, f: Flags): string {
    var padded := Padded(digits, negative, prec, width, f);
    SignMark(HashMark(padded, base, prec, SignedWidth(negative, width, f), f), negative, f)
  }

  function Reverse(s: string): (r: string)
    ensures |r| == |s|
    ensures forall i :: 0 <= i < |s| ==> r[i] == s[|s| - 1 - i]
  {
    seq(|s|, i requires 0 <= i < |s| => s[|s| - 1 - i])
  }

  /** `_out_rev`: the buffer turned round, padded with spaces on one side. */
  function Placed(buf: string, width: nat, f: Flags): string {
    (if Left !in f && ZeroPad !in f then Spaces(width - |buf|) else []) + Reverse(buf)
    + (if Left in f then Spaces(width - |buf|) else [])
  }

  /** A zero under an explicit precision has no digits of its own. */
  function NumberDigits(value: nat, base: nat, f: Flags): string
    requires 2 <= base <= 16
  {
    if Precision !in f || value != 0 then Digits(value, base, Upper in f, BUFFER_SIZE) else []
  }

  /** `_ntoa_long` and `_ntoa_long_long`. */
  function Number(value: nat, negative: bool, base: nat, prec: nat, width: nat, f: Flags): string
    requires 2 <= base <= 16
  {
    var f' := if value == 0 then f - {Hash} else f;
    Placed(NumberBuffer(NumberDigits(value, base, f'), negative, base, prec, width, f'),
           SignedWidth(negative, width, f'), f')
  }

  // ---------- conversions ----------

  /** The first NUL or `n` characters, whichever comes first; strings here hold no NUL. */
  function Clipped(text: string, n: nat): string { if |text| < n then text else text[..n] }

  function Shown(text: string, prec: nat, f: Flags): string { if Precision in f then Clipped(text, prec) else text }

  /** `text` with spaces on its left or its right. */
  function Justified(text: string, spaces: int, f: Flags): string {
    if Left in f then text + Spaces(spaces) else Spaces(spaces) + text
  }

  /** The length the padding goes by: `_strnlen_s` hands it back as a 32-bit number. */
  function CountedLength(text: string, prec: nat, f: Flags): nat {
    var l := Min(|text|, if prec != 0 then prec else TWO64 - 1) % TWO32;
    if Precision in f then Min(l, prec) else l
  }

  function StringText(text: string, prec: nat, width: nat, f: Flags): string {
    Justified(Shown(text, prec, f), width - CountedLength(text, prec, f), f)
  }

  function CharText(c: char, width: nat, f: Flags): string { Justified([c], width - 1, f) }

  predicate IsInteger(c: char) { c in {'d', 'i', 'u', 'x', 'X', 'o', 'b'} }

  predicate IsFloat(c: char) { c in {'f', 'F', 'e', 'E', 'g', 'G'} }

  function Base(c: char): nat {
    if c == 'x' || c == 'X' then 16 else if c == 'o' then 8 else if c == 'b' then 2 else 10
  }

  /** Flags as the integer conversions adjust them. */
  function IntegerFlags(c: char, f: Flags): Flags {
    var f1 := if Base(c) == 10 then f - {Hash} else f;
    var f2 := if c == 'X' then f1 + {Upper} else f1;
    var f3 := if c != 'i' && c != 'd' then f2 - {Plus, Space} else f2;
    if Precision in f3 then f3 - {ZeroPad} else f3
  }

  function IntegerText(c: char, a: Arg, prec: nat, width: nat, f: Flags): string {
    var f' := IntegerFlags(c, f);
    if c == 'i' || c == 'd' then Number(Abs(SignedArg(f', a)), SignedArg(f', a) < 0, Base(c), prec, width, f')
    else Number(UnsignedArg(f', a), false, Base(c), prec, width, f')
  }

  /** What a floating-point conversion prints is a parameter. */
  type FloatText = (char, Arg, nat, nat, Flags) -> string

  predicate TakesArg(c: char) { IsInteger(c) || IsFloat(c) || c in {'c', 's', 'p'} }

  function ConversionText(c: char, a: Arg, prec: nat, width: nat, f: Flags, float: FloatText): string {
    if IsInteger(c) then IntegerText(c, a, prec, width, f)
    else if IsFloat(c) then float(c, a, prec, width, f)
    else if c == 'c' then CharText((a.word % 0x100) as char, width, f)
    else if c == 's' then StringText(a.text, prec, width, f)
    else if c == 'p' then Number(a.word % TWO64, false, 16, prec, 16, f + {ZeroPad, Upper})
    else [c]
  }

  // ---------- formats ----------

  /** A width or precision: given in the format, taken from the arguments, or absent. */
  datatype Count = Absent | Literal(n: nat) | Star

  datatype Directive = Directive(f: Flags, width: Count, prec: Count, at: nat)

  /** The character at `i`, NUL at the end. */
  function At(fmt: string, i: nat): char { if i < |fmt| then fmt[i] else '\0' }

  predicate IsDigit(c: char) { '0' <= c <= '9' }

  function WithFlag(f: Flags, c: char): Flags {
    if c == '0' then f + {ZeroPad} else if c == '-' then f + {Left}
    else if c == '+' then f + {Plus} else if c == ' ' then f + {Space} else f + {Hash}
  }

  predicate IsFlag(c: char) { c in {'0', '-', '+', ' ', '#'} }

  function FlagsFrom(fmt: string, i: nat, f: Flags): (Flags, nat)
    decreases |fmt| - i
  {
    if IsFlag(At(fmt, i)) then FlagsFrom(fmt, i + 1, WithFlag(f, fmt[i])) else (f, i)
  }

  /** `_atoi`, with its 32-bit wrap-around. */
  function NumberFrom(fmt: string, i: nat, acc: nat): (nat, nat)
    decreases |fmt| - i
  {
    if IsDigit(At(fmt, i)) then NumberFrom(fmt, i + 1, (acc * 10 + (fmt[i] - '0') as nat) % TWO32) else (acc, i)
  }

  function CountFrom(fmt: string, i: nat): (Count, nat) {
    if IsDigit(At(fmt, i)) then (var (n, j) := NumberFrom(fmt, i, 0); (Literal(n), j))
    else if At(fmt, i) == '*' then (Star, i + 1)
    else (Absent, i)
  }

  function LengthFrom(fmt: string, i: nat, f: Flags): (Flags, nat) {
    if At(fmt, i) == 'l' then
      if At(fmt, i + 1) == 'l' then (f + {Long} + {LongLong}, i + 2) else (f + {Long}, i + 1)
    else if At(fmt, i) == 'h' then
      if At(fmt, i + 1) == 'h' then (f + {ShortSize} + {CharSize}, i + 2) else (f + {ShortSize}, i + 1)
    else if At(fmt, i) in {'t', 'j', 'z'} then (f + {Long}, i + 1)
    else (f, i)
  }

  /** The directive whose `%` is just before `i`; `at` is its conversion character. */
  function DirectiveFrom(fmt: string, i: nat): Directive {
    var (f1, i1) := FlagsFrom(fmt, i, {});
    var (width, i2) := CountFrom(fmt, i1);
    var dotted := At(fmt, i2) == '.';
    var f2 := if dotted then f1 + {Precision} else f1;
    var (prec, i3) := if dotted then CountFrom(fmt, i2 + 1) else (Absent, i2);
    var (f3, i4) := LengthFrom(fmt, i3, f2);
    Directive(f3, width, prec, i4)
  }

  lemma {:induction false} FlagsAdvance(fmt: string, i: nat, f: Flags)
    ensures FlagsFrom(fmt, i, f).1 >= i && (i <= |fmt| ==> FlagsFrom(fmt, i, f).1 <= |fmt|)
    decreases |fmt| - i
  {
    if IsFlag(At(fmt, i)) { FlagsAdvance(fmt, i + 1, WithFlag(f, fmt[i])); }
  }

  lemma {:induction false} NumberAdvances(fmt: string, i: nat, acc: nat)
    ensures NumberFrom(fmt, i, acc).1 >= i && (i <= |fmt| ==> NumberFrom(fmt, i, acc).1 <= |fmt|)
    decreases |fmt| - i
  {
    if IsDigit(At(fmt, i)) { NumberAdvances(fmt, i + 1, (acc * 10 + (fmt[i] - '0') as nat) % TWO32); }
  }

  lemma DirectiveAdvances(fmt: string, i: nat)
    requires i <= |fmt|
    ensures i <= DirectiveFrom(fmt, i).at <= |fmt|
  {
    FlagsAdvance(fmt, i, {});
    var (f1, i1) := FlagsFrom(fmt, i, {});
    NumberAdvances(fmt, i1, 0);
    var (width, i2) := CountFrom(fmt, i1);
    NumberAdvances(fmt, i2 + 1, 0);
  }

  /**
   Where the format pointer stands after one turn of the loop of `_vsnprintf`. The specifier switch steps
   over whatever it finds, the terminator included.
   */
  function NextAt(fmt: string, i: nat): (j: nat)
    requires i < |fmt|
    ensures i < j <= |fmt| + 1
  {
    if fmt[i] != '%' then i + 1
    else
      DirectiveAdvances(fmt, i + 1);
      DirectiveFrom(fmt, i + 1).at + 1
  }

  /** The format pointer after `n` turns from `i`, or where it stops; |fmt| is the terminator. */
  function PointerAfter(fmt: string, i: nat, n: nat): nat
    decreases n
  {
    if n == 0 || i >= |fmt| then i else PointerAfter(fmt, NextAt(fmt, i), n - 1)
  }

  /** A C string ends before its first null character. */
  function Terminated(s: string): (r: string)
    ensures r <= s && '\0' !in r && (|r| < |s| ==> s[|r|] == '\0')
  {
    if s == "" || s[0] == '\0' then "" else [s[0]] + Terminated(s[1..])
  }

  /** No directive is cut off by the end of the format. */
  predicate Complete(fmt: string, i: nat)
    requires i <= |fmt|
    decreases |fmt| - i
  {
    i == |fmt| || (NextAt(fmt, i) <= |fmt| && Complete(fmt, NextAt(fmt, i)))
  }

  lemma {:induction false} StaysInside(fmt: string, i: nat, n: nat)
    requires i <= |fmt| && Complete(fmt, i)
    ensures PointerAfter(fmt, i, n) <= |fmt|
    decreases n
  {
    if n > 0 && i < |fmt| { StaysInside(fmt, NextAt(fmt, i), n - 1); }
  }

  lemma {:induction false} LeavesAt(fmt: string, i: nat) returns (n: nat)
    requires i <= |fmt| && !Complete(fmt, i)
    ensures PointerAfter(fmt, i, n) == |fmt| + 1
    decreases |fmt| - i
  {
    if NextAt(fmt, i) <= |fmt| {
      n := LeavesAt(fmt, NextAt(fmt, i));
      n := n + 1;
    } else {
      n := 1;
    }
  }

  /** The format pointer passes the terminator, and is then read, exactly for formats that end inside a directive. */
  lemma OverreadsWhenCutOff(fmt: string)
    ensures (exists n :: PointerAfter(fmt, 0, n) > |fmt|) <==> !Complete(fmt, 0)
  {
    if Complete(fmt, 0) {
      forall n ensures PointerAfter(fmt, 0, n) <= |fmt| { StaysInside(fmt, 0, n); }
    } else {
      var n := LeavesAt(fmt, 0);
    }
  }

  /** A lone percent sign is the shortest such format. */
  lemma LonePercentOverreads()
    ensures PointerAfter("%", 0, 1) == 2 > |"%"|
  {
    assert DirectiveFrom("%", 1).at == 1;
  }

  /** Flags, width and precision once `*` has been looked up from argument `k` on. */
  datatype Settings = Settings(f: Flags, width: nat, prec: nat, k: nat)

  function CountValue(c: Count, args: Args, k: nat): int {
    match c case Absent => 0 case Literal(n) => n case Star => Signed(args(k).word, 0x8000_0000)
  }

  function AfterCount(c: Count, k: nat): nat { if c.Star? then k + 1 else k }

  /** A negative width from the arguments means left alignment; a negative precision means none. */
  function Settled(d: Directive, args: Args, k: nat): Settings {
    var w := CountValue(d.width, args, k);
    var k1 := AfterCount(d.width, k);
    var f := if w < 0 then d.f + {Left} else d.f;
    Settings(f, Abs(w), Max(CountValue(d.prec, args, k1), 0), AfterCount(d.prec, k1))
  }

  lemma NoCount(args: Args, k: nat)
    ensures CountValue(Absent, args, k) == 0 && AfterCount(Absent, k) == k
  {
  }

  lemma LengthKeepsLeft(fmt: string, i: nat, f: Flags)
    ensures LengthFrom(fmt, i, f + {Left}) == (LengthFrom(fmt, i, f).0 + {Left}, LengthFrom(fmt, i, f).1)
  {
    var g := f + {Left};
    assert g + {Long} + {LongLong} == f + {Long} + {LongLong} + {Left} && g + {Long} == f + {Long} + {Left};
    assert g + {ShortSize} + {CharSize} == f + {ShortSize} + {CharSize} + {Left};
    assert g + {ShortSize} == f + {ShortSize} + {Left};
  }

  /** The whole output of a format from character `i` and argument `k` on; a directive cut off prints a NUL. */
  ghost function Render(fmt: string, i: nat, args: Args, k: nat, float: FloatText): string
    requires i <= |fmt| + 1
    decreases |fmt| + 1 - i
  {
    if i >= |fmt| then ""
    else if fmt[i] != '%' then [fmt[i]] + Render(fmt, i + 1, args, k, float)
    else
      DirectiveAdvances(fmt, i + 1);
      var d := DirectiveFrom(fmt, i + 1);
      var s := Settled(d, args, k);
      var c := At(fmt, d.at);
      ConversionText(c, args(s.k), s.prec, s.width, s.f, float)
      + Render(fmt, d.at + 1, args, if TakesArg(c) then s.k + 1 else s.k, float)
  }

  lemma RenderLiteral(fmt: string, i: nat, args: Args, k: nat, float: FloatText)
    requires i < |fmt| && fmt[i] != '%'
    ensures NextAt(fmt, i) == i + 1
    ensures Render(fmt, i, args, k, float) == [fmt[i]] + Render(fmt, i + 1, args, k, float)
  {
    hide DirectiveFrom, Settled, ConversionText;
  }

  lemma RenderDirective(fmt: string, i: nat, args: Args, k: nat, float: FloatText)
    requires i < |fmt| && fmt[i] == '%'
    ensures var d := DirectiveFrom(fmt, i + 1); var s := Settled(d, args, k); var c := At(fmt, d.at);
            && i < d.at <= |fmt| && NextAt(fmt, i) == d.at + 1
            && Render(fmt, i, args, k, float)
               == ConversionText(c, args(s.k), s.prec, s.width, s.f, float)
                  + Render(fmt, d.at + 1, args, if TakesArg(c) then s.k + 1 else s.k, float)
  {
    DirectiveAdvances(fmt, i + 1);
    hide DirectiveFrom, Settled, ConversionText;
  }

  lemma RenderEnd(fmt: string, i: nat, args: Args, k: nat, float: FloatText)
    requires |fmt| <= i <= |fmt| + 1
    ensures Render(fmt, i, args, k, float) == ""
  {
  }

  // ---------- cut-off directives, as text ----------

  ghost predicate AllFlags(fmt: string, i: nat, j: nat) { forall k :: i <= k < j && k < |fmt| ==> IsFlag(fmt[k]) }

  ghost predicate AllDigits(fmt: string, i: nat, j: nat) { forall k :: i <= k < j && k < |fmt| ==> IsDigit(fmt[k]) }

  /** A width or a precision: nothing, a star or digits. */
  ghost predicate IsCount(fmt: string, i: nat, j: nat)
    requires i <= j <= |fmt|
  {
    AllDigits(fmt, i, j) || (j == i + 1 && fmt[i] == '*')
  }

  predicate IsLength(s: string) { s in {"", "l", "ll", "h", "hh", "t", "j", "z"} }

  /** From `i` to its end the format is flags, a width, a point with a precision and a length, each of which may be missing. */
  ghost predicate Unfinished(fmt: string, i: nat)
    requires i <= |fmt|
  {
    exists a: nat, b: nat, c: nat :: UnfinishedBy(fmt, i, a, b, c)
  }

  ghost predicate UnfinishedBy(fmt: string, i: nat, a: nat, b: nat, c: nat) {
    && i <= a <= b <= c <= |fmt| && AllFlags(fmt, i, a) && IsCount(fmt, a, b)
    && (b == c || (fmt[b] == '.' && IsCount(fmt, b + 1, c))) && IsLength(fmt[c..])
  }

  /** Flags are read as far as they go. */
  lemma {:induction false} FlagsGo(fmt: string, i: nat, f: Flags, j: nat)
    requires i <= j <= |fmt|
    ensures FlagsFrom(fmt, i, f).1 == j <==> AllFlags(fmt, i, j) && !IsFlag(At(fmt, j))
    decreases j - i
  {
    FlagsAdvance(fmt, i, f);
    if IsFlag(At(fmt, i)) {
      FlagsAdvance(fmt, i + 1, WithFlag(f, fmt[i]));
      if i < j { FlagsGo(fmt, i + 1, WithFlag(f, fmt[i]), j); }
    }
  }

  /** And so are digits. */
  lemma {:induction false} DigitsGo(fmt: string, i: nat, acc: nat, j: nat)
    requires i <= j <= |fmt|
    ensures NumberFrom(fmt, i, acc).1 == j <==> AllDigits(fmt, i, j) && !IsDigit(At(fmt, j))
    decreases j - i
  {
    NumberAdvances(fmt, i, acc);
    if IsDigit(At(fmt, i)) {
      var more := (acc * 10 + (fmt[i] - '0') as nat) % TWO32;
      NumberAdvances(fmt, i + 1, more);
      if i < j { DigitsGo(fmt, i + 1, more, j); }
    }
  }

  lemma CountGoes(fmt: string, i: nat)
    requires i <= |fmt|
    ensures var j := CountFrom(fmt, i).1; i <= j <= |fmt| && IsCount(fmt, i, j)
  {
    NumberAdvances(fmt, i, 0);
    DigitsGo(fmt, i, 0, NumberFrom(fmt, i, 0).1);
  }

  /** A count before something that is neither digit nor star is read to its end. */
  lemma CountEnds(fmt: string, i: nat, j: nat)
    requires i <= j <= |fmt| && IsCount(fmt, i, j) && !IsDigit(At(fmt, j)) && At(fmt, j) != '*'
    ensures CountFrom(fmt, i).1 == j
  {
    DigitsGo(fmt, i, 0, j);
  }

  /** A length read to the end of the format is all there is. */
  lemma LengthEnds(fmt: string, c: nat, f: Flags)
    requires c <= |fmt|
    ensures LengthFrom(fmt, c, f).1 == |fmt| <==> IsLength(fmt[c..])
  {
    var s := fmt[c..];
    if |s| == 1 { assert s == [fmt[c]]; }
    if |s| == 2 { assert s == [fmt[c], fmt[c + 1]]; }
  }

  /** The parser runs into the end of the format if and only if the text is an unfinished directive. */
  lemma CutOffIsUnfinished(fmt: string, i: nat)
    requires i <= |fmt|
    ensures DirectiveFrom(fmt, i).at == |fmt| <==> Unfinished(fmt, i)
  {
    if DirectiveFrom(fmt, i).at == |fmt| { CutOffByText(fmt, i); }
    if Unfinished(fmt, i) {
      var a: nat, b: nat, c: nat :| UnfinishedBy(fmt, i, a, b, c);
      TextCutsOff(fmt, i, a, b, c);
    }
  }

  lemma CutOffByText(fmt: string, i: nat)
    requires i <= |fmt| && DirectiveFrom(fmt, i).at == |fmt|
    ensures Unfinished(fmt, i)
  {
    FlagsAdvance(fmt, i, {});
    var (f1, a) := FlagsFrom(fmt, i, {});
    FlagsGo(fmt, i, {}, a);
    CountGoes(fmt, a);
    var (_, b) := CountFrom(fmt, a);
    var dotted := At(fmt, b) == '.';
    if dotted { CountGoes(fmt, b + 1); }
    var (_, c) := if dotted then CountFrom(fmt, b + 1) else (Absent, b);
    LengthEnds(fmt, c, if dotted then f1 + {Precision} else f1);
    assert UnfinishedBy(fmt, i, a, b, c);
  }

  /** What may follow a width: a point, a length or the end. */
  lemma AfterWidth(fmt: string, i: nat, a: nat, b: nat, c: nat)
    requires UnfinishedBy(fmt, i, a, b, c)
    ensures !IsFlag(At(fmt, b)) && !IsDigit(At(fmt, b)) && At(fmt, b) != '*' && (b == c ==> At(fmt, b) != '.')
    ensures !IsDigit(At(fmt, c)) && At(fmt, c) != '*'
  {
    if c < |fmt| { assert fmt[c..][0] == fmt[c]; }
  }

  lemma TextCutsOff(fmt: string, i: nat, a: nat, b: nat, c: nat)
    requires i <= |fmt| && UnfinishedBy(fmt, i, a, b, c)
    ensures DirectiveFrom(fmt, i).at == |fmt|
  {
    hide UnfinishedBy, IsCount, CountFrom, LengthFrom;
    AfterWidth(fmt, i, a, b, c);
    var a' := FlagsEnd(fmt, i, a, b, c);
    FlagsGo(fmt, i, {}, a');
    CountEnds(fmt, a', b);
    assert b == c || (fmt[b] == '.' && b + 1 <= c && IsCount(fmt, b + 1, c)) by { SplitFacts(fmt, i, a, b, c); }
    if b != c { CountEnds(fmt, b + 1, c); }
    var f1 := FlagsFrom(fmt, i, {}).0;
    LengthEnds(fmt, c, if b != c then f1 + {Precision} else f1);
    SplitFacts(fmt, i, a, b, c);
  }

  lemma SplitFacts(fmt: string, i: nat, a: nat, b: nat, c: nat)
    requires UnfinishedBy(fmt, i, a, b, c)
    ensures i <= a <= b <= c <= |fmt| && (b == c || (fmt[b] == '.' && b + 1 <= c && IsCount(fmt, b + 1, c))) && IsLength(fmt[c..])
  {
  }

  /** The flags may run on into the zeros of the width, which are then read as flags. */
  lemma FlagsEnd(fmt: string, i: nat, a: nat, b: nat, c: nat) returns (a': nat)
    requires UnfinishedBy(fmt, i, a, b, c)
    ensures i <= a' <= b <= |fmt| && AllFlags(fmt, i, a') && !IsFlag(At(fmt, a')) && IsCount(fmt, a', b)
  {
    AfterWidth(fmt, i, a, b, c);
    FlagsAdvance(fmt, i, {});
    a' := FlagsFrom(fmt, i, {}).1;
    FlagsGo(fmt, i, {}, a');
  }

  /** The format pointer, from `i` on, comes to stand at `j`. */
  ghost predicate Reaches(fmt: string, i: nat, j: nat)
    requires i <= |fmt|
    decreases |fmt| - i
  {
    i == j || (i < |fmt| && NextAt(fmt, i) <= |fmt| && Reaches(fmt, NextAt(fmt, i), j))
  }

  /**
   A format is complete if and only if no directive starts in it after which only flags, a width, a
   precision and a length follow to its end.
   */
  lemma CompleteAsText(fmt: string)
    ensures Complete(fmt, 0) <==> !exists j: nat :: j < |fmt| && Reaches(fmt, 0, j) && fmt[j] == '%' && Unfinished(fmt, j + 1)
  {
    hide Unfinished;
    if Complete(fmt, 0) {
      forall j: nat | j < |fmt| && Reaches(fmt, 0, j) && fmt[j] == '%' ensures !Unfinished(fmt, j + 1) {
        CompleteFinishes(fmt, 0, j);
      }
    } else {
      var j := CutOffAt(fmt, 0);
    }
  }

  lemma {:induction false} CompleteFinishes(fmt: string, i: nat, j: nat)
    requires i <= |fmt| && Complete(fmt, i) && j < |fmt| && Reaches(fmt, i, j) && fmt[j] == '%'
    ensures !Unfinished(fmt, j + 1)
    decreases |fmt| - i
  {
    hide Unfinished, DirectiveFrom;
    if i == j { CutOffIsUnfinished(fmt, j + 1); } else { CompleteFinishes(fmt, NextAt(fmt, i), j); }
  }

  lemma {:induction false} CutOffAt(fmt: string, i: nat) returns (j: nat)
    requires i <= |fmt| && !Complete(fmt, i)
    ensures j < |fmt| && Reaches(fmt, i, j) && fmt[j] == '%' && Unfinished(fmt, j + 1)
    decreases |fmt| - i
  {
    hide Unfinished, DirectiveFrom;
    if NextAt(fmt, i) <= |fmt| {
      j := CutOffAt(fmt, NextAt(fmt, i));
    } else {
      j := i;
      DirectiveAdvances(fmt, i + 1);
      CutOffIsUnfinished(fmt, i + 1);
    }
  }

  /** One turn of the loop keeps the question whether the rest is complete. */
  lemma CompleteStep(fmt: string, i: nat)
    requires i < |fmt|
    ensures Complete(fmt, i) <==> NextAt(fmt, i) <= |fmt| && Complete(fmt, NextAt(fmt, i))
  {
  }

  lemma CompleteEnd(fmt: string)
    ensures Complete(fmt, |fmt|)
  {
  }
}
