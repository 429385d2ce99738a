/**
 What the characters of a directive ask for, read off the format, and the field they make: the formatter's
 text once more, from the front and without flag sets or reversed buffers.
 */
module Directives {
  import opened Words
  import opened PrintfSpec
  import opened ReadBack

  // ---------- the text of a directive ----------

  /** The characters between a percent sign and its conversion, in their order. */
  datatype Parts = Parts(flags: string, width: string, precision: string, length: string)

  predicate AllOf(s: string, chars: string) { forall k :: 0 <= k < |s| ==> s[k] in chars }

  predicate Stands(fmt: string, i: nat, s: string) { i + |s| <= |fmt| && fmt[i..i + |s|] == s }

  /** At `i` stand these flags, and no more. */
  predicate FlagsAt(fmt: string, i: nat, s: string) {
    Stands(fmt, i, s) && AllOf(s, "0-+ #") && At(fmt, i + |s|) !in "0-+ #"
  }

  /** At `i` stands this width or precision: a star, or all the decimal digits there are. */
  predicate CountAt(fmt: string, i: nat, s: string) {
    && Stands(fmt, i, s)
    && if At(fmt, i) == '*' then s == "*" else AllOf(s, "0123456789") && At(fmt, i + |s|) !in "0123456789"
  }

  /** At `i` stands a point with its precision, or nothing. */
  predicate PrecisionAt(fmt: string, i: nat, s: string) {
    if At(fmt, i) == '.' then |s| > 0 && s[0] == '.' && CountAt(fmt, i + 1, s[1..]) else s == ""
  }

  /** At `i` stands this length, as long as it can be. */
  predicate LengthAt(fmt: string, i: nat, s: string) {
    && Stands(fmt, i, s) && IsLength(s) && (s == "" ==> At(fmt, i) !in "lhtjz")
    && (s == "l" ==> At(fmt, i + 1) != 'l') && (s == "h" ==> At(fmt, i + 1) != 'h')
  }

  /** `p` is the directive at `i`. */
  predicate IsDirective(fmt: string, i: nat, p: Parts) {
    && FlagsAt(fmt, i, p.flags) && CountAt(fmt, i + |p.flags|, p.width)
    && PrecisionAt(fmt, i + |p.flags| + |p.width|, p.precision)
    && LengthAt(fmt, i + |p.flags| + |p.width| + |p.precision|, p.length)
  }

  function PartsLength(p: Parts): nat { |p.flags| + |p.width| + |p.precision| + |p.length| }

  function CountOf(s: string): (c: Count)
    ensures s == "" ==> c == Absent
  {
    if s == "" then Absent else if s == "*" then Star else Literal(Value(s, 10) % TWO32)
  }

  /** The parsed directive says what the text does. */
  ghost predicate Means(d: Directive, p: Parts) {
    && d.width == CountOf(p.width) && d.prec == (if p.precision == "" then Absent else CountOf(p.precision[1..]))
    && (Left in d.f <==> '-' in p.flags) && (ZeroPad in d.f <==> '0' in p.flags)
    && (Plus in d.f <==> '+' in p.flags) && (Space in d.f <==> ' ' in p.flags) && (Hash in d.f <==> '#' in p.flags)
    && (Precision in d.f <==> p.precision != "") && Upper !in d.f
    && (Long in d.f <==> p.length in {"l", "ll", "t", "j", "z"}) && (LongLong in d.f <==> p.length == "ll")
    && (ShortSize in d.f <==> p.length in {"h", "hh"}) && (CharSize in d.f <==> p.length == "hh")
  }

  /** Which character sets which flag. */
  lemma {:induction false} FlagCharacters(fmt: string, i: nat, f: Flags, j: nat)
    requires i <= j <= |fmt| && FlagsFrom(fmt, i, f).1 == j
    ensures var g := FlagsFrom(fmt, i, f).0; var run := fmt[i..j];
            && (Left in g <==> Left in f || '-' in run) && (ZeroPad in g <==> ZeroPad in f || '0' in run)
            && (Plus in g <==> Plus in f || '+' in run) && (Space in g <==> Space in f || ' ' in run)
            && (Hash in g <==> Hash in f || '#' in run)
            && forall x <- {Upper, CharSize, ShortSize, Long, LongLong, Precision} :: x in g <==> x in f
    decreases j - i
  {
    if IsFlag(At(fmt, i)) {
      FlagsAdvance(fmt, i + 1, WithFlag(f, fmt[i]));
      FlagCharacters(fmt, i + 1, WithFlag(f, fmt[i]), j);
      assert fmt[i..j] == [fmt[i]] + fmt[i + 1..j];
    }
  }

  lemma FlagRun(fmt: string, i: nat) returns (s: string)
    requires i <= |fmt|
    ensures FlagsAt(fmt, i, s) && FlagsFrom(fmt, i, {}).1 == i + |s|
  {
    FlagsAdvance(fmt, i, {});
    var a := FlagsFrom(fmt, i, {}).1;
    FlagsGo(fmt, i, {}, a);
    s := fmt[i..a];
  }

  lemma CountRun(fmt: string, i: nat) returns (s: string)
    requires i <= |fmt|
    ensures CountAt(fmt, i, s) && CountFrom(fmt, i) == (CountOf(s), i + |s|)
  {
    hide Value;
    AtoiValue(fmt, i);
    s := fmt[i..CountFrom(fmt, i).1];
    if IsDigit(At(fmt, i)) {
      assert s[0] == fmt[i];
      assert AllOf(s, "0123456789");
    }
  }

  lemma LengthRun(fmt: string, i: nat, f: Flags) returns (s: string)
    requires i <= |fmt|
    ensures LengthAt(fmt, i, s) && LengthFrom(fmt, i, f).1 == i + |s|
    ensures var g := LengthFrom(fmt, i, f).0;
            && (Long in g <==> Long in f || s in {"l", "ll", "t", "j", "z"})
            && (LongLong in g <==> LongLong in f || s == "ll")
            && (ShortSize in g <==> ShortSize in f || s in {"h", "hh"})
            && (CharSize in g <==> CharSize in f || s == "hh")
            && forall x <- {ZeroPad, Left, Plus, Space, Hash, Upper, Precision} :: x in g <==> x in f
  {
    s := fmt[i..LengthFrom(fmt, i, f).1];
    if |s| == 1 { assert s == [fmt[i]]; }
    if |s| == 2 { assert s == [fmt[i], fmt[i + 1]]; }
  }

  lemma PrecisionRun(fmt: string, i: nat) returns (s: string)
    requires i <= |fmt|
    ensures PrecisionAt(fmt, i, s) && (s != "" <==> At(fmt, i) == '.') && i + |s| <= |fmt|
    ensures s != "" ==> CountFrom(fmt, i + 1) == (CountOf(s[1..]), i + |s|)
  {
    hide CountFrom, CountOf;
    s := "";
    if At(fmt, i) == '.' {
      var n := CountRun(fmt, i + 1);
      s := "." + n;
      assert s[1..] == n;
    }
  }

  /** Every directive splits into its parts, and the parser takes from them what they say. */
  lemma DirectiveMeans(fmt: string, i: nat) returns (p: Parts)
    requires i <= |fmt|
    ensures IsDirective(fmt, i, p) && Means(DirectiveFrom(fmt, i), p) && DirectiveFrom(fmt, i).at == i + PartsLength(p) <= |fmt|
  {
    hide FlagsFrom, CountFrom, LengthFrom, CountOf, PrecisionAt, CountAt, AllOf, IsLength;
    var flags := FlagRun(fmt, i);
    FlagCharacters(fmt, i, {}, i + |flags|);
    var a := i + |flags|;
    var width := CountRun(fmt, a);
    CountStands(fmt, a, width);
    var b := a + |width|;
    var precision := PrecisionRun(fmt, b);
    var c, f1 := b + |precision|, FlagsFrom(fmt, i, {}).0;
    var length := LengthRun(fmt, c, if precision != "" then f1 + {Precision} else f1);
    p := Parts(flags, width, precision, length);
  }

  lemma CountStands(fmt: string, i: nat, s: string)
    requires CountAt(fmt, i, s)
    ensures i + |s| <= |fmt|
  {
  }

  // ---------- what it asks for ----------

  function SignedWord(word: nat, modulus: nat): int
    requires modulus > 0
  {
    var u := word % modulus;
    if 2 * u < modulus then u else u - modulus
  }

  /** How many values an argument of this length has. */
  function Modulus(length: string): (m: nat)
    ensures m > 0
  {
    if length == "hh" then 0x100 else if length == "h" then 0x1_0000 else if length == "" then 0x1_0000_0000
    else 0x1_0000_0000_0000_0000
  }

  function CountArg(s: string, args: Args, k: nat): int {
    if s == "" then 0 else if s == "*" then SignedWord(args(k).word, 0x1_0000_0000) else Value(s, 10) % 0x1_0000_0000
  }

  /** Alignment, padding and sizes, with stars looked up from argument `k` on; `arg` is the argument to convert. */
  datatype Reading = Reading(minus: bool, zero: bool, plus: bool, space: bool, dotted: bool, width: nat, prec: nat, arg: nat)

  /** A negative width asks for left alignment; a negative precision counts as 0. */
  function Read(p: Parts, args: Args, k: nat): Reading {
    var w := CountArg(p.width, args, k);
    var k1 := if p.width == "*" then k + 1 else k;
    var n := if p.precision == "" then 0 else CountArg(p.precision[1..], args, k1);
    Reading('-' in p.flags || w < 0, '0' in p.flags, '+' in p.flags, ' ' in p.flags, p.precision != "",
            Abs(w), Max(n, 0), if p.precision == ".*" then k1 + 1 else k1)
  }

  lemma CountMeans(s: string, args: Args, k: nat)
    ensures CountValue(CountOf(s), args, k) == CountArg(s, args, k) && AfterCount(CountOf(s), k) == if s == "*" then k + 1 else k
  {
    hide Value;
  }

  lemma SettledMeans(d: Directive, p: Parts, args: Args, k: nat)
    requires Means(d, p) && (p.precision != "" ==> p.precision[0] == '.')
    ensures var s := Settled(d, args, k); var r := Read(p, args, k);
            && s.width == r.width && s.prec == r.prec && s.k == r.arg
            && (Left in s.f <==> r.minus) && forall x: Flag :: x != Left ==> (x in s.f <==> x in d.f)
  {
    hide CountValue, CountArg, CountOf, AfterCount;
    CountMeans(p.width, args, k);
    NoCount(args, k);
    NoCount(args, k + 1);
    if p.precision != "" {
      CountMeans(p.precision[1..], args, k);
      CountMeans(p.precision[1..], args, k + 1);
      assert p.precision == ['.'] + p.precision[1..];
      assert p.precision == ".*" <==> p.precision[1..] == "*";
    }
  }

  // ---------- numerals ----------

  function Glyph(d: nat, upper: bool): char
    requires d < 16
  {
    if upper then "0123456789ABCDEF"[d] else "0123456789abcdef"[d]
  }

  /** The numeral of `v`, most significant digit first and without leading zeros. */
  function Numeral(v: nat, base: nat, upper: bool): string
    requires 2 <= base <= 16
    decreases v
  {
    if v < base then [Glyph(v, upper)]
    else
      SmallerQuotient(v, base);
      Numeral(Higher(v, base), base, upper) + [Glyph(Lowest(v, base), upper)]
  }

  lemma SmallerQuotient(v: nat, base: nat)
    requires 2 <= base <= v
    ensures Higher(v, base) < v && Higher(v, base) > 0
  {
    var q := v / base;
    assert v == q * base + v % base;
    AtMostTimes(2, base, q);
  }

  /** The last `n` digits of `v`. */
  function LastDigits(v: nat, base: nat, upper: bool, n: nat): (r: string)
    requires 2 <= base <= 16
    ensures |r| == n
  {
    if n == 0 then "" else LastDigits(Higher(v, base), base, upper, n - 1) + [Glyph(Lowest(v, base), upper)]
  }

  /** The digits that fit the buffer. */
  function DigitText(v: nat, base: nat, upper: bool): string
    requires 2 <= base <= 16
  {
    if v < Pow(base, BUFFER_SIZE) then Numeral(v, base, upper) else LastDigits(v, base, upper, BUFFER_SIZE)
  }

  lemma ReverseOne(c: char, s: string)
    ensures Reverse([c] + s) == Reverse(s) + [c]
  {
  }

  lemma SmallNumeral(v: nat, base: nat)
    requires base >= 2
    ensures v < base <==> Higher(v, base) == 0
    ensures v < base ==> Lowest(v, base) == v
  {
    if v < base {
      Remainder(v, base, 0, v);
    } else {
      SmallerQuotient(v, base);
    }
  }

  /** The digit loop, read backwards, is the numeral, or as many of its digits as there is room for. */
  lemma {:induction false} DigitsForward(v: nat, base: nat, upper: bool, room: nat)
    requires 2 <= base <= 16 && room > 0
    ensures Reverse(Digits(v, base, upper, room))
         == if v < Pow(base, room) then Numeral(v, base, upper) else LastDigits(v, base, upper, room)
    decreases room
  {
    hide Digits, Higher, Lowest, Pow, DigitChar, Glyph, Reverse;
    var h, d := Higher(v, base), Lowest(v, base);
    DigitsStep(v, base, upper, room);
    assert DigitChar(d, upper) == Glyph(d, upper) by { GlyphOf(d, upper); }
    var rest := Digits(v, base, upper, room)[1..];
    ReverseOne(Glyph(d, upper), rest);
    SmallNumeral(v, base);
    PowStep(base, room);
    PowAtLeast(base, room);
    QuotientFits(v, base, room);
    if h == 0 || room == 1 {
      assert Reverse(rest) == "" by { assert rest == ""; EmptyReverse(); }
    } else {
      DigitsForward(h, base, upper, room - 1);
    }
  }

  lemma EmptyReverse()
    ensures Reverse("") == ""
  {
  }

  lemma GlyphOf(d: nat, upper: bool)
    requires d < 16
    ensures DigitChar(d, upper) == Glyph(d, upper)
  {
  }

  lemma PowAtLeast(base: nat, n: nat)
    requires base >= 2 && n > 0
    ensures Pow(base, n) >= base
  {
    assert Pow(base, n - 1) >= 1;
    AtMostTimes(1, Pow(base, n - 1), base);
  }

  lemma QuotientFits(v: nat, base: nat, n: nat)
    requires base >= 2 && n > 0
    ensures v < Pow(base, n) <==> Higher(v, base) < Pow(base, n - 1)
  {
    var q, p := v / base, Pow(base, n - 1);
    if v < Pow(base, n) {
      HigherFits(v, base, n);
    } else if q < p {
      AtMostTimes(q, p - 1, base);
      Distribute(base, p - 1, 1);
    }
  }

  // ---------- fields ----------

  function SignText(negative: bool, plus: bool, space: bool): string {
    if negative then "-" else if plus then "+" else if space then " " else ""
  }

  /**
   A number in its field. With `-` the text comes first and spaces follow; with `0` zeros stand between sign
   and digits; otherwise spaces come first. Zeros, digits and sign share a buffer of 32 characters.
   */
  function Laid(minus: bool, zero: bool, sign: string, digits: string, prec: nat, width: nat): string {
    var zeros := if minus then 0 else Min(Max(prec, if zero then width - |sign| else 0), 32) - |digits|;
    var number := Zeros(zeros) + digits;
    var text := (if |number| < 32 then sign else "") + number;
    if minus then text + Spaces(width - |text|) else if zero then text else Spaces(width - |text|) + text
  }

  lemma ReverseJoin(s: string, t: string)
    ensures Reverse(s + t) == Reverse(t) + Reverse(s)
  {
  }

  lemma ReverseZeros(n: int)
    ensures Reverse(Zeros(n)) == Zeros(n)
  {
  }

  /** Padding zeros, from the front. */
  lemma PaddedForward(digits: string, negative: bool, prec: nat, width: nat, f: Flags)
    requires |digits| <= BUFFER_SIZE
    ensures var room := if ZeroPad in f then width - |SignText(negative, Plus in f, Space in f)| else 0;
            var zeros := if Left in f then 0 else Min(Max(prec, room), BUFFER_SIZE) - |digits|;
            Reverse(Padded(digits, negative, prec, width, f)) == Zeros(zeros) + Reverse(digits)
  {
    var room := if ZeroPad in f then width - |SignText(negative, Plus in f, Space in f)| else 0;
    var zeros := if Left in f then 0 else Min(Max(prec, room), BUFFER_SIZE) - |digits|;
    var p := Padded(digits, negative, prec, width, f);
    assert p == digits + Zeros(zeros);
    ReverseJoin(digits, Zeros(zeros));
    ReverseZeros(zeros);
  }

  lemma SignForward(p: string, negative: bool, f: Flags)
    requires |p| <= BUFFER_SIZE
    ensures var sign := if |p| < BUFFER_SIZE then SignText(negative, Plus in f, Space in f) else "";
            Reverse(SignMark(p, negative, f)) == sign + Reverse(p)
  {
  }

  lemma PlacedText(buf: string, text: string, width: nat, f: Flags)
    requires Reverse(buf) == text
    ensures Placed(buf, width, f) ==
            if Left in f then text + Spaces(width - |text|) else if ZeroPad in f then text else Spaces(width - |text|) + text
  {
    hide Reverse, Spaces;
    ReverseLength(buf);
  }

  lemma NumberLaid(value: nat, negative: bool, base: nat, prec: nat, width: nat, f: Flags)
    requires 2 <= base <= 16 && Hash !in f
    ensures var digits := if Precision in f && value == 0 then "" else DigitText(value, base, Upper in f);
            Number(value, negative, base, prec, width, f) ==
            Laid(Left in f, ZeroPad in f, SignText(negative, Plus in f, Space in f), digits, prec, width)
  {
    hide Digits, DigitText, Padded, SignMark, Reverse, Zeros, Min, Max, Placed, Spaces;
    assert f - {Hash} == f;
    var ds := NumberDigits(value, base, f);
    var digits := if Precision in f && value == 0 then "" else DigitText(value, base, Upper in f);
    assert Reverse(ds) == digits && |ds| == |digits| <= BUFFER_SIZE by {
      EmptyReverse();
      DigitsForward(value, base, Upper in f, BUFFER_SIZE);
      ReverseLength(ds);
      assert DigitText(value, base, Upper in f) == Reverse(Digits(value, base, Upper in f, BUFFER_SIZE)) by { DigitTextIs(value, base, Upper in f); }
    }
    var p := Padded(ds, negative, prec, width, f);
    PaddedForward(ds, negative, prec, width, f);
    ReverseLength(p);
    assert |p| <= BUFFER_SIZE by { PaddedFits(ds, negative, prec, width, f); }
    SignForward(p, negative, f);
    var buf := SignMark(p, negative, f);
    PlacedText(buf, Reverse(buf), SignedWidth(negative, width, f), f);
  }

  lemma DigitTextIs(v: nat, base: nat, upper: bool)
    requires 2 <= base <= 16
    ensures DigitText(v, base, upper) == Reverse(Digits(v, base, upper, BUFFER_SIZE))
  {
    hide Digits, Reverse, Numeral, LastDigits, Pow;
    DigitsForward(v, base, upper, BUFFER_SIZE);
  }

  lemma PaddedFits(digits: string, negative: bool, prec: nat, width: nat, f: Flags)
    requires |digits| <= BUFFER_SIZE
    ensures |Padded(digits, negative, prec, width, f)| <= BUFFER_SIZE
  {
  }

  lemma ReverseLength(s: string)
    ensures |Reverse(s)| == |s|
  {
  }

  // ---------- conversions ----------

  /** An unsigned or negated number as `r` asks for it. */
  function NumberField(r: Reading, zero: bool, sign: string, v: nat, base: nat, upper: bool): string
    requires 2 <= base <= 16
  {
    Laid(r.minus, zero, sign, if r.dotted && v == 0 then "" else DigitText(v, base, upper), r.prec, r.width)
  }

  /** `text` in its field of `width`, where it counts as `counted` characters. */
  function TextField(r: Reading, text: string, counted: int): string {
    if r.minus then text + Spaces(r.width - counted) else Spaces(r.width - counted) + text
  }

  /** The first characters of a string, up to the precision if there is one. */
  function Clip(r: Reading, text: string): string { if r.dotted && r.prec < |text| then text[..r.prec] else text }

  /** What conversion `c` prints for a directive: every conversion but the floating-point ones. */
  function Printed(p: Parts, c: char, args: Args, k: nat): string {
    var r := Read(p, args, k);
    var word, text := args(r.arg).word, args(r.arg).text;
    var u, zero := word % Modulus(p.length), r.zero && !r.dotted;
    match c
    case 'd' | 'i' =>
      var v := SignedWord(word, Modulus(p.length));
      NumberField(r, zero, SignText(v < 0, r.plus, r.space), Abs(v), 10, false)
    case 'u' => NumberField(r, zero, "", u, 10, false)
    case 'x' => NumberField(r, zero, "", u, 16, false)
    case 'X' => NumberField(r, zero, "", u, 16, true)
    case 'o' => NumberField(r, zero, "", u, 8, false)
    case 'b' => NumberField(r, zero, "", u, 2, false)
    case 'c' => TextField(r, [(word % 256) as char], 1)
    case 's' => TextField(r, Clip(r, text), if r.dotted then |Clip(r, text)| else |text| % 0x1_0000_0000)
    case 'p' => NumberField(r.(width := 16), true, SignText(false, r.plus, r.space), word % TWO64, 16, true)
    case _ => [c]
  }

  /** Every conversion but the floating-point ones, whose text is a parameter, and those that print a prefix. */
  predicate Covered(c: char, p: Parts) { c !in "fFeEgG" && ('#' in p.flags ==> c !in "xXobp") }

  /** How many arguments a conversion takes, stars aside. */
  function Takes(c: char): nat { if c in "diuxXobfFeEgGcsp" then 1 else 0 }

  /** The size of an integer argument is that of its length modifier. */
  lemma ArgumentSizes(f: Flags, length: string, a: Arg)
    requires IsLength(length) && (Long in f <==> length in {"l", "ll", "t", "j", "z"}) && (LongLong in f <==> length == "ll")
    requires (ShortSize in f <==> length in {"h", "hh"}) && (CharSize in f <==> length == "hh")
    ensures UnsignedArg(f, a) == a.word % Modulus(length) && SignedArg(f, a) == SignedWord(a.word, Modulus(length))
  {
  }

  /** An integer conversion's flags, one by one. */
  lemma IntegerFlagsMean(c: char, f: Flags)
    ensures var g := IntegerFlags(c, f);
            && (Left in g <==> Left in f) && (ZeroPad in g <==> ZeroPad in f && Precision !in f)
            && (Plus in g <==> Plus in f && (c == 'd' || c == 'i')) && (Space in g <==> Space in f && (c == 'd' || c == 'i'))
            && (Hash in g ==> Hash in f) && (c == 'd' || c == 'i' || c == 'u' ==> IsInteger(c) && Hash !in g)
            && (Precision in g <==> Precision in f) && (Upper in g <==> Upper in f || c == 'X')
  {
  }

  /** Flags `f` are those of reading `r`, with the length modifier's. */
  ghost predicate Agree(f: Flags, r: Reading, length: string) {
    && (Left in f <==> r.minus) && (ZeroPad in f <==> r.zero) && (Plus in f <==> r.plus) && (Space in f <==> r.space)
    && (Precision in f <==> r.dotted) && Upper !in f && IsLength(length)
    && (Long in f <==> length in {"l", "ll", "t", "j", "z"}) && (LongLong in f <==> length == "ll")
    && (ShortSize in f <==> length in {"h", "hh"}) && (CharSize in f <==> length == "hh")
  }

  lemma IntegerPrinted(c: char, a: Arg, r: Reading, length: string, f: Flags)
    requires IsInteger(c) && Agree(f, r, length) && (Hash in f ==> c in "diu")
    ensures var u, v, zero := a.word % Modulus(length), SignedWord(a.word, Modulus(length)), r.zero && !r.dotted;
            var base := if c == 'x' || c == 'X' then 16 else if c == 'o' then 8 else if c == 'b' then 2 else 10;
            IntegerText(c, a, r.prec, r.width, f) ==
            if c == 'd' || c == 'i' then NumberField(r, zero, SignText(v < 0, r.plus, r.space), Abs(v), 10, false)
            else NumberField(r, zero, "", u, base, c == 'X')
  {
    hide Number, DigitText, Laid, IntegerFlags, SignedArg, UnsignedArg, SignedWord, Modulus, SignText;
    var g := IntegerFlags(c, f);
    IntegerFlagsMean(c, f);
    SizesKept(c, f, a);
    ArgumentSizes(f, length, a);
    NoSign();
    if c == 'd' || c == 'i' {
      var v := SignedArg(f, a);
      NumberLaid(Abs(v), v < 0, 10, r.prec, r.width, g);
    } else {
      NumberLaid(UnsignedArg(f, a), false, Base(c), r.prec, r.width, g);
    }
  }

  lemma NoSign()
    ensures SignText(false, false, false) == ""
  {
  }

  lemma PointerPrinted(a: Arg, r: Reading, length: string, f: Flags)
    requires Agree(f, r, length) && Hash !in f
    ensures Number(a.word % TWO64, false, 16, r.prec, 16, f + {ZeroPad, Upper}) ==
            NumberField(r.(width := 16), true, SignText(false, r.plus, r.space), a.word % TWO64, 16, true)
  {
    hide Number, DigitText, Laid, SignText;
    NumberLaid(a.word % TWO64, false, 16, r.prec, 16, f + {ZeroPad, Upper});
  }

  lemma StringPrinted(text: string, r: Reading, length: string, f: Flags)
    requires Agree(f, r, length) && |text| < TWO64 && r.prec < TWO32 && (!r.dotted ==> r.prec == 0)
    ensures StringText(text, r.prec, r.width, f) ==
            TextField(r, Clip(r, text), if r.dotted then |Clip(r, text)| else |text| % 0x1_0000_0000)
  {
  }

  /** The text of a directive is what its characters ask for. */
  lemma ConversionPrinted(c: char, p: Parts, args: Args, k: nat, f: Flags, float: FloatText)
    requires var r := Read(p, args, k); Agree(f, r, p.length) && r.prec < TWO32 && (!r.dotted ==> r.prec == 0)
    requires |args(Read(p, args, k).arg).text| < TWO64 && Covered(c, p) && (Hash in f <==> '#' in p.flags)
    ensures var r := Read(p, args, k);
            ConversionText(c, args(r.arg), r.prec, r.width, f, float) == Printed(p, c, args, k)
  {
    hide Read, IntegerText, Number, NumberField, StringText, TextField, Clip, Agree, Modulus, SignedWord, SignText;
    var r := Read(p, args, k);
    var a := args(r.arg);
    if IsInteger(c) {
      IntegerPrinted(c, a, r, p.length, f);
    } else if c == 's' {
      StringPrinted(a.text, r, p.length, f);
    } else if c == 'p' {
      PointerPrinted(a, r, p.length, f);
    } else if c == 'c' {
      assert CharText((a.word % 0x100) as char, r.width, f) == TextField(r, [(a.word % 256) as char], 1) by {
        CharPrinted((a.word % 256) as char, r, p.length, f);
      }
    }
  }

  lemma CharPrinted(ch: char, r: Reading, length: string, f: Flags)
    requires Agree(f, r, length)
    ensures CharText(ch, r.width, f) == TextField(r, [ch], 1)
  {
  }

  // ---------- whole formats ----------

  lemma RunUnique(fmt: string, i: nat, s: string, t: string, chars: string)
    requires Stands(fmt, i, s) && AllOf(s, chars) && At(fmt, i + |s|) !in chars
    requires Stands(fmt, i, t) && AllOf(t, chars) && At(fmt, i + |t|) !in chars
    ensures s == t
  {
    if |s| < |t| { InLongerRun(fmt, i, t, |s|, chars); }
    if |t| < |s| { InLongerRun(fmt, i, s, |t|, chars); }
  }

  lemma InLongerRun(fmt: string, i: nat, t: string, n: nat, chars: string)
    requires Stands(fmt, i, t) && AllOf(t, chars) && n < |t|
    ensures At(fmt, i + n) in chars
  {
    assert t[n] == fmt[i + n];
  }

  lemma CountUnique(fmt: string, i: nat, s: string, t: string)
    requires CountAt(fmt, i, s) && CountAt(fmt, i, t)
    ensures s == t
  {
    if At(fmt, i) != '*' { RunUnique(fmt, i, s, t, "0123456789"); }
  }

  lemma LengthUnique(fmt: string, i: nat, s: string, t: string)
    requires LengthAt(fmt, i, s) && LengthAt(fmt, i, t)
    ensures s == t
  {
    hide IsLength;
    LengthFirst(fmt, i, s);
    LengthFirst(fmt, i, t);
  }

  lemma LengthFirst(fmt: string, i: nat, s: string)
    requires LengthAt(fmt, i, s)
    ensures s == if At(fmt, i) == 'l' then (if At(fmt, i + 1) == 'l' then "ll" else "l")
                 else if At(fmt, i) == 'h' then (if At(fmt, i + 1) == 'h' then "hh" else "h")
                 else if At(fmt, i) in "tjz" then [fmt[i]] else ""
  {
    if |s| > 0 { assert s[0] == fmt[i]; }
    if |s| > 1 { assert s[1] == fmt[i + 1]; }
  }

  /** A directive splits in one way only. */
  lemma DirectiveUnique(fmt: string, i: nat, p: Parts, q: Parts)
    requires IsDirective(fmt, i, p) && IsDirective(fmt, i, q)
    ensures p == q
  {
    hide AllOf, LengthAt, CountAt;
    RunUnique(fmt, i, p.flags, q.flags, "0-+ #");
    CountUnique(fmt, i + |p.flags|, p.width, q.width);
    var b := i + |p.flags| + |p.width|;
    if At(fmt, b) == '.' {
      CountUnique(fmt, b + 1, p.precision[1..], q.precision[1..]);
      assert p.precision == ['.'] + p.precision[1..] && q.precision == ['.'] + q.precision[1..];
    }
    LengthUnique(fmt, b + |p.precision|, p.length, q.length);
  }

  /** Readings are small. */
  lemma ReadingBounds(p: Parts, args: Args, k: nat)
    ensures var r := Read(p, args, k); r.prec < TWO32 && (!r.dotted ==> r.prec == 0)
  {
    hide Value;
  }

  /** A conversion takes the arguments that its stars and its letter take. */
  lemma TakesMeans(c: char)
    ensures Takes(c) == if TakesArg(c) then 1 else 0
  {
  }

  /**
   Every directive of every format: its text is what its characters ask for, and the rest of the format is
   printed after it with the arguments left.
   */
  lemma DirectivePrinted(fmt: string, i: nat, p: Parts, args: Args, k: nat, float: FloatText)
    requires i < |fmt| && fmt[i] == '%' && IsDirective(fmt, i + 1, p)
    requires forall n :: |args(n).text| < TWO64
    ensures var at := i + 1 + PartsLength(p); var c := At(fmt, at); var k' := Read(p, args, k).arg + Takes(c);
            && at <= |fmt| && NextAt(fmt, i) == at + 1
            && (Covered(c, p)
                ==> Render(fmt, i, args, k, float) == Printed(p, c, args, k) + Render(fmt, at + 1, args, k', float))
  {
    hide Read, Printed, Settled, ConversionText, DirectiveFrom, TakesArg, Takes, Render, NextAt, IsDirective, Covered, PartsLength;
    var q := DirectiveMeans(fmt, i + 1);
    DirectiveUnique(fmt, i + 1, p, q);
    var d := DirectiveFrom(fmt, i + 1);
    PrecisionStarts(fmt, i + 1, p);
    SettledMeans(d, p, args, k);
    RenderDirective(fmt, i, args, k, float);
    var c, s, r := At(fmt, d.at), Settled(d, args, k), Read(p, args, k);
    ReadingBounds(p, args, k);
    TakesMeans(c);
    assert Agree(s.f, r, p.length) by { ReadFlags(p, args, k); }
    if Covered(c, p) {
      ConversionPrinted(c, p, args, k, s.f, float);
    }
  }

  lemma PrecisionStarts(fmt: string, i: nat, p: Parts)
    requires IsDirective(fmt, i, p)
    ensures (p.precision != "" ==> p.precision[0] == '.') && IsLength(p.length)
  {
  }

  lemma ReadFlags(p: Parts, args: Args, k: nat)
    ensures var r := Read(p, args, k);
            && (r.zero <==> '0' in p.flags) && (r.plus <==> '+' in p.flags) && (r.space <==> ' ' in p.flags)
            && (r.dotted <==> p.precision != "")
  {
  }

  /** Everything else is printed as it stands. */
  lemma {:induction false} LiteralPrinted(fmt: string, i: nat, j: nat, args: Args, k: nat, float: FloatText)
    requires i <= j <= |fmt| && '%' !in fmt[i..j]
    ensures Render(fmt, i, args, k, float) == fmt[i..j] + Render(fmt, j, args, k, float)
    decreases j - i
  {
    hide Render, DirectiveFrom;
    if i < j {
      assert fmt[i..j] == [fmt[i]] + fmt[i + 1..j];
      RenderLiteral(fmt, i, args, k, float);
      LiteralPrinted(fmt, i + 1, j, args, k, float);
    } else {
      assert fmt[i..j] == "";
    }
  }

  // ---------- prefixes ----------

  function PrefixText(c: char): string { if c == 'x' then "0x" else if c == 'X' then "0X" else if c == 'b' then "0b" else "0" }

  /** With `#` and neither zeros nor precision, the prefix stands before the digits, if these are not just as many as the width. */
  lemma PrefixPrinted(c: char, a: Arg, width: nat, f: Flags)
    requires c in "xXob" && Hash in f && Precision !in f && ZeroPad !in f && Upper !in f && UnsignedArg(f, a) > 0
    requires var digits := DigitText(UnsignedArg(f, a), Base(c), c == 'X'); |digits| <= 30 && |digits| != width
    ensures var text := PrefixText(c) + DigitText(UnsignedArg(f, a), Base(c), c == 'X');
            IntegerText(c, a, 0, width, f) == if Left in f then text + Spaces(width - |text|) else Spaces(width - |text|) + text
  {
    hide UnsignedArg, SignedArg, DigitText, Digits, Reverse, Padded, HashMark, Placed, Spaces, IntegerFlags, PrefixText;
    SizesKept(c, f, a);
    IntegerFlagsMean(c, f);
    assert Hash in IntegerFlags(c, f) by { HashKept(c, f); }
    var v, g := UnsignedArg(f, a), IntegerFlags(c, f);
    var ds := Digits(v, Base(c), c == 'X', BUFFER_SIZE);
    DigitTextIs(v, Base(c), c == 'X');
    ReverseLength(ds);
    assert Padded(ds, false, 0, width, g) == ds by { PaddedNothing(ds, width, g); }
    var buf := HashMark(ds, Base(c), 0, width, g);
    assert Reverse(buf) == PrefixText(c) + Reverse(ds) by { PrefixReversed(c, ds, width, g); }
    PlacedText(buf, Reverse(buf), width, g);
  }

  lemma HashKept(c: char, f: Flags)
    requires c in "xXob" && Hash in f
    ensures Hash in IntegerFlags(c, f)
  {
  }

  lemma PaddedNothing(ds: string, width: nat, f: Flags)
    requires ZeroPad !in f
    ensures Padded(ds, false, 0, width, f) == ds
  {
    assert ds + Zeros(0 - |ds|) == ds;
  }

  lemma PrefixReversed(c: char, ds: string, width: nat, f: Flags)
    requires c in "xXob" && Hash in f && 1 <= |ds| <= 30 && |ds| != width && (Upper in f <==> c == 'X')
    ensures Reverse(HashMark(ds, Base(c), 0, width, f)) == PrefixText(c) + Reverse(ds)
  {
  }

  // ---------- three formats ----------

  lemma FortyTwo()
    ensures DigitText(42, 10, false) == "42"
  {
    assert Pow(10, BUFFER_SIZE) >= TWO64 by { RoomForWords('d'); }
    assert Higher(42, 10) == 4 && Lowest(42, 10) == 2;
    assert Numeral(4, 10, false) == "4";
  }

  /** `%-5d`, `%05d` and `%5d` of 42. */
  lemma FortyTwoPrinted(args: Args, float: FloatText)
    requires args(0).word == 42 && forall n :: |args(n).text| < TWO64
    ensures Render("%-5d", 0, args, 0, float) == "42   " && Render("%05d", 0, args, 0, float) == "00042"
    ensures Render("%5d", 0, args, 0, float) == "   42"
  {
    hide Render, FiveField;
    assert "%-5d" == "%" + "-" + "5d" && "%05d" == "%" + "0" + "5d" && "%5d" == "%" + "" + "5d";
    FortyTwoAs("-", args, float);
    FortyTwoAs("0", args, float);
    FortyTwoAs("", args, float);
    assert FiveField("-") == "42   " && FiveField("0") == "00042" && FiveField("") == "   42" by { FiveFields(); }
  }

  function FiveField(flag: string): string { Laid(flag == "-", flag == "0", "", "42", 0, 5) }

  lemma FiveFields()
    ensures FiveField("-") == "42   " && FiveField("0") == "00042" && FiveField("") == "   42"
  {
    assert Zeros(3) == "000" && Spaces(3) == "   ";
  }

  lemma FiveDirective(flag: string)
    requires flag in {"-", "0", ""}
    ensures var fmt := "%" + flag + "5d"; IsDirective(fmt, 1, Parts(flag, "5", "", "")) && At(fmt, |flag| + 2) == 'd'
  {
    var fmt := "%" + flag + "5d";
    assert fmt[|flag| + 1] == '5' && fmt[|flag| + 2] == 'd';
    assert FlagsAt(fmt, 1, flag) by { assert fmt[1..1 + |flag|] == flag; }
    assert CountAt(fmt, 1 + |flag|, "5") by { assert fmt[|flag| + 1..|flag| + 2] == "5"; }
    assert LengthAt(fmt, |flag| + 2, "");
  }

  lemma FivePrinted(flag: string, args: Args)
    requires flag in {"-", "0", ""} && args(0).word == 42
    ensures Printed(Parts(flag, "5", "", ""), 'd', args, 0) == FiveField(flag)
  {
    assert Value("5", 10) == 5 by { assert "5"[..0] == ""; assert Value("", 10) == 0; }
    FortyTwo();
    hide DigitText, Laid, Value;
    assert Read(Parts(flag, "5", "", ""), args, 0) == Reading(flag == "-", flag == "0", false, false, false, 5, 0, 0);
    assert SignedWord(42, Modulus("")) == 42;
  }

  lemma FortyTwoAs(flag: string, args: Args, float: FloatText)
    requires flag in {"-", "0", ""} && args(0).word == 42 && forall n :: |args(n).text| < TWO64
    ensures Render("%" + flag + "5d", 0, args, 0, float) == FiveField(flag)
  {
    hide Render, IsDirective, Printed, FiveField, Read, Takes;
    var p, fmt := Parts(flag, "5", "", ""), "%" + flag + "5d";
    FiveDirective(flag);
    FivePrinted(flag, args);
    DirectivePrinted(fmt, 0, p, args, 0, float);
    RenderEnd(fmt, |fmt|, args, Read(p, args, 0).arg + Takes('d'), float);
  }
}
