/** What a reader makes of printed integers: surrounding spaces dropped, an optional sign, positional digits. */
module ReadBack {
  import opened Words
  import opened PrintfSpec

  function DigitValue(c: char): nat {
    if '0' <= c <= '9' then (c - '0') as nat
    else if 'a' <= c <= 'f' then (c - 'a') as nat + 10
    else if 'A' <= c <= 'F' then (c - 'A') as nat + 10
    else 0
  }

  /** Most significant digit first. */
  function Value(text: string, base: nat): nat {
    if text == [] then 0 else Value(text[..|text| - 1], base) * base + DigitValue(text[|text| - 1])
  }

  function Trim(text: string): string {
    if text == [] then []
    else if text[0] == ' ' then Trim(text[1..])
    else if text[|text| - 1] == ' ' then Trim(text[..|text| - 1])
    else text
  }

  function SignedValue(text: string, base: nat): int {
    if text != [] && text[0] == '-' then 0 - Value(text[1..], base) as int
    else if text != [] && text[0] == '+' then Value(text[1..], base)
    else Value(text, base)
  }

  function Pow(base: nat, n: nat): (r: nat)
    ensures base > 0 ==> r > 0
  {
    if n == 0 then 1 else base * Pow(base, n - 1)
  }

  // ---------- digits ----------

  lemma {:induction false} PowSum(base: nat, m: nat, n: nat)
    ensures Pow(base, m + n) == Pow(base, m) * Pow(base, n)
  {
    if m > 0 {
      PowSum(base, m - 1, n);
      Associate(base, Pow(base, m - 1), Pow(base, n));
    }
  }

  lemma Pow16(base: nat)
    ensures var q := base * base * (base * base); Pow(base, 4) == q && Pow(base, 16) == q * q * (q * q)
  {
    assert Pow(base, 2) == base * base by { assert Pow(base, 1) == base * Pow(base, 0); }
    hide Pow;
    PowSum(base, 2, 2);
    PowSum(base, 4, 4);
    PowSum(base, 8, 8);
  }

  lemma Pow32(base: nat)
    ensures var q := base * base * (base * base); Pow(base, 32) == q * q * (q * q) * (q * q * (q * q))
  {
    hide Pow;
    Pow16(base);
    PowSum(base, 16, 16);
  }

  lemma DigitReadsBack(d: nat, upper: bool)
    requires d < 16
    ensures DigitValue(DigitChar(d, upper)) == d && DigitChar(d, upper) !in {' ', '-', '+'}
  {
  }

  /** The number in the digit buffer, whose least significant digit comes first. */
  function Stored(buf: string, base: nat): nat { Value(Reverse(buf), base) }

  lemma StoredStep(buf: string, base: nat)
    requires buf != []
    ensures Stored(buf, base) == Stored(buf[1..], base) * base + DigitValue(buf[0])
  {
    assert Reverse(buf)[..|buf| - 1] == Reverse(buf[1..]);
  }

  lemma RemainderStep(v: nat, base: nat, p: nat)
    requires base >= 2 && p >= 1
    ensures Higher(v, base) % p * base + Lowest(v, base) == v % (base * p)
  {
    var q, r := v / base / p, v / base % p;
    assert v / base == p * q + r && v == base * (v / base) + v % base;
    calc {
      v;
      base * (p * q + r) + v % base;
      { Distribute(base, p * q, r); Associate(base, p, q); }
      base * p * q + (r * base + v % base);
    }
    assert r * base + v % base < base * p by {
      AtMostTimes(r, p - 1, base);
      Distribute(base, p - 1, 1);
    }
    TimesAtLeast(base, p);
    Remainder(v, base * p, q, r * base + v % base);
  }

  lemma Distribute(a: int, b: int, c: int)
    ensures a * (b + c) == a * b + a * c
  {
  }

  lemma Associate(a: int, b: int, c: int)
    ensures a * (b * c) == a * b * c
  {
  }

  lemma AtMostTimes(a: nat, b: nat, c: nat)
    requires a <= b
    ensures a * c <= b * c && b * c == c * b
  {
  }

  /** The digit loop keeps the value up to the number of digits it has room for. */
  lemma {:induction false} DigitsReadBack(v: nat, base: nat, upper: bool, room: nat)
    requires 2 <= base <= 16 && room > 0
    ensures Stored(Digits(v, base, upper, room), base) == v % Pow(base, room)
    decreases room
  {
    hide Digits, Stored, DigitChar, DigitValue, Higher, Lowest, Pow;
    DigitsStep(v, base, upper, room);
    StoredStep(Digits(v, base, upper, room), base);
    DigitReadsBack(Lowest(v, base), upper);
    PowStep(base, room);
    RemainderStep(v, base, Pow(base, room - 1));
    if Higher(v, base) == 0 || room == 1 {
      NoDigits(base);
      NothingLeft(Higher(v, base), Pow(base, room - 1));
    } else {
      DigitsReadBack(Higher(v, base), base, upper, room - 1);
    }
  }

  lemma PowStep(base: nat, n: nat)
    requires n > 0
    ensures Pow(base, n) == base * Pow(base, n - 1) && Pow(base, 0) == 1
  {
  }

  lemma NothingLeft(h: nat, p: nat)
    requires p > 0 && (h == 0 || p == 1)
    ensures h % p == 0
  {
    if p == 1 { Remainder(h, 1, h, 0); } else { Remainder(0, p, 0, 0); }
  }

  lemma NoDigits(base: nat)
    ensures Stored([], base) == 0
  {
    assert Reverse([]) == [];
  }

  // ---------- padding ----------

  /** Neither space nor sign. */
  predicate Plain(buf: string) { forall i :: 0 <= i < |buf| ==> buf[i] !in {' ', '-', '+'} }

  lemma {:induction false} DigitsPlain(v: nat, base: nat, upper: bool, room: nat)
    requires 2 <= base <= 16 && room > 0
    ensures Plain(Digits(v, base, upper, room))
    decreases room
  {
    hide Digits, Higher, Lowest;
    DigitsStep(v, base, upper, room);
    DigitReadsBack(Lowest(v, base), upper);
    if Higher(v, base) != 0 && room > 1 { DigitsPlain(Higher(v, base), base, upper, room - 1); }
  }

  lemma {:induction false} LeadingZeros(buf: string, n: int, base: nat)
    ensures Stored(buf + Zeros(n), base) == Stored(buf, base)
    decreases |buf|, n
  {
    hide Stored;
    if buf != [] {
      StoredStep(buf, base);
      StoredStep(buf + Zeros(n), base);
      assert (buf + Zeros(n))[1..] == buf[1..] + Zeros(n);
      LeadingZeros(buf[1..], n, base);
    } else if n > 0 {
      assert [] + Zeros(n) == Zeros(n) && Zeros(n)[1..] == [] + Zeros(n - 1);
      StoredStep(Zeros(n), base);
      LeadingZeros([], n - 1, base);
      NoDigits(base);
    } else {
      assert buf + Zeros(n) == buf;
    }
  }

  /** Padding changes neither the value nor what the digits are made of. */
  lemma PaddedReadsBack(digits: string, negative: bool, base: nat, prec: nat, width: nat, f: Flags)
    requires Plain(digits) && |digits| <= BUFFER_SIZE
    ensures var p := Padded(digits, negative, prec, width, f);
            Plain(p) && |p| <= BUFFER_SIZE && Stored(p, base) == Stored(digits, base)
  {
    hide Stored;
    LeadingZeros(digits, Min(prec, BUFFER_SIZE) - |digits|, base);
    var b := PadZeros(digits, prec);
    LeadingZeros(b, Min(SignedWidth(negative, width, f), BUFFER_SIZE) - |b|, base);
  }

  /** Digits and padding leave room for a sign. */
  predicate SignFits(negative: bool, prec: nat, width: nat, f: Flags) {
    Left in f || (prec < BUFFER_SIZE && (ZeroPad in f ==> SignedWidth(negative, width, f) < BUFFER_SIZE))
  }

  lemma SignFitsExactly(digits: string, negative: bool, prec: nat, width: nat, f: Flags)
    requires |digits| < BUFFER_SIZE
    ensures |Padded(digits, negative, prec, width, f)| < BUFFER_SIZE <==> SignFits(negative, prec, width, f)
  {
  }

  lemma {:induction false} TrimSpaces(a: int, text: string, b: int)
    requires text == [] || (text[0] != ' ' && text[|text| - 1] != ' ')
    ensures Trim(Spaces(a) + text + Spaces(b)) == text
    decreases Max(a, 0) + Max(b, 0)
  {
    var s := Spaces(a) + text + Spaces(b);
    if a > 0 {
      assert s[1..] == Spaces(a - 1) + text + Spaces(b);
      TrimSpaces(a - 1, text, b);
    } else if b > 0 {
      assert s[..|s| - 1] == Spaces(a) + text + Spaces(b - 1);
      assert text == [] ==> s[1..] == s[..|s| - 1];
      TrimSpaces(a, text, b - 1);
    } else {
      assert s == text;
    }
  }

  lemma NumberDigitsReadBack(value: nat, base: nat, f: Flags)
    requires 2 <= base <= 16
    ensures var ds := NumberDigits(value, base, f);
            Plain(ds) && |ds| <= BUFFER_SIZE && Stored(ds, base) == value % Pow(base, BUFFER_SIZE)
  {
    hide Digits, Stored, Pow;
    DigitsPlain(value, base, Upper in f, BUFFER_SIZE);
    DigitsReadBack(value, base, Upper in f, BUFFER_SIZE);
    NoDigits(base);
    assert 0 % Pow(base, BUFFER_SIZE) == 0;
  }

  function Sign(negative: bool, f: Flags): string { if negative then "-" else if Plus in f then "+" else "" }

  /** What is left of a number between its spaces: a sign if there was room for one, then the padded digits. */
  lemma NumberTrimmed(value: nat, negative: bool, base: nat, prec: nat, width: nat, f: Flags)
    requires 2 <= base <= 16 && Hash !in f
    ensures var p := Padded(NumberDigits(value, base, f), negative, prec, width, f);
            && Plain(p) && |p| <= BUFFER_SIZE && Stored(p, base) == value % Pow(base, BUFFER_SIZE)
            && Trim(Number(value, negative, base, prec, width, f)) == Core(p, negative, f)
  {
    hide Padded, Stored, Pow, SignedWidth, Trim, Core, NumberDigits, SignMark, Placed, Plain;
    assert f - {Hash} == f;
    var digits := NumberDigits(value, base, f);
    NumberDigitsReadBack(value, base, f);
    PaddedReadsBack(digits, negative, base, prec, width, f);
    var p := Padded(digits, negative, prec, width, f);
    PlacedTrimmed(p, negative, SignedWidth(negative, width, f), f);
  }

  /** The part of a number between its spaces. */
  function Core(p: string, negative: bool, f: Flags): string {
    (if |p| < BUFFER_SIZE then Sign(negative, f) else "") + Reverse(p)
  }

  lemma SignMarked(p: string, negative: bool, f: Flags)
    requires |p| <= BUFFER_SIZE
    ensures var lead := |p| < BUFFER_SIZE && !negative && Plus !in f && Space in f;
            Reverse(SignMark(p, negative, f)) == (if lead then " " else "") + Core(p, negative, f)
  {
  }

  lemma PlacedTrimmed(p: string, negative: bool, w: nat, f: Flags)
    requires Plain(p) && |p| <= BUFFER_SIZE
    ensures Trim(Placed(SignMark(p, negative, f), w, f)) == Core(p, negative, f)
  {
    var text := Core(p, negative, f);
    assert text != [] ==> text[0] != ' ' && text[|text| - 1] != ' ';
    SignMarked(p, negative, f);
    hide Trim, SignMark, Core;
    var buf := SignMark(p, negative, f);
    var a := if Left !in f && ZeroPad !in f then w - |buf| else 0;
    var b := if Left in f then w - |buf| else 0;
    assert Placed(buf, w, f) == Spaces(a) + Reverse(buf) + Spaces(b);
    if |p| < BUFFER_SIZE && !negative && Plus !in f && Space in f {
      assert Spaces(a) + Reverse(buf) == Spaces(Max(a, 0) + 1) + text;
      TrimSpaces(Max(a, 0) + 1, text, b);
    } else {
      assert Reverse(buf) == text;
      TrimSpaces(a, text, b);
    }
  }

  // ---------- the conversions ----------

  /** Thirty-two digits hold any 64-bit word in bases 8, 10 and 16. */
  lemma RoomForWords(c: char)
    requires c in {'d', 'i', 'u', 'x', 'X', 'o'}
    ensures Pow(Base(c), BUFFER_SIZE) >= TWO64
  {
    hide Pow;
    Pow32(8);
    Pow32(10);
    Pow32(16);
  }

  lemma UnsignedFits(f: Flags, a: Arg)
    ensures UnsignedArg(f, a) < TWO64
  {
  }

  lemma SignedFits(f: Flags, a: Arg)
    ensures -0x8000_0000_0000_0000 <= SignedArg(f, a) < 0x8000_0000_0000_0000
  {
  }

  lemma SizesKept(c: char, f: Flags, a: Arg)
    ensures UnsignedArg(IntegerFlags(c, f), a) == UnsignedArg(f, a)
    ensures SignedArg(IntegerFlags(c, f), a) == SignedArg(f, a)
  {
    hide Signed;
    assert forall s <- {LongLong, Long, CharSize, ShortSize} :: s in IntegerFlags(c, f) <==> s in f;
  }

  /** An unsigned conversion reads back as its argument modulo what thirty-two digits hold. */
  lemma UnsignedTrimmed(c: char, a: Arg, prec: nat, width: nat, f: Flags)
    requires c in {'u', 'x', 'X', 'o', 'b'} && (c == 'u' || Hash !in f)
    ensures Value(Trim(IntegerText(c, a, prec, width, f)), Base(c)) == UnsignedArg(f, a) % Pow(Base(c), BUFFER_SIZE)
  {
    hide Number, Value, Trim, Padded, NumberDigits, UnsignedArg, SignedArg, Pow;
    SizesKept(c, f, a);
    var f' := IntegerFlags(c, f);
    NumberTrimmed(UnsignedArg(f', a), false, Base(c), prec, width, f');
    var p := Padded(NumberDigits(UnsignedArg(f', a), Base(c), f'), false, prec, width, f');
    assert "" + Reverse(p) == Reverse(p);
  }

  /** `%u`, `%x`, `%X` and `%o` without `#` read back as the argument, whatever the width and precision. */
  lemma UnsignedReadsBack(c: char, a: Arg, prec: nat, width: nat, f: Flags)
    requires c in {'u', 'x', 'X', 'o'} && (c == 'u' || Hash !in f)
    ensures Value(Trim(IntegerText(c, a, prec, width, f)), Base(c)) == UnsignedArg(f, a)
  {
    hide IntegerText, Value, Trim, UnsignedArg, Pow;
    UnsignedTrimmed(c, a, prec, width, f);
    UnsignedFits(f, a);
    RoomForWords(c);
    Remainder(UnsignedArg(f, a), Pow(Base(c), BUFFER_SIZE), 0, UnsignedArg(f, a));
  }

  /** `%b` keeps only the low thirty-two bits: it reads back as the argument exactly when there are no others. */
  lemma BinaryReadsBack(a: Arg, prec: nat, width: nat, f: Flags)
    requires Hash !in f
    ensures Value(Trim(IntegerText('b', a, prec, width, f)), 2) == UnsignedArg(f, a) % TWO32
    ensures Value(Trim(IntegerText('b', a, prec, width, f)), 2) == UnsignedArg(f, a) <==> UnsignedArg(f, a) < TWO32
  {
    hide IntegerText, Value, Trim, UnsignedArg, Pow;
    Pow32(2);
    UnsignedTrimmed('b', a, prec, width, f);
  }

  /** A 64-bit argument that `%lb` misprints. */
  lemma BinaryLosesHighBits()
    ensures Value(Trim(IntegerText('b', Arg(TWO32, ""), 0, 0, {Long})), 2) == 0
  {
    hide IntegerText, Value, Trim;
    BinaryReadsBack(Arg(TWO32, ""), 0, 0, {Long});
  }

  lemma {:induction false} FewDigits(v: nat, base: nat, upper: bool, room: nat, n: nat)
    requires 2 <= base <= 16 && 0 < n <= room && v < Pow(base, n)
    ensures |Digits(v, base, upper, room)| <= n
    decreases n
  {
    hide Digits, Lowest;
    DigitsStep(v, base, upper, room);
    if Higher(v, base) != 0 && room > 1 {
      HigherFits(v, base, n);
      if n > 1 { FewDigits(Higher(v, base), base, upper, room - 1, n - 1); }
    }
  }

  lemma HigherFits(v: nat, base: nat, n: nat)
    requires base >= 2 && n > 0 && v < Pow(base, n)
    ensures Higher(v, base) < Pow(base, n - 1)
  {
    var q, p := v / base, Pow(base, n - 1);
    if q >= p {
      AtMostTimes(p, q, base);
      assert false;
    }
  }

  /** A sign and plain digits read back as the signed value of both. */
  lemma SignThenDigits(sign: string, p: string, base: nat)
    requires sign in {"", "+", "-"} && Plain(p)
    ensures SignedValue(sign + Reverse(p), base) == if sign == "-" then -(Stored(p, base) as int) else Stored(p, base)
  {
    hide Value;
    assert sign != "" ==> (sign + Reverse(p))[1..] == Reverse(p);
    assert sign == "" ==> sign + Reverse(p) == Reverse(p);
  }

  /** `%d` and `%i` read back as the argument exactly when it is not negative or its sign fits in the digit buffer. */
  lemma SignedReadsBack(c: char, a: Arg, prec: nat, width: nat, f: Flags)
    requires c in {'d', 'i'}
    ensures SignedValue(Trim(IntegerText(c, a, prec, width, f)), 10) == SignedArg(f, a)
            <==> SignedArg(f, a) >= 0 || SignFits(true, prec, width, IntegerFlags(c, f))
  {
    hide Number, Value, Trim, Padded, NumberDigits, UnsignedArg, SignedArg, Pow, SignFits, SignedValue;
    SizesKept(c, f, a);
    SignedFits(f, a);
    RoomForWords(c);
    var f', v := IntegerFlags(c, f), SignedArg(f, a);
    var digits := NumberDigits(Abs(v), 10, f');
    NumberTrimmed(Abs(v), v < 0, 10, prec, width, f');
    Remainder(Abs(v), Pow(10, BUFFER_SIZE), 0, Abs(v));
    var p := Padded(digits, v < 0, prec, width, f');
    SignThenDigits(if |p| < BUFFER_SIZE then Sign(v < 0, f') else "", p, 10);
    DigitsLeaveRoom(Abs(v), f');
    SignFitsExactly(digits, v < 0, prec, width, f');
  }

  lemma DigitsLeaveRoom(v: nat, f: Flags)
    requires v <= 0x8000_0000_0000_0000
    ensures |NumberDigits(v, 10, f)| < BUFFER_SIZE
  {
    hide Pow;
    Pow16(10);
    PowSum(10, 4, 16);
    FewDigits(v, 10, Upper in f, BUFFER_SIZE, 20);
  }

  /** A precision of 32 crowds out the minus sign. */
  lemma SignLost()
    ensures SignedArg({Precision}, Arg(TWO32 - 1, "")) == -1
    ensures SignedValue(Trim(IntegerText('d', Arg(TWO32 - 1, ""), 32, 0, {Precision})), 10) != -1
  {
    hide IntegerText, Trim, Value;
    SignedReadsBack('d', Arg(TWO32 - 1, ""), 32, 0, {Precision});
  }

  // ---------- numbers in the format ----------

  lemma RemainderShift(x: nat, m: nat, k: nat)
    requires m > 0
    ensures (x + k * m) % m == x % m
  {
    var q, r := x / m, x % m;
    assert x + k * m == (q + k) * m + r by { Distribute(m, q, k); }
    Remainder(x + k * m, m, q + k, r);
  }

  /** Taking remainders on the way does not change the remainder of the result. */
  lemma DigitModulo(v: nat, d: nat)
    ensures (v % TWO32 * 10 + d) % TWO32 == (v * 10 + d) % TWO32
  {
    var q, r := v / TWO32, v % TWO32;
    assert v * 10 + d == (r * 10 + d) + 10 * q * TWO32;
    RemainderShift(r * 10 + d, TWO32, 10 * q);
  }

  lemma ValueNext(fmt: string, start: nat, i: nat, acc: nat)
    requires start <= i < |fmt| && IsDigit(fmt[i]) && acc == Value(fmt[start..i], 10) % TWO32
    ensures (acc * 10 + (fmt[i] - '0') as nat) % TWO32 == Value(fmt[start..i + 1], 10) % TWO32
  {
    var run, d := fmt[start..i + 1], (fmt[i] - '0') as nat;
    assert run[..|run| - 1] == fmt[start..i];
    assert Value(run, 10) == Value(fmt[start..i], 10) * 10 + d;
    hide Value;
    DigitModulo(Value(fmt[start..i], 10), d);
  }

  /** `_atoi` reads the whole run of digits, as their decimal value modulo 2^32. */
  lemma {:induction false} NumberFromValue(fmt: string, start: nat, i: nat, acc: nat)
    requires start <= i <= |fmt| && acc == Value(fmt[start..i], 10) % TWO32
    ensures var (n, j) := NumberFrom(fmt, i, acc);
            && i <= j <= |fmt| && n == Value(fmt[start..j], 10) % TWO32
            && !IsDigit(At(fmt, j)) && forall k :: i <= k < j ==> IsDigit(fmt[k])
    decreases |fmt| - i
  {
    hide Value;
    if IsDigit(At(fmt, i)) {
      ValueNext(fmt, start, i, acc);
      NumberFromValue(fmt, start, i + 1, (acc * 10 + (fmt[i] - '0') as nat) % TWO32);
    }
  }

  lemma AtoiValue(fmt: string, i: nat)
    requires i <= |fmt|
    ensures var (n, j) := NumberFrom(fmt, i, 0);
            && i <= j <= |fmt| && n == Value(fmt[i..j], 10) % TWO32
            && !IsDigit(At(fmt, j)) && forall k :: i <= k < j ==> IsDigit(fmt[k])
  {
    assert fmt[i..i] == [];
    NumberFromValue(fmt, i, i, 0);
  }

  // ---------- field sizes ----------

  /** The digits, zeros included, reach the precision if and only if there are enough of them, or zeros may be added and fit. */
  lemma PrecisionReached(digits: string, negative: bool, prec: nat, width: nat, f: Flags)
    requires |digits| <= BUFFER_SIZE && ZeroPad !in f
    ensures |Padded(digits, negative, prec, width, f)| >= prec <==> |digits| >= prec || (Left !in f && prec <= BUFFER_SIZE)
  {
  }

  /** `%-.3d` of 1 prints 1, not 001. */
  lemma PrecisionForgotten()
    ensures |Padded("1", false, 3, 0, {Left, Precision})| < 3
  {
    PrecisionReached("1", false, 3, 0, {Left, Precision});
  }

  /** `%040u` of 7 prints fewer than 40 characters. */
  lemma WidthCutShort()
    ensures |Number(7, false, 10, 0, 40, {ZeroPad})| < 40
  {
    hide Number;
    WidthReached(7, false, 10, 0, 40, {ZeroPad});
  }

  /** A prefix takes the place of no more than it adds. */
  lemma HashGrows(buf: string, base: nat, prec: nat, width: nat, f: Flags)
    requires |buf| <= BUFFER_SIZE
    ensures |buf| <= |HashMark(buf, base, prec, width, f)| <= BUFFER_SIZE || base !in {2, 8, 16}
  {
  }

  /** The printed field reaches its width if and only if it is padded with spaces or the width fits the digit buffer. */
  lemma WidthReached(value: nat, negative: bool, base: nat, prec: nat, width: nat, f: Flags)
    requires base in {2, 8, 10, 16} && (base == 10 ==> Hash !in f)
    ensures |Number(value, negative, base, prec, width, f)| >= width
            <==> Left in f || ZeroPad !in f || width <= BUFFER_SIZE
  {
    hide Digits;
    var f' := if value == 0 then f - {Hash} else f;
    var digits := NumberDigits(value, base, f');
    var w := SignedWidth(negative, width, f');
    var p := Padded(digits, negative, prec, width, f');
    var h := HashMark(p, base, prec, w, f');
    assert |p| <= BUFFER_SIZE;
    assert |p| <= |h| <= BUFFER_SIZE by { if Hash in f' { HashGrows(p, base, prec, w, f'); } }
    var buf := SignMark(h, negative, f');
    assert |buf| <= BUFFER_SIZE && |buf| == |h| + if |h| < BUFFER_SIZE && (negative || Plus in f' || Space in f') then 1 else 0;
    hide Padded, HashMark, SignMark;
    PlacedLength(buf, w, f');
    if Left !in f && ZeroPad in f {
      assert |p| >= Min(w, BUFFER_SIZE) by { PaddedLength(digits, negative, prec, width, f'); }
    }
  }

  lemma PlacedLength(buf: string, w: nat, f: Flags)
    ensures |Placed(buf, w, f)| == if Left in f || ZeroPad !in f then Max(|buf|, w) else |buf|
  {
  }

  lemma PaddedLength(digits: string, negative: bool, prec: nat, width: nat, f: Flags)
    requires Left !in f && ZeroPad in f
    ensures |Padded(digits, negative, prec, width, f)| >= Min(SignedWidth(negative, width, f), BUFFER_SIZE)
  {
  }

  /** A string is padded to its width if and only if its length fits 32 bits, or is clipped, or wraps to no less than the width. */
  lemma StringPadded(text: string, prec: nat, width: nat, f: Flags)
    requires |text| < TWO64 && width < TWO32 && prec < TWO32 && (Precision !in f ==> prec == 0)
    ensures var shown := Shown(text, prec, f);
            StringText(text, prec, width, f) == Justified(shown, width - |shown|, f)
            <==> Precision in f || |text| < TWO32 || width <= |text| % TWO32
  {
    var shown, l := Shown(text, prec, f), CountedLength(text, prec, f);
    assert Precision in f ==> l == |shown|;
    assert Precision !in f ==> l == |text| % TWO32;
    hide CountedLength, Shown;
    assert |Justified(shown, width - l, f)| == |shown| + Max(width - l, 0);
    assert |Justified(shown, width - |shown|, f)| == |shown| + Max(width - |shown|, 0);
    if Max(width - l, 0) == Max(width - |shown|, 0) { assert Spaces(width - l) == Spaces(width - |shown|); }
  }

  /** A string of 2^32 characters printed with `%5s` gets five spaces it does not need. */
  lemma LongStringPadded(text: string)
    requires |text| == TWO32
    ensures |StringText(text, 0, 5, {})| == TWO32 + 5
  {
    assert TWO32 % TWO32 == 0;
  }

  // ---------- prefixes ----------

  /** Skip the prefix that `#` prints: an optional zero, then the letter. */
  function Unprefixed(text: string, letter: char): string {
    if |text| >= 2 && text[0] == '0' && text[1] == letter then text[2..]
    else if |text| >= 1 && text[0] == letter then text[1..]
    else text
  }

  function PrefixLetter(c: char): char { if c == 'b' then 'b' else if c == 'X' then 'X' else 'x' }

  lemma {:induction false} StoredTake(buf: string, n: nat, base: nat)
    requires 2 <= base && n <= |buf| && forall i :: 0 <= i < |buf| ==> DigitValue(buf[i]) < base
    ensures Stored(buf[..n], base) == Stored(buf, base) % Pow(base, n)
    decreases n
  {
    hide Stored;
    if n == 0 {
      NoDigits(base);
      assert buf[..0] == [];
    } else {
      var v, rest := Stored(buf, base), Stored(buf[1..], base);
      StoredStep(buf, base);
      StoredStep(buf[..n], base);
      assert buf[..n][1..] == buf[1..][..n - 1];
      StoredTake(buf[1..], n - 1, base);
      Remainder(v, base, rest, DigitValue(buf[0]));
      RemainderStep(v, base, Pow(base, n - 1));
    }
  }

  /** Digit characters only, all below the base. */
  predicate Numeral(buf: string, base: nat) {
    forall i :: 0 <= i < |buf| ==> buf[i] !in {' ', 'x', 'X'} && DigitValue(buf[i]) < base && (base == 2 ==> buf[i] != 'b')
  }

  lemma DigitNumeral(d: nat, upper: bool, base: nat)
    requires d < base <= 16
    ensures Numeral([DigitChar(d, upper)], base)
  {
  }

  lemma {:induction false} DigitsNumeral(v: nat, base: nat, upper: bool, room: nat)
    requires 2 <= base <= 16 && room > 0
    ensures Numeral(Digits(v, base, upper, room), base)
    decreases room
  {
    hide Digits, Higher, Lowest;
    DigitsStep(v, base, upper, room);
    DigitNumeral(Lowest(v, base), upper, base);
    if Higher(v, base) != 0 && room > 1 { DigitsNumeral(Higher(v, base), base, upper, room - 1); }
  }

  lemma PaddedNumeral(digits: string, base: nat, prec: nat, width: nat, f: Flags)
    requires Numeral(digits, base) && 2 <= base <= 16
    ensures Numeral(Padded(digits, false, prec, width, f), base)
  {
  }

  /** What is read back from a conversion with `#`. */
  function HashValue(c: char, text: string): nat {
    Value(if c == 'o' then text else Unprefixed(text, PrefixLetter(c)), Base(c))
  }

  lemma PlacedTrims(buf: string, w: nat, f: Flags)
    requires buf == [] || (buf[0] != ' ' && buf[|buf| - 1] != ' ')
    ensures Trim(Placed(buf, w, f)) == Reverse(buf)
  {
    hide Trim;
    var a := if Left !in f && ZeroPad !in f then w - |buf| else 0;
    var b := if Left in f then w - |buf| else 0;
    assert Placed(buf, w, f) == Spaces(a) + Reverse(buf) + Spaces(b);
    TrimSpaces(a, Reverse(buf), b);
  }

  /** The prefix is skipped again, whether there was room for all of it or not. */
  lemma PrefixSkipped(t: string, c: char)
    requires c in {'x', 'X', 'b'} && |t| <= BUFFER_SIZE && Numeral(t, Base(c))
    ensures Unprefixed(Reverse(WithRoom(WithRoom(t, PrefixLetter(c)), '0')), PrefixLetter(c)) == Reverse(t)
  {
    var letter := PrefixLetter(c);
    var r := Reverse(WithRoom(WithRoom(t, letter), '0'));
    assert |t| <= 30 ==> r == ['0', letter] + Reverse(t);
    assert |t| == 31 ==> r == [letter] + Reverse(t);
    assert |t| == 32 ==> r == Reverse(t);
  }

  lemma HashMarkedValue(p: string, c: char, prec: nat, width: nat, f: Flags)
    requires c in {'x', 'X', 'o', 'b'} && |p| <= BUFFER_SIZE && Numeral(p, Base(c)) && Hash in f
    requires c == 'x' ==> Upper !in f
    requires c == 'X' ==> Upper in f
    ensures var h := HashMark(p, Base(c), prec, width, f);
            && h != [] && h[0] != ' ' && h[|h| - 1] != ' '
            && HashValue(c, Reverse(h)) == Stored(HashTrim(p, Base(c), prec, width, f), Base(c))
  {
    hide Value;
    var t := HashTrim(p, Base(c), prec, width, f);
    assert Numeral(t, Base(c)) && |t| <= BUFFER_SIZE;
    if c == 'o' {
      assert t + ['0'] == t + Zeros(1);
      LeadingZeros(t, 1, 8);
    } else {
      PrefixSkipped(t, c);
    }
  }

  /** Zeros and digits in front of which the prefix goes, when there is no precision. */
  function PaddedCount(v: nat, c: char, width: nat, f: Flags): int
    requires c in {'x', 'X', 'o', 'b'}
  {
    var n := |Digits(v, Base(c), Upper in f, BUFFER_SIZE)|;
    if Left !in f && ZeroPad in f then Max(n, Min(width, BUFFER_SIZE)) else n
  }

  /**
   How many digits a conversion with `#` keeps: all there is room for, except that a field that is exactly
   filled gives up one or two of them for the prefix, whether they are padding or not.
   */
  function KeptDigits(v: nat, c: char, width: nat, f: Flags): (n: nat)
    requires c in {'x', 'X', 'o', 'b'}
    ensures n <= BUFFER_SIZE
  {
    if Precision !in f && PaddedCount(v, c, width, f) == width
    then (if c != 'o' && c != 'b' && width > 1 then width - 2 else width - 1) else BUFFER_SIZE
  }

  lemma RemainderOfRemainder(v: nat, a: nat, b: nat)
    requires a > 0 && b > 0 && a * b > 0
    ensures v % (a * b) % a == v % a
  {
    var m := a * b;
    var q, r := v / m, v % m;
    assert m * q == b * q * a by { Associate(b, q, a); Associate(b, a, q); }
    RemainderShift(r, a, b * q);
  }

  lemma PowSplit(v: nat, base: nat, m: nat, n: nat)
    requires base >= 2 && m <= n
    ensures v % Pow(base, n) % Pow(base, m) == v % Pow(base, m)
  {
    hide Pow;
    PowSum(base, m, n - m);
    RemainderOfRemainder(v, Pow(base, m), Pow(base, n - m));
  }

  /** `%#x`, `%#X`, `%#o` and `%#b` of a nonzero value read back as its low digits, and as the value if and only if these are all. */
  lemma HashReadsBack(c: char, a: Arg, prec: nat, width: nat, f: Flags)
    requires c in {'x', 'X', 'o', 'b'} && Hash in f && Upper !in f && UnsignedArg(f, a) != 0
    requires Precision !in f ==> prec == 0
    ensures var v, kept := UnsignedArg(f, a), KeptDigits(UnsignedArg(f, a), c, width, IntegerFlags(c, f));
            var read := HashValue(c, Trim(IntegerText(c, a, prec, width, f)));
            read == v % Pow(Base(c), kept) && (read == v <==> v < Pow(Base(c), kept))
  {
    hide UnsignedArg, SignedArg, Digits, Stored, Pow, Number, Value, Trim, KeptDigits, HashValue;
    var f', base := IntegerFlags(c, f), Base(c);
    SizesKept(c, f, a);
    var v := UnsignedArg(f, a);
    DigitsPlain(v, base, Upper in f', BUFFER_SIZE);
    DigitsNumeral(v, base, Upper in f', BUFFER_SIZE);
    DigitsReadBack(v, base, Upper in f', BUFFER_SIZE);
    HashCore(v, c, Digits(v, base, Upper in f', BUFFER_SIZE), prec, width, f');
    SmallRemainder(v, Pow(base, KeptDigits(v, c, width, f')));
  }

  lemma SmallRemainder(v: nat, m: nat)
    requires m > 0
    ensures v % m == v <==> v < m
  {
    if v < m { Remainder(v, m, 0, v); }
  }

  lemma HashCore(v: nat, c: char, digits: string, prec: nat, width: nat, f: Flags)
    requires c in {'x', 'X', 'o', 'b'} && Hash in f && Plus !in f && Space !in f && v != 0
    requires (c == 'x' ==> Upper !in f) && (c == 'X' ==> Upper in f) && (Precision !in f ==> prec == 0)
    requires digits == Digits(v, Base(c), Upper in f, BUFFER_SIZE) && Plain(digits) && Numeral(digits, Base(c))
    requires Stored(digits, Base(c)) == v % Pow(Base(c), BUFFER_SIZE)
    ensures HashValue(c, Trim(Number(v, false, Base(c), prec, width, f))) == v % Pow(Base(c), KeptDigits(v, c, width, f))
  {
    hide Digits, Pow, Stored, Value, Trim, HashValue, HashMark, Placed, Numeral, Plain, Reverse, WithRoom;
    var base := Base(c);
    PaddedReadsBack(digits, false, base, prec, width, f);
    PaddedNumeral(digits, base, prec, width, f);
    var p := Padded(digits, false, prec, width, f);
    HashMarkedValue(p, c, prec, width, f);
    PlacedTrims(HashMark(p, base, prec, width, f), width, f);
    TrimmedTo(v, c, digits, prec, width, f);
    var kept := KeptDigits(v, c, width, f);
    if kept < BUFFER_SIZE {
      StoredTake(p, kept, base) by { NumeralDigits(p, base); }
      PowSplit(v, base, kept, BUFFER_SIZE);
    }
  }

  lemma NumeralDigits(p: string, base: nat)
    requires Numeral(p, base)
    ensures forall i :: 0 <= i < |p| ==> DigitValue(p[i]) < base
  {
  }

  lemma TrimmedTo(v: nat, c: char, digits: string, prec: nat, width: nat, f: Flags)
    requires c in {'x', 'X', 'o', 'b'} && (Precision !in f ==> prec == 0) && Plus !in f && Space !in f
    requires digits == Digits(v, Base(c), Upper in f, BUFFER_SIZE)
    ensures var p, kept := Padded(digits, false, prec, width, f), KeptDigits(v, c, width, f);
            && (kept < BUFFER_SIZE ==> kept <= |p|)
            && HashTrim(p, Base(c), prec, width, f) == if kept < BUFFER_SIZE then p[..kept] else p
  {
    hide Digits;
    assert Precision !in f ==> |Padded(digits, false, prec, width, f)| == PaddedCount(v, c, width, f);
  }

  /** Zero gets no prefix. */
  lemma ZeroUnprefixed(c: char, a: Arg, prec: nat, width: nat, f: Flags)
    requires c in {'x', 'X', 'o', 'b'} && UnsignedArg(f, a) == 0
    ensures IntegerText(c, a, prec, width, f) == IntegerText(c, a, prec, width, f - {Hash})
  {
    hide UnsignedArg, SignedArg, NumberDigits, NumberBuffer, Placed;
    SizesKept(c, f, a);
    SizesKept(c, f - {Hash}, a);
    HashSizes(f, a);
    assert IntegerFlags(c, f - {Hash}) - {Hash} == IntegerFlags(c, f) - {Hash};
  }

  lemma HashSizes(f: Flags, a: Arg)
    ensures UnsignedArg(f - {Hash}, a) == UnsignedArg(f, a)
  {
  }

  /** `%#4x` of 0x1234 prints 0x34. */
  lemma HashDropsDigits()
    ensures HashValue('x', Trim(IntegerText('x', Arg(0x1234, ""), 0, 4, {Hash}))) == 0x34
  {
    FourDigits();
    hide IntegerText, Trim, Value, Digits;
    HashReadsBack('x', Arg(0x1234, ""), 0, 4, {Hash});
    assert Pow(16, 2) == 256 by { assert Pow(16, 1) == 16 * Pow(16, 0); }
  }

  lemma FourDigits()
    ensures |Digits(0x1234, 16, false, BUFFER_SIZE)| == 4
  {
    assert Higher(0x1234, 16) == 0x123 && Higher(0x123, 16) == 0x12 && Higher(0x12, 16) == 1 && Higher(1, 16) == 0;
    assert |Digits(1, 16, false, 29)| == 1;
    assert |Digits(0x12, 16, false, 30)| == 2;
    assert |Digits(0x123, 16, false, 31)| == 3;
  }
}
