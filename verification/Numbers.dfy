/** Printing and reading numbers: the digit loops of the kernel's C library, shell and file list. */
module Numbers {
  import opened Basics
  import opened CStrings

  const MAX_INT: int := 0x7FFF_FFFF
  const MINUS: Char := 45
  const ZERO: Char := 48

  type UInt32 = v: int | 0 <= v < U32_LIMIT
  type Int32 = v: int | -MAX_INT - 1 <= v <= MAX_INT

  // ---------------------------------------------------------------- digits

  function DigitChar(d: nat): Char {
    if d < 10 then (48 + d) else (97 + d - 10) % 256
  }

  /** The digits of `v`, the last one first; none for 0. */
  function LowFirst(v: nat, base: nat): seq<Char>
    requires base >= 2
  {
    if v == 0 then []
    else
      Division(v, base);
      [DigitChar(v % base)] + LowFirst(v / base, base)
  }

  lemma MultiplyMonotone(a: nat, b: nat, c: nat)
    requires a <= b
    ensures a * c <= b * c
  {
  }

  lemma Division(v: nat, base: nat)
    requires base >= 2
    ensures v < base ==> v / base == 0 && v % base == v
    ensures v >= base ==> v / base > 0
    ensures v > 0 ==> v / base < v
  {
    var q, r := v / base, v % base;
    assert v == base * q + r && r < base;
    if q > 0 {
      MultiplyMonotone(2, base, q);
      MultiplyMonotone(1, q, base);
      assert q * base == base * q;
    }
  }

  lemma QuotientBelow(v: nat, base: nat, m: nat)
    requires base >= 2 && v < base * m
    ensures v / base < m
  {
    var q, r := v / base, v % base;
    assert v == base * q + r;
    assert q * base == base * q && m * base == base * m;
    if q >= m {
      MultiplyMonotone(m, q, base);
    }
  }

  function Reverse(s: seq<Char>): (r: seq<Char>)
    ensures |r| == |s|
  {
    if s == [] then [] else Reverse(s[1..]) + [s[0]]
  }

  /** A number as it is written. */
  function Digits(v: nat, base: nat): seq<Char>
    requires base >= 2
  {
    if v < base then [DigitChar(v)]
    else
      Division(v, base);
      Digits(v / base, base) + [DigitChar(v % base)]
  }

  lemma {:induction false} DigitsAreReversed(v: nat, base: nat)
    requires base >= 2 && v > 0
    ensures Digits(v, base) == Reverse(LowFirst(v, base))
  {
    Division(v, base);
    assert LowFirst(v, base)[1..] == LowFirst(v / base, base);
    if v >= base {
      DigitsAreReversed(v / base, base);
    }
  }

  function Power(base: nat, n: nat): nat {
    if n == 0 then 1 else base * Power(base, n - 1)
  }

  lemma {:induction false} DigitCount(v: nat, base: nat, n: nat)
    requires base >= 2 && v < Power(base, n)
    ensures |LowFirst(v, base)| <= n
  {
    if v > 0 {
      QuotientBelow(v, base, Power(base, n - 1));
      DigitCount(v / base, base, n - 1);
    }
  }

  lemma {:induction false} PowerGrows(base: nat, n: nat)
    requires base >= 2
    ensures Power(2, n) <= Power(base, n)
  {
    if n > 0 {
      PowerGrows(base, n - 1);
      MultiplyMonotone(2, base, Power(base, n - 1));
    }
  }

  /** No 32-bit value has more than 32 digits in any base, or more than 10 in base 10: the guards
      of the digit loops never cut a number short. */
  lemma GuardsNeverCut(v: UInt32, base: nat)
    requires base >= 2
    ensures |LowFirst(v, base)| <= 32
    ensures |LowFirst(v, 10)| <= 10
  {
    assert Power(2, 32) == U32_LIMIT by {
      assert Power(2, 8) == 0x100;
      assert Power(2, 16) == 0x1_0000;
      assert Power(2, 24) == 0x100_0000;
    }
    PowerGrows(base, 32);
    DigitCount(v, base, 32);
    assert Power(10, 10) == 10_000_000_000;
    DigitCount(v, 10, 10);
  }

  lemma ReverseLast(s: seq<Char>, n: nat)
    requires n < |s|
    ensures Reverse(s[..n + 1]) == [s[n]] + Reverse(s[..n])
    decreases n
  {
    if n > 0 {
      ReverseLast(s[1..], n - 1);
      assert s[..n + 1][1..] == s[1..][..n] && s[..n][1..] == s[1..][..n - 1];
    }
  }

  // ---------------------------------------------------------------- printers

  /** The loop that fills a buffer with digits, the last one first. */
  method FillLowFirst(value: UInt32, base: nat, size: nat) returns (buffer: array<Char>, pos: nat)
    requires base >= 2 && |LowFirst(value, base)| <= size
    ensures fresh(buffer) && buffer.Length == size && pos <= size
    ensures buffer[..pos] == LowFirst(value, base)
  {
    buffer := new Char[size];
    pos := 0;
    var v: nat := value;
    while v > 0 && pos < size
      invariant pos <= size
      invariant LowFirst(value, base) == buffer[..pos] + LowFirst(v, base)
      decreases v
    {
      Division(v, base);
      ghost var rest := LowFirst(v / base, base);
      assert LowFirst(v, base) == [DigitChar(v % base)] + rest;
      var digit := v % base;
      buffer[pos] := DigitChar(digit);
      pos := pos + 1;
      v := v / base;
      assert buffer[..pos] == buffer[..pos - 1] + [DigitChar(digit)];
    }
  }

  /** Emits the first `pos` characters of a buffer, the last one first. */
  method EmitReversed(buffer: array<Char>, pos: nat) returns (printed: seq<Char>)
    requires pos <= buffer.Length
    ensures printed == Reverse(buffer[..pos])
  {
    printed := [];
    var p := pos;
    assert buffer[..pos][..pos] == buffer[..pos];
    while p > 0
      invariant 0 <= p <= pos
      invariant printed + Reverse(buffer[..p]) == Reverse(buffer[..pos])
    {
      p := p - 1;
      ReverseLast(buffer[..pos], p);
      assert buffer[..pos][..p + 1] == buffer[..p + 1] && buffer[..pos][..p] == buffer[..p];
      printed := printed + [buffer[p]];
    }
  }

  /** `print_unsigned` of the C library. */
  method PrintUnsigned(value: UInt32, base: nat) returns (printed: seq<Char>)
    requires base >= 2
    ensures printed == Digits(value, base)
  {
    if value == 0 {
      return [ZERO];
    }
    GuardsNeverCut(value, base);
    DigitsAreReversed(value, base);
    var buffer, pos := FillLowFirst(value, base, 32);
    printed := EmitReversed(buffer, pos);
  }

  /** What `print_signed` writes. */
  function SignedDigits(v: int): seq<Char> {
    if v < 0 then [MINUS] + Digits(-v, 10) else Digits(v, 10)
  }

  method PrintSigned(value: Int32) returns (printed: seq<Char>)
    requires value != -MAX_INT - 1
    ensures printed == SignedDigits(value)
  {
    if value < 0 {
      var digits := PrintUnsigned(-value, 10);
      printed := [MINUS] + digits;
    } else {
      printed := PrintUnsigned(value, 10);
    }
  }

  /** `print_uint` of the shell. */
  method PrintUint(value: UInt32) returns (printed: seq<Char>)
    ensures printed == Digits(value, 10)
  {
    if value == 0 {
      return [ZERO];
    }
    GuardsNeverCut(value, 10);
    DigitsAreReversed(value, 10);
    var buffer, pos := FillLowFirst(value, 10, 12);
    printed := EmitReversed(buffer, pos);
  }

  /** Copies the first `n` characters of one buffer into another, the last one first. */
  method TurnRound(reversed: array<Char>, n: nat, text: array<Char>)
    requires n <= reversed.Length && n <= text.Length && reversed != text
    modifies text
    ensures text[..n] == Reverse(reversed[..n])
  {
    var count, pos := n, 0;
    ghost var low := reversed[..n];
    assert low[..count] == low;
    while count > 0
      invariant 0 <= count <= n && pos == n - count
      invariant reversed[..n] == low
      invariant text[..pos] + Reverse(low[..count]) == Reverse(low)
    {
      count := count - 1;
      ReverseLast(low, count);
      text[pos] := reversed[count];
      pos := pos + 1;
      assert text[..pos] == text[..pos - 1] + [low[count]];
    }
  }

  /** The size column of the file list: digits turned round into a second buffer. */
  method FormatSize(size: UInt32) returns (sizeText: seq<Char>)
    ensures |sizeText| == 12 && Terminated(sizeText) && Text(sizeText) == Digits(size, 10)
  {
    var text := new Char[12];
    var pos := 0;
    if size == 0 {
      text[pos] := ZERO;
      pos := pos + 1;
    } else {
      GuardsNeverCut(size, 10);
      DigitsAreReversed(size, 10);
      var reversed, count := FillLowFirst(size, 10, 12);
      TurnRound(reversed, count, text);
      pos := count;
    }
    DigitsAreNotNul(size);
    ghost var digits := text[..pos];
    text[pos] := NUL;
    sizeText := text[..];
    assert sizeText[..pos] == digits;
    TextIs(sizeText, pos);
  }

  lemma {:induction false} DigitsAreNotNul(v: nat)
    ensures forall c :: c in Digits(v, 10) ==> IsDigit(c)
  {
    if v >= 10 {
      DigitsAreNotNul(v / 10);
    }
  }

  // ---------------------------------------------------------------- reading

  predicate IsDigit(c: int) {
    48 <= c <= 57
  }

  predicate IsSpace(c: int) {
    c == 32 || 9 <= c <= 13
  }

  function DigitValue(c: Char): nat
    requires IsDigit(c)
  {
    c as int - 48
  }

  /** The value of the leading digits of a text, after the value `before` of earlier ones. */
  function LeadingValue(t: seq<Char>, before: nat): nat {
    if t == [] || !IsDigit(t[0]) then before else LeadingValue(t[1..], before * 10 + DigitValue(t[0]))
  }

  function SkipWhite(t: seq<Char>): seq<Char> {
    if t != [] && IsSpace(t[0]) then SkipWhite(t[1..]) else t
  }

  /** The number `atoi` reads in a text. */
  function Read(t: seq<Char>): int {
    var n := SkipWhite(t);
    if n != [] && n[0] == MINUS then -(LeadingValue(n[1..], 0) as int) else LeadingValue(n, 0)
  }

  lemma {:induction false} ValueGrows(t: seq<Char>, before: nat)
    ensures LeadingValue(t, before) >= before
  {
    if t != [] && IsDigit(t[0]) {
      ValueGrows(t[1..], before * 10 + DigitValue(t[0]));
    }
  }

  /** `atoi`, for a number that is an `int`; no step of the loop overflows. */
  method Atoi(text: seq<Char>) returns (r: Int32)
    requires Terminated(text)
    requires -MAX_INT <= Read(Text(text)) <= MAX_INT
    ensures r == Read(Text(text))
  {
    var sign: Int32 := 1;
    var p := text;
    while IsSpace(p[0])
      invariant Terminated(p) && SkipWhite(Text(p)) == SkipWhite(Text(text))
      decreases |p|
    {
      p := p[1..];
    }
    assert SkipWhite(Text(text)) == Text(p);
    if p[0] == MINUS {
      sign := -1;
      p := p[1..];
    }
    var value := ReadDigits(p);
    r := value * sign;
  }

  /** The digit loop of `atoi`. */
  method ReadDigits(start: seq<Char>) returns (value: Int32)
    requires Terminated(start) && LeadingValue(Text(start), 0) <= MAX_INT
    ensures value == LeadingValue(Text(start), 0)
  {
    var p := start;
    value := 0;
    while IsDigit(p[0])
      invariant Terminated(p)
      invariant 0 <= value
      invariant LeadingValue(Text(p), value) == LeadingValue(Text(start), 0)
      decreases |p|
    {
      ValueGrows(Text(p)[1..], value * 10 + DigitValue(p[0]));
      value := value * 10 + DigitValue(p[0]);
      p := p[1..];
    }
  }

  // ---------------------------------------------------------------- round trip

  lemma {:induction false} ValueOfConcat(a: seq<Char>, b: seq<Char>, before: nat)
    requires forall c :: c in a ==> IsDigit(c)
    ensures LeadingValue(a + b, before) == LeadingValue(b, LeadingValue(a, before))
    decreases |a|
  {
    if a == [] {
      assert a + b == b;
    } else {
      assert (a + b)[1..] == a[1..] + b;
      ValueOfConcat(a[1..], b, before * 10 + DigitValue(a[0]));
    }
  }

  lemma {:induction false} ValueOfDigits(v: nat)
    ensures LeadingValue(Digits(v, 10), 0) == v
  {
    DigitsAreNotNul(v);
    if v < 10 {
      assert Digits(v, 10)[1..] == [];
    } else {
      var last := [DigitChar(v % 10)];
      DigitsAreNotNul(v / 10);
      ValueOfConcat(Digits(v / 10, 10), last, 0);
      ValueOfDigits(v / 10);
      assert last[1..] == [];
    }
  }

  /** Reading what was printed gives the number back, for every number but the least `int`, behind any
      white space (blank, or 9 to 13) and before anything that does not begin with a digit. */
  lemma ReadNumber(v: Int32, white: seq<Char>, rest: seq<Char>)
    requires v != -MAX_INT - 1
    requires forall i :: 0 <= i < |white| ==> white[i] == 32 || 9 <= white[i] <= 13
    requires rest == [] || !(48 <= rest[0] <= 57)
    ensures Read(white + (SignedDigits(v) + rest)) == v
  {
    SignedBehind(v, rest);
    SkipAllWhite(white, SignedDigits(v) + rest);
    SkipAllWhite([], SignedDigits(v) + rest);
  }

  lemma SignedBehind(v: Int32, rest: seq<Char>)
    requires v != -MAX_INT - 1 && (rest == [] || !IsDigit(rest[0]))
    ensures var number := SignedDigits(v) + rest;
            number != [] && !IsSpace(number[0]) && Read(number) == v
  {
    var m := if v < 0 then -v else v;
    LeadingDigits(m, rest);
    if v < 0 {
      assert (SignedDigits(v) + rest)[1..] == Digits(m, 10) + rest;
    }
  }

  lemma LeadingDigits(v: nat, rest: seq<Char>)
    requires rest == [] || !IsDigit(rest[0])
    ensures Digits(v, 10) != [] && IsDigit(Digits(v, 10)[0])
    ensures LeadingValue(Digits(v, 10) + rest, 0) == v
  {
    var digits := Digits(v, 10);
    DigitsAreNotNul(v);
    ValueOfDigits(v);
    ValueOfConcat(digits, rest, 0);
    assert digits[0] in digits;
  }

  lemma {:induction false} SkipAllWhite(white: seq<Char>, t: seq<Char>)
    requires forall i :: 0 <= i < |white| ==> white[i] == 32 || 9 <= white[i] <= 13
    requires t != [] && !IsSpace(t[0])
    ensures SkipWhite(white + t) == t
  {
    if white == [] {
      assert white + t == t;
    } else {
      SkipAllWhite(white[1..], t);
      assert (white + t)[1..] == white[1..] + t;
    }
  }

  /** A text that has neither a digit nor a minus behind its white space reads as 0. */
  lemma NoNumberReadsAsZero(white: seq<Char>, t: seq<Char>)
    requires forall i :: 0 <= i < |white| ==> white[i] == 32 || 9 <= white[i] <= 13
    requires t != [] && t[0] != 45 && t[0] != 32 && !(9 <= t[0] <= 13) && !(48 <= t[0] <= 57)
    ensures Read(white + t) == 0
  {
    SkipAllWhite(white, t);
  }

  lemma ReadSigned(v: Int32)
    requires v != -MAX_INT - 1
    ensures Read(SignedDigits(v)) == v
    ensures v < 0 ==> SignedDigits(v)[0] == 45
  {
    ReadNumber(v, [], []);
    assert [] + (SignedDigits(v) + []) == SignedDigits(v);
  }

  // ---------------------------------------------------------------- other bases

  /** The number a digit stands for: 0 to 9, then a to z. */
  function DigitNumber(c: Char): int {
    if 48 <= c <= 57 then c - 48 else if 97 <= c <= 122 then c - 87 else -1
  }

  /** The value of a text of digits in a base. */
  function ValueIn(base: nat, t: seq<Char>): int {
    if t == [] then 0 else base * ValueIn(base, t[..|t| - 1]) + DigitNumber(t[|t| - 1])
  }

  lemma DigitStandsFor(d: nat)
    requires d < 36
    ensures DigitNumber(DigitChar(d)) == d && (DigitChar(d) == 48 <==> d == 0)
  {
  }

  lemma ValueOfLast(base: nat, t: seq<Char>, c: Char)
    ensures ValueIn(base, t + [c]) == base * ValueIn(base, t) + DigitNumber(c)
  {
    assert (t + [c])[..|t|] == t;
  }

  ghost predicate DigitsBelow(t: seq<Char>, base: nat) {
    forall i :: 0 <= i < |t| ==> 0 <= DigitNumber(t[i]) < base
  }

  /** A text of digits for the number, without a zero in front. */
  ghost predicate Denotes(t: seq<Char>, base: nat, v: int) {
    t != [] && ValueIn(base, t) == v && DigitsBelow(t, base) && (t[0] == 48 <==> v == 0)
  }

  lemma OneDigit(base: nat, d: nat)
    requires d < base <= 36
    ensures Denotes([DigitChar(d)], base, d)
  {
    DigitStandsFor(d);
    ValueOfLast(base, [], DigitChar(d));
    assert [] + [DigitChar(d)] == [DigitChar(d)];
  }

  lemma MoreDigits(t: seq<Char>, base: nat, q: nat, d: nat)
    requires Denotes(t, base, q) && 0 < q && d < base <= 36
    ensures Denotes(t + [DigitChar(d)], base, base * q + d)
  {
    DigitStandsFor(d);
    ValueOfLast(base, t, DigitChar(d));
    MultiplyMonotone(1, q, base);
  }

  lemma DigitsSplit(v: nat, base: nat, q: nat, r: nat)
    requires 2 <= base <= v && q == v / base && r == v % base
    ensures Digits(v, base) == Digits(q, base) + [DigitChar(r)] && v == base * q + r && r < base && 0 < q < v
  {
    Division(v, base);
  }

  /** What is printed in a base up to 36 is the number: its digits are below the base, have its value,
      and do not begin with 0 unless the number is 0. */
  lemma {:induction false} DigitsInBase(v: nat, base: nat)
    requires 2 <= base <= 36
    ensures Denotes(Digits(v, base), base, v)
    decreases v
  {
    if v < base {
      OneDigit(base, v);
    } else {
      var q, r := v / base, v % base;
      DigitsSplit(v, base, q, r);
      DigitsInBase(q, base);
      MoreDigits(Digits(q, base), base, q, r);
    }
  }
}
