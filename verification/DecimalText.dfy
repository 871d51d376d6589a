/**
 Decimal printing and parsing of integers. Printing sizes the text with
 `ilog10_floor` and fills it backwards, two digits at a time; parsing runs forwards
 in the wrapping arithmetic of the integer type.
 */
module DecimalText {
  import opened Arith
  import opened Bits
  import opened IntLog10

  datatype Word = Word32 | Word64

  function Modulus(w: Word): nat {
    match w
    case Word32 => 0x1_0000_0000
    case Word64 => 0x1_0000_0000_0000_0000
  }

  /** The unsigned types have 32 and 64 bits. */
  lemma ModulusIs()
    ensures Modulus(Word32) == Pow2(32) && Modulus(Word64) == Pow2(64)
  {
    WordSizes();
  }

  function Digit(d: nat): char
    requires d < 10
  {
    (48 + d) as char
  }

  /** The decimal text of a number. */
  function Digits(x: nat): string {
    if x < 10 then [Digit(x)] else Digits(x / 10) + [Digit(x % 10)]
  }

  /** What a plain `char` promoted to int is: the byte, with its sign. */
  function Code(c: char): int {
    var b := c as int % 256;
    if b < 128 then b else b - 256
  }

  /** The number that a text stands for; any character counts as its distance from '0'. */
  function Value(text: string): int {
    if text == [] then 0 else 10 * Value(text[..|text| - 1]) + (Code(text[|text| - 1]) - 48)
  }

  /** Digits only, and no leading zero except for zero itself. */
  ghost predicate Canonical(text: string) {
    && text != []
    && (forall i | 0 <= i < |text| :: '0' <= text[i] <= '9')
    && (text[0] == '0' ==> |text| == 1)
  }

  // ---- texts and numbers ----

  /** The code of a character is the one signed byte that is congruent to it. */
  lemma CodeIsSignedByte(c: char)
    ensures -128 <= Code(c) < 128 && Code(c) % 256 == c as int % 256
  {
  }

  /** Appending a text shifts the value in front of it by its length; what is behind does not matter to it. */
  lemma {:induction false} ValueConcat(a: string, b: string)
    ensures Value(a + b) == Value(a) * Pow10(|b|) + Value(b)
    decreases |b|
  {
    if b == [] {
      assert a + b == a;
    } else {
      var n := |b| - 1;
      assert (a + b)[..|a + b| - 1] == a + b[..n] && (a + b)[|a + b| - 1] == b[n];
      ValueConcat(a, b[..n]);
      assert Pow10(|b|) == 10 * Pow10(n);
      TenTimes(Value(a), Pow10(n));
    }
  }

  lemma TenTimes(v: int, p: int)
    ensures 10 * (v * p) == v * (10 * p)
  {
  }

  lemma ValueOfOne(c: char)
    ensures Value([c]) == Code(c) - 48
  {
    assert [c][..0] == [];
  }

  lemma CodeOfDigit(d: nat)
    requires d < 10
    ensures Code(Digit(d)) == 48 + d
  {
  }

  /** A digit is the digit of its code. */
  lemma DigitOfCode(c: char)
    requires '0' <= c <= '9'
    ensures 48 <= Code(c) <= 57 && Digit(Code(c) - 48) == c
    ensures Code(c) == 48 <==> c == '0'
  {
  }

  lemma {:induction false} ValueOfDigits(x: nat)
    ensures Value(Digits(x)) == x
  {
    hide Code;
    CodeOfDigit(x % 10);
    if x >= 10 {
      ValueOfDigits(x / 10);
      var text := Digits(x);
      assert text[..|text| - 1] == Digits(x / 10);
    } else {
      assert [Digit(x)][..0] == [];
    }
  }

  lemma {:induction false} DigitsCanonical(x: nat)
    ensures Canonical(Digits(x))
    ensures Digits(x)[0] == '0' ==> x == 0
  {
    if x >= 10 {
      DigitsCanonical(x / 10);
    }
  }

  lemma {:induction false} ValueOfCanonical(text: string)
    requires Canonical(text)
    ensures Value(text) >= 0 && Digits(Value(text)) == text
    ensures Value(text) == 0 ==> text == "0"
  {
    var front, last := text[..|text| - 1], Code(text[|text| - 1]) - 48;
    hide Code, Digit;
    DigitOfCode(text[|text| - 1]);
    DigitOfCode(text[0]);
    assert text == front + [text[|text| - 1]];
    if front != [] {
      ValueOfCanonical(front);
      DivModIs(Value(text), Value(front), last, 10);
    } else {
      assert Value(front) == 0;
    }
  }

  /** The text has one character more than the decimal logarithm. */
  lemma {:induction false} DigitsLength(x: nat)
    ensures x > 0 ==> IsLog10(x, |Digits(x)| - 1)
    ensures x == 0 ==> |Digits(x)| == 1
  {
    if x >= 10 {
      DigitsLength(x / 10);
      var n := |Digits(x)| - 1;
      assert Pow10(n + 1) == 10 * Pow10(n) && Pow10(n) == 10 * Pow10(n - 1);
    }
  }

  lemma LogSizesText(x: nat, y: int)
    requires if x == 0 then y == 0 else IsLog10(x, y)
    ensures 1 + y == |Digits(x)|
  {
    DigitsLength(x);
    if x > 0 {
      Log10Unique(x, y, |Digits(x)| - 1);
    }
  }

  // ---- printing ----

  /** `g_digit_pairs[2 * r]` and the character after it: the two digits of `r`. */
  function Pair(r: nat): (p: string)
    requires r < 100
  {
    [Digit(r / 10), Digit(r % 10)]
  }

  lemma DigitPositions(x: nat)
    ensures x / 10 / 10 == x / 100 && x / 10 % 10 == x % 100 / 10 && x % 10 == x % 100 % 10
  {
  }

  lemma PairSplits(x: nat)
    requires x >= 100
    ensures Digits(x) == Digits(x / 100) + Pair(x % 100)
  {
    DigitPositions(x);
    assert Digits(x) == Digits(x / 10) + [Digit(x % 10)];
    assert Digits(x / 10) == Digits(x / 100) + [Digit(x % 100 / 10)];
  }

  lemma FirstPair(x: nat)
    requires 10 <= x < 100
    ensures Digits(x) == Pair(x)
  {
    assert Digits(x / 10) == [Digit(x / 10)];
  }

  /** Of `text`, ending before `end`, what follows `c` is written and `rest` is still to go in front of it. */
  ghost predicate Partial(was: string, now: string, text: string, rest: string, c: int, end: nat) {
    && |was| == |now| && -1 <= c < end <= |was|
    && text == rest + now[c + 1..end]
    && now[..c + 1] == was[..c + 1] && now[end..] == was[end..]
  }

  lemma PairWritten(was: string, now: string, text: string, rest: string, pair: string, c: int, end: nat)
    requires |pair| == 2 && 1 <= c && Partial(was, now, text, rest + pair, c, end)
    ensures Partial(was, now[c - 1 := pair[0]][c := pair[1]], text, rest, c - 2, end)
  {
    var next := now[c - 1 := pair[0]][c := pair[1]];
    assert next[c - 1..end] == pair + now[c + 1..end];
    assert rest + pair + now[c + 1..end] == rest + (pair + now[c + 1..end]);
    assert now[..c - 1] == now[..c + 1][..c - 1] == was[..c - 1];
  }

  lemma DigitWritten(was: string, now: string, text: string, digit: char, c: int, end: nat)
    requires 0 <= c && Partial(was, now, text, [digit], c, end)
    ensures Partial(was, now[c := digit], text, [], c - 1, end)
  {
    var next := now[c := digit];
    assert next[c..end] == [digit] + now[c + 1..end];
    assert now[..c] == now[..c + 1][..c] == was[..c];
  }

  lemma AllWritten(was: string, now: string, text: string, c: int, end: nat)
    requires Partial(was, now, text, [], c, end)
    ensures c + 1 == end - |text| && now == was[..end - |text|] + text + was[end..]
  {
    assert text == now[c + 1..end];
    assert now == now[..c + 1] + now[c + 1..end] + now[end..];
  }

  /** `rjust_print_decimal_int`: the text ends right before `end`. */
  method RjustPrint(x: nat, dst: array<char>, end: nat) returns (digits10: nat)
    requires |Digits(x)| <= end <= dst.Length
    modifies dst
    ensures digits10 == |Digits(x)|
    ensures dst[..] == old(dst[..])[..end - digits10] + Digits(x) + old(dst[..])[end..]
  {
    ghost var was := dst[..];
    digits10 := 0;
    var c, y := end - 1, x;
    while y >= 100
      invariant c == end - 1 - digits10 && |Digits(y)| <= c + 1
      invariant Partial(was, dst[..], Digits(x), Digits(y), c, end)
    {
      PairSplits(y);
      c := WritePair(dst, y % 100, c, end, was, Digits(x), Digits(y / 100));
      y, digits10 := y / 100, digits10 + 2;
    }
    if y < 10 {
      DigitWritten(was, dst[..], Digits(x), Digit(y), c, end);
      dst[c] := Digit(y);
      digits10, c := digits10 + 1, c - 1;
    } else {
      FirstPair(y);
      c := WritePair(dst, y, c, end, was, Digits(x), []);
      digits10 := digits10 + 2;
    }
    AllWritten(was, dst[..], Digits(x), c, end);
  }

  /** `memcpy` of two digits to `dst[c - 1]`. */
  method WritePair(dst: array<char>, r: nat, c: int, end: nat, ghost was: string, ghost text: string,
                   ghost rest: string)
    returns (next: int)
    requires r < 100 && 1 <= c
    requires Partial(was, dst[..], text, rest + Pair(r), c, end)
    modifies dst
    ensures next == c - 2 && Partial(was, dst[..], text, rest, next, end)
  {
    PairWritten(was, dst[..], text, rest, Pair(r), c, end);
    ghost var before := dst[..];
    dst[c - 1], dst[c] := Digit(r / 10), Digit(r % 10);
    assert dst[..] == before[c - 1 := Pair(r)[0]][c := Pair(r)[1]];
    next := c - 2;
  }

  /** `ops_int<arg_policy<zero_arg_policy::return_special, zeroReturn>, false>::ilog10_floor` */
  method Ilog10Floor(x: nat, w: Word, zeroReturn: int) returns (y: int)
    requires x < Modulus(w) && (zeroReturn == 0 || zeroReturn == -1)
    ensures if x == 0 then y == zeroReturn else IsLog10(x, y)
  {
    if w == Word32 {
      Ilog10Floor32IsFloor(x, zeroReturn);
      y := Ilog10Floor32(x, zeroReturn);
    } else {
      Ilog10Floor64IsFloor(x, zeroReturn);
      y := Ilog10Floor64(x, zeroReturn);
    }
  }

  /** `print_decimal_int` of an unsigned type, at `dst[at]`. */
  method Print(x: nat, w: Word, dst: array<char>, at: nat) returns (digits10: nat)
    requires x < Modulus(w) && at + |Digits(x)| <= dst.Length
    modifies dst
    ensures digits10 == |Digits(x)|
    ensures dst[..] == old(dst[..])[..at] + Digits(x) + old(dst[..])[at + digits10..]
  {
    var log := Ilog10Floor(x, w, 0);
    LogSizesText(x, log);
    digits10 := 1 + log;
    var written := RjustPrint(x, dst, at + digits10);
  }

  /** The decimal text of a signed number. */
  function SignedDigits(x: int): string {
    if x < 0 then "-" + Digits(-x) else Digits(x)
  }

  lemma SignInFront(was: string, signed: string, now: string, digits: string)
    requires 1 + |digits| <= |was| == |signed| && signed == was[0 := '-']
    requires now == signed[..1] + digits + signed[1 + |digits|..]
    ensures now == "-" + digits + was[1 + |digits|..]
  {
    assert signed[1 + |digits|..] == was[1 + |digits|..];
  }

  /** `print_decimal_int` of a signed type; negating the least number overflows, so it is not accepted. */
  method PrintSigned(x: int, w: Word, dst: array<char>) returns (length: nat)
    requires -(Modulus(w) / 2) < x < Modulus(w) / 2 && |SignedDigits(x)| <= dst.Length
    modifies dst
    ensures length == |SignedDigits(x)|
    ensures dst[..] == SignedDigits(x) + old(dst[..])[length..]
    ensures x < 0 ==> 0 < length && dst[0] == '-' && dst[1..length] == Digits(-x)
    ensures 0 <= x ==> dst[..length] == Digits(x)
  {
    hide Digits;
    if x < 0 {
      dst[0] := '-';
      ghost var signed := dst[..];
      var digits10 := Print(-x, w, dst, 1);
      length := 1 + digits10;
      SignInFront(old(dst[..]), signed, dst[..], Digits(-x));
    } else {
      length := Print(x, w, dst, 0);
    }
  }

  // ---- parsing ----

  /** What `parse_decimal_int` of an unsigned type makes of a text. */
  function Parsed(text: string, w: Word): nat {
    Value(text) % Modulus(w)
  }

  lemma WrappedStep(v: int, d: int, m: nat)
    requires m > 0
    ensures (v % m * 10 + d) % m == (10 * v + d) % m
  {
    assert 10 * v + d == v % m * 10 + d + v / m * 10 * m by {
      assert v == v / m * m + v % m;
    }
    ModPlusMultiple(v % m * 10 + d, v / m * 10, m);
  }

  /** `parse_decimal_int` of an unsigned type: every step wraps. */
  method Parse(text: string, w: Word) returns (r: nat)
    requires text != []
    ensures r == Parsed(text, w)
    ensures w == Word32 ==> r < Pow2(32) && r % Pow2(32) == Value(text) % Pow2(32)
    ensures w == Word64 ==> r < Pow2(64) && r % Pow2(64) == Value(text) % Pow2(64)
    ensures w == Word32 && 0 <= Value(text) <= 0xFFFF_FFFF ==> r == Value(text)
    ensures w == Word64 && 0 <= Value(text) <= 0xFFFF_FFFF_FFFF_FFFF ==> r == Value(text)
  {
    ModulusIs();
    r := 0;
    for i := 0 to |text|
      invariant r == Parsed(text[..i], w)
    {
      WrappedStep(Value(text[..i]), Code(text[i]) - 48, Modulus(w));
      assert text[..i + 1][..i] == text[..i];
      r := (r * 10 + (Code(text[i]) - 48)) % Modulus(w);
    }
    assert text[..|text|] == text;
    ParsedFits(text, w);
  }

  /** A number that the type can hold is parsed as it is. */
  lemma ParsedFits(text: string, w: Word)
    ensures 0 <= Value(text) < Modulus(w) ==> Parsed(text, w) == Value(text)
    ensures Parsed(text, w) < Modulus(w) && Parsed(text, w) % Modulus(w) == Value(text) % Modulus(w)
  {
    hide Value;
    if 0 <= Value(text) < Modulus(w) {
      SmallMod(Value(text), Modulus(w));
    }
  }

  /** The conversion of an unsigned to the signed type of the same width. */
  function ToSigned(r: nat, w: Word): int {
    if r < Modulus(w) / 2 then r else r - Modulus(w)
  }

  /** The signed number is the one in the range of the type that is congruent to `v`. */
  ghost predicate Wraps(r: int, v: int, w: Word) {
    -(Modulus(w) / 2) <= r < Modulus(w) / 2 && (r - v) % Modulus(w) == 0
  }

  lemma ToSignedIs(text: string, w: Word)
    ensures Wraps(ToSigned(Parsed(text, w), w), Value(text), w)
  {
    hide Value;
    var m, v := Modulus(w), Value(text);
    var k := -(v / m) - if v % m < m / 2 then 0 else 1;
    assert ToSigned(Parsed(text, w), w) - v == 0 + k * m;
    ModPlusMultiple(0, k, m);
  }

  function SignedParsed(text: string, w: Word): int
    requires text != []
  {
    if text[0] == '-' then -ToSigned(Parsed(text[1..], w), w) else ToSigned(Parsed(text, w), w)
  }

  /** `parse_decimal_int` of a signed type; the negation must not overflow. */
  method ParseSigned(text: string, w: Word) returns (r: int)
    requires text != [] && text != "-"
    requires text[0] == '-' ==> Parsed(text[1..], w) != Modulus(w) / 2
    ensures r == SignedParsed(text, w)
    ensures if text[0] == '-' then Wraps(-r, Value(text[1..]), w) else Wraps(r, Value(text), w)
  {
    hide Value, Parsed, Modulus, ToSigned, Wraps, Pow2;
    ToSignedIs(if text[0] == '-' then text[1..] else text, w);
    var negative := text[0] == '-';
    var abs := Parse(if negative then text[1..] else text, w);
    r := if negative then -ToSigned(abs, w) else ToSigned(abs, w);
  }

  // ---- round trips ----

  /** What is printed parses back. */
  lemma PrintThenParse(x: nat, w: Word)
    requires x < Pow2(if w == Word32 then 32 else 64)
    ensures Parsed(Digits(x), w) == x
  {
    ModulusIs();
    ValueOfDigits(x);
    SmallMod(x, Modulus(w));
  }

  lemma PrintedIsCanonical(text: string, x: nat, w: Word)
    requires x < Modulus(w) && Digits(x) == text
    ensures Canonical(text) && Value(text) == x
  {
    DigitsCanonical(x);
    ValueOfDigits(x);
  }

  lemma CanonicalIsPrinted(text: string, w: Word)
    requires Canonical(text) && Value(text) < Modulus(w)
    ensures Digits(Parsed(text, w)) == text
  {
    ValueOfCanonical(text);
    SmallMod(Value(text), Modulus(w));
  }

  lemma SmallMod(v: int, m: int)
    requires 0 <= v < m
    ensures v % m == v
  {
  }

  /** A text is printed back exactly when it is canonical and its number fits the type. */
  lemma ParseThenPrint(text: string, w: Word)
    ensures Digits(Parsed(text, w)) == text <==>
      Canonical(text) && Value(text) < Pow2(if w == Word32 then 32 else 64)
  {
    ModulusIs();
    if Canonical(text) && Value(text) < Modulus(w) {
      CanonicalIsPrinted(text, w);
    } else if Digits(Parsed(text, w)) == text {
      PrintedIsCanonical(text, Parsed(text, w), w);
    }
  }

  lemma SignedPrintThenParse(x: int, w: Word)
    requires 0 - Pow2(if w == Word32 then 31 else 63) < x < Pow2(if w == Word32 then 31 else 63)
    ensures SignedDigits(x) != [] && SignedDigits(x) != "-" && SignedParsed(SignedDigits(x), w) == x
  {
    ModulusIs();
    hide Digits, Value;
    if x < 0 {
      DigitsCanonical(-x);
      PrintThenParse(-x, w);
      assert SignedDigits(x)[1..] == Digits(-x);
    } else {
      DigitsCanonical(x);
      PrintThenParse(x, w);
    }
  }
}
