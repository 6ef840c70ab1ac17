/** vprintf: the format interpreter and its numeric conversions, against a recursive
    rendering of the format. */
module Printf {
  import opened Words
  import opened Collections

  /** A string as it stands in memory before its terminating zero. */
  type CString = s: seq<Byte> | 0 !in s

  const PERCENT: Byte := 37
  const NEWLINE: Byte := 10
  const MINUS := 45
  const INT_MIN := -0x8000_0000
  const LONG_MIN := -0x8000_0000_0000_0000

  type I32 = x: int | -0x8000_0000 <= x < 0x8000_0000
  type I64 = x: int | -0x8000_0000_0000_0000 <= x < 0x8000_0000_0000_0000

  /** A variable argument as it was passed. */
  datatype Arg = Int(x: I32) | Long(l: I64) | Str(s: CString) | NullStr

  // ------------------------------------------------------------- numbers

  // The base is 16 for the hexadecimal conversions and 10 for the others.

  function Times(x: nat, hex: bool): nat {
    if hex then 16 * x else 10 * x
  }

  function Quotient(x: nat, hex: bool): nat {
    if hex then x / 16 else x / 10
  }

  function Remainder(x: nat, hex: bool): nat {
    if hex then x % 16 else x % 10
  }

  /** The least number of more than n digits. */
  function Bound(hex: bool, n: nat): (p: nat)
    ensures p > 0
  {
    if n == 0 then 1 else Times(Bound(hex, n - 1), hex)
  }

  /** The digits of a positive number, most significant first; none for zero. */
  function Digits(x: nat, hex: bool): (ds: seq<nat>)
    ensures forall d <- ds :: d < 16
  {
    if x == 0 then [] else Digits(Quotient(x, hex), hex) + [Remainder(x, hex)]
  }

  function Value(ds: seq<nat>, hex: bool): nat {
    if ds == [] then 0
    else if hex then 16 * Value(ds[..|ds| - 1], hex) + ds[|ds| - 1]
    else 10 * Value(ds[..|ds| - 1], hex) + ds[|ds| - 1]
  }

  lemma {:induction false} ValueOfOneMore(ds: seq<nat>, d: nat, hex: bool)
    ensures Value(ds + [d], hex) == Times(Value(ds, hex), hex) + d
  {
    assert (ds + [d])[..|ds|] == ds;
  }

  lemma {:induction false} ValueOfDigits(x: nat, hex: bool)
    ensures Value(Digits(x, hex), hex) == x
  {
    if x == 0 {
    } else {
      ValueOfDigits(Quotient(x, hex), hex);
      ValueOfOneMore(Digits(Quotient(x, hex), hex), Remainder(x, hex), hex);
    }
  }

  lemma {:induction false} FirstDigit(x: nat, hex: bool)
    requires x != 0
    ensures Digits(x, hex) != [] && Digits(x, hex)[0] != 0
  {
    if Quotient(x, hex) == 0 {
    } else {
      FirstDigit(Quotient(x, hex), hex);
    }
  }

  lemma {:induction false} DigitCount(x: nat, hex: bool, n: nat)
    requires x < Bound(hex, n)
    ensures |Digits(x, hex)| <= n
  {
    if x == 0 {
    } else {
      DigitCount(Quotient(x, hex), hex, n - 1);
    }
  }

  function DigitChar(d: nat, upper: bool): int {
    if d > 9 then d + (if upper then 65 else 97) - 10 else d + 48
  }

  function DigitChars(ds: seq<nat>, upper: bool): seq<int> {
    seq(|ds|, i requires 0 <= i < |ds| => DigitChar(ds[i], upper))
  }

  /** A number as text: a sign, and digits without leading zeros. */
  function NumberText(x: int, hex: bool, upper: bool): seq<int>
  {
    if x == 0 then [48]
    else if x < 0 then [MINUS] + DigitChars(Digits(-x, hex), upper)
    else DigitChars(Digits(x, hex), upper)
  }

  function CharDigit(c: int, upper: bool): nat {
    if 48 <= c <= 57 then c - 48
    else if upper && 65 <= c then c - 65 + 10
    else if !upper && 97 <= c then c - 97 + 10
    else 0
  }

  /** What a reader of the text takes it for. */
  function Parsed(text: seq<int>, hex: bool, upper: bool): int {
    if text != [] && text[0] == MINUS then -(Value(CharDigits(text[1..], upper), hex) as int)
    else Value(CharDigits(text, upper), hex)
  }

  function CharDigits(text: seq<int>, upper: bool): seq<nat> {
    seq(|text|, i requires 0 <= i < |text| => CharDigit(text[i], upper))
  }

  lemma {:induction false} DigitsOfChars(ds: seq<nat>, upper: bool)
    requires forall d <- ds :: d < 16
    ensures CharDigits(DigitChars(ds, upper), upper) == ds
    ensures forall c <- DigitChars(ds, upper) :: c != MINUS
  {
    forall i | 0 <= i < |ds|
      ensures CharDigit(DigitChar(ds[i], upper), upper) == ds[i]
    {
      assert ds[i] in ds;
    }
  }

  lemma {:induction false} MagnitudeRoundTrip(m: nat, hex: bool, upper: bool)
    ensures var text := DigitChars(Digits(m, hex), upper);
      && Value(CharDigits(text, upper), hex) == m
      && (m > 0 ==> text != [] && text[0] != 48 && text[0] != MINUS)
  {
    ValueOfDigits(m, hex);
    DigitsOfChars(Digits(m, hex), upper);
    if m > 0 {
      FirstDigit(m, hex);
      assert Digits(m, hex)[0] in Digits(m, hex);
    }
  }

  lemma {:induction false} NegativeRoundTrip(m: nat, hex: bool, upper: bool)
    requires m > 0
    ensures Parsed([MINUS] + DigitChars(Digits(m, hex), upper), hex, upper) == -(m as int)
    ensures Digits(m, hex) != [] && DigitChars(Digits(m, hex), upper)[0] != 48
  {
    MagnitudeRoundTrip(m, hex, upper);
    var text := DigitChars(Digits(m, hex), upper);
    assert ([MINUS] + text)[1..] == text;
  }

  lemma {:induction false} PositiveRoundTrip(m: nat, hex: bool, upper: bool)
    requires m > 0
    ensures Parsed(DigitChars(Digits(m, hex), upper), hex, upper) == m
    ensures Digits(m, hex) != [] && DigitChars(Digits(m, hex), upper)[0] != 48
  {
    MagnitudeRoundTrip(m, hex, upper);
  }

  lemma {:induction false} ZeroRoundTrip(hex: bool, upper: bool)
    ensures Parsed([48], hex, upper) == 0
  {
    assert CharDigits([48], upper) == [0] && Value([0], hex) == 0;
  }

  /** Reading the text of a number gives the number back. */
  lemma {:induction false} NumberRoundTrip(x: int, hex: bool, upper: bool)
    ensures Parsed(NumberText(x, hex, upper), hex, upper) == x
  {
    if x == 0 {
      assert NumberText(0, hex, upper) == [48];
      ZeroRoundTrip(hex, upper);
    } else if x < 0 {
      assert NumberText(x, hex, upper) == [MINUS] + DigitChars(Digits(-x, hex), upper);
      NegativeRoundTrip(-x, hex, upper);
    } else {
      assert NumberText(x, hex, upper) == DigitChars(Digits(x, hex), upper);
      PositiveRoundTrip(x, hex, upper);
    }
  }

  /** The digits of a number other than zero do not start with a zero. */
  lemma {:induction false} NoLeadingZero(x: int, hex: bool, upper: bool)
    requires x != 0
    ensures var text := NumberText(x, hex, upper);
      if x < 0 then |text| > 1 && text[0] == MINUS && text[1] != 48 else text != [] && text[0] != 48
  {
    if x < 0 {
      NegativeRoundTrip(-x, hex, upper);
    } else {
      PositiveRoundTrip(x, hex, upper);
    }
  }

  // ------------------------------------------------------------ rendering

  function Chars(s: seq<Byte>): seq<int> {
    seq(|s|, i requires 0 <= i < |s| => s[i] as int)
  }

  /** The bytes of a string literal. */
  function Ascii(s: string): (b: seq<Byte>)
    ensures |b| == |s|
  {
    seq(|s|, i requires 0 <= i < |s| => s[i] as int % 0x100)
  }

  function Text(s: string): seq<int> {
    Chars(Ascii(s))
  }

  /** The conversions that take an argument. */
  predicate TakesArgument(k: Byte) {
    k as int in {99, 115, 105, 108, 76, 120, 88, 121, 89}   // c s i l L x X y Y
  }

  /** The argument has the type the conversion asks for, and can be negated. */
  predicate Suits(k: Byte, a: Arg) {
    if k as int == 99 then a.Int?                                       // %c
    else if k as int == 115 then a.Str? || a.NullStr?                   // %s
    else if k as int == 105 || k as int == 88 then a.Int? && a.x != INT_MIN     // %i %X
    else if k as int == 120 then a.Int?                                 // %x
    else if k as int == 76 || k as int == 89 then a.Long? && a.l != LONG_MIN    // %L %Y
    else a.Long?                                                        // %l %y
  }

  /** What a conversion prints. */
  function Converted(k: Byte, a: Arg): seq<int>
    requires TakesArgument(k) && Suits(k, a)
  {
    if k as int == 99 then [a.x]
    else if k as int == 115 then if a.Str? then Chars(a.s) else Text("(null)")
    else if k as int == 105 then NumberText(a.x, false, false)
    else if k as int == 88 then NumberText(a.x, true, true)
    else if k as int == 120 then NumberText(a.x % TWO_32, true, false)
    else if k as int == 76 then NumberText(a.l, false, false)
    else if k as int == 89 then NumberText(a.l, true, true)
    else if k as int == 108 then NumberText(a.l % TWO_64, false, false)
    else NumberText(a.l % TWO_64, true, false)
  }

  /** What is printed, in characters given to putchar, and the value returned. */
  datatype Rendering = Rendering(chars: seq<int>, count: nat)

  function Complaint(): seq<Byte> {
    Ascii("\nprintf: ") + Ascii("unimplemented ") + Ascii("conversion ") + Ascii("character '")
  }

  function Unimplemented(c: Byte): seq<int> {
    Chars(Complaint()) + [c as int] + Text("'\n")
  }

  /** There is a suitable argument for every conversion up to where printing stops. */
  predicate Matches(f: CString, args: seq<Arg>) {
    if f == [] then true
    else if f[0] != PERCENT then Matches(f[1..], args)
    else if |f| == 1 then true
    else if f[1] == PERCENT then Matches(f[2..], args)
    else if !TakesArgument(f[1]) then true
    else args != [] && Suits(f[1], args[0]) && (EndsOutput(f[1], args[0]) || Matches(f[2..], args[1..]))
  }

  /** `%c` of -1: putchar returns what vprintf takes for EOF. */
  predicate EndsOutput(k: Byte, a: Arg) {
    k as int == 99 && a.Int? && a.x == -1
  }

  function Then(first: seq<int>, n: nat, rest: Rendering): Rendering {
    Rendering(first + rest.chars, n + rest.count)
  }

  /** The meaning of a format. */
  function Render(f: CString, args: seq<Arg>): Rendering
    requires Matches(f, args)
  {
    if f == [] then Rendering([], 0)
    else if f[0] != PERCENT then Then([f[0] as int], 1, Render(f[1..], args))
    else if |f| == 1 then Rendering(Unimplemented(0), 0)
    else if f[1] == PERCENT then Then([PERCENT as int], 1, Render(f[2..], args))
    else if !TakesArgument(f[1]) then Rendering(Unimplemented(f[1]), 0)
    else if EndsOutput(f[1], args[0]) then Rendering([-1], 0)
    else
      var out := Converted(f[1], args[0]);
      Then(out, |out|, Render(f[2..], args[1..]))
  }

  /** The format consists of text and implemented conversions, and prints no EOF. */
  predicate Supported(f: CString, args: seq<Arg>)
    requires Matches(f, args)
  {
    if f == [] then true
    else if f[0] != PERCENT then Supported(f[1..], args)
    else if |f| == 1 then false
    else if f[1] == PERCENT then Supported(f[2..], args)
    else TakesArgument(f[1]) && !EndsOutput(f[1], args[0]) && Supported(f[2..], args[1..])
  }

  /** For such formats the value returned is the length of what is printed. */
  lemma {:induction false} CountIsLength(f: CString, args: seq<Arg>)
    requires Matches(f, args) && Supported(f, args)
    ensures Render(f, args).count == |Render(f, args).chars|
  {
    if f == [] {
    } else if f[0] != PERCENT {
      CountIsLength(f[1..], args);
    } else if f[1] == PERCENT {
      CountIsLength(f[2..], args);
    } else {
      CountIsLength(f[2..], args[1..]);
    }
  }

  /** Text without conversions is printed as it stands. */
  lemma {:induction false} TextRendersAsItself(t: CString, f: CString, args: seq<Arg>)
    requires PERCENT !in t && Matches(f, args)
    ensures 0 !in t + f && Matches(t + f, args)
    ensures Render(t + f, args) == Then(Chars(t), |t|, Render(f, args))
  {
    if t == [] {
      assert t + f == f;
    } else {
      TextRendersAsItself(t[1..], f, args);
      assert (t + f)[1..] == t[1..] + f;
      assert Chars(t) == [t[0] as int] + Chars(t[1..]);
      Joined([t[0] as int], Chars(t[1..]), Render(f, args).chars);
    }
  }

  // ------------------------------------------- what the letters stand for

  /** A conversion by itself. */
  lemma {:induction false} ConversionAlone(k: Byte, a: Arg)
    requires k != 0 && TakesArgument(k) && Suits(k, a) && !EndsOutput(k, a)
    ensures Matches([PERCENT, k], [a])
    ensures Render([PERCENT, k], [a]) == Rendering(Converted(k, a), |Converted(k, a)|)
  {
    var f: CString, args := [PERCENT, k], [a];
    assert f[2..] == [] && args[1..] == [];
  }

  /** `%i` prints a signed number in base ten. */
  lemma {:induction false} LetterI(x: I32)
    requires x != -0x8000_0000
    ensures Matches([37, 105], [Int(x)]) && Parsed(Render([37, 105], [Int(x)]).chars, false, false) == x
  {
    ConversionAlone(105, Int(x));
    NumberRoundTrip(x, false, false);
  }

  /** `%x` prints 32 bits as an unsigned number in base sixteen, with small letters. */
  lemma {:induction false} LetterSmallX(x: I32)
    ensures Matches([37, 120], [Int(x)])
    ensures Parsed(Render([37, 120], [Int(x)]).chars, true, false) == x % 0x1_0000_0000
  {
    ConversionAlone(120, Int(x));
    NumberRoundTrip(x % 0x1_0000_0000, true, false);
  }

  /** `%X` prints a signed number in base sixteen, with capital letters. */
  lemma {:induction false} LetterCapitalX(x: I32)
    requires x != -0x8000_0000
    ensures Matches([37, 88], [Int(x)]) && Parsed(Render([37, 88], [Int(x)]).chars, true, true) == x
  {
    ConversionAlone(88, Int(x));
    NumberRoundTrip(x, true, true);
  }

  /** `%l` prints 64 bits as an unsigned number in base ten. */
  lemma {:induction false} LetterSmallL(l: I64)
    ensures Matches([37, 108], [Long(l)])
    ensures Parsed(Render([37, 108], [Long(l)]).chars, false, false) == l % 0x1_0000_0000_0000_0000
  {
    ConversionAlone(108, Long(l));
    NumberRoundTrip(l % 0x1_0000_0000_0000_0000, false, false);
  }

  /** `%L` prints a signed number of 64 bits in base ten. */
  lemma {:induction false} LetterCapitalL(l: I64)
    requires l != -0x8000_0000_0000_0000
    ensures Matches([37, 76], [Long(l)]) && Parsed(Render([37, 76], [Long(l)]).chars, false, false) == l
  {
    ConversionAlone(76, Long(l));
    NumberRoundTrip(l, false, false);
  }

  /** `%y` prints 64 bits as an unsigned number in base sixteen, with small letters. */
  lemma {:induction false} LetterSmallY(l: I64)
    ensures Matches([37, 121], [Long(l)])
    ensures Parsed(Render([37, 121], [Long(l)]).chars, true, false) == l % 0x1_0000_0000_0000_0000
  {
    ConversionAlone(121, Long(l));
    NumberRoundTrip(l % 0x1_0000_0000_0000_0000, true, false);
  }

  /** `%Y` prints a signed number of 64 bits in base sixteen, with capital letters. */
  lemma {:induction false} LetterCapitalY(l: I64)
    requires l != -0x8000_0000_0000_0000
    ensures Matches([37, 89], [Long(l)]) && Parsed(Render([37, 89], [Long(l)]).chars, true, true) == l
  {
    ConversionAlone(89, Long(l));
    NumberRoundTrip(l, true, true);
  }

  /** `%c` prints its argument, as one character. The character that looks like EOF ends it all. */
  lemma {:induction false} LetterC(x: I32)
    ensures Matches([37, 99], [Int(x)])
    ensures Render([37, 99], [Int(x)]) == Rendering([x], if x == -1 then 0 else 1)
  {
    if x == -1 {
      assert EndsOutput(99, Int(x));
    } else {
      ConversionAlone(99, Int(x));
    }
  }

  /** `%s` prints the string, or "(null)" for a null pointer. */
  lemma {:induction false} LetterS(s: CString)
    ensures Matches([37, 115], [Str(s)]) && Render([37, 115], [Str(s)]) == Rendering(Chars(s), |s|)
    ensures Matches([37, 115], [NullStr])
    ensures Render([37, 115], [NullStr]) == Rendering([40, 110, 117, 108, 108, 41], 6)
  {
    ConversionAlone(115, Str(s));
    ConversionAlone(115, NullStr);
    assert Text("(null)") == [40, 110, 117, 108, 108, 41];
  }

  /** `%%` prints a percent sign, and the rest follows. */
  lemma {:induction false} PercentSign(f: CString, args: seq<Arg>)
    requires Matches(f, args)
    ensures Matches([37, 37] + f, args) && Render([37, 37] + f, args) == Then([37], 1, Render(f, args))
  {
    var g: CString := [37, 37] + f;
    assert g[2..] == f;
  }

  /** A conversion prints what it prints by itself, and the rest follows with the arguments
      that are left. */
  lemma {:induction false} ConversionThenRest(k: Byte, a: Arg, f: CString, args: seq<Arg>)
    requires k as int in {99, 115, 105, 108, 76, 120, 88, 121, 89} && Suits(k, a) && !EndsOutput(k, a)
    requires Matches(f, args)
    ensures Matches([37, k] + f, [a] + args) && Matches([37, k], [a])
    ensures var alone := Render([37, k], [a]);
      Render([37, k] + f, [a] + args) == Then(alone.chars, alone.count, Render(f, args))
  {
    ConversionAlone(k, a);
    var g: CString, all := [37, k] + f, [a] + args;
    assert g[2..] == f && all[1..] == args;
  }

  /** Any other letter ends the output with a complaint, and so does a percent sign at the end. */
  lemma {:induction false} UnknownLetter(k: Byte, f: CString, args: seq<Arg>)
    requires k as int !in {0, 37, 99, 115, 105, 108, 76, 120, 88, 121, 89}
    ensures Matches([37, k] + f, args) && Matches([37], args)
    ensures Render([37, k] + f, args) == Rendering(Chars(Complaint()) + [k as int] + [39, 10], 0)
    ensures Render([37], args) == Rendering(Chars(Complaint()) + [0] + [39, 10], 0)
  {
    var g: CString := [37, k] + f;
    assert g[0] == 37 && g[1] == k;
    assert Text("'\n") == [39, 10];
  }

  /** 255 in both cases, and a number in base ten. */
  lemma {:induction false} SomeNumbers()
    ensures NumberText(255, true, false) == [102, 102] && NumberText(-255, true, true) == [45, 70, 70]
    ensures NumberText(-120, false, false) == [45, 49, 50, 48]
  {
    assert Digits(15, true) == [15] && Digits(255, true) == [15, 15];
    assert Digits(1, false) == [1] && Digits(12, false) == [1, 2] && Digits(120, false) == [1, 2, 0];
  }

  lemma {:induction false} Joined(a: seq<int>, b: seq<int>, c: seq<int>)
    ensures a + (b + c) == a + b + c
  {
  }

  /** A text with one `%c` in it is printed with the argument in its place. */
  lemma {:induction false} TextAroundConversion(before: CString, after: CString, c: Byte)
    requires PERCENT !in before && PERCENT !in after
    ensures var f := before + ([PERCENT, 99] + after);
      && 0 !in f && Matches(f, [Int(c as int)])
      && Render(f, [Int(c as int)]).chars == Chars(before) + [c as int] + Chars(after)
  {
    TextRendersAsItself(after, [], []);
    assert after + [] == after;
    var conversion: CString, args := [PERCENT, 99] + after, [Int(c as int)];
    assert conversion[2..] == after && args[1..] == [];
    TextRendersAsItself(before, conversion, args);
    Joined(Chars(before), [c as int], Chars(after));
  }

  /** What vprintf prints when it calls printf itself, for a null string. */
  lemma {:induction false} NestedNullString()
    ensures var f := Ascii("(null)");
      0 !in f && Matches(f, []) && Render(f, []) == Rendering(Text("(null)"), 6)
  {
    var f := Ascii("(null)");
    assert f == [40, 110, 117, 108, 108, 41];
    TextRendersAsItself(f, [], []);
    assert f + [] == f;
  }

  /** What vprintf prints when it calls printf itself, for an unknown conversion character. */
  lemma {:induction false} NestedComplaint(c: Byte)
    ensures var f := Complaint() + ([PERCENT, 99] + Ascii("'\n"));
      0 !in f && Matches(f, [Int(c as int)]) && Render(f, [Int(c as int)]).chars == Unimplemented(c)
  {
    ComplaintIsPlain();
    TextAroundConversion(Complaint(), Ascii("'\n"), c);
  }

  lemma {:induction false} ComplaintIsPlain()
    ensures 0 !in Complaint() && PERCENT !in Complaint()
  {
    FirstWordsPlain();
    assert Ascii("conversion ") == [99, 111, 110, 118, 101, 114, 115, 105, 111, 110, 32];
    assert Ascii("character '") == [99, 104, 97, 114, 97, 99, 116, 101, 114, 32, 39];
  }

  lemma {:induction false} FirstWordsPlain()
    ensures 0 !in Ascii("\nprintf: ") && PERCENT !in Ascii("\nprintf: ")
    ensures 0 !in Ascii("unimplemented ") && PERCENT !in Ascii("unimplemented ")
  {
    assert Ascii("\nprintf: ") == [10, 112, 114, 105, 110, 116, 102, 58, 32];
    assert Ascii("unimplemented ") == [117, 110, 105, 109, 112, 108, 101, 109, 101, 110, 116, 101, 100, 32];
  }

  /** The bytes that reach the UART: putchar sends a carriage return before a newline. */
  function Uart(chars: seq<int>): seq<Byte> {
    if chars == [] then []
    else
      var c := chars[|chars| - 1];
      Uart(chars[..|chars| - 1]) + (if c == NEWLINE as int then [13] else []) + [c % 0x100]
  }

  lemma {:induction false} UartOfMore(chars: seq<int>, c: int)
    ensures Uart(chars + [c]) == Uart(chars) + (if c == NEWLINE as int then [13] else []) + [c % 0x100]
  {
    assert (chars + [c])[..|chars|] == chars;
  }

  /** What is left on the UART without carriage returns. */
  function WithoutReturns(bytes: seq<Byte>): seq<int> {
    if bytes == [] then []
    else
      var n := |bytes| - 1;
      WithoutReturns(bytes[..n]) + if bytes[n] == 13 then [] else [bytes[n] as int]
  }

  lemma {:induction false} WithoutReturnsOfMore(bytes: seq<Byte>, b: Byte)
    ensures WithoutReturns(bytes + [b]) == WithoutReturns(bytes) + if b == 13 then [] else [b as int]
  {
    assert (bytes + [b])[..|bytes|] == bytes;
  }

  /** Newlines follow carriage returns, and only they do. */
  ghost predicate Lines(b: seq<Byte>) {
    && (forall i :: 0 <= i < |b| && b[i] == 10 ==> i > 0 && b[i - 1] == 13)
    && (forall i :: 0 <= i < |b| && b[i] == 13 ==> i + 1 < |b| && b[i + 1] == 10)
  }

  lemma {:induction false} LinesOfMore(b: seq<Byte>, c: Byte)
    requires Lines(b) && c != 10 && c != 13
    ensures Lines(b + [c])
  {
  }

  lemma {:induction false} LinesOfNewline(b: seq<Byte>)
    requires Lines(b)
    ensures Lines(b + [13] + [10])
  {
  }

  lemma {:induction false} LinesOfChar(b: seq<Byte>, c: Byte, after: seq<Byte>)
    requires Lines(b) && c != 13 && after == b + (if c == 10 then [13] else []) + [c]
    ensures Lines(after)
  {
    if c == 10 {
      LinesOfNewline(b);
    } else {
      assert b + [] == b;
      LinesOfMore(b, c);
    }
  }

  lemma {:induction false} WithoutReturnsOfChar(b: seq<Byte>, c: Byte, after: seq<Byte>)
    requires c != 13 && after == b + (if c == 10 then [13] else []) + [c]
    ensures WithoutReturns(after) == WithoutReturns(b) + [c as int]
  {
    if c == 10 {
      WithoutReturnsOfMore(b, 13);
      WithoutReturnsOfMore(b + [13], 10);
    } else {
      assert b + [] == b;
      WithoutReturnsOfMore(b, c);
    }
  }

  lemma {:induction false} UartLines(chars: seq<int>)
    requires forall i :: 0 <= i < |chars| ==> 0 <= chars[i] < 0x100 && chars[i] != 13
    ensures Lines(Uart(chars))
  {
    if chars == [] {
    } else {
      var n := |chars| - 1;
      UartLines(chars[..n]);
      LinesOfChar(Uart(chars[..n]), chars[n], Uart(chars));
    }
  }

  lemma {:induction false} UartChars(chars: seq<int>)
    requires forall i :: 0 <= i < |chars| ==> 0 <= chars[i] < 0x100 && chars[i] != 13
    ensures WithoutReturns(Uart(chars)) == chars
  {
    if chars == [] {
    } else {
      var n := |chars| - 1;
      UartChars(chars[..n]);
      WithoutReturnsOfChar(Uart(chars[..n]), chars[n], Uart(chars));
      assert chars == chars[..n] + [chars[n]];
    }
  }

  /** On the UART a line ends with a carriage return and a newline, and without the carriage
      returns the bytes are the characters printed. */
  lemma {:induction false} LinesEnd(chars: seq<int>)
    requires forall i :: 0 <= i < |chars| ==> 0 <= chars[i] < 0x100 && chars[i] != 13
    ensures Lines(Uart(chars)) && WithoutReturns(Uart(chars)) == chars
  {
    UartLines(chars);
    UartChars(chars);
  }

  // ------------------------------------------------------------- the code

  lemma {:induction false} ReversedMore(ds: seq<nat>, d: nat)
    ensures Reverse(ds + [d]) == [d] + Reverse(ds)
  {
  }

  /** One turn of a digit loop moves the last digit of x into the buffer. */
  lemma {:induction false} DigitMoves(x0: nat, x: nat, hex: bool, done: seq<nat>)
    requires x != 0 && Digits(x0, hex) == Digits(x, hex) + Reverse(done)
    ensures Digits(x0, hex) == Digits(Quotient(x, hex), hex) + Reverse(done + [Remainder(x, hex)])
    ensures |done| < |Digits(x0, hex)|
  {
    ReversedMore(done, Remainder(x, hex));
    var q, d := Digits(Quotient(x, hex), hex), Remainder(x, hex);
    assert q + [d] + Reverse(done) == q + ([d] + Reverse(done));
  }

  lemma {:induction false} OneMoreChar(printed: seq<int>, text: seq<int>, k: nat)
    requires k < |text|
    ensures printed + text[..k] + [text[k]] == printed + text[..k + 1]
  {
    assert text[..k + 1] == text[..k] + [text[k]];
  }

  function Sign(x: int): seq<int> {
    if x < 0 then [MINUS] else []
  }

  function Magnitude(x: int): nat {
    if x < 0 then -x else x
  }

  lemma {:induction false} TextFromBuffer(x: int, hex: bool, upper: bool, buffer: seq<nat>, digits: nat)
    requires digits <= |buffer| && |buffer| >= 1
    requires Reverse(buffer[..digits]) == Digits(Magnitude(x), hex)
    requires x == 0 ==> buffer[0] == 0
    ensures var start := if digits == 0 then 0 else digits - 1;
      NumberText(x, hex, upper) == Sign(x) + DigitChars(Reverse(buffer[..start + 1]), upper)
  {
    if x != 0 {
      FirstDigit(Magnitude(x), hex);
    } else {
      assert Reverse(buffer[..1]) == [0];
    }
  }

  /** The unsigned counter after k more characters. */
  function Counted(n: U32, k: nat): U32 {
    if k == 0 then n else Following(Counted(n, k - 1))
  }

  function Following(n: U32): U32 {
    if n == 0xFFFF_FFFF then 0 else n + 1
  }

  lemma {:induction false} CountedTwice(n: U32, j: nat, k: nat)
    ensures Counted(Counted(n, j), k) == Counted(n, j + k)
    ensures Following(n) == Counted(n, 1) && Following(Counted(n, j)) == Counted(n, j + 1)
  {
    if k == 0 {
    } else {
      CountedTwice(n, j, k - 1);
    }
    assert Counted(n, 0) == n;
  }

  lemma {:induction false} CountedBoth(n: U32, a: seq<int>, b: seq<int>)
    ensures Counted(Counted(n, |a|), |b|) == Counted(n, |a + b|)
  {
    CountedTwice(n, |a|, |b|);
  }

  lemma {:induction false} FollowingModulo(x: nat)
    ensures Following(x % TWO_32) == (x + 1) % TWO_32
  {
  }

  lemma {:induction false} CountedModulo(n: U32, k: nat)
    ensures Counted(n, k) == (n + k) % TWO_32
  {
    if k == 0 {
    } else {
      CountedModulo(n, k - 1);
      FollowingModulo(n + k - 1);
    }
  }

  class Console {
    var uart: seq<Byte>
    ghost var printed: seq<int>

    ghost predicate Valid()
      reads this
    {
      uart == Uart(printed)
    }

    constructor ()
      ensures Valid() && printed == []
    {
      uart, printed := [], [];
    }

    method Putchar(c: int) returns (r: int)
      requires Valid()
      modifies this
      ensures Valid() && printed == old(printed) + [c] && r == c
    {
      if c == NEWLINE as int {
        uart := uart + [13];
      }
      uart := uart + [c % 0x100];
      UartOfMore(printed, c);
      printed := printed + [c];
      r := c;
    }

    /** `++chars_written`. */
    static method Increment(n: U32) returns (r: U32)
      ensures r == Following(n)
    {
      r := Add32(n, 1);
    }

    /** The loop over the characters of a string. */
    method PrintChars(s: seq<int>, charsWritten: U32) returns (n: U32)
      requires Valid()
      modifies this
      ensures Valid() && printed == old(printed) + s && n == Counted(charsWritten, |s|)
    {
      n := charsWritten;
      for i := 0 to |s|
        invariant Valid() && printed == old(printed) + s[..i] && n == Counted(charsWritten, i)
      {
        var _ := Putchar(s[i]);
        assert s[..i + 1] == s[..i] + [s[i]];
        CountedTwice(charsWritten, i, 1);
        n := Increment(n);
      }
      assert s[..|s|] == s;
    }

    /** The digit loops of the numeric conversions: the digits of x go into tmp, least
        significant first; the result is how many there are. */
    method ExtractDigits(x0: nat, hex: bool, tmp: array<nat>) returns (i: nat)
      requires x0 < Bound(hex, tmp.Length)
      modifies tmp
      ensures i <= tmp.Length && Reverse(tmp[..i]) == Digits(x0, hex)
      ensures forall k :: i <= k < tmp.Length ==> tmp[k] == old(tmp[k])
    {
      var x := x0;
      i := 0;
      DigitCount(x0, hex, tmp.Length);
      ghost var done := [];
      while x != 0
        invariant i == |done| <= tmp.Length && tmp[..i] == done
        invariant Digits(x0, hex) == Digits(x, hex) + Reverse(done)
        invariant forall k :: i <= k < tmp.Length ==> tmp[k] == old(tmp[k])
        decreases x
      {
        DigitMoves(x0, x, hex, done);
        var digit, rest := Remainder(x, hex), Quotient(x, hex);
        tmp[i] := digit;
        done := done + [digit];
        x := rest;
        i := i + 1;
      }
    }

    /** The digit loop and the step back to the most significant digit. */
    method FillBuffer(x: int, hex: bool, ghost upper: bool, tmp: array<nat>) returns (i: nat, ghost rest: seq<int>)
      requires tmp.Length >= 1 && tmp[0] == 0 && Magnitude(x) < Bound(hex, tmp.Length)
      modifies tmp
      ensures i < tmp.Length && rest == DigitChars(Reverse(tmp[..i + 1]), upper)
      ensures NumberText(x, hex, upper) == Sign(x) + rest && |rest| == i + 1
    {
      i := ExtractDigits(Magnitude(x), hex, tmp);
      TextFromBuffer(x, hex, upper, tmp[..], i);
      assert tmp[..][..i] == tmp[..i];
      if i != 0 {
        i := i - 1;
      }
      assert tmp[..][..i + 1] == tmp[..i + 1];
      rest := DigitChars(Reverse(tmp[..i + 1]), upper);
    }

    /** A numeric conversion: digits into a buffer of the given size, the sign, and the buffer
        printed backwards. */
    method PrintNumber(x: int, hex: bool, upper: bool, size: nat, charsWritten: U32) returns (n: U32)
      requires Valid() && size >= 1 && Magnitude(x) < Bound(hex, size)
      modifies this
      ensures Valid() && printed == old(printed) + NumberText(x, hex, upper)
      ensures n == Counted(charsWritten, |NumberText(x, hex, upper)|)
    {
      var tmp := new nat[size](_ => 0);
      var i;
      ghost var rest;
      i, rest := FillBuffer(x, hex, upper, tmp);
      n := PrintBuffer(x, tmp, i, upper, charsWritten, rest, tmp[..i + 1]);
    }

    /** The sign, and the buffer from its digit i down. */
    method PrintBuffer(x: int, tmp: array<nat>, i: nat, upper: bool, charsWritten: U32, ghost rest: seq<int>,
                       ghost digits: seq<nat>)
      returns (n: U32)
      requires Valid() && i < tmp.Length && |rest| == i + 1
      requires digits == tmp[..i + 1] && rest == DigitChars(Reverse(digits), upper)
      modifies this
      ensures Valid() && printed == old(printed) + (Sign(x) + rest) && n == Counted(charsWritten, |Sign(x) + rest|)
    {
      n := PrintSign(x, charsWritten);
      n := PrintBackwards(tmp, i, upper, n, rest, digits);
      Joined(old(printed), Sign(x), rest);
      CountedBoth(charsWritten, Sign(x), rest);
    }

    method PrintSign(x: int, charsWritten: U32) returns (n: U32)
      requires Valid()
      modifies this
      ensures Valid() && printed == old(printed) + Sign(x) && n == Counted(charsWritten, |Sign(x)|)
    {
      n := charsWritten;
      if x < 0 {
        n := Increment(n);
        var _ := Putchar(MINUS);
      }
    }

    /** `for ( ; i >= 0; --i)`: prints tmp[i] down to tmp[0]. */
    method PrintBackwards(tmp: array<nat>, start: nat, upper: bool, charsWritten: U32, ghost text: seq<int>,
                          ghost digits: seq<nat>)
      returns (n: U32)
      requires Valid() && start < tmp.Length && |text| == start + 1
      requires digits == tmp[..start + 1] && text == DigitChars(Reverse(digits), upper)
      modifies this
      ensures Valid() && printed == old(printed) + text && n == Counted(charsWritten, |text|)
    {
      n := charsWritten;
      var i := start as int;
      while i >= 0
        invariant -1 <= i <= start && Valid()
        invariant printed == old(printed) + text[..start - i] && n == Counted(charsWritten, start - i)
      {
        PrintDigit(tmp[i], upper);
        OneMoreChar(old(printed), text, start - i);
        CountedTwice(charsWritten, start - i, 1);
        n := Increment(n);
        i := i - 1;
      }
      assert text[..start + 1] == text;
    }

    method PrintDigit(digit: nat, upper: bool)
      requires Valid()
      modifies this
      ensures Valid() && printed == old(printed) + [DigitChar(digit, upper)]
    {
      if digit > 9 {
        var _ := Putchar(digit + (if upper then 65 else 97) - 10);
      } else {
        var _ := Putchar(digit + 48);
      }
    }

    /** The conversions that take an argument. */
    method PrintConversion(k: Byte, a: Arg, charsWritten: U32) returns (n: U32)
      requires Valid() && TakesArgument(k) && Suits(k, a) && !EndsOutput(k, a)
      modifies this
      ensures Valid() && printed == old(printed) + Converted(k, a)
      ensures n == Counted(charsWritten, |Converted(k, a)|)
    {
      if k as int == 99 {
        n := PrintChars([a.x], charsWritten);
      } else if k as int == 115 {
        n := PrintChars(if a.Str? then Chars(a.s) else Text("(null)"), charsWritten);
      } else if a.Int? {
        n := PrintInt(k, a.x, charsWritten);
      } else {
        n := PrintLong(k, a.l, charsWritten);
      }
    }

    /** `%i`, `%x` and `%X`: the buffer holds ten digits. */
    method PrintInt(k: Byte, x: I32, charsWritten: U32) returns (n: U32)
      requires Valid() && k as int in {105, 120, 88} && Suits(k, Int(x))
      modifies this
      ensures Valid() && printed == old(printed) + Converted(k, Int(x))
      ensures n == Counted(charsWritten, |Converted(k, Int(x))|)
    {
      BufferSizes();
      if k as int == 105 {
        n := PrintNumber(x, false, false, 10, charsWritten);
      } else if k as int == 120 {
        n := PrintNumber(x % TWO_32, true, false, 10, charsWritten);
      } else {
        n := PrintNumber(x, true, true, 10, charsWritten);
      }
    }

    /** `%l`, `%L`, `%y` and `%Y`: the buffer holds twenty digits. */
    method PrintLong(k: Byte, l: I64, charsWritten: U32) returns (n: U32)
      requires Valid() && k as int in {108, 76, 121, 89} && Suits(k, Long(l))
      modifies this
      ensures Valid() && printed == old(printed) + Converted(k, Long(l))
      ensures n == Counted(charsWritten, |Converted(k, Long(l))|)
    {
      BufferSizes();
      if k as int == 108 {
        n := PrintNumber(l % TWO_64, false, false, 20, charsWritten);
      } else if k as int == 76 {
        n := PrintNumber(l, false, false, 20, charsWritten);
      } else if k as int == 121 {
        n := PrintNumber(l % TWO_64, true, false, 20, charsWritten);
      } else {
        n := PrintNumber(l, true, true, 20, charsWritten);
      }
    }

    method Vprintf(format: CString, args: seq<Arg>) returns (charsWritten: U32)
      requires Valid() && Matches(format, args)
      modifies this
      ensures Valid() && printed == old(printed) + Render(format, args).chars
      ensures charsWritten == Render(format, args).count % TWO_32
    {
      charsWritten := FormatLoop(format, args);
      CountedModulo(0, Render(format, args).count);
    }

    /** The loop of vprintf: one turn for each piece of the format. */
    method FormatLoop(format: CString, args: seq<Arg>) returns (charsWritten: U32)
      requires Valid() && Matches(format, args)
      modifies this
      ensures Valid() && printed == old(printed) + Render(format, args).chars
      ensures charsWritten == Counted(0, Render(format, args).count)
    {
      charsWritten := 0;
      var c, ap := 0, 0;
      ghost var done := Rendering([], 0);
      NothingDone(format, args);
      while c < |format|
        invariant Valid() && Remaining(format, args, c, ap, done)
        invariant printed == old(printed) + done.chars && charsWritten == Counted(0, done.count)
      {
        var used, taken, stop;
        ghost var p;
        used, taken, stop, charsWritten, p := OneTurn(format, args, c, ap, charsWritten, done.count);
        PieceByPiece(format, args, c, ap, done, p, used, taken);
        Associative(old(printed), done.chars, p.out);
        done := Extended(done, p);
        if stop {
          return;
        }
        c, ap := c + used, ap + taken;
      }
      AllDone(format, args, c, ap, done);
    }

    /** The body of the loop. */
    method OneTurn(format: CString, args: seq<Arg>, c: nat, ap: nat, charsWritten: U32, ghost count: nat)
      returns (used: nat, taken: nat, stop: bool, n: U32, ghost p: Piece)
      requires Valid() && c < |format| && ap <= |args| && Matches(format[c..], args[ap..])
      requires charsWritten == Counted(0, count)
      modifies this
      ensures p == NextPiece(format[c..], args[ap..])
      ensures Valid() && printed == old(printed) + p.out && stop == p.stop
      ensures n == Counted(0, if stop then count else count + |p.out|)
      ensures !stop ==> used == p.used && taken == p.taken
    {
      p := NextPiece(format[c..], args[ap..]);
      used, taken, stop, n := PrintPiece(format, args, c, ap, charsWritten, p);
      CountedTwice(0, count, |p.out|);
    }

    /** Text, `%%`, a conversion, or the complaint about an unknown one. */
    method PrintPiece(format: CString, args: seq<Arg>, c: nat, ap: nat, charsWritten: U32, ghost p: Piece)
      returns (used: nat, taken: nat, stop: bool, n: U32)
      requires Valid() && c < |format| && ap <= |args| && Matches(format[c..], args[ap..])
      requires p == NextPiece(format[c..], args[ap..])
      modifies this
      ensures Valid() && printed == old(printed) + p.out && stop == p.stop
      ensures stop ==> n == charsWritten
      ensures !stop ==> used == p.used && taken == p.taken && n == Counted(charsWritten, |p.out|)
    {
      used, taken, stop, n := 2, 0, false, charsWritten;
      if format[c] != PERCENT {
        n := PrintChars([format[c] as int], charsWritten);
        used := 1;
      } else {
        var k := if c + 1 < |format| then format[c + 1] else 0;
        if k == PERCENT {
          n := PrintChars([PERCENT as int], charsWritten);
        } else if TakesArgument(k) {
          var x := args[ap];
          taken := 1;
          if EndsOutput(k, x) {
            var _ := Putchar(x.x);
            stop := true;
          } else {
            n := PrintConversion(k, x, charsWritten);
          }
        } else {
          var _ := PrintChars(Unimplemented(k), 0);
          stop := true;
        }
      }
    }
  }

  /** Done so far and the rendering of the suffixes make up the whole rendering. */
  ghost predicate Remaining(format: CString, args: seq<Arg>, c: nat, ap: nat, done: Rendering)
    requires Matches(format, args)
  {
    && c <= |format| && ap <= |args| && Matches(format[c..], args[ap..])
    && Render(format, args) == Then(done.chars, done.count, Render(format[c..], args[ap..]))
  }

  lemma {:induction false} Associative(a: seq<int>, b: seq<int>, c: seq<int>)
    ensures (a + b) + c == a + (b + c)
  {
  }

  lemma {:induction false} NothingDone(format: CString, args: seq<Arg>)
    requires Matches(format, args)
    ensures Remaining(format, args, 0, 0, Rendering([], 0))
  {
    assert format[0..] == format && args[0..] == args;
    assert Then([], 0, Render(format, args)).chars == Render(format, args).chars;
  }

  lemma {:induction false} AllDone(format: CString, args: seq<Arg>, c: nat, ap: nat, done: Rendering)
    requires Matches(format, args) && Remaining(format, args, c, ap, done) && c >= |format|
    ensures Render(format, args) == done
  {
  }

  /** What is done after one more piece. */
  ghost function Extended(done: Rendering, p: Piece): Rendering {
    Rendering(done.chars + p.out, done.count + if p.stop then 0 else |p.out|)
  }

  lemma {:induction false} PieceByPiece(format: CString, args: seq<Arg>, c: nat, ap: nat, done: Rendering, p: Piece,
                                        used: nat, taken: nat)
    requires Matches(format, args) && c < |format| && Remaining(format, args, c, ap, done)
    requires p == NextPiece(format[c..], args[ap..]) && (!p.stop ==> used == p.used && taken == p.taken)
    ensures p.stop ==> Render(format, args) == Extended(done, p)
    ensures !p.stop ==> used > 0 && Remaining(format, args, c + used, ap + taken, Extended(done, p))
  {
    PieceThenRest(format, args, c, ap);
    if !p.stop {
      RenderAdvances(done, p.out, Render(format[c + used..], args[ap + taken..]));
    }
  }

  lemma {:induction false} BufferSizes()
    ensures Bound(false, 10) > 0xFFFF_FFFF && Bound(false, 20) > 0xFFFF_FFFF_FFFF_FFFF
    ensures Bound(true, 10) > 0xFFFF_FFFF && Bound(true, 20) > 0xFFFF_FFFF_FFFF_FFFF
  {
    assert Bound(false, 5) == 100000 && Bound(true, 5) == 0x10_0000;
    assert Bound(false, 10) == 10000000000 && Bound(true, 10) == 0x100_0000_0000;
    assert Bound(false, 15) == 1000000000000000 && Bound(true, 15) == 0x1000_0000_0000_0000;
    assert Bound(false, 20) == 100000000000000000000 && Bound(true, 20) == 0x1_0000_0000_0000_0000_0000;
  }

  lemma {:induction false} RenderAdvances(done: Rendering, out: seq<int>, rest: Rendering)
    ensures Then(done.chars, done.count, Then(out, |out|, rest)) == Then(done.chars + out, done.count + |out|, rest)
  {
  }

  /** The next piece of a format: what it prints, how many characters of the format and
      arguments it uses up, and whether printing ends there. */
  datatype Piece = Piece(out: seq<int>, used: nat, taken: nat, stop: bool)

  function NextPiece(f: CString, args: seq<Arg>): Piece
    requires f != [] && Matches(f, args)
  {
    if f[0] != PERCENT then Piece([f[0] as int], 1, 0, false)
    else
      var k := if 1 < |f| then f[1] else 0;
      if k == PERCENT then Piece([PERCENT as int], 2, 0, false)
      else if !TakesArgument(k) then Piece(Unimplemented(k), 2, 0, true)
      else if EndsOutput(k, args[0]) then Piece([-1], 2, 1, true)
      else Piece(Converted(k, args[0]), 2, 1, false)
  }

  /** The rendering of a format is its next piece and the rendering of what follows. */
  lemma {:induction false} PieceThenRest(format: CString, args: seq<Arg>, c: nat, ap: nat)
    requires c < |format| && ap <= |args| && Matches(format[c..], args[ap..])
    ensures var p := NextPiece(format[c..], args[ap..]);
      if p.stop then Render(format[c..], args[ap..]) == Rendering(p.out, 0)
      else
        && c + p.used <= |format| && ap + p.taken <= |args|
        && Matches(format[c + p.used..], args[ap + p.taken..])
        && Render(format[c..], args[ap..]) == Then(p.out, |p.out|, Render(format[c + p.used..], args[ap + p.taken..]))
  {
    var f := format[c..];
    assert f[1..] == format[c + 1..];
    if c + 1 < |format| {
      assert f[2..] == format[c + 2..];
      if ap < |args| {
        assert args[ap..][1..] == args[ap + 1..];
      }
    }
  }
}
