/** Numerals: the digits `printf_unsigned` prints, and what they mean. */
module Numerals {
  import opened Arith
  import opened Bytes
  import opened Characters

  type u64 = n: int | 0 <= n < 0x1_0000_0000_0000_0000

  const HEX: seq<byte> := [48, 49, 50, 51, 52, 53, 54, 55, 56, 57, 97, 98, 99, 100, 101, 102]
  const BUFFER := 32

  function Digits(n: nat, radix: nat): seq<byte>
    requires 2 <= radix <= 16
  {
    if n == 0 then [] else Digits(n / radix, radix) + [HEX[n % radix]]
  }

  function DigitValue(c: byte): nat {
    if 48 <= c < 58 then c - 48 else if 97 <= c < 103 then c - 87 else 16
  }

  /** The number that a string of digits stands for; the empty string stands for 0. */
  function Value(s: seq<byte>, radix: nat): nat {
    if s == [] then 0 else Value(s[..|s| - 1], radix) * radix + DigitValue(s[|s| - 1])
  }

  /** Digits of the radix, without a leading zero. */
  predicate Numeral(s: seq<byte>, radix: nat) {
    && (forall i :: 0 <= i < |s| ==> DigitValue(s[i]) < radix)
    && (s != [] ==> DigitValue(s[0]) != 0)
  }

  lemma DigitOf(d: nat)
    requires d < 16
    ensures DigitValue(HEX[d]) == d
  {
  }

  lemma DigitUnique(c: byte)
    requires DigitValue(c) < 16
    ensures HEX[DigitValue(c)] == c
  {
  }

  lemma ValueAppend(front: seq<byte>, c: byte, radix: nat)
    ensures Value(front + [c], radix) == Value(front, radix) * radix + DigitValue(c)
  {
    assert (front + [c])[..|front|] == front;
  }

  lemma NumeralAppend(front: seq<byte>, c: byte, radix: nat)
    requires Numeral(front, radix) && DigitValue(c) < radix && (front == [] ==> DigitValue(c) != 0)
    ensures Numeral(front + [c], radix)
  {
  }

  /** The lowest digit and the others, as what they are worth. */
  lemma SplitNumber(n: nat, radix: nat)
    requires 2 <= radix <= 16
    ensures n / radix * radix + n % radix == n && n % radix < radix
    ensures n / radix == 0 ==> n % radix == n
  {
    DivMod(n, radix);
    if n / radix == 0 {
      assert 0 * radix == 0;
    }
  }

  /** Nothing at all is printed for 0, and only for 0. */
  lemma NothingForZero(n: nat, radix: nat)
    requires 2 <= radix <= 16
    ensures Digits(n, radix) == [] <==> n == 0
  {
  }

  /** What is printed, read back in its radix, is the number; it has no leading zero. */
  lemma {:induction false} ReadBack(n: nat, radix: nat)
    requires 2 <= radix <= 16
    ensures Value(Digits(n, radix), radix) == n && Numeral(Digits(n, radix), radix)
  {
    if n != 0 {
      var q, d := n / radix, n % radix;
      SplitNumber(n, radix);
      LowestLess(n, radix);
      ReadBack(q, radix);
      DigitOf(d);
      NothingForZero(q, radix);
      ValueAppend(Digits(q, radix), HEX[d], radix);
      NumeralAppend(Digits(q, radix), HEX[d], radix);
    }
  }

  lemma LowestLess(n: nat, radix: nat)
    requires 2 <= radix && n > 0
    ensures 0 <= n / radix < n
  {
    DivMod(n, radix);
    Remainder(n, radix);
    MulMono(2, radix, n / radix);
  }

  /** Conversely every numeral is what is printed for its value, so no two numerals are printed
      for the same number. */
  lemma {:induction false} Canonical(s: seq<byte>, radix: nat)
    requires 2 <= radix <= 16 && Numeral(s, radix)
    ensures Digits(Value(s, radix), radix) == s
    decreases |s|
  {
    if s != [] {
      var front, d := s[..|s| - 1], DigitValue(s[|s| - 1]);
      Canonical(front, radix);
      DigitUnique(s[|s| - 1]);
      SplitDigit(Value(front, radix), radix, d);
      if front != [] {
        assert Digits(Value(front, radix), radix) != [];
      }
      assert s == front + [s[|s| - 1]];
    }
  }

  lemma SplitDigit(q: nat, radix: nat, d: nat)
    requires d < radix
    ensures (q * radix + d) / radix == q && (q * radix + d) % radix == d
    ensures q > 0 || d > 0 ==> q * radix + d > 0
  {
    DivModUnique(q * radix + d, radix, q, d);
    MulMono(0, q, radix);
    if q > 0 {
      MulMono(1, q, radix);
    }
  }

  function Pow4(k: nat): nat { if k == 0 then 1 else 4 * Pow4(k - 1) }

  lemma {:induction false} Pow4Adds(a: nat, b: nat)
    ensures Pow4(a + b) == Pow4(a) * Pow4(b)
  {
    if a > 0 {
      Pow4Adds(a - 1, b);
    }
  }

  lemma {:induction false} DigitCount(n: nat, radix: nat, k: nat)
    requires 4 <= radix <= 16 && n < Pow4(k)
    ensures |Digits(n, radix)| <= k
  {
    if n != 0 {
      Shrinks(n, radix);
      DigitCount(n / radix, radix, k - 1);
    }
  }

  lemma Shrinks(n: nat, radix: nat)
    requires radix >= 4
    ensures 4 * (n / radix) <= n
  {
    DivMod(n, radix);
    Remainder(n, radix);
    MulMono(4, radix, n / radix);
  }

  /** A 64-bit number never overruns the buffer of 32 digits. */
  lemma FitsBuffer(n: u64, radix: nat)
    requires 4 <= radix <= 16
    ensures |Digits(n, radix)| <= 32
  {
    Pow4Adds(2, 2);
    Pow4Adds(4, 4);
    Pow4Adds(8, 8);
    Pow4Adds(16, 16);
    DigitCount(n, radix, 32);
  }

  function SignedText(n: int, radix: nat): seq<byte>
    requires 2 <= radix <= 16
  {
    if n < 0 then [MINUS] + Digits(-n, radix) else Digits(n, radix)
  }

  function SignedValue(s: seq<byte>, radix: nat): int {
    if s != [] && s[0] == MINUS then -(Value(s[1..], radix) as int) else Value(s, radix)
  }

  /** A minus sign is printed for negative numbers and for no others. */
  lemma SignedReadBack(n: int, radix: nat)
    requires 2 <= radix <= 16
    ensures SignedValue(SignedText(n, radix), radix) == n
    ensures n < 0 <==> MINUS in SignedText(n, radix)
  {
    ReadBack(if n < 0 then -n else n, radix);
    if n < 0 {
      assert SignedText(n, radix)[1..] == Digits(-n, radix);
    }
  }

  /** The digits are the ones of the usual notation. */
  lemma UsualDigits()
    ensures HEX == Ascii("0123456789abcdef") && SignedText(-15, 16) == Ascii("-f")
  {
    assert Digits(15, 16) == Digits(0, 16) + [HEX[15]];
  }

  /** A 32-bit or 64-bit pattern as a signed number. */
  function Signed32(n: u32): int { if n < 0x8000_0000 then n else n - 0x1_0000_0000 }
  function Signed64(n: u64): int { if n < 0x8000_0000_0000_0000 then n else n - 0x1_0000_0000_0000_0000 }
}

/** The formats of `printf`: their grammar, and what a format and its arguments stand for. */
module Formats {
  import opened Bytes
  import opened Characters
  import opened Numerals
  import opened ShortNames

  const LETTER_C: byte := 99
  const LETTER_D: byte := 100
  const LETTER_H: byte := 104
  const LETTER_I: byte := 105
  const LETTER_L: byte := 108
  const LETTER_O: byte := 111
  const LETTER_P: byte := 112
  const LETTER_S: byte := 115
  const LETTER_U: byte := 117
  const LETTER_X: byte := 120
  const CAPITAL_X: byte := 88

  /** `int` and `long` are 32 bits wide, `long long` is 64; pointers point to C strings. */
  datatype Arg = Word(w: u32) | Quad(q: u64) | Text(s: seq<byte>)

  datatype Length = Default | ShortShort | Short | Long | LongLong

  datatype Token = Literal(c: byte) | Directive(length: Length, spec: byte)

  /** The optional length: 'h', 'hh', 'l' or 'll'. The rest follows. */
  function LengthOf(s: seq<byte>): (r: (Length, seq<byte>))
    ensures |r.1| <= |s|
  {
    if s == [] then (Default, s)
    else if s[0] == LETTER_H then
      if |s| > 1 && s[1] == LETTER_H then (ShortShort, s[2..]) else (Short, s[1..])
    else if s[0] == LETTER_L then
      if |s| > 1 && s[1] == LETTER_L then (LongLong, s[2..]) else (Long, s[1..])
    else (Default, s)
  }

  /** A whole directive at the start. */
  predicate Begins(s: seq<byte>) {
    s != [] && s[0] == PERCENT && LengthOf(s[1..]).1 != []
  }

  function DirectiveOf(s: seq<byte>): Token
    requires Begins(s)
  {
    Directive(LengthOf(s[1..]).0, LengthOf(s[1..]).1[0])
  }

  function AfterDirective(s: seq<byte>): (r: seq<byte>)
    requires Begins(s)
    ensures |r| < |s|
  {
    LengthOf(s[1..]).1[1..]
  }

  /** A format is a row of characters and directives; a directive the end cuts off is dropped. */
  function Parse(s: seq<byte>): seq<Token>
    decreases |s|
  {
    if s == [] then []
    else if s[0] != PERCENT then [Literal(s[0])] + Parse(s[1..])
    else if !Begins(s) then []
    else [DirectiveOf(s)] + Parse(AfterDirective(s))
  }

  /** The format does not end inside a directive. */
  predicate Closed(s: seq<byte>)
    decreases |s|
  {
    if s == [] then true
    else if s[0] != PERCENT then Closed(s[1..])
    else Begins(s) && Closed(AfterDirective(s))
  }

  predicate Signed(spec: byte) { spec == LETTER_D || spec == LETTER_I }

  predicate Unsigned(spec: byte) {
    spec == LETTER_U || spec == LETTER_X || spec == CAPITAL_X || spec == LETTER_P || spec == LETTER_O
  }

  function Radix(spec: byte): (r: nat)
    ensures r == 8 || r == 10 || r == 16
  {
    if spec == LETTER_O then 8 else if spec == LETTER_X || spec == CAPITAL_X || spec == LETTER_P then 16 else 10
  }

  predicate Consumes(token: Token) {
    token.Directive? && (token.spec == LETTER_C || token.spec == LETTER_S || Signed(token.spec) || Unsigned(token.spec))
  }

  /** An argument is of the type that a directive takes: what the caller has to see to. The
      smallest 64-bit number has no negation, so it cannot be printed as signed. */
  predicate Suits(token: Token, arg: Arg)
    requires Consumes(token)
  {
    if token.spec == LETTER_S then arg.Text? && 0 in arg.s
    else if token.spec == LETTER_C then arg.Word?
    else if token.length.LongLong? then
      arg.Quad? && (Signed(token.spec) ==> Signed64(arg.q) > -0x8000_0000_0000_0000)
    else arg.Word?
  }

  predicate Fits(tokens: seq<Token>, args: seq<Arg>) {
    if tokens == [] then true
    else if Consumes(tokens[0]) then args != [] && Suits(tokens[0], args[0]) && Fits(tokens[1..], args[1..])
    else Fits(tokens[1..], args)
  }

  /** What one directive prints for its argument. */
  function Shown(token: Token, arg: Arg): seq<byte>
    requires Consumes(token) && Suits(token, arg)
  {
    if token.spec == LETTER_S then CString(arg.s)
    else if token.spec == LETTER_C then [U8(arg.w)]
    else if Signed(token.spec) then
      SignedText(if arg.Quad? then Signed64(arg.q) else Signed32(arg.w), Radix(token.spec))
    else Digits(if arg.Quad? then arg.q else arg.w, Radix(token.spec))
  }

  /** What a token without an argument prints: an unknown directive prints nothing. */
  function Fixed(token: Token): seq<byte> {
    if token.Literal? then [token.c] else if token.spec == PERCENT then [PERCENT] else []
  }

  function Render(tokens: seq<Token>, args: seq<Arg>): seq<byte>
    requires Fits(tokens, args)
  {
    if tokens == [] then []
    else if Consumes(tokens[0]) then Shown(tokens[0], args[0]) + Render(tokens[1..], args[1..])
    else Fixed(tokens[0]) + Render(tokens[1..], args)
  }

  /** The rest of the arguments after the tokens took theirs. */
  function Left(tokens: seq<Token>, args: seq<Arg>): seq<Arg>
    requires Fits(tokens, args)
  {
    if tokens == [] then args
    else if Consumes(tokens[0]) then Left(tokens[1..], args[1..])
    else Left(tokens[1..], args)
  }

  lemma {:induction false} RenderJoin(a: seq<Token>, b: seq<Token>, args: seq<Arg>)
    requires Fits(a, args) && Fits(b, Left(a, args))
    ensures Fits(a + b, args)
    ensures Render(a + b, args) == Render(a, args) + Render(b, Left(a, args))
    decreases |a|
  {
    if a == [] {
      assert a + b == b;
    } else {
      assert (a + b)[1..] == a[1..] + b;
      RenderJoin(a[1..], b, if Consumes(a[0]) then args[1..] else args);
    }
  }

  lemma LengthOfJoin(a: seq<byte>, b: seq<byte>)
    requires LengthOf(a).1 != []
    ensures LengthOf(a + b) == (LengthOf(a).0, LengthOf(a).1 + b)
  {
    if (a[0] == LETTER_H || a[0] == LETTER_L) && a[1] == a[0] {
      assert (a + b)[2..] == a[2..] + b;
    } else if a[0] == LETTER_H || a[0] == LETTER_L {
      assert (a + b)[1..] == a[1..] + b;
    }
  }

  lemma BeginsJoin(a: seq<byte>, b: seq<byte>)
    requires Begins(a)
    ensures Begins(a + b) && DirectiveOf(a + b) == DirectiveOf(a) && AfterDirective(a + b) == AfterDirective(a) + b
  {
    var tail, joined := a[1..], a + b;
    assert joined[1..] == tail + b;
    LengthOfJoin(tail, b);
    var rest := LengthOf(tail).1;
    assert (rest + b)[1..] == rest[1..] + b;
  }

  lemma LiteralJoin(a: seq<byte>, b: seq<byte>)
    requires a != []
    ensures (a + b)[0] == a[0] && (a + b)[1..] == a[1..] + b
  {
  }

  /** Nothing is carried over from one part of a format to the next, once a part is complete. */
  lemma {:induction false} ParseJoin(a: seq<byte>, b: seq<byte>)
    requires Closed(a)
    ensures Parse(a + b) == Parse(a) + Parse(b)
    decreases |a|
  {
    if a == [] {
      assert a + b == b;
    } else if a[0] != PERCENT {
      LiteralJoin(a, b);
      ParseJoin(a[1..], b);
      var front := Parse(a[1..]);
      assert [Literal(a[0])] + (front + Parse(b)) == [Literal(a[0])] + front + Parse(b);
    } else {
      LiteralJoin(a, b);
      BeginsJoin(a, b);
      ParseJoin(AfterDirective(a), b);
      var front := Parse(AfterDirective(a));
      assert [DirectiveOf(a)] + (front + Parse(b)) == [DirectiveOf(a)] + front + Parse(b);
    }
  }

  /** Printing a complete format and then another is printing the joined format. */
  lemma FormatsJoin(a: seq<byte>, b: seq<byte>, args: seq<Arg>)
    requires Closed(a) && Fits(Parse(a), args) && Fits(Parse(b), Left(Parse(a), args))
    ensures Fits(Parse(a + b), args)
    ensures Render(Parse(a + b), args) == Render(Parse(a), args) + Render(Parse(b), Left(Parse(a), args))
  {
    ParseJoin(a, b);
    RenderJoin(Parse(a), Parse(b), args);
  }

  /** Text without a percent sign stands for itself. */
  lemma {:induction false} PlainText(s: seq<byte>)
    requires PERCENT !in s
    ensures Closed(s) && Fits(Parse(s), []) && Render(Parse(s), []) == s
    decreases |s|
  {
    if s != [] {
      PlainText(s[1..]);
      assert Parse(s)[1..] == Parse(s[1..]);
    }
  }

  // ----- what the single directives print

  function LengthText(length: Length): seq<byte> {
    match length
    case Default => []
    case ShortShort => Ascii("hh")
    case Short => Ascii("h")
    case Long => Ascii("l")
    case LongLong => Ascii("ll")
  }

  /** A percent sign, a length and a letter. */
  function Format(length: Length, letter: char): seq<byte>
    requires letter as int < 0x100
  {
    Ascii("%") + LengthText(length) + [letter as int]
  }

  lemma OneDirective(length: Length, letter: char)
    requires letter as int < 0x100 && letter != 'h' && letter != 'l'
    ensures Parse(Format(length, letter)) == [Directive(length, letter as int)]
  {
    var format, tail := Format(length, letter), LengthText(length) + [letter as int];
    assert format[0] == 37 && format[1..] == tail;
    assert LengthOf(tail) == (length, [letter as int]);
    assert Parse(AfterDirective(format)) == [];
  }

  /** What such a format prints for one argument. */
  function Printed(length: Length, letter: char, arg: Arg): seq<byte>
    requires letter as int < 0x100 && Fits(Parse(Format(length, letter)), [arg])
  {
    Render(Parse(Format(length, letter)), [arg])
  }

  /** A single directive prints what it shows. */
  lemma PrintedIs(length: Length, letter: char, arg: Arg)
    requires letter as int < 0x100 && letter != 'h' && letter != 'l'
    requires Consumes(Directive(length, letter as int)) && Suits(Directive(length, letter as int), arg)
    ensures Fits(Parse(Format(length, letter)), [arg])
    ensures Printed(length, letter, arg) == Shown(Directive(length, letter as int), arg)
  {
    OneDirective(length, letter);
    RenderOne(Directive(length, letter as int), arg);
  }

  lemma RenderOne(token: Token, arg: Arg)
    requires Consumes(token) && Suits(token, arg)
    ensures Fits([token], [arg]) && Render([token], [arg]) == Shown(token, arg)
  {
    var tokens, args := [token], [arg];
    assert tokens[1..] == [] && args[1..] == [];
    assert Render(tokens, args) == Shown(token, arg) + Render([], []);
  }

  lemma RenderFixed(token: Token)
    requires !Consumes(token)
    ensures Fits([token], []) && Render([token], []) == Fixed(token)
  {
    var tokens := [token];
    assert tokens[1..] == [];
    assert Render(tokens, []) == Fixed(token) + Render([], []);
  }

  /** The radix that a letter stands for. */
  predicate MeansRadix(letter: char, radix: nat) {
    || (radix == 16 && (letter == 'x' || letter == 'X' || letter == 'p'))
    || (radix == 8 && letter == 'o')
    || (radix == 10 && letter == 'u')
  }

  /** Unsigned directives print the argument in the radix of their letter, without a leading zero. */
  lemma PrintsUnsigned(length: Length, letter: char, radix: nat, arg: Arg)
    requires MeansRadix(letter, radix) && (if length.LongLong? then arg.Quad? else arg.Word?)
    ensures Fits(Parse(Format(length, letter)), [arg])
    ensures var s := Printed(length, letter, arg); Numeral(s, radix) && Value(s, radix) == if arg.Quad? then arg.q else arg.w
  {
    PrintedIs(length, letter, arg);
    ReadBack(if arg.Quad? then arg.q else arg.w, radix);
  }

  /** Signed directives print in decimal the number whose two's complement the argument is. */
  lemma PrintsSigned(length: Length, letter: char, n: int)
    requires letter == 'd' || letter == 'i'
    requires length.LongLong? ==> -0x8000_0000_0000_0000 < n < 0x8000_0000_0000_0000
    requires !length.LongLong? ==> -0x8000_0000 <= n < 0x8000_0000
    ensures var arg := if length.LongLong? then Quad(n % 0x1_0000_0000_0000_0000) else Word(n % 0x1_0000_0000);
      Fits(Parse(Format(length, letter)), [arg]) && SignedValue(Printed(length, letter, arg), 10) == n
  {
    var arg := if length.LongLong? then Quad(n % 0x1_0000_0000_0000_0000) else Word(n % 0x1_0000_0000);
    assert (if arg.Quad? then Signed64(arg.q) else Signed32(arg.w)) == n;
    PrintedIs(length, letter, arg);
    SignedReadBack(n, 10);
  }

  /** %c prints the low byte of its argument. */
  lemma PrintsCharacter(length: Length, w: u32)
    ensures Fits(Parse(Format(length, 'c')), [Word(w)]) && Printed(length, 'c', Word(w)) == [w % 0x100]
  {
    PrintedIs(length, 'c', Word(w));
  }

  /** %s prints the string up to its terminator. */
  lemma PrintsString(length: Length, s: seq<byte>, rest: seq<byte>)
    requires 0 !in s
    ensures var arg := Text(s + [0] + rest); Fits(Parse(Format(length, 's')), [arg]) && Printed(length, 's', arg) == s
  {
    var text := s + [0] + rest;
    assert text[..|s|] == s && text[|s|] == 0;
    IndexOfUnique(text, 0, |s|);
    PrintedIs(length, 's', Text(text));
  }

  /** %% prints a percent sign; any other letter prints nothing. Neither takes an argument. */
  lemma PrintsFixed(length: Length, letter: char)
    requires letter as int < 0x100 && letter !in "hlcsdiuxXpo"
    ensures Fits(Parse(Format(length, letter)), [])
    ensures Render(Parse(Format(length, letter)), []) == if letter == '%' then Ascii("%") else []
  {
    OneDirective(length, letter);
    assert letter !in ['h', 'l', 'c', 's', 'd', 'i'] && letter !in ['u', 'x', 'X', 'p', 'o'];
    RenderFixed(Directive(length, letter as int));
  }

  /** A directive that the end of the format cuts off prints nothing and takes no argument. */
  lemma CutOff(s: seq<byte>, cut: seq<byte>)
    requires Closed(s) && cut != [] && cut[0] == PERCENT && LengthOf(cut[1..]).1 == []
    ensures Parse(s + cut) == Parse(s)
  {
    ParseJoin(s, cut);
  }
}

/** `printf` on the screen: the state machine that goes through the format. */
module Printing {
  import opened Bytes
  import opened Characters
  import opened Console
  import opened Formats
  import opened Numerals
  import opened ShortNames
  import opened Terminals

  function Reversed(s: seq<byte>): (r: seq<byte>)
    ensures |r| == |s|
  {
    if s == [] then [] else [s[|s| - 1]] + Reversed(s[..|s| - 1])
  }

  /** The lowest digit, in front of the lower ones `s` found before. */
  method NextDigit(n: nat, radix: nat, ghost s: seq<byte>) returns (q: nat, digit: byte)
    requires 4 <= radix <= 16 && n > 0
    ensures q < n && Digits(n, radix) + Reversed(s) == Digits(q, radix) + Reversed(s + [digit])
  {
    Shrinks(n, radix);
    var rem := n % radix;
    q := n / radix;
    digit := HEX[rem];
    assert (s + [digit])[..|s|] == s;
  }

  /** While digits are left, the buffer has room. */
  lemma Reserve(n: nat, number: u64, radix: nat, s: seq<byte>)
    requires 4 <= radix <= 16 && n > 0 && Digits(n, radix) + Reversed(s) == Digits(number, radix)
    ensures |s| < BUFFER
  {
    FitsBuffer(number, radix);
    assert |Digits(n, radix)| > 0;
  }

  /** The digits, lowest first, in a buffer of 32. */
  method Convert(number: u64, radix: nat) returns (buffer: array<byte>, pos: nat)
    requires 4 <= radix <= 16
    ensures fresh(buffer) && pos <= buffer.Length == BUFFER
    ensures Reversed(buffer[..pos]) == Digits(number, radix)
  {
    buffer := new byte[BUFFER];
    pos := 0;
    var n: nat := number;
    while n > 0
      invariant pos <= BUFFER && Digits(n, radix) + Reversed(buffer[..pos]) == Digits(number, radix)
    {
      Reserve(n, number, radix, buffer[..pos]);
      ghost var lower := buffer[..pos];
      n, buffer[pos] := NextDigit(n, radix, buffer[..pos]);
      pos := pos + 1;
      assert buffer[..pos] == lower + [buffer[pos - 1]];
    }
  }

  lemma PrintedStep(start: Terminal, printed: seq<byte>, digits: seq<byte>, pos: nat)
    requires pos < |digits| && start.x < WIDTH
    ensures start.PutAll(printed + [digits[pos]]) == start.PutAll(printed).Put(digits[pos])
    ensures printed + [digits[pos]] + Reversed(digits[..pos]) == printed + Reversed(digits[..pos + 1])
  {
    assert (printed + [digits[pos]])[..|printed|] == printed;
    assert digits[..pos + 1][..pos] == digits[..pos];
  }

  method PrintfUnsigned(screen: Screen, number: u64, radix: nat)
    requires screen.Valid() && 4 <= radix <= 16
    modifies screen, screen.g
    ensures screen.Valid() && screen.term == old(screen.term).PutAll(Digits(number, radix))
  {
    var buffer, pos := Convert(number, radix);
    ghost var printed: seq<byte> := [];
    while pos > 0
      invariant 0 <= pos <= buffer.Length && screen.Valid()
      invariant printed + Reversed(buffer[..pos]) == Digits(number, radix)
      invariant screen.term == old(screen.term).PutAll(printed)
    {
      pos := pos - 1;
      screen.Putc(buffer[pos]);
      PrintedStep(old(screen.term), printed, buffer[..], pos);
      printed := printed + [buffer[pos]];
    }
    assert printed + Reversed(buffer[..pos]) == printed;
  }

  method PrintfSigned(screen: Screen, number: int, radix: nat)
    requires screen.Valid() && 4 <= radix <= 16
    requires -0x8000_0000_0000_0000 < number < 0x8000_0000_0000_0000
    modifies screen, screen.g
    ensures screen.Valid() && screen.term == old(screen.term).PutAll(SignedText(number, radix))
  {
    if number < 0 {
      PutOne(screen.term, MINUS);
      PutAllJoin(screen.term, [MINUS], Digits(-number, radix));
      screen.Putc(MINUS);
      PrintfUnsigned(screen, -number, radix);
    } else {
      PrintfUnsigned(screen, number, radix);
    }
  }

  datatype State = Normal | AtLength | AtShort | AtLong | AtSpec

  /** What the rest of a format stands for in a state of the machine. */
  function ParseFrom(state: State, length: Length, s: seq<byte>): seq<Token> {
    match state
    case Normal => Parse(s)
    case AtLength => var (l, rest) := LengthOf(s); SpecFrom(l, rest)
    case AtShort => if s != [] && s[0] == LETTER_H then SpecFrom(ShortShort, s[1..]) else SpecFrom(Short, s)
    case AtLong => if s != [] && s[0] == LETTER_L then SpecFrom(LongLong, s[1..]) else SpecFrom(Long, s)
    case AtSpec => SpecFrom(length, s)
  }

  function SpecFrom(length: Length, s: seq<byte>): seq<Token> {
    if s == [] then [] else [Directive(length, s[0])] + Parse(s[1..])
  }

  /** The length that is stored agrees with the state. */
  predicate Agrees(state: State, length: Length) {
    match state
    case Normal => length.Default?
    case AtLength => length.Default?
    case AtShort => length.Short?
    case AtLong => length.Long?
    case AtSpec => length.ShortShort? || length.LongLong?
  }

  /** One character seen outside a specification: the next state, and whether the character is
      the specification after all. */
  method Scan(state: State, length: Length, c: byte, ghost rest: seq<byte>)
    returns (state': State, length': Length, spec: bool)
    requires Agrees(state, length) && !state.Normal?
    ensures spec ==> ParseFrom(state, length, [c] + rest) == [Directive(length', c)] + Parse(rest)
    ensures !spec ==> Agrees(state', length') && !state'.Normal?
    ensures !spec ==> ParseFrom(state, length, [c] + rest) == ParseFrom(state', length', rest)
  {
    assert ([c] + rest)[1..] == rest;
    state', length', spec := state, length, false;
    match state
    case Normal =>
    case AtLength =>
      if c == LETTER_H {
        length', state' := Short, AtShort;
        assert rest != [] ==> ([c] + rest)[2..] == rest[1..];
      } else if c == LETTER_L {
        length', state' := Long, AtLong;
        assert rest != [] ==> ([c] + rest)[2..] == rest[1..];
      } else {
        spec := true;
      }
    case AtShort =>
      if c == LETTER_H {
        length', state' := ShortShort, AtSpec;
      } else {
        spec := true;
      }
    case AtLong =>
      if c == LETTER_L {
        length', state' := LongLong, AtSpec;
      } else {
        spec := true;
      }
    case AtSpec =>
      spec := true;
  }

  /** What a directive prints, and the arguments it leaves. */
  function Output(token: Token, args: seq<Arg>): (seq<byte>, seq<Arg>)
    requires Fits([token], args)
  {
    if Consumes(token) then (Shown(token, args[0]), args[1..]) else (Fixed(token), args)
  }

  /** The specification letter. `radix`, `sign` and `number` have their initial values whenever
      this point is reached. */
  method Specify(screen: Screen, c: byte, length: Length, args: seq<Arg>) returns (rest: seq<Arg>)
    requires screen.Valid() && Fits([Directive(length, c)], args)
    modifies screen, screen.g
    ensures screen.Valid() && screen.term == old(screen.term).PutAll(Output(Directive(length, c), args).0)
    ensures rest == Output(Directive(length, c), args).1
  {
    var radix, sign, number := 10, false, false;
    rest := args;
    if c == LETTER_C {
      PutOne(screen.term, U8(args[0].w));
      screen.Putc(U8(args[0].w));
      rest := args[1..];
    } else if c == LETTER_S {
      screen.Puts(args[0].s);
      rest := args[1..];
    } else if c == PERCENT {
      PutOne(screen.term, PERCENT);
      screen.Putc(PERCENT);
    } else if c == LETTER_D || c == LETTER_I {
      radix, sign, number := 10, true, true;
    } else if c == LETTER_U {
      radix, sign, number := 10, false, true;
    } else if c == CAPITAL_X || c == LETTER_X || c == LETTER_P {
      radix, sign, number := 16, false, true;
    } else if c == LETTER_O {
      radix, sign, number := 8, false, true;
    }
    if number {
      PrintNumber(screen, sign, length, radix, args[0]);
      rest := args[1..];
    }
  }

  method PrintNumber(screen: Screen, sign: bool, length: Length, radix: nat, arg: Arg)
    requires screen.Valid() && 4 <= radix <= 16
    requires if length.LongLong? then arg.Quad? else arg.Word?
    requires sign && arg.Quad? ==> Signed64(arg.q) > -0x8000_0000_0000_0000
    modifies screen, screen.g
    ensures screen.Valid()
    ensures screen.term == old(screen.term).PutAll(
      if sign then SignedText(if arg.Quad? then Signed64(arg.q) else Signed32(arg.w), radix)
      else Digits(if arg.Quad? then arg.q else arg.w, radix))
  {
    if sign {
      match length
      case ShortShort => PrintfSigned(screen, Signed32(arg.w), radix);
      case Short => PrintfSigned(screen, Signed32(arg.w), radix);
      case Default => PrintfSigned(screen, Signed32(arg.w), radix);
      case Long => PrintfSigned(screen, Signed32(arg.w), radix);
      case LongLong => PrintfSigned(screen, Signed64(arg.q), radix);
    } else {
      match length
      case ShortShort => PrintfUnsigned(screen, arg.w, radix);
      case Short => PrintfUnsigned(screen, arg.w, radix);
      case Default => PrintfUnsigned(screen, arg.w, radix);
      case Long => PrintfUnsigned(screen, arg.w, radix);
      case LongLong => PrintfUnsigned(screen, arg.q, radix);
    }
  }

  /** The tokens still to come fit the arguments left, and print what is missing. */
  ghost predicate Remaining(start: Terminal, goal: seq<byte>, now: Terminal, tokens: seq<Token>, args: seq<Arg>) {
    && start.x < WIDTH && now.x < WIDTH
    && Fits(tokens, args) && now.PutAll(Render(tokens, args)) == start.PutAll(goal)
  }

  lemma TokenDone(start: Terminal, goal: seq<byte>, now: Terminal, token: Token, tokens: seq<Token>, args: seq<Arg>)
    requires Remaining(start, goal, now, [token] + tokens, args)
    ensures Fits([token], args)
    ensures var (text, rest) := Output(token, args); Remaining(start, goal, now.PutAll(text), tokens, rest)
  {
    assert ([token] + tokens)[1..] == tokens && [token][1..] == [];
    var (text, rest) := Output(token, args);
    PutAllJoin(now, text, Render(tokens, rest));
  }

  lemma ParseNormal(c: byte, tail: seq<byte>)
    ensures ParseFrom(Normal, Default, [c] + tail)
      == if c == PERCENT then ParseFrom(AtLength, Default, tail) else [Literal(c)] + Parse(tail)
  {
    assert ([c] + tail)[1..] == tail;
  }

  /** A character that stands for itself. */
  method PutLiteral(screen: Screen, c: byte, ghost start: Terminal, ghost goal: seq<byte>, ghost tokens: seq<Token>,
                    ghost args: seq<Arg>)
    requires screen.Valid() && Remaining(start, goal, screen.term, [Literal(c)] + tokens, args)
    modifies screen, screen.g
    ensures screen.Valid() && Remaining(start, goal, screen.term, tokens, args)
  {
    TokenDone(start, goal, screen.term, Literal(c), tokens, args);
    PutOne(screen.term, c);
    screen.Putc(c);
  }

  /** A complete directive. */
  method PutDirective(screen: Screen, c: byte, length: Length, args: seq<Arg>, ghost start: Terminal, ghost goal: seq<byte>,
                      ghost tokens: seq<Token>)
    returns (rest: seq<Arg>)
    requires screen.Valid() && Remaining(start, goal, screen.term, [Directive(length, c)] + tokens, args)
    modifies screen, screen.g
    ensures screen.Valid() && Remaining(start, goal, screen.term, tokens, rest)
  {
    TokenDone(start, goal, screen.term, Directive(length, c), tokens, args);
    rest := Specify(screen, c, length, args);
  }

  /** One character of the format. */
  method Consume(screen: Screen, c: byte, state: State, length: Length, args: seq<Arg>, ghost start: Terminal,
                 ghost goal: seq<byte>, ghost tail: seq<byte>)
    returns (state': State, length': Length, rest: seq<Arg>)
    requires screen.Valid() && Agrees(state, length)
    requires Remaining(start, goal, screen.term, ParseFrom(state, length, [c] + tail), args)
    modifies screen, screen.g
    ensures screen.Valid() && Agrees(state', length')
    ensures Remaining(start, goal, screen.term, ParseFrom(state', length', tail), rest)
  {
    state', length', rest := Normal, Default, args;
    if state.Normal? {
      ParseNormal(c, tail);
      if c == PERCENT {
        state' := AtLength;
      } else {
        PutLiteral(screen, c, start, goal, Parse(tail), args);
      }
    } else {
      var spec;
      state', length', spec := Scan(state, length, c, tail);
      if spec {
        rest := PutDirective(screen, c, length', args, start, goal, Parse(tail));
        state', length' := Normal, Default;
      }
    }
  }

  /** Prints exactly what the format stands for, whatever it holds and wherever it ends. */
  method Printf(screen: Screen, format: seq<byte>, args: seq<Arg>)
    requires screen.Valid() && 0 in format && Fits(Parse(CString(format)), args)
    modifies screen, screen.g
    ensures screen.Valid()
    ensures screen.term == old(screen.term).PutAll(Render(Parse(CString(format)), args))
  {
    ghost var s := CString(format);
    ghost var start, goal := screen.term, Render(Parse(s), args);
    var state, length, rest, i := Normal, Default, args, 0;
    assert s[0..] == s;
    while format[i] != 0
      invariant 0 <= i <= |s| && screen.Valid() && Agrees(state, length)
      invariant Remaining(start, goal, screen.term, ParseFrom(state, length, s[i..]), rest)
      decreases |s| - i
    {
      ghost var tail := s[i + 1..];
      assert s[i..] == [format[i]] + tail;
      state, length, rest := Consume(screen, format[i], state, length, rest, start, goal, tail);
      i := i + 1;
    }
    assert s[i..] == [];
  }
}
