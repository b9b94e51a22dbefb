/** What a format and its arguments print (vsnprintf, klibc.c): the text, without regard to the size of the buffer.
    Strings are C strings without their final zero. */
module Formats {
  import opened Numerals

  type U32 = n: nat | n < 0x1_0000_0000
  type U64 = n: nat | n < W64
  type I32 = i: int | -0x8000_0000 <= i < 0x8000_0000
  type I64 = i: int | -0x8000_0000_0000_0000 <= i < 0x8000_0000_0000_0000

  datatype Arg = UInt(uint: U32) | ULongLong(ull: U64) | Int(int32: I32) | LongLong(int64: I64)
               | Str(str: string) | NullStr

  /** The flags of the loop: after a '%', after one 'l', after two. They are cleared by the next '%' only. */
  datatype Flags = Flags(modifiers: bool, long: bool, longLong: bool)

  const START := Flags(false, false, false)

  /** The caller passes what the directive takes off the argument list. */
  predicate Suits(c: char, f: Flags, args: seq<Arg>) {
    f.modifiers && c in {'u', 'i', 'd', 'c', 's', 'p', 'x'} ==>
      && args != []
      && match c
         case 's' => args[0].Str? || args[0].NullStr?
         case 'c' => args[0].Int?
         case 'i' => if f.longLong then args[0].LongLong? else args[0].Int?
         case 'd' => if f.longLong then args[0].LongLong? else args[0].Int?
         case _ => if f.longLong then args[0].ULongLong? else args[0].UInt?
  }

  function UnsignedOf(a: Arg): U64 { match a case UInt(n) => n case ULongLong(n) => n case _ => 0 }

  function SignedOf(a: Arg): I64 { match a case Int(i) => i case LongLong(i) => i case _ => 0 }

  function StringOf(a: Arg): string { if a.Str? then a.str else "(null)" }

  /** (char) of an int. */
  function CharOf(i: int): char { (i % 256) as char }

  /** What one character of the format prints, the flags after it, and how many arguments it takes. */
  datatype Piece = Piece(text: string, flags: Flags, used: nat)

  function PieceOf(c: char, f: Flags, args: seq<Arg>): (p: Piece)
    requires Suits(c, f, args)
    ensures p.used <= 1 && p.used <= |args|
  {
    var done := f.(modifiers := false);
    if !f.modifiers && c != '%' then Piece([c], f, 0)
    else
      match c
      case '%' => if f.modifiers then Piece("%", done, 0) else Piece("", Flags(true, false, false), 0)
      case 'l' => Piece("", if f.long then f.(longLong := true) else f.(long := true), 0)
      case 'u' => Piece(Digits(UnsignedOf(args[0]), 10), done, 1)
      case 'i' => Piece(Signed(SignedOf(args[0])), done, 1)
      case 'd' => Piece(Signed(SignedOf(args[0])), done, 1)
      case 'c' => Piece([CharOf(SignedOf(args[0]))], done, 1)
      case 's' => Piece(StringOf(args[0]), done, 1)
      case 'p' => Piece("0x" + Digits(UnsignedOf(args[0]), 16), done, 1)
      case 'x' => Piece(Digits(UnsignedOf(args[0]), 16), done, 1)
      case _ => Piece("%" + (if f.long then "l" else "") + (if f.longLong then "l" else "") + [c], done, 0)
  }

  ghost predicate AllSuit(format: string, f: Flags, args: seq<Arg>) {
    format == "" || (Suits(format[0], f, args)
                     && var p := PieceOf(format[0], f, args); AllSuit(format[1..], p.flags, args[p.used..]))
  }

  /** The whole text. */
  ghost function Rendered(format: string, f: Flags, args: seq<Arg>): string
    requires AllSuit(format, f, args)
  {
    if format == "" then ""
    else
      var p := PieceOf(format[0], f, args);
      p.text + Rendered(format[1..], p.flags, args[p.used..])
  }

  // ---- Properties of what is printed ----

  /** Text without '%' is printed as it is. */
  lemma {:induction false} PlainText(format: string, f: Flags, args: seq<Arg>)
    requires '%' !in format && !f.modifiers
    ensures AllSuit(format, f, args) && Rendered(format, f, args) == format
  {
    if format != "" {
      assert args[0..] == args;
      PlainText(format[1..], f, args);
      assert format == [format[0]] + format[1..];
    }
  }

  /** A directive for a number prints a numeral that reads back as the argument. */
  lemma NumbersReadBack(f: Flags, args: seq<Arg>)
    requires f.modifiers
    ensures Suits('u', f, args) ==> Value(PieceOf('u', f, args).text, 10) == UnsignedOf(args[0])
    ensures Suits('x', f, args) ==> Value(PieceOf('x', f, args).text, 16) == UnsignedOf(args[0])
    ensures Suits('d', f, args) ==> SignedValue(PieceOf('d', f, args).text) == SignedOf(args[0])
    ensures Suits('i', f, args) ==> SignedValue(PieceOf('i', f, args).text) == SignedOf(args[0])
    ensures Suits('p', f, args) ==> |PieceOf('p', f, args).text| >= 2
                                    && Value(PieceOf('p', f, args).text[2..], 16) == UnsignedOf(args[0])
  {
    hide Digits, Signed, Value, SignedValue, PieceOf, UnsignedOf, SignedOf;
    if args != [] {
      NumberTexts(f, args);
      DigitsReadBack(UnsignedOf(args[0]), 10);
      DigitsReadBack(UnsignedOf(args[0]), 16);
      SignedReadsBack(SignedOf(args[0]));
    }
  }

  lemma NumberTexts(f: Flags, args: seq<Arg>)
    requires f.modifiers && args != []
    ensures Suits('u', f, args) ==> PieceOf('u', f, args).text == Digits(UnsignedOf(args[0]), 10)
    ensures Suits('x', f, args) ==> PieceOf('x', f, args).text == Digits(UnsignedOf(args[0]), 16)
    ensures Suits('d', f, args) ==> PieceOf('d', f, args).text == Signed(SignedOf(args[0]))
    ensures Suits('i', f, args) ==> PieceOf('i', f, args).text == Signed(SignedOf(args[0]))
    ensures Suits('p', f, args) ==> |PieceOf('p', f, args).text| >= 2
                                    && PieceOf('p', f, args).text[2..] == Digits(UnsignedOf(args[0]), 16)
  {
    hide Digits, Signed, UnsignedOf, SignedOf;
  }

  /** One directive, alone: two or three characters of format. */
  lemma OneDirective(modifiers: string, c: char, args: seq<Arg>)
    requires modifiers == "" || modifiers == "l" || modifiers == "ll"
    requires c != 'l' && (c != '%' || modifiers == "")
    ensures var f := Flags(true, modifiers != "", modifiers == "ll");
            AllSuit("%" + modifiers + [c], START, args) == Suits(c, f, args)
            && (Suits(c, f, args) ==> Rendered("%" + modifiers + [c], START, args) == PieceOf(c, f, args).text)
  {
    hide Digits, Signed;
    var f := Flags(true, modifiers != "", modifiers == "ll");
    assert args[0..] == args;
    LastCharacter(c, f, args);
    if modifiers == "" {
      TwoCharacters('%', [c], START, args);
    } else if modifiers == "l" {
      TwoCharacters('l', [c], Flags(true, false, false), args);
      TwoCharacters('%', "l" + [c], START, args);
      assert "%" + modifiers + [c] == ['%'] + ("l" + [c]);
    } else {
      TwoCharacters('l', [c], Flags(true, true, false), args);
      TwoCharacters('l', "l" + [c], Flags(true, false, false), args);
      TwoCharacters('%', "l" + ("l" + [c]), START, args);
      assert "%" + modifiers + [c] == ['%'] + ("l" + ("l" + [c]));
    }
  }

  lemma LastCharacter(c: char, f: Flags, args: seq<Arg>)
    ensures AllSuit([c], f, args) == Suits(c, f, args)
    ensures Suits(c, f, args) ==> Rendered([c], f, args) == PieceOf(c, f, args).text
  {
    hide PieceOf, Suits;
    assert [c][1..] == "";
  }

  lemma TwoCharacters(c: char, rest: string, f: Flags, args: seq<Arg>)
    requires (c == 'l' && f.modifiers) || (c == '%' && !f.modifiers)
    ensures var g := if c == '%' then Flags(true, false, false)
                     else if f.long then f.(longLong := true) else f.(long := true);
            AllSuit([c] + rest, f, args) == AllSuit(rest, g, args)
            && (AllSuit(rest, g, args) ==> Rendered([c] + rest, f, args) == Rendered(rest, g, args))
  {
    assert ([c] + rest)[1..] == rest;
    assert args[0..] == args;
    hide Digits, Signed;
  }

  /** Strings, characters, the percent sign, and directives that there are none: what they print. */
  lemma TextDirectives(t: string, i: I32, c: char, args: seq<Arg>)
    requires c !in {'%', 'l', 'u', 'i', 'd', 'c', 's', 'p', 'x'}
    ensures AllSuit("%s", START, [Str(t)]) && Rendered("%s", START, [Str(t)]) == t
    ensures AllSuit("%s", START, [NullStr]) && Rendered("%s", START, [NullStr]) == "(null)"
    ensures AllSuit("%c", START, [Int(i)]) && Rendered("%c", START, [Int(i)]) == [(i % 256) as char]
    ensures AllSuit("%%", START, args) && Rendered("%%", START, args) == "%"
    ensures AllSuit("%" + [c], START, args) && Rendered("%" + [c], START, args) == "%" + [c]
    ensures AllSuit("%l" + [c], START, args) && Rendered("%l" + [c], START, args) == "%l" + [c]
    ensures AllSuit("%ll" + [c], START, args) && Rendered("%ll" + [c], START, args) == "%ll" + [c]
  {
    hide Rendered, AllSuit, Digits, Signed;
    OneDirective("", 's', [Str(t)]);
    OneDirective("", 's', [NullStr]);
    OneDirective("", 'c', [Int(i)]);
    OneDirective("", '%', args);
    OneDirective("", c, args);
    OneDirective("l", c, args);
    OneDirective("ll", c, args);
    assert "%" + "" + "s" == "%s" && "%" + "" + "c" == "%c" && "%" + "" + "%" == "%%" && "%" + "" + [c] == "%" + [c];
    assert "%" + "l" + [c] == "%l" + [c] && "%" + "ll" + [c] == "%ll" + [c];
  }

  /** Numbers: ordinary numerals of the argument, in base 10 or 16. */
  lemma NumberDirectives(n: U32, m: U64, i: I32, j: I64)
    ensures AllSuit("%u", START, [UInt(n)]) && IsNumeral(Rendered("%u", START, [UInt(n)]), 10, n)
    ensures AllSuit("%x", START, [UInt(n)]) && IsNumeral(Rendered("%x", START, [UInt(n)]), 16, n)
    ensures AllSuit("%llu", START, [ULongLong(m)]) && IsNumeral(Rendered("%llu", START, [ULongLong(m)]), 10, m)
    ensures AllSuit("%llx", START, [ULongLong(m)]) && IsNumeral(Rendered("%llx", START, [ULongLong(m)]), 16, m)
    ensures AllSuit("%d", START, [Int(i)]) && PrintsSigned(Rendered("%d", START, [Int(i)]), i)
    ensures AllSuit("%i", START, [Int(i)]) && PrintsSigned(Rendered("%i", START, [Int(i)]), i)
    ensures AllSuit("%lu", START, [UInt(n)]) && IsNumeral(Rendered("%lu", START, [UInt(n)]), 10, n)
    ensures AllSuit("%lx", START, [UInt(n)]) && IsNumeral(Rendered("%lx", START, [UInt(n)]), 16, n)
    ensures AllSuit("%ld", START, [Int(i)]) && PrintsSigned(Rendered("%ld", START, [Int(i)]), i)
    ensures AllSuit("%lld", START, [LongLong(j)]) && PrintsSigned(Rendered("%lld", START, [LongLong(j)]), j)
    ensures AllSuit("%p", START, [UInt(n)])
    ensures exists s :: Rendered("%p", START, [UInt(n)]) == "0x" + s && IsNumeral(s, 16, n)
  {
    hide Rendered, AllSuit, Digits, Signed, IsNumeral;
    OneDirective("", 'u', [UInt(n)]);
    OneDirective("", 'x', [UInt(n)]);
    OneDirective("l", 'u', [UInt(n)]);
    OneDirective("l", 'x', [UInt(n)]);
    OneDirective("l", 'd', [Int(i)]);
    OneDirective("ll", 'u', [ULongLong(m)]);
    OneDirective("ll", 'x', [ULongLong(m)]);
    OneDirective("", 'd', [Int(i)]);
    OneDirective("", 'i', [Int(i)]);
    OneDirective("ll", 'd', [LongLong(j)]);
    OneDirective("", 'p', [UInt(n)]);
    DigitsAreNumeral(n, 10);
    DigitsAreNumeral(n, 16);
    DigitsAreNumeral(m, 10);
    DigitsAreNumeral(m, 16);
    SignedIsNumeral(i);
    SignedIsNumeral(j);
    assert "%" + "" + "u" == "%u" && "%" + "" + "x" == "%x" && "%" + "" + "d" == "%d" && "%" + "" + "i" == "%i";
    assert "%" + "l" + "u" == "%lu" && "%" + "l" + "x" == "%lx" && "%" + "l" + "d" == "%ld";
    assert "%" + "" + "p" == "%p" && "%" + "ll" + "u" == "%llu" && "%" + "ll" + "x" == "%llx" && "%" + "ll" + "d" == "%lld";
    assert Rendered("%p", START, [UInt(n)]) == "0x" + Digits(n, 16);
  }

  /** A minus sign for a negative number, then its size. */
  ghost predicate PrintsSigned(s: string, i: int) {
    if i >= 0 then IsNumeral(s, 10, i) else s != "" && s[0] == '-' && IsNumeral(s[1..], 10, -i)
  }

  /** Where the flags and the arguments stand after part of a format. */
  ghost function After(format: string, f: Flags, args: seq<Arg>): (Flags, seq<Arg>)
    requires AllSuit(format, f, args)
  {
    if format == "" then (f, args)
    else
      var p := PieceOf(format[0], f, args);
      After(format[1..], p.flags, args[p.used..])
  }

  /** A format prints its parts one after the other. */
  lemma {:induction false} PartByPart(format: string, more: string, f: Flags, args: seq<Arg>)
    requires AllSuit(format, f, args)
    requires var a := After(format, f, args); AllSuit(more, a.0, a.1)
    ensures AllSuit(format + more, f, args)
    ensures var a := After(format, f, args);
            Rendered(format + more, f, args) == Rendered(format, f, args) + Rendered(more, a.0, a.1)
  {
    hide PieceOf, Suits;
    if format == "" {
      assert format + more == more;
    } else {
      var p := PieceOf(format[0], f, args);
      assert (format + more)[1..] == format[1..] + more;
      PartByPart(format[1..], more, p.flags, args[p.used..]);
    }
  }
}
