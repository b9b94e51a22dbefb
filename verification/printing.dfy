/** vsnprintf (klibc.c): what it leaves in the buffer, against Formats.Rendered. */
module Printing {
  import opened CArithmetic
  import opened Wrappers
  import opened Numerals
  import opened Formats

  /** The variables that PUTCHAR shares with the rest of vsnprintf. `p` is the place of the next character. */
  class Output {
    const buff: array<char>
    const len: nat
    var p: nat
    var result: nat
    ghost var text: string
    ghost const before: string

    constructor (buff: array<char>, len: nat)
      requires 0 < len <= buff.Length
      ensures this.buff == buff && this.len == len && text == "" && before == buff[..] && Valid()
    {
      this.buff, this.len, p, result := buff, len, 0, 0;
      text, before := "", buff[..];
    }

    /** All that was put counts; the first len - 1 characters are in the buffer. */
    ghost predicate Valid()
      reads this, buff
    {
      && 0 < len <= buff.Length == |before| && result == |text|
      && p == (if result < len - 1 then result else len - 1)
      && buff[..] == text[..p] + before[p..]
    }

    /** PUTCHAR. */
    method Put(c: char)
      requires Valid()
      modifies this`p, this`result, this`text, buff
      ensures Valid() && text == old(text) + [c]
    {
      ghost var was := text;
      if result < len - 1 {
        buff[p] := c;
        p := p + 1;
        assert buff[..] == old(buff[..])[result := c];
      }
      result := result + 1;
      text := text + [c];
      assert text[..p] == if p == |was| + 1 then was + [c] else was[..p];
    }

    /** The loop that prints a string. */
    method PutString(s: string)
      requires Valid()
      modifies this`p, this`result, this`text, buff
      ensures Valid() && text == old(text) + s
    {
      hide Valid;
      ghost var was := text;
      for i := 0 to |s|
        invariant Valid() && text == was + s[..i]
      {
        Put(s[i]);
      }
    }

    /** The digits of an unsigned number, collected from the last one in a buffer of `size` characters. */
    method PutUnsigned(n: nat, size: nat)
      requires Valid() && |Digits(n, 10)| <= size
      modifies this`p, this`result, this`text, buff
      ensures Valid() && text == old(text) + Digits(n, 10)
    {
      hide Valid, Digits, Reversed;
      var integer := n;
      var digits := new char[size];
      var cpt2 := 0;
      while true
        invariant cpt2 + |Digits(integer, 10)| == |Digits(n, 10)| && cpt2 <= size
        invariant Digits(n, 10) == Digits(integer, 10) + Reversed(digits[..cpt2])
        invariant Valid() && text == old(text)
        decreases integer
      {
        var m10 := integer % 10;
        DigitTaken(digits[..cpt2], integer);
        digits[cpt2] := '0' + m10 as char;
        assert digits[..cpt2 + 1] == digits[..cpt2] + [DigitChar(m10)];
        cpt2 := cpt2 + 1;
        integer := integer / 10;
        if integer == 0 {
          break;
        }
      }
      PutDigits(digits, cpt2);
    }

    /** The same for a signed number, whose remainders may be negative. */
    method PutSigned(n: int, size: nat)
      requires Valid() && |Digits(Abs(n), 10)| <= size
      modifies this`p, this`result, this`text, buff
      ensures Valid() && text == old(text) + Signed(n)
    {
      hide Valid, Digits, Reversed, Quot, Rem;
      ghost var was := text;
      var integer := n;
      var digits := new char[size];
      var cpt2 := 0;
      assert Reversed(digits[..cpt2]) == "";
      if integer < 0 {
        Put('-');
      }
      while true
        invariant cpt2 + |Digits(Abs(integer), 10)| == |Digits(Abs(n), 10)| && cpt2 <= size
        invariant Digits(Abs(n), 10) == Digits(Abs(integer), 10) + Reversed(digits[..cpt2])
        invariant Valid() && text == was + (if n < 0 then "-" else "")
        decreases Abs(integer)
      {
        var m10 := Rem(integer, 10);
        SizeOfQuotient(integer);
        DigitTaken(digits[..cpt2], Abs(integer));
        m10 := if m10 < 0 then -m10 else m10;
        digits[cpt2] := '0' + m10 as char;
        assert digits[..cpt2 + 1] == digits[..cpt2] + [DigitChar(m10)];
        cpt2 := cpt2 + 1;
        integer := Quot(integer, 10);
        if integer == 0 {
          break;
        }
      }
      PutDigits(digits, cpt2);
    }

    /** The collected digits, the last one collected first. */
    method PutDigits(digits: array<char>, n: nat)
      requires Valid() && n <= digits.Length && digits != buff
      modifies this`p, this`result, this`text, buff
      ensures Valid() && text == old(text) + Reversed(digits[..n])
    {
      hide Valid;
      var cpt2 := n - 1;
      while cpt2 >= 0
        invariant -1 <= cpt2 < n
        invariant Valid() && text + Reversed(digits[..cpt2 + 1]) == old(text) + Reversed(digits[..n])
      {
        LastFirst(digits[..cpt2 + 1]);
        assert digits[..cpt2 + 1][..cpt2] == digits[..cpt2];
        Put(digits[cpt2]);
        cpt2 := cpt2 - 1;
      }
    }

    /** One nibble, unless it is a leading zero. */
    method PutNibble(nb: Digit, hadNonzero: bool) returns (nonzero: bool)
      requires Valid()
      modifies this`p, this`result, this`text, buff
      ensures Valid() && (nonzero <==> hadNonzero || nb != 0)
      ensures text == old(text) + if nonzero then [DigitChar(nb)] else ""
    {
      hide Valid;
      nonzero := hadNonzero;
      if nb == 0 {
        if hadNonzero {
          Put('0');
        }
      } else {
        nonzero := true;
        if nb < 10 {
          Put('0' + nb as char);
        } else {
          Put('a' + (nb - 10) as char);
        }
      }
    }

    /** The 16 nibbles of a number, without the leading zeros. */
    method PutHex(h: nat)
      requires Valid() && h < W64
      modifies this`p, this`result, this`text, buff
      ensures Valid() && text == old(text) + Digits(h, 16)
    {
      hide Valid, Nibble, Top, Digits, DigitChar;
      ghost var was := text;
      var hadNonzero := false;
      var x := 0;
      HexStarts(h);
      while x < 16
        invariant 0 <= x <= 16 && (hadNonzero <==> Top(h, x) > 0)
        invariant Valid() && text == was + if hadNonzero then Digits(Top(h, x), 16) else ""
      {
        var nb := Nibble(h, x);
        HexGrows(h, x);
        hadNonzero := PutNibble(nb, hadNonzero);
        x := x + 1;
      }
      HexEnds(h);
      if !hadNonzero {
        Put('0');
      }
    }

    /** %u, %d and %i. The digit buffers have 16 characters for an int and 32 for a long long. */
    method PutNumber(a: Arg, signed: bool)
      requires Valid() && (if signed then a.Int? || a.LongLong? else a.UInt? || a.ULongLong?)
      modifies this`p, this`result, this`text, buff
      ensures Valid() && text == old(text) + if signed then Signed(SignedOf(a)) else Digits(UnsignedOf(a), 10)
    {
      hide Valid, Digits, Signed, Power;
      match a {
        case UInt(n) =>
          EnoughDigits(n);
          PutUnsigned(n, 16);
        case ULongLong(n) =>
          EnoughDigits(n);
          PutUnsigned(n, 32);
        case Int(n) =>
          EnoughDigits(Abs(n));
          PutSigned(n, 16);
        case LongLong(n) =>
          EnoughDigits(Abs(n));
          PutSigned(n, 32);
        case _ =>
      }
    }

    /** The directives that take an argument. */
    method PutArgument(c: char, a: Arg, f: Flags)
      requires Valid() && c in {'u', 'i', 'd', 'c', 's', 'p', 'x'} && f.modifiers && Suits(c, f, [a])
      modifies this`p, this`result, this`text, buff
      ensures Valid() && text == old(text) + PieceOf(c, f, [a]).text
    {
      hide Valid, Digits, Signed, UnsignedOf, SignedOf, StringOf, CharOf;
      match c {
        case 'u' => PutNumber(a, false);
        case 'i' => PutNumber(a, true);
        case 'd' => PutNumber(a, true);
        case 'c' =>
          IntOf(a);
          Put(CharOf(a.int32));
        case 's' => PutString(StringOf(a));
        case 'p' =>
          Put('0');
          Put('x');
          PutHex(UnsignedOf(a));
        case 'x' => PutHex(UnsignedOf(a));
      }
    }

    /** The body of the loop of vsnprintf, on one character of the format. */
    method Step(c: char, f: Flags, args: seq<Arg>) returns (f': Flags, args': seq<Arg>)
      requires Valid() && Suits(c, f, args)
      modifies this`p, this`result, this`text, buff
      ensures Valid()
      ensures var p := PieceOf(c, f, args); text == old(text) + p.text && f' == p.flags && args' == args[p.used..]
    {
      hide Valid, Digits, Signed, UnsignedOf, SignedOf, StringOf, CharOf;
      f', args' := f, args;
      if !f.modifiers && c != '%' {
        Put(c);
        return;
      }
      if c in {'u', 'i', 'd', 'c', 's', 'p', 'x'} {
        SameArgument(c, f, args);
        PutArgument(c, args[0], f);
        return f.(modifiers := false), args[1..];
      }
      match c {
        case '%' =>
          if f.modifiers {
            Put('%');
            f' := f.(modifiers := false);
          } else {
            f' := Flags(true, false, false);
          }
        case 'l' =>
          f' := if f.long then f.(longLong := true) else f.(long := true);
        case _ =>
          Put('%');
          if f.long {
            Put('l');
          }
          if f.longLong {
            Put('l');
          }
          Put(c);
          f' := f.(modifiers := false);
      }
    }

    /** The loop over the format. */
    method Format(format: string, args: seq<Arg>)
      requires Valid() && text == "" && AllSuit(format, START, args)
      modifies this`p, this`result, this`text, buff
      ensures Valid() && text == Rendered(format, START, args)
    {
      hide *;
      var i, f, rest := 0, START, args;
      assert format[0..] == format;
      while i < |format|
        invariant 0 <= i <= |format| && Valid() && AllSuit(format[i..], f, rest)
        invariant Rendered(format, START, args) == text + Rendered(format[i..], f, rest)
      {
        NextCharacter(format, i, f, rest);
        f, rest := Step(format[i], f, rest);
        i := i + 1;
      }
      RenderedEnds(format[i..], f, rest);
    }

    /** The zero at the end. */
    method Finish() returns (r: int)
      requires Valid()
      modifies buff
      ensures var n := if |text| < len - 1 then |text| else len - 1;
              r == |text| && n < |before| && buff[..] == text[..n] + ['\0'] + before[n + 1..]
    {
      r := result;
      ghost var was := buff[..];
      buff[p] := '\0';
      assert buff[..] == was[p := '\0'];
    }
  }

  lemma SameArgument(c: char, f: Flags, args: seq<Arg>)
    requires c in {'u', 'i', 'd', 'c', 's', 'p', 'x'} && f.modifiers && Suits(c, f, args)
    ensures args != [] && Suits(c, f, [args[0]]) && PieceOf(c, f, args).text == PieceOf(c, f, [args[0]]).text
    ensures PieceOf(c, f, args).flags == f.(modifiers := false) && PieceOf(c, f, args).used == 1
  {
    hide Digits, Signed, UnsignedOf, SignedOf, StringOf, CharOf;
  }

  lemma IntOf(a: Arg)
    requires a.Int?
    ensures SignedOf(a) == a.int32
  {}

  lemma EnoughDigits(n: nat)
    ensures n < 0x1_0000_0000 ==> |Digits(n, 10)| <= 10
    ensures n < W64 ==> |Digits(n, 10)| <= 20
  {
    hide Digits, Power;
    Fits();
    if n < 0x1_0000_0000 { FewDigits(n, 10); }
    if n < W64 { FewDigits(n, 20); }
  }

  /** vsnprintf: the answer is the length of the whole text; the buffer gets as much of it as fits before a zero.
      Without a buffer, a format or any room the answer is -1 and nothing is written. */
  method VsnPrintf(buff: array?<char>, len: nat, format: Option<string>, args: seq<Arg>) returns (result: int)
    requires buff != null ==> len <= buff.Length
    requires format.Some? ==> AllSuit(format.value, START, args)
    modifies buff
    ensures buff == null || format.None? || len == 0 ==> result == -1 && (buff != null ==> buff[..] == old(buff[..]))
    ensures buff != null && format.Some? && len > 0 ==>
              var text := Rendered(format.value, START, args);
              var n := if |text| < len - 1 then |text| else len - 1;
              result == |text| && buff[..] == text[..n] + ['\0'] + old(buff[..])[n + 1..]
  {
    hide AllSuit, Rendered, Suits, PieceOf, Output.Valid;
    if buff == null || format.None? || len <= 0 {
      return -1;
    }
    var out := new Output(buff, len);
    out.Format(format.value, args);
    result := out.Finish();
  }

  lemma NextCharacter(format: string, i: nat, f: Flags, args: seq<Arg>)
    requires i < |format| && AllSuit(format[i..], f, args)
    ensures Suits(format[i], f, args)
    ensures var p := PieceOf(format[i], f, args);
            && AllSuit(format[i + 1..], p.flags, args[p.used..])
            && Rendered(format[i..], f, args) == p.text + Rendered(format[i + 1..], p.flags, args[p.used..])
  {
    hide PieceOf, Suits;
    assert format[i..][1..] == format[i + 1..];
  }

  lemma RenderedEnds(format: string, f: Flags, args: seq<Arg>)
    requires AllSuit(format, f, args) && format == ""
    ensures Rendered(format, f, args) == ""
  {}

  function Reversed(s: string): (r: string)
    ensures |r| == |s|
  {
    if s == "" then "" else [s[|s| - 1]] + Reversed(s[..|s| - 1])
  }

  lemma LastFirst(s: string)
    requires s != ""
    ensures Reversed(s) == [s[|s| - 1]] + Reversed(s[..|s| - 1])
  {}

  lemma DigitTaken(taken: string, n: nat)
    ensures var more := taken + [DigitChar(n % 10)];
            Digits(n, 10) + Reversed(taken) == (if n < 10 then "" else Digits(n / 10, 10)) + Reversed(more)
    ensures |Digits(n, 10)| == (if n < 10 then 0 else |Digits(n / 10, 10)|) + 1
    ensures n / 10 == 0 <==> n < 10
  {
    var more := taken + [DigitChar(n % 10)];
    LastFirst(more);
    assert more[..|taken|] == taken;
  }

  /** What the first `x` nibbles stand for. */
  ghost function Top(h: nat, x: nat): nat
    requires x <= 16
  {
    PowerPositive(16 - x);
    h / Power(16, 16 - x)
  }

  lemma HexStarts(h: nat)
    requires h < W64
    ensures Top(h, 0) == 0
  {
    SixteenPowers();
  }

  lemma HexGrows(h: nat, x: nat)
    requires h < W64 && x < 16
    ensures Top(h, x + 1) == 0 <==> Top(h, x) == 0 && Nibble(h, x) == 0
    ensures Top(h, x + 1) > 0 ==>
              Digits(Top(h, x + 1), 16)
              == (if Top(h, x) > 0 then Digits(Top(h, x), 16) else "") + [DigitChar(Nibble(h, x))]
  {
    hide Nibble, Power;
    NibbleIsDigit(h, x);
    OneMoreDigit(Top(h, x), Nibble(h, x));
  }

  lemma OneMoreDigit(top: nat, nb: nat)
    requires nb < 16
    ensures top > 0 ==> Digits(top * 16 + nb, 16) == Digits(top, 16) + [DigitChar(nb)]
    ensures top == 0 ==> Digits(top * 16 + nb, 16) == [DigitChar(nb)]
  {
    hide DigitChar;
  }

  lemma HexEnds(h: nat)
    ensures Top(h, 16) == h && Digits(0, 16) == "0"
  {}
}
