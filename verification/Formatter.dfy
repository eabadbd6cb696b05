/** The bounded formatter: what a format and its arguments print without a bound, and
    snprintf, which writes a prefix of that. */
module Formatter {
  import opened Machine

  const INT_MIN := -0x8000_0000
  const INT_MAX := 0x7FFF_FFFF

  datatype Arg =
    | IntArg(v: int)       // %d
    | WordArg(u: nat)      // %x
    | StrArg(s: string)    // %s, without the terminator
    | NullArg              // %s with a NULL pointer
    | CharArg(c: char)     // %c

  // ---- Decimal numerals ------------------------------------------------------------

  function Digit(d: int): char
    requires 0 <= d < 10
  {
    '0' + d as char
  }

  /** The decimal digits of n, most significant first. */
  function Digits(n: nat): (r: string)
    ensures |r| >= 1
  {
    if n < 10 then [Digit(n)] else Digits(n / 10) + [Digit(n % 10)]
  }

  /** What %d prints. The negation of INT_MIN is INT_MIN again, whose remainder by ten
      is -8 and whose quotient ends the digit loop. */
  function DecimalText(v: int): string {
    if v == INT_MIN then ['-', '0' - 8 as char]
    else if v < 0 then ['-'] + Digits(-v)
    else Digits(v)
  }

  datatype Parsed = NotANumber | Number(value: int)

  function ParseNat(s: string): Parsed {
    if s == [] then Number(0)
    else
      var c := s[|s| - 1];
      match ParseNat(s[..|s| - 1])
      case NotANumber => NotANumber
      case Number(m) => if '0' <= c <= '9' then Number(m * 10 + (c as int - '0' as int)) else NotANumber
  }

  function ParseInt(s: string): Parsed {
    if s == [] then NotANumber
    else if s[0] != '-' then ParseNat(s)
    else
      match ParseNat(s[1..])
      case NotANumber => NotANumber
      case Number(m) => if |s| > 1 then Number(-m) else NotANumber
  }

  lemma {:induction false} DigitsParse(n: nat)
    ensures ParseNat(Digits(n)) == Number(n) && '0' <= Digits(n)[0] <= '9'
    ensures Digits(n)[0] == '0' ==> n == 0
  {
    var s := Digits(n);
    if n < 10 {
      assert s[..0] == [];
    } else {
      DigitsParse(n / 10);
      assert s[..|s| - 1] == Digits(n / 10);
      assert Digits(n / 10)[0] == s[0];
    }
  }

  /** %d prints a numeral that reads back as the value exactly when the value is not
      INT_MIN. */
  lemma DecimalExact(v: int)
    requires INT_MIN <= v <= INT_MAX
    ensures ParseInt(DecimalText(v)) == Number(v) <==> v != INT_MIN
  {
    if v == INT_MIN {
      assert DecimalText(v)[1..] == ['0' - 8 as char];
    } else if v < 0 {
      DigitsParse(-v);
      assert DecimalText(v)[1..] == Digits(-v);
    } else {
      DigitsParse(v);
    }
  }

  // ---- It is the usual numeral --------------------------------------------------------------

  lemma ParseLast(s: string, n: nat)
    requires s != [] && ParseNat(s) == Number(n)
    ensures var d := s[|s| - 1] as int - '0' as int; var front := ParseNat(s[..|s| - 1]);
            0 <= d < 10 && front.Number? && n == front.value * 10 + d && front.value >= 0
  {
    ParsesNat(s[..|s| - 1]);
  }

  lemma {:induction false} ParsesNat(s: string)
    ensures ParseNat(s).Number? ==> ParseNat(s).value >= 0
  {
    if s != [] { ParsesNat(s[..|s| - 1]); }
  }

  lemma {:induction false} DigitsShortest(s: string, n: nat)
    requires s != [] && ParseNat(s) == Number(n)
    ensures |Digits(n)| <= |s|
  {
    ParseLast(s, n);
    if n >= 10 { DigitsShortest(s[..|s| - 1], n / 10); }
  }

  lemma {:induction false} DigitsUnique(s: string, n: nat)
    requires s != [] && ParseNat(s) == Number(n) && (s[0] != '0' || |s| == 1)
    ensures s == Digits(n)
  {
    ParseLast(s, n);
    if |s| > 1 {
      var front := s[..|s| - 1];
      DigitsUnique(front, n / 10);
      assert s == front + [s[|s| - 1]];
      assert n / 10 > 0;
    }
  }

  /** The numeral %d prints for a value above INT_MIN is the usual one: a minus sign for
      negative values only, no leading zero, and no numeral of the value is shorter. */
  lemma DecimalCanonical(v: int, t: string)
    requires INT_MIN < v <= INT_MAX
    ensures var s := DecimalText(v);
            && |s| >= 1 && (s[0] == '-' <==> v < 0) && (v < 0 ==> |s| >= 2 && s[1] != '0')
            && (s[0] == '0' <==> v == 0) && (v == 0 ==> s == "0")
    ensures ParseInt(t) == Number(v) ==> |DecimalText(v)| <= |t|
  {
    var m := if v < 0 then -v else v;
    DigitsParse(m);
    if v < 0 { assert DecimalText(v)[1..] == Digits(m); }
    if ParseInt(t) == Number(v) {
      if t[0] == '-' {
        ParsesNat(t[1..]);
        if v < 0 { DigitsShortest(t[1..], m); }
      } else {
        ParsesNat(t);
        DigitsShortest(t, m);
      }
    }
  }

  /** And it is the only numeral of the value of that form. */
  lemma DecimalUnique(v: int, t: string)
    requires INT_MIN < v <= INT_MAX && ParseInt(t) == Number(v)
    requires if v < 0 then |t| >= 2 && t[0] == '-' && t[1] != '0' else t[0] != '-' && (t[0] != '0' || |t| == 1)
    ensures t == DecimalText(v)
  {
    if v < 0 {
      DigitsUnique(t[1..], -v);
      assert t == ['-'] + t[1..];
    } else {
      DigitsUnique(t, v);
    }
  }

  lemma {:induction false} DigitsShort(n: nat, k: nat)
    requires n < Power10(k) && k >= 1
    ensures |Digits(n)| <= k
  {
    if n >= 10 {
      assert Power10(k) == 10 * Power10(k - 1);
      DigitsShort(n / 10, k - 1);
    }
  }

  function Power10(k: nat): nat { if k == 0 then 1 else 10 * Power10(k - 1) }

  // ---- Rendering -------------------------------------------------------------------

  function HexDigit(d: int): char
    requires 0 <= d < 16
  {
    "0123456789abcdef"[d]
  }

  /** The low k hex digits of u, leading zeros included. */
  function HexDigits(u: nat, k: nat): string {
    if k == 0 then [] else HexDigits(u / 16, k - 1) + [HexDigit(u % 16)]
  }

  function HexText(u: nat): string { "0x" + HexDigits(u, 8) }

  function HexValue(c: char): nat {
    if '0' <= c <= '9' then c as int - '0' as int
    else if 'a' <= c <= 'f' then 10 + (c as int - 'a' as int) else 0
  }

  function HexParse(s: string): nat {
    if s == [] then 0 else HexParse(s[..|s| - 1]) * 16 + HexValue(s[|s| - 1])
  }

  function Power16(k: nat): nat { if k == 0 then 1 else 16 * Power16(k - 1) }

  lemma HexValueOf(d: int)
    requires 0 <= d < 16
    ensures HexValue(HexDigit(d)) == d
  {}

  lemma HexParseAppend(s: string, c: char)
    ensures HexParse(s + [c]) == HexParse(s) * 16 + HexValue(c)
  {
    assert (s + [c])[..|s|] == s;
  }

  lemma {:induction false} HexDigitsParse(u: nat, k: nat)
    requires u < Power16(k)
    ensures |HexDigits(u, k)| == k && HexParse(HexDigits(u, k)) == u
  {
    if k > 0 {
      HexDigitsParse(u / 16, k - 1);
      HexParseAppend(HexDigits(u / 16, k - 1), HexDigit(u % 16));
      HexValueOf(u % 16);
    }
  }

  /** %x prints 0x and eight digits that read back as the value. */
  lemma HexExact(u: nat)
    requires u < WORD
    ensures |HexText(u)| == 10 && HexText(u)[..2] == "0x" && HexParse(HexText(u)[2..]) == u
  {
    assert Power16(8) == WORD;
    HexDigitsParse(u, 8);
    assert HexText(u)[2..] == HexDigits(u, 8);
  }

  /** Digit i of the k printed is the hexadecimal digit of u >> (4 * (k - 1 - i)). */
  lemma {:induction false} HexDigitAt(u: nat, k: nat, i: nat)
    requires i < k
    ensures |HexDigits(u, k)| == k && HexDigits(u, k)[i] == "0123456789abcdef"[Shifted(u, k - 1 - i) % 16]
  {
    if i < k - 1 {
      HexDigitAt(u / 16, k - 1, i);
      ShiftedOnce(u, k - 1 - i);
    } else if k > 1 {
      HexDigitAt(u / 16, k - 1, 0);
    }
  }

  lemma {:induction false} ShiftedOnce(u: nat, k: nat)
    requires k > 0
    ensures Shifted(u / 16, k - 1) == Shifted(u, k)
  {
    if k > 1 { ShiftedOnce(u, k - 1); }
  }

  lemma Numerals()
    ensures DecimalText(-120) == "-120" && DecimalText(0) == "0" && DecimalText(32768) == "32768"
    ensures DecimalText(-2147483648) == "-("
  {
    assert Digits(12) == "12";
    assert Digits(327) == "327" by { assert Digits(32) == "32"; }
    assert Digits(32768) == "32768" by { assert Digits(3276) == "3276"; }
    assert '0' - 8 as char == '(';
  }

  function StringText(a: Arg): string
    requires a.StrArg? || a.NullArg?
  {
    if a.NullArg? then "(null)" else a.s
  }

  /** Each conversion finds an argument of its kind, and no lone % ends the format. */
  predicate Matches(format: string, args: seq<Arg>) {
    if format == [] then true
    else if format[0] != '%' then Matches(format[1..], args)
    else
      && |format| >= 2
      && match format[1]
         case 'd' => args != [] && args[0].IntArg? && INT_MIN <= args[0].v <= INT_MAX && Matches(format[2..], args[1..])
         case 'x' => args != [] && args[0].WordArg? && args[0].u < WORD && Matches(format[2..], args[1..])
         case 's' => args != [] && (args[0].StrArg? || args[0].NullArg?) && Matches(format[2..], args[1..])
         case 'c' => args != [] && args[0].CharArg? && Matches(format[2..], args[1..])
         case _ => Matches(format[2..], args)
  }

  /** What the conversion character f prints for argument list args, and how many
      arguments it takes. */
  function Piece(f: char, args: seq<Arg>): string
    requires Matches(['%', f], args)
  {
    match f
    case 'd' => DecimalText(args[0].v)
    case 'x' => HexText(args[0].u)
    case 's' => StringText(args[0])
    case 'c' => [args[0].c]
    case _ => [f]
  }

  predicate TakesArg(f: char) { f in {'d', 'x', 's', 'c'} }

  /** The text printed without a bound. */
  function Render(format: string, args: seq<Arg>): string
    requires Matches(format, args)
  {
    if format == [] then []
    else if format[0] != '%' then [format[0]] + Render(format[1..], args)
    else
      assert Matches(['%', format[1]], args) by { assert ['%', format[1]][2..] == []; }
      Piece(format[1], args) + Render(format[2..], if TakesArg(format[1]) then args[1..] else args)
  }

  // ---- The digit buffer ---------------------------------------------------------------

  function Reversed(s: string): (r: string)
    ensures |r| == |s|
  {
    if s == [] then [] else [s[|s| - 1]] + Reversed(s[..|s| - 1])
  }

  lemma {:induction false} ReversedAt(s: string, k: nat)
    requires k < |s|
    ensures Reversed(s)[k] == s[|s| - 1 - k]
  {
    if k > 0 { ReversedAt(s[..|s| - 1], k - 1); }
  }

  /** C's remainder and quotient by ten truncate toward zero. */
  function Rem10(v: int): int { if v >= 0 then v % 10 else -(-v % 10) }

  function Quot10(v: int): int { if v >= 0 then v / 10 else -(-v / 10) }

  function DigitChar(r: int): char
    requires -10 < r < 10
  {
    if r >= 0 then '0' + r as char else '0' - (-r) as char
  }

  method ReverseBuffer(num: array<char>, j: nat)
    requires j <= num.Length
    modifies num
    ensures num[..j] == Reversed(old(num[..j])) && num[j..] == old(num[j..])
  {
    var k := 0;
    while k < j / 2
      invariant 0 <= k <= j / 2
      invariant forall i | 0 <= i < k :: num[i] == old(num[j - i - 1]) && num[j - i - 1] == old(num[i])
      invariant forall i | k <= i < j - k || j <= i < num.Length :: num[i] == old(num[i])
    {
      var temp := num[k];
      num[k] := num[j - k - 1];
      num[j - k - 1] := temp;
      k := k + 1;
    }
    ghost var was := old(num[..j]);
    forall i | 0 <= i < j ensures num[i] == Reversed(was)[i] { ReversedAt(was, i); }
  }

  lemma LastDigit(val: nat)
    ensures Digits(val) == (if val / 10 > 0 then Digits(val / 10) else []) + [DigitChar(Rem10(val))]
  {}

  lemma ReversedAppend(s: string, d: char)
    ensures Reversed(s + [d]) == [d] + Reversed(s)
  {
    assert (s + [d])[..|s|] == s;
  }

  lemma Regroup(a: string, b: string, c: string)
    ensures a + b + c == a + (b + c)
  {}

  /** One turn of the digit loop moves the last digit of `val` into the buffer. */
  lemma DigitMoves(n: nat, val: nat, s: string)
    requires Digits(n) == Digits(val) + Reversed(s)
    ensures Digits(n) == (if val / 10 > 0 then Digits(val / 10) else []) + Reversed(s + [DigitChar(Rem10(val))])
  {
    var d := DigitChar(Rem10(val));
    var front := if val / 10 > 0 then Digits(val / 10) else [];
    LastDigit(val);
    ReversedAppend(s, d);
    Regroup(front, [d], Reversed(s));
  }

  method DigitLoop(start: int, num: array<char>) returns (j: nat)
    requires INT_MIN <= start <= INT_MAX && (start < 0 ==> start == INT_MIN) && num.Length == 32
    modifies num
    ensures 1 <= j <= 10
    ensures start >= 0 ==> Digits(start) == Reversed(num[..j])
    ensures start == INT_MIN ==> num[..j] == [DigitChar(-8)]
  {
    var val := start;
    j := 0;
    assert Reversed(num[..0]) == [];
    if start >= 0 { assert start < Power10(10); DigitsShort(start, 10); }
    while true
      invariant start == INT_MIN ==> j == 0 && val == start
      invariant start >= 0 ==> val >= 0 && j < 10 && |Digits(start)| <= 10
      invariant start >= 0 ==> Digits(start) == Digits(val) + Reversed(num[..j])
      decreases if val >= 0 then val else 1
    {
      if start >= 0 { DigitMoves(start, val, num[..j]); }
      ghost var before := num[..j];
      num[j] := DigitChar(Rem10(val));
      val := Quot10(val);
      j := j + 1;
      assert num[..j] == before + [num[j - 1]];
      if !(val > 0 && j < 30) {
        break;
      }
    }
  }

  /** Fills the buffer with the text %d prints and returns its length. */
  method FormatDecimal(v: int, num: array<char>) returns (j: nat)
    requires INT_MIN <= v <= INT_MAX && num.Length == 32
    modifies num
    ensures j <= 11 && num[..j] == DecimalText(v)
  {
    var val := v;
    if v < 0 {
      val := if v == INT_MIN then INT_MIN else -v;
    }
    j := DigitLoop(val, num);
    ghost var digits := num[..j];
    if v < 0 {
      num[j] := '-';
      j := j + 1;
      assert num[..j][..j - 1] == digits;
    }
    ReverseBuffer(num, j);
  }

  // ---- snprintf ---------------------------------------------------------------------------

  /** The buffer from base on holds the text as far as size - 1 characters go; i is how far. */
  ghost predicate Prefix(buf: seq<char>, base: nat, size: nat, i: nat, text: string) {
    && 1 <= size && base + size <= |buf|
    && i == Min(|text|, size - 1)
    && buf[base..base + i] == text[..i]
  }

  /** Appends text up to the bound: the copy loops of snprintf. */
  method Put(str: array<char>, base: nat, size: nat, i0: nat, text: string, ghost done: string) returns (i: nat)
    requires Prefix(str[..], base, size, i0, done)
    modifies str
    ensures Prefix(str[..], base, size, i, done + text)
    ensures forall k | 0 <= k < str.Length && !(base <= k < base + size) :: str[k] == old(str[k])
  {
    i := i0;
    var k := 0;
    assert done + text[..0] == done;
    while k < |text| && i < size - 1
      invariant 0 <= k <= |text| && Prefix(str[..], base, size, i, done + text[..k])
      invariant forall q | 0 <= q < str.Length && !(base <= q < base + size) :: str[q] == old(str[q])
    {
      ghost var before := str[..];
      str[base + i] := text[k];
      assert str[..] == before[base + i := text[k]];
      PrefixGrows(before, base, size, i, done + text[..k], text[k]);
      assert done + text[..k] + [text[k]] == done + text[..k + 1];
      i := i + 1;
      k := k + 1;
    }
    PrefixFull(str[..], base, size, i, done + text[..k], text[k..]);
    assert done + text[..k] + text[k..] == done + text;
  }

  lemma PrefixGrows(buf: seq<char>, base: nat, size: nat, i: nat, text: string, c: char)
    requires Prefix(buf, base, size, i, text) && i < size - 1
    ensures Prefix(buf[base + i := c], base, size, i + 1, text + [c])
  {
    var b := buf[base + i := c];
    assert b[base..base + i + 1] == buf[base..base + i] + [c];
  }

  lemma PrefixFull(buf: seq<char>, base: nat, size: nat, i: nat, text: string, more: string)
    requires Prefix(buf, base, size, i, text) && (more == [] || i == size - 1)
    ensures Prefix(buf, base, size, i, text + more)
  {
    assert (text + more)[..i] == text[..i];
  }

  /** u >> (4 * k). */
  function Shifted(u: nat, k: nat): nat { if k == 0 then u else Shifted(u, k - 1) / 16 }

  method PutHex(str: array<char>, base: nat, size: nat, i0: nat, u: nat, ghost done: string) returns (i: nat)
    requires Prefix(str[..], base, size, i0, done)
    modifies str
    ensures Prefix(str[..], base, size, i, done + HexText(u))
    ensures forall k | 0 <= k < str.Length && !(base <= k < base + size) :: str[k] == old(str[k])
  {
    i := Put(str, base, size, i0, "0x", done);
    ghost var head := done + "0x";
    ghost var digits := HexDigits(Shifted(u, 8), 0);
    var m: nat := 0;
    assert head + digits == head;
    while m < 8
      invariant m <= 8 && digits == HexDigits(Shifted(u, 8 - m), m) && Prefix(str[..], base, size, i, head + digits)
      invariant forall k | 0 <= k < str.Length && !(base <= k < base + size) :: str[k] == old(str[k])
    {
      var c := HexDigit(Shifted(u, 7 - m) % 16);
      i := Put(str, base, size, i, [c], head + digits);
      HexStep(u, m);
      Regroup(head, digits, [c]);
      digits := digits + [c];
      m := m + 1;
    }
    Regroup(done, "0x", digits);
  }

  lemma HexStep(u: nat, m: nat)
    requires m < 8
    ensures HexDigits(Shifted(u, 7 - m), m + 1)
         == HexDigits(Shifted(u, 8 - m), m) + [HexDigit(Shifted(u, 7 - m) % 16)]
  {}

  /** The first conversion or character of a format, and the rest of it. */
  lemma RenderUnfolds(format: string, args: seq<Arg>)
    requires Matches(format, args) && format != []
    ensures format[0] != '%' ==> Matches(format[1..], args) && Render(format, args) == [format[0]] + Render(format[1..], args)
    ensures format[0] == '%' ==>
              && |format| >= 2 && Matches(['%', format[1]], args)
              && (TakesArg(format[1]) ==> args != [])
              && var rest := if TakesArg(format[1]) then args[1..] else args;
                 Matches(format[2..], rest) && Render(format, args) == Piece(format[1], args) + Render(format[2..], rest)
  {
    if format[0] == '%' { assert ['%', format[1]][2..] == []; }
  }

  /** Prints one conversion. */
  method PutPiece(str: array<char>, base: nat, size: nat, i0: nat, f: char, args: seq<Arg>, ghost done: string) returns (i: nat)
    requires Prefix(str[..], base, size, i0, done) && Matches(['%', f], args)
    modifies str
    ensures Prefix(str[..], base, size, i, done + Piece(f, args))
    ensures forall k | 0 <= k < str.Length && !(base <= k < base + size) :: str[k] == old(str[k])
  {
    match f {
      case 'd' =>
        var num := new char[32];
        var j := FormatDecimal(args[0].v, num);
        i := Put(str, base, size, i0, num[..j], done);
      case 'x' => i := PutHex(str, base, size, i0, args[0].u, done);
      case 's' => i := Put(str, base, size, i0, StringText(args[0]), done);
      case 'c' => i := Put(str, base, size, i0, [args[0].c], done);
      case _ => i := Put(str, base, size, i0, [f], done);
    }
  }

  /** What is left to print after the conversion at f. */
  lemma ConversionStep(format: string, f: nat, args: seq<Arg>, a: nat, done: string, all: string)
    requires f < |format| && a <= |args| && format[f] == '%' && Matches(format[f..], args[a..])
    requires all == done + Render(format[f..], args[a..])
    ensures f + 1 < |format| && Matches(['%', format[f + 1]], args[a..])
    ensures var c := format[f + 1]; var a' := if TakesArg(c) then a + 1 else a;
            && a' <= |args| && Matches(format[f + 2..], args[a'..])
            && all == done + Piece(c, args[a..]) + Render(format[f + 2..], args[a'..])
  {
    var c, rest := format[f + 1], format[f..];
    RenderUnfolds(rest, args[a..]);
    assert rest[2..] == format[f + 2..] && rest[1] == c;
    if TakesArg(c) { assert args[a..][1..] == args[a + 1..]; }
    var a' := if TakesArg(c) then a + 1 else a;
    Regroup(done, Piece(c, args[a..]), Render(format[f + 2..], args[a'..]));
  }

  /** And after the plain character at f. */
  lemma PlainStep(format: string, f: nat, args: seq<Arg>, done: string, all: string)
    requires f < |format| && format[f] != '%' && Matches(format[f..], args)
    requires all == done + Render(format[f..], args)
    ensures Matches(format[f + 1..], args) && all == done + [format[f]] + Render(format[f + 1..], args)
  {
    RenderUnfolds(format[f..], args);
    assert format[f..][1..] == format[f + 1..];
    Regroup(done, [format[f]], Render(format[f + 1..], args));
  }

  /** Writes the first size - 1 characters of the rendering, or all of it if it is
      shorter, then a NUL, and returns how many; nothing outside the size characters
      from base on changes. */
  method Snprintf(str: array<char>, base: nat, size: nat, format: string, args: seq<Arg>) returns (i: nat)
    requires 1 <= size && base + size <= str.Length && Matches(format, args)
    modifies str
    ensures Prefix(str[..], base, size, i, Render(format, args)) && str[base + i] == '\0'
    ensures var text := Render(format, args);
            i == (if |text| < size then |text| else size - 1) && str[base..base + i] == text[..i]
    ensures forall k | 0 <= k < str.Length && !(base <= k < base + size) :: str[k] == old(str[k])
  {
    i := PutAll(str, base, size, format, args);
    ghost var before := str[..];
    str[base + i] := '\0';
    assert str[base..base + i] == before[base..base + i];
  }

  /** The loop over the format. */
  method PutAll(str: array<char>, base: nat, size: nat, format: string, args: seq<Arg>) returns (i: nat)
    requires 1 <= size && base + size <= str.Length && Matches(format, args)
    modifies str
    ensures Prefix(str[..], base, size, i, Render(format, args))
    ensures forall k | 0 <= k < str.Length && !(base <= k < base + size) :: str[k] == old(str[k])
  {
    i := 0;
    var f, a: nat := 0, 0;
    ghost var done, all := "", Render(format, args);
    assert format[0..] == format && args[0..] == args;
    while f < |format| && i < size - 1
      invariant 0 <= f <= |format| && a <= |args| && Matches(format[f..], args[a..])
      invariant all == done + Render(format[f..], args[a..])
      invariant Prefix(str[..], base, size, i, done)
      invariant forall k | 0 <= k < str.Length && !(base <= k < base + size) :: str[k] == old(str[k])
    {
      if format[f] == '%' {
        ConversionStep(format, f, args, a, done, all);
        var c := format[f + 1];
        i := PutPiece(str, base, size, i, c, args[a..], done);
        done := done + Piece(c, args[a..]);
        a := if TakesArg(c) then a + 1 else a;
        f := f + 2;
      } else {
        PlainStep(format, f, args[a..], done, all);
        i := Put(str, base, size, i, [format[f]], done);
        done := done + [format[f]];
        f := f + 1;
      }
    }
    PrefixFull(str[..], base, size, i, done, Render(format[f..], args[a..]));
  }
}
