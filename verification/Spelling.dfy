/** The characters themselves: what the tables and escapes of the codecs
    (talk/base/base64.cc, stringencode.cc) and of the XML printer
    (talk/xmllite/xmlprinter.cc) spell, letter by letter. A reader and a writer
    that agree with each other could still both be wrong; here they are not. */
module Spellings {
  import opened Bytes
  import B = Base64
  import T = TextCodec
  import H = HtmlCodec
  import X = XmlEscape
  import opened Options

  /** The codes of ASCII text. */
  function Ascii(s: string): (r: seq<byte>)
    requires forall i :: 0 <= i < |s| ==> s[i] as int < 128
    ensures |r| == |s| && forall i :: 0 <= i < |r| ==> r[i] == s[i] as int
  {
    seq(|s|, i requires 0 <= i < |s| => s[i] as int)
  }

  // ------------------------------------------------------------------- base64

  const UPPER := "ABCDEFGHIJKLMNOPQRSTUVWXYZ"
  const LOWER := "abcdefghijklmnopqrstuvwxyz"
  const LETTERS := UPPER + LOWER + "0123456789" + "+/"

  lemma UpperSpelled(v: nat)
    requires v < 26
    ensures |UPPER| == 26 && UPPER[v] as int == 65 + v
  {
    assert v == 0 || v == 1 || v == 2 || v == 3 || v == 4 || v == 5 || v == 6 || v == 7 || v == 8 || v
        == 9 || v == 10 || v == 11 || v == 12 || v == 13 || v == 14 || v == 15 || v == 16 || v == 17 || v ==
        18 || v == 19 || v == 20 || v == 21 || v == 22 || v == 23 || v == 24 || v == 25;
  }

  lemma LowerSpelled(v: nat)
    requires v < 26
    ensures |LOWER| == 26 && LOWER[v] as int == 97 + v
  {
    assert v == 0 || v == 1 || v == 2 || v == 3 || v == 4 || v == 5 || v == 6 || v == 7 || v == 8 || v
        == 9 || v == 10 || v == 11 || v == 12 || v == 13 || v == 14 || v == 15 || v == 16 || v == 17 || v ==
        18 || v == 19 || v == 20 || v == 21 || v == 22 || v == 23 || v == 24 || v == 25;
  }

  /** Table 1 of RFC 4648. */
  lemma LettersSpelled(v: B.sextet)
    ensures |LETTERS| == 64 && B.Letter(v) == LETTERS[v] as int && B.SymbolOf(LETTERS[v] as int) == B.Digit(v)
  {
    UpperSpelled(if v < 26 then v else 0);
    LowerSpelled(if 26 <= v < 52 then v - 26 else 0);
  }

  lemma SymbolsSpelled(c: byte)
    ensures B.SymbolOf(c) == B.Padding <==> c == '=' as int
    ensures B.SymbolOf(c) == B.Space <==> c as char in " \t\n\r" || c == 11 || c == 12
    ensures B.SymbolOf(c).Digit? <==> exists v :: 0 <= v < 64 && LETTERS[v] as int == c
  {
    if B.SymbolOf(c).Digit? {
      LettersSpelled(B.SymbolOf(c).v);
      assert LETTERS[B.SymbolOf(c).v] as int == c;
    }
    if v :| 0 <= v < 64 && LETTERS[v] as int == c {
      LettersSpelled(v);
    }
  }

  /** The digit that a letter stands for, if it does. */
  function Value(c: byte): int {
    if B.SymbolOf(c).Digit? then B.SymbolOf(c).v else 0
  }

  function At(s: seq<byte>, i: nat): int {
    if i < |s| then s[i] else 0
  }

  /** A quantum is its bytes as one number, the first byte on top, in base 64; where
      bytes are missing it ends in as many equals signs. */
  lemma QuantumIsNumber(s: seq<byte>)
    requires 1 <= |s| <= 3
    ensures var q := B.Quantum(s);
            && Value(q[0]) * 0x40000 + Value(q[1]) * 0x1000 + Value(q[2]) * 0x40 + Value(q[3])
               == At(s, 0) * 0x10000 + At(s, 1) * 0x100 + At(s, 2)
            && (q[3] == '=' as int <==> |s| < 3) && (q[2] == '=' as int <==> |s| < 2)
  {
    var q := B.Quantum(s);
    B.LetterIsDigit(s[0] / 4);
    B.LetterIsDigit(s[0] % 4 * 16 + if |s| > 1 then s[1] / 16 else 0);
    if |s| > 1 { B.LetterIsDigit(s[1] % 16 * 4 + if |s| > 2 then s[2] / 64 else 0); }
    if |s| > 2 { B.LetterIsDigit(s[2] % 64); }
  }

  /** Vectors of section 10 of RFC 4648. */
  lemma ShortVectors()
    ensures B.Encoded(Ascii("")) == Ascii("") && B.Encoded(Ascii("f")) == Ascii("Zg==")
    ensures B.Encoded(Ascii("fo")) == Ascii("Zm8=") && B.Encoded(Ascii("foo")) == Ascii("Zm9v")
    ensures B.Encoded(Ascii("bar")) == Ascii("YmFy")
  {
  }

  lemma LongVector()
    ensures B.Encoded(Ascii("foobar")) == Ascii("Zm9vYmFy")
  {
    ShortVectors();
    var all := Ascii("foobar");
    assert all[..3] == Ascii("foo") && all[3..] == Ascii("bar");
    assert B.Encoded(Ascii("foo")) == B.Quantum(Ascii("foo"));
    hide B.Quantum;
    assert Ascii("Zm9v") + Ascii("YmFy") == Ascii("Zm9vYmFy");
  }

  // ---------------------------------------------------------------------- hex

  const HEX := "0123456789abcdef"

  lemma HexSpelled(v: nat)
    requires v < 16
    ensures T.HexDigit(v) == HEX[v] as int
    ensures T.HexValue(HEX[v] as int) == v && T.HexValue("0123456789ABCDEF"[v] as int) == v
  {
  }

  /** hex_decode goes on to the end of the alphabet, in either case, and takes
      nothing else. */
  lemma HexReaches(c: byte)
    ensures 'g' as int <= c <= 'z' as int ==> T.HexValue(c) == 16 + c - 'g' as int
    ensures 'G' as int <= c <= 'Z' as int ==> T.HexValue(c) == 16 + c - 'G' as int
    ensures c < '0' as int || '9' as int < c < 'A' as int || 'Z' as int < c < 'a' as int || 'z' as int < c ==> T.HexValue(c) == -1
  {
  }

  predicate Bit(x: nat, k: nat) {
    if k == 0 then x % 2 == 1 else Bit(x / 2, k - 1)
  }

  /** Two digits make a byte as shift and bitwise or do, cut to eight bits, even for
      letters that are not hexadecimal. */
  lemma PairIsBitwise(h1: nat, h2: nat, k: nat)
    requires h1 < 36 && h2 < 36 && k < 8
    ensures Bit(T.HexPair(h1, h2), k) <==> Bit(h1 * 16, k) || Bit(h2, k)
  {
    var high := T.HexPair(h1, h2) / 16;
    PairParts(h1, h2);
    Parts(high, h2 % 16, k);
    Parts(h2 / 16, h2 % 16, k);
    Parts(h1, 0, k);
    if k < 4 {
      NoBits(k);
    } else {
      HighBits(h1, h2 / 16, high, k - 4);
    }
  }

  lemma PairParts(h1: nat, h2: nat)
    requires h1 < 36 && h2 < 36
    ensures T.HexPair(h1, h2) == T.HexPair(h1, h2) / 16 * 16 + h2 % 16 && h2 / 16 <= 2
    ensures T.HexPair(h1, h2) / 16 ==
      (if h2 / 16 == 1 then h1 / 2 * 2 + 1 else if h2 / 16 == 2 then h1 / 4 * 4 + 2 + h1 % 2 else h1) % 16
  {
  }

  lemma {:induction false} NoBits(k: nat)
    ensures !Bit(0, k)
  {
    if k > 0 { NoBits(k - 1); }
  }

  /** Four bits under others. */
  lemma Parts(a: nat, b: nat, k: nat)
    requires b < 16 && k < 8
    ensures Bit(a * 16 + b, k) <==> if k < 4 then Bit(b, k) else Bit(a, k - 4)
  {
    Halves(a * 8, b, k);
    if k > 0 { Halves(a * 4, b / 2, k - 1); }
    if k > 1 { Halves(a * 2, b / 4, k - 2); }
    if k > 2 { Halves(a, b / 8, k - 3); }
    if k < 4 { Four(b, k); }
    assert b / 2 / 2 == b / 4 && b / 4 / 2 == b / 8 && b / 8 / 2 == 0;
  }

  lemma Halves(a: nat, b: nat, k: nat)
    ensures Bit(a * 2 + b, k) <==> if k == 0 then b % 2 == 1 else Bit(a + b / 2, k - 1)
  {
    assert (a * 2 + b) / 2 == a + b / 2;
  }

  lemma HighBits(h: nat, m: nat, j: nat, k: nat)
    requires h < 36 && m <= 2 && k < 4
    requires j == (if m == 1 then h / 2 * 2 + 1 else if m == 2 then h / 4 * 4 + 2 + h % 2 else h) % 16
    ensures Bit(j, k) <==> Bit(h, k) || Bit(m, k)
  {
    hide Bit;
    var x := if m == 1 then h / 2 * 2 + 1 else if m == 2 then h / 4 * 4 + 2 + h % 2 else h;
    Parts(x / 16, x % 16, k);
    Parts(0, j, k);
    if m == 1 {
      WithOne(h, k);
    } else if m == 2 {
      WithTwo(h, k);
    } else {
      NoBits(k);
    }
  }

  lemma WithOne(h: nat, k: nat)
    ensures Bit(h / 2 * 2 + 1, k) <==> Bit(h, k) || Bit(1, k)
  {
    Halves(h / 2, 1, k);
    if k > 0 { NoBits(k - 1); }
  }

  lemma WithTwo(h: nat, k: nat)
    ensures Bit(h / 4 * 4 + 2 + h % 2, k) <==> Bit(h, k) || Bit(2, k)
  {
    Halves(h / 4 * 2 + 1, h % 2, k);
    assert h / 4 * 4 + 2 + h % 2 == (h / 4 * 2 + 1) * 2 + h % 2 && h / 2 / 2 == h / 4;
    if k > 0 {
      WithOne(h / 2, k - 1);
      assert h % 2 / 2 == 0 && h / 2 / 2 * 2 + 1 == h / 4 * 2 + 1;
    }
  }

  lemma Four(x: nat, k: nat)
    requires k < 4
    ensures Bit(x, k) <==> (match k case 0 => x case 1 => x / 2 case 2 => x / 4 case _ => x / 8) % 2 == 1
  {
    assert x / 2 / 2 == x / 4 && x / 4 / 2 == x / 8;
    assert k > 0 ==> Bit(x, k) == Bit(x / 2, k - 1);
    assert k > 1 ==> Bit(x / 2, k - 1) == Bit(x / 4, k - 2);
    assert k > 2 ==> Bit(x / 4, k - 2) == Bit(x / 8, k - 3);
  }

  // ---------------------------------------------------------------------- url

  /** URL_UNSAFE: controls, the space, and these. */
  predicate Escaped(c: byte) {
    c <= 32 || c == 127 || c as char in "\"#$%&+,/:;<=>?@[\\]^`{|}"
  }

  lemma UnsafeSpelled(c: byte)
    ensures T.UrlUnsafe(c) <==> Escaped(c)
    ensures T.XmlUnsafe(c) <==> c as char in "\"&'<>"
  {
  }

  lemma UrlSpelled(c: byte)
    ensures T.Unit(T.Url, c) ==
            if Escaped(c) then ['%' as int, HEX[c / 16] as int, HEX[c % 16] as int] else [c]
  {
    UnsafeSpelled(c);
    HexSpelled(c / 16);
    HexSpelled(c % 16);
    hide Escaped, T.UrlUnsafe, T.HexDigit;
  }

  lemma UrlReads(rest: seq<byte>, v: byte)
    ensures T.Read(T.Url, Ascii("+") + rest) == T.Piece(Ascii(" "), 1)
    ensures T.Read(T.Url, ['%' as int, HEX[v / 16] as int, HEX[v % 16] as int] + rest) == T.Piece([v], 3)
  {
    HexSpelled(v / 16);
    HexSpelled(v % 16);
    T.HexDigits(v);
    var s := ['%' as int, HEX[v / 16] as int, HEX[v % 16] as int] + rest;
    assert s[1] == T.HexDigit(v / 16) && s[2] == T.HexDigit(v % 16) && s[1..][0] == s[1] && s[1..][1] == s[2];
  }

  /** escape and the generic encoder mark the mark, what is called illegal, and the
      character zero, which ends every C string. */
  lemma MarkedExactlyWhen(mark: byte, illegal: seq<byte>, c: byte)
    ensures T.Unit(T.Escape(mark, illegal), c) == if c == mark || c in illegal || c == 0 then [mark, c] else [c]
    ensures T.Unit(T.Hex(mark, illegal), c) ==
            if c == mark || c in illegal || c == 0 then [mark, HEX[c / 16] as int, HEX[c % 16] as int] else [c]
  {
    HexSpelled(c / 16);
    HexSpelled(c % 16);
  }

  /** unescape takes the character behind a mark as it is, and a mark at the end for
      itself. */
  lemma UnescapeReads(mark: byte, illegal: seq<byte>, c: byte, rest: seq<byte>)
    ensures T.Read(T.Escape(mark, illegal), [mark, c] + rest) == T.Piece([c], 2)
    ensures T.Read(T.Escape(mark, illegal), [mark]) == T.Piece([mark], 1)
    ensures c != mark ==> T.Read(T.Escape(mark, illegal), [c] + rest) == T.Piece([c], 1)
  {
  }

  // ---------------------------------------------------------------------- xml

  /** The five predefined entities (XML 1.0, section 4.6). */
  function Entity(c: byte): string {
    if c == '<' as int then "&lt;" else if c == '>' as int then "&gt;" else if c == '&' as int then "&amp;"
    else if c == '"' as int then "&quot;" else if c == '\'' as int then "&apos;" else ""
  }

  lemma XmlSpelled(c: byte)
    ensures T.Unit(T.Xml, c) == if c as char in "<>&\"'" then Ascii(Entity(c)) else [c]
  {
  }

  /** xml_decode takes each for its character, whatever follows. */
  lemma XmlReads(c: byte, rest: seq<byte>)
    requires c as char in "<>&\"'"
    ensures T.Read(T.Xml, Ascii(Entity(c)) + rest) == T.Piece([c], |Entity(c)|)
  {
    XmlSpelled(c);
    T.UnitReadsBack(T.Xml, c, rest);
  }

  /** html_encode writes an apostrophe, and what is not ASCII, as a decimal
      reference. */
  lemma HtmlSpelled(s: seq<byte>)
    requires s != []
    ensures H.HtmlUnit(s) ==
            if s[0] >= 128 then Ascii("&#") + H.Decimal(H.Character(s).0) + Ascii(";")
            else if s[0] == '\'' as int then Ascii("&#39;")
            else if s[0] as char in "<>&\"" then Ascii(Entity(s[0]))
            else [s[0]]
  {
    XmlSpelled(s[0]);
    assert Ascii("&#") == [38, 35] && Ascii(";") == [59];
    assert H.Decimal(39) == Ascii("39");
    assert [38, 35] + Ascii("39") + [59] == Ascii("&#39;");
  }

  /** A decimal numeral is its digits, the highest first. */
  lemma DecimalSpelled(n: nat)
    ensures n < 10 ==> H.Decimal(n) == ["0123456789"[n] as int]
    ensures n >= 10 ==> H.Decimal(n) == H.Decimal(n / 10) + ["0123456789"[n % 10] as int]
  {
  }

  /** Characters of one to four bytes (section 3 of RFC 3629). */
  lemma Utf8Vectors()
    ensures T.Utf8(0x24) == [0x24] && T.Utf8(0xA2) == [0xC2, 0xA2]
    ensures T.Utf8(0x20AC) == [0xE2, 0x82, 0xAC] && T.Utf8(0x10348) == [0xF0, 0x90, 0x8D, 0x88]
  {
  }

  predicate Plain(s: string) { forall i :: 0 <= i < |s| ==> s[i] as int < 128 }

  /** After "&#" comes a number. */
  lemma AfterHash(t: string)
    requires Plain(t)
    ensures T.Read(T.Xml, Ascii("&#" + t)) == T.ReadNumber(Ascii(t))
  {
    hide T.ReadNumber;
    var s := Ascii("&#" + t);
    assert s[0] == '&' as int && s[1] == '#' as int;
    assert s[1..][0] == '#' as int && s[1..][1..] == Ascii(t);
  }

  /** References, decimal and hexadecimal; no other names are known. */
  lemma DecimalReference()
    ensures T.Read(T.Xml, Ascii("&#" + "65;")) == T.Piece(Ascii("A"), 5)
  {
    SixtyFive();
    AfterHash("65;");
  }

  lemma SixtyFive()
    ensures T.ReadNumber(Ascii("65;")) == T.Piece(Ascii("A"), 5)
  {
    var d: seq<byte> := [54, 53];
    assert H.Decimal(65) == d by { assert H.Decimal(6) == [54]; }
    assert d + [59] + [] == Ascii("65;");
    hide H.Decimal, T.ReadNumber;
    H.NumberReadsBack(65, []);
    assert T.Utf8(65) == Ascii("A");
  }

  lemma HexReference()
    ensures T.Read(T.Xml, Ascii("&#" + "x41;")) == T.Piece(Ascii("A"), 6)
  {
    SixteenBased(Ascii("x41;"), Ascii("41;"));
    hide T.ReadNumber;
    AfterHash("x41;");
  }

  lemma SixteenBased(t: seq<byte>, n: seq<byte>)
    requires t == Ascii("x41;") && n == Ascii("41;")
    ensures T.ReadNumber(t) == T.Piece(Ascii("A"), 6)
  {
    FortyOne(n);
    hide T.Strtoul;
    assert t[1..] == n && T.Utf8(65) == Ascii("A");
  }

  lemma FortyOne(n: seq<byte>)
    requires n == Ascii("41;")
    ensures T.Strtoul(n, 16) == (65, 2)
  {
    assert n[1..] == Ascii("1;") && n[1..][1..] == Ascii(";");
    assert T.DigitCount(Ascii(";"), 16) == 0;
    assert T.DigitCount(Ascii("1;"), 16) == 1;
    assert T.DigitCount(n, 16) == 2;
    assert n[0..] == n && n[..2] == Ascii("41");
    assert Ascii("41")[..1] == Ascii("4");
    assert Ascii("4")[..0] == [];
    assert T.Number(Ascii("4"), 16) == 4;
    assert T.Number(Ascii("41"), 16) == 65;
  }

  /** Digits that begin here, and no second "0x". */
  predicate Bare(d: seq<byte>, base: nat) {
    && base in {10, 16} && d != [] && T.HexValue(d[0]) >= 0
    && (base == 16 && |d| > 1 ==> d[1] != 'x' as int && d[1] != 'X' as int)
  }

  function Capped(v: nat): nat { if v >= T.ULONG then T.ULONG - 1 else v }

  lemma BareNumber(d: seq<byte>, base: nat)
    requires Bare(d, base)
    ensures var n := T.DigitCount(d, base);
            T.Strtoul(d, base) == if n == 0 then (0, 0) else (Capped(T.Number(d[..n], base)), n)
  {
    assert d[0..] == d;
    assert T.Spaces(d) == 0 && d[0] != '-' as int && d[0] != '+' as int;
    hide T.Number, T.DigitCount, T.Spaces, T.HexValue;
  }

  lemma AfterOne(a: byte, d: seq<byte>, base: nat)
    requires Bare(d, base) && a in {32, 43, 45}
    ensures var n := T.DigitCount(d, base); var r := T.Strtoul([a] + d, base);
            && (n == 0 ==> r == (0, 0))
            && (n > 0 ==> r.1 == n + 1)
            && (n > 0 && a != 45 ==> r.0 == Capped(T.Number(d[..n], base)))
            && (n > 0 && a == 45 && T.Number(d[..n], base) < T.ULONG ==> r.0 == (T.ULONG - T.Number(d[..n], base)) % T.ULONG)
  {
    CappedIs(if T.DigitCount(d, base) > 0 then T.Number(d[..T.DigitCount(d, base)], base) else 0);
    hide *;
    var s := [a] + d;
    BareStart(d, base);
    Shifted([a], d);
    SpacesOf(a, d);
    Unfolded(s, base, if a == 32 then 1 else 0, a == 45);
  }

  /** With one character before the digits that is not part of the number. */
  lemma Unfolded(s: seq<byte>, base: nat, i: nat, minus: bool)
    requires base in {10, 16} && |s| > 1 && i == T.Spaces(s) && i <= 1
    requires s[1] !in {43, 45} && (i == 0 ==> s[0] in {43, 45} && (minus <==> s[0] == 45)) && (i == 1 ==> !minus)
    requires base == 16 && |s| > 2 ==> s[2] !in {88, 120}
    ensures var n := T.DigitCount(s[1..], base);
            T.Strtoul(s, base) ==
              if n == 0 then (0, 0)
              else
                var value := T.Number(s[1..][..n], base);
                (if value >= T.ULONG then T.ULONG - 1 else if minus then (T.ULONG - value) % T.ULONG else value, 1 + n)
  {
    hide T.Number, T.DigitCount, T.Spaces, T.HexValue;
  }

  lemma BareStart(d: seq<byte>, base: nat)
    requires Bare(d, base)
    ensures base in {10, 16} && d != [] && d[0] !in {32, 43, 45} && !(9 <= d[0] <= 13)
    ensures base == 16 && |d| > 1 ==> d[1] !in {88, 120}
  {
  }

  lemma SpacesOf(a: byte, d: seq<byte>)
    requires a in {32, 43, 45} && d != [] && d[0] != 32 && !(9 <= d[0] <= 13)
    ensures T.Spaces([a] + d) == if a == 32 then 1 else 0
  {
    assert ([a] + d)[1..] == d;
  }

  lemma Shifted(a: seq<byte>, d: seq<byte>)
    requires |a| == 1
    ensures (a + d)[1..] == d && (a + d)[0] == a[0] && |a + d| == |d| + 1
    ensures forall i :: 0 <= i < |d| ==> (a + d)[i + 1] == d[i]
  {
  }

  /** strtoul: a space before, and a sign, are let through; a minus wraps around. */
  lemma SignsAndSpaces(d: seq<byte>, base: nat)
    requires Bare(d, base) && T.Strtoul(d, base).1 > 0
    ensures T.Strtoul(Ascii("+") + d, base) == T.Strtoul(Ascii(" ") + d, base) == (T.Strtoul(d, base).0, T.Strtoul(d, base).1 + 1)
    ensures 0 < T.Strtoul(d, base).0 < T.ULONG - 1 ==> T.Strtoul(Ascii("-") + d, base).0 == T.ULONG - T.Strtoul(d, base).0
  {
    hide *;
    BareNumber(d, base);
    AfterOne(43, d, base);
    AfterOne(32, d, base);
    AfterOne(45, d, base);
    Singles();
    Wraps(T.Number(d[..T.DigitCount(d, base)], base));
  }

  lemma CappedIs(v: nat)
    ensures Capped(v) == if v >= T.ULONG then T.ULONG - 1 else v
  {
  }

  lemma Singles()
    ensures Ascii("+") == [43] && Ascii(" ") == [32] && Ascii("-") == [45]
  {
  }

  lemma Wraps(v: nat)
    ensures 0 < Capped(v) < T.ULONG - 1 ==> Capped(v) == v < T.ULONG && (T.ULONG - v) % T.ULONG == T.ULONG - v
  {
  }

  lemma OtherReference()
    ensures T.Read(T.Xml, Ascii("&nbsp;")) == T.Stop
  {
    var s := Ascii("&nbsp;");
    assert s[1..][0] == 'n' as int;
    hide T.ReadNumber;
  }

  // -------------------------------------------------------------- the printer

  /** What the XML printer writes for a character, in a value and in a text. */
  lemma PrinterSpelled(c: char)
    ensures X.EscapeChar(c, true) == match c case '<' => "&lt;" case '>' => "&gt;" case '&' => "&amp;" case '"' => "&quot;" case _ => [c]
    ensures X.EscapeChar(c, false) == match c case '<' => "&lt;" case '>' => "&gt;" case '&' => "&amp;" case _ => [c]
  {
  }
}
