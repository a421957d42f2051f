/** html_encode and html_decode (talk/base/stringencode.cc): non-ASCII text
    goes through UTF-8 (section 3 of RFC 3629) and decimal numbers. */
module HtmlCodec {
  import opened Bytes
  import opened TextCodec

  function Decimal(n: nat): (r: seq<byte>)
    ensures r != [] && forall i :: 0 <= i < |r| ==> 48 <= r[i] <= 57
  {
    if n < 10 then [48 + n] else Decimal(n / 10) + [48 + n % 10]
  }

  lemma {:induction false} DecimalNumber(n: nat)
    ensures forall i :: 0 <= i < |Decimal(n)| ==> DigitIn(Decimal(n)[i], 10)
    ensures Number(Decimal(n), 10) == n
  {
    if n >= 10 {
      DecimalNumber(n / 10);
      assert Decimal(n)[..|Decimal(n)| - 1] == Decimal(n / 10);
    } else {
      assert Decimal(n)[..0] == [];
    }
  }

  /** A character takes at most ten bytes: seven digits, and no more for the
      largest value UTF-8 can have. */
  lemma DecimalIsShort(n: nat)
    requires n <= 0x1FFFFF
    ensures |Decimal(n)| <= 7
  {
    assert |Decimal(n / 10 / 10 / 10 / 10 / 10 / 10)| == 1;
    assert |Decimal(n / 10 / 10 / 10 / 10 / 10)| <= 2;
    assert |Decimal(n / 10 / 10 / 10 / 10)| <= 3;
    assert |Decimal(n / 10 / 10 / 10)| <= 4;
    assert |Decimal(n / 10 / 10)| <= 5;
    assert |Decimal(n / 10)| <= 6;
  }

  lemma {:induction false} DigitsEnd(d: seq<byte>, rest: seq<byte>)
    requires forall i :: 0 <= i < |d| ==> DigitIn(d[i], 10)
    requires rest != [] && !DigitIn(rest[0], 10)
    ensures DigitCount(d + rest, 10) == |d|
  {
    if d == [] {
      assert d + rest == rest;
    } else {
      assert (d + rest)[1..] == d[1..] + rest;
      DigitsEnd(d[1..], rest);
    }
  }

  /** xml_decode reads a number back. */
  lemma NumberReadsBack(v: nat, rest: seq<byte>)
    requires v <= 0x1FFFFF
    ensures ReadNumber(Decimal(v) + [59] + rest) == Piece(Utf8(v), |Decimal(v)| + 3)
  {
    var d := Decimal(v);
    DecimalNumber(v);
    DigitsEnd(d, [59] + rest);
    assert d + [59] + rest == d + ([59] + rest);
    NumberRead(d, [59] + rest);
  }

  lemma NumberRead(d: seq<byte>, rest: seq<byte>)
    requires d != [] && (forall i :: 0 <= i < |d| ==> 48 <= d[i] <= 57) && DigitCount(d + rest, 10) == |d|
    requires forall i :: 0 <= i < |d| ==> DigitIn(d[i], 10)
    requires rest != [] && rest[0] == 59 && Number(d, 10) <= 0x1FFFFF
    ensures ReadNumber(d + rest) == Piece(Utf8(Number(d, 10)), |d| + 3)
  {
    var t := d + rest;
    assert t[0] == d[0] && t[|d|] == 59;
    assert t[0..] == t && t[..|d|] == d;
  }

  // -------------------------------------------------------------------- UTF-8

  predicate Trailer(s: seq<byte>, i: nat) { i < |s| && s[i] / 64 == 2 }

  function Join2(a: int, b: int): int { a % 32 * 0x40 + b % 64 }
  function Join3(a: int, b: int, c: int): int { a % 16 * 0x1000 + b % 64 * 0x40 + c % 64 }
  function Join4(a: int, b: int, c: int, d: int): int { a % 8 * 0x40000 + b % 64 * 0x1000 + c % 64 * 0x40 + d % 64 }

  /** utf8_decode: the value and the length, no length for what is not UTF-8. */
  function Utf8Read(s: seq<byte>): (r: (nat, nat))
    requires s != []
    ensures r.1 <= |s| && r.1 <= 4 && r.0 <= 0x1FFFFF
  {
    if s[0] < 0x80 then (s[0], 1)
    else if !Trailer(s, 1) then (0, 0)
    else if s[0] / 32 == 6 then (Join2(s[0], s[1]), 2)
    else if !Trailer(s, 2) then (0, 0)
    else if s[0] / 16 == 14 then (Join3(s[0], s[1], s[2]), 3)
    else if !Trailer(s, 3) then (0, 0)
    else if s[0] / 8 == 30 then (Join4(s[0], s[1], s[2], s[3]), 4)
    else (0, 0)
  }

  /** The length of a well-formed shortest-form sequence at the front, by the
      ranges of its bytes; zero if there is none. Surrogates and values past
      10FFFF are let through, as the code does. */
  function ShortestLength(s: seq<byte>): nat
    requires s != []
  {
    if s[0] < 0x80 then 1
    else if 0xC2 <= s[0] <= 0xDF && Trailer(s, 1) then 2
    else if 0xE0 <= s[0] <= 0xEF && Trailer(s, 1) && Trailer(s, 2) && (s[0] == 0xE0 ==> s[1] >= 0xA0) then 3
    else if 0xF0 <= s[0] <= 0xF7 && Trailer(s, 1) && Trailer(s, 2) && Trailer(s, 3) && (s[0] == 0xF0 ==> s[1] >= 0x90) then 4
    else 0
  }

  predicate Shortest(s: seq<byte>) {
    s == [] || (0 < ShortestLength(s) <= |s| && Shortest(s[ShortestLength(s)..]))
  }

  /** The six-bit parts of a value. */
  lemma Parts(a: int, b: int, c: int, d: int)
    requires 0 <= b < 0x40 && 0 <= c < 0x40 && 0 <= d < 0x40
    ensures var v := a * 0x40000 + b * 0x1000 + c * 0x40 + d;
            && v / 0x40 == a * 0x1000 + b * 0x40 + c && v / 0x1000 == a * 0x40 + b && v / 0x40000 == a
            && v % 0x40 == d && v / 0x40 % 0x40 == c && v / 0x1000 % 0x40 == b
  {
    var v := a * 0x40000 + b * 0x1000 + c * 0x40 + d;
    assert v / 0x40 == a * 0x1000 + b * 0x40 + c;
    assert v / 0x1000 == a * 0x40 + b;
  }

  lemma Sixes(v: nat)
    ensures v / 0x1000 == v / 0x40 / 0x40 && v / 0x40000 == v / 0x1000 / 0x40
    ensures v == v / 0x40000 * 0x40000 + v / 0x1000 % 0x40 * 0x1000 + v / 0x40 % 0x40 * 0x40 + v % 0x40
  {
    var a := v / 0x40;
    var b := a / 0x40;
    assert v == a * 0x40 + v % 0x40 && a == b * 0x40 + a % 0x40 && b == b / 0x40 * 0x40 + b % 0x40;
    Parts(b / 0x40, b % 0x40, a % 0x40, v % 0x40);
  }

  /** utf8_decode undoes utf8_encode. */
  lemma Utf8ReadsBack(v: nat, rest: seq<byte>)
    requires v <= 0x1FFFFF
    ensures Utf8Read(Utf8(v) + rest) == (v, |Utf8(v)|)
  {
    var u := Utf8(v);
    var s := u + rest;
    assert s[0] == u[0];
    if v > 0x7F { assert s[1] == u[1] && Trailer(s, 1); }
    if v > 0x7FF { assert s[2] == u[2] && Trailer(s, 2); }
    if v > 0xFFFF { assert s[3] == u[3] && Trailer(s, 3); }
    Sixes(v);
  }

  // ----------------------------------------------------------------- encoding

  /** The value and the length of the character at the front; a byte that is
      not part of UTF-8 stands for itself. */
  function Character(s: seq<byte>): (r: (nat, nat))
    requires s != []
    ensures 1 <= r.1 <= |s| && r.0 <= 0x1FFFFF
  {
    var (v, n) := Utf8Read(s);
    if n > 0 then (v, n) else (s[0], 1)
  }

  function HtmlUnit(s: seq<byte>): (r: seq<byte>)
    requires s != []
    ensures r != []
  {
    if s[0] >= 128 then [38, 35] + Decimal(Character(s).0) + [59]
    else if s[0] == 39 then [38, 35] + Decimal(39) + [59]
    else Unit(Xml, s[0])
  }

  function HtmlEncoded(s: seq<byte>): seq<byte>
    decreases |s|
  {
    if s == [] then [] else HtmlUnit(s) + HtmlEncoded(s[Character(s).1..])
  }

  /** What fits into room, with a zero after it. */
  function HtmlFit(s: seq<byte>, room: int): (r: seq<byte>)
    ensures r != [] ==> |r| < room
    decreases |s|
  {
    if s == [] || |HtmlUnit(s)| >= room then []
    else HtmlUnit(s) + HtmlFit(s[Character(s).1..], room - |HtmlUnit(s)|)
  }

  /** The output is plain ASCII without markup besides references. */
  lemma {:induction false} HtmlEncodedIsTame(s: seq<byte>)
    ensures forall i :: 0 <= i < |HtmlEncoded(s)| ==> HtmlEncoded(s)[i] < 128 && Tame(Xml, HtmlEncoded(s)[i])
    decreases |s|
  {
    if s != [] {
      HtmlEncodedIsTame(s[Character(s).1..]);
      HtmlUnitIsTame(s);
      hide Tame, HtmlUnit, Character;
    }
  }

  lemma HtmlUnitIsTame(s: seq<byte>)
    requires s != []
    ensures forall i :: 0 <= i < |HtmlUnit(s)| ==> HtmlUnit(s)[i] < 128 && Tame(Xml, HtmlUnit(s)[i])
  {
    hide Character;
    UnitIsTame(Xml, s[0]);
  }

  // ---------------------------------------------------------------- round trip

  /** What comes out again: every character in its shortest form. */
  function Rewritten(s: seq<byte>): seq<byte>
    decreases |s|
  {
    if s == [] then [] else Utf8(Character(s).0) + Rewritten(s[Character(s).1..])
  }

  lemma HtmlUnitReadsBack(s: seq<byte>, rest: seq<byte>)
    requires s != []
    ensures Read(Xml, HtmlUnit(s) + rest) == Piece(Utf8(Character(s).0), |HtmlUnit(s)|)
  {
    if s[0] >= 128 || s[0] == 39 {
      ReferenceReadsBack(Character(s).0, rest);
    } else {
      UnitReadsBack(Xml, s[0], rest);
    }
  }

  lemma ReferenceReadsBack(v: nat, rest: seq<byte>)
    requires v <= 0x1FFFFF
    ensures var u := [38, 35] + Decimal(v) + [59]; Read(Xml, u + rest) == Piece(Utf8(v), |u|)
  {
    var t := Decimal(v) + [59] + rest;
    NumberReadsBack(v, rest);
    Regroup(Decimal(v), rest);
    ReferenceRead(t);
  }

  lemma Regroup(d: seq<byte>, rest: seq<byte>)
    ensures [38, 35] + d + [59] + rest == [38] + ([35] + (d + [59] + rest))
  {
  }

  lemma ReferenceRead(t: seq<byte>)
    ensures ReadXml([38] + ([35] + t)) == ReadNumber(t)
  {
    var s := [38] + ([35] + t);
    assert s[1..] == [35] + t && ([35] + t)[1..] == t;
    assert ([35] + t)[0] == 35;
  }

  lemma {:induction false} HtmlDecodes(s: seq<byte>, room: int)
    requires room > |HtmlEncoded(s)|
    ensures Decoded(Xml, HtmlEncoded(s), room) == Rewritten(s)
    decreases |s|
  {
    if s != [] {
      var (v, n) := Character(s);
      var u, rest := HtmlUnit(s), HtmlEncoded(s[n..]);
      HtmlUnitReadsBack(s, rest);
      assert |Utf8(v)| <= |u|;
      DecodedStep(Xml, u + rest, |u|, Utf8(v), room);
      Dropped(u, rest);
      HtmlDecodes(s[n..], room - |Utf8(v)|);
    }
  }

  lemma Kept2(a: byte, b: byte)
    requires a / 32 == 6 && b / 64 == 2
    ensures a >= 0xC2 ==> Utf8(Join2(a, b)) == [a, b]
    ensures a < 0xC2 ==> Utf8(Join2(a, b))[0] < 0x80
  {
    Parts(0, 0, a % 32, b % 64);
  }

  lemma Kept3(a: byte, b: byte, c: byte)
    requires a / 16 == 14 && b / 64 == 2 && c / 64 == 2
    ensures a > 0xE0 || b >= 0xA0 ==> Utf8(Join3(a, b, c)) == [a, b, c]
    ensures a == 0xE0 && b < 0xA0 ==> Utf8(Join3(a, b, c))[0] < 0xE0
  {
    Parts(0, a % 16, b % 64, c % 64);
  }

  lemma Kept4(a: byte, b: byte, c: byte, d: byte)
    requires a / 8 == 30 && b / 64 == 2 && c / 64 == 2 && d / 64 == 2
    ensures a > 0xF0 || b >= 0x90 ==> Utf8(Join4(a, b, c, d)) == [a, b, c, d]
    ensures a == 0xF0 && b < 0x90 ==> Utf8(Join4(a, b, c, d))[0] < 0xF0
  {
    Parts(a % 8, b % 64, c % 64, d % 64);
  }

  /** A byte that is no UTF-8 becomes two bytes, and these are UTF-8. */
  lemma RawIsChanged(s: seq<byte>, rest: seq<byte>)
    requires s != [] && s[0] >= 0x80 && Utf8Read(s).1 == 0
    ensures Utf8(s[0]) + rest != s
  {
    var u := Utf8(s[0]) + rest;
    assert u[0] == 0xC0 + s[0] / 64 && u[1] == 0x80 + s[0] % 64;
    assert Trailer(u, 1) && u[0] / 32 == 6;
  }

  /** A character comes out as it was exactly when it was in shortest form, and
      otherwise the difference shows at once. */
  lemma ShortestIsKept(s: seq<byte>, rest: seq<byte>)
    requires s != []
    ensures ShortestLength(s) > 0 ==> Character(s).1 == ShortestLength(s) <= |s| && Utf8(Character(s).0) == s[..Character(s).1]
    ensures ShortestLength(s) == 0 ==> Utf8(Character(s).0) + rest != s
  {
    var (v, n) := Utf8Read(s);
    if n == 0 {
      RawIsChanged(s, rest);
    } else {
      assert (Utf8(v) + rest)[0] == Utf8(v)[0];
      if n == 2 {
        Kept2(s[0], s[1]);
      } else if n == 3 {
        Kept3(s[0], s[1], s[2]);
      } else if n == 4 {
        Kept4(s[0], s[1], s[2], s[3]);
      }
    }
  }

  lemma {:induction false} RewrittenKeeps(s: seq<byte>)
    ensures Rewritten(s) == s <==> Shortest(s)
    decreases |s|
  {
    if s != [] {
      var (v, n) := Character(s);
      ShortestIsKept(s, Rewritten(s[n..]));
      if ShortestLength(s) > 0 {
        RewrittenKeeps(s[n..]);
        assert s == s[..n] + s[n..];
        assert Rewritten(s)[n..] == Rewritten(s[n..]);
      }
    }
  }

  /** html_decode gives back what html_encode got exactly when that was UTF-8
      in shortest form. */
  lemma HtmlRoundTripExactlyWhen(s: seq<byte>)
    ensures Decoded(Xml, HtmlEncoded(s), |HtmlEncoded(s)| + 1) == s <==> Shortest(s)
  {
    HtmlDecodes(s, |HtmlEncoded(s)| + 1);
    RewrittenKeeps(s);
  }

  // ------------------------------------------------------------ short buffers

  lemma CharacterOfPrefix(s: seq<byte>, m: nat)
    requires s != [] && Character(s).1 <= m <= |s|
    ensures Character(s[..m]) == Character(s) && HtmlUnit(s[..m]) == HtmlUnit(s)
  {
    assert s[..m][0] == s[0];
    assert forall i: nat :: i < m ==> s[..m][i] == s[i];
  }

  /** A short buffer gets the encoding of a prefix, the longest that fits, and
      never a part of an escape. */
  lemma {:induction false} HtmlFitIsPrefix(s: seq<byte>, room: int) returns (k: nat)
    ensures k <= |s| && HtmlFit(s, room) == HtmlEncoded(s[..k])
    ensures k < |s| ==> |HtmlEncoded(s[..k])| + |HtmlUnit(s[k..])| >= room
    decreases |s|
  {
    if s == [] || |HtmlUnit(s)| >= room {
      k := 0;
      assert s[0..] == s;
    } else {
      var n := Character(s).1;
      var m := HtmlFitIsPrefix(s[n..], room - |HtmlUnit(s)|);
      k := n + m;
      CharacterOfPrefix(s, k);
      assert s[..k][n..] == s[n..][..m] && s[n..][m..] == s[k..];
    }
  }

  /** The one case where the zero after the output has no place: a number in
      xml_decode takes exactly what is left of the buffer. */
  lemma NumberTakesTheZero(v: nat)
    requires 0x80 <= v <= 0x1FFFFF
    ensures var s := [38, 35] + Decimal(v) + [59];
            Decoded(Xml, s, |Utf8(v)|) == Utf8(v)
  {
    var s := [38, 35] + Decimal(v) + [59];
    ReferenceReadsBack(v, []);
    assert s + [] == s;
    DecodedStep(Xml, s, |s|, Utf8(v), |Utf8(v)|);
    assert s[|s|..] == [];
  }
}
