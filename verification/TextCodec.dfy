/** The text encodings (talk/base/stringencode.cc) as functions on byte
    sequences: what each encoder writes for one character, what each decoder
    reads off the front of its input, and what a bounded buffer makes of that. */
module TextCodec {
  import opened Bytes

  /** escape, encode, url_encode and xml_encode, with their decoders. */
  datatype Scheme = Escape(mark: byte, illegal: seq<byte>) | Hex(mark: byte, illegal: seq<byte>) | Url | Xml

  // ------------------------------------------------------------ hex and names

  function HexDigit(v: nat): byte
    requires v < 16
  {
    if v < 10 then 48 + v else 97 + (v - 10)
  }

  /** hex_decode takes every letter for a digit. */
  function HexValue(c: byte): (v: int)
    ensures -1 <= v < 36
  {
    if 48 <= c <= 57 then c - 48
    else if 65 <= c <= 90 then c - 65 + 10
    else if 97 <= c <= 122 then c - 97 + 10
    else -1
  }

  /** (h1 << 4) | h2 in eight bits, where h2 may have bits in common with the
      shifted h1 because it may be as large as 35. */
  function HexPair(h1: nat, h2: nat): byte
    requires h1 < 36 && h2 < 36
  {
    var high := h2 / 16;
    var joined := if high == 1 then h1 / 2 * 2 + 1
                  else if high == 2 then h1 / 4 * 4 + 2 + h1 % 2
                  else h1;
    joined % 16 * 16 + h2 % 16
  }

  /** strchr also finds the character that ends the string. */
  predicate Illegal(illegal: seq<byte>, c: byte) { c in illegal || c == 0 }

  /** URL_UNSAFE in ASCII_CLASS. */
  predicate UrlUnsafe(c: byte) {
    c <= 32 || 34 <= c <= 38 || c == 43 || c == 44 || c == 47 || 58 <= c <= 64 ||
    91 <= c <= 94 || c == 96 || 123 <= c <= 125 || c == 127
  }

  /** XML_UNSAFE in ASCII_CLASS. */
  predicate XmlUnsafe(c: byte) { c in {34, 38, 39, 60, 62} }

  const LT: seq<byte> := [108, 116, 59]
  const GT: seq<byte> := [103, 116, 59]
  const APOS: seq<byte> := [97, 112, 111, 115, 59]
  const QUOT: seq<byte> := [113, 117, 111, 116, 59]
  const AMP: seq<byte> := [97, 109, 112, 59]

  // ----------------------------------------------------------------- encoding

  /** What an encoder writes for c. */
  function Unit(sc: Scheme, c: byte): (r: seq<byte>)
    ensures 1 <= |r| <= 6
  {
    match sc
    case Escape(mark, illegal) => if c == mark || Illegal(illegal, c) then [mark, c] else [c]
    case Hex(mark, illegal) =>
      if c == mark || Illegal(illegal, c) then [mark, HexDigit(c / 16), HexDigit(c % 16)] else [c]
    case Url => if UrlUnsafe(c) then [37, HexDigit(c / 16), HexDigit(c % 16)] else [c]
    case Xml =>
      if c == 60 then [38] + LT
      else if c == 62 then [38] + GT
      else if c == 39 then [38] + APOS
      else if c == 34 then [38] + QUOT
      else if c == 38 then [38] + AMP
      else [c]
  }

  function Encoded(sc: Scheme, s: seq<byte>): seq<byte> {
    if s == [] then [] else Unit(sc, s[0]) + Encoded(sc, s[1..])
  }

  /** What fits into room, with a zero after it. */
  function Fit(sc: Scheme, s: seq<byte>, room: int): (r: seq<byte>)
    ensures r != [] ==> |r| < room
  {
    if s == [] || |Unit(sc, s[0])| >= room then []
    else Unit(sc, s[0]) + Fit(sc, s[1..], room - |Unit(sc, s[0])|)
  }

  /** A short buffer gets the encoding of a prefix, the longest that fits, and
      never a part of an escape. */
  lemma {:induction false} FitIsPrefix(sc: Scheme, s: seq<byte>, room: int) returns (k: nat)
    ensures k <= |s| && Fit(sc, s, room) == Encoded(sc, s[..k])
    ensures k < |s| ==> |Encoded(sc, s[..k])| + |Unit(sc, s[k])| >= room
  {
    if s == [] || |Unit(sc, s[0])| >= room {
      k := 0;
    } else {
      var n := FitIsPrefix(sc, s[1..], room - |Unit(sc, s[0])|);
      k := n + 1;
      assert s[..k][0] == s[0] && s[..k][1..] == s[1..][..n];
    }
  }

  lemma {:induction false} FitAll(sc: Scheme, s: seq<byte>, room: int)
    requires room > |Encoded(sc, s)|
    ensures Fit(sc, s, room) == Encoded(sc, s)
  {
    if s != [] {
      FitAll(sc, s[1..], room - |Unit(sc, s[0])|);
    }
  }

  /** The size that url_encode asks for is enough for any text. */
  lemma {:induction false} UrlSizeSuffices(s: seq<byte>)
    ensures |Encoded(Url, s)| <= 3 * |s|
    ensures Fit(Url, s, 3 * |s| + 1) == Encoded(Url, s)
  {
    if s != [] {
      UrlSizeSuffices(s[1..]);
    }
    FitAll(Url, s, 3 * |s| + 1);
  }

  /** What may stand in the output of an encoder: for xml nothing that is markup
      besides the ampersand of a reference, for url and the generic encoder
      nothing unsafe besides the mark and hex digits. */
  predicate Tame(sc: Scheme, c: byte) {
    match sc
    case Escape(_, _) => true
    case Hex(mark, illegal) => !Illegal(illegal, c) || c == mark || 48 <= c <= 57 || 97 <= c <= 102
    case Url => !UrlUnsafe(c) || c == 37
    case Xml => !XmlUnsafe(c) || c == 38
  }

  lemma UnitIsTame(sc: Scheme, c: byte)
    ensures forall i :: 0 <= i < |Unit(sc, c)| ==> Tame(sc, Unit(sc, c)[i])
  {
  }

  /** What the encoders are for: the output can stand where the text could not. */
  lemma {:induction false} EncodedIsTame(sc: Scheme, s: seq<byte>)
    ensures forall i :: 0 <= i < |Encoded(sc, s)| ==> Tame(sc, Encoded(sc, s)[i])
  {
    if s != [] {
      EncodedIsTame(sc, s[1..]);
      UnitIsTame(sc, s[0]);
      hide Tame, Unit;
    }
  }

  /** Read from the front, every mark takes the character behind it with it, and
      nothing that is illegal stands anywhere else. */
  predicate Guarded(mark: byte, illegal: seq<byte>, s: seq<byte>) {
    s != [] ==>
      if s[0] == mark then |s| > 1 && Guarded(mark, illegal, s[2..])
      else !Illegal(illegal, s[0]) && Guarded(mark, illegal, s[1..])
  }

  /** What escape is for, the same. */
  lemma {:induction false} EscapedIsGuarded(mark: byte, illegal: seq<byte>, s: seq<byte>)
    ensures Guarded(mark, illegal, Encoded(Escape(mark, illegal), s))
  {
    if s != [] {
      var sc := Escape(mark, illegal);
      EscapedIsGuarded(mark, illegal, s[1..]);
      var unit, rest := Unit(sc, s[0]), Encoded(sc, s[1..]);
      assert (unit + rest)[|unit|..] == rest;
    }
  }

  // ----------------------------------------------------------------- decoding

  /** What a decoder makes of the front of its input. */
  datatype Piece = Piece(out: seq<byte>, used: nat) | Stop

  predicate IsHex(s: seq<byte>) {
    |s| >= 2 && HexValue(s[0]) >= 0 && HexValue(s[1]) >= 0
  }

  function Read(sc: Scheme, s: seq<byte>): (p: Piece)
    requires s != []
    ensures p.Piece? ==> 1 <= |p.out| <= p.used <= |s|
  {
    match sc
    case Escape(mark, _) => if s[0] == mark && |s| > 1 then Piece([s[1]], 2) else Piece([s[0]], 1)
    case Hex(mark, _) =>
      if s[0] == mark && IsHex(s[1..]) then Piece([HexPair(HexValue(s[1]), HexValue(s[2]))], 3) else Piece([s[0]], 1)
    case Url =>
      if s[0] == 43 then Piece([32], 1)
      else if s[0] == 37 && IsHex(s[1..]) then Piece([HexPair(HexValue(s[1]), HexValue(s[2]))], 3)
      else Piece([s[0]], 1)
    case Xml => ReadXml(s)
  }

  function ReadXml(s: seq<byte>): (p: Piece)
    requires s != []
    ensures p.Piece? ==> 1 <= |p.out| <= p.used <= |s|
  {
    var t := s[1..];
    if s[0] != 38 then Piece([s[0]], 1)
    else if LT <= t then Piece([60], 4)
    else if GT <= t then Piece([62], 4)
    else if APOS <= t then Piece([39], 6)
    else if QUOT <= t then Piece([34], 6)
    else if AMP <= t then Piece([38], 5)
    else if t != [] && t[0] == 35 then ReadNumber(t[1..])
    else Stop
  }

  /** After "&#": a number and a semicolon. */
  function ReadNumber(t: seq<byte>): (p: Piece)
    ensures p.Piece? ==> 1 <= |p.out| <= p.used <= |t| + 2
  {
    var hex := t != [] && t[0] == 120;
    var n := if hex then t[1..] else t;
    var (value, used) := Strtoul(n, if hex then 16 else 10);
    if used < |n| && n[used] == 59 && value <= 0x1FFFFF then
      Piece(Utf8(value), 2 + (if hex then 1 else 0) + used + 1)
    else Stop
  }

  // ------------------------------------------------------------------ strtoul

  const ULONG := 0x1_0000_0000_0000_0000

  function Spaces(s: seq<byte>): (n: nat)
    ensures n <= |s|
  {
    if s != [] && (9 <= s[0] <= 13 || s[0] == 32) then 1 + Spaces(s[1..]) else 0
  }

  predicate DigitIn(c: byte, base: nat) { 0 <= HexValue(c) < base }

  function DigitCount(s: seq<byte>, base: nat): (n: nat)
    ensures n <= |s| && forall i :: 0 <= i < n ==> DigitIn(s[i], base)
  {
    if s != [] && DigitIn(s[0], base) then 1 + DigitCount(s[1..], base) else 0
  }

  function Number(s: seq<byte>, base: nat): nat
    requires forall i :: 0 <= i < |s| ==> DigitIn(s[i], base)
  {
    if s == [] then 0
    else
      var last := s[|s| - 1];
      assert DigitIn(last, base);
      Number(s[..|s| - 1], base) * base + HexValue(last)
  }

  /** The value and the count of characters used: nothing without a digit; a
      sign and, in base 16, another "0x" are let through; a value too large is
      the largest, a negative one wraps around. */
  function Strtoul(s: seq<byte>, base: nat): (r: (nat, nat))
    requires base in {10, 16}
    ensures r.1 <= |s| && (r.1 == 0 ==> r.0 == 0)
  {
    var i := Spaces(s);
    var minus := i < |s| && s[i] == 45;
    var j := if i < |s| && s[i] in {43, 45} then i + 1 else i;
    var k := if base == 16 && j + 2 < |s| && s[j] == 48 && s[j + 1] in {88, 120} && DigitIn(s[j + 2], 16) then j + 2 else j;
    var n := DigitCount(s[k..], base);
    if n == 0 then (0, 0)
    else
      var value := Number(s[k..][..n], base);
      (if value >= ULONG then ULONG - 1 else if minus then (ULONG - value) % ULONG else value, k + n)
  }

  // -------------------------------------------------------------------- UTF-8

  /** utf8_encode, for a value it accepts and room enough. */
  function Utf8(v: nat): (r: seq<byte>)
    requires v <= 0x1FFFFF
    ensures 1 <= |r| <= 4
  {
    if v <= 0x7F then [v]
    else if v <= 0x7FF then [0xC0 + v / 0x40, 0x80 + v % 0x40]
    else if v <= 0xFFFF then [0xE0 + v / 0x1000, 0x80 + v / 0x40 % 0x40, 0x80 + v % 0x40]
    else [0xF0 + v / 0x40000, 0x80 + v / 0x1000 % 0x40, 0x80 + v / 0x40 % 0x40, 0x80 + v % 0x40]
  }

  // ---------------------------------------------------------- bounded decoding

  /** What a decoder puts into a buffer with room for that many bytes, its
      terminating zero included. A number may take the place of the zero. */
  function Decoded(sc: Scheme, s: seq<byte>, room: int): (r: seq<byte>)
    ensures |r| <= |s| && (r != [] ==> |r| <= room)
    decreases |s|
  {
    if s == [] || room <= 1 then []
    else
      match Read(sc, s)
      case Stop => []
      case Piece(out, used) =>
        if |out| > room then [] else out + Decoded(sc, s[used..], room - |out|)
  }

  /** The lengths of the pieces that are read on the way through the input. */
  function Pieces(sc: Scheme, s: seq<byte>): seq<nat>
    decreases |s|
  {
    if s == [] then []
    else
      match Read(sc, s)
      case Stop => []
      case Piece(out, used) => [|out|] + Pieces(sc, s[used..])
  }

  function Total(ns: seq<nat>): nat {
    if ns == [] then 0 else ns[0] + Total(ns[1..])
  }

  /** The first k pieces fill the room to its last byte, and the last of them is
      read because more than one byte is left, which it then takes all. */
  predicate FillsAt(ns: seq<nat>, room: int, k: nat) {
    0 < k <= |ns| && Total(ns[..k]) == room && ns[k - 1] >= 2
  }

  ghost predicate FillsSome(ns: seq<nat>, room: int) {
    exists k: nat :: FillsAt(ns, room, k)
  }

  ghost predicate Fills(sc: Scheme, s: seq<byte>, room: int) {
    FillsSome(Pieces(sc, s), room)
  }

  lemma PiecesStep(sc: Scheme, s: seq<byte>, used: nat, out: seq<byte>)
    requires s != [] && Read(sc, s) == Piece(out, used) && used <= |s|
    ensures Pieces(sc, s) == [|out|] + Pieces(sc, s[used..])
  {
    hide Read;
  }

  /** To fill what is left after a piece is to fill the room with it. */
  lemma FillsOn(n: nat, ns: seq<nat>, room: int)
    requires n >= 1
    ensures FillsSome([n] + ns, room) <==> n == room >= 2 || FillsSome(ns, room - n)
  {
    var all, rest := [n] + ns, room - n;
    if FillsSome(all, room) {
      var k: nat :| FillsAt(all, room, k);
      assert all[..k][0] == n && all[..k][1..] == ns[..k - 1];
      if k > 1 { assert FillsAt(ns, rest, k - 1); }
    }
    if n == room >= 2 {
      assert all[..1] == [n] && [n][1..] == [];
      assert FillsAt(all, room, 1);
    }
    if FillsSome(ns, rest) {
      var k: nat :| FillsAt(ns, rest, k);
      assert all[..k + 1][0] == n && all[..k + 1][1..] == ns[..k];
      assert FillsAt(all, room, k + 1);
    }
  }

  lemma {:induction false} TotalAtLeast(ns: seq<nat>, k: nat)
    requires 0 < k <= |ns|
    ensures Total(ns[..k]) >= ns[k - 1]
    decreases k
  {
    assert ns[..k][0] == ns[0] && ns[..k][1..] == ns[1..][..k - 1];
    if k > 1 { TotalAtLeast(ns[1..], k - 1); }
  }

  lemma FillsMore(ns: seq<nat>, room: int)
    ensures FillsSome(ns, room) ==> room >= 2
  {
    if FillsSome(ns, room) {
      var k: nat :| FillsAt(ns, room, k);
      TotalAtLeast(ns, k);
    }
  }

  /** The exact law: the output takes the place of the zero exactly when pieces
      that are read one after the other fill the room, the last with two bytes
      or more. */
  lemma {:induction false} ZeroHasPlaceExactlyWhen(sc: Scheme, s: seq<byte>, room: int)
    requires room > 0
    ensures |Decoded(sc, s, room)| == room <==> Fills(sc, s, room)
    decreases |s|
  {
    hide Read;
    if s == [] || Read(sc, s).Stop? {
      assert Pieces(sc, s) == [];
    } else {
      var Piece(out, used) := Read(sc, s);
      PiecesStep(sc, s, used, out);
      var ns := Pieces(sc, s[used..]);
      FillsOn(|out|, ns, room);
      if room - |out| <= 0 || room == 1 {
        FillsMore(ns, room - |out|);
      } else {
        DecodedStep(sc, s, used, out, room);
        ZeroHasPlaceExactlyWhen(sc, s[used..], room - |out|);
      }
    }
  }

  /** A piece of two bytes or more is a reference, and longer than what it makes. */
  lemma LongPieceShrinks(sc: Scheme, s: seq<byte>)
    requires s != [] && Read(sc, s).Piece? && |Read(sc, s).out| >= 2
    ensures sc.Xml? && |Read(sc, s).out| < Read(sc, s).used
  {
    var t := s[1..];
    assert sc.Xml? && t != [] && t[0] == 35 && Read(sc, s) == ReadNumber(t[1..]);
    LongNumber(t[1..]);
  }

  lemma LongNumber(t: seq<byte>)
    requires ReadNumber(t).Piece? && |ReadNumber(t).out| >= 2
    ensures ReadNumber(t).used >= 5 && |ReadNumber(t).out| < ReadNumber(t).used
  {
    var hex := t != [] && t[0] == 120;
    var n := if hex then t[1..] else t;
    if !hex && Strtoul(n, 10).1 == 1 { OneDigit(n); }
    assert Strtoul(n, if hex then 16 else 10).1 > 0;
  }

  lemma OneDigit(s: seq<byte>)
    requires Strtoul(s, 10).1 == 1
    ensures Strtoul(s, 10).0 < 10
  {
    hide DigitCount;
    var i := Spaces(s);
    var j := if i < |s| && s[i] in {43, 45} then i + 1 else i;
    var n := DigitCount(s[j..], 10);
    assert n == 1 && j == 0;
    var digits := s[0..][..1];
    assert digits[..0] == [];
    assert Number(digits, 10) == HexValue(digits[0]) < 10;
  }

  /** With no less room than input the zero has its place, as it has for every
      decoder but xml_decode. */
  lemma ZeroHasPlace(sc: Scheme, s: seq<byte>, room: int)
    requires room > 0 && (!sc.Xml? || room >= |s|)
    ensures |Decoded(sc, s, room)| < room && !Fills(sc, s, room)
  {
    ZeroHasPlaceExactlyWhen(sc, s, room);
    if Fills(sc, s, room) {
      var k: nat :| FillsAt(Pieces(sc, s), room, k);
      PiecesShrink(sc, s, k);
    }
  }

  lemma {:induction false} PiecesShrink(sc: Scheme, s: seq<byte>, k: nat)
    requires 0 < k <= |Pieces(sc, s)| && Pieces(sc, s)[k - 1] >= 2
    ensures sc.Xml? && Total(Pieces(sc, s)[..k]) < |s|
    decreases k
  {
    hide Read;
    var Piece(out, used) := Read(sc, s);
    PiecesStep(sc, s, used, out);
    var ns := Pieces(sc, s[used..]);
    assert ([|out|] + ns)[..k][0] == |out| && ([|out|] + ns)[..k][1..] == ns[..k - 1];
    if k == 1 {
      LongPieceShrinks(sc, s);
    } else {
      PiecesShrink(sc, s[used..], k - 1);
    }
  }

  ghost predicate SomeRoomFills(sc: Scheme, s: seq<byte>) {
    exists room :: room > 0 && |Decoded(sc, s, room)| == room
  }

  predicate SomeLong(ns: seq<nat>) {
    exists k :: 0 <= k < |ns| && ns[k] >= 2
  }

  /** Some buffer is filled exactly when some piece has two bytes or more. */
  lemma SomeRoomFillsExactlyWhen(sc: Scheme, s: seq<byte>)
    ensures SomeRoomFills(sc, s) <==> SomeLong(Pieces(sc, s))
  {
    hide Decoded, Pieces, FillsAt, Total;
    var ns := Pieces(sc, s);
    if SomeRoomFills(sc, s) {
      var room :| room > 0 && |Decoded(sc, s, room)| == room;
      ZeroHasPlaceExactlyWhen(sc, s, room);
      var k: nat :| FillsAt(ns, room, k);
      FilledByLong(ns, room, k);
    }
    if SomeLong(ns) {
      var k :| 0 <= k < |ns| && ns[k] >= 2;
      var room := LongFills(ns, k);
      ZeroHasPlaceExactlyWhen(sc, s, room);
    }
  }

  lemma FilledByLong(ns: seq<nat>, room: int, k: nat)
    requires FillsAt(ns, room, k)
    ensures SomeLong(ns)
  {
    assert ns[k - 1] >= 2;
  }

  lemma LongFills(ns: seq<nat>, k: nat) returns (room: nat)
    requires k < |ns| && ns[k] >= 2
    ensures room > 0 && FillsSome(ns, room)
  {
    room := Total(ns[..k + 1]);
    TotalAtLeast(ns, k + 1);
    assert FillsAt(ns, room, k + 1);
  }

  // ---------------------------------------------------------------- round trip

  lemma HexDigits(c: byte)
    ensures IsHex([HexDigit(c / 16), HexDigit(c % 16)])
    ensures HexPair(HexValue(HexDigit(c / 16)), HexValue(HexDigit(c % 16))) == c
  {
  }

  /** Every decoder reads a unit of its encoder back, whatever follows. */
  lemma UnitReadsBack(sc: Scheme, c: byte, rest: seq<byte>)
    ensures Read(sc, Unit(sc, c) + rest) == Piece([c], |Unit(sc, c)|)
  {
    hide ReadNumber;
    var u := Unit(sc, c);
    assert (u + rest)[0] == u[0];
    if |u| > 1 {
      assert (u + rest)[1..] == u[1..] + rest;
      if sc.Xml? {
        XmlUnitReadsBack(c, rest);
      } else {
        assert (u[1..] + rest)[0] == u[1];
        HexDigits(c);
      }
    }
  }

  lemma XmlUnitReadsBack(c: byte, rest: seq<byte>)
    requires |Unit(Xml, c)| > 1
    ensures ReadXml(Unit(Xml, c) + rest) == Piece([c], |Unit(Xml, c)|)
  {
    hide ReadXml;
    var name := Unit(Xml, c)[1..];
    assert Unit(Xml, c) + rest == [38] + (name + rest);
    NameReadsBack(name + rest, c, name);
  }

  lemma NameReadsBack(t: seq<byte>, c: byte, name: seq<byte>)
    requires name <= t && (c, name) in {(60, LT), (62, GT), (39, APOS), (34, QUOT), (38, AMP)}
    ensures ReadXml([38] + t) == Piece([c], 1 + |name|)
  {
    hide ReadNumber;
    assert ([38] + t)[1..] == t;
    assert t[0] == name[0] && t[1] == name[1];
  }

  lemma DecodedStep(sc: Scheme, s: seq<byte>, used: nat, out: seq<byte>, room: int)
    requires s != [] && used <= |s| && Read(sc, s) == Piece(out, used) && 1 < room && |out| <= room
    ensures Decoded(sc, s, room) == out + Decoded(sc, s[used..], room - |out|)
  {
    hide Read;
  }

  lemma Dropped(u: seq<byte>, rest: seq<byte>)
    ensures (u + rest)[|u|..] == rest
  {
  }

  /** Decoding an encoding gives the text back, as much of it as the buffer
      holds. */
  lemma {:induction false} EncodedDecodes(sc: Scheme, s: seq<byte>, room: int)
    requires room > 0
    ensures Decoded(sc, Encoded(sc, s), room) == if |s| < room then s else s[..room - 1]
    decreases |s|
  {
    hide *;
    if s == [] || room <= 1 {
      DecodedNothing(sc, s, room);
    } else {
      EncodedDecodes(sc, s[1..], room - 1);
      EncodedFront(sc, s, room);
      var n := if |s| < room then |s| else room - 1;
      assert s[..n] == [s[0]] + s[1..][..n - 1];
    }
  }

  lemma DecodedNothing(sc: Scheme, s: seq<byte>, room: int)
    requires s == [] || room <= 1
    ensures Decoded(sc, Encoded(sc, s), room) == []
  {
    hide Read, Unit;
  }

  lemma EncodedFront(sc: Scheme, s: seq<byte>, room: int)
    requires s != [] && room > 1
    ensures Decoded(sc, Encoded(sc, s), room) == [s[0]] + Decoded(sc, Encoded(sc, s[1..]), room - 1)
  {
    var u, rest := Unit(sc, s[0]), Encoded(sc, s[1..]);
    UnitReadsBack(sc, s[0], rest);
    hide Read, Decoded, Unit;
    DecodedStep(sc, u + rest, |u|, [s[0]], room);
    Dropped(u, rest);
  }
}
