/** What the flags of the base64 decoder mean (talk/base/base64.h), each against a
    simpler decoder: white space against strict parsing of the text without it,
    forbidden padding against a text with another character in its place, and
    the ways to end against each other. */
module Base64Flags {
  import opened Bytes
  import opened Base64

  // -------------------------------------------------------------- white space

  function Squeezed(data: seq<byte>): (r: seq<byte>)
    ensures |r| <= |data|
  {
    if data == [] then []
    else Squeezed(data[..|data| - 1]) + if SymbolOf(data[|data| - 1]).Space? then [] else [data[|data| - 1]]
  }

  /** Where a place of the text is in the squeezed text. */
  function Place(data: seq<byte>, pos: nat): (r: nat)
    requires pos <= |data|
  {
    |Squeezed(data[..pos])|
  }

  lemma {:induction false} PlaceMeans(data: seq<byte>, pos: nat)
    requires pos <= |data|
    ensures Place(data, pos) <= |Squeezed(data)|
    ensures pos < |data| ==>
      if SymbolOf(data[pos]).Space? then Place(data, pos + 1) == Place(data, pos)
      else Place(data, pos + 1) == Place(data, pos) + 1 && Place(data, pos) < |Squeezed(data)| && Squeezed(data)[Place(data, pos)] == data[pos]
    decreases |data|
  {
    if pos == |data| {
      assert data[..pos] == data;
    } else {
      var front := data[..|data| - 1];
      if pos < |front| {
        PlaceMeans(front, pos);
        assert front[..pos] == data[..pos] && front[..pos + 1] == data[..pos + 1];
      } else {
        assert data[..pos] == front && data[..pos + 1] == data;
      }
    }
  }

  lemma {:induction false} PlacesInOrder(data: seq<byte>, i: nat, j: nat)
    requires i <= j <= |data|
    ensures Place(data, i) <= Place(data, j)
    decreases j
  {
    if i < j {
      PlacesInOrder(data, i, j - 1);
      PlaceMeans(data, j - 1);
    }
  }

  function Strictly(f: Flags): Flags { f.(parse := ParseStrict) }

  /** One quantum is the same, and so is where it stops. */
  lemma {:induction false} SameQuantum(f: Flags, data: seq<byte>, pos: nat, digits: seq<sextet>, pads: nat, padStart: nat)
    requires f.parse == ParseWhite && pos <= |data| && |digits| <= 4 && padStart <= pos
    requires pads > 0 ==> padStart < pos && SymbolOf(data[padStart]).Padding?
    ensures Place(data, pos) <= |Squeezed(data)| && Place(data, padStart) <= Place(data, pos)
    ensures var w := Next(f, data, pos, digits, pads, padStart);
            var s := Next(Strictly(f), Squeezed(data), Place(data, pos), digits, pads, Place(data, padStart));
            && w.digits == s.digits && w.padded == s.padded && Place(data, w.pos) == s.pos
            && (|w.digits| == 4 || w.pos == |data| || !SymbolOf(data[w.pos]).Space?)
            && (|w.digits| == 4 && |digits| < 4 ==> w.pos > pos && !SymbolOf(data[w.pos - 1]).Space?)
    decreases |data| - pos
  {
    hide *;
    PlaceMeans(data, pos);
    PlacesInOrder(data, padStart, pos);
    NextStep(f, data, pos, digits, pads, padStart);
    var d, p, ps := Squeezed(data), Place(data, pos), Place(data, padStart);
    if |digits| == 4 || pos == |data| {
      PlaceAtEnd(data);
      NextStep(Strictly(f), d, p, digits, pads, ps);
      CloseAlike(digits, pads, padStart, pos, ps, p);
    } else {
      var symbol := SymbolOf(data[pos]);
      SameVerdict(f, symbol, |digits|, pads);
      if !symbol.Space? { NextStep(Strictly(f), d, p, digits, pads, ps); }
      match VerdictOn(f, symbol, |digits|, pads)
      case Halt =>
        CloseAlike(digits, pads, padStart, pos, ps, p);
      case Skip => SameQuantum(f, data, pos + 1, digits, pads, padStart);
      case Count => SameQuantum(f, data, pos + 1, digits, pads + 1, if pads == 0 then pos else padStart);
      case Take =>
        SameQuantum(f, data, pos + 1, digits + [symbol.v], 0, padStart);
        if |digits| == 3 {
          NextStep(f, data, pos + 1, digits + [symbol.v], 0, padStart);
          CloseAlike(digits + [symbol.v], 0, padStart, pos + 1, padStart, pos + 1);
        }
    }
  }

  lemma PlaceAtEnd(data: seq<byte>)
    ensures Place(data, |data|) == |Squeezed(data)|
  {
    assert data[..|data|] == data;
  }

  lemma SameVerdict(f: Flags, s: Symbol, digits: nat, pads: nat)
    requires f.parse == ParseWhite
    ensures VerdictOn(f, s, digits, pads) == if s.Space? then Skip else VerdictOn(Strictly(f), s, digits, pads)
    ensures Strictly(f).pads == f.pads && Strictly(f).term == f.term
    ensures VerdictOn(f, s, digits, pads).Skip? ==> s.Space?
    ensures VerdictOn(f, s, digits, pads).Count? ==> s.Padding?
    ensures VerdictOn(f, s, digits, pads).Take? ==> s.Digit?
  {
  }

  lemma CloseAlike(digits: seq<sextet>, pads: nat, start: nat, pos: nat, start': nat, pos': nat)
    ensures var c, c' := Close(digits, pads, start, pos), Close(digits, pads, start', pos');
            && c.digits == c'.digits == digits && c.padded == c'.padded
            && ((c.pos == pos && c'.pos == pos') || (c.pos == start && c'.pos == start' && pads > 0))
  {
  }

  /** In strict mode a whole quantum is four digits in a row. */
  lemma {:induction false} NeedsDigits(f: Flags, data: seq<byte>, pos: nat, digits: seq<sextet>, pads: nat, padStart: nat)
    requires f.parse == ParseStrict && pos <= |data| && |digits| < 4 && padStart <= pos
    requires |Next(f, data, pos, digits, pads, padStart).digits| == 4
    ensures pads == 0 && Digits(data, pos, 4 - |digits|)
    decreases |data| - pos
  {
    if pos < |data| {
      var s := SymbolOf(data[pos]);
      match VerdictOn(f, s, |digits|, pads)
      case Halt =>
      case Skip =>
      case Count => NeedsDigits(f, data, pos + 1, digits, pads + 1, if pads == 0 then pos else padStart);
      case Take => if |digits| < 3 { NeedsDigits(f, data, pos + 1, digits + [s.v], 0, padStart); }
    }
  }

  lemma WholeExactlyWhen(f: Flags, data: seq<byte>, pos: nat)
    requires f.parse == ParseStrict && pos <= |data|
    ensures |Next(f, data, pos, [], 0, 0).digits| == 4 <==> Digits(data, pos, 4)
    ensures Digits(data, pos, 4) ==> Next(f, data, pos, [], 0, 0).pos == pos + 4
  {
    if |Next(f, data, pos, [], 0, 0).digits| == 4 { NeedsDigits(f, data, pos, [], 0, 0); }
    if Digits(data, pos, 4) { NextTakes(f, data, pos, [], 4); }
  }

  /** From pos on only whole quanta. */
  predicate Whole(data: seq<byte>, pos: nat)
    requires pos <= |data|
  {
    Digits(data, pos, |data| - pos) && (|data| - pos) % 4 == 0
  }

  predicate EndsInSpace(data: seq<byte>) { data != [] && SymbolOf(data[|data| - 1]).Space? }

  /** Whether white space is passed over: bytes are those of strict parsing without
      it, and so is success, but for one case. A space behind the last whole quantum
      starts another, which has no digits, and no padding where that is asked for. */
  lemma {:induction false} WhiteFrom(f: Flags, data: seq<byte>, pos: nat)
    requires f.parse == ParseWhite && pos <= |data| && (pos == 0 || !SymbolOf(data[pos - 1]).Space?)
    ensures Place(data, pos) <= |Squeezed(data)|
    ensures var w, s := DecodedFrom(f, data, pos), DecodedFrom(Strictly(f), Squeezed(data), Place(data, pos));
            && w.bytes == s.bytes && w.used <= |data| && Place(data, w.used) == s.used
            && (s.used == |Squeezed(data)| ==> w.used == |data|)
            && (w.success <==> s.success && !(f.pads == PadYes && EndsInSpace(data) && Whole(Squeezed(data), Place(data, pos))))
    decreases |data| - pos
  {
    hide Next, Squeezed, SymbolOf;
    var d, p, g := Squeezed(data), Place(data, pos), Strictly(f);
    PlaceMeans(data, pos);
    PlaceAtEnd(data);
    if pos < |data| {
      assert data[..0] == [];
      PlacesInOrder(data, 0, pos);
      NextStep(g, d, p, [], 0, 0);
      SameQuantum(f, data, pos, [], 0, 0);
      WholeExactlyWhen(g, d, p);
      var w := Next(f, data, pos, [], 0, 0);
      PlaceMeans(data, w.pos);
      if |w.digits| == 4 {
        assert Place(data, w.pos) == p + 4;
        WholeOn(d, p);
        WhiteFrom(f, data, w.pos);
      } else if p == |d| {
        OnlySpaces(data, pos);
      } else {
        assert !Whole(d, p);
      }
    }
  }

  lemma WholeOn(data: seq<byte>, pos: nat)
    requires Digits(data, pos, 4)
    ensures Whole(data, pos) <==> Whole(data, pos + 4)
  {
  }

  lemma OnlySpaces(data: seq<byte>, pos: nat)
    requires pos < |data| && Place(data, pos) == |Squeezed(data)|
    ensures EndsInSpace(data)
  {
    PlacesInOrder(data, pos, |data| - 1);
    PlaceMeans(data, |data| - 1);
  }

  /** Reading through spaces gives the bytes of strict reading without them, and
      succeeds with it but for one case: padding is demanded, the text is whole
      quanta without any, and ends in a space. */
  lemma WhiteIsStrictExactlyWhen(f: Flags, data: seq<byte>)
    requires f.parse == ParseWhite
    ensures var w, s := DecodedAll(f, data), DecodedAll(Strictly(f), Squeezed(data));
            && w.bytes == s.bytes
            && (w.success == s.success <==>
                  !s.success || !(f.pads == PadYes && EndsInSpace(data) && Whole(Squeezed(data), 0)))
            && (w.success ==> s.success)
  {
    assert data[..0] == [];
    WhiteFrom(f, data, 0);
    PlaceAtEnd(data);
  }

  /** The case, met: the text of "foo" with a space behind it. */
  lemma TrailingSpaceFails()
    ensures var data: seq<byte> := [90, 109, 57, 118, 32];
            && !DecodedAll(Flags(ParseWhite, PadYes, TermBuffer), data).success
            && DecodedAll(STRICT, data[..4]).success
            && DecodedAll(Flags(ParseWhite, PadAny, TermBuffer), data).success
  {
    var data: seq<byte>, text: seq<byte> := [90, 109, 57, 118, 32], [90, 109, 57, 118];
    FooIsText(text);
    SpaceGoes(text, data);
    WhiteIsStrictExactlyWhen(Flags(ParseWhite, PadYes, TermBuffer), data);
    WhiteIsStrictExactlyWhen(Flags(ParseWhite, PadAny, TermBuffer), data);
    assert data[..4] == text;
    hide DecodedAll, Squeezed;
  }

  lemma FooIsText(text: seq<byte>)
    requires text == [90, 109, 57, 118]
    ensures DecodedAll(STRICT, text).success && DecodedAll(STRICT.(pads := PadAny), text).success
    ensures forall i :: 0 <= i < 4 ==> SymbolOf(text[i]).Digit?
  {
    var foo: seq<byte> := [102, 111, 111];
    assert Encoded(foo) == text;
    assert text[0..] == text;
    hide Encoded, Next;
    EncodedDecodes(text, 0, foo);
    EndOnlyJudges(STRICT, STRICT.(pads := PadAny), text);
  }

  lemma SpaceGoes(text: seq<byte>, data: seq<byte>)
    requires |text| == 4 && data == text + [32] && forall i :: 0 <= i < 4 ==> SymbolOf(text[i]).Digit?
    ensures Squeezed(data) == text && EndsInSpace(data) && Whole(text, 0)
  {
    assert data[..4] == text;
    NothingGoes(text);
  }

  lemma {:induction false} NothingGoes(s: seq<byte>)
    requires forall i :: 0 <= i < |s| ==> !SymbolOf(s[i]).Space?
    ensures Squeezed(s) == s
  {
    if s != [] { NothingGoes(s[..|s| - 1]); }
  }

  // ------------------------------------------------------------------ padding

  const BANG: byte := 33

  /** The text with another, illegal character for every equals sign. */
  function Unpadded(data: seq<byte>): (r: seq<byte>)
    ensures |r| == |data| && forall i :: 0 <= i < |r| ==> r[i] == if data[i] == PAD then BANG else data[i]
  {
    seq(|data|, i requires 0 <= i < |data| => if data[i] == PAD then BANG else data[i])
  }

  lemma VerdictUnpadded(f: Flags, c: byte, digits: nat)
    requires f.pads == PadNo
    ensures VerdictOn(f, SymbolOf(c), digits, 0) == VerdictOn(f.(pads := PadAny), SymbolOf(if c == PAD then BANG else c), digits, 0)
    ensures !VerdictOn(f, SymbolOf(c), digits, 0).Count?
    ensures VerdictOn(f, SymbolOf(c), digits, 0).Take? ==> c != PAD
  {
  }

  lemma {:induction false} NextUnpadded(f: Flags, data: seq<byte>, pos: nat, digits: seq<sextet>)
    requires f.pads == PadNo && pos <= |data| && |digits| <= 4
    ensures Next(f, data, pos, digits, 0, 0) == Next(f.(pads := PadAny), Unpadded(data), pos, digits, 0, 0)
    decreases |data| - pos
  {
    hide Next, VerdictOn, SymbolOf;
    var g, d := f.(pads := PadAny), Unpadded(data);
    NextStep(f, data, pos, digits, 0, 0);
    NextStep(g, d, pos, digits, 0, 0);
    if |digits| < 4 && pos < |data| {
      VerdictUnpadded(f, data[pos], |digits|);
      match VerdictOn(f, SymbolOf(data[pos]), |digits|, 0)
      case Halt =>
      case Skip => NextUnpadded(f, data, pos + 1, digits);
      case Take => NextUnpadded(f, data, pos + 1, digits + [SymbolOf(data[pos]).v]);
    }
  }

  lemma {:induction false} UnpaddedFrom(f: Flags, data: seq<byte>, pos: nat)
    requires f.pads == PadNo && pos <= |data|
    ensures DecodedFrom(f, data, pos) == DecodedFrom(f.(pads := PadAny), Unpadded(data), pos)
    decreases |data| - pos
  {
    if pos < |data| {
      NextUnpadded(f, data, pos, []);
      hide Next;
      var q := Next(f, data, pos, [], 0, 0);
      if |q.digits| == 4 { UnpaddedFrom(f, data, q.pos); }
    }
  }

  /** To forbid padding is to take an equals sign for any other character that is
      not in the alphabet. */
  lemma NoPadsIsIllegal(f: Flags, data: seq<byte>)
    requires f.pads == PadNo
    ensures DecodedAll(f, data) == DecodedAll(f.(pads := PadAny), Unpadded(data))
  {
    UnpaddedFrom(f, data, 0);
  }

  // ------------------------------------------------------------------- the end

  lemma NextJudgesNot(f: Flags, g: Flags, data: seq<byte>, pos: nat, digits: seq<sextet>, pads: nat, padStart: nat)
    requires f.parse == g.parse && (f.pads == PadNo <==> g.pads == PadNo)
    requires pos <= |data| && |digits| <= 4 && padStart <= pos
    ensures Next(f, data, pos, digits, pads, padStart) == Next(g, data, pos, digits, pads, padStart)
    decreases |data| - pos
  {
  }

  lemma {:induction false} EndsFrom(f: Flags, g: Flags, data: seq<byte>, pos: nat)
    requires f.parse == g.parse && (f.pads == PadNo <==> g.pads == PadNo) && pos <= |data|
    ensures var a, b := DecodedFrom(f, data, pos), DecodedFrom(g, data, pos);
            && a.bytes == b.bytes && a.used == b.used
            && (a.success && (f.term != TermAny || g.term == TermAny) && (g.pads == PadYes ==> f.pads == PadYes) ==> b.success)
    decreases |data| - pos
  {
    if pos < |data| {
      NextJudgesNot(f, g, data, pos, [], 0, 0);
      hide Next;
      var q := Next(f, data, pos, [], 0, 0);
      if |q.digits| == 4 { EndsFrom(f, g, data, q.pos); }
    }
  }

  /** The flags for the end, and whether padding is asked for or only let through,
      change what counts as success, not what is decoded; the laxer flag accepts
      all that the stricter does; and to ask for the end of the buffer is to ask
      that all was used. */
  lemma EndOnlyJudges(f: Flags, g: Flags, data: seq<byte>)
    requires f.parse == g.parse && (f.pads == PadNo <==> g.pads == PadNo)
    ensures var a, b := DecodedAll(f, data), DecodedAll(g, data);
            && a.bytes == b.bytes && a.used == b.used
            && (f.term == TermBuffer && g == f.(term := TermChar) ==> (a.success <==> b.success && a.used == |data|))
            && (f.term == TermChar && g == f.(term := TermAny) ==> (a.success ==> b.success))
            && (f.pads == PadYes && g == f.(pads := PadAny) ==> (a.success ==> b.success))
  {
    EndsFrom(f, g, data, 0);
    EndsFrom(g, f, data, 0);
  }
}
