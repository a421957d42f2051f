/** Base64 (talk/base/base64.cc; sections 4 and 3.5 of RFC 4648): the encoder,
    the flag-driven decoder, and when each undoes the other. */
module Base64 {
  import opened Bytes

  type sextet = x: int | 0 <= x < 64

  const PAD: byte := 61

  /** What the decoder makes of one character. */
  datatype Symbol = Digit(v: sextet) | Padding | Space | Illegal

  /** Base64Table. */
  function Letter(v: sextet): byte
  {
    if v < 26 then 65 + v
    else if v < 52 then 97 + (v - 26)
    else if v < 62 then 48 + (v - 52)
    else if v == 62 then 43 else 47
  }

  /** DecodeTable. */
  function SymbolOf(c: byte): (s: Symbol)
    ensures s.Digit? ==> Letter(s.v) == c
  {
    if 65 <= c <= 90 then Digit(c - 65)
    else if 97 <= c <= 122 then Digit(c - 97 + 26)
    else if 48 <= c <= 57 then Digit(c - 48 + 52)
    else if c == 43 then Digit(62)
    else if c == 47 then Digit(63)
    else if c == PAD then Padding
    else if 9 <= c <= 13 || c == 32 then Space
    else Illegal
  }

  // ----------------------------------------------------------------- encoding

  /** One quantum: three bytes, or the last two or one with padding. */
  function Quantum(s: seq<byte>): (r: seq<byte>)
    requires 1 <= |s| <= 3
    ensures |r| == 4
  {
    if |s| == 1 then [Letter(s[0] / 4), Letter(s[0] % 4 * 16), PAD, PAD]
    else if |s| == 2 then [Letter(s[0] / 4), Letter(s[0] % 4 * 16 + s[1] / 16), Letter(s[1] % 16 * 4), PAD]
    else [Letter(s[0] / 4), Letter(s[0] % 4 * 16 + s[1] / 16), Letter(s[1] % 16 * 4 + s[2] / 64), Letter(s[2] % 64)]
  }

  function Encoded(s: seq<byte>): (r: seq<byte>)
    ensures |r| == (|s| + 2) / 3 * 4
  {
    if s == [] then []
    else if |s| <= 3 then Quantum(s)
    else Quantum(s[..3]) + Encoded(s[3..])
  }

  // ----------------------------------------------------------------- decoding

  datatype Parse = ParseStrict | ParseWhite | ParseAny
  datatype Pads = PadYes | PadAny | PadNo
  datatype Term = TermBuffer | TermChar | TermAny
  datatype Flags = Flags(parse: Parse, pads: Pads, term: Term)

  const STRICT := Flags(ParseStrict, PadYes, TermBuffer)
  const LAX := Flags(ParseAny, PadAny, TermChar)

  /** The digits of one quantum, where to go on, and whether it is padded. */
  datatype Scan = Scan(digits: seq<sextet>, pos: nat, padded: bool)

  function Close(digits: seq<sextet>, pads: nat, padStart: nat, pos: nat): Scan {
    if |digits| + pads == 4 then Scan(digits, pos, true)
    else Scan(digits, if pads > 0 then padStart else pos, false)
  }

  /** What becomes of one symbol: the quantum ends before it, it is passed over,
      counted as padding, or taken as a digit. */
  datatype Verdict = Halt | Skip | Count | Take

  function VerdictOn(f: Flags, s: Symbol, digits: nat, pads: nat): (r: Verdict)
    ensures r.Take? ==> s.Digit?
  {
    var lax := if f.parse == ParseAny then Skip else Halt;
    match s
    case Illegal => lax
    case Space => if f.parse == ParseStrict then Halt else Skip
    case Padding => if f.pads == PadNo || digits < 2 || digits + pads >= 4 then lax else Count
    case Digit(_) => if pads > 0 && f.parse != ParseAny then Halt else Take
  }

  /** GetNextQuantum from its loop on. */
  function Next(f: Flags, data: seq<byte>, pos: nat, digits: seq<sextet>, pads: nat, padStart: nat): (r: Scan)
    requires pos <= |data| && |digits| <= 4 && padStart <= pos
    ensures |r.digits| <= 4 && r.pos <= |data|
    ensures |r.digits| == 4 && |digits| + pads <= 4 && pads <= 2 ==> r.pos >= pos + 4 - |digits|
    decreases |data| - pos
  {
    if |digits| == 4 || pos >= |data| then Close(digits, pads, padStart, pos)
    else
      var s := SymbolOf(data[pos]);
      match VerdictOn(f, s, |digits|, pads)
      case Halt => Close(digits, pads, padStart, pos)
      case Skip => Next(f, data, pos + 1, digits, pads, padStart)
      case Count => Next(f, data, pos + 1, digits, pads + 1, if pads == 0 then pos else padStart)
      case Take => Next(f, data, pos + 1, digits + [s.v], 0, padStart)
  }

  function First(a: sextet, b: sextet): byte { (a as int) * 4 + (b as int) / 16 }
  function Second(b: sextet, c: sextet): byte { (b as int) % 16 * 16 + (c as int) / 4 }
  function Third(c: sextet, d: sextet): byte { (c as int) % 4 * 64 + (d as int) }

  /** The whole bytes of a quantum. */
  function WholeBytes(d: seq<sextet>): seq<byte> {
    if |d| < 2 then []
    else if |d| == 2 then [First(d[0], d[1])]
    else if |d| == 3 then [First(d[0], d[1]), Second(d[1], d[2])]
    else [First(d[0], d[1]), Second(d[1], d[2]), Third(d[2], d[3])]
  }

  /** The bits of a quantum that make no whole byte. */
  function Rest(d: seq<sextet>): byte {
    if |d| == 1 then First(d[0], 0)
    else if |d| == 2 then Second(d[1], 0)
    else if |d| == 3 then Third(d[2], 0)
    else 0
  }

  datatype Decoded = Decoded(success: bool, bytes: seq<byte>, used: nat)

  function DecodedFrom(f: Flags, data: seq<byte>, pos: nat): (r: Decoded)
    requires pos <= |data|
    decreases |data| - pos
  {
    if pos == |data| then Decoded(true, [], pos)
    else
      var q := Next(f, data, pos, [], 0, 0);
      if |q.digits| == 4 then
        var r := DecodedFrom(f, data, q.pos);
        Prepended(WholeBytes(q.digits), r)
      else
        Decoded((f.term == TermAny || Rest(q.digits) == 0) && (f.pads == PadYes ==> q.padded), WholeBytes(q.digits), q.pos)
  }

  function DecodedAll(f: Flags, data: seq<byte>): Decoded {
    var r := DecodedFrom(f, data, 0);
    r.(success := r.success && (f.term == TermBuffer ==> r.used == |data|))
  }

  lemma Assoc<T>(a: seq<T>, b: seq<T>, c: seq<T>)
    ensures (a + b) + c == a + (b + c)
  {
  }

  // ------------------------------------------------- strict decoding inverts

  lemma LetterIsDigit(v: sextet)
    ensures SymbolOf(Letter(v)) == Digit(v)
  {
  }

  predicate Digits(data: seq<byte>, pos: nat, n: nat) {
    pos + n <= |data| && forall i :: pos <= i < pos + n ==> SymbolOf(data[i]).Digit?
  }

  function Values(data: seq<byte>, pos: nat, n: nat): (r: seq<sextet>)
    requires Digits(data, pos, n)
    ensures |r| == n
  {
    seq(n, i requires 0 <= i < n => SymbolOf(data[pos + i]).v)
  }

  /** Digits in a row are taken one by one, up to four. */
  lemma {:induction false} NextTakes(f: Flags, data: seq<byte>, pos: nat, digits: seq<sextet>, n: nat)
    requires Digits(data, pos, n) && |digits| + n <= 4
    ensures Next(f, data, pos, digits, 0, 0) == Next(f, data, pos + n, digits + Values(data, pos, n), 0, 0)
    decreases n
  {
    if n == 0 {
      assert digits + Values(data, pos, 0) == digits;
    } else {
      var v := SymbolOf(data[pos]).v;
      NextTakes(f, data, pos + 1, digits + [v], n - 1);
      assert Values(data, pos, n) == [v] + Values(data, pos + 1, n - 1);
      Assoc(digits, [v], Values(data, pos + 1, n - 1));
    }
  }

  lemma StrictStops(data: seq<byte>, pos: nat, digits: seq<sextet>, pads: nat, padStart: nat)
    requires padStart <= pos <= |data| && |digits| < 4 && pads > 0
    requires |digits| + pads == 4 || pos == |data| || data[pos] != PAD
    ensures Next(STRICT, data, pos, digits, pads, padStart) == Close(digits, pads, padStart, pos)
  {
  }

  /** After two or three digits: only the padding that makes four counts. */
  lemma StrictPads(data: seq<byte>, pos: nat, digits: seq<sextet>)
    requires pos <= |data| && 2 <= |digits| < 4 && (pos < |data| ==> !SymbolOf(data[pos]).Digit?)
    ensures var q, n := Next(STRICT, data, pos, digits, 0, 0), 4 - |digits|;
            && q.digits == digits
            && (q.padded <==> pos + n <= |data| && forall i :: pos <= i < pos + n ==> data[i] == PAD)
            && (q.padded ==> q.pos == pos + n)
  {
    hide Next;
    NextStep(STRICT, data, pos, digits, 0, 0);
    if pos < |data| && data[pos] == PAD {
      NextStep(STRICT, data, pos + 1, digits, 1, pos);
      if |digits| == 2 && pos + 1 < |data| && data[pos + 1] == PAD {
        StrictStops(data, pos + 2, digits, 2, pos);
      } else {
        StrictStops(data, pos + 1, digits, 1, pos);
      }
    }
  }

  /** What GetNextQuantum finds in the strict mode: k digits, then perhaps the
      padding that makes four. */
  lemma StrictQuantum(data: seq<byte>, pos: nat, k: nat)
    requires Digits(data, pos, k) && k <= 4
    requires k < 4 && pos + k < |data| ==> !SymbolOf(data[pos + k]).Digit?
    ensures var q := Next(STRICT, data, pos, [], 0, 0);
            && q.digits == Values(data, pos, k)
            && (q.padded <==> k == 4 || (2 <= k < 4 <= |data| - pos && forall i :: pos + k <= i < pos + 4 ==> data[i] == PAD))
            && (q.padded ==> q.pos == pos + 4)
  {
    NextTakes(STRICT, data, pos, [], k);
    assert [] + Values(data, pos, k) == Values(data, pos, k);
    if 2 <= k < 4 {
      StrictPads(data, pos + k, Values(data, pos, k));
    }
  }

  /** How many digits come next, at most four. */
  function Run(data: seq<byte>, pos: nat, k: nat): (r: nat)
    requires Digits(data, pos, k) && k <= 4
    ensures k <= r <= 4 && Digits(data, pos, r)
    ensures r < 4 && pos + r < |data| ==> !SymbolOf(data[pos + r]).Digit?
    decreases 4 - k
  {
    if k == 4 || pos + k >= |data| || !SymbolOf(data[pos + k]).Digit? then k else Run(data, pos, k + 1)
  }

  /** The letters of the digits of a quantum, padded. */
  function Spelled(d: seq<sextet>): seq<byte>
    requires 2 <= |d| <= 4
  {
    [Letter(d[0]), Letter(d[1]), if |d| > 2 then Letter(d[2]) else PAD, if |d| > 3 then Letter(d[3]) else PAD]
  }

  /** A quantum without unused bits is the one that its bytes have. */
  lemma QuantumOfBytes(d: seq<sextet>)
    requires 2 <= |d| <= 4 && Rest(d) == 0
    ensures Quantum(WholeBytes(d)) == Spelled(d)
  {
    SplitByte(d[0], d[1]);
    if |d| == 2 {
      assert Quantum(WholeBytes(d)) == Spelled(d);
    } else if |d| == 3 {
      SplitMiddle(d[1], d[2]);
      assert Quantum(WholeBytes(d)) == Spelled(d);
    } else {
      SplitMiddle(d[1], d[2]);
      SplitLast(d[2], d[3]);
    }
  }

  lemma SplitLast(c: sextet, d: sextet)
    ensures (c as int) / 4 * 4 + Third(c, d) / 64 == c && Third(c, d) % 64 == d
  {
  }

  lemma SplitByte(a: sextet, b: sextet)
    ensures First(a, b) / 4 == a && First(a, b) % 4 * 16 == (b as int) / 16 * 16
  {
  }

  lemma SplitMiddle(b: sextet, c: sextet)
    ensures (b as int) / 16 * 16 + Second(b, c) / 16 == b && Second(b, c) % 16 * 4 == (c as int) / 4 * 4
  {
  }

  function DigitsOf(s: seq<byte>): (d: seq<sextet>)
    requires 1 <= |s| <= 3
    ensures |d| == |s| + 1
  {
    if |s| == 1 then [s[0] / 4, s[0] % 4 * 16]
    else if |s| == 2 then [s[0] / 4, s[0] % 4 * 16 + s[1] / 16, s[1] % 16 * 4]
    else [s[0] / 4, s[0] % 4 * 16 + s[1] / 16, s[1] % 16 * 4 + s[2] / 64, s[2] % 64]
  }

  lemma BytesOfQuantum(s: seq<byte>)
    requires 1 <= |s| <= 3
    ensures var d := DigitsOf(s); WholeBytes(d) == s && Rest(d) == 0 && Quantum(s) == Spelled(d)
  {
    var d := DigitsOf(s);
    QuantumSpelled(s);
    BytesOf(d);
    RestOf(d);
    hide Quantum, Spelled, WholeBytes, Rest;
    JoinFirst(s[0], if |s| > 1 then s[1] / 16 else 0);
    if |s| > 1 { JoinSecond(s[0] % 4, s[1], if |s| > 2 then s[2] / 64 else 0); }
    if |s| > 2 { JoinThird(s[1] % 16, s[2]); }
    Same(WholeBytes(d), s);
  }

  lemma Same(r: seq<byte>, s: seq<byte>)
    requires |r| == |s| <= 3
    requires (|s| > 0 ==> r[0] == s[0]) && (|s| > 1 ==> r[1] == s[1]) && (|s| > 2 ==> r[2] == s[2])
    ensures r == s
  {
  }

  lemma RestOf(d: seq<sextet>)
    requires 2 <= |d| <= 4
    ensures Rest(d) == if |d| == 2 then Second(d[1], 0) else if |d| == 3 then Third(d[2], 0) else 0
  {
  }

  lemma BytesOf(d: seq<sextet>)
    requires 2 <= |d| <= 4
    ensures |WholeBytes(d)| == |d| - 1 && WholeBytes(d)[0] == First(d[0], d[1])
    ensures |d| > 2 ==> WholeBytes(d)[1] == Second(d[1], d[2])
    ensures |d| > 3 ==> WholeBytes(d)[2] == Third(d[2], d[3])
  {
  }

  lemma JoinFirst(a: byte, x: int)
    requires 0 <= x < 16
    ensures First(a / 4, a % 4 * 16 + x) == a && Second(a % 4 * 16, 0) == 0
  {
  }

  lemma JoinSecond(y: int, b: byte, x: int)
    requires 0 <= y < 4 && 0 <= x < 4
    ensures Second(y * 16 + b / 16, b % 16 * 4 + x) == b && Third(b % 16 * 4, 0) == 0
  {
    Parted(y, b / 16, 16);
    Parted(b % 16, x, 4);
    Parted(b % 16, 0, 4);
  }

  lemma Parted(q: int, r: int, n: int)
    requires 0 <= r < n && n in {4, 16}
    ensures (q * n + r) % n == r && (q * n + r) / n == q
  {
    if n == 4 {
      assert (q * 4 + r) / 4 == q;
    } else {
      assert (q * 16 + r) / 16 == q;
    }
  }

  lemma JoinThird(y: int, c: byte)
    requires 0 <= y < 16
    ensures Third(y * 4 + c / 64, c % 64) == c
  {
  }

  lemma QuantumSpelled(s: seq<byte>)
    requires 1 <= |s| <= 3
    ensures Quantum(s) == Spelled(DigitsOf(s))
  {
    hide Letter;
  }

  lemma EncodedFront(a: seq<byte>, b: seq<byte>)
    requires |a| == 3
    ensures Encoded(a + b) == Quantum(a) + Encoded(b)
  {
    if b == [] {
      assert a + b == a;
    } else {
      assert (a + b)[..3] == a && (a + b)[3..] == b;
    }
  }

  /** The decoder reads back a quantum. */
  lemma QuantumRead(data: seq<byte>, pos: nat, s: seq<byte>)
    requires 1 <= |s| <= 3 && pos + 4 <= |data| && data[pos..pos + 4] == Quantum(s)
    ensures Next(STRICT, data, pos, [], 0, 0) == Scan(DigitsOf(s), pos + 4, true)
  {
    var d := DigitsOf(s);
    var k := |d|;
    BytesOfQuantum(s);
    forall i | 0 <= i < k
      ensures SymbolOf(data[pos + i]) == Digit(d[i])
    {
      LetterIsDigit(d[i]);
      assert data[pos + i] == data[pos..pos + 4][i];
    }
    forall i | pos + k <= i < pos + 4
      ensures data[i] == PAD
    {
      assert data[i] == data[pos..pos + 4][i - pos];
    }
    StrictQuantum(data, pos, k);
    assert Values(data, pos, k) == d;
  }

  /** Strict decoding of an encoding gives the data back and uses it all. */
  lemma {:induction false} EncodedDecodes(data: seq<byte>, pos: nat, s: seq<byte>)
    requires pos <= |data| && data[pos..] == Encoded(s)
    ensures DecodedFrom(STRICT, data, pos) == Decoded(true, s, |data|)
    decreases |s|
  {
    if s != [] {
      var head := if |s| <= 3 then s else s[..3];
      assert data[pos..pos + 4] == data[pos..][..4] == Quantum(head);
      QuantumRead(data, pos, head);
      BytesOfQuantum(head);
      if |s| >= 3 {
        assert head + s[3..] == s;
        EncodedFront(head, s[3..]);
        assert data[pos + 4..] == data[pos..][4..] == Encoded(s[3..]);
        EncodedDecodes(data, pos + 4, s[3..]);
      } else {
        assert |data| == pos + 4;
      }
    }
  }

  /** A padded quantum is its digits, spelled. */
  lemma QuantumWritten(data: seq<byte>, pos: nat)
    requires pos <= |data|
    requires var q := Next(STRICT, data, pos, [], 0, 0); q.padded || |q.digits| == 4
    ensures var q := Next(STRICT, data, pos, [], 0, 0);
            2 <= |q.digits| <= 4 && q.pos == pos + 4 <= |data| && data[pos..pos + 4] == Spelled(q.digits)
  {
    var k := Run(data, pos, 0);
    StrictQuantum(data, pos, k);
    hide Next, Run;
    SpelledHere(data, pos, k);
  }

  lemma SpelledHere(data: seq<byte>, pos: nat, k: nat)
    requires Digits(data, pos, k) && 2 <= k <= 4 && pos + 4 <= |data|
    requires forall i :: pos + k <= i < pos + 4 ==> data[i] == PAD
    ensures data[pos..pos + 4] == Spelled(Values(data, pos, k))
  {
    hide SymbolOf;
    var here, d := data[pos..pos + 4], Values(data, pos, k);
    forall i | 0 <= i < 4
      ensures here[i] == if i < k then Letter(d[i]) else PAD
    {
      assert here[i] == data[pos + i];
    }
  }

  /** What strict decoding accepts is the encoding of what it returns. */
  lemma {:induction false} DecodedEncodes(data: seq<byte>, pos: nat)
    requires pos <= |data|
    requires var r := DecodedFrom(STRICT, data, pos); r.success && r.used == |data|
    ensures data[pos..] == Encoded(DecodedFrom(STRICT, data, pos).bytes)
    decreases |data| - pos
  {
    if pos < |data| {
      var d := Next(STRICT, data, pos, [], 0, 0).digits;
      QuantumWritten(data, pos);
      QuantumOfBytes(d);
      if |d| == 4 {
        DecodedEncodes(data, pos + 4);
        EncodedFront(WholeBytes(d), DecodedFrom(STRICT, data, pos + 4).bytes);
        assert data[pos..] == data[pos..pos + 4] + data[pos + 4..];
      } else {
        assert data[pos..pos + 4] == data[pos..];
      }
    }
  }

  /** Strict decoding succeeds exactly on the outputs of the encoder. */
  lemma StrictInverts(data: seq<byte>)
    ensures var r := DecodedAll(STRICT, data);
            && (r.success ==> Encoded(r.bytes) == data && r.used == |data|)
            && (!r.success ==> forall s :: Encoded(s) != data)
    ensures forall s :: Encoded(s) == data ==> DecodedAll(STRICT, data) == Decoded(true, s, |data|)
  {
    assert data[0..] == data;
    forall s | Encoded(s) == data
      ensures DecodedAll(STRICT, data) == Decoded(true, s, |data|)
    {
      EncodedDecodes(data, 0, s);
    }
    if DecodedAll(STRICT, data).success {
      DecodedEncodes(data, 0);
    }
  }

  // ------------------------------------------------- decoding anything at all

  /** The digits of the text from pos on, whatever stands between them. */
  function Alphabet(data: seq<byte>, pos: nat): seq<sextet>
    requires pos <= |data|
    decreases |data| - pos
  {
    if pos == |data| then []
    else (match SymbolOf(data[pos]) case Digit(v) => [v] case _ => []) + Alphabet(data, pos + 1)
  }

  /** Decoding of nothing but digits, four at a time. */
  function Plain(d: seq<sextet>): seq<byte> {
    if |d| < 4 then WholeBytes(d) else WholeBytes(d[..4]) + Plain(d[4..])
  }

  function Tail(d: seq<sextet>): (r: seq<sextet>)
    ensures |r| < 4
  {
    if |d| < 4 then d else Tail(d[4..])
  }

  /** One character: a digit is taken, anything else only moves on. */
  lemma AnyStep(f: Flags, data: seq<byte>, pos: nat, digits: seq<sextet>, pads: nat, padStart: nat)
    returns (pads': nat, padStart': nat)
    requires f.parse == ParseAny && padStart <= pos < |data| && |digits| < 4
    ensures var s := SymbolOf(data[pos]);
            var digits' := if s.Digit? then digits + [s.v] else digits;
            && padStart' <= pos + 1 && (s.Digit? ==> pads' == 0)
            && Next(f, data, pos, digits, pads, padStart) == Next(f, data, pos + 1, digits', pads', padStart')
  {
    match SymbolOf(data[pos])
    case Digit(_) => pads', padStart' := 0, padStart;
    case Padding =>
      if f.pads == PadNo || |digits| < 2 || |digits| + pads >= 4 {
        pads', padStart' := pads, padStart;
      } else {
        pads', padStart' := pads + 1, if pads == 0 then pos else padStart;
      }
    case _ => pads', padStart' := pads, padStart;
  }

  /** The quantum q takes the first four digits and leaves the rest. */
  predicate Takes(q: Scan, data: seq<byte>, all: seq<sextet>) {
    if |all| >= 4 then q.digits == all[..4] && q.pos <= |data| && Alphabet(data, q.pos) == all[4..]
    else q.digits == all
  }

  lemma AnyEnd(f: Flags, data: seq<byte>, pos: nat, digits: seq<sextet>, pads: nat, padStart: nat)
    requires padStart <= pos <= |data| && if |digits| == 4 then pads == 0 else |digits| < 4 && pos == |data|
    ensures Takes(Next(f, data, pos, digits, pads, padStart), data, digits + Alphabet(data, pos))
  {
    assert Next(f, data, pos, digits, pads, padStart) == Close(digits, pads, padStart, pos);
    hide Next;
    assert (digits + Alphabet(data, pos))[|digits|..] == Alphabet(data, pos);
  }

  lemma {:induction false} AnyQuantum(f: Flags, data: seq<byte>, pos: nat, digits: seq<sextet>, pads: nat, padStart: nat)
    requires f.parse == ParseAny && padStart <= pos <= |data| && |digits| <= 4 && (|digits| == 4 ==> pads == 0)
    ensures Takes(Next(f, data, pos, digits, pads, padStart), data, digits + Alphabet(data, pos))
    decreases |data| - pos
  {
    hide *;
    if |digits| == 4 || pos == |data| {
      AnyEnd(f, data, pos, digits, pads, padStart);
    } else {
      var s := SymbolOf(data[pos]);
      var digits' := if s.Digit? then digits + [s.v] else digits;
      var pads', padStart' := AnyStep(f, data, pos, digits, pads, padStart);
      AnyQuantum(f, data, pos + 1, digits', pads', padStart');
      AlphabetStep(data, pos);
      assert digits + Alphabet(data, pos) == digits' + Alphabet(data, pos + 1);
    }
  }

  lemma AlphabetStep(data: seq<byte>, pos: nat)
    requires pos < |data|
    ensures var s := SymbolOf(data[pos]);
            Alphabet(data, pos) == (if s.Digit? then [s.v] else []) + Alphabet(data, pos + 1)
  {
  }

  /** When every character is let through, what is decoded depends on the
      digits alone. */
  lemma {:induction false} AnyDecodesAlphabet(f: Flags, data: seq<byte>, pos: nat)
    requires f.parse == ParseAny && pos <= |data|
    ensures var r, d := DecodedFrom(f, data, pos), Alphabet(data, pos);
            && r.bytes == Plain(d)
            && (f.pads != PadYes ==> (r.success <==> f.term == TermAny || Rest(Tail(d)) == 0))
    decreases |data| - pos
  {
    if pos < |data| {
      AnyQuantum(f, data, pos, [], 0, 0);
      var q := Next(f, data, pos, [], 0, 0);
      assert [] + Alphabet(data, pos) == Alphabet(data, pos);
      if |q.digits| == 4 {
        AnyDecodesAlphabet(f, data, q.pos);
      }
    }
  }

  /** Two texts with the same digits decode to the same bytes, whatever else
      they hold. */
  lemma SameDigitsSameBytes(f: Flags, a: seq<byte>, b: seq<byte>)
    requires f.parse == ParseAny && Alphabet(a, 0) == Alphabet(b, 0)
    ensures DecodedAll(f, a).bytes == DecodedAll(f, b).bytes
    ensures f.pads != PadYes && f.term != TermBuffer ==> DecodedAll(f, a).success == DecodedAll(f, b).success
  {
    AnyDecodesAlphabet(f, a, 0);
    AnyDecodesAlphabet(f, b, 0);
  }

  lemma {:induction false} AlphabetRun(data: seq<byte>, pos: nat, d: seq<sextet>, end: nat)
    requires pos + |d| <= end <= |data|
    requires forall i :: pos <= i < end ==> SymbolOf(data[i]) == if i < pos + |d| then Digit(d[i - pos]) else Padding
    ensures Alphabet(data, pos) == d + Alphabet(data, end)
    decreases end - pos
  {
    if pos < end {
      AlphabetStep(data, pos);
      if d == [] {
        AlphabetRun(data, pos + 1, d, end);
      } else {
        AlphabetRun(data, pos + 1, d[1..], end);
        assert d == [d[0]] + d[1..];
        Assoc([d[0]], d[1..], Alphabet(data, end));
      }
    }
  }

  lemma QuantumAlphabet(data: seq<byte>, pos: nat, s: seq<byte>)
    requires 1 <= |s| <= 3 && pos + 4 <= |data| && data[pos..pos + 4] == Quantum(s)
    ensures Alphabet(data, pos) == DigitsOf(s) + Alphabet(data, pos + 4)
  {
    var d := DigitsOf(s);
    BytesOfQuantum(s);
    forall i | pos <= i < pos + 4
      ensures SymbolOf(data[i]) == if i < pos + |d| then Digit(d[i - pos]) else Padding
    {
      assert data[i] == data[pos..pos + 4][i - pos];
      if i < pos + |d| { LetterIsDigit(d[i - pos]); }
    }
    AlphabetRun(data, pos, d, pos + 4);
  }

  lemma {:induction false} EncodedAlphabet(data: seq<byte>, pos: nat, s: seq<byte>)
    requires pos <= |data| && data[pos..] == Encoded(s)
    ensures Plain(Alphabet(data, pos)) == s && Rest(Tail(Alphabet(data, pos))) == 0
    decreases |s|
  {
    if s != [] {
      var head := if |s| <= 3 then s else s[..3];
      assert data[pos..pos + 4] == data[pos..][..4] == Quantum(head);
      QuantumAlphabet(data, pos, head);
      BytesOfQuantum(head);
      var rest := Alphabet(data, pos + 4);
      if |s| >= 3 {
        assert head + s[3..] == s;
        EncodedFront(head, s[3..]);
        assert data[pos + 4..] == data[pos..][4..] == Encoded(s[3..]);
        EncodedAlphabet(data, pos + 4, s[3..]);
        assert (DigitsOf(head) + rest)[..4] == DigitsOf(head) && (DigitsOf(head) + rest)[4..] == rest;
      } else {
        assert rest == [];
      }
    }
  }

  /** Lax decoding reads an encoding back through any line breaks and noise. */
  lemma LaxReadsThroughNoise(s: seq<byte>, data: seq<byte>)
    requires Alphabet(data, 0) == Alphabet(Encoded(s), 0)
    ensures DecodedAll(LAX, data).success && DecodedAll(LAX, data).bytes == s
  {
    assert Encoded(s)[0..] == Encoded(s);
    EncodedAlphabet(Encoded(s), 0, s);
    AnyDecodesAlphabet(LAX, data, 0);
  }

  // ------------------------------------------------------------- the methods

  /** EncodeFromArray: fills a buffer of the size computed beforehand. */
  method EncodeFromArray(data: array<byte>) returns (result: array<byte>)
    ensures fresh(result) && result[..] == Encoded(data[..])
  {
    hide Quantum;
    result := new byte[(data.Length + 2) / 3 * 4](_ => 0);
    var i, dest := 0, 0;
    ghost var enc := Encoded(data[..]);
    ghost var done: seq<byte>, rest := [], data[..];
    while i < data.Length
      invariant i <= data.Length && rest == data[i..] && dest <= result.Length
      invariant result[..dest] == done && done + Encoded(rest) == enc
    {
      hide *;
      ghost var n := if 3 <= |rest| then 3 else |rest|;
      EncodeStep(enc, done, rest, n);
      SplitAt(data[..], i, n);
      assert |done| + |Encoded(rest)| == result.Length && |Encoded(rest)| >= 4;
      ghost var head := rest[..n];
      i := EncodeQuantum(data, i, result, dest);
      assert data[i - n..i] == head;
      Joined(result[..dest + 4], done, Quantum(head));
      done, rest := done + Quantum(head), rest[n..];
      dest := dest + 4;
    }
    assert rest == [] && result[..dest] == result[..];
  }

  lemma SplitAt(s: seq<byte>, i: nat, n: nat)
    requires i + n <= |s|
    ensures s[i..][..n] == s[i..i + n] && s[i..][n..] == s[i + n..]
  {
  }

  lemma Joined(s: seq<byte>, a: seq<byte>, b: seq<byte>)
    requires |s| == |a| + |b| && s[..|a|] == a && s[|a|..] == b
    ensures s == a + b
  {
  }

  lemma EncodeStep(enc: seq<byte>, done: seq<byte>, rest: seq<byte>, n: nat)
    requires rest != [] && n == (if 3 <= |rest| then 3 else |rest|)
    requires done + Encoded(rest) == enc
    ensures (done + Quantum(rest[..n])) + Encoded(rest[n..]) == enc
  {
    EncodedHead(rest);
    Assoc(done, Quantum(rest[..n]), Encoded(rest[n..]));
  }

  /** The body of its loop, for the bytes from start on. */
  method EncodeQuantum(data: array<byte>, start: nat, result: array<byte>, dest: nat) returns (i: nat)
    requires start < data.Length && dest + 4 <= result.Length && data != result
    modifies result
    ensures i == if start + 3 <= data.Length then start + 3 else data.Length
    ensures result[..dest] == old(result[..dest]) && result[dest..dest + 4] == Quantum(data[start..i])
  {
    i := start;
    result[dest] := Letter(data[i] / 4);
    var c: int := data[i] % 4 * 16;
    i := i + 1;
    if i < data.Length { c := c + data[i] / 16; }
    result[dest + 1] := Letter(c);
    if i < data.Length {
      c := data[i] % 16 * 4;
      i := i + 1;
      if i < data.Length { c := c + data[i] / 64; }
      result[dest + 2] := Letter(c);
    } else {
      result[dest + 2] := PAD;
    }
    if i < data.Length {
      result[dest + 3] := Letter(data[i] % 64);
      i := i + 1;
    } else {
      result[dest + 3] := PAD;
    }
    hide Letter;
    ghost var s := data[start..i];
    assert forall k :: 0 <= k < |s| ==> s[k] == data[start + k];
    assert result[dest..dest + 4] == [result[dest], result[dest + 1], result[dest + 2], result[dest + 3]];
  }

  lemma EncodedShort(s: seq<byte>)
    requires 1 <= |s| <= 3
    ensures Encoded(s) == Quantum(s) && Encoded([]) == []
  {
    hide Quantum;
  }

  lemma EncodedHead(s: seq<byte>)
    requires s != []
    ensures var n := if 3 <= |s| then 3 else |s|;
            Encoded(s) == Quantum(s[..n]) + Encoded(s[n..])
  {
    hide *;
    if |s| >= 3 {
      EncodedFront(s[..3], s[3..]);
      assert s == s[..3] + s[3..];
    } else {
      EncodedShort(s);
      assert s[..|s|] == s && s[|s|..] == [];
    }
  }

  lemma NextStep(f: Flags, data: seq<byte>, pos: nat, digits: seq<sextet>, pads: nat, padStart: nat)
    requires pos <= |data| && |digits| <= 4 && padStart <= pos
    ensures Next(f, data, pos, digits, pads, padStart) ==
      if |digits| == 4 || pos == |data| then Close(digits, pads, padStart, pos)
      else match VerdictOn(f, SymbolOf(data[pos]), |digits|, pads)
        case Halt => Close(digits, pads, padStart, pos)
        case Skip => Next(f, data, pos + 1, digits, pads, padStart)
        case Count => Next(f, data, pos + 1, digits, pads + 1, if pads == 0 then pos else padStart)
        case Take => Next(f, data, pos + 1, digits + [SymbolOf(data[pos]).v], 0, padStart)
  {
  }

  /** The tests in the body of its loop. */
  method Judge(f: Flags, s: Symbol, qlen: nat, pads: nat) returns (v: Verdict)
    ensures v == VerdictOn(f, s, qlen, pads)
  {
    v := Skip;
    if s.Illegal? || (f.pads == PadNo && s.Padding?) {
      if f.parse != ParseAny { return Halt; }
    } else if s.Space? {
      if f.parse == ParseStrict { return Halt; }
    } else if s.Padding? {
      if qlen < 2 || qlen + pads >= 4 {
        if f.parse != ParseAny { return Halt; }
      } else {
        return Count;
      }
    } else {
      if pads > 0 && f.parse != ParseAny { return Halt; }
      return Take;
    }
  }

  /** GetNextQuantum: the digits are put into the buffer of the caller. */
  method GetNextQuantum(f: Flags, data: array<byte>, start: nat, qbuf: array<int>)
    returns (qlen: nat, pos: nat, padded: bool)
    requires start <= data.Length && qbuf.Length == 4
    modifies qbuf
    ensures qlen <= 4 && start <= pos <= data.Length
    ensures forall i :: 0 <= i < 4 ==> 0 <= qbuf[i] < 64 && (i >= qlen ==> qbuf[i] == 0)
    ensures Scan(Sextets(qbuf[..qlen]), pos, padded) == Next(f, data[..], start, [], 0, 0)
  {
    hide Next, VerdictOn, SymbolOf;
    qlen, pos := 0, start;
    var pads, padStart := 0, 0;
    while qlen < 4 && pos < data.Length
      invariant qlen <= 4 && padStart <= pos && start <= pos <= data.Length && (pads > 0 ==> start <= padStart)
      invariant InRange(qbuf[..qlen])
      invariant Next(f, data[..], start, [], 0, 0) == Next(f, data[..], pos, Sextets(qbuf[..qlen]), pads, padStart)
      decreases data.Length - pos
    {
      var s := SymbolOf(data[pos]);
      ghost var before := Sextets(qbuf[..qlen]);
      NextStep(f, data[..], pos, before, pads, padStart);
      var verdict := Judge(f, s, qlen, pads);
      if verdict == Halt { break; }
      if verdict == Count {
        pads := pads + 1;
        if pads == 1 { padStart := pos; }
      } else if verdict == Take {
        pads := 0;
        qbuf[qlen] := s.v;
        qlen := qlen + 1;
        assert Sextets(qbuf[..qlen]) == before + [s.v];
      }
      pos := pos + 1;
    }
    ghost var digits := qbuf[..qlen];
    NextStep(f, data[..], pos, Sextets(digits), pads, padStart);
    ZeroFrom(qbuf, qlen);
    padded := qlen + pads == 4;
    if !padded && pads > 0 {
      pos := padStart;
    }
    assert forall i :: 0 <= i < qlen ==> qbuf[i] == digits[i];
  }

  /** The rest of the buffer is zeroed. */
  method ZeroFrom(qbuf: array<int>, qlen: nat)
    requires qlen <= 4 == qbuf.Length
    modifies qbuf
    ensures qbuf[..qlen] == old(qbuf[..qlen]) && forall i :: qlen <= i < 4 ==> qbuf[i] == 0
  {
    for i := qlen to 4
      invariant qbuf[..qlen] == old(qbuf[..qlen])
      invariant forall j :: qlen <= j < i ==> qbuf[j] == 0
    {
      qbuf[i] := 0;
    }
  }

  predicate InRange(s: seq<int>) {
    forall i :: 0 <= i < |s| ==> 0 <= s[i] < 64
  }

  function Sextets(s: seq<int>): (r: seq<sextet>)
    requires InRange(s)
    ensures |r| == |s|
  {
    seq(|s|, i requires 0 <= i < |s| => s[i])
  }

  /** DecodeFromArrayTemplate. */
  method DecodeFromArray(f: Flags, data: array<byte>) returns (success: bool, result: seq<byte>, used: nat)
    ensures Decoded(success, result, used) == DecodedAll(f, data[..])
  {
    var pos := 0;
    var qbuf := new int[4](_ => 0);
    success, result := true, [];
    while pos < data.Length
      invariant pos <= data.Length && success
      invariant DecodedFrom(f, data[..], 0) == Prepended(result, DecodedFrom(f, data[..], pos))
      decreases data.Length - pos
    {
      ghost var so := result;
      var qlen, padded;
      qlen, pos, padded := GetNextQuantum(f, data, pos, qbuf);
      ghost var digits := Sextets(qbuf[..qlen]);
      var c;
      result, c := PushBytes(qbuf, qlen, result);
      if qlen < 4 {
        if f.term != TermAny && c != 0 { success := false; }
        if f.pads == PadYes && !padded { success := false; }
        break;
      }
      PrependedTwice(so, WholeBytes(digits), DecodedFrom(f, data[..], pos));
    }
    if f.term == TermBuffer && pos != data.Length {
      success := false;
    }
    used := pos;
  }

  /** The bytes of a quantum, and the bits that are left over. */
  method PushBytes(qbuf: array<int>, qlen: nat, so: seq<byte>) returns (result: seq<byte>, c: byte)
    requires qbuf.Length == 4 && qlen <= 4
    requires forall i :: 0 <= i < 4 ==> 0 <= qbuf[i] < 64 && (i >= qlen ==> qbuf[i] == 0)
    ensures result == so + WholeBytes(Sextets(qbuf[..qlen])) && c == Rest(Sextets(qbuf[..qlen]))
  {
    result := so;
    c := qbuf[0] * 4 + qbuf[1] / 16;
    if qlen >= 2 {
      result := result + [c];
      c := qbuf[1] % 16 * 16 + qbuf[2] / 4;
      if qlen >= 3 {
        result := result + [c];
        c := qbuf[2] % 4 * 64 + qbuf[3];
        if qlen >= 4 {
          result := result + [c];
          c := 0;
        }
      }
    }
  }

  function Prepended(s: seq<byte>, r: Decoded): Decoded {
    r.(bytes := s + r.bytes)
  }

  lemma PrependedTwice(a: seq<byte>, b: seq<byte>, r: Decoded)
    ensures Prepended(a, Prepended(b, r)) == Prepended(a + b, r)
  {
    assert a + (b + r.bytes) == a + b + r.bytes;
  }
}
