/** The encoders and decoders of talk/base/stringencode.cc over caller's
    buffers. A decoder may be given one array for both ends: its contract speaks
    of what the source held before. */
module StringEncode {
  import opened Bytes
  import opened TextCodec
  import opened HtmlCodec

  /** The first buflen bytes got out and a zero after it; nothing if there are
      none. */
  predicate Wrote(before: seq<byte>, after: seq<byte>, buflen: nat, out: seq<byte>, n: nat) {
    && n == |out| && |after| == |before|
    && if buflen == 0 then after == before && n == 0
       else n < |after| && after[..n] == out && after[n] == 0 &&
            forall i :: n < i < |after| && buflen <= i ==> after[i] == before[i]
  }

  /** memcpy, from a constant. */
  method Put(buffer: array<byte>, pos: nat, s: seq<byte>)
    requires pos + |s| <= buffer.Length
    modifies buffer
    ensures buffer[..pos + |s|] == old(buffer[..pos]) + s
    ensures forall i :: pos + |s| <= i < buffer.Length ==> buffer[i] == old(buffer[i])
  {
    for k := 0 to |s|
      invariant buffer[..pos + k] == old(buffer[..pos]) + s[..k]
      invariant forall i :: pos + k <= i < buffer.Length ==> buffer[i] == old(buffer[i])
    {
      buffer[pos + k] := s[k];
      assert buffer[..pos + k + 1] == buffer[..pos + k] + [s[k]] == old(buffer[..pos]) + s[..k] + [s[k]];
      assert s[..k + 1] == s[..k] + [s[k]];
    }
    assert s[..|s|] == s;
  }

  // ----------------------------------------------------------------- encoding

  lemma FitStep(sc: Scheme, all: seq<byte>, done: seq<byte>, s: seq<byte>, room: int)
    requires done + Fit(sc, s, room) == all
    ensures s == [] || |Unit(sc, s[0])| >= room ==> done == all
    ensures s != [] && |Unit(sc, s[0])| < room ==> (done + Unit(sc, s[0])) + Fit(sc, s[1..], room - |Unit(sc, s[0])|) == all
  {
    hide Unit;
    if s != [] && |Unit(sc, s[0])| < room {
      assert done + (Unit(sc, s[0]) + Fit(sc, s[1..], room - |Unit(sc, s[0])|))
          == (done + Unit(sc, s[0])) + Fit(sc, s[1..], room - |Unit(sc, s[0])|);
    }
  }

  method Escape(buffer: array<byte>, buflen: nat, source: array<byte>, srclen: nat, illegal: seq<byte>, mark: byte)
    returns (bufpos: nat)
    requires buffer != source && buflen <= buffer.Length && srclen <= source.Length
    modifies buffer
    ensures Wrote(old(buffer[..]), buffer[..], buflen, Fit(TextCodec.Escape(mark, illegal), source[..srclen], buflen), bufpos)
  {
    hide Fit, Illegal;
    ghost var sc := TextCodec.Escape(mark, illegal);
    ghost var all := Fit(sc, source[..srclen], buflen);
    ghost var stopped := false;
    bufpos := 0;
    if buflen == 0 {
      FitStep(sc, all, [], source[..srclen], 0);
      return;
    }
    var srcpos := 0;
    assert source[0..srclen] == source[..srclen];
    while srcpos < srclen && bufpos + 1 < buflen
      invariant srcpos <= srclen && bufpos < buflen && !stopped
      invariant buffer[..bufpos] + Fit(sc, source[srcpos..srclen], buflen - bufpos) == all
      invariant forall i :: buflen <= i < buffer.Length ==> buffer[i] == old(buffer[i])
    {
      ghost var s, done := source[srcpos..srclen], buffer[..bufpos];
      FitStep(sc, all, done, s, buflen - bufpos);
      var ch := source[srcpos];
      srcpos := srcpos + 1;
      assert s[1..] == source[srcpos..srclen];
      if ch == mark || Illegal(illegal, ch) {
        if bufpos + 2 >= buflen {
          stopped := true;
          break;
        }
        buffer[bufpos] := mark;
        bufpos := bufpos + 1;
      }
      buffer[bufpos] := ch;
      bufpos := bufpos + 1;
      assert buffer[..bufpos] == done + Unit(sc, s[0]);
    }
    if !stopped { FitStep(sc, all, buffer[..bufpos], source[srcpos..srclen], buflen - bufpos); }
    buffer[bufpos] := 0;
  }

  method HexEncode(buffer: array<byte>, pos: nat, mark: byte, ch: byte)
    requires pos + 3 <= buffer.Length
    modifies buffer
    ensures buffer[..pos + 3] == old(buffer[..pos]) + [mark, HexDigit(ch / 16), HexDigit(ch % 16)]
    ensures forall i :: pos + 3 <= i < buffer.Length ==> buffer[i] == old(buffer[i])
  {
    buffer[pos] := mark;
    buffer[pos + 1] := HexDigit(ch / 16);
    buffer[pos + 2] := HexDigit(ch % 16);
  }

  method Encode(buffer: array<byte>, buflen: nat, source: array<byte>, srclen: nat, illegal: seq<byte>, mark: byte)
    returns (bufpos: nat)
    requires buffer != source && buflen <= buffer.Length && srclen <= source.Length
    modifies buffer
    ensures Wrote(old(buffer[..]), buffer[..], buflen, Fit(Hex(mark, illegal), source[..srclen], buflen), bufpos)
  {
    hide Fit, Illegal, HexDigit;
    ghost var sc := Hex(mark, illegal);
    ghost var all := Fit(sc, source[..srclen], buflen);
    ghost var stopped := false;
    bufpos := 0;
    if buflen == 0 {
      FitStep(sc, all, [], source[..srclen], 0);
      return;
    }
    var srcpos := 0;
    assert source[0..srclen] == source[..srclen];
    while srcpos < srclen && bufpos + 1 < buflen
      invariant srcpos <= srclen && bufpos < buflen && !stopped
      invariant buffer[..bufpos] + Fit(sc, source[srcpos..srclen], buflen - bufpos) == all
      invariant forall i :: buflen <= i < buffer.Length ==> buffer[i] == old(buffer[i])
    {
      ghost var s, done := source[srcpos..srclen], buffer[..bufpos];
      FitStep(sc, all, done, s, buflen - bufpos);
      var ch := source[srcpos];
      srcpos := srcpos + 1;
      assert s[1..] == source[srcpos..srclen];
      if ch != mark && !Illegal(illegal, ch) {
        buffer[bufpos] := ch;
        bufpos := bufpos + 1;
      } else if bufpos + 3 >= buflen {
        stopped := true;
        break;
      } else {
        HexEncode(buffer, bufpos, mark, ch);
        bufpos := bufpos + 3;
      }
      assert buffer[..bufpos] == done + Unit(sc, s[0]);
    }
    if !stopped { FitStep(sc, all, buffer[..bufpos], source[srcpos..srclen], buflen - bufpos); }
    buffer[bufpos] := 0;
  }

  /** url_encode. Without a buffer it tells the size that is always enough. */
  method UrlEncode(buffer: array?<byte>, buflen: nat, source: array<byte>, srclen: nat) returns (bufpos: nat)
    requires buffer != source && srclen <= source.Length && (buffer != null ==> buflen <= buffer.Length)
    modifies if buffer == null then {} else {buffer}
    ensures buffer == null ==> bufpos > |Encoded(Url, source[..srclen])| && Fit(Url, source[..srclen], bufpos) == Encoded(Url, source[..srclen])
    ensures buffer != null ==> Wrote(old(buffer[..]), buffer[..], buflen, Fit(Url, source[..srclen], buflen), bufpos)
  {
    hide Fit, UrlUnsafe, HexDigit;
    if buffer == null {
      UrlSizeSuffices(source[..srclen]);
      return srclen * 3 + 1;
    }
    ghost var all := Fit(Url, source[..srclen], buflen);
    ghost var stopped := false;
    bufpos := 0;
    if buflen == 0 {
      FitStep(Url, all, [], source[..srclen], 0);
      return;
    }
    var srcpos := 0;
    assert source[0..srclen] == source[..srclen];
    while srcpos < srclen && bufpos + 1 < buflen
      invariant srcpos <= srclen && bufpos < buflen && !stopped
      invariant buffer[..bufpos] + Fit(Url, source[srcpos..srclen], buflen - bufpos) == all
      invariant forall i :: buflen <= i < buffer.Length ==> buffer[i] == old(buffer[i])
    {
      ghost var s, done := source[srcpos..srclen], buffer[..bufpos];
      FitStep(Url, all, done, s, buflen - bufpos);
      var ch := source[srcpos];
      srcpos := srcpos + 1;
      assert s[1..] == source[srcpos..srclen];
      if UrlUnsafe(ch) {
        if bufpos + 3 >= buflen {
          stopped := true;
          break;
        }
        HexEncode(buffer, bufpos, 37, ch);
        bufpos := bufpos + 3;
      } else {
        buffer[bufpos] := ch;
        bufpos := bufpos + 1;
      }
      assert buffer[..bufpos] == done + Unit(Url, s[0]);
    }
    if !stopped { FitStep(Url, all, buffer[..bufpos], source[srcpos..srclen], buflen - bufpos); }
    buffer[bufpos] := 0;
  }

  method XmlEncode(buffer: array<byte>, buflen: nat, source: array<byte>, srclen: nat) returns (bufpos: nat)
    requires buffer != source && buflen <= buffer.Length && srclen <= source.Length
    modifies buffer
    ensures Wrote(old(buffer[..]), buffer[..], buflen, Fit(Xml, source[..srclen], buflen), bufpos)
  {
    hide Fit;
    ghost var all := Fit(Xml, source[..srclen], buflen);
    ghost var stopped := false;
    bufpos := 0;
    if buflen == 0 {
      FitStep(Xml, all, [], source[..srclen], 0);
      return;
    }
    var srcpos := 0;
    assert source[0..srclen] == source[..srclen];
    while srcpos < srclen && bufpos + 1 < buflen
      invariant srcpos <= srclen && bufpos < buflen && !stopped
      invariant buffer[..bufpos] + Fit(Xml, source[srcpos..srclen], buflen - bufpos) == all
      invariant forall i :: buflen <= i < buffer.Length ==> buffer[i] == old(buffer[i])
    {
      ghost var s, done := source[srcpos..srclen], buffer[..bufpos];
      FitStep(Xml, all, done, s, buflen - bufpos);
      var ch := source[srcpos];
      srcpos := srcpos + 1;
      assert s[1..] == source[srcpos..srclen];
      if XmlUnsafe(ch) {
        var escseq := match ch
          case 60 => [38] + LT
          case 62 => [38] + GT
          case 39 => [38] + APOS
          case 34 => [38] + QUOT
          case _ => [38] + AMP;
        if bufpos + |escseq| >= buflen {
          stopped := true;
          break;
        }
        Put(buffer, bufpos, escseq);
        bufpos := bufpos + |escseq|;
      } else {
        buffer[bufpos] := ch;
        bufpos := bufpos + 1;
      }
      assert buffer[..bufpos] == done + Unit(Xml, s[0]);
    }
    if !stopped { FitStep(Xml, all, buffer[..bufpos], source[srcpos..srclen], buflen - bufpos); }
    buffer[bufpos] := 0;
  }

  lemma HtmlFitStep(all: seq<byte>, done: seq<byte>, s: seq<byte>, room: int)
    requires done + HtmlFit(s, room) == all
    ensures s == [] || |HtmlUnit(s)| >= room ==> done == all
    ensures s != [] && |HtmlUnit(s)| < room ==>
              (done + HtmlUnit(s)) + HtmlFit(s[Character(s).1..], room - |HtmlUnit(s)|) == all
  {
    hide HtmlUnit, Character;
    if s != [] && |HtmlUnit(s)| < room {
      assert done + (HtmlUnit(s) + HtmlFit(s[Character(s).1..], room - |HtmlUnit(s)|))
          == (done + HtmlUnit(s)) + HtmlFit(s[Character(s).1..], room - |HtmlUnit(s)|);
    }
  }

  method HtmlEncode(buffer: array<byte>, buflen: nat, source: array<byte>, srclen: nat) returns (bufpos: nat)
    requires buffer != source && buflen <= buffer.Length && srclen <= source.Length
    modifies buffer
    ensures Wrote(old(buffer[..]), buffer[..], buflen, HtmlFit(source[..srclen], buflen), bufpos)
  {
    hide HtmlFit, HtmlUnit, Character;
    ghost var all := HtmlFit(source[..srclen], buflen);
    ghost var stopped := false;
    bufpos := 0;
    if buflen == 0 {
      HtmlFitStep(all, [], source[..srclen], 0);
      return;
    }
    var srcpos := 0;
    assert source[0..srclen] == source[..srclen];
    while srcpos < srclen && bufpos + 1 < buflen
      invariant srcpos <= srclen && bufpos < buflen && !stopped
      invariant buffer[..bufpos] + HtmlFit(source[srcpos..srclen], buflen - bufpos) == all
      invariant forall i :: buflen <= i < buffer.Length ==> buffer[i] == old(buffer[i])
    {
      ghost var s, done, start := source[srcpos..srclen], buffer[..bufpos], srcpos;
      HtmlFitStep(all, done, s, buflen - bufpos);
      var escseq, used := HtmlEscape(source, srcpos, srclen);
      srcpos := srcpos + used;
      assert s[Character(s).1..] == source[srcpos..srclen];
      if bufpos + |escseq| >= buflen {
        stopped := true;
        break;
      }
      Put(buffer, bufpos, escseq);
      bufpos := bufpos + |escseq|;
    }
    if !stopped { HtmlFitStep(all, buffer[..bufpos], source[srcpos..srclen], buflen - bufpos); }
    buffer[bufpos] := 0;
  }

  /** What html_encode writes for the character at srcpos, and its length. */
  method HtmlEscape(source: array<byte>, srcpos: nat, srclen: nat) returns (escseq: seq<byte>, used: nat)
    requires srcpos < srclen <= source.Length
    ensures var s := source[srcpos..srclen]; escseq == HtmlUnit(s) && used == Character(s).1
  {
    hide Decimal;
    var ch := source[srcpos];
    if ch < 128 {
      used := 1;
      if XmlUnsafe(ch) {
        escseq := match ch
          case 60 => [38] + LT
          case 62 => [38] + GT
          case 39 => [38, 35] + Decimal(39) + [59]
          case 34 => [38] + QUOT
          case _ => [38] + AMP;
      } else {
        escseq := [ch];
      }
    } else {
      var (v, n) := Utf8Read(source[srcpos..srclen]);
      if n == 0 {
        v, n := ch, 1;
      }
      used := n;
      escseq := [38, 35] + Decimal(v) + [59];
    }
  }

  // ----------------------------------------------------------------- decoding

  lemma DecodedFold(sc: Scheme, all: seq<byte>, done: seq<byte>, s: seq<byte>, room: int)
    requires done + Decoded(sc, s, room) == all
    ensures s == [] || room <= 1 ==> done == all
    ensures s != [] && room > 1 ==>
              match Read(sc, s)
              case Stop => done == all
              case Piece(out, used) =>
                if |out| > room then done == all
                else (done + out) + Decoded(sc, s[used..], room - |out|) == all
  {
    hide Read;
    if s != [] && room > 1 && Read(sc, s).Piece? && |Read(sc, s).out| <= room {
      var Piece(out, used) := Read(sc, s);
      assert done + (out + Decoded(sc, s[used..], room - |out|)) == (done + out) + Decoded(sc, s[used..], room - |out|);
    }
  }

  /** What is left of the source, by index. */
  lemma Kept(source: array<byte>, srcpos: nat, srclen: nat, s: seq<byte>)
    requires srcpos <= srclen <= source.Length && source[srcpos..srclen] == s
    ensures |s| == srclen - srcpos && forall i :: srcpos <= i < srclen ==> source[i] == s[i - srcpos]
  {
    assert forall i :: srcpos <= i < srclen ==> source[srcpos..srclen][i - srcpos] == source[i];
  }

  /** Writes decoded bytes. Nothing that is still to be read is lost, in one
      array too, because the output never gets ahead of the input. */
  method Store(buffer: array<byte>, bufpos: nat, out: seq<byte>, source: array<byte>, srcpos: nat, srclen: nat)
    returns (next: nat)
    requires bufpos + |out| <= buffer.Length && srcpos <= srclen <= source.Length
    requires buffer == source ==> bufpos + |out| <= srcpos
    modifies buffer
    ensures next == bufpos + |out| && buffer[..next] == old(buffer[..bufpos]) + out
    ensures source[srcpos..srclen] == old(source[srcpos..srclen])
    ensures forall i :: next <= i < buffer.Length ==> buffer[i] == old(buffer[i])
  {
    Put(buffer, bufpos, out);
    next := bufpos + |out|;
  }

  /** What unescape finds at srcpos. */
  method ReadEscaped(source: array<byte>, srcpos: nat, srclen: nat, mark: byte) returns (ch: byte, used: nat)
    requires srcpos < srclen <= source.Length
    ensures Read(TextCodec.Escape(mark, []), source[srcpos..srclen]) == Piece([ch], used)
  {
    ch, used := source[srcpos], 1;
    if ch == mark && srcpos + 1 < srclen {
      ch, used := source[srcpos + 1], 2;
    }
  }

  /** What decode finds, and what url_decode finds for other than a plus. */
  method ReadHex(source: array<byte>, srcpos: nat, srclen: nat, mark: byte) returns (ch: byte, used: nat)
    requires srcpos < srclen <= source.Length
    ensures Read(Hex(mark, []), source[srcpos..srclen]) == Piece([ch], used)
  {
    hide HexPair, HexValue;
    ghost var s := source[srcpos..srclen];
    ch, used := source[srcpos], 1;
    if ch == mark && srcpos + 2 < srclen && HexValue(source[srcpos + 1]) >= 0 && HexValue(source[srcpos + 2]) >= 0 {
      assert s[1..][0] == source[srcpos + 1] && s[1..][1] == source[srcpos + 2];
      ch, used := HexPair(HexValue(source[srcpos + 1]), HexValue(source[srcpos + 2])), 3;
    } else if |s| > 2 {
      assert s[1..][0] == source[srcpos + 1] && s[1..][1] == source[srcpos + 2];
    }
  }

  /** What url_decode finds. */
  method ReadUrl(source: array<byte>, srcpos: nat, srclen: nat) returns (ch: byte, used: nat)
    requires srcpos < srclen <= source.Length
    ensures Read(Url, source[srcpos..srclen]) == Piece([ch], used)
  {
    if source[srcpos] == 43 {
      ch, used := 32, 1;
    } else {
      ch, used := ReadHex(source, srcpos, srclen, 37);
    }
  }

  /** unescape, also in place. */
  method Unescape(buffer: array<byte>, buflen: nat, source: array<byte>, srclen: nat, mark: byte) returns (bufpos: nat)
    requires srclen <= source.Length && buflen <= buffer.Length
    modifies buffer
    ensures Wrote(old(buffer[..]), buffer[..], buflen, Decoded(TextCodec.Escape(mark, []), old(source[..srclen]), buflen), bufpos)
  {
    hide Decoded, Read;
    ghost var sc, from := TextCodec.Escape(mark, []), source[..srclen];
    ghost var all := Decoded(sc, from, buflen);
    ghost var stopped := false;
    bufpos := 0;
    if buflen == 0 {
      DecodedFold(sc, all, [], from, 0);
      return;
    }
    var srcpos := 0;
    assert from[0..] == from;
    while srcpos < srclen && bufpos + 1 < buflen
      invariant bufpos <= srcpos <= srclen && bufpos < buflen && !stopped
      invariant source[srcpos..srclen] == from[srcpos..]
      invariant buffer[..bufpos] + Decoded(sc, from[srcpos..], buflen - bufpos) == all
      invariant forall i :: buflen <= i < buffer.Length ==> buffer[i] == old(buffer[i])
    {
      ghost var s := from[srcpos..];
      DecodedFold(sc, all, buffer[..bufpos], s, buflen - bufpos);
      var ch, used := ReadEscaped(source, srcpos, srclen, mark);
      srcpos := srcpos + used;
      bufpos := Store(buffer, bufpos, [ch], source, srcpos, srclen);
    }
    if !stopped { DecodedFold(sc, all, buffer[..bufpos], from[srcpos..], buflen - bufpos); }
    buffer[bufpos] := 0;
  }

  /** decode, also in place. */
  method Decode(buffer: array<byte>, buflen: nat, source: array<byte>, srclen: nat, mark: byte) returns (bufpos: nat)
    requires srclen <= source.Length && buflen <= buffer.Length
    modifies buffer
    ensures Wrote(old(buffer[..]), buffer[..], buflen, Decoded(Hex(mark, []), old(source[..srclen]), buflen), bufpos)
  {
    hide Decoded, Read;
    ghost var sc, from := Hex(mark, []), source[..srclen];
    ghost var all := Decoded(sc, from, buflen);
    ghost var stopped := false;
    bufpos := 0;
    if buflen == 0 {
      DecodedFold(sc, all, [], from, 0);
      return;
    }
    var srcpos := 0;
    assert from[0..] == from;
    while srcpos < srclen && bufpos + 1 < buflen
      invariant bufpos <= srcpos <= srclen && bufpos < buflen && !stopped
      invariant source[srcpos..srclen] == from[srcpos..]
      invariant buffer[..bufpos] + Decoded(sc, from[srcpos..], buflen - bufpos) == all
      invariant forall i :: buflen <= i < buffer.Length ==> buffer[i] == old(buffer[i])
    {
      ghost var s := from[srcpos..];
      DecodedFold(sc, all, buffer[..bufpos], s, buflen - bufpos);
      var ch, used := ReadHex(source, srcpos, srclen, mark);
      srcpos := srcpos + used;
      bufpos := Store(buffer, bufpos, [ch], source, srcpos, srclen);
    }
    if !stopped { DecodedFold(sc, all, buffer[..bufpos], from[srcpos..], buflen - bufpos); }
    buffer[bufpos] := 0;
  }

  /** url_decode, also in place. Without a buffer it tells a size that is enough. */
  method UrlDecode(buffer: array?<byte>, buflen: nat, source: array<byte>, srclen: nat) returns (bufpos: nat)
    requires srclen <= source.Length && (buffer != null ==> buflen <= buffer.Length)
    modifies if buffer == null then {} else {buffer}
    ensures buffer == null ==> bufpos > |Decoded(Url, source[..srclen], srclen + 1)|
    ensures buffer != null ==> Wrote(old(buffer[..]), buffer[..], buflen, Decoded(Url, old(source[..srclen]), buflen), bufpos)
  {
    if buffer == null {
      return srclen + 1;
    }
    bufpos := UrlDecodeInto(buffer, buflen, source, srclen);
  }

  method UrlDecodeInto(buffer: array<byte>, buflen: nat, source: array<byte>, srclen: nat) returns (bufpos: nat)
    requires srclen <= source.Length && buflen <= buffer.Length
    modifies buffer
    ensures Wrote(old(buffer[..]), buffer[..], buflen, Decoded(Url, old(source[..srclen]), buflen), bufpos)
  {
    hide Decoded, Read;
    ghost var sc, from := Url, source[..srclen];
    ghost var all := Decoded(sc, from, buflen);
    ghost var stopped := false;
    bufpos := 0;
    if buflen == 0 {
      DecodedFold(sc, all, [], from, 0);
      return;
    }
    var srcpos := 0;
    assert from[0..] == from;
    while srcpos < srclen && bufpos + 1 < buflen
      invariant bufpos <= srcpos <= srclen && bufpos < buflen && !stopped
      invariant source[srcpos..srclen] == from[srcpos..]
      invariant buffer[..bufpos] + Decoded(sc, from[srcpos..], buflen - bufpos) == all
      invariant forall i :: buflen <= i < buffer.Length ==> buffer[i] == old(buffer[i])
    {
      ghost var s := from[srcpos..];
      DecodedFold(sc, all, buffer[..bufpos], s, buflen - bufpos);
      var ch, used := ReadUrl(source, srcpos, srclen);
      srcpos := srcpos + used;
      bufpos := Store(buffer, bufpos, [ch], source, srcpos, srclen);
    }
    if !stopped { DecodedFold(sc, all, buffer[..bufpos], from[srcpos..], buflen - bufpos); }
    buffer[bufpos] := 0;
  }

  /** What xml_decode finds at srcpos. */
  method ReadFront(source: array<byte>, srcpos: nat, srclen: nat) returns (p: Piece)
    requires srcpos < srclen <= source.Length
    ensures p == ReadXml(source[srcpos..srclen])
  {
    hide Strtoul;
    var i := srcpos + 1;
    ghost var t := source[srcpos..srclen][1..];
    assert t == source[i..srclen];
    Named(source, i, srclen, LT);
    Named(source, i, srclen, GT);
    Named(source, i, srclen, APOS);
    Named(source, i, srclen, QUOT);
    Named(source, i, srclen, AMP);
    if source[srcpos] != 38 {
      p := Piece([source[srcpos]], 1);
    } else if i + 2 < srclen && source[i..i + 3] == LT {
      p := Piece([60], 4);
    } else if i + 2 < srclen && source[i..i + 3] == GT {
      p := Piece([62], 4);
    } else if i + 4 < srclen && source[i..i + 5] == APOS {
      p := Piece([39], 6);
    } else if i + 4 < srclen && source[i..i + 5] == QUOT {
      p := Piece([34], 6);
    } else if i + 3 < srclen && source[i..i + 4] == AMP {
      p := Piece([38], 5);
    } else if i < srclen && source[i] == 35 {
      assert t[1..] == source[i + 1..srclen];
      p := ReadReference(source, i, srclen);
    } else {
      p := Stop;
    }
  }

  /** memcmp. */
  lemma Named(source: array<byte>, i: nat, srclen: nat, name: seq<byte>)
    requires i <= srclen <= source.Length
    ensures name <= source[i..srclen] <==> i + |name| <= srclen && source[i..i + |name|] == name
  {
    if i + |name| <= srclen {
      assert source[i..srclen][..|name|] == source[i..i + |name|];
    }
  }

  /** The number after the '#' at i. */
  method ReadReference(source: array<byte>, i: nat, srclen: nat) returns (p: Piece)
    requires i < srclen <= source.Length
    ensures p == ReadNumber(source[i + 1..srclen])
  {
    hide Strtoul;
    var base, start := 10, i + 1;
    if i + 1 < srclen && source[i + 1] == 120 {
      base, start := 16, i + 2;
      assert source[i + 1..srclen][1..] == source[start..srclen];
    }
    var (value, used) := Strtoul(source[start..srclen], base);
    if start + used < srclen && source[start + used] == 59 && value <= 0x1FFFFF {
      p := Piece(Utf8(value), start + used + 1 - (i - 1));
    } else {
      p := Stop;
    }
  }

  /** xml_decode, also in place. A number may fill the size given to its last
      byte; the zero after it then needs one place more. That cannot be where the
      size is no less than that of the input (ZeroHasPlace). */
  method XmlDecode(buffer: array<byte>, buflen: nat, source: array<byte>, srclen: nat) returns (bufpos: nat)
    requires srclen <= source.Length && buflen <= buffer.Length
    requires buflen == buffer.Length ==> !Fills(Xml, source[..srclen], buflen)
    modifies buffer
    ensures Wrote(old(buffer[..]), buffer[..], buflen, Decoded(Xml, old(source[..srclen]), buflen), bufpos)
  {
    hide Decoded, ReadXml;
    ghost var sc, from := Xml, source[..srclen];
    ghost var all := Decoded(sc, from, buflen);
    ghost var stopped := false;
    bufpos := 0;
    if buflen == 0 {
      DecodedFold(sc, all, [], from, 0);
      return;
    }
    if buflen == buffer.Length { ZeroHasPlaceExactlyWhen(sc, from, buflen); }
    hide Fills;
    var srcpos := 0;
    assert from[0..] == from;
    while srcpos < srclen && bufpos + 1 < buflen
      invariant bufpos <= srcpos <= srclen && bufpos <= buflen && !stopped
      invariant source[srcpos..srclen] == from[srcpos..]
      invariant buffer[..bufpos] + Decoded(sc, from[srcpos..], buflen - bufpos) == all
      invariant forall i :: buflen <= i < buffer.Length ==> buffer[i] == old(buffer[i])
    {
      ghost var s, done, start := from[srcpos..], buffer[..bufpos], srcpos;
      DecodedFold(sc, all, done, s, buflen - bufpos);
      Kept(source, srcpos, srclen, s);
      var p := ReadFront(source, srcpos, srclen);
      if p.Stop? || |p.out| > buflen - bufpos {
        stopped := true;
        break;
      }
      srcpos := srcpos + p.used;
      bufpos := Store(buffer, bufpos, p.out, source, srcpos, srclen);
    }
    if !stopped { DecodedFold(sc, all, buffer[..bufpos], from[srcpos..], buflen - bufpos); }
    buffer[bufpos] := 0;
  }

  /** html_decode is xml_decode. */
  method HtmlDecode(buffer: array<byte>, buflen: nat, source: array<byte>, srclen: nat) returns (bufpos: nat)
    requires srclen <= source.Length && buflen <= buffer.Length
    requires buflen == buffer.Length ==> !Fills(Xml, source[..srclen], buflen)
    modifies buffer
    ensures Wrote(old(buffer[..]), buffer[..], buflen, Decoded(Xml, old(source[..srclen]), buflen), bufpos)
  {
    bufpos := XmlDecode(buffer, buflen, source, srclen);
  }
}
