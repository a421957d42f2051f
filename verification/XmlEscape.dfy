/** How the printer escapes attribute values and text, and how they read back.
    Declarations that the printer invents are the exception: their values are
    written as they are. */
module XmlEscape {
  import opened Options
  import P = XmlPrint

  // ---------------------------------------------------------------- writing

  /** The characters that PrintQuotedValue, or PrintBodyText, must not copy. */
  predicate Unsafe(c: char, quoted: bool) {
    c == '<' || c == '>' || c == '&' || (quoted && c == '"')
  }

  function EscapeChar(c: char, quoted: bool): string {
    if !Unsafe(c, quoted) then [c]
    else if c == '<' then "&lt;"
    else if c == '>' then "&gt;"
    else if c == '&' then "&amp;"
    else "&quot;"
  }

  function Escape(s: string, quoted: bool): string {
    if s == "" then "" else EscapeChar(s[0], quoted) + Escape(s[1..], quoted)
  }

  lemma {:induction false} EscapeAppend(s: string, t: string, quoted: bool)
    ensures Escape(s + t, quoted) == Escape(s, quoted) + Escape(t, quoted)
  {
    if s == "" {
      assert s + t == t;
    } else {
      assert (s + t)[1..] == s[1..] + t;
      EscapeAppend(s[1..], t, quoted);
      P.Assoc(EscapeChar(s[0], quoted), Escape(s[1..], quoted), Escape(t, quoted));
    }
  }

  lemma {:induction false} EscapeSafe(s: string, quoted: bool)
    requires forall c :: c in s ==> !Unsafe(c, quoted)
    ensures Escape(s, quoted) == s
  {
    if s != "" {
      assert s[0] in s && forall c :: c in s[1..] ==> c in s;
      EscapeSafe(s[1..], quoted);
    }
  }

  method FindFirstUnsafe(text: string, from: nat, quoted: bool) returns (k: nat)
    requires from <= |text|
    ensures from <= k <= |text| && (k < |text| ==> Unsafe(text[k], quoted))
    ensures forall c :: c in text[from..k] ==> !Unsafe(c, quoted)
  {
    k := from;
    while k < |text| && !Unsafe(text[k], quoted)
      invariant from <= k <= |text| && forall c :: c in text[from..k] ==> !Unsafe(c, quoted)
    {
      k := k + 1;
    }
  }

  /** PrintQuotedValue and PrintBodyText: runs of safe characters are copied
      whole, each unsafe one is replaced. */
  method Print(text: string, quoted: bool) returns (out: string)
    ensures out == Escape(text, quoted)
  {
    out := "";
    var safe := 0;
    assert text[..0] == "";
    while true
      invariant 0 <= safe <= |text| && out == Escape(text[..safe], quoted)
      decreases |text| - safe
    {
      var unsafe := FindFirstUnsafe(text, safe, quoted);
      out := out + text[safe..unsafe];
      assert text[..safe] + text[safe..unsafe] == text[..unsafe];
      EscapeSafe(text[safe..unsafe], quoted);
      EscapeAppend(text[..safe], text[safe..unsafe], quoted);
      if unsafe == |text| {
        assert text[..unsafe] == text;
        return;
      }
      out := out + EscapeChar(text[unsafe], quoted);
      assert text[..unsafe] + [text[unsafe]] == text[..unsafe + 1];
      EscapeAppend(text[..unsafe], [text[unsafe]], quoted);
      assert EscapeChar(text[unsafe], quoted) + "" == EscapeChar(text[unsafe], quoted);
      safe := unsafe + 1;
      if safe == |text| {
        assert text[..safe] == text;
        return;
      }
    }
  }

  // ---------------------------------------------------------------- reading

  /** The predefined entity at the head of s: its character and its length
      (XML 1.0, section 4.6). */
  function Entity(s: string): Option<(char, nat)> {
    if "&lt;" <= s then Some(('<', 4))
    else if "&gt;" <= s then Some(('>', 4))
    else if "&amp;" <= s then Some(('&', 5))
    else if "&quot;" <= s then Some(('"', 6))
    else if "&apos;" <= s then Some(('\'', 6))
    else None
  }

  datatype Literal = Literal(value: string, rest: string)

  /** Character data up to the delimiter stop: the value and what follows the
      delimiter. A stray less-than sign or ampersand is an error. */
  function Read(s: string, stop: char): Option<Literal>
    decreases |s|
  {
    if s == "" then None
    else if s[0] == stop then Some(Literal("", s[1..]))
    else if s[0] == '<' then None
    else if s[0] == '&' then
      var e := Entity(s);
      if e.None? then None
      else
        var r := Read(s[e.value.1..], stop);
        if r.None? then None else Some(Literal([e.value.0] + r.value.value, r.value.rest))
    else
      var r := Read(s[1..], stop);
      if r.None? then None else Some(Literal([s[0]] + r.value.value, r.value.rest))
  }

  /** A replacement is read as the entity of the character it stands for. */
  lemma EntityReadsBack(c: char, quoted: bool, more: string)
    requires Unsafe(c, quoted)
    ensures var head := EscapeChar(c, quoted); var s := head + more;
      s[0] == '&' && s[|head|..] == more && Entity(s) == Some((c, |head|))
  {
    var head := EscapeChar(c, quoted);
    var s := head + more;
    assert s[..|head|] == head;
    assert s[1] == head[1];
  }

  lemma ReadOne(c: char, quoted: bool, more: string, stop: char)
    requires stop == if quoted then '"' else '<'
    requires Read(more, stop).Some?
    ensures var r := Read(more, stop).value;
      Read(EscapeChar(c, quoted) + more, stop) == Some(Literal([c] + r.value, r.rest))
  {
    if Unsafe(c, quoted) {
      EntityReadsBack(c, quoted, more);
    } else {
      assert ([c] + more)[1..] == more;
    }
  }

  /** A value in quotes, or text before the next tag, reads back as it was. */
  lemma {:induction false} ReadInvertsEscape(v: string, quoted: bool, rest: string)
    ensures var stop := if quoted then '"' else '<';
      Read(Escape(v, quoted) + ([stop] + rest), stop) == Some(Literal(v, rest))
  {
    var stop := if quoted then '"' else '<';
    var tail := [stop] + rest;
    if v == "" {
      assert "" + tail == tail && tail[1..] == rest;
    } else {
      ReadInvertsEscape(v[1..], quoted, rest);
      ReadOne(v[0], quoted, Escape(v[1..], quoted) + tail, stop);
      P.Assoc(EscapeChar(v[0], quoted), Escape(v[1..], quoted), tail);
      assert v == [v[0]] + v[1..];
    }
  }

  predicate Markup(c: char) { c == '"' || c == '<' || c == '&' }

  /** What is read is never longer than what was there, and equally long only
      if it was there literally. */
  lemma {:induction false} ReadShrinks(s: string)
    requires Read(s, '"').Some?
    ensures var r := Read(s, '"').value;
      && |r.value| + 1 + |r.rest| <= |s|
      && (|r.value| + 1 + |r.rest| == |s| ==> forall c :: c in r.value ==> !Markup(c))
    decreases |s|
  {
    if s[0] != '"' {
      if s[0] == '&' {
        ReadShrinks(s[Entity(s).value.1..]);
      } else {
        ReadShrinks(s[1..]);
      }
    }
  }

  lemma {:induction false} ReadPlain(v: string, rest: string)
    requires forall c :: c in v ==> !Markup(c)
    ensures Read(v + ("\"" + rest), '"') == Some(Literal(v, rest))
  {
    hide Entity;
    var tail := "\"" + rest;
    if v == "" {
      assert "" + tail == tail && tail[1..] == rest;
    } else {
      assert v[0] in v && forall c :: c in v[1..] ==> c in v;
      ReadPlain(v[1..], rest);
      assert (v + tail)[1..] == v[1..] + tail && (v + tail)[0] == v[0];
      assert v == [v[0]] + v[1..];
    }
  }

  /** The unescaped value of an invented declaration reads back exactly when
      the namespace holds no markup. */
  lemma RawValueReadsBackExactlyWhen(ns: string, rest: string)
    ensures Read(ns + ("\"" + rest), '"') == Some(Literal(ns, rest)) <==> forall c :: c in ns ==> !Markup(c)
  {
    if forall c :: c in ns ==> !Markup(c) {
      ReadPlain(ns, rest);
    }
    if Read(ns + ("\"" + rest), '"') == Some(Literal(ns, rest)) {
      ReadShrinks(ns + ("\"" + rest));
    }
  }
}
