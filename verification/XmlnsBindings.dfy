/** The meaning of a namespace stack: what a prefix resolves to, which prefix
    serves a namespace, and how a missing prefix is invented. The stack is a
    sequence of bindings, innermost last (Namespaces in XML 1.0, section 6). */
module XmlnsBindings {
  import opened Options
  import opened XmlTree

  datatype Binding = Binding(prefix: string, ns: string)

  type Bindings = seq<Binding>

  // ---------------------------------------------------------------- lookup

  /** True of every prefix that begins with "xml" in any case; only "xml" and
      "xmlns" of these have a meaning. */
  predicate XmlPrefixed(p: string) {
    |p| >= 3 && (p[0] == 'x' || p[0] == 'X') && (p[1] == 'm' || p[1] == 'M') && (p[2] == 'l' || p[2] == 'L')
  }

  function Lookup(b: Bindings, p: string): Option<string> {
    if b == [] then None
    else if b[|b| - 1].prefix == p then Some(b[|b| - 1].ns)
    else Lookup(b[..|b| - 1], p)
  }

  function NsForPrefix(b: Bindings, p: string): Option<string> {
    if XmlPrefixed(p) then
      if p == "xml" then Some(NS_XML) else if p == "xmlns" then Some(NS_XMLNS) else None
    else if Lookup(b, p).Some? then Lookup(b, p)
    else if p == "" then Some("") else None
  }

  // ------------------------------------------------------ what a prefix means

  /** An inner binding of a prefix shadows every outer one. */
  lemma {:induction false} InnermostBinds(b: Bindings, k: nat, p: string)
    requires k < |b| && b[k].prefix == p && !XmlPrefixed(p)
    requires forall j :: k < j < |b| ==> b[j].prefix != p
    ensures NsForPrefix(b, p) == Some(b[k].ns)
  {
    if k < |b| - 1 {
      InnermostBinds(b[..|b| - 1], k, p);
    }
  }

  /** A prefix that nothing binds means nothing, but for the empty one, which then
      stands for no namespace. */
  lemma {:induction false} UnboundExactlyWhen(b: Bindings, p: string)
    requires !XmlPrefixed(p)
    ensures (forall k :: 0 <= k < |b| ==> b[k].prefix != p) ==> NsForPrefix(b, p) == if p == "" then Some("") else None
    ensures p != "" ==> (NsForPrefix(b, p).None? <==> forall k :: 0 <= k < |b| ==> b[k].prefix != p)
  {
    if b != [] {
      var n := |b| - 1;
      UnboundExactlyWhen(b[..n], p);
      assert (forall k :: 0 <= k < |b| ==> b[k].prefix != p) <==>
        b[n].prefix != p && forall k :: 0 <= k < n ==> b[..n][k].prefix != p;
    }
  }

  /** The reserved prefixes cannot be bound. */
  lemma ReservedMeans(b: Bindings, p: string)
    requires XmlPrefixed(p)
    ensures p == "xml" ==> NsForPrefix(b, p) == Some("http://www.w3.org/XML/1998/namespace")
    ensures p == "xmlns" ==> NsForPrefix(b, p) == Some("http://www.w3.org/2000/xmlns/")
    ensures p != "xml" && p != "xmlns" ==> NsForPrefix(b, p).None?
  {
  }

  /** Entry k serves ns: it is bound to ns, not shadowed, and not the default
      namespace when an attribute is to be named. */
  predicate Serves(b: Bindings, k: nat, ns: string, isAttr: bool)
    requires k < |b|
  {
    b[k].ns == ns && (!isAttr || b[k].prefix != "") && NsForPrefix(b, b[k].prefix) == Some(ns)
  }

  /** The innermost serving entry below k. */
  function Scan(b: Bindings, k: nat, ns: string, isAttr: bool): Option<string>
    requires k <= |b|
  {
    if k == 0 then None
    else if Serves(b, k - 1, ns, isAttr) then Some(b[k - 1].prefix)
    else Scan(b, k - 1, ns, isAttr)
  }

  lemma {:induction false} ScanSound(b: Bindings, k: nat, ns: string, isAttr: bool) returns (i: nat)
    requires k <= |b| && Scan(b, k, ns, isAttr).Some?
    ensures i < k && Serves(b, i, ns, isAttr) && Scan(b, k, ns, isAttr) == Some(b[i].prefix)
    ensures forall j :: i < j < k ==> !Serves(b, j, ns, isAttr)
  {
    if Serves(b, k - 1, ns, isAttr) {
      i := k - 1;
    } else {
      i := ScanSound(b, k - 1, ns, isAttr);
    }
  }

  lemma {:induction false} ScanComplete(b: Bindings, k: nat, i: nat, ns: string, isAttr: bool)
    requires i < k <= |b| && Serves(b, i, ns, isAttr)
    ensures Scan(b, k, ns, isAttr).Some?
  {
    if i < k - 1 {
      ScanComplete(b, k - 1, i, ns, isAttr);
    }
  }

  /** The three names that need no entry of the stack. */
  predicate Implicit(b: Bindings, ns: string, isAttr: bool) {
    ns == NS_XML || ns == NS_XMLNS || (if isAttr then ns == "" else NsForPrefix(b, "") == Some(ns))
  }

  function PrefixForNs(b: Bindings, ns: string, isAttr: bool): Option<string> {
    if ns == NS_XML then Some("xml")
    else if ns == NS_XMLNS then Some("xmlns")
    else if Implicit(b, ns, isAttr) then Some("")
    else Scan(b, |b|, ns, isAttr)
  }

  /** The entry can be used to write the namespace. */
  predicate Usable(b: Bindings, k: nat, ns: string, isAttr: bool)
    requires k < |b|
  {
    b[k].ns == ns && (isAttr ==> b[k].prefix != "") && NsForPrefix(b, b[k].prefix) == Some(b[k].ns)
  }

  /** Which prefix is chosen: a reserved one for its namespace, none where none is
      needed, and else that of the innermost entry that can be used, if any. */
  lemma ChosenPrefix(b: Bindings, ns: string, isAttr: bool)
    ensures ns == "http://www.w3.org/XML/1998/namespace" ==> PrefixForNs(b, ns, isAttr) == Some("xml")
    ensures ns == "http://www.w3.org/2000/xmlns/" ==> PrefixForNs(b, ns, isAttr) == Some("xmlns")
    ensures (if isAttr then ns == "" else NsForPrefix(b, "") == Some(ns)) && ns != NS_XML && ns != NS_XMLNS ==>
              PrefixForNs(b, ns, isAttr) == Some("")
    ensures !(if isAttr then ns == "" else NsForPrefix(b, "") == Some(ns)) && ns != NS_XML && ns != NS_XMLNS ==>
              match PrefixForNs(b, ns, isAttr)
              case None => forall k :: 0 <= k < |b| ==> !Usable(b, k, ns, isAttr)
              case Some(p) => exists k :: 0 <= k < |b| && b[k].prefix == p && Usable(b, k, ns, isAttr)
                                && forall j :: k < j < |b| ==> !Usable(b, j, ns, isAttr)
  {
    if !Implicit(b, ns, isAttr) {
      forall k | 0 <= k < |b|
        ensures Usable(b, k, ns, isAttr) <==> Serves(b, k, ns, isAttr)
      {
      }
      if PrefixForNs(b, ns, isAttr).Some? {
        var i := ScanSound(b, |b|, ns, isAttr);
      } else if k :| 0 <= k < |b| && Serves(b, k, ns, isAttr) {
        ScanComplete(b, |b|, k, ns, isAttr);
      }
    }
  }

  predicate Served(b: Bindings, ns: string, isAttr: bool) {
    PrefixForNs(b, ns, isAttr).Some?
  }

  /** Prefix and local part joined; a namespace without a prefix prints bare. */
  function FormatQName(b: Bindings, name: QName, isAttr: bool): string {
    var p := PrefixForNs(b, name.ns, isAttr);
    if p.None? || p.value == "" then name.local else p.value + ":" + name.local
  }

  function FirstColon(s: string): (k: nat)
    ensures k <= |s| && NoColon(s[..k]) && (k < |s| ==> s[k] == ':')
  {
    if s == "" || s[0] == ':' then 0
    else
      var k := FirstColon(s[1..]);
      assert s[..k + 1] == [s[0]] + s[1..][..k];
      k + 1
  }

  /** A raw name split at its first colon and resolved; the empty name reports
      an unbound prefix. */
  function ResolveQName(b: Bindings, raw: string, isAttr: bool): QName {
    var k := FirstColon(raw);
    if k < |raw| then
      var ns := NsForPrefix(b, raw[..k]);
      if ns.None? then QName("", "") else QName(ns.value, raw[k + 1..])
    else if isAttr then QName("", raw)
    else
      var ns := NsForPrefix(b, "");
      if ns.None? then QName("", "") else QName(ns.value, raw)
  }

  // ------------------------------------------------------------- invention

  predicate IsLetter(c: char) { 'a' <= c <= 'z' || 'A' <= c <= 'Z' }

  function Lower(c: char): char {
    if 'A' <= c <= 'Z' then ((c as int) + 32) as char else c
  }

  function LowerAll(s: string): string { seq(|s|, i requires 0 <= i < |s| => Lower(s[i])) }

  /** One past the last c in s[..k]; 0 when there is none. */
  function AfterLast(s: string, k: nat, c: char): (r: nat)
    requires k <= |s|
    ensures r <= k && (r > 0 ==> s[r - 1] == c) && c !in s[r..k]
  {
    if k == 0 then 0 else if s[k - 1] == c then k else AfterLast(s, k - 1, c)
  }

  /** The length of ns without an extension of at most four characters. */
  function Stem(ns: string): (len: nat)
    ensures len <= |ns|
  {
    var dot := AfterLast(ns, |ns|, '.');
    if dot > 0 && |ns| - (dot - 1) <= 5 then dot - 1 else |ns|
  }

  function AfterLastLetter(s: string, k: nat): (r: nat)
    requires k <= |s|
    ensures r <= k && (r > 0 ==> IsLetter(s[r - 1])) && forall i :: r <= i < k ==> !IsLetter(s[i])
  {
    if k == 0 then 0 else if IsLetter(s[k - 1]) then k else AfterLastLetter(s, k - 1)
  }

  function RunStart(s: string, k: nat): (r: nat)
    requires k <= |s|
    ensures r <= k && (r > 0 ==> !IsLetter(s[r - 1])) && forall i :: r <= i < k ==> IsLetter(s[i])
  {
    if k == 0 || !IsLetter(s[k - 1]) then k else RunStart(s, k - 1)
  }

  /** Bases from which prefixes are numbered: lower-case words that do not
      begin with "xml". */
  predicate PlainBase(s: string) {
    s != "" && (forall c :: c in s ==> 'a' <= c <= 'z') && !("xml" <= s)
  }

  /** The last word of a namespace name, cut to three letters when longer than
      four, or "ns". */
  function SuggestPrefix(ns: string): (r: string)
    ensures PlainBase(r)
  {
    var last := AfterLastLetter(ns, Stem(ns));
    if last == 0 then "ns"
    else
      var first := RunStart(ns, last - 1);
      var end := if last - first > 4 then first + 3 else last;
      var candidate := LowerAll(ns[first..end]);
      if "xml" <= candidate then "ns" else candidate
  }

  /** The len characters of ns are all of it, or all but a last dot with at most
      four characters behind it. */
  predicate WithoutExtension(ns: string, len: nat) {
    && len <= |ns|
    && if len < |ns| then ns[len] == '.' && |ns| - len <= 5 && '.' !in ns[len + 1..]
       else forall i :: 0 <= i < |ns| && |ns| - i <= 5 && ns[i] == '.' ==> exists j :: i < j < |ns| && ns[j] == '.'
  }

  /** A whole word of letters, with no letter between its end and len. */
  predicate IsLastWord(ns: string, first: nat, last: nat, len: nat) {
    && first < last <= len <= |ns|
    && (forall i :: first <= i < last ==> IsLetter(ns[i]))
    && (first > 0 ==> !IsLetter(ns[first - 1]))
    && forall i :: last <= i < len ==> !IsLetter(ns[i])
  }

  /** What is suggested: the last word before the extension in lower case, the
      first three letters of it if it has more than four; "ns" if there is no
      word, or if it would begin with "xml". */
  lemma SuggestsLastWord(ns: string) returns (first: nat, last: nat, len: nat)
    ensures WithoutExtension(ns, len)
    ensures last == 0 ==> SuggestPrefix(ns) == "ns" && forall i :: 0 <= i < len ==> !IsLetter(ns[i])
    ensures last > 0 ==> IsLastWord(ns, first, last, len)
    ensures last > 0 ==>
      var word := LowerAll(ns[first..if last - first > 4 then first + 3 else last]);
      SuggestPrefix(ns) == if "xml" <= word then "ns" else word
  {
    len := Stem(ns);
    StemIs(ns);
    hide Stem, AfterLast;
    last := AfterLastLetter(ns, len);
    first := if last == 0 then 0 else RunStart(ns, last - 1);
  }

  lemma StemIs(ns: string)
    ensures WithoutExtension(ns, Stem(ns))
  {
    var dot := AfterLast(ns, |ns|, '.');
    assert forall i :: dot <= i < |ns| ==> ns[i] in ns[dot..|ns|];
  }

  const CAPITALS := "ABCDEFGHIJKLMNOPQRSTUVWXYZ"
  const SMALL_LETTERS := "abcdefghijklmnopqrstuvwxyz"

  /** Letters are the ones of ASCII, and lower case maps them in order. */
  lemma LettersAre(c: char)
    ensures IsLetter(c) <==> c in CAPITALS || c in SMALL_LETTERS
    ensures forall k :: 0 <= k < 26 ==> Lower(CAPITALS[k]) == SMALL_LETTERS[k]
    ensures c !in CAPITALS ==> Lower(c) == c
  {
    LettersInOrder();
    hide CAPITALS, SMALL_LETTERS;
    if 'A' <= c <= 'Z' {
      assert CAPITALS[c as int - 65] == c;
    }
    if 'a' <= c <= 'z' {
      assert SMALL_LETTERS[c as int - 97] == c;
    }
  }

  lemma LettersInOrder()
    ensures |CAPITALS| == |SMALL_LETTERS| == 26
    ensures forall k :: 0 <= k < 26 ==> CAPITALS[k] as int == 65 + k && SMALL_LETTERS[k] as int == 97 + k
  {
  }

  function Digit(d: nat): char
    requires d < 10
  {
    ('0' as int + d) as char
  }

  function Decimal(n: nat): (s: string)
    ensures s != "" && forall c :: c in s ==> '0' <= c <= '9'
  {
    if n < 10 then [Digit(n)] else Decimal(n / 10) + [Digit(n % 10)]
  }

  function DecimalValue(s: string): int {
    if s == "" then 0 else DecimalValue(s[..|s| - 1]) * 10 + (s[|s| - 1] as int - '0' as int)
  }

  lemma {:induction false} DecimalInverse(n: nat)
    ensures DecimalValue(Decimal(n)) == n
  {
    if n < 10 {
      assert DecimalValue([Digit(n)][..0]) == 0;
    } else {
      DecimalInverse(n / 10);
      var s := Decimal(n);
      assert s[..|s| - 1] == Decimal(n / 10);
    }
  }

  /** The names tried in turn: base, base2, base3, ... */
  function Candidate(base: string, i: nat): string
    requires i >= 1
  {
    if i == 1 then base else base + Decimal(i)
  }

  /** The digits are written as they are said, the last one last. */
  lemma DecimalSpelled(n: nat, d: nat)
    requires d < 10
    ensures Decimal(d) == [("0123456789")[d]]
    ensures n > 0 ==> Decimal(10 * n + d) == Decimal(n) + [("0123456789")[d]]
  {
    assert Digit(d) == ("0123456789")[d];
    assert (10 * n + d) / 10 == n && (10 * n + d) % 10 == d;
  }

  lemma CandidateSpelled(base: string, i: nat)
    requires i >= 1
    ensures Candidate(base, 1) == base && Candidate(base, 2) == base + "2"
    ensures Candidate(base, 9) == base + "9" && Candidate(base, 10) == base + "10" && Candidate(base, 11) == base + "11"
    ensures i > 1 ==> Candidate(base, i) == base + Decimal(i)
  {
    DecimalSpelled(0, 2);
    DecimalSpelled(0, 9);
    DecimalSpelled(0, 1);
    DecimalSpelled(1, 0);
    DecimalSpelled(1, 1);
    assert "1" + "0" == "10" && "1" + "1" == "11";
  }

  lemma CandidateInjective(base: string, i: nat, j: nat)
    requires 1 <= i < j
    ensures Candidate(base, i) != Candidate(base, j)
  {
    DecimalInverse(j);
    assert Candidate(base, j)[|base|..] == Decimal(j);
    if i > 1 {
      DecimalInverse(i);
      assert Candidate(base, i)[|base|..] == Decimal(i);
    }
  }

  lemma CandidatePlain(base: string, i: nat)
    requires PlainBase(base) && i >= 1
    ensures Candidate(base, i) != "" && !XmlPrefixed(Candidate(base, i)) && NoColon(Candidate(base, i))
  {
    var c := Candidate(base, i);
    assert forall x :: x in c ==> 'a' <= x <= 'z' || '0' <= x <= '9';
    assert forall k :: 0 <= k < |c| ==> c[k] in c;
    if |base| >= 3 {
      assert base[..3] == [c[0], c[1], c[2]];
    } else if i > 1 {
      assert c[|base|] == Decimal(i)[0];
    }
  }

  function Prefixes(b: Bindings): set<string> { set x | x in b :: x.prefix }

  function Tried(base: string, i: nat): set<string>
    requires i >= 1
  {
    set j: nat | 1 <= j < i :: Candidate(base, j)
  }

  lemma {:induction false} LookupIsBound(b: Bindings, p: string)
    ensures Lookup(b, p).Some? <==> p in Prefixes(b)
  {
    if b != [] {
      LookupIsBound(b[..|b| - 1], p);
      assert b == b[..|b| - 1] + [b[|b| - 1]];
    }
  }

  /** Each rejected candidate uses up one bound prefix that no earlier one did. */
  lemma SearchShrinks(b: Bindings, base: string, i: nat)
    requires PlainBase(base) && i >= 1 && NsForPrefix(b, Candidate(base, i)).Some?
    ensures Prefixes(b) - Tried(base, i + 1) < Prefixes(b) - Tried(base, i)
    ensures |Prefixes(b) - Tried(base, i + 1)| < |Prefixes(b) - Tried(base, i)|
  {
    var c := Candidate(base, i);
    CandidatePlain(base, i);
    LookupIsBound(b, c);
    forall j: nat | 1 <= j < i ensures Candidate(base, j) != c {
      CandidateInjective(base, j, i);
    }
    assert c in Prefixes(b) - Tried(base, i);
    assert Tried(base, i + 1) == Tried(base, i) + {c};
    assert Prefixes(b) - Tried(base, i + 1) == (Prefixes(b) - Tried(base, i)) - {c};
  }

  /** The first unbound candidate from number i on. The search ends because the
      stack holds finitely many prefixes and the candidates are distinct. */
  function FirstFree(b: Bindings, base: string, i: nat): (r: string)
    requires PlainBase(base) && i >= 1
    ensures r != "" && !XmlPrefixed(r) && NoColon(r) && NsForPrefix(b, r).None?
    decreases |Prefixes(b) - Tried(base, i)|
  {
    CandidatePlain(base, i);
    if NsForPrefix(b, Candidate(base, i)).None? then Candidate(base, i)
    else
      SearchShrinks(b, base, i);
      FirstFree(b, base, i + 1)
  }

  /** It is the first: every candidate before it was bound. */
  lemma {:induction false} FreeIsFirst(b: Bindings, base: string, i: nat) returns (k: nat)
    requires PlainBase(base) && i >= 1
    ensures k >= i && FirstFree(b, base, i) == Candidate(base, k)
    ensures forall j :: i <= j < k ==> NsForPrefix(b, Candidate(base, j)).Some?
    decreases |Prefixes(b) - Tried(base, i)|
  {
    hide NsForPrefix, Candidate, Prefixes, Tried, PlainBase;
    if NsForPrefix(b, Candidate(base, i)).None? {
      k := i;
    } else {
      SearchShrinks(b, base, i);
      k := FreeIsFirst(b, base, i + 1);
    }
  }

  /** The prefix AddNewPrefix invents, or None when ns is already served. */
  function NewPrefix(b: Bindings, ns: string, isAttr: bool): Option<string> {
    if Served(b, ns, isAttr) then None else Some(FirstFree(b, SuggestPrefix(ns), 1))
  }

  /** Which one: the suggested base itself, or the first of its numbered forms, that
      nothing binds; and none only where the namespace can be written already. */
  lemma InventedName(b: Bindings, ns: string, isAttr: bool) returns (k: nat)
    ensures NewPrefix(b, ns, isAttr).None? <==> PrefixForNs(b, ns, isAttr).Some?
    ensures NewPrefix(b, ns, isAttr).Some? ==>
              && k >= 1 && NewPrefix(b, ns, isAttr).value == Candidate(SuggestPrefix(ns), k)
              && (forall x :: x in b ==> x.prefix != Candidate(SuggestPrefix(ns), k))
              && forall j :: 1 <= j < k ==> exists x :: x in b && x.prefix == Candidate(SuggestPrefix(ns), j)
  {
    var base := SuggestPrefix(ns);
    k := FreeIsFirst(b, base, 1);
    forall j: nat | j >= 1
      ensures NsForPrefix(b, Candidate(base, j)).Some? <==> Candidate(base, j) in Prefixes(b)
    {
      CandidatePlain(base, j);
      LookupIsBound(b, Candidate(base, j));
    }
  }

  // ---------------------------------------------------------- consequences

  /** Pushing a binding whose prefix was unbound changes no resolution. */
  lemma AddKeepsResolutions(b: Bindings, x: Binding, q: string)
    requires NsForPrefix(b, x.prefix).None?
    ensures NsForPrefix(b, q).Some? ==> NsForPrefix(b + [x], q) == NsForPrefix(b, q)
  {
    assert (b + [x])[..|b|] == b;
  }

  /** ... nor takes a prefix away from any namespace. */
  lemma AddKeepsServed(b: Bindings, x: Binding, ns: string, isAttr: bool)
    requires NsForPrefix(b, x.prefix).None? && Served(b, ns, isAttr)
    ensures Served(b + [x], ns, isAttr)
  {
    AddKeepsResolutions(b, x, "");
    if !Implicit(b, ns, isAttr) {
      var i := ScanSound(b, |b|, ns, isAttr);
      AddKeepsResolutions(b, x, b[i].prefix);
      ScanComplete(b + [x], |b| + 1, i, ns, isAttr);
    }
  }

  /** What AddNewPrefix promises: a fresh, non-empty prefix that is not reserved
      and that from then on serves the namespace, all earlier resolutions kept. */
  lemma NewPrefixServes(b: Bindings, ns: string, isAttr: bool)
    requires NewPrefix(b, ns, isAttr).Some?
    ensures var p := NewPrefix(b, ns, isAttr).value;
      && p != "" && !XmlPrefixed(p) && NoColon(p) && NsForPrefix(b, p).None?
      && NsForPrefix(b + [Binding(p, ns)], p) == Some(ns)
      && Served(b + [Binding(p, ns)], ns, isAttr)
      && forall q :: NsForPrefix(b, q).Some? ==> NsForPrefix(b + [Binding(p, ns)], q) == NsForPrefix(b, q)
  {
    var p := NewPrefix(b, ns, isAttr).value;
    var b' := b + [Binding(p, ns)];
    assert Lookup(b', p) == Some(ns);
    ScanComplete(b', |b| + 1, |b|, ns, isAttr);
    forall q | NsForPrefix(b, q).Some? ensures NsForPrefix(b', q) == NsForPrefix(b, q) {
      AddKeepsResolutions(b, Binding(p, ns), q);
    }
  }

  /** The prefix chosen for a namespace resolves back to it. */
  lemma PrefixResolvesBack(b: Bindings, ns: string, isAttr: bool)
    requires Served(b, ns, isAttr)
    ensures var p := PrefixForNs(b, ns, isAttr).value;
      && (p == "" ==> if isAttr then ns == "" else NsForPrefix(b, "") == Some(ns))
      && (p != "" ==> NsForPrefix(b, p) == Some(ns) && (p in Prefixes(b) || p == "xml" || p == "xmlns"))
      && (XmlPrefixed(p) ==> (p == "xml" && ns == NS_XML) || (p == "xmlns" && ns == NS_XMLNS))
  {
    if !Implicit(b, ns, isAttr) {
      var i := ScanSound(b, |b|, ns, isAttr);
      assert b[i] in b;
    }
  }

  /** No prefix on the stack hides a colon. */
  predicate ColonFree(b: Bindings) { forall x :: x in b ==> NoColon(x.prefix) }

  lemma FirstColonAt(p: string, rest: string)
    requires NoColon(p)
    ensures FirstColon(p + ":" + rest) == |p|
  {
    var s := p + ":" + rest;
    var k := FirstColon(s);
    assert s[|p|] == ':';
    assert forall i :: 0 <= i < |p| ==> s[i] == p[i];
    assert forall i :: 0 <= i < k ==> s[i] in s[..k];
  }

  /** What a raw name means: a prefixed one by its prefix; a bare one is in the
      default namespace if it names an element, and in none if an attribute. */
  lemma ResolvesTo(b: Bindings, p: string, local: string, isAttr: bool)
    requires NoColon(p)
    ensures ResolveQName(b, p + ":" + local, isAttr) ==
            match NsForPrefix(b, p) case None => QName("", "") case Some(ns) => QName(ns, local)
    ensures ResolveQName(b, p, isAttr) ==
            if isAttr then QName("", p) else match NsForPrefix(b, "") case None => QName("", "") case Some(ns) => QName(ns, p)
  {
    FirstColonAt(p, local);
    var raw := p + ":" + local;
    assert raw[..|p|] == p && raw[|p| + 1..] == local;
    assert FirstColon(p) == |p|;
  }

  /** Printing a name and resolving it again gives the name back. */
  lemma ResolveInvertsFormat(b: Bindings, name: QName, isAttr: bool)
    requires ColonFree(b) && NoColon(name.local) && Served(b, name.ns, isAttr)
    ensures ResolveQName(b, FormatQName(b, name, isAttr), isAttr) == name
  {
    PrefixResolvesBack(b, name.ns, isAttr);
    var p := PrefixForNs(b, name.ns, isAttr).value;
    if p == "" {
      var k := FirstColon(name.local);
      assert k == |name.local|;
    } else {
      FirstColonAt(p, name.local);
      var raw := p + ":" + name.local;
      assert raw[..|p|] == p && raw[|p| + 1..] == name.local;
    }
  }
}
