/**
 * The escaping and highlighting of the result renderer
 * (assets/js/search.js:212-223).
 *
 * `escapeHtml` goes through the DOM (`textContent` then `innerHTML`), which is
 * the "escaping a string" algorithm of the HTML Living Standard, section 13.3
 * "Serializing HTML fragments", in non-attribute mode: `&`, U+00A0, `<` and `>`
 * become `&amp;`, `&nbsp;`, `&lt;` and `&gt;`; quotes are left alone.
 *
 * To say what a browser shows, `Render` gives the text a fragment displays,
 * for fragments made only of text, the character references above (and
 * `&quot;`) and `<strong>` / `</strong>` tags; `AttributeValue` gives the value
 * an attribute written as `name="..."` takes.
 */
module Html {
  import opened Wrappers
  import opened Text
  import RegexEscape

  const Open: string := "<strong>"
  const Close: string := "</strong>"
  const Nbsp: char := '\U{A0}'

  // ---------------------------------------------------------------------------
  // Escaping

  /** Text-mode escaping of one character. */
  function EscapeChar(c: char): string
  {
    if c == '&' then "&amp;"
    else if c == Nbsp then "&nbsp;"
    else if c == '<' then "&lt;"
    else if c == '>' then "&gt;"
    else [c]
  }

  /** `s` starts with one of the four references text-mode escaping produces. */
  predicate StartsTextEntity(s: string)
  {
    LeadingReference(s).Some? && LeadingReference(s).value.0 != '"'
  }

  /** No raw `<` or `>`, and every `&` opens `&amp;`, `&lt;`, `&gt;` or `&nbsp;`. */
  predicate SafeText(r: string)
  {
    forall i :: 0 <= i < |r| ==> r[i] != '<' && r[i] != '>' && (r[i] == '&' ==> StartsTextEntity(r[i..]))
  }

  /** One escaped character in front of safe text keeps it safe. */
  lemma SafePrefix(c: char, y: string)
    requires SafeText(y)
    ensures SafeText(EscapeChar(c) + y)
  {
    var e := EscapeChar(c);
    var r := e + y;
    assert r[..|e|] == e;
    forall i | 0 <= i < |r|
      ensures r[i] != '<' && r[i] != '>' && (r[i] == '&' ==> StartsTextEntity(r[i..]))
    {
      if i >= |e| {
        assert r[i] == y[i - |e|];
        assert r[i..] == y[i - |e|..];
      } else if i == 0 && r[i] == '&' {
        assert r[i..][..|e|] == e;
      }
    }
  }

  /** `escapeHtml(text)`. */
  function EscapeHtml(s: string): (r: string)
    ensures |r| >= |s|
  {
    if s == [] then [] else EscapeChar(s[0]) + EscapeHtml(s[1..])
  }

  /** The result of `escapeHtml` is safe to place between tags. */
  lemma {:induction false} EscapeHtmlSafe(s: string)
    ensures SafeText(EscapeHtml(s))
  {
    if s != [] {
      EscapeHtmlSafe(s[1..]);
      SafePrefix(s[0], EscapeHtml(s[1..]));
    }
  }

  lemma {:induction false} EscapeHtmlConcat(a: string, b: string)
    ensures EscapeHtml(a + b) == EscapeHtml(a) + EscapeHtml(b)
  {
    if a == [] {
      assert a + b == b;
    } else {
      assert (a + b)[0] == a[0];
      assert (a + b)[1..] == a[1..] + b;
      EscapeHtmlConcat(a[1..], b);
    }
  }

  /** Attribute-mode escaping of one character. */
  function EscapeAttributeChar(c: char): string
  {
    if c == '"' then "&quot;" else EscapeChar(c)
  }

  /**
   * Attribute-mode escaping, as a `"`-quoted attribute value needs: `"` as
   * well as `&`, U+00A0, `<` and `>` are replaced by references.
   */
  function EscapeAttribute(s: string): (r: string)
    ensures forall i :: 0 <= i < |r| ==> r[i] != '"'
  {
    if s == [] then []
    else EscapeAttributeChar(s[0]) + EscapeAttribute(s[1..])
  }

  // ---------------------------------------------------------------------------
  // Reading markup back

  /** The character a reference at the start of `s` stands for, and its length. */
  function LeadingReference(s: string): (r: Option<(char, nat)>)
    ensures r.Some? ==> 1 <= r.value.1 <= |s|
  {
    if |s| < 4 || s[0] != '&' then None
    else if s[1] == 'l' && s[2] == 't' && s[3] == ';' then Some(('<', 4))
    else if s[1] == 'g' && s[2] == 't' && s[3] == ';' then Some(('>', 4))
    else if |s| < 5 then None
    else if s[1] == 'a' && s[2] == 'm' && s[3] == 'p' && s[4] == ';' then Some(('&', 5))
    else if |s| < 6 then None
    else if s[1] == 'n' && s[2] == 'b' && s[3] == 's' && s[4] == 'p' && s[5] == ';' then Some((Nbsp, 6))
    else if s[1] == 'q' && s[2] == 'u' && s[3] == 'o' && s[4] == 't' && s[5] == ';' then Some(('"', 6))
    else None
  }

  /** `s` starts with the marker `<strong>`. */
  predicate AtOpen(s: string)
  {
    |s| >= 8 && s[0] == '<' && s[1] == 's' && s[2] == 't' && s[3] == 'r' &&
    s[4] == 'o' && s[5] == 'n' && s[6] == 'g' && s[7] == '>'
  }

  /** `s` starts with the marker `</strong>`. */
  predicate AtClose(s: string)
  {
    |s| >= 9 && s[0] == '<' && s[1] == '/' && s[2] == 's' && s[3] == 't' &&
    s[4] == 'r' && s[5] == 'o' && s[6] == 'n' && s[7] == 'g' && s[8] == '>'
  }

  /** The text a fragment displays: tags dropped, references decoded. */
  function Render(s: string): string
    decreases |s|
  {
    if s == [] then []
    else if AtOpen(s) then Render(s[|Open|..])
    else if AtClose(s) then Render(s[|Close|..])
    else if LeadingReference(s).Some? then
      var (c, n) := LeadingReference(s).value;
      [c] + Render(s[n..])
    else [s[0]] + Render(s[1..])
  }

  /** The references in `s` decoded (the content of an attribute value). */
  function DecodeReferences(s: string): string
    decreases |s|
  {
    if s == [] then []
    else if LeadingReference(s).Some? then
      var (c, n) := LeadingReference(s).value;
      [c] + DecodeReferences(s[n..])
    else [s[0]] + DecodeReferences(s[1..])
  }

  /** The characters before the first `"`: where a `"`-quoted attribute value ends. */
  function UpToQuote(s: string): string
  {
    if s == [] || s[0] == '"' then [] else [s[0]] + UpToQuote(s[1..])
  }

  /** The value `getAttribute` returns for an attribute written `name="raw..."`. */
  function AttributeValue(raw: string): string
  {
    DecodeReferences(UpToQuote(raw))
  }

  lemma RenderOpen(y: string)
    ensures Render(Open + y) == Render(y)
  {
    var s := Open + y;
    assert s[..|Open|] == Open;
    assert s[|Open|..] == y;
  }

  lemma RenderClose(y: string)
    ensures Render(Close + y) == Render(y)
  {
    var s := Close + y;
    assert s[1] != Open[1];
    assert s[..|Close|] == Close;
    assert s[|Close|..] == y;
  }

  lemma RenderEscapedChar(c: char, y: string)
    ensures Render(EscapeChar(c) + y) == [c] + Render(y)
  {
    var e := EscapeChar(c);
    var s := e + y;
    assert s[0] == e[0];
    assert s[..|e|] == e;
    assert s[|e|..] == y;
    if c == '&' || c == Nbsp || c == '<' || c == '>' {
      assert s[1] == e[1];
    }
  }

  lemma EscapeFirstThen(t: string, y: string)
    requires t != []
    ensures EscapeHtml(t) + y == EscapeChar(t[0]) + (EscapeHtml(t[1..]) + y)
  {
  }

  lemma ConsRegroup(t: string, z: string)
    requires t != []
    ensures [t[0]] + (t[1..] + z) == t + z
  {
    assert [t[0]] + t[1..] == t;
  }

  /** Rendering the escape of `t` shows `t`, whatever follows it. */
  lemma {:induction false} RenderEscaped(t: string, y: string)
    ensures Render(EscapeHtml(t) + y) == t + Render(y)
  {
    if t != [] {
      var rest := EscapeHtml(t[1..]) + y;
      EscapeFirstThen(t, y);
      RenderEscapedChar(t[0], rest);
      RenderEscaped(t[1..], y);
      ConsRegroup(t, Render(y));
    } else {
      assert EscapeHtml(t) + y == y;
    }
  }

  /** Text-mode escaping round-trips: the escaped title displays as the title. */
  lemma EscapeHtmlRoundTrip(t: string)
    ensures Render(EscapeHtml(t)) == t
  {
    RenderEscaped(t, []);
    assert EscapeHtml(t) + [] == EscapeHtml(t);
  }

  lemma DecodeEscapedAttributeChar(c: char, y: string)
    ensures DecodeReferences(EscapeAttributeChar(c) + y) == [c] + DecodeReferences(y)
  {
    var e := EscapeAttributeChar(c);
    var s := e + y;
    assert s[..|e|] == e;
    assert s[|e|..] == y;
    if c == '"' || c == '&' || c == Nbsp || c == '<' || c == '>' {
      assert s[0] == '&' && s[1] == e[1] && s[2] == e[2] && s[3] == e[3];
      if |e| > 4 {
        assert s[4] == e[4];
      }
      if |e| > 5 {
        assert s[5] == e[5];
      }
    } else {
      assert s[0] == c;
    }
  }

  lemma {:induction false} DecodeEscapedAttribute(u: string)
    ensures DecodeReferences(EscapeAttribute(u)) == u
  {
    if u != [] {
      DecodeEscapedAttributeChar(u[0], EscapeAttribute(u[1..]));
      DecodeEscapedAttribute(u[1..]);
      assert [u[0]] + u[1..] == u;
    }
  }

  /** `s` holds no `"`. */
  predicate NoQuote(s: string)
  {
    forall i :: 0 <= i < |s| ==> s[i] != '"'
  }

  lemma {:induction false} UpToQuoteNoQuote(s: string)
    requires NoQuote(s)
    ensures UpToQuote(s) == s
  {
    if s != [] {
      UpToQuoteNoQuote(s[1..]);
      assert [s[0]] + s[1..] == s;
    }
  }

  /** Corrected `data-url`: an attribute-escaped url is read back unchanged. */
  lemma AttributeRoundTrip(u: string)
    ensures AttributeValue(EscapeAttribute(u)) == u
  {
    UpToQuoteNoQuote(EscapeAttribute(u));
    DecodeEscapedAttribute(u);
  }

  /** What comes before the first `"` holds none. */
  lemma {:induction false} UpToQuoteIsQuoteFree(s: string)
    ensures NoQuote(UpToQuote(s))
  {
    if s != [] && s[0] != '"' {
      UpToQuoteIsQuoteFree(s[1..]);
    }
  }

  lemma {:induction false} UpToQuoteAfter(x: string, y: string)
    requires NoQuote(x)
    ensures UpToQuote(x + y) == x + UpToQuote(y)
  {
    if x == [] {
      assert x + y == y;
    } else {
      var s := x + y;
      assert s[0] == x[0] && s[1..] == x[1..] + y;
      UpToQuoteAfter(x[1..], y);
      assert [x[0]] + x[1..] == x;
    }
  }

  lemma EscapeCharNoQuote(c: char)
    requires c != '"'
    ensures NoQuote(EscapeChar(c))
  {
  }

  /** Text-mode escaping adds no `"` and keeps each one in place: the cut falls where it fell. */
  lemma {:induction false} UpToQuoteEscaped(u: string)
    ensures UpToQuote(EscapeHtml(u)) == EscapeHtml(UpToQuote(u))
  {
    if u != [] && u[0] != '"' {
      EscapeCharNoQuote(u[0]);
      UpToQuoteEscaped(u[1..]);
      UpToQuoteAfter(EscapeChar(u[0]), EscapeHtml(u[1..]));
    }
  }

  /** Without `"`, text-mode and attribute-mode escaping agree. */
  lemma {:induction false} EscapeHtmlWithoutQuote(u: string)
    requires NoQuote(u)
    ensures EscapeHtml(u) == EscapeAttribute(u)
  {
    if u != [] {
      EscapeHtmlWithoutQuote(u[1..]);
    }
  }

  /**
   * `data-url` as written: `getAttribute` gives back the url up to its first
   * `"`, which is the whole url exactly when the url holds no `"`.
   */
  lemma DataUrlReadBack(u: string)
    ensures AttributeValue(EscapeHtml(u)) == UpToQuote(u)
    ensures AttributeValue(EscapeHtml(u)) == u <==> NoQuote(u)
  {
    var v := UpToQuote(u);
    UpToQuoteEscaped(u);
    UpToQuoteIsQuoteFree(u);
    EscapeHtmlWithoutQuote(v);
    DecodeEscapedAttribute(v);
    if NoQuote(u) {
      UpToQuoteNoQuote(u);
    }
  }

  /** As written, `escapeHtml` keeps `"`, so a url holding one is cut short in `data-url`. */
  lemma QuoteCutsDataUrl()
    ensures EscapeHtml("/a\"b") == "/a\"b"
    ensures AttributeValue(EscapeHtml("/a\"b")) == "/a"
  {
    assert EscapeHtml("\"b") == "\"b";
    assert EscapeHtml("a\"b") == "a\"b";
    assert EscapeHtml("/a\"b") == "/a\"b";
    assert UpToQuote("\"b") == [];
    assert UpToQuote("/a\"b") == "/a";
    assert DecodeReferences("a") == "a";
  }

  // ---------------------------------------------------------------------------
  // Highlighting

  /** The pattern `(q)` with flag `i` matches at the start of `e` (case folded as `Fold`). */
  predicate MatchesAt(e: string, q: string)
  {
    |q| <= |e| && forall j :: 0 <= j < |q| ==> Fold(e[j]) == Fold(q[j])
  }

  /**
   * A global replace of the literal pattern `q` by `<strong>$1</strong>`:
   * scanning left to right, each match is wrapped and the scan resumes after
   * it; an empty pattern matches before every character and at the end.
   */
  function WrapMatches(e: string, q: string): (r: string)
    ensures |r| >= |e|
    decreases |e|
  {
    if |q| == 0 then Open + Close + (if e == [] then [] else [e[0]] + WrapMatches(e[1..], q))
    else if MatchesAt(e, q) then Open + e[..|q|] + Close + WrapMatches(e[|q|..], q)
    else if e == [] then []
    else [e[0]] + WrapMatches(e[1..], q)
  }

  /** `s` with every `<strong>` and `</strong>` marker taken out. */
  function StripMarkers(s: string): string
    decreases |s|
  {
    if s == [] then []
    else if AtOpen(s) then StripMarkers(s[|Open|..])
    else if AtClose(s) then StripMarkers(s[|Close|..])
    else [s[0]] + StripMarkers(s[1..])
  }

  predicate NoOpenAngle(s: string)
  {
    forall i :: 0 <= i < |s| ==> s[i] != '<'
  }

  lemma StripOpen(y: string)
    ensures StripMarkers(Open + y) == StripMarkers(y)
  {
    var s := Open + y;
    assert s[..|Open|] == Open;
    assert s[|Open|..] == y;
  }

  lemma StripClose(y: string)
    ensures StripMarkers(Close + y) == StripMarkers(y)
  {
    var s := Close + y;
    assert s[1] != Open[1];
    assert s[..|Close|] == Close;
    assert s[|Close|..] == y;
  }

  lemma {:induction false} StripPlain(a: string, y: string)
    requires NoOpenAngle(a)
    ensures StripMarkers(a + y) == a + StripMarkers(y)
  {
    if a == [] {
      assert a + y == y;
    } else {
      assert (a + y)[0] == a[0];
      assert (a + y)[1..] == a[1..] + y;
      StripPlain(a[1..], y);
      assert [a[0]] + (a[1..] + StripMarkers(y)) == ([a[0]] + a[1..]) + StripMarkers(y);
      assert [a[0]] + a[1..] == a;
    }
  }

  /** Markers around a marker-free piece are taken out, the piece stays. */
  lemma StripAround(m: string, y: string)
    requires NoOpenAngle(m)
    ensures StripMarkers(Open + m + Close + y) == m + StripMarkers(y)
  {
    assert Open + m + Close + y == Open + (m + (Close + y));
    StripOpen(m + (Close + y));
    StripPlain(m, Close + y);
    StripClose(y);
  }

  lemma StripOneChar(c: char, y: string)
    requires c != '<'
    ensures StripMarkers([c] + y) == [c] + StripMarkers(y)
  {
    StripPlain([c], y);
  }

  lemma StripWrappedNil(e: string, q: string)
    requires |q| == 0 && e == []
    ensures StripMarkers(WrapMatches(e, q)) == e
  {
    assert WrapMatches(e, q) == Open + [] + Close + [];
    StripAround([], []);
  }

  lemma StripWrappedEmpty(e: string, q: string)
    requires |q| == 0 && e != [] && e[0] != '<'
    requires StripMarkers(WrapMatches(e[1..], q)) == e[1..]
    ensures StripMarkers(WrapMatches(e, q)) == e
  {
    StripOneChar(e[0], WrapMatches(e[1..], q));
    var y := [e[0]] + WrapMatches(e[1..], q);
    assert WrapMatches(e, q) == Open + [] + Close + y;
    StripAround([], y);
    assert [e[0]] + e[1..] == e;
  }

  lemma StripWrappedMatch(e: string, q: string)
    requires |q| > 0 && MatchesAt(e, q) && NoOpenAngle(e)
    requires StripMarkers(WrapMatches(e[|q|..], q)) == e[|q|..]
    ensures StripMarkers(WrapMatches(e, q)) == e
  {
    WrapAtMatch(e, q);
    StripMarked(e, |q|, WrapMatches(e, q), WrapMatches(e[|q|..], q));
  }

  lemma StripMarked(e: string, n: nat, x: string, y: string)
    requires n <= |e| && NoOpenAngle(e)
    requires x == Open + e[..n] + Close + y && StripMarkers(y) == e[n..]
    ensures StripMarkers(x) == e
  {
    var m := e[..n];
    assert NoOpenAngle(m);
    StripAround(m, y);
    assert m + e[n..] == e;
  }

  lemma WrapAtMatch(e: string, q: string)
    requires |q| > 0 && MatchesAt(e, q)
    ensures WrapMatches(e, q) == Open + e[..|q|] + Close + WrapMatches(e[|q|..], q)
  {
  }

  lemma StripWrappedSkip(e: string, q: string)
    requires |q| > 0 && !MatchesAt(e, q) && e != [] && e[0] != '<'
    requires StripMarkers(WrapMatches(e[1..], q)) == e[1..]
    ensures StripMarkers(WrapMatches(e, q)) == e
  {
    StripOneChar(e[0], WrapMatches(e[1..], q));
    assert [e[0]] + e[1..] == e;
  }

  /** Taking the markers out of the wrapped text gives the text back. */
  lemma {:induction false} StripWrapped(e: string, q: string)
    requires NoOpenAngle(e)
    ensures StripMarkers(WrapMatches(e, q)) == e
    decreases |e|
  {
    if |q| == 0 {
      if e == [] {
        StripWrappedNil(e, q);
      } else {
        StripWrapped(e[1..], q);
        StripWrappedEmpty(e, q);
      }
    } else if MatchesAt(e, q) {
      StripWrapped(e[|q|..], q);
      StripWrappedMatch(e, q);
    } else if e != [] {
      StripWrapped(e[1..], q);
      StripWrappedSkip(e, q);
    }
  }

  /**
   * `highlightMatch(text, query)`: the title is escaped, then every
   * case-insensitive occurrence of the query in the ESCAPED text is wrapped in
   * `<strong>`; the pattern is built from `escapeRegex(query)`, which stands for
   * the query itself. Taking the markers out gives back exactly the escaped title.
   */
  function HighlightMatch(text: string, query: string): (r: string)
    ensures StripMarkers(r) == EscapeHtml(text)
  {
    RegexEscape.EscapeRegexIsLiteral(query);
    var literal := RegexEscape.LiteralPattern(RegexEscape.EscapeRegex(query)).value;
    EscapeHtmlSafe(text);
    StripWrapped(EscapeHtml(text), literal);
    WrapMatches(EscapeHtml(text), literal)
  }

  /** The query holds a `<` or a `>`. */
  predicate HasAngle(q: string)
  {
    exists j :: 0 <= j < |q| && (q[j] == '<' || q[j] == '>')
  }

  lemma {:induction false} WrapWithoutMatch(e: string, q: string)
    requires |q| > 0 && HasAngle(q)
    requires forall i :: 0 <= i < |e| ==> e[i] != '<' && e[i] != '>'
    ensures WrapMatches(e, q) == e
    decreases |e|
  {
    var j :| 0 <= j < |q| && (q[j] == '<' || q[j] == '>');
    if |q| <= |e| {
      assert Lower(e[..|q|])[j] == Fold(e[j]) != q[j] == Lower(q)[j];
    }
    if e != [] {
      WrapWithoutMatch(e[1..], q);
      assert [e[0]] + e[1..] == e;
    }
  }

  /**
   * A query holding `<` or `>` never highlights: matching runs on escaped text,
   * where neither character occurs raw.
   */
  lemma NoHighlightForAngleQuery(text: string, query: string)
    requires HasAngle(query)
    ensures HighlightMatch(text, query) == EscapeHtml(text)
  {
    RegexEscape.EscapeRegexIsLiteral(query);
    EscapeHtmlSafe(text);
    WrapWithoutMatch(EscapeHtml(text), query);
  }

  /** A text none of whose characters folds to the query's first one is copied unchanged. */
  lemma {:induction false} WrapNoStart(e: string, q: string)
    requires |q| > 0
    requires forall i :: 0 <= i < |e| ==> Fold(e[i]) != Fold(q[0])
    ensures WrapMatches(e, q) == e
    decreases |e|
  {
    if e != [] {
      assert !MatchesAt(e, q) by {
        if |q| <= |e| {
          assert Fold(e[0]) != Fold(q[0]);
        }
      }
      WrapNoStart(e[1..], q);
      assert [e[0]] + e[1..] == e;
    }
  }

  lemma RenderPlain(a: string, y: string)
    requires forall i :: 0 <= i < |a| ==> a[i] != '<' && a[i] != '&'
    ensures Render(a + y) == a + Render(y)
    decreases |a|
  {
    if a == [] {
      assert a + y == y;
    } else {
      assert (a + y)[0] == a[0];
      assert (a + y)[1..] == a[1..] + y;
      RenderPlain(a[1..], y);
      assert [a[0]] + (a[1..] + Render(y)) == ([a[0]] + a[1..]) + Render(y);
      assert [a[0]] + a[1..] == a;
    }
  }

  /**
   * Any query, syntax characters included, is matched literally (and case
   * folded) in the escaped title.
   */
  lemma HighlightPlainQuery(text: string, q: string)
    ensures HighlightMatch(text, q) == WrapMatches(EscapeHtml(text), q)
  {
    RegexEscape.EscapeRegexIsLiteral(q);
  }

  /** No character of `a` is one that text-mode escaping replaces. */
  predicate NothingToEscape(a: string)
  {
    forall i :: 0 <= i < |a| ==> a[i] != '&' && a[i] != Nbsp && a[i] != '<' && a[i] != '>'
  }

  lemma {:induction false} EscapeHtmlPlain(a: string)
    requires NothingToEscape(a)
    ensures EscapeHtml(a) == a
  {
    if a != [] {
      EscapeHtmlPlain(a[1..]);
      assert [a[0]] + a[1..] == a;
    }
  }

  lemma EscapeHtmlCons(c: char, y: string)
    ensures EscapeHtml([c] + y) == EscapeChar(c) + EscapeHtml(y)
  {
    var s := [c] + y;
    assert s[0] == c && s[1..] == y;
  }

  /** Only the one character between two plain pieces is escaped. */
  lemma EscapeAround(a: string, c: char, b: string)
    requires NothingToEscape(a) && NothingToEscape(b)
    ensures EscapeHtml(a + [c] + b) == a + EscapeChar(c) + b
  {
    var cb := [c] + b;
    EscapeHtmlCons(c, b);
    EscapeHtmlPlain(a);
    EscapeHtmlPlain(b);
    EscapeHtmlConcat(a, cb);
    Regroup(a, [c], b, cb);
    Regroup(a, EscapeChar(c), b, EscapeChar(c) + b);
  }

  lemma Regroup(a: string, m: string, b: string, mb: string)
    requires mb == m + b
    ensures a + mb == a + m + b
  {
  }

  /** `EscapeHtml(a + "&" + b)` for `a` and `b` with nothing to escape. */
  lemma EscapeAroundAmpersand(a: string, b: string)
    requires NothingToEscape(a) && NothingToEscape(b)
    ensures EscapeHtml(a + "&" + b) == a + "&amp;" + b
  {
    EscapeAround(a, '&', b);
  }

  lemma WrapAtSkip(e: string, q: string)
    requires |q| > 0 && !MatchesAt(e, q) && e != []
    ensures WrapMatches(e, q) == [e[0]] + WrapMatches(e[1..], q)
  {
  }

  lemma WrapReferenceTail(e: string, q: string)
    requires e == "&amp;" && q == "am"
    ensures WrapMatches(e, q) == "&" + Open + "am" + Close + "p;"
  {
    var e1, e3 := e[1..], e[3..];
    assert e1[2..] == e3;
    WrapNoStart(e3, q);
    WrapAtMatch(e1, q);
    assert !MatchesAt(e, q) by {
      assert Fold(e[0]) != Fold(q[0]);
    }
    WrapAtSkip(e, q);
    assert WrapMatches(e, q) == [e[0]] + (Open + e1[..2] + Close + e3);
  }

  lemma WrapTitleWithAmpersand(e: string, q: string)
    requires e == "am&amp;" && q == "am"
    ensures WrapMatches(e, q) == Open + "am" + Close + "&" + Open + "am" + Close + "p;"
  {
    var tail := "&" + Open + "am" + Close + "p;";
    WrapReferenceTail(e[2..], q);
    WrapAtMatch(e, q);
    assert WrapMatches(e, q) == Open + e[..2] + Close + tail;
  }

  /** An `&` directly followed by a tag is not a reference and shows as itself. */
  lemma RenderLoneAmpersand(y: string)
    requires y != [] && y[0] == '<'
    ensures Render("&" + y) == "&" + Render(y)
  {
    var s := "&" + y;
    assert s[1] == '<';
    assert s[1..] == y;
  }

  /** Markers around a piece with no `<` and no `&` are dropped. */
  lemma RenderMarkedPlain(m: string, y: string)
    requires forall i :: 0 <= i < |m| ==> m[i] != '<' && m[i] != '&'
    ensures Render(Open + m + Close + y) == m + Render(y)
  {
    assert Open + m + Close + y == Open + (m + (Close + y));
    RenderOpen(m + (Close + y));
    RenderPlain(m, Close + y);
    RenderClose(y);
  }

  /** A piece marked twice around a lone `&`, then plain text: only the markers go. */
  lemma RenderMarkedTwice(m: string, p: string, r: string)
    requires forall i :: 0 <= i < |m| ==> m[i] != '<' && m[i] != '&'
    requires forall i :: 0 <= i < |p| ==> p[i] != '<' && p[i] != '&'
    requires r == Open + m + Close + "&" + Open + m + Close + p
    ensures Render(r) == m + "&" + m + p
  {
    var tail := Open + m + Close + p;
    assert r == Open + m + Close + ("&" + tail);
    RenderPlain(p, []);
    assert p + [] == p;
    RenderMarkedPlain(m, p);
    assert tail[0] == Open[0] == '<';
    RenderLoneAmpersand(tail);
    RenderMarkedPlain(m, "&" + tail);
  }

  lemma RenderSplitTitle(r: string)
    requires r == Open + "am" + Close + "&" + Open + "am" + Close + "p;"
    ensures Render(r) == "am&amp;"
  {
    RenderMarkedTwice("am", "p;", r);
  }

  /**
   * As written, a query can match inside a character reference: the title
   * "am&" searched with "am" also highlights the `am` of `&amp;`, and the
   * browser then shows the reference literally.
   */
  lemma HighlightSplitsReference(title: string, query: string)
    requires title == "am&" && query == "am"
    ensures HighlightMatch(title, query) == Open + "am" + Close + "&" + Open + "am" + Close + "p;"
    ensures Render(HighlightMatch(title, query)) == "am&amp;"
  {
    var e := EscapeHtml(title);
    assert e == "am&amp;" by {
      EscapeAroundAmpersand("am", "");
      assert "am" + "&" + "" == title;
    }
    HighlightPlainQuery(title, query);
    WrapTitleWithAmpersand(e, query);
    RenderSplitTitle(HighlightMatch(title, query));
  }

  lemma WrapAmpersandQuery(e: string, q: string)
    requires e == "a&amp;b" && q == "a&"
    ensures WrapMatches(e, q) == Open + "a&" + Close + "amp;b"
  {
    var e2, e3 := e[2..], e[3..];
    assert e2[1..] == e3;
    WrapNoStart(e3, q);
    assert !MatchesAt(e2, q) by {
      assert Fold(e2[1]) != Fold(q[1]);
    }
    WrapAtSkip(e2, q);
    WrapAtMatch(e, q);
    assert WrapMatches(e, q) == Open + e[..2] + Close + ([e2[0]] + e3);
  }

  /** As written, a query with `&` can also match: "a&" in the title "a&b" wraps part of `&amp;`. */
  lemma HighlightAmpersandQuery(title: string, query: string)
    requires title == "a&b" && query == "a&"
    ensures HighlightMatch(title, query) == Open + "a&" + Close + "amp;b"
  {
    var e := EscapeHtml(title);
    assert e == "a&amp;b" by {
      EscapeAroundAmpersand("a", "b");
      assert "a" + "&" + "b" == title;
    }
    HighlightPlainQuery(title, query);
    WrapAmpersandQuery(e, query);
  }

  /**
   * Corrected highlighting: occurrences are found in the title itself and each
   * piece is escaped on its own, so no marker can fall inside a reference.
   */
  function WrapMatchesEscaped(t: string, q: string): string
    decreases |t|
  {
    if |q| == 0 then Open + Close + (if t == [] then [] else EscapeChar(t[0]) + WrapMatchesEscaped(t[1..], q))
    else if MatchesAt(t, q) then Open + EscapeHtml(t[..|q|]) + Close + WrapMatchesEscaped(t[|q|..], q)
    else if t == [] then []
    else EscapeChar(t[0]) + WrapMatchesEscaped(t[1..], q)
  }

  /** Markers around an escaped piece are dropped, the piece displays as itself. */
  lemma RenderAround(m: string, y: string)
    ensures Render(Open + EscapeHtml(m) + Close + y) == m + Render(y)
  {
    assert Open + EscapeHtml(m) + Close + y == Open + (EscapeHtml(m) + (Close + y));
    RenderOpen(EscapeHtml(m) + (Close + y));
    RenderEscaped(m, Close + y);
    RenderClose(y);
  }

  lemma RenderMarkers(y: string)
    ensures Render(Open + Close + y) == Render(y)
  {
    assert Open + Close + y == Open + (Close + y);
    RenderOpen(Close + y);
    RenderClose(y);
  }

  lemma RenderWrappedNil(t: string, q: string)
    requires |q| == 0 && t == []
    ensures Render(WrapMatchesEscaped(t, q)) == t
  {
    RenderMarkers([]);
  }

  lemma RenderWrappedEmpty(t: string, q: string)
    requires |q| == 0 && t != []
    requires Render(WrapMatchesEscaped(t[1..], q)) == t[1..]
    ensures Render(WrapMatchesEscaped(t, q)) == t
  {
    var y := EscapeChar(t[0]) + WrapMatchesEscaped(t[1..], q);
    assert WrapMatchesEscaped(t, q) == Open + Close + y;
    RenderMarkers(y);
    RenderEscapedChar(t[0], WrapMatchesEscaped(t[1..], q));
    assert [t[0]] + t[1..] == t;
  }

  lemma WrapEscapedAtMatch(t: string, q: string)
    requires |q| > 0 && MatchesAt(t, q)
    ensures WrapMatchesEscaped(t, q) == Open + EscapeHtml(t[..|q|]) + Close + WrapMatchesEscaped(t[|q|..], q)
  {
  }

  lemma RenderWrappedMatch(t: string, q: string)
    requires |q| > 0 && MatchesAt(t, q)
    requires Render(WrapMatchesEscaped(t[|q|..], q)) == t[|q|..]
    ensures Render(WrapMatchesEscaped(t, q)) == t
  {
    var m, rest := t[..|q|], t[|q|..];
    assert m + rest == t;
    var y := WrapMatchesEscaped(rest, q);
    WrapEscapedAtMatch(t, q);
    RenderAround(m, y);
  }

  lemma RenderWrappedSkip(t: string, q: string)
    requires |q| > 0 && !MatchesAt(t, q) && t != []
    requires Render(WrapMatchesEscaped(t[1..], q)) == t[1..]
    ensures Render(WrapMatchesEscaped(t, q)) == t
  {
    assert WrapMatchesEscaped(t, q) == EscapeChar(t[0]) + WrapMatchesEscaped(t[1..], q);
    RenderEscapedChar(t[0], WrapMatchesEscaped(t[1..], q));
    assert [t[0]] + t[1..] == t;
  }

  lemma {:induction false} RenderWrappedEscaped(t: string, q: string)
    ensures Render(WrapMatchesEscaped(t, q)) == t
    decreases |t|
  {
    if |q| == 0 {
      if t != [] {
        RenderWrappedEscaped(t[1..], q);
        RenderWrappedEmpty(t, q);
      } else {
        RenderWrappedNil(t, q);
      }
    } else if MatchesAt(t, q) {
      RenderWrappedEscaped(t[|q|..], q);
      RenderWrappedMatch(t, q);
    } else if t != [] {
      RenderWrappedEscaped(t[1..], q);
      RenderWrappedSkip(t, q);
    }
  }

  /** Corrected `highlightMatch`: the highlighted title always displays as the title. */
  function HighlightMatchFixed(text: string, query: string): (r: string)
    ensures Render(r) == text
  {
    RegexEscape.EscapeRegexIsLiteral(query);
    var literal := RegexEscape.LiteralPattern(RegexEscape.EscapeRegex(query)).value;
    RenderWrappedEscaped(text, literal);
    WrapMatchesEscaped(text, literal)
  }

  // ---------------------------------------------------------------------------
  // What gets highlighted

  /** No occurrence of `q` starts before position `i` of `e`. */
  predicate NoMatchBefore(e: string, q: string, i: int)
    requires 0 <= i <= |e| + 1
  {
    forall j :: 0 <= j < i ==> !MatchesAt(e[j..], q)
  }

  lemma NoMatchBeforeTail(e: string, q: string, i: nat)
    requires 0 < i <= |e| + 1 && NoMatchBefore(e, q, i) && e != []
    ensures !MatchesAt(e, q) && NoMatchBefore(e[1..], q, i - 1)
  {
    assert e[0..] == e;
    forall j | 0 <= j < i - 1
      ensures !MatchesAt(e[1..][j..], q)
    {
      assert e[1..][j..] == e[j + 1..];
    }
  }

  lemma PrefixStep(e: string, i: nat, x: string, r: string)
    requires 0 < i <= |e| && x == e[1..][..i - 1] + r
    ensures [e[0]] + x == e[..i] + r
  {
    assert [e[0]] + e[1..][..i - 1] == e[..i];
  }

  /** The characters before the first occurrence are copied unchanged. */
  lemma {:induction false} WrapSkipPrefix(e: string, q: string, i: nat)
    requires |q| > 0 && i <= |e| && NoMatchBefore(e, q, i)
    ensures WrapMatches(e, q) == e[..i] + WrapMatches(e[i..], q)
    decreases i
  {
    if i > 0 {
      NoMatchBeforeTail(e, q, i);
      WrapAtSkip(e, q);
      WrapSkipPrefix(e[1..], q, i - 1);
      assert e[1..][i - 1..] == e[i..];
      PrefixStep(e, i, WrapMatches(e[1..], q), WrapMatches(e[i..], q));
    }
  }

  /** Slicing a suffix again is slicing the text. */
  lemma SuffixSlices(e: string, i: nat, n: nat)
    requires i + n <= |e|
    ensures e[i..][..n] == e[i..i + n] && e[i..][n..] == e[i + n..]
  {
  }

  /** Text in which the query never occurs is left without markers. */
  lemma WrapNoMatch(e: string, q: string)
    requires |q| > 0 && NoMatchBefore(e, q, |e| + 1)
    ensures WrapMatches(e, q) == e
  {
    WrapSkipPrefix(e, q, |e|);
    assert e[..|e|] == e;
    assert !MatchesAt(e[|e|..], q);
  }

  /**
   * The first occurrence of the query is wrapped in the markers, everything
   * before it is copied, and the scan goes on right after it.
   */
  lemma WrapFirstMatch(e: string, q: string, i: nat)
    requires |q| > 0 && i <= |e| && NoMatchBefore(e, q, i) && MatchesAt(e[i..], q)
    ensures i + |q| <= |e|
    ensures WrapMatches(e, q) == e[..i] + Open + e[i..i + |q|] + Close + WrapMatches(e[i + |q|..], q)
  {
    WrapSuffixMatch(e, q, i, e[i..]);
  }

  /** At an occurrence named by `s`, the occurrence is wrapped and the scan resumes after it. */
  lemma WrapMatchAt(e: string, q: string, i: nat, s: string)
    requires |q| > 0 && i <= |e| && s == e[i..] && MatchesAt(s, q)
    ensures i + |q| <= |e|
    ensures WrapMatches(s, q) == Open + e[i..i + |q|] + Close + WrapMatches(e[i + |q|..], q)
  {
    SuffixSlices(e, i, |q|);
    WrapAtMatch(s, q);
  }

  /** The skipped prefix and the wrapped occurrence put together. */
  lemma WrapJoin(e: string, q: string, i: nat)
    requires i + |q| <= |e|
    requires WrapMatches(e, q) == e[..i] + WrapMatches(e[i..], q)
    requires WrapMatches(e[i..], q) == Open + e[i..i + |q|] + Close + WrapMatches(e[i + |q|..], q)
    ensures WrapMatches(e, q) == e[..i] + Open + e[i..i + |q|] + Close + WrapMatches(e[i + |q|..], q)
  {
    AfterPrefix(WrapMatches(e, q), e[..i], WrapMatches(e[i..], q), e[i..i + |q|], WrapMatches(e[i + |q|..], q));
  }

  /** The corrected wrapper at an occurrence named by `s`. */
  lemma WrapEscapedMatchAt(t: string, q: string, i: nat, s: string)
    requires |q| > 0 && i <= |t| && s == t[i..] && MatchesAt(s, q)
    ensures i + |q| <= |t|
    ensures WrapMatchesEscaped(s, q) == Open + EscapeHtml(t[i..i + |q|]) + Close + WrapMatchesEscaped(t[i + |q|..], q)
  {
    SuffixSlices(t, i, |q|);
    WrapEscapedAtMatch(s, q);
  }

  /** The escaped prefix and the wrapped occurrence put together. */
  lemma WrapEscapedJoin(t: string, q: string, i: nat)
    requires i + |q| <= |t|
    requires WrapMatchesEscaped(t, q) == EscapeHtml(t[..i]) + WrapMatchesEscaped(t[i..], q)
    requires WrapMatchesEscaped(t[i..], q) == Open + EscapeHtml(t[i..i + |q|]) + Close + WrapMatchesEscaped(t[i + |q|..], q)
    ensures WrapMatchesEscaped(t, q) ==
      EscapeHtml(t[..i]) + Open + EscapeHtml(t[i..i + |q|]) + Close + WrapMatchesEscaped(t[i + |q|..], q)
  {
    AfterPrefix(WrapMatchesEscaped(t, q), EscapeHtml(t[..i]), WrapMatchesEscaped(t[i..], q),
      EscapeHtml(t[i..i + |q|]), WrapMatchesEscaped(t[i + |q|..], q));
  }

  /** `WrapFirstMatch` with the suffix at the occurrence named by `s`. */
  lemma WrapSuffixMatch(e: string, q: string, i: nat, s: string)
    requires |q| > 0 && i <= |e| && s == e[i..] && NoMatchBefore(e, q, i) && MatchesAt(s, q)
    ensures i + |q| <= |e|
    ensures WrapMatches(e, q) == e[..i] + Open + e[i..i + |q|] + Close + WrapMatches(e[i + |q|..], q)
  {
    WrapSkipPrefix(e, q, i);
    WrapMatchAt(e, q, i, s);
    WrapJoin(e, q, i);
  }

  lemma WrapEscapedAtSkip(t: string, q: string)
    requires |q| > 0 && !MatchesAt(t, q) && t != []
    ensures WrapMatchesEscaped(t, q) == EscapeChar(t[0]) + WrapMatchesEscaped(t[1..], q)
  {
  }

  lemma EscapedPrefixStep(t: string, i: nat, x: string, r: string)
    requires 0 < i <= |t| && x == EscapeHtml(t[1..][..i - 1]) + r
    ensures EscapeChar(t[0]) + x == EscapeHtml(t[..i]) + r
  {
    var p := t[..i];
    assert p[0] == t[0] && p[1..] == t[1..][..i - 1];
  }

  /** In the corrected wrapper the characters before the first occurrence are escaped one by one. */
  lemma {:induction false} WrapEscapedSkipPrefix(t: string, q: string, i: nat)
    requires |q| > 0 && i <= |t| && NoMatchBefore(t, q, i)
    ensures WrapMatchesEscaped(t, q) == EscapeHtml(t[..i]) + WrapMatchesEscaped(t[i..], q)
    decreases i
  {
    if i > 0 {
      NoMatchBeforeTail(t, q, i);
      WrapEscapedAtSkip(t, q);
      WrapEscapedSkipPrefix(t[1..], q, i - 1);
      assert t[1..][i - 1..] == t[i..];
      EscapedPrefixStep(t, i, WrapMatchesEscaped(t[1..], q), WrapMatchesEscaped(t[i..], q));
    }
  }

  /** Putting a marked piece after a prefix. */
  lemma AfterPrefix(w: string, p: string, x: string, m: string, y: string)
    requires w == p + x && x == Open + m + Close + y
    ensures w == p + Open + m + Close + y
  {
  }

  /** The corrected wrapper escapes a title without occurrences and adds no markers. */
  lemma WrapEscapedNoMatch(t: string, q: string)
    requires |q| > 0 && NoMatchBefore(t, q, |t| + 1)
    ensures WrapMatchesEscaped(t, q) == EscapeHtml(t)
  {
    WrapEscapedSkipPrefix(t, q, |t|);
    assert t[..|t|] == t;
    assert !MatchesAt(t[|t|..], q);
  }

  /**
   * The corrected wrapper marks the first occurrence of the query in the
   * title itself, escaping the text before it and inside the markers.
   */
  lemma WrapEscapedFirstMatch(t: string, q: string, i: nat)
    requires |q| > 0 && i <= |t| && NoMatchBefore(t, q, i) && MatchesAt(t[i..], q)
    ensures i + |q| <= |t|
    ensures WrapMatchesEscaped(t, q) ==
      EscapeHtml(t[..i]) + Open + EscapeHtml(t[i..i + |q|]) + Close + WrapMatchesEscaped(t[i + |q|..], q)
  {
    WrapEscapedSuffixMatch(t, q, i, t[i..]);
  }

  /** `WrapEscapedFirstMatch` with the suffix at the occurrence named by `s`. */
  lemma WrapEscapedSuffixMatch(t: string, q: string, i: nat, s: string)
    requires |q| > 0 && i <= |t| && s == t[i..] && NoMatchBefore(t, q, i) && MatchesAt(s, q)
    ensures i + |q| <= |t|
    ensures WrapMatchesEscaped(t, q) ==
      EscapeHtml(t[..i]) + Open + EscapeHtml(t[i..i + |q|]) + Close + WrapMatchesEscaped(t[i + |q|..], q)
  {
    WrapEscapedSkipPrefix(t, q, i);
    WrapEscapedMatchAt(t, q, i, s);
    WrapEscapedJoin(t, q, i);
  }

  /**
   * `highlightMatch` wraps the first occurrence of the query in the escaped
   * title, and leaves an escaped title without occurrences unmarked.
   */
  lemma HighlightFirstMatch(text: string, query: string, i: nat)
    requires |query| > 0
    ensures NoMatchBefore(EscapeHtml(text), query, |EscapeHtml(text)| + 1) ==>
      HighlightMatch(text, query) == EscapeHtml(text)
    ensures var e := EscapeHtml(text);
      i <= |e| && NoMatchBefore(e, query, i) && MatchesAt(e[i..], query) ==>
      i + |query| <= |e| &&
      HighlightMatch(text, query) == e[..i] + Open + e[i..i + |query|] + Close + WrapMatches(e[i + |query|..], query)
  {
    var e := EscapeHtml(text);
    HighlightPlainQuery(text, query);
    if NoMatchBefore(e, query, |e| + 1) {
      WrapNoMatch(e, query);
    }
    if i <= |e| && NoMatchBefore(e, query, i) && MatchesAt(e[i..], query) {
      WrapFirstMatch(e, query, i);
    }
  }

  /**
   * Corrected `highlightMatch` wraps the first occurrence of the query in the
   * title, and leaves a title without occurrences as its plain escape.
   */
  lemma HighlightFixedFirstMatch(text: string, query: string, i: nat)
    requires |query| > 0
    ensures NoMatchBefore(text, query, |text| + 1) ==> HighlightMatchFixed(text, query) == EscapeHtml(text)
    ensures i <= |text| && NoMatchBefore(text, query, i) && MatchesAt(text[i..], query) ==>
      i + |query| <= |text| &&
      HighlightMatchFixed(text, query) ==
        EscapeHtml(text[..i]) + Open + EscapeHtml(text[i..i + |query|]) + Close + WrapMatchesEscaped(text[i + |query|..], query)
  {
    RegexEscape.EscapeRegexIsLiteral(query);
    if NoMatchBefore(text, query, |text| + 1) {
      WrapEscapedNoMatch(text, query);
    }
    if i <= |text| && NoMatchBefore(text, query, i) && MatchesAt(text[i..], query) {
      WrapEscapedFirstMatch(text, query, i);
    }
  }
}
