/**
 * `escapeRegex` (assets/js/search.js:226-228): every regular-expression
 * syntax character of the query gets a backslash in front of it, so that
 * `new RegExp('(' + escapeRegex(q) + ')', 'gi')` matches `q` literally.
 */
module RegexEscape {
  import opened Wrappers

  /** The characters of the class `[.*+?^${}()|[\]\\]`. */
  predicate IsSyntaxChar(c: char)
  {
    c in ".*+?^${}()|[]\\"
  }

  /** How many syntax characters `s` holds. */
  function SyntaxCount(s: string): nat
  {
    if s == [] then 0 else (if IsSyntaxChar(s[0]) then 1 else 0) + SyntaxCount(s[1..])
  }

  /** A backslash goes in front of every syntax character; every other character is copied. */
  function EscapeRegex(s: string): (r: string)
    ensures |r| == |s| + SyntaxCount(s)
  {
    if s == [] then []
    else (if IsSyntaxChar(s[0]) then ['\\', s[0]] else [s[0]]) + EscapeRegex(s[1..])
  }

  /**
   * The literal string a pattern stands for, when the pattern is made only of
   * ordinary characters and identity escapes `\c` of syntax characters; `None`
   * for any other pattern (one with an operator, a group, a class, ...).
   */
  function LiteralPattern(p: string): Option<string>
    decreases |p|
  {
    if p == [] then Some([])
    else if p[0] == '\\' then
      if |p| >= 2 && IsSyntaxChar(p[1]) then
        match LiteralPattern(p[2..])
        case Some(rest) => Some([p[1]] + rest)
        case None => None
      else None
    else if IsSyntaxChar(p[0]) then None
    else
      match LiteralPattern(p[1..])
      case Some(rest) => Some([p[0]] + rest)
      case None => None
  }

  /** The escaped query is a literal pattern, and the literal it stands for is the query itself. */
  lemma {:induction false} EscapeRegexIsLiteral(s: string)
    ensures LiteralPattern(EscapeRegex(s)) == Some(s)
  {
    if s != [] {
      EscapeRegexIsLiteral(s[1..]);
      var r := EscapeRegex(s);
      if IsSyntaxChar(s[0]) {
        assert r[2..] == EscapeRegex(s[1..]);
      } else {
        assert r[1..] == EscapeRegex(s[1..]);
      }
      assert [s[0]] + s[1..] == s;
    }
  }

  /** A query without syntax characters is left as it is. */
  lemma {:induction false} EscapeRegexPlain(s: string)
    requires forall i :: 0 <= i < |s| ==> !IsSyntaxChar(s[i])
    ensures EscapeRegex(s) == s
  {
    if s != [] {
      EscapeRegexPlain(s[1..]);
      assert [s[0]] + s[1..] == s;
    }
  }
}
