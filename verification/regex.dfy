/**
 * `escapeRegExp`: the query is turned into a regular expression that matches
 * it literally, by putting a backslash before each metacharacter.
 */
module RegexEscape {
  import opened JsText

  /** The characters of the class `[.*+?^${}()|[\]\\]`. */
  predicate IsRegexMeta(c: char) {
    c == '.' || c == '*' || c == '+' || c == '?' || c == '^' || c == '$' || c == '{' || c == '}'
    || c == '(' || c == ')' || c == '|' || c == '[' || c == ']' || c == '\\'
  }

  /** How many metacharacters `s` holds. */
  function MetaCount(s: string): nat {
    if s == [] then 0 else (if IsRegexMeta(s[0]) then 1 else 0) + MetaCount(s[1..])
  }

  /** `s.replace(/[.*+?^${}()|[\]\\]/g, "\\$&")`: one backslash before each metacharacter. */
  function EscapeRegExp(s: string): (r: string)
    ensures |r| == |s| + MetaCount(s)
  {
    if s == [] then []
    else (if IsRegexMeta(s[0]) then ['\\', s[0]] else [s[0]]) + EscapeRegExp(s[1..])
  }

  /**
   * The text a pattern matches when it is made only of ordinary characters and
   * of a backslash followed by a metacharacter (which stands for that
   * character); `None` when the pattern holds any other regular-expression
   * syntax: a bare metacharacter or any other escape.
   */
  function PatternLiteral(p: string): Option<string> {
    if p == [] then Some([])
    else if p[0] == '\\' then
      if |p| >= 2 && IsRegexMeta(p[1]) then
        match PatternLiteral(p[2..])
        case Some(rest) => Some([p[1]] + rest)
        case None => None
      else None
    else if IsRegexMeta(p[0]) then None
    else
      match PatternLiteral(p[1..])
      case Some(rest) => Some([p[0]] + rest)
      case None => None
  }

  /** The escaped query is a pattern that stands for exactly the query, taken literally. */
  lemma {:induction false} EscapedIsLiteral(s: string)
    ensures PatternLiteral(EscapeRegExp(s)) == Some(s)
  {
    if s != [] {
      EscapedIsLiteral(s[1..]);
      var e := EscapeRegExp(s);
      if IsRegexMeta(s[0]) {
        assert e[2..] == EscapeRegExp(s[1..]);
        assert [s[0]] + s[1..] == s;
      } else {
        assert e[0] == s[0] && e[1..] == EscapeRegExp(s[1..]);
        assert [s[0]] + s[1..] == s;
      }
    }
  }

  /** Escaping leaves a query unchanged exactly when it holds no metacharacter. */
  lemma {:induction false} EscapeUnchangedIff(s: string)
    ensures EscapeRegExp(s) == s <==> MetaCount(s) == 0
  {
    if s != [] {
      EscapeUnchangedIff(s[1..]);
      if MetaCount(s) == 0 {
        assert EscapeRegExp(s) == [s[0]] + s[1..];
      }
    }
  }

  /** Example: "3+3=6" becomes `3\+3=6`. */
  lemma ExampleEscapePlus()
    ensures EscapeRegExp("3+3=6") == "3\\+3=6"
  {
  }
}
