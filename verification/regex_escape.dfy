/**
 * `escapeRegex` of the account controller: a backslash before every
 * character of ``-[]{}()*+?.,\^$|#`` and before white space, so that a
 * user-supplied name or e-mail is matched literally inside `^...$`.
 */
module RegexEscape {
  import opened Wrappers
  import opened JsText

  /** The class `[-[\]{}()*+?.,\\^$|#\s]`. */
  predicate IsSpecial(c: char) {
    || c == '-' || c == '[' || c == ']' || c == '{' || c == '}' || c == '(' || c == ')'
    || c == '*' || c == '+' || c == '?' || c == '.' || c == ',' || c == '\\' || c == '^'
    || c == '$' || c == '|' || c == '#' || IsJsSpace(c)
  }

  /** Number of special characters in `s`. */
  function SpecialCount(s: string): nat {
    if |s| == 0 then 0 else (if IsSpecial(s[0]) then 1 else 0) + SpecialCount(s[1..])
  }

  /** `text.replace(/[...]/g, "\\$&")`. */
  function Escape(s: string): (r: string)
    ensures |r| == |s| + SpecialCount(s)
  {
    if |s| == 0 then ""
    else (if IsSpecial(s[0]) then ['\\', s[0]] else [s[0]]) + Escape(s[1..])
  }

  /** Reads a pattern as a sequence of literal atoms: `\c` stands for `c`,
      any other non-special character for itself. `None` when the pattern
      holds an unescaped special character or ends in a lone backslash,
      that is, when it is not a purely literal pattern. */
  function LiteralOf(p: string): Option<string>
    decreases |p|
  {
    if |p| == 0 then Some("")
    else if p[0] == '\\' then
      if |p| == 1 then None
      else match LiteralOf(p[2..])
        case None => None
        case Some(rest) => Some([p[1]] + rest)
    else if IsSpecial(p[0]) then None
    else match LiteralOf(p[1..])
      case None => None
      case Some(rest) => Some([p[0]] + rest)
  }

  /** The escaped text is a literal pattern for exactly the input: removing
      the inserted backslashes recovers it. */
  lemma {:induction false} EscapeIsLiteral(s: string)
    ensures LiteralOf(Escape(s)) == Some(s)
  {
    if |s| > 0 {
      var e := Escape(s);
      EscapeIsLiteral(s[1..]);
      if IsSpecial(s[0]) {
        assert e[2..] == Escape(s[1..]);
      } else {
        assert e[1..] == Escape(s[1..]);
      }
      assert [s[0]] + s[1..] == s;
    }
  }

  /** Escaping is injective: two names whose patterns coincide are equal. */
  lemma EscapeInjective(a: string, b: string)
    requires Escape(a) == Escape(b)
    ensures a == b
  {
    EscapeIsLiteral(a);
    EscapeIsLiteral(b);
  }

  /** Characters outside the class pass through unchanged and in order: a
      string without special characters is its own escape. */
  lemma {:induction false} EscapePlain(s: string)
    requires forall k :: 0 <= k < |s| ==> !IsSpecial(s[k])
    ensures Escape(s) == s
  {
    if |s| > 0 {
      EscapePlain(s[1..]);
    }
  }
}
