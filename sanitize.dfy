/**
  `sanitize` of scripts/python/main.py, which `load_json_records` applies to a JSON line that
  failed to parse: every backslash not followed by one of the characters `\ b f n r t " /`
  is doubled, so that an invalid string escape such as `\d` becomes the escaped backslash
  `\\d`. The regular expression `\\(?![\\bfnrt"/])` is modelled as the character scan it
  performs: the lookahead reads the next character of the original line and consumes nothing.

  Section 7 of RFC 8259 allows exactly the escapes `\"`, `\\`, `\/`, `\b`, `\f`, `\n`, `\r`,
  `\t` and `\u` followed by four hexadecimal digits. `SanitizeAsWritten` is the scan as the
  code has it; `Sanitize` is the escape-aware repair, whose output only holds such escapes and
  which leaves well-escaped text alone.
*/
module JsonRepair {
  import opened Strings

  /** The characters the lookahead accepts after a backslash. */
  const KeptAfterBackslash: set<char> := {'\\', 'b', 'f', 'n', 'r', 't', '"', '/'}

  /** The backslash at `i` is doubled by the regular expression. */
  predicate Doubled(s: string, i: nat)
    requires i < |s|
  {
    s[i] == '\\' && !(i + 1 < |s| && s[i + 1] in KeptAfterBackslash)
  }

  /** `re.compile(r'\\(?![\\bfnrt"/])').sub(r"\\\\", line)`. */
  function SanitizeAsWritten(s: string): string
    decreases |s|
  {
    if s == [] then []
    else (if Doubled(s, 0) then "\\\\" else [s[0]]) + SanitizeAsWritten(s[1..])
  }

  /** The number of backslashes the scan doubles. */
  function DoubledCount(s: string): nat
    decreases |s|
  {
    if s == [] then 0 else (if Doubled(s, 0) then 1 else 0) + DoubledCount(s[1..])
  }

  /** A line with no backslash comes back as it is. */
  lemma {:induction false} NoBackslashUnchanged(s: string)
    requires '\\' !in s
    ensures SanitizeAsWritten(s) == s
    decreases |s|
  {
    if s != [] {
      NoBackslashUnchanged(s[1..]);
      assert [s[0]] + s[1..] == s;
    }
  }

  /** Each doubled backslash adds one character; nothing else changes the length. */
  lemma {:induction false} SanitizeAsWrittenLength(s: string)
    ensures |SanitizeAsWritten(s)| == |s| + DoubledCount(s)
    decreases |s|
  {
    if s != [] {
      SanitizeAsWrittenLength(s[1..]);
    }
  }

  /**
    The decision for the first character: a backslash before one of the accepted characters
    stays single, any other backslash (the last one of the line, one before `u`) is doubled,
    and any other character is copied.
  */
  lemma SanitizeAsWrittenStep(c: char, t: string)
    ensures c != '\\' ==> SanitizeAsWritten([c] + t) == [c] + SanitizeAsWritten(t)
    ensures c == '\\' && t != [] && t[0] in KeptAfterBackslash ==>
      SanitizeAsWritten([c] + t) == "\\" + SanitizeAsWritten(t)
    ensures c == '\\' && (t == [] || t[0] !in KeptAfterBackslash) ==>
      SanitizeAsWritten([c] + t) == "\\\\" + SanitizeAsWritten(t)
  {
    assert ([c] + t)[1..] == t;
  }

  /** The line of a trailing backslash and of a `\u` escape: both are doubled. */
  lemma TrailingAndUnicodeDoubled()
    ensures SanitizeAsWritten("\\") == "\\\\"
    ensures SanitizeAsWritten("\\u") == "\\\\u"
  {
    assert SanitizeAsWritten("u") == "u";
  }

  predicate IsHex(c: char) {
    IsDigit(c) || 'a' <= c <= 'f' || 'A' <= c <= 'F'
  }

  const SimpleEscapes: set<char> := {'"', '\\', '/', 'b', 'f', 'n', 'r', 't'}

  /** The length of the string escape that starts `s` (0 when none does). */
  function EscapeLength(s: string): (n: nat)
    ensures n == 0 || n == 2 || n == 6
    ensures n > 0 ==> n <= |s| && s[0] == '\\'
  {
    if |s| >= 2 && s[0] == '\\' && s[1] in SimpleEscapes then 2
    else if |s| >= 6 && s[0] == '\\' && s[1] == 'u' && IsHex(s[2]) && IsHex(s[3]) && IsHex(s[4]) && IsHex(s[5]) then 6
    else 0
  }

  /** Every backslash of `s` starts a string escape that section 7 of RFC 8259 allows. */
  predicate WellEscaped(s: string)
    decreases |s|
  {
    if s == [] then true
    else if s[0] == '\\' then EscapeLength(s) > 0 && WellEscaped(s[EscapeLength(s)..])
    else WellEscaped(s[1..])
  }

  /** The escape-aware repair: allowed escapes are copied whole, any other backslash is doubled. */
  function Sanitize(s: string): string
    decreases |s|
  {
    if s == [] then []
    else if EscapeLength(s) > 0 then s[..EscapeLength(s)] + Sanitize(s[EscapeLength(s)..])
    else if s[0] == '\\' then "\\\\" + Sanitize(s[1..])
    else [s[0]] + Sanitize(s[1..])
  }

  /** An escape followed by anything is still that escape. */
  lemma EscapeLengthPrefix(e: string, t: string)
    requires EscapeLength(e) == |e| && |e| > 0
    ensures EscapeLength(e + t) == |e|
  {
    assert (e + t)[..|e|] == e;
  }

  /** The repaired line only holds allowed escapes. */
  lemma {:induction false} SanitizeWellEscaped(s: string)
    ensures WellEscaped(Sanitize(s))
    decreases |s|
  {
    if s != [] {
      var n := EscapeLength(s);
      if n > 0 {
        var rest := s[n..];
        SanitizeWellEscaped(rest);
        var e := s[..n];
        assert EscapeLength(e) == n;
        EscapeLengthPrefix(e, Sanitize(rest));
        assert (e + Sanitize(rest))[n..] == Sanitize(rest);
      } else if s[0] == '\\' {
        SanitizeWellEscaped(s[1..]);
        var t := "\\\\" + Sanitize(s[1..]);
        assert EscapeLength(t) == 2;
        assert t[2..] == Sanitize(s[1..]);
      } else {
        SanitizeWellEscaped(s[1..]);
        assert ([s[0]] + Sanitize(s[1..]))[1..] == Sanitize(s[1..]);
      }
    }
  }

  /** Well-escaped text is left as it is, so repairing twice is repairing once. */
  lemma {:induction false} SanitizeKeepsWellEscaped(s: string)
    requires WellEscaped(s)
    ensures Sanitize(s) == s
    decreases |s|
  {
    if s != [] {
      if s[0] == '\\' {
        SanitizeKeepsWellEscaped(s[EscapeLength(s)..]);
        assert s[..EscapeLength(s)] + s[EscapeLength(s)..] == s;
      } else {
        SanitizeKeepsWellEscaped(s[1..]);
        assert [s[0]] + s[1..] == s;
      }
    }
  }

  lemma SanitizeIdempotent(s: string)
    ensures Sanitize(Sanitize(s)) == Sanitize(s)
  {
    SanitizeWellEscaped(s);
    SanitizeKeepsWellEscaped(Sanitize(s));
  }

  /**
    The scan as written breaks an escaped backslash before a letter: `\\d` (a backslash, then
    `d`) is well escaped, and becomes `\\\d`, whose last backslash starts the invalid escape `\d`.
  */
  lemma AsWrittenBreaksEscapedBackslash()
    ensures WellEscaped("\\\\d")
    ensures SanitizeAsWritten("\\\\d") == "\\\\\\d"
    ensures !WellEscaped("\\\\\\d")
    ensures Sanitize("\\\\d") == "\\\\d"
  {
    assert SanitizeAsWritten("d") == "d";
    assert SanitizeAsWritten("\\d") == "\\\\d";
    assert ("\\\\d")[2..] == "d";
    assert ("\\\\\\d")[2..] == "\\d";
    assert Sanitize("d") == "d";
  }

  /**
    The scan as written doubles the backslash of a `\u` escape: `\u00e9`, which parses to
    `é`, turns into text that parses to the six characters `\u00e9`.
  */
  lemma AsWrittenDoublesUnicodeEscape()
    ensures SanitizeAsWritten("\\u00e9") == "\\\\u00e9"
  {
    var t := "u00e9";
    assert t[0] !in KeptAfterBackslash;
    SanitizeAsWrittenStep('\\', t);
    NoBackslashUnchanged(t);
    assert "\\u00e9" == ['\\'] + t;
  }

  /** The repair keeps the same `\u` escape. */
  lemma UnicodeEscapeKept()
    ensures WellEscaped("\\u00e9")
    ensures Sanitize("\\u00e9") == "\\u00e9"
  {
    assert EscapeLength("\\u00e9") == 6;
    assert ("\\u00e9")[6..] == "";
    SanitizeKeepsWellEscaped("\\u00e9");
  }
}
