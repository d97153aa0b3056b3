/**
 * The two static string helpers of the parser: `escape`, which is
 * htmlspecialchars with the five HTML entities (quotes only when
 * `allowQuotes` is off), and `striAtStart`, a case-insensitive prefix test.
 */
module Escape {
  import opened Strings

  predicate StartsWith(s: string, p: string) {
    |p| <= |s| && s[..|p|] == p
  }

  /** The replacement of one character. */
  function EscapeChar(c: char, allowQuotes: bool): string {
    if c == '&' then "&amp;"
    else if c == '<' then "&lt;"
    else if c == '>' then "&gt;"
    else if c == '"' && !allowQuotes then "&quot;"
    else if c == '\'' && !allowQuotes then "&#039;"
    else [c]
  }

  /**
   * escape($text, $allowQuotes): ENT_QUOTES replaces & < > " ', ENT_NOQUOTES
   * (allowQuotes) leaves both quotes alone.
   */
  function Escape(s: string, allowQuotes: bool): (r: string)
    ensures '<' !in r && '>' !in r
    ensures !allowQuotes ==> '"' !in r && '\'' !in r
    ensures |r| >= |s|
  {
    if s == [] then [] else EscapeChar(s[0], allowQuotes) + Escape(s[1..], allowQuotes)
  }

  /** HTML entity decoding of exactly the five entities Escape produces. */
  function Unescape(s: string): string
    decreases |s|
  {
    if s == [] then []
    else if StartsWith(s, "&amp;") then "&" + Unescape(s[5..])
    else if StartsWith(s, "&lt;") then "<" + Unescape(s[4..])
    else if StartsWith(s, "&gt;") then ">" + Unescape(s[4..])
    else if StartsWith(s, "&quot;") then "\"" + Unescape(s[6..])
    else if StartsWith(s, "&#039;") then "'" + Unescape(s[6..])
    else [s[0]] + Unescape(s[1..])
  }

  lemma UnescapeChar(c: char, allowQuotes: bool, rest: string)
    ensures Unescape(EscapeChar(c, allowQuotes) + rest) == [c] + Unescape(rest)
  {
    var e := EscapeChar(c, allowQuotes);
    var s := e + rest;
    assert s[..|e|] == e;
    assert s[|e|..] == rest;
    if c == '&' {
      assert StartsWith(s, "&amp;");
    } else if c == '<' {
      assert !StartsWith(s, "&amp;") by { assert s[1] == 'l'; }
      assert StartsWith(s, "&lt;");
    } else if c == '>' {
      assert !StartsWith(s, "&amp;") && !StartsWith(s, "&lt;") by { assert s[1] == 'g'; }
      assert StartsWith(s, "&gt;");
    } else if c == '"' && !allowQuotes {
      assert !StartsWith(s, "&amp;") && !StartsWith(s, "&lt;") && !StartsWith(s, "&gt;") by { assert s[1] == 'q'; }
      assert StartsWith(s, "&quot;");
    } else if c == '\'' && !allowQuotes {
      assert !StartsWith(s, "&amp;") && !StartsWith(s, "&lt;") && !StartsWith(s, "&gt;") && !StartsWith(s, "&quot;") by { assert s[1] == '#'; }
      assert StartsWith(s, "&#039;");
    } else {
      assert e == [c];
      assert s[0] == c && c != '&';
      assert !StartsWith(s, "&amp;") && !StartsWith(s, "&lt;") && !StartsWith(s, "&gt;") && !StartsWith(s, "&quot;") && !StartsWith(s, "&#039;") by {
        assert s[0] != '&';
      }
      assert s[1..] == rest;
    }
  }

  /** Decoding an escaped text gives the text back: nothing is lost or escaped twice. */
  lemma {:induction false} UnescapeEscape(s: string, allowQuotes: bool)
    ensures Unescape(Escape(s, allowQuotes)) == s
    decreases |s|
  {
    if s != [] {
      UnescapeChar(s[0], allowQuotes, Escape(s[1..], allowQuotes));
      UnescapeEscape(s[1..], allowQuotes);
      assert s == [s[0]] + s[1..];
    }
  }

  /** Text without a special character is left as it is. */
  lemma {:induction false} EscapePlain(s: string, allowQuotes: bool)
    requires forall i :: 0 <= i < |s| ==> s[i] !in {'&', '<', '>', '"', '\''}
    ensures Escape(s, allowQuotes) == s
    decreases |s|
  {
    if s != [] {
      EscapePlain(s[1..], allowQuotes);
      assert s == [s[0]] + s[1..];
    }
  }

  /** Escaping distributes over concatenation. */
  lemma {:induction false} EscapeAppend(a: string, b: string, allowQuotes: bool)
    ensures Escape(a + b, allowQuotes) == Escape(a, allowQuotes) + Escape(b, allowQuotes)
    decreases |a|
  {
    if a != [] {
      assert (a + b)[0] == a[0] && (a + b)[1..] == a[1..] + b;
      EscapeAppend(a[1..], b, allowQuotes);
    } else {
      assert a + b == b;
    }
  }

  /** striAtStart($string, $needle): `needle` is a prefix of `string`, ignoring ASCII case. */
  function StriAtStart(s: string, needle: string): (r: bool)
    ensures r ==> |needle| <= |s|
  {
    |needle| <= |s| && Lower(s[..|needle|]) == Lower(needle)
  }

  /** A real prefix matches, whatever the case of either side, and the test ignores case. */
  lemma StriAtStartPrefix(s: string, needle: string)
    ensures StartsWith(s, needle) ==> StriAtStart(s, needle)
    ensures StriAtStart(s, needle) == StriAtStart(Lower(s), Lower(needle))
    ensures StriAtStart(s, needle) <==> StartsWith(Lower(s), Lower(needle))
  {
    if |needle| <= |s| {
      LowerPrefix(s, |needle|);
      LowerIdempotent(needle);
      LowerIdempotent(s[..|needle|]);
      assert Lower(s)[..|needle|] == Lower(s[..|needle|]);
      LowerPrefix(Lower(s), |needle|);
    }
  }
}
