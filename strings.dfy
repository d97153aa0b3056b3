/**
 * The byte-string primitives the parser leans on, written out with the
 * meaning PHP gives them: trim/rtrim/ltrim with a character list, strspn,
 * strcspn, strpos, explode/implode and ASCII strtolower.  Strings are
 * sequences of single-byte characters.
 */
module Strings {
  import opened Wrappers

  /** What PHP's trim(), rtrim() and chop() strip when no list is given. */
  const TrimChars: set<char> := {' ', '\t', '\n', '\r', '\0', '\U{B}'}

  /** What PCRE's `\s` matches. */
  const PcreSpace: set<char> := {' ', '\t', '\n', '\U{B}', '\U{C}', '\r'}

  predicate IsDigit(c: char) { '0' <= c <= '9' }

  predicate IsAlnum(c: char) { IsDigit(c) || 'a' <= c <= 'z' || 'A' <= c <= 'Z' }

  /** PCRE's `\w` without the /u flag: ASCII letters, digits and underscore. */
  predicate IsWordChar(c: char) { IsAlnum(c) || c == '_' }

  /** ltrim($s, $cs): the longest suffix of `s` that does not start with a character of `cs`. */
  function LTrim(s: string, cs: set<char>): (r: string)
    ensures |r| <= |s| && r == s[|s| - |r|..]
    ensures r == [] || r[0] !in cs
    ensures forall i :: 0 <= i < |s| - |r| ==> s[i] in cs
  {
    if s != [] && s[0] in cs then LTrim(s[1..], cs) else s
  }

  /** rtrim($s, $cs) (alias chop): the longest prefix of `s` that does not end with a character of `cs`. */
  function RTrim(s: string, cs: set<char>): (r: string)
    ensures |r| <= |s| && r == s[..|r|]
    ensures r == [] || r[|r| - 1] !in cs
    ensures forall i :: |r| <= i < |s| ==> s[i] in cs
  {
    if s != [] && s[|s| - 1] in cs then RTrim(s[..|s| - 1], cs) else s
  }

  /** trim($s, $cs): both ends stripped of the characters in `cs`. */
  function Trim(s: string, cs: set<char>): (r: string)
    ensures |r| <= |s|
    ensures r == [] || (r[0] !in cs && r[|r| - 1] !in cs)
    ensures (forall i :: 0 <= i < |s| ==> s[i] in cs) ==> r == []
    ensures forall c :: c in r ==> c in s
  {
    var l := LTrim(s, cs);
    var r := RTrim(l, cs);
    assert forall c :: c in r ==> c in l;
    r
  }

  /** True iff every character of `s` belongs to `cs`; rtrim($s, $cs) === '' says exactly this. */
  predicate AllIn(s: string, cs: set<char>) {
    forall i :: 0 <= i < |s| ==> s[i] in cs
  }

  lemma RTrimEmpty(s: string, cs: set<char>)
    ensures RTrim(s, cs) == [] <==> AllIn(s, cs)
  {
  }

  function LowerChar(c: char): char {
    if 'A' <= c <= 'Z' then (c as int + 32) as char else c
  }

  /** strtolower($s) on ASCII: upper-case letters become lower-case, nothing else changes. */
  function Lower(s: string): (r: string)
    ensures |r| == |s|
    ensures forall i :: 0 <= i < |s| ==> !('A' <= r[i] <= 'Z')
    ensures forall i :: 0 <= i < |s| && !('A' <= s[i] <= 'Z') ==> r[i] == s[i]
  {
    seq(|s|, i requires 0 <= i < |s| => LowerChar(s[i]))
  }

  lemma LowerIdempotent(s: string)
    ensures Lower(Lower(s)) == Lower(s)
  {
  }

  lemma LowerPrefix(s: string, n: nat)
    requires n <= |s|
    ensures Lower(s[..n]) == Lower(s)[..n]
  {
  }

  /** strspn($s, $cs, $i): how many characters from position `i` on belong to `cs`. */
  function Span(s: string, i: nat, cs: set<char>): (n: nat)
    requires i <= |s|
    ensures i + n <= |s|
    ensures forall k :: i <= k < i + n ==> s[k] in cs
    ensures i + n == |s| || s[i + n] !in cs
    decreases |s| - i
  {
    if i < |s| && s[i] in cs then 1 + Span(s, i + 1, cs) else 0
  }

  /** strcspn($s, $cs, $i): how many characters from position `i` on do NOT belong to `cs`. */
  function SpanNot(s: string, i: nat, cs: set<char>): (n: nat)
    requires i <= |s|
    ensures i + n <= |s|
    ensures forall k :: i <= k < i + n ==> s[k] !in cs
    ensures i + n == |s| || s[i + n] in cs
    decreases |s| - i
  {
    if i < |s| && s[i] !in cs then 1 + SpanNot(s, i + 1, cs) else 0
  }

  /** str_repeat($c, $n). */
  function Repeat(c: char, n: nat): (r: string)
    ensures |r| == n && forall i :: 0 <= i < n ==> r[i] == c
  {
    seq(n, _ => c)
  }

  /** The position of the first `c` in `s` (strpos for one character). */
  function IndexOf(s: string, c: char): (k: nat)
    requires c in s
    ensures k < |s| && s[k] == c && c !in s[..k]
  {
    if s[0] == c then 0 else 1 + IndexOf(s[1..], c)
  }

  predicate OccursAt(s: string, t: string, k: nat) {
    k + |t| <= |s| && s[k..k + |t|] == t
  }

  /** strpos($s, $t, $from): the first occurrence of `t` at or after `from`. */
  function FindFrom(s: string, t: string, from: nat): (r: Option<nat>)
    ensures r.Some? ==> from <= r.value && OccursAt(s, t, r.value)
    ensures r.Some? ==> forall k :: from <= k < r.value ==> !OccursAt(s, t, k)
    ensures r.None? ==> forall k :: from <= k ==> !OccursAt(s, t, k)
    decreases |s| - from
  {
    if from + |t| > |s| then None
    else if OccursAt(s, t, from) then Some(from)
    else FindFrom(s, t, from + 1)
  }

  /** explode($sep, $s). */
  function Split(s: string, sep: char): (parts: seq<string>)
    ensures |parts| >= 1
    ensures forall p :: p in parts ==> sep !in p
    decreases |s|
  {
    if sep in s then
      var k := IndexOf(s, sep);
      [s[..k]] + Split(s[k + 1..], sep)
    else [s]
  }

  /** implode($sep, $parts). */
  function Join(parts: seq<string>, sep: char): string
  {
    if |parts| == 0 then []
    else if |parts| == 1 then parts[0]
    else parts[0] + [sep] + Join(parts[1..], sep)
  }

  /** The first occurrence is the one with no earlier occurrence. */
  lemma {:induction false} IndexOfUnique(s: string, c: char, k: nat)
    requires k < |s| && s[k] == c && c !in s[..k]
    ensures IndexOf(s, c) == k
  {
    if k > 0 {
      assert s[0] in s[..k];
      assert s[1..][k - 1] == c && s[1..][..k - 1] == s[..k][1..];
      IndexOfUnique(s[1..], c, k - 1);
    }
  }

  /** Splitting on a separator and joining the pieces back gives the text again. */
  lemma {:induction false} JoinSplit(s: string, sep: char)
    ensures Join(Split(s, sep), sep) == s
    decreases |s|
  {
    if sep in s {
      var k := IndexOf(s, sep);
      JoinSplit(s[k + 1..], sep);
      assert s == s[..k] + [sep] + s[k + 1..];
    }
  }

  /** Joining pieces that do not hold the separator and splitting again gives the pieces back. */
  lemma {:induction false} SplitJoin(parts: seq<string>, sep: char)
    requires |parts| >= 1
    requires forall p :: p in parts ==> sep !in p
    ensures Split(Join(parts, sep), sep) == parts
  {
    var head := parts[0];
    assert head in parts;
    if |parts| > 1 {
      var tail := parts[1..];
      var rest := Join(tail, sep);
      var s := head + [sep] + rest;
      assert Join(parts, sep) == s;
      assert s[..|head|] == head;
      assert s[|head|] == sep;
      IndexOfUnique(s, sep, |head|);
      assert s[|head| + 1..] == rest;
      assert forall p :: p in tail ==> p in parts;
      SplitJoin(tail, sep);
      assert Split(s, sep) == [head] + Split(rest, sep);
      assert parts == [head] + tail;
    }
  }

  /** substr($s, $n) for $n >= 0: what follows position `n`, or "" past the end. */
  function Substr(s: string, n: nat): (r: string)
    ensures n <= |s| ==> r == s[n..]
    ensures n >= |s| ==> r == []
  {
    if n <= |s| then s[n..] else []
  }

  /** The decimal digits of `n`, as PHP writes an integer into a string. */
  function Digits(n: nat): (r: string)
    ensures |r| >= 1 && forall i :: 0 <= i < |r| ==> IsDigit(r[i])
    decreases n
  {
    if n < 10 then [('0' as int + n) as char] else Digits(n / 10) + [('0' as int + n % 10) as char]
  }

  /** ltrim strips exactly a leading run of `c`. */
  lemma {:induction false} LTrimRun(p: string, q: string, c: char)
    requires forall i :: 0 <= i < |p| ==> p[i] == c
    requires q != [] && q[0] != c
    ensures LTrim(p + q, {c}) == q
    decreases |p|
  {
    if p == [] {
      assert p + q == q;
    } else {
      assert (p + q)[1..] == p[1..] + q;
      LTrimRun(p[1..], q, c);
    }
  }

  /** rtrim strips exactly a trailing run of `c`. */
  lemma {:induction false} RTrimRun(p: string, q: string, c: char)
    requires forall i :: 0 <= i < |q| ==> q[i] == c
    requires p != [] && p[|p| - 1] != c
    ensures RTrim(p + q, {c}) == p
    decreases |q|
  {
    if q == [] {
      assert p + q == p;
    } else {
      assert (p + q)[..|p + q| - 1] == p + q[..|q| - 1];
      RTrimRun(p, q[..|q| - 1], c);
    }
  }


  /** A text whose ends are outside the list is left alone by trim. */
  lemma TrimKeeps(s: string, cs: set<char>)
    requires s != [] && s[0] !in cs && s[|s| - 1] !in cs
    ensures Trim(s, cs) == s
  {
    assert LTrim(s, cs) == s;
  }

  /** explode at the first separator: the piece before it, then the pieces of what follows. */
  lemma SplitAt(s: string, sep: char, n: nat)
    requires n < |s| && s[n] == sep && sep !in s[..n]
    ensures Split(s, sep) == [s[..n]] + Split(s[n + 1..], sep)
  {
    IndexOfUnique(s, sep, n);
  }

  /** One more piece joins after one more separator. */
  lemma {:induction false} JoinSnoc(parts: seq<string>, x: string, sep: char)
    requires |parts| >= 1
    ensures Join(parts + [x], sep) == Join(parts, sep) + [sep] + x
  {
    if |parts| > 1 {
      assert (parts + [x])[1..] == parts[1..] + [x];
      JoinSnoc(parts[1..], x, sep);
    }
  }

  /** strspn is the length of the run of `cs` that starts at `i`. */
  lemma SpanExact(s: string, i: nat, n: nat, cs: set<char>)
    requires i <= n <= |s|
    requires forall k :: i <= k < n ==> s[k] in cs
    requires n == |s| || s[n] !in cs
    ensures Span(s, i, cs) == n - i
  {
  }

  /** strcspn is the length of the run outside `cs` that starts at `i`. */
  lemma SpanNotExact(s: string, i: nat, n: nat, cs: set<char>)
    requires i <= n <= |s|
    requires forall k :: i <= k < n ==> s[k] !in cs
    requires n == |s| || s[n] in cs
    ensures SpanNot(s, i, cs) == n - i
  {
  }

  /** strpos finds the first occurrence when nothing before it matches. */
  lemma FindFirst(s: string, t: string, from: nat, k: nat)
    requires from <= k && OccursAt(s, t, k)
    requires forall j :: from <= j < k ==> !OccursAt(s, t, j)
    ensures FindFrom(s, t, from) == Some(k)
  {
  }
}
