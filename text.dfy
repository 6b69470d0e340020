/**
 * String helpers with JavaScript's meaning: the white space that `String.prototype.trim`
 * and the regular-expression class `\s` recognise, `trimStart`, `trim`, `startsWith`
 * and `Array.prototype.join`.
 */
module Text {

  /** The WhiteSpace and LineTerminator code points of ECMAScript (section 12.2 and 12.3 of
      ECMA-262); `trim` removes exactly these and `\s` matches exactly these. */
  predicate IsWhitespace(c: char) {
    c == '\t' || c == '\n' || c == '\U{B}' || c == '\U{C}' || c == '\r' || c == ' '
    || c == '\U{A0}' || c == '\U{1680}' || ('\U{2000}' <= c <= '\U{200A}')
    || c == '\U{2028}' || c == '\U{2029}' || c == '\U{202F}' || c == '\U{205F}'
    || c == '\U{3000}' || c == '\U{FEFF}'
  }

  /** The characters that end a line for `^`, `$` and `.` in a regular expression. */
  predicate IsLineTerminator(c: char) {
    c == '\n' || c == '\r' || c == '\U{2028}' || c == '\U{2029}'
  }

  lemma LineTerminatorIsWhitespace(c: char)
    ensures IsLineTerminator(c) ==> IsWhitespace(c)
  {
  }

  predicate AllWhitespace(s: string) {
    forall i :: 0 <= i < |s| ==> IsWhitespace(s[i])
  }

  /** No white space at either end. */
  predicate IsTrimmed(s: string) {
    s == [] || (!IsWhitespace(s[0]) && !IsWhitespace(s[|s| - 1]))
  }

  /** `s.trimStart()`: `s` without its leading white space. */
  function TrimStart(s: string): (r: string)
    ensures |r| <= |s|
    ensures r == [] || !IsWhitespace(r[0])
  {
    if s != [] && IsWhitespace(s[0]) then TrimStart(s[1..]) else s
  }

  /** `trimStart` cuts a prefix of white space off `s` and keeps the rest. */
  lemma {:induction false} TrimStartCut(s: string)
    ensures TrimStart(s) == s[|s| - |TrimStart(s)|..]
    ensures forall i :: 0 <= i < |s| - |TrimStart(s)| ==> IsWhitespace(s[i])
  {
    if s != [] && IsWhitespace(s[0]) {
      TrimStartCut(s[1..]);
      assert s[1..][|s| - 1 - |TrimStart(s)|..] == s[|s| - |TrimStart(s)|..];
      assert forall i :: 1 <= i < |s| ==> s[i] == s[1..][i - 1];
    }
  }

  /** Text that does not start with white space is left alone. */
  lemma TrimStartKeeps(s: string)
    requires s == [] || !IsWhitespace(s[0])
    ensures TrimStart(s) == s
  {
  }

  /** `s.trim()`: `s` without its leading and its trailing white space. */
  function Trim(s: string): (r: string)
    ensures |r| <= |s|
    ensures IsTrimmed(r)
  {
    if s != [] && IsWhitespace(s[0]) then Trim(s[1..])
    else if s != [] && IsWhitespace(s[|s| - 1]) then Trim(s[..|s| - 1])
    else s
  }

  /** `t` sits in `s` at `i`, with only white space cut off on either side. */
  predicate InfixAt(s: string, t: string, i: nat) {
    i + |t| <= |s| && t == s[i..i + |t|] && AllWhitespace(s[..i]) && AllWhitespace(s[i + |t|..])
  }

  /** Leading white space in front of an infix keeps it one. */
  lemma InfixBehindWhitespace(s: string, t: string, k: nat)
    requires s != [] && IsWhitespace(s[0]) && InfixAt(s[1..], t, k)
    ensures InfixAt(s, t, k + 1)
  {
    var u := s[1..];
    assert u[k..k + |t|] == s[k + 1..k + 1 + |t|];
    assert s[..k + 1] == [s[0]] + u[..k];
    assert s[k + 1 + |t|..] == u[k + |t|..];
  }

  /** Trailing white space after an infix keeps it one. */
  lemma InfixBeforeWhitespace(s: string, t: string, i: nat)
    requires s != [] && IsWhitespace(s[|s| - 1]) && InfixAt(s[..|s| - 1], t, i)
    ensures InfixAt(s, t, i)
  {
    var u := s[..|s| - 1];
    assert u[i..i + |t|] == s[i..i + |t|];
    assert s[..i] == u[..i];
    assert s[i + |t|..] == u[i + |t|..] + [s[|s| - 1]];
  }

  /** Trimming is a contiguous piece of the input with only white space cut off either side. */
  lemma {:induction false} TrimIsInfix(s: string) returns (i: nat)
    ensures InfixAt(s, Trim(s), i)
  {
    if s != [] && IsWhitespace(s[0]) {
      var k := TrimIsInfix(s[1..]);
      InfixBehindWhitespace(s, Trim(s), k);
      i := k + 1;
    } else if s != [] && IsWhitespace(s[|s| - 1]) {
      i := TrimIsInfix(s[..|s| - 1]);
      InfixBeforeWhitespace(s, Trim(s), i);
    } else {
      i := 0;
      assert s[..0] == [] && s[|s|..] == [];
    }
  }

  /** Trimming what is already trimmed changes nothing. */
  lemma TrimTrimmed(s: string)
    requires IsTrimmed(s)
    ensures Trim(s) == s
  {
  }

  /** `s.trim().length > 0` is false. */
  predicate IsBlank(s: string) {
    Trim(s) == []
  }

  /** A string is blank exactly when every character of it is white space. */
  lemma {:induction false} BlankIffAllWhitespace(s: string)
    ensures IsBlank(s) <==> AllWhitespace(s)
  {
    var k := TrimIsInfix(s);
  }

  predicate StartsWith(s: string, prefix: string) {
    |prefix| <= |s| && s[..|prefix|] == prefix
  }

  predicate EndsWith(s: string, suffix: string) {
    |suffix| <= |s| && s[|s| - |suffix|..] == suffix
  }

  /** `parts.join(sep)`. */
  function Join(parts: seq<string>, sep: string): string
  {
    if |parts| == 0 then ""
    else if |parts| == 1 then parts[0]
    else parts[0] + sep + Join(parts[1..], sep)
  }

  /** Joining two non-empty lists is joining each and putting the separator between. */
  lemma {:induction false} JoinAppend(a: seq<string>, b: seq<string>, sep: string)
    requires a != [] && b != []
    ensures Join(a + b, sep) == Join(a, sep) + sep + Join(b, sep)
  {
    if |a| == 1 {
      assert (a + b)[1..] == b;
    } else {
      assert (a + b)[1..] == a[1..] + b;
      JoinAppend(a[1..], b, sep);
    }
  }
}
