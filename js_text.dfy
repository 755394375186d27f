/** The few JavaScript string operations the navigation engine relies on:
    `String.prototype.trim`, `toLowerCase` as used for colour attributes,
    and `startsWith` with a one-character prefix. */
module JsText {

  /** ECMAScript WhiteSpace and LineTerminator code points, which `trim` removes. */
  predicate IsWhitespace(c: char) {
    || c == '\t' || c == '\n' || c == '\U{B}' || c == '\U{C}' || c == '\r'
    || c == ' ' || c == '\U{A0}' || c == '\U{1680}'
    || ('\U{2000}' <= c <= '\U{200A}')
    || c == '\U{2028}' || c == '\U{2029}' || c == '\U{202F}' || c == '\U{205F}'
    || c == '\U{3000}' || c == '\U{FEFF}'
  }

  function TrimStart(s: string): string {
    if s != [] && IsWhitespace(s[0]) then TrimStart(s[1..]) else s
  }

  function TrimEnd(s: string): string {
    if s != [] && IsWhitespace(s[|s| - 1]) then TrimEnd(s[..|s| - 1]) else s
  }

  /** `TrimStart` drops a whitespace prefix, and all of it. */
  lemma {:induction false} TrimStartFacts(s: string)
    ensures |TrimStart(s)| <= |s| && TrimStart(s) == s[|s| - |TrimStart(s)|..]
    ensures forall i :: 0 <= i < |s| - |TrimStart(s)| ==> IsWhitespace(s[i])
    ensures TrimStart(s) != [] ==> !IsWhitespace(TrimStart(s)[0])
  {
    if s != [] && IsWhitespace(s[0]) {
      var r := s[1..];
      TrimStartFacts(r);
      assert TrimStart(s) == TrimStart(r);
      assert r[|r| - |TrimStart(r)|..] == s[|s| - |TrimStart(r)|..];
      forall i | 1 <= i < |s| - |TrimStart(r)| ensures IsWhitespace(s[i]) {
        assert s[i] == r[i - 1];
      }
    }
  }

  /** `TrimEnd` drops a whitespace suffix, and all of it. */
  lemma {:induction false} TrimEndFacts(s: string)
    ensures |TrimEnd(s)| <= |s| && TrimEnd(s) == s[..|TrimEnd(s)|]
    ensures forall i :: |TrimEnd(s)| <= i < |s| ==> IsWhitespace(s[i])
    ensures TrimEnd(s) != [] ==> !IsWhitespace(TrimEnd(s)[|TrimEnd(s)| - 1])
  {
    if s != [] && IsWhitespace(s[|s| - 1]) {
      var r := s[..|s| - 1];
      TrimEndFacts(r);
      assert TrimEnd(s) == TrimEnd(r);
      assert r[..|TrimEnd(r)|] == s[..|TrimEnd(r)|];
      forall i | |TrimEnd(r)| <= i < |s| - 1 ensures IsWhitespace(s[i]) {
        assert s[i] == r[i];
      }
    }
  }

  /** `String.prototype.trim`. */
  function Trim(s: string): string {
    TrimEnd(TrimStart(s))
  }

  /** `trim` removes whitespace from both ends and nothing else: its result is a
      slice of `s` that neither starts nor ends with whitespace, and everything
      cut off is whitespace. */
  lemma TrimIsSlice(s: string)
    ensures exists i, j ::
              && 0 <= i <= j <= |s| && Trim(s) == s[i..j]
              && (forall k :: 0 <= k < i ==> IsWhitespace(s[k]))
              && (forall k :: j <= k < |s| ==> IsWhitespace(s[k]))
    ensures Trim(s) != [] ==> !IsWhitespace(Trim(s)[0]) && !IsWhitespace(Trim(s)[|Trim(s)| - 1])
  {
    var t := TrimStart(s);
    var u := TrimEnd(t);
    TrimStartFacts(s);
    TrimEndFacts(t);
    var i := |s| - |t|;
    var j := i + |u|;
    assert t == s[i..];
    assert u == s[i..j];
    forall k | j <= k < |s|
      ensures IsWhitespace(s[k])
    {
      assert s[k] == t[k - i];
    }
    assert forall k :: 0 <= k < i ==> IsWhitespace(s[k]);
  }

  /** A string is blank (its trimmed form is the falsy `""`) exactly when every
      character of it is whitespace. */
  lemma {:induction false} TrimEmptyIffBlank(s: string)
    ensures Trim(s) == [] <==> forall k :: 0 <= k < |s| ==> IsWhitespace(s[k])
  {
    var t := TrimStart(s);
    TrimStartFacts(s);
    TrimEndFacts(t);
    if t != [] {
      assert !IsWhitespace(t[0]);
      assert s[|s| - |t|] == t[0];
    }
  }

  function AsciiLowerChar(c: char): char {
    if 'A' <= c <= 'Z' then (c as int + 32) as char else c
  }

  /** `toLowerCase`, restricted to ASCII letters. No other code point lowers to
      one of the characters of `"red"` or `"#ff0000"`, so the comparisons the
      program makes are unaffected by the restriction. */
  function AsciiLower(s: string): string {
    seq(|s|, i requires 0 <= i < |s| => AsciiLowerChar(s[i]))
  }

  /** `word` has no upper-case ASCII letter. */
  predicate NoUpper(word: string) {
    forall i :: 0 <= i < |word| ==> !('A' <= word[i] <= 'Z')
  }

  /** `s` spells `word` letter by letter, each letter in either case: every
      character is the one of `word`, or the upper-case form of a lower-case
      ASCII letter of `word`. */
  predicate SpellsIgnoringCase(s: string, word: string) {
    && |s| == |word|
    && forall i :: 0 <= i < |s| ==>
         s[i] == word[i] || ('a' <= word[i] <= 'z' && s[i] as int == word[i] as int - 32)
  }

  /** Lower-casing gives a word without capitals exactly when the input
      spells that word in any mix of cases. */
  lemma AsciiLowerSpells(s: string, word: string)
    requires NoUpper(word)
    ensures AsciiLower(s) == word <==> SpellsIgnoringCase(s, word)
  {
    var r := AsciiLower(s);
    if r == word {
      forall i | 0 <= i < |s|
        ensures s[i] == word[i] || ('a' <= word[i] <= 'z' && s[i] as int == word[i] as int - 32)
      {
        assert r[i] == AsciiLowerChar(s[i]);
      }
    }
    if SpellsIgnoringCase(s, word) {
      forall i | 0 <= i < |s| ensures r[i] == word[i] {
        assert !('A' <= word[i] <= 'Z');
      }
    }
  }

  /** `name.startsWith(prefix)`. */
  predicate StartsWith(name: string, prefix: string) {
    |prefix| <= |name| && name[..|prefix|] == prefix
  }
}
