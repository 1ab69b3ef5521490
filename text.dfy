/**
 * The Python string built-ins the record-ID logic is written with:
 * str.strip(), str.upper(), str.lower(), str.split(sep), `in` on strings
 * and string ordering. Characters are Unicode code points, as in Python.
 */
module Text {

  /** str.isspace(): exactly the characters str.strip() removes. */
  predicate IsSpace(c: char) {
    || ('\U{0009}' <= c <= '\U{000D}')
    || ('\U{001C}' <= c <= '\U{001F}')
    || c == ' ' || c == '\U{0085}' || c == '\U{00A0}' || c == '\U{1680}'
    || ('\U{2000}' <= c <= '\U{200A}')
    || c == '\U{2028}' || c == '\U{2029}' || c == '\U{202F}' || c == '\U{205F}' || c == '\U{3000}'
  }

  /** str.lstrip(): drops leading whitespace and nothing else. */
  function StripLeft(s: string): string {
    if s != [] && IsSpace(s[0]) then StripLeft(s[1..]) else s
  }

  /** str.lstrip() keeps a suffix that starts with non-whitespace and drops only whitespace. */
  lemma {:induction false} StripLeftShape(s: string)
    ensures var r := StripLeft(s);
      && |r| <= |s| && r == s[|s| - |r|..]
      && (r != [] ==> !IsSpace(r[0]))
      && forall k :: 0 <= k < |s| - |r| ==> IsSpace(s[k])
  {
    if s != [] && IsSpace(s[0]) {
      StripLeftShape(s[1..]);
      assert forall k :: 1 <= k < |s| ==> s[1..][k - 1] == s[k];
    }
  }

  /** str.rstrip(): drops trailing whitespace and nothing else. */
  function StripRight(s: string): string {
    if s != [] && IsSpace(s[|s| - 1]) then StripRight(s[..|s| - 1]) else s
  }

  /** str.rstrip() keeps a prefix that ends with non-whitespace and drops only whitespace. */
  lemma {:induction false} StripRightShape(s: string)
    ensures var r := StripRight(s);
      && |r| <= |s| && r == s[..|r|]
      && (r != [] ==> !IsSpace(r[|r| - 1]))
      && forall k :: |r| <= k < |s| ==> IsSpace(s[k])
  {
    if s != [] && IsSpace(s[|s| - 1]) {
      StripRightShape(s[..|s| - 1]);
    }
  }

  /** str.strip() */
  function Strip(s: string): string {
    StripRight(StripLeft(s))
  }

  /** A string with no whitespace at either end is its own strip. */
  lemma StripUnchanged(s: string)
    requires s != [] ==> !IsSpace(s[0]) && !IsSpace(s[|s| - 1])
    ensures Strip(s) == s
  {
  }

  /** Strip leaves a string that starts and ends with non-whitespace, and only whitespace was dropped. */
  lemma StripShape(s: string)
    ensures var r := Strip(s);
      && |r| <= |s|
      && (r != [] ==> !IsSpace(r[0]) && !IsSpace(r[|r| - 1]))
      && (r == [] <==> forall k :: 0 <= k < |s| ==> IsSpace(s[k]))
  {
    var l := StripLeft(s);
    StripLeftShape(s);
    StripRightShape(l);
    if Strip(s) == [] {
      assert l == [];
    }
    if forall k :: 0 <= k < |s| ==> IsSpace(s[k]) {
      assert l == [];
    }
  }

  /**
   * str.upper() on one character. Covers ASCII, Latin-1 (including 'ß' to "SS",
   * 'ÿ' and 'µ', whose upper-case forms lie outside Latin-1) and every other
   * character whose upper-case form contains an ASCII letter: 'ı' and 'ſ',
   * the Latin ligatures U+FB00..U+FB06 ("ﬁ" to "FI"), and 'ŉ', 'ǰ' and
   * U+1E96..U+1E9A, which become an ASCII letter and a modifier or
   * combining mark. Any other character is left as it is.
   */
  function UpperChar(c: char): string {
    if c <= '\U{00FF}' then UpperLatin1(c) else UpperBeyondLatin1(c)
  }

  function UpperLatin1(c: char): string
    requires c <= '\U{00FF}'
  {
    if 'a' <= c <= 'z' || ('\U{00E0}' <= c <= '\U{00FE}' && c != '\U{00F7}') then [(c as int - 32) as char]
    else if c == '\U{00DF}' then "SS"
    else if c == '\U{00FF}' then "\U{0178}"
    else if c == '\U{00B5}' then "\U{039C}"
    else [c]
  }

  function UpperBeyondLatin1(c: char): string
    requires c > '\U{00FF}'
  {
    if c == '\U{0131}' then "I"
    else if c == '\U{017F}' then "S"
    else if '\U{FB00}' <= c <= '\U{FB06}' then UpperLigature(c)
    else if c == '\U{0149}' then "\U{02BC}N"
    else if c == '\U{01F0}' then "J\U{030C}"
    else if c == '\U{1E96}' then "H\U{0331}"
    else if c == '\U{1E97}' then "T\U{0308}"
    else if c == '\U{1E98}' then "W\U{030A}"
    else if c == '\U{1E99}' then "Y\U{030A}"
    else if c == '\U{1E9A}' then "A\U{02BE}"
    else [c]
  }

  /** The upper-case forms of the ligatures ﬀ ﬁ ﬂ ﬃ ﬄ ﬅ ﬆ. */
  function UpperLigature(c: char): string
    requires '\U{FB00}' <= c <= '\U{FB06}'
  {
    if c == '\U{FB00}' then "FF"
    else if c == '\U{FB01}' then "FI"
    else if c == '\U{FB02}' then "FL"
    else if c == '\U{FB03}' then "FFI"
    else if c == '\U{FB04}' then "FFL"
    else "ST"
  }

  /** A character str.upper() leaves as it is. */
  predicate IsUpperFixed(c: char) {
    UpperChar(c) == [c]
  }

  /** str.upper() */
  function Upper(s: string): (r: string)
    ensures |r| >= |s|
  {
    if s == [] then [] else UpperChar(s[0]) + Upper(s[1..])
  }

  lemma {:induction false} UpperAppend(a: string, b: string)
    ensures Upper(a + b) == Upper(a) + Upper(b)
  {
    if a == [] {
      assert a + b == b;
    } else {
      assert (a + b)[0] == a[0] && (a + b)[1..] == a[1..] + b;
      UpperAppend(a[1..], b);
    }
  }

  /** Upper leaves a string of already upper-case characters unchanged. */
  lemma {:induction false} UpperUnchanged(s: string)
    requires forall k :: 0 <= k < |s| ==> IsUpperFixed(s[k])
    ensures Upper(s) == s
  {
    if s != [] {
      UpperUnchanged(s[1..]);
    }
  }

  /** Every character Upper produces is one Upper leaves alone. */
  lemma {:induction false} UpperOutputFixed(s: string)
    ensures forall k :: 0 <= k < |Upper(s)| ==> IsUpperFixed(Upper(s)[k])
  {
    if s != [] {
      UpperOutputFixed(s[1..]);
      var h := UpperChar(s[0]);
      assert forall k :: 0 <= k < |h| ==> IsUpperFixed(h[k]);
      assert Upper(s) == h + Upper(s[1..]);
    }
  }

  /** Upper-casing twice is upper-casing once. */
  lemma UpperIdempotent(s: string)
    ensures Upper(Upper(s)) == Upper(s)
  {
    UpperOutputFixed(s);
    UpperUnchanged(Upper(s));
  }

  /**
   * str.lower() on one character, as far as it can produce the ASCII letters:
   * ASCII and Latin-1 capitals, the Kelvin sign (to 'k') and 'İ' (to "i" and a
   * combining dot). No other character lower-cases to an ASCII letter.
   */
  function LowerChar(c: char): string {
    if 'A' <= c <= 'Z' || ('\U{00C0}' <= c <= '\U{00DE}' && c != '\U{00D7}') then [(c as int + 32) as char]
    else if c == '\U{212A}' then "k"
    else if c == '\U{0130}' then "i\U{0307}"
    else [c]
  }

  /** str.lower() */
  function Lower(s: string): (r: string)
    ensures |r| >= |s|
  {
    if s == [] then [] else LowerChar(s[0]) + Lower(s[1..])
  }

  lemma {:induction false} LowerAppend(a: string, b: string)
    ensures Lower(a + b) == Lower(a) + Lower(b)
  {
    if a == [] {
      assert a + b == b;
    } else {
      assert (a + b)[0] == a[0] && (a + b)[1..] == a[1..] + b;
      LowerAppend(a[1..], b);
    }
  }

  /** `sub in s` */
  predicate Contains(s: string, sub: string) {
    sub <= s || (s != [] && Contains(s[1..], sub))
  }

  /** sub occurs in s starting at position k. */
  predicate OccursAt(s: string, sub: string, k: int) {
    0 <= k <= |s| - |sub| && s[k..k + |sub|] == sub
  }

  /** `sub in s` holds exactly when sub occurs at some position of s. */
  lemma {:induction false} ContainsAt(s: string, sub: string)
    ensures Contains(s, sub) <==> exists k :: OccursAt(s, sub, k)
  {
    if sub <= s {
      assert OccursAt(s, sub, 0);
    } else if s == [] {
      assert sub != [];
    } else {
      var t := s[1..];
      ContainsAt(t, sub);
      if Contains(t, sub) {
        var k :| OccursAt(t, sub, k);
        assert s[k + 1..k + 1 + |sub|] == t[k..k + |sub|];
        assert OccursAt(s, sub, k + 1);
      } else {
        forall k | 0 <= k <= |s| - |sub|
          ensures !OccursAt(s, sub, k)
        {
          if k == 0 {
            assert s[k..k + |sub|] == s[..|sub|];
          } else {
            assert s[k..k + |sub|] == t[k - 1..k - 1 + |sub|];
            assert !OccursAt(t, sub, k - 1);
          }
        }
      }
    }
  }

  /** An occurrence in a piece is an occurrence in the whole. */
  lemma ContainsInMiddle(a: string, sub: string, b: string)
    ensures Contains(a + sub + b, sub)
  {
    var s := a + sub + b;
    assert s[|a|..|a| + |sub|] == sub;
    assert OccursAt(s, sub, |a|);
    ContainsAt(s, sub);
  }

  /** Python's `<` on strings: lexicographic by code point. */
  predicate StringLess(a: string, b: string) {
    if a == [] then b != []
    else if b == [] then false
    else a[0] < b[0] || (a[0] == b[0] && StringLess(a[1..], b[1..]))
  }

  /** The string s.split(sep) came from: the parts with sep between them. */
  function Join(parts: seq<string>, sep: char): string {
    if parts == [] then []
    else if |parts| == 1 then parts[0]
    else parts[0] + [sep] + Join(parts[1..], sep)
  }

  /** str.split(sep) with an explicit one-character separator. */
  function Split(s: string, sep: char): (parts: seq<string>)
    ensures |parts| >= 1
    ensures forall k :: 0 <= k < |parts| ==> sep !in parts[k]
  {
    if s == [] then [[]]
    else
      var rest := Split(s[1..], sep);
      if s[0] == sep then [[]] + rest
      else [[s[0]] + rest[0]] + rest[1..]
  }

  /** Splitting loses nothing: joining the parts back gives the input. */
  lemma {:induction false} SplitJoin(s: string, sep: char)
    ensures Join(Split(s, sep), sep) == s
  {
    if s != [] {
      var rest := Split(s[1..], sep);
      SplitJoin(s[1..], sep);
      if s[0] == sep {
        assert Split(s, sep) == [[]] + rest;
        assert (Split(s, sep))[1..] == rest;
      } else {
        var parts := Split(s, sep);
        assert parts == [[s[0]] + rest[0]] + rest[1..];
        if |rest| == 1 {
          assert parts == [[s[0]] + rest[0]];
        } else {
          assert parts[1..] == rest[1..];
          assert Join(rest, sep) == rest[0] + [sep] + Join(rest[1..], sep);
        }
      }
    }
  }
}
