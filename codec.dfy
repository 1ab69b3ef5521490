/**
 * Record identifiers `PPPPNNL`: a four-character prefix and a suffix of two
 * decimal digits and one capital letter, 00A..99Z, encoding an index 0..2599
 * (app.py, idx_to_sufixo, sufixo_to_idx and extrair_prefixo_e_idx).
 */
module Codec {
  import opened Wrappers
  import opened Text

  /** 00A..99Z: a hundred numbers times twenty-six letters. */
  const Capacity: int := 100 * 26

  datatype CodecError =
    | CapacityExhausted              // idx_to_sufixo outside 0..2599
    | InvalidSuffix(suffix: string)  // sufixo_to_idx on anything but `NNL`

  predicate IsDigit(c: char) { '0' <= c <= '9' }

  predicate IsLetter(c: char) { 'A' <= c <= 'Z' }

  /** The character class `[A-Z0-9]`. */
  predicate IsIdChar(c: char) { IsLetter(c) || IsDigit(c) }

  /** The pattern `\d{2}[A-Z]`. */
  predicate IsSuffix(s: string) {
    |s| == 3 && IsDigit(s[0]) && IsDigit(s[1]) && IsLetter(s[2])
  }

  /** The pattern `[A-Z0-9]{4}`. */
  predicate ValidPrefix(p: string) {
    |p| == 4 && forall k :: 0 <= k < 4 ==> IsIdChar(p[k])
  }

  function DigitValue(c: char): (v: int)
    requires IsDigit(c)
    ensures 0 <= v < 10
  {
    c as int - '0' as int
  }

  /** sufixo_to_idx: `NN` times 26 plus the letter's place in the alphabet; ValueError otherwise. */
  function SuffixToIdx(s: string): (r: Result<int, CodecError>)
    ensures r.Success? <==> IsSuffix(s)
    ensures r.Success? ==> 0 <= r.value < Capacity
    ensures r.Failure? ==> r.error == InvalidSuffix(s)
  {
    if IsSuffix(s) then
      Success((DigitValue(s[0]) * 10 + DigitValue(s[1])) * 26 + (s[2] as int - 'A' as int))
    else
      Failure(InvalidSuffix(s))
  }

  /** idx_to_sufixo: the zero-padded quotient by 26 and the letter of the remainder. */
  function IdxToSuffix(idx: int): (r: Result<string, CodecError>)
    ensures r.Success? <==> 0 <= idx < Capacity
    ensures r.Failure? ==> r.error == CapacityExhausted
    ensures r.Success? ==> IsSuffix(r.value) && SuffixToIdx(r.value) == Success(idx)
  {
    if idx < 0 || idx >= Capacity then
      Failure(CapacityExhausted)
    else
      var num := idx / 26;
      var letter := idx % 26;
      Success([('0' as int + num / 10) as char, ('0' as int + num % 10) as char, ('A' as int + letter) as char])
  }

  /** Every well-formed suffix is the encoding of the index it decodes to. */
  lemma SuffixToIdxInverse(s: string)
    requires IsSuffix(s)
    ensures IdxToSuffix(SuffixToIdx(s).value) == Success(s)
  {
    var num := DigitValue(s[0]) * 10 + DigitValue(s[1]);
    var letter := s[2] as int - 'A' as int;
    var idx := num * 26 + letter;
    assert idx / 26 == num && idx % 26 == letter;
    assert num / 10 == DigitValue(s[0]) && num % 10 == DigitValue(s[1]);
    var t := IdxToSuffix(idx).value;
    assert t[0] == s[0] && t[1] == s[1] && t[2] == s[2];
    assert t == s;
  }

  /** Encoding is one-to-one on the namespace. */
  lemma IdxToSuffixInjective(i: int, j: int)
    requires 0 <= i < Capacity && 0 <= j < Capacity
    requires IdxToSuffix(i) == IdxToSuffix(j)
    ensures i == j
  {
    assert SuffixToIdx(IdxToSuffix(i).value) == Success(i);
  }

  /** A larger index has a larger suffix in Python's string order. */
  lemma IdxToSuffixMonotonic(i: int, j: int)
    requires 0 <= i < j < Capacity
    ensures StringLess(IdxToSuffix(i).value, IdxToSuffix(j).value)
  {
    var a, b := IdxToSuffix(i).value, IdxToSuffix(j).value;
    assert a[1..][1..] == [a[2]] && b[1..][1..] == [b[2]];
    assert [a[2]][1..] == [] && [b[2]][1..] == [];
    if i / 26 == j / 26 {
      assert i % 26 < j % 26;
    } else {
      assert i / 26 < j / 26;
      if i / 26 / 10 == j / 26 / 10 {
        assert i / 26 % 10 < j / 26 % 10;
      }
    }
  }

  /** extrair_prefixo_e_idx's result: the prefix and the decoded index. */
  datatype ParsedId = ParsedId(prefix: string, index: int)

  /** `id_str.strip().upper()` */
  function Normalize(s: string): string {
    Upper(Strip(s))
  }

  /**
   * extrair_prefixo_e_idx: strips and upper-cases, then accepts exactly
   * `[A-Z0-9]{4}` followed by `\d{2}[A-Z]`; anything else gives None.
   */
  function ParseId(idText: string): (r: Option<ParsedId>)
    ensures var s := Normalize(idText);
      r.Some? <==> |s| == 7 && ValidPrefix(s[..4]) && IsSuffix(s[4..])
    ensures r.Some? ==>
      && ValidPrefix(r.value.prefix)
      && 0 <= r.value.index < Capacity
      && Normalize(idText) == r.value.prefix + IdxToSuffix(r.value.index).value
  {
    ParseCanonical(Normalize(idText))
  }

  /** The match of extrair_prefixo_e_idx, on text already stripped and upper-cased. */
  function ParseCanonical(s: string): (r: Option<ParsedId>)
    ensures r.Some? <==> |s| == 7 && ValidPrefix(s[..4]) && IsSuffix(s[4..])
    ensures r.Some? ==>
      && ValidPrefix(r.value.prefix)
      && 0 <= r.value.index < Capacity
      && s == r.value.prefix + IdxToSuffix(r.value.index).value
  {
    if |s| == 7 && ValidPrefix(s[..4]) && IsSuffix(s[4..]) then
      match SuffixToIdx(s[4..])
      case Success(idx) =>
        SuffixToIdxInverse(s[4..]);
        assert s == s[..4] + s[4..];
        Some(ParsedId(s[..4], idx))
      case Failure(_) => None
    else
      None
  }

  lemma IdCharIsPlain(c: char)
    requires IsIdChar(c)
    ensures !IsSpace(c) && IsUpperFixed(c)
  {
  }

  lemma StripIdChars(s: string)
    requires forall k :: 0 <= k < |s| ==> IsIdChar(s[k])
    ensures Strip(s) == s
  {
    if s != [] {
      IdCharIsPlain(s[0]);
      IdCharIsPlain(s[|s| - 1]);
    }
    StripUnchanged(s);
  }

  lemma UpperIdChars(s: string)
    requires forall k :: 0 <= k < |s| ==> IsIdChar(s[k])
    ensures Upper(s) == s
  {
    forall k | 0 <= k < |s|
      ensures IsUpperFixed(s[k])
    {
      IdCharIsPlain(s[k]);
    }
    UpperUnchanged(s);
  }

  /** A string of `[A-Z0-9]` characters is its own normal form. */
  lemma NormalizeIdChars(s: string)
    requires forall k :: 0 <= k < |s| ==> IsIdChar(s[k])
    ensures Normalize(s) == s
  {
    StripIdChars(s);
    UpperIdChars(s);
  }

  /** Building an ID from a valid prefix and an index and parsing it back gives both back. */
  lemma ParseBuiltId(prefix: string, idx: int)
    requires ValidPrefix(prefix) && 0 <= idx < Capacity
    ensures ParseId(prefix + IdxToSuffix(idx).value) == Some(ParsedId(prefix, idx))
  {
    var s := prefix + IdxToSuffix(idx).value;
    NormalizeIdChars(s);
    assert s[..4] == prefix && s[4..] == IdxToSuffix(idx).value;
  }

  /**
   * The parser only knows four-character prefixes: an ID built on a prefix of
   * any other length is ignored, even when every character is in `[A-Z0-9]`.
   */
  lemma ParseRejectsOtherPrefixLengths(prefix: string, idx: int)
    requires |prefix| != 4 && forall k :: 0 <= k < |prefix| ==> IsIdChar(prefix[k])
    requires 0 <= idx < Capacity
    ensures ParseId(prefix + IdxToSuffix(idx).value) == None
  {
    var s := prefix + IdxToSuffix(idx).value;
    NormalizeIdChars(s);
  }

  lemma StripLeftExample()
    ensures StripLeft(" gqes03c ") == "gqes03c "
  {
    var s, t := " gqes03c ", "gqes03c ";
    assert s[0] == ' ' && s[1..] == t;
    assert t[0] == 'g';
  }

  lemma StripRightExample()
    ensures StripRight("gqes03c ") == "gqes03c"
  {
    var t := "gqes03c ";
    assert t[|t| - 1] == ' ' && t[..|t| - 1] == "gqes03c";
  }

  lemma StripExample()
    ensures Strip(" gqes03c ") == "gqes03c"
  {
    StripLeftExample();
    StripRightExample();
  }

  lemma UpperExample()
    ensures Upper("gqes03c") == "GQES03C"
  {
    assert Upper("c") == "C" by { assert "c"[1..] == ""; }
    assert Upper("3c") == "3C" by { assert "3c"[1..] == "c"; }
    assert Upper("03c") == "03C" by { assert "03c"[1..] == "3c"; }
    assert Upper("s03c") == "S03C" by { assert "s03c"[1..] == "03c"; }
    assert Upper("es03c") == "ES03C" by { assert "es03c"[1..] == "s03c"; }
    assert Upper("qes03c") == "QES03C" by { assert "qes03c"[1..] == "es03c"; }
    assert "gqes03c"[1..] == "qes03c";
  }

  lemma NormalizeExample()
    ensures Normalize(" gqes03c ") == "GQES03C"
  {
    StripExample();
    UpperExample();
  }

  lemma ParseCanonicalExample()
    ensures ParseCanonical("GQES03C") == Some(ParsedId("GQES", 80))
  {
    var s := "GQES03C";
    assert s[..4] == "GQES" && s[4..] == "03C";
    assert forall k :: 0 <= k < 4 ==> IsIdChar(s[k]);
    assert SuffixToIdx("03C") == Success(80);
  }

  /** A lower-case ID with surrounding blanks parses like its canonical form. */
  lemma ParseIdExample()
    ensures ParseId(" gqes03c ") == Some(ParsedId("GQES", 80))
  {
    NormalizeExample();
    ParseCanonicalExample();
  }
}
