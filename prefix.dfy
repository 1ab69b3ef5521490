/**
 * The four-character prefix of a new record's ID: a two-character
 * abbreviation of the department followed by one of the document type
 * (app.py, abrev_depto, abrev_tipo and montar_prefixo). The two lookup
 * tables, name to abbreviation, are parameters.
 */
module Prefix {
  import opened Text
  import opened Codec

  /** `re.sub(r"[^A-Z0-9]", "", s)`: keeps the `[A-Z0-9]` characters, in order. */
  function KeepIdChars(s: string): (r: string)
    ensures |r| <= |s|
    ensures forall k :: 0 <= k < |r| ==> IsIdChar(r[k]) && r[k] in s
    ensures forall k :: 0 <= k < |s| && IsIdChar(s[k]) ==> s[k] in r
  {
    if s == [] then []
    else (if IsIdChar(s[0]) then [s[0]] else []) + KeepIdChars(s[1..])
  }

  lemma {:induction false} KeepIdCharsAppend(a: string, b: string)
    ensures KeepIdChars(a + b) == KeepIdChars(a) + KeepIdChars(b)
  {
    if a == [] {
      assert a + b == b;
    } else {
      assert (a + b)[0] == a[0] && (a + b)[1..] == a[1..] + b;
      KeepIdCharsAppend(a[1..], b);
    }
  }

  /** str.ljust(width, fill) */
  function LJust(s: string, width: nat, fill: char): (r: string)
    ensures |r| == if |s| < width then width else |s|
    ensures r[..|s|] == s
    ensures forall k :: |s| <= k < |r| ==> r[k] == fill
  {
    if |s| >= width then s else s + seq(width - |s|, _ => fill)
  }

  /** Two characters of `[A-Z0-9]`: the abbreviation a prefix half needs. */
  predicate IsCode(s: string) {
    |s| == 2 && IsIdChar(s[0]) && IsIdChar(s[1])
  }

  /** The table has a non-empty abbreviation for this name. */
  predicate IsMapped(name: string, codes: map<string, string>) {
    Normalize(name) in codes && codes[Normalize(name)] != []
  }

  /**
   * abrev_depto / abrev_tipo: "XX" for a blank name; the upper-cased table
   * entry when there is one; otherwise the first two `[A-Z0-9]` characters of
   * the normalised name, padded on the right with 'X'.
   */
  function Abbrev(name: string, codes: map<string, string>): (r: string)
    ensures Strip(name) == [] ==> r == "XX"
    ensures Strip(name) != [] && IsMapped(name, codes) ==> r == Upper(codes[Normalize(name)])
    ensures Strip(name) != [] && !IsMapped(name, codes) ==>
      IsCode(r) && r == (KeepIdChars(Normalize(name)) + "XX")[..2]
  {
    if Strip(name) == [] then "XX"
    else
      var key := Normalize(name);
      if key in codes && codes[key] != [] then Upper(codes[key])
      else
        var alnum := KeepIdChars(key);
        var head := if |alnum| <= 2 then alnum else alnum[..2];
        LJust(if head == [] then "XX" else head, 2, 'X')
  }

  /** The name yields a proper two-character abbreviation: unmapped, or mapped to one. */
  predicate YieldsCode(name: string, codes: map<string, string>) {
    Strip(name) == [] || !IsMapped(name, codes) || IsCode(Upper(codes[Normalize(name)]))
  }

  lemma AbbrevIsCode(name: string, codes: map<string, string>)
    requires YieldsCode(name, codes)
    ensures IsCode(Abbrev(name, codes))
  {
    if Strip(name) == [] {
      assert Abbrev(name, codes) == "XX";
    } else if IsMapped(name, codes) {
      assert Abbrev(name, codes) == Upper(codes[Normalize(name)]);
    }
  }

  /** montar_prefixo: the department's abbreviation, then the document type's. */
  function BuildPrefix(dept: string, docType: string,
                       deptCodes: map<string, string>, typeCodes: map<string, string>): string
  {
    Abbrev(dept, deptCodes) + Abbrev(docType, typeCodes)
  }

  /**
   * The prefix is four `[A-Z0-9]` characters, department half first, whenever
   * both names yield proper abbreviations. Nothing forces this for a table
   * entry of another length; see Codec.ParseRejectsOtherPrefixLengths.
   */
  lemma BuildPrefixValid(dept: string, docType: string,
                         deptCodes: map<string, string>, typeCodes: map<string, string>)
    requires YieldsCode(dept, deptCodes) && YieldsCode(docType, typeCodes)
    ensures var p := BuildPrefix(dept, docType, deptCodes, typeCodes);
      && ValidPrefix(p)
      && p[..2] == Abbrev(dept, deptCodes)
      && p[2..] == Abbrev(docType, typeCodes)
  {
    AbbrevIsCode(dept, deptCodes);
    AbbrevIsCode(docType, typeCodes);
    CodesMakePrefix(Abbrev(dept, deptCodes), Abbrev(docType, typeCodes));
  }

  lemma CodesMakePrefix(a: string, b: string)
    requires IsCode(a) && IsCode(b)
    ensures ValidPrefix(a + b) && (a + b)[..2] == a && (a + b)[2..] == b
  {
    var p := a + b;
    assert p[0] == a[0] && p[1] == a[1] && p[2] == b[0] && p[3] == b[1];
  }

  lemma UpperJu()
    ensures Upper("Ju") == "JU"
  {
    assert "Ju"[1..] == "u" && "u"[1..] == "";
  }

  lemma UpperCt()
    ensures Upper("ct") == "CT"
  {
    assert "ct"[1..] == "t" && "t"[1..] == "";
  }

  lemma StripJuridico()
    ensures Strip("Jurídico") == "Jurídico"
  {
    var name := "Jurídico";
    assert !IsSpace(name[0]) && !IsSpace(name[|name| - 1]);
    StripUnchanged(name);
  }

  lemma JuridicoKey()
    ensures Normalize("Jurídico") == "JU" + Upper("rídico")
  {
    StripJuridico();
    assert "Jurídico" == "Ju" + "rídico";
    UpperAppend("Ju", "rídico");
    UpperJu();
  }

  /** Text that starts with a code keeps that code in front when filtered. */
  lemma KeepIdCharsCode(code: string, rest: string)
    requires IsCode(code)
    ensures |KeepIdChars(code + rest)| >= 2 && KeepIdChars(code + rest)[..2] == code
  {
    KeepIdCharsAppend(code, rest);
    assert code[1..][1..] == [];
    assert KeepIdChars(code) == code;
  }

  /** An unmapped name with accented letters falls back to its first `[A-Z0-9]` characters. */
  lemma JuridicoFallsBack()
    ensures Abbrev("Jurídico", map[]) == "JU"
  {
    StripJuridico();
    JuridicoKey();
    KeepIdCharsCode("JU", Upper("rídico"));
    FallsBackToFirstTwo("Jurídico", map[]);
  }

  lemma UpperFi()
    ensures Upper("\U{FB01}") == "FI"
  {
    assert "\U{FB01}"[1..] == "";
  }

  /** The ligature 'ﬁ' upper-cases to the two letters "FI", which the abbreviation keeps. */
  lemma LigatureFallsBack()
    ensures Abbrev("\U{FB01}nanceiro", map[]) == "FI"
  {
    LigatureKey();
    KeepIdCharsCode("FI", Upper("nanceiro"));
    FallsBackToFirstTwo("\U{FB01}nanceiro", map[]);
  }

  lemma LigatureKey()
    ensures Strip("\U{FB01}nanceiro") != []
    ensures Normalize("\U{FB01}nanceiro") == "FI" + Upper("nanceiro")
  {
    var name := "\U{FB01}nanceiro";
    assert !IsSpace(name[0]) && !IsSpace(name[|name| - 1]);
    StripUnchanged(name);
    assert name == "\U{FB01}" + "nanceiro";
    UpperAppend("\U{FB01}", "nanceiro");
    UpperFi();
  }

  /** An unmapped name with at least two `[A-Z0-9]` characters is abbreviated to the first two. */
  lemma FallsBackToFirstTwo(name: string, codes: map<string, string>)
    requires Strip(name) != [] && !IsMapped(name, codes)
    requires |KeepIdChars(Normalize(name))| >= 2
    ensures Abbrev(name, codes) == KeepIdChars(Normalize(name))[..2]
  {
    var a := KeepIdChars(Normalize(name));
    assert (a + "XX")[..2] == a[..2];
  }

  /** A mapped document type uses its table entry, upper-cased. */
  lemma MappedTypeExample()
    ensures Abbrev("CONTRATO", map["CONTRATO" := "ct"]) == "CT"
  {
    var name := "CONTRATO";
    assert forall k :: 0 <= k < |name| ==> IsIdChar(name[k]);
    NormalizeIdChars(name);
    StripIdChars(name);
    UpperCt();
  }
}
