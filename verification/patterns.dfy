/** The scraper's regular expressions, each written out as the predicate it
    decides. Case-insensitive patterns are matched against `Lower` of the
    text. */
module Patterns {
  import opened Text

  /** `\d` on Basic Latin and Latin-1 Supplement. */
  predicate IsDigit(c: char) {
    '0' <= c <= '9'
  }

  /** `\w` on Basic Latin and Latin-1 Supplement: letters, digits, digit-like
      signs and the underscore. */
  predicate IsWordChar(c: char) {
    || 'a' <= c <= 'z' || 'A' <= c <= 'Z' || IsDigit(c) || c == '_'
    || c == '\U{AA}' || c == '\U{B2}' || c == '\U{B3}' || c == '\U{B5}' || c == '\U{B9}'
    || c == '\U{BA}' || ('\U{BC}' <= c <= '\U{BE}')
    || ('\U{C0}' <= c <= '\U{FF}' && c != '\U{D7}' && c != '\U{F7}')
  }

  /** No word character precedes position `i`: with a word character at
      `i`, this is `\b` there. */
  predicate BoundaryBefore(t: string, i: int)
    requires 0 <= i <= |t|
  {
    i == 0 || !IsWordChar(t[i - 1])
  }

  /** No word character sits at position `i`: with a word character at
      `i - 1`, this is `\b` there. */
  predicate BoundaryAt(t: string, i: int)
    requires 0 <= i <= |t|
  {
    i == |t| || !IsWordChar(t[i])
  }

  // ------------------------------------------------ estado\s*siniestro

  /** `estado\s*siniestro` matches at the start of `t`. */
  predicate EstadoSiniestroAt(t: string) {
    StartsWith(t, "estado") && StartsWith(LStrip(t[6..]), "siniestro")
  }

  /** `re.search(r"estado\s*siniestro", t)` on already lower-cased text. */
  predicate SearchEstadoSiniestro(t: string)
    decreases |t|
  {
    EstadoSiniestroAt(t) || (t != [] && SearchEstadoSiniestro(t[1..]))
  }

  /** The status-label pattern, case-insensitively. */
  predicate MatchesEstadoSiniestro(s: string) {
    SearchEstadoSiniestro(Lower(s))
  }

  /** The search finds the pattern exactly when it starts at some
      position of the text. */
  lemma {:induction false} EstadoSiniestroSomewhere(t: string)
    ensures SearchEstadoSiniestro(t) <==> exists i :: 0 <= i <= |t| && EstadoSiniestroAt(t[i..])
    decreases |t|
  {
    assert t[0..] == t;
    if t != [] {
      EstadoSiniestroSomewhere(t[1..]);
      assert forall i :: 1 <= i <= |t| ==> t[1..][i - 1..] == t[i..];
      if SearchEstadoSiniestro(t[1..]) {
        var i :| 0 <= i <= |t[1..]| && EstadoSiniestroAt(t[1..][i..]);
        assert EstadoSiniestroAt(t[i + 1..]);
      }
    }
  }

  // ---------------------------------------- \b(inquilino|asegurado)\b

  /** The word `w` occurs at position `i` of `t` between word boundaries. */
  predicate WordAt(t: string, i: int, w: string)
    requires 0 <= i <= |t|
  {
    i + |w| <= |t| && t[i..i + |w|] == w && BoundaryBefore(t, i) && BoundaryAt(t, i + |w|)
  }

  /** The tenant/insured label pattern, case-insensitively. */
  predicate MatchesInquilinoAsegurado(s: string) {
    var t := Lower(s);
    exists i :: 0 <= i <= |t| && (WordAt(t, i, "inquilino") || WordAt(t, i, "asegurado"))
  }

  /** A tenant/insured label contains one of the two words, and either
      word alone, in any case, is such a label. */
  lemma InquilinoAseguradoWords(s: string)
    ensures MatchesInquilinoAsegurado(s) ==>
              Contains(Lower(s), "inquilino") || Contains(Lower(s), "asegurado")
    ensures Lower(s) == "inquilino" || Lower(s) == "asegurado" ==> MatchesInquilinoAsegurado(s)
  {
    var t := Lower(s);
    if MatchesInquilinoAsegurado(s) {
      var i :| 0 <= i <= |t| && (WordAt(t, i, "inquilino") || WordAt(t, i, "asegurado"));
      var w := if WordAt(t, i, "inquilino") then "inquilino" else "asegurado";
      assert t[i..][..|w|] == t[i..i + |w|] == w;
      ContainsInSuffix(t, i, w);
    }
    if t == "inquilino" || t == "asegurado" {
      assert t[0..|t|] == t;
      assert WordAt(t, 0, t);
    }
  }

  // -------------------------------------------------------- j_idt\d+

  /** The end of the run of digits starting at `i`. */
  function DigitsEnd(t: string, i: nat): (e: nat)
    requires i <= |t|
    ensures i <= e <= |t|
    ensures forall k :: i <= k < e ==> IsDigit(t[k])
    ensures e < |t| ==> !IsDigit(t[e])
    decreases |t| - i
  {
    if i < |t| && IsDigit(t[i]) then DigitsEnd(t, i + 1) else i
  }

  /** `\bj_idt\d+\b` matches at position `i` of `t`. Since digits are word
      characters, the closing boundary can only follow the whole digit run. */
  predicate JidtAt(t: string, i: nat)
    requires i <= |t|
  {
    && StartsWith(t[i..], "j_idt")
    && BoundaryBefore(t, i)
    && var e := DigitsEnd(t, i + 5);
       e > i + 5 && BoundaryAt(t, e)
  }

  /** `re.fullmatch(r"j_idt\d+", name)`. */
  predicate FullJidt(name: string) {
    StartsWith(name, "j_idt") && |name| > 5 && forall k :: 5 <= k < |name| ==> IsDigit(name[k])
  }

  /** `re.search(r"\bj_idt\d+\b", name)`. */
  predicate SearchJidt(name: string) {
    exists i :: 0 <= i <= |name| && JidtAt(name, i)
  }

  /** The framework-generated control-name test of the submit chooser. */
  predicate IsJidtName(name: string) {
    FullJidt(name) || SearchJidt(name)
  }

  /** A fully generated name is also found by the bounded search, so the
      second test alone decides `IsJidtName`. */
  lemma FullJidtIsFound(name: string)
    requires FullJidt(name)
    ensures SearchJidt(name)
  {
    assert name[0..] == name;
    var e := DigitsEnd(name, 5);
    assert e == |name|;
    assert JidtAt(name, 0);
  }

  /** The generated-name test holds exactly when the bounded search finds
      a generated name. */
  lemma JidtNameIsSearch(name: string)
    ensures IsJidtName(name) <==> SearchJidt(name)
  {
    if FullJidt(name) {
      FullJidtIsFound(name);
    }
  }

  // -------------------------------------------- search keywords

  /** The submit-control keywords, in the order the scraper tries them. */
  const SubmitKeywords: seq<string> := ["buscar", "busca", "consulta", "consult", "search"]

  /** `any(k in hay for k in SubmitKeywords)`. */
  predicate HasSubmitKeyword(hay: string) {
    exists k :: 0 <= k < |SubmitKeywords| && Contains(hay, SubmitKeywords[k])
  }

  /** "buscar" and "consulta" are redundant: the shorter keywords that
      prefix them already decide the test. */
  lemma SubmitKeywordsReduce(hay: string)
    ensures HasSubmitKeyword(hay) <==>
              Contains(hay, "busca") || Contains(hay, "consult") || Contains(hay, "search")
  {
    if Contains(hay, "buscar") {
      assert "buscar" == "busca" + "r";
      ContainsHead(hay, "busca", "r");
    }
    if Contains(hay, "consulta") {
      assert "consulta" == "consult" + "a";
      ContainsHead(hay, "consult", "a");
    }
    assert Contains(hay, "busca") ==> Contains(hay, SubmitKeywords[1]);
    assert Contains(hay, "consult") ==> Contains(hay, SubmitKeywords[3]);
    assert Contains(hay, "search") ==> Contains(hay, SubmitKeywords[4]);
  }
}
