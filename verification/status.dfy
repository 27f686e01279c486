/** The status normaliser: free-text claim status from the portal mapped to
    the scraper's canonical tokens, with unrecognised text passed through. */
module Status {
  import opened Wrappers
  import opened Text

  const NotFound: string := "NO ENCONTRADO"
  const NotWithdrawn: string := "SIN DESISTIR"
  const Withdrawn: string := "DESISTIDO"
  const Reported: string := "REPORTADO"

  predicate Canonical(s: string) {
    s == NotFound || s == NotWithdrawn || s == Withdrawn || s == Reported
  }

  /** The pass-through form of unrecognised text: whitespace runs collapsed
      to one space, ends stripped, upper-cased. */
  function Echo(text: string): string {
    Upper(Strip(Collapse(text)))
  }

  /** The payment phrasings (and the unreachable "sin desist") that mean
      "not withdrawn". */
  predicate PaymentPhrase(lower: string) {
    Contains(lower, "sin desist") || Contains(lower, "no ha pagado") || Contains(lower, "sin pagar")
  }

  /** None of the tests fires. */
  predicate Unrecognised(lower: string) {
    lower != "nuevo" && !Contains(lower, "desist") && !Contains(lower, "report") && !PaymentPhrase(lower)
  }

  /** The token a lower-cased, stripped, non-empty status maps to, if any.
      The tests run in a fixed order: exactly "nuevo"; contains "desist";
      contains "report"; contains "sin desist", "no ha pagado" or
      "sin pagar". */
  function TokenFor(lower: string): (r: Option<string>)
    ensures r.Some? ==> Canonical(r.value)
    ensures lower == "nuevo" ==> r == Some(NotWithdrawn)
    ensures lower != "nuevo" && Contains(lower, "desist") ==> r == Some(Withdrawn)
    ensures lower != "nuevo" && !Contains(lower, "desist") && Contains(lower, "report") ==> r == Some(Reported)
    ensures (lower != "nuevo" && !Contains(lower, "desist") && !Contains(lower, "report") &&
             PaymentPhrase(lower)) ==> r == Some(NotWithdrawn)
    ensures r.None? <==> Unrecognised(lower)
  {
    if lower == "nuevo" then Some(NotWithdrawn)
    else if Contains(lower, "desist") then Some(Withdrawn)
    else if Contains(lower, "report") then Some(Reported)
    else if PaymentPhrase(lower) then Some(NotWithdrawn)
    else None
  }

  /** Maps a raw status to a canonical token; blank text is "NO ENCONTRADO"
      and text no test recognises is echoed. */
  function NormalizeEstado(raw: string): (r: string)
    ensures r != []
    ensures AllSpace(raw) ==> r == NotFound
    ensures (!AllSpace(raw) && Lower(Strip(raw)) == "nuevo") ==> r == NotWithdrawn
    ensures (!AllSpace(raw) && Lower(Strip(raw)) != "nuevo" &&
             Contains(Lower(Strip(raw)), "desist")) ==> r == Withdrawn
    ensures (!AllSpace(raw) && Lower(Strip(raw)) != "nuevo" && !Contains(Lower(Strip(raw)), "desist") &&
             Contains(Lower(Strip(raw)), "report")) ==> r == Reported
    ensures (!AllSpace(raw) && Lower(Strip(raw)) != "nuevo" && !Contains(Lower(Strip(raw)), "desist") &&
             !Contains(Lower(Strip(raw)), "report") && PaymentPhrase(Lower(Strip(raw)))) ==> r == NotWithdrawn
    ensures (!AllSpace(raw) && Unrecognised(Lower(Strip(raw)))) ==> r == Echo(Strip(raw))
    ensures Canonical(r) || r == Echo(Strip(raw))
  {
    var text := Strip(raw);
    if text == [] then NotFound
    else
      match TokenFor(Lower(text))
      case Some(t) => t
      case None =>
        EchoNonEmpty(text);
        Echo(text)
  }

  lemma EchoNonEmpty(text: string)
    requires text != [] && Stripped(text)
    ensures Echo(text) != []
  {
    var c := Collapse(text);
    assert !IsSpace(c[0]);
    SingleSpacedStrip(c);
    UpperShape(Strip(c));
  }

  /** The same tests without the "sin desist" one. */
  function TokenForPruned(lower: string): Option<string> {
    if lower == "nuevo" then Some(NotWithdrawn)
    else if Contains(lower, "desist") then Some(Withdrawn)
    else if Contains(lower, "report") then Some(Reported)
    else if Contains(lower, "no ha pagado") || Contains(lower, "sin pagar") then Some(NotWithdrawn)
    else None
  }

  /** The "sin desist" test never decides anything: whatever contains
      "sin desist" contains "desist", which is tested earlier. Removing it
      changes no result, so "SIN DESISTIR" other than for "nuevo" comes only
      from the payment phrasings. */
  lemma SinDesistTestIsDead(lower: string)
    ensures TokenFor(lower) == TokenForPruned(lower)
  {
    if lower == "nuevo" || Contains(lower, "desist") || Contains(lower, "report") {
    } else {
      assert !Contains(lower, "sin desist") by {
        assert "sin desist" == "sin " + "desist";
        if Contains(lower, "sin desist") {
          ContainsTail(lower, "sin ", "desist");
        }
      }
    }
  }

  /** A status reading "sin desistir" ("not withdrawn"), in any case and
      with any surrounding whitespace, normalises to "DESISTIDO". */
  lemma SinDesistirIsWithdrawn(raw: string)
    requires Contains(Lower(Strip(raw)), "sin desistir")
    ensures NormalizeEstado(raw) == Withdrawn
  {
    var lower := Lower(Strip(raw));
    SinDesistirHasDesist(lower);
    assert lower != "nuevo";
    assert Strip(raw) != [];
  }

  lemma SinDesistirHasDesist(lower: string)
    requires Contains(lower, "sin desistir")
    ensures Contains(lower, "desist") && |lower| >= 12
  {
    DesistInPhrase();
    ContainsInfix(lower, "sin desistir", 4, 10);
    ContainsLength(lower, "sin desistir");
  }

  lemma DesistInPhrase()
    ensures "sin desistir"[4..10] == "desist"
  {
    assert OccursAt("sin desistir", 4, "desist", 0);
    OccursAtInfix("sin desistir", 4, "desist");
  }

  /** The canonical token for withdrawn, re-normalised, is itself; the one
      for not-withdrawn is not: it turns into "DESISTIDO". */
  lemma RenormalisingTokens()
    ensures NormalizeEstado(Withdrawn) == Withdrawn
    ensures NormalizeEstado(NotWithdrawn) == Withdrawn
  {
    assert Stripped(Withdrawn);
    assert Lower(Withdrawn) == "desistido";
    assert StartsWith("desistido", "desist");
    assert Stripped(NotWithdrawn);
    assert Lower(NotWithdrawn) == "sin desistir";
    assert StartsWith("sin desistir", "sin desistir");
    SinDesistirIsWithdrawn(NotWithdrawn);
  }

  /** Normalisation ignores letter case: upper- and lower-case renderings
      of a status map to the same token. */
  lemma CaseInsensitive(raw: string)
    ensures NormalizeEstado(Lower(raw)) == NormalizeEstado(raw)
  {
    var text := Strip(raw);
    var lower := Lower(text);
    StripLower(raw);
    assert Strip(Lower(raw)) == lower;
    LowerIdempotent(text);
    assert Lower(lower) == lower;
    if text != [] && TokenFor(lower).None? {
      var c := Collapse(text);
      CollapseLower(text);
      StripLower(c);
      UpperLower(Strip(c));
      assert Echo(lower) == Echo(text);
    }
  }

  /** Unrecognised text comes back single-spaced, stripped and non-empty. */
  lemma EchoShape(raw: string)
    requires !Canonical(NormalizeEstado(raw))
    ensures SingleSpaced(NormalizeEstado(raw)) && Stripped(NormalizeEstado(raw))
  {
    var c := Collapse(Strip(raw));
    SingleSpacedStrip(c);
    UpperShape(Strip(c));
  }
  /** The tests that can fire, turned around: text none of them accepts
      gets no token. */
  lemma TokenForNone(lower: string)
    requires lower != "nuevo" && !Contains(lower, "desist") && !Contains(lower, "report")
    requires !Contains(lower, "sin desist") && !Contains(lower, "no ha pagado")
    requires !Contains(lower, "sin pagar")
    ensures TokenFor(lower) == None
  {
  }

  lemma NotFoundLower()
    ensures Lower(NotFound) == "no encontrado"
  {
    var lower := Lower(NotFound);
    forall i | 0 <= i < |lower| ensures lower[i] == "no encontrado"[i] {
      assert lower[i] == LowerChar(NotFound[i]);
    }
  }

  /** "no encontrado" has no 's', 'p' or 'h', so no test accepts it. */
  lemma NoTokenForNotFound(lower: string)
    requires lower == "no encontrado"
    ensures TokenFor(lower) == None
  {
    assert 's' !in lower && 'p' !in lower && 'h' !in lower;
    assert lower != "nuevo" by { assert lower[0] != "nuevo"[1]; }
    NoTokenWithout(lower);
  }

  /** Every phrase a test looks for has an 's', a 'p' or an 'h'. */
  lemma NoTokenWithout(lower: string)
    requires lower != "nuevo" && 's' !in lower && 'p' !in lower && 'h' !in lower
    ensures TokenFor(lower) == None
  {
    MissingChar(lower, "desist", 2);
    MissingChar(lower, "report", 2);
    MissingChar(lower, "sin desist", 0);
    MissingChar(lower, "no ha pagado", 3);
    MissingChar(lower, "sin pagar", 0);
    TokenForNone(lower);
  }

  /** Single-spaced, stripped capitals are echoed unchanged. */
  lemma EchoOfCapitals(s: string)
    requires SingleSpaced(s) && Stripped(s)
    requires forall i :: 0 <= i < |s| ==> 'A' <= s[i] <= 'Z' || s[i] == ' '
    ensures Echo(s) == s
  {
    CollapseSingleSpaced(s);
    UpperOfCapitals(s);
  }

  /** "NO ENCONTRADO" normalises to itself, so the status pair the scraper
      reports for a missing status, ("NO ENCONTRADO", "NO ENCONTRADO"), is
      a raw status with its normalisation like any other. */
  lemma NotFoundIsFixed()
    ensures NormalizeEstado(NotFound) == NotFound
  {
    assert Stripped(NotFound);
    NotFoundLower();
    NoTokenForNotFound(Lower(NotFound));
    NotFoundEcho();
  }

  lemma NotFoundEcho()
    ensures Echo(NotFound) == NotFound
  {
    NotFoundShape();
    EchoOfCapitals(NotFound);
  }

  lemma NotFoundShape()
    ensures SingleSpaced(NotFound) && Stripped(NotFound)
    ensures forall i :: 0 <= i < |NotFound| ==> 'A' <= NotFound[i] <= 'Z' || NotFound[i] == ' '
  {
    var no, encontrado := NotFoundWords();
    CapitalPhrase(no, encontrado);
  }

  /** "NO ENCONTRADO" is two capital words. */
  lemma NotFoundWords() returns (no: string, encontrado: string)
    ensures NotFound == no + " " + encontrado
    ensures no != [] && encontrado != [] && LettersFrom(no, 0) && LettersFrom(encontrado, 0)
  {
    no, encontrado := "NO", "ENCONTRADO";
    assert LettersFrom(no, 0);
    assert LettersFrom(encontrado, 0);
  }

  /** From position `i` on, capital letters only. */
  predicate LettersFrom(s: string, i: nat)
    decreases |s| - i
  {
    i >= |s| || ('A' <= s[i] <= 'Z' && LettersFrom(s, i + 1))
  }

  lemma {:induction false} LettersAt(s: string, i: nat, j: nat)
    requires LettersFrom(s, i) && i <= j < |s|
    ensures 'A' <= s[j] <= 'Z'
    decreases j - i
  {
    if i < j {
      LettersAt(s, i + 1, j);
    }
  }

  /** Two capital words joined by one space are single-spaced and
      stripped. */
  lemma CapitalPhrase(a: string, b: string)
    requires a != [] && b != [] && LettersFrom(a, 0) && LettersFrom(b, 0)
    ensures var u := a + " " + b;
            SingleSpaced(u) && Stripped(u) &&
            forall i :: 0 <= i < |u| ==> 'A' <= u[i] <= 'Z' || u[i] == ' '
  {
    var u := a + " " + b;
    forall i | 0 <= i < |u|
      ensures (if i == |a| then u[i] == ' ' else 'A' <= u[i] <= 'Z')
    {
      if i < |a| {
        assert u[i] == a[i];
        LettersAt(a, 0, i);
      } else if i > |a| {
        assert u[i] == b[i - |a| - 1];
        LettersAt(b, 0, i - |a| - 1);
      }
    }
    assert !IsSpace(u[0]) && !IsSpace(u[|u| - 1]);
  }
}
