/** The search request of `get_info_for_radicado`: which fields of the
    chosen form are replayed, what the search field is called, and which
    submit control is included so that JSF runs the search action. */
module Payload {
  import opened Wrappers
  import opened Text
  import opened Lists
  import opened Markup
  import opened Maps
  import opened Patterns

  /** `name or id`. */
  function NameOrId(c: Control): string {
    if c.name != [] then c.name else c.id
  }

  // -------------------------------------------------------- hidden fields

  /** A named hidden input other than the ViewState one: replayed as is. */
  predicate IsReplayed(c: Control) {
    c.tag == "input" && c.name != [] && c.name != ViewStateName && Lower(c.inputType) == "hidden"
  }

  function Field(c: Control): (string, string) {
    (c.name, c.value)
  }

  /** The (name, value) assignments of the hidden inputs, in order. */
  function HiddenPairs(controls: seq<Control>): (r: seq<(string, string)>)
    ensures forall k :: 0 <= k < |r| ==> r[k].0 != [] && r[k].0 != ViewStateName
    ensures forall p :: p in r <==> exists c :: c in controls && IsReplayed(c) && p == (c.name, c.value)
    ensures InOrder(controls, IsReplayed, Field, r)
  {
    var r := FilterMap(controls, IsReplayed, Field);
    assert forall p :: p in r <==> exists c :: c in controls && IsReplayed(c) && p == (c.name, c.value) by {
      FilterMapMembers(controls, IsReplayed, Field);
    }
    assert forall k :: 0 <= k < |r| ==> r[k].0 != [] && r[k].0 != ViewStateName by {
      assert forall k :: 0 <= k < |r| ==> r[k] in r;
    }
    assert InOrder(controls, IsReplayed, Field, r) by {
      FilterMapInOrder(controls, IsReplayed, Field);
    }
    r
  }

  // --------------------------------------------------------- search field

  /** An input or textarea whose "name id" text mentions "busqueda". */
  predicate MentionsBusqueda(c: Control) {
    (c.tag == "input" || c.tag == "textarea") && Contains(Lower(c.name + " " + c.id), "busqueda")
  }

  /** The joined haystack mentions "busqueda" exactly when the name or the
      id does. */
  lemma MentionsBusquedaEither(c: Control)
    ensures MentionsBusqueda(c) <==>
              (c.tag == "input" || c.tag == "textarea") &&
              (Contains(Lower(c.name), "busqueda") || Contains(Lower(c.id), "busqueda"))
  {
    LowerConcat(c.name + " ", c.id);
    LowerConcat(c.name, " ");
    assert Lower(" ") == " ";
    ContainsAcrossSpace(Lower(c.name), Lower(c.id), "busqueda");
  }

  /** The name the search value is posted under: the name (else the id) of
      the first control mentioning "busqueda", or "busqueda" itself. */
  function SearchFieldName(controls: seq<Control>): (r: string)
    ensures r != []
    ensures (forall j :: 0 <= j < |controls| ==> !MentionsBusqueda(controls[j])) ==> r == "busqueda"
    ensures forall i :: (0 <= i < |controls| && MentionsBusqueda(controls[i]) &&
                         (forall j :: 0 <= j < i ==> !MentionsBusqueda(controls[j])) &&
                         NameOrId(controls[i]) != []) ==> r == NameOrId(controls[i])
  {
    FirstWhereIsFirst(controls, MentionsBusqueda);
    match FirstWhere(controls, MentionsBusqueda)
    case None => "busqueda"
    case Some(i) =>
      var n := NameOrId(controls[i]);
      if n != [] then n else "busqueda"
  }

  // ------------------------------------------------------ submit control

  /** A button, or an input of type submit, image or no type, that has a
      name or an id. */
  predicate IsCandidate(c: Control) {
    && (c.tag == "button" || c.tag == "input")
    && !(c.tag == "input" && Lower(c.inputType) != [] &&
         Lower(c.inputType) != "submit" && Lower(c.inputType) != "image")
    && NameOrId(c) != []
  }

  /** A candidate's (name, caption): the value, else the text. */
  function Caption(c: Control): (string, string) {
    (NameOrId(c), if c.value != [] then c.value else c.text)
  }

  /** The submit candidates, in document order. */
  function Candidates(controls: seq<Control>): (r: seq<(string, string)>)
    ensures forall k :: 0 <= k < |r| ==> r[k].0 != []
    ensures forall p :: p in r <==> exists c :: c in controls && IsCandidate(c) && p == Caption(c)
    ensures InOrder(controls, IsCandidate, Caption, r)
  {
    var r := FilterMap(controls, IsCandidate, Caption);
    assert forall p :: p in r <==> exists c :: c in controls && IsCandidate(c) && p == Caption(c) by {
      FilterMapMembers(controls, IsCandidate, Caption);
    }
    assert forall k :: 0 <= k < |r| ==> r[k].0 != [] by {
      assert forall k :: 0 <= k < |r| ==> r[k] in r;
    }
    assert InOrder(controls, IsCandidate, Caption, r) by {
      FilterMapInOrder(controls, IsCandidate, Caption);
    }
    r
  }

  predicate KeywordCandidate(p: (string, string)) {
    HasSubmitKeyword(Lower(p.0 + " " + p.1))
  }

  predicate JidtCandidate(p: (string, string)) {
    IsJidtName(p.0)
  }

  /** The submit control posted with the search: the first candidate whose
      name or caption has a search keyword, else the first with a
      `j_idt<digits>` name, else the only candidate. */
  function ChooseSubmit(cands: seq<(string, string)>): (r: Option<string>)
    ensures r.Some? ==> exists k :: 0 <= k < |cands| && cands[k].0 == r.value
    ensures forall k :: (0 <= k < |cands| && KeywordCandidate(cands[k]) &&
                         (forall j :: 0 <= j < k ==> !KeywordCandidate(cands[j]))) ==> r == Some(cands[k].0)
    ensures (forall j :: 0 <= j < |cands| ==> !KeywordCandidate(cands[j])) ==>
              forall k :: (0 <= k < |cands| && JidtCandidate(cands[k]) &&
                           (forall j :: 0 <= j < k ==> !JidtCandidate(cands[j]))) ==> r == Some(cands[k].0)
    ensures (forall j :: 0 <= j < |cands| ==> !KeywordCandidate(cands[j]) && !JidtCandidate(cands[j])) ==>
              r == if |cands| == 1 then Some(cands[0].0) else None
  {
    var keyword := FirstWhere(cands, KeywordCandidate);
    var generated := FirstWhere(cands, JidtCandidate);
    if keyword.Some? then Some(cands[keyword.value].0)
    else if generated.Some? then Some(cands[generated.value].0)
    else if |cands| == 1 then Some(cands[0].0)
    else None
  }

  // ------------------------------------------------------------- payload

  /** The submit control chosen for a form. */
  function SubmitOf(form: Form): Option<string> {
    ChooseSubmit(Candidates(form.controls))
  }

  /** The posted fields, in the order the scraper writes them: the hidden
      inputs, the search value, the tracked ViewState, the submit
      control's own name. */
  function SearchPayload(form: Form, solicitud: string, viewState: string): (r: map<string, string>)
    ensures var hidden := HiddenPairs(form.controls);
            var search := SearchFieldName(form.controls);
            var submit := SubmitOf(form);
            && r.Keys == Names(hidden) + {search, ViewStateName} + (if submit.Some? then {submit.value} else {})
            && (submit.Some? ==> r[submit.value] == submit.value)
            && (submit != Some(ViewStateName) ==> r[ViewStateName] == viewState)
            && (search != ViewStateName && submit != Some(search) ==> r[search] == solicitud)
  {
    Fill(HiddenPairs(form.controls), SearchFieldName(form.controls), SubmitOf(form), solicitud, viewState)
  }

  /** The assignments of the payload, for any hidden pairs, search key and
      submit control. */
  function Fill(hidden: seq<(string, string)>, search: string, submit: Option<string>,
                solicitud: string, viewState: string): (r: map<string, string>)
    ensures r.Keys == Names(hidden) + {search, ViewStateName} + (if submit.Some? then {submit.value} else {})
    ensures submit.Some? ==> r[submit.value] == submit.value
    ensures submit != Some(ViewStateName) ==> r[ViewStateName] == viewState
    ensures search != ViewStateName && submit != Some(search) ==> r[search] == solicitud
  {
    var withSearch := Assign(map[], hidden)[search := solicitud][ViewStateName := viewState];
    match submit
    case Some(s) => withSearch[s := s]
    case None => withSearch
  }

  /** A replayed hidden field holds the value of the last hidden input of
      that name, unless the search, ViewState or submit key overwrote it;
      the form's own ViewState input is never replayed. */
  lemma HiddenFieldsReplayed(form: Form, solicitud: string, viewState: string, j: nat)
    requires var hidden := HiddenPairs(form.controls);
             && j < |hidden|
             && (forall i :: j < i < |hidden| ==> hidden[i].0 != hidden[j].0)
             && hidden[j].0 != SearchFieldName(form.controls)
             && SubmitOf(form) != Some(hidden[j].0)
    ensures var hidden := HiddenPairs(form.controls);
            hidden[j].0 != ViewStateName &&
            SearchPayload(form, solicitud, viewState)[hidden[j].0] == hidden[j].1
  {
    FillKeepsHidden(HiddenPairs(form.controls), SearchFieldName(form.controls), SubmitOf(form),
                    solicitud, viewState, j);
  }

  lemma FillKeepsHidden(hidden: seq<(string, string)>, search: string, submit: Option<string>,
                        solicitud: string, viewState: string, j: nat)
    requires j < |hidden| && (forall i :: j < i < |hidden| ==> hidden[i].0 != hidden[j].0)
    requires hidden[j].0 != search && hidden[j].0 != ViewStateName && submit != Some(hidden[j].0)
    ensures Fill(hidden, search, submit, solicitud, viewState)[hidden[j].0] == hidden[j].1
  {
    AssignLastWins(map[], hidden, j);
  }
}
