/** Choosing which `<form>` of the index page to post the search to. The
    page holds several forms that carry a ViewState (menu, dialogs), and
    posting to the wrong one silently runs no search. */
module Forms {
  import opened Wrappers
  import opened Text
  import opened Lists
  import opened Markup

  /** An input or textarea whose name or id ends in "busqueda". */
  predicate IsSearchInput(c: Control) {
    (c.tag == "input" || c.tag == "textarea") &&
    (EndsWith(Lower(c.name), "busqueda") || EndsWith(Lower(c.id), "busqueda"))
  }

  /** A form holding the search field. */
  predicate IsSearchBearing(f: Form) {
    exists k :: 0 <= k < |f.controls| && IsSearchInput(f.controls[k])
  }

  /** The form the real search button belongs to. */
  predicate IsFormIndex(f: Form) {
    Strip(f.id) == "FormIndex" || Strip(f.name) == "FormIndex"
  }

  /** A form that posts to the index page. */
  predicate PostsToIndex(f: Form) {
    EndsWith(Lower(f.action), "/pages/index.xhtml") || EndsWith(Lower(f.action), "index.xhtml")
  }

  /** A form with an input named exactly `javax.faces.ViewState`. */
  predicate HasViewState(f: Form) {
    exists k :: 0 <= k < |f.controls| && f.controls[k].tag == "input" && f.controls[k].name == ViewStateName
  }

  /** How strongly a form is preferred: 0 is best. */
  function Rank(f: Form): (n: nat)
    ensures n <= 4
    ensures n == 0 <==> IsSearchBearing(f) && IsFormIndex(f)
    ensures n == 1 <==> IsSearchBearing(f) && !IsFormIndex(f) && PostsToIndex(f)
    ensures n == 2 <==> IsSearchBearing(f) && !IsFormIndex(f) && !PostsToIndex(f)
    ensures n == 3 <==> !IsSearchBearing(f) && HasViewState(f)
  {
    RankBy(f, IsSearchBearing, IsFormIndex, PostsToIndex, HasViewState)
  }

  /** `_find_search_form`, over the page's forms in document order: among
      the search-bearing forms, a "FormIndex" one, else one posting to
      index.xhtml, else the first; with no search-bearing form, the first
      with a ViewState input, else the first form. The result is the first
      form of the best rank present, and there is one exactly when there
      are forms. */
  function FindSearchForm(forms: seq<Form>): (r: Option<Form>)
    ensures r.None? <==> forms == []
    ensures r.Some? ==> exists i :: 0 <= i < |forms| && forms[i] == r.value &&
                          (forall j :: 0 <= j < |forms| ==> Rank(forms[i]) <= Rank(forms[j])) &&
                          (forall j :: 0 <= j < i ==> Rank(forms[i]) < Rank(forms[j]))
  {
    if forms == [] then None
    else
      var i := PickBy(forms, IsSearchBearing, IsFormIndex, PostsToIndex, HasViewState);
      PickByIsBest(forms, IsSearchBearing, IsFormIndex, PostsToIndex, HasViewState);
      Some(forms[i])
  }

  // The chain is stated once for any four tests, so that its proof does not
  // depend on what the tests look at.

  /** The rank of `x` under the tests: searching and index-named 0,
      searching and index-posting 1, searching 2, stateful 3, else 4. */
  function RankBy<T>(x: T, search: T -> bool, named: T -> bool, posting: T -> bool,
                     stateful: T -> bool): (n: nat)
    ensures n <= 4
  {
    if search(x) then
      if named(x) then 0 else if posting(x) then 1 else 2
    else if stateful(x) then 3
    else 4
  }

  /** The position the priority chain picks. */
  function PickBy<T>(xs: seq<T>, search: T -> bool, named: T -> bool, posting: T -> bool,
                     stateful: T -> bool): (i: nat)
    requires xs != []
    ensures i < |xs|
  {
    var first := FirstWhere(xs, search);
    if first.Some? then
      var byName := FirstWhere(xs, x => search(x) && named(x));
      var byAction := FirstWhere(xs, x => search(x) && posting(x));
      if byName.Some? then byName.value
      else if byAction.Some? then byAction.value
      else first.value
    else
      var withState := FirstWhere(xs, stateful);
      if withState.Some? then withState.value else 0
  }

  /** The chain's pick has the best rank and comes first among the
      elements of that rank. */
  lemma PickByIsBest<T>(xs: seq<T>, search: T -> bool, named: T -> bool, posting: T -> bool,
                        stateful: T -> bool)
    requires xs != []
    ensures var i := PickBy(xs, search, named, posting, stateful);
            (forall j :: 0 <= j < |xs| ==>
               RankBy(xs[i], search, named, posting, stateful) <= RankBy(xs[j], search, named, posting, stateful)) &&
            (forall j :: 0 <= j < i ==>
               RankBy(xs[i], search, named, posting, stateful) < RankBy(xs[j], search, named, posting, stateful))
  {
  }
}
