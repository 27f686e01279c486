/** The JSF plumbing of the session: tracking the `javax.faces.ViewState`
    token across responses, and turning a JSF partial-response envelope
    back into the HTML it carries. */
module Jsf {
  import opened Wrappers
  import opened Text
  import opened Lists
  import opened Markup

  /** The marker, in lower case, that identifies a partial-response
      envelope. */
  const EnvelopeMarker: string := "<partial-response"

  predicate LooksLikeEnvelope(text: string) {
    Contains(Lower(text), EnvelopeMarker)
  }

  /** An `update` element, whatever its namespace prefix. */
  predicate IsUpdate(e: Element) {
    EndsWith(Lower(e.tag), "update")
  }

  /** An update element that carries a ViewState token. */
  predicate IsTokenUpdate(e: Element) {
    IsUpdate(e) && Contains(Lower(e.id), "javax.faces.viewstate") && Strip(e.text) != []
  }

  // ------------------------------------------------------------ ViewState

  /** The token of the first ViewState update in an envelope, if any. */
  function EnvelopeToken(elements: seq<Element>): (r: string)
    ensures r == [] <==> forall j :: 0 <= j < |elements| ==> !IsTokenUpdate(elements[j])
    ensures r != [] ==> exists j :: 0 <= j < |elements| && IsTokenUpdate(elements[j]) &&
                                   Strip(elements[j].text) == r &&
                                   forall i :: 0 <= i < j ==> !IsTokenUpdate(elements[i])
  {
    match FirstWhere(elements, IsTokenUpdate)
    case None => []
    case Some(j) => Strip(elements[j].text)
  }

  /** The token the XML branch finds: none unless the text looks like an
      envelope and parses. */
  function XmlToken(text: string, libs: Libs): (r: string)
    ensures !LooksLikeEnvelope(text) || libs.parseXml(text).Unparsable? ==> r == []
    ensures LooksLikeEnvelope(text) && libs.parseXml(text).Parsed? ==>
              (r == [] <==> forall j :: 0 <= j < |libs.parseXml(text).elements| ==>
                                        !IsTokenUpdate(libs.parseXml(text).elements[j]))
    ensures r != [] ==> exists j :: 0 <= j < |libs.parseXml(text).elements| &&
                                   IsTokenUpdate(libs.parseXml(text).elements[j]) &&
                                   Strip(libs.parseXml(text).elements[j].text) == r
  {
    if LooksLikeEnvelope(text) then
      match libs.parseXml(text)
      case Unparsable => []
      case Parsed(elements) => EnvelopeToken(elements)
    else []
  }

  /** The value of the first `javax.faces.ViewState` input, or "". */
  function HtmlToken(text: string, libs: Libs): (r: string)
    ensures r != [] ==> exists c :: c in libs.parseHtml(text).inputs && c.name == ViewStateName && c.value == r
    ensures var inputs := libs.parseHtml(text).inputs;
            forall i :: (0 <= i < |inputs| && inputs[i].name == ViewStateName &&
                         (forall j :: 0 <= j < i ==> inputs[j].name != ViewStateName)) ==> r == inputs[i].value
    ensures (forall j :: 0 <= j < |libs.parseHtml(text).inputs| ==> libs.parseHtml(text).inputs[j].name != ViewStateName)
            ==> r == []
  {
    match FindInput(libs.parseHtml(text).inputs, ViewStateName)
    case None => []
    case Some(c) => c.value
  }

  /** `_refresh_view_state_from_html`: the tracked token after reading a
      response. The envelope's token is preferred; failing that, the
      HTML input's; failing both, the token is kept. It changes only to a
      new non-empty value. */
  function RefreshViewState(current: string, text: string, libs: Libs): (r: string)
    ensures r == current || r != []
    ensures XmlToken(text, libs) != [] ==> r == XmlToken(text, libs)
    ensures XmlToken(text, libs) == [] && HtmlToken(text, libs) != [] ==> r == HtmlToken(text, libs)
    ensures XmlToken(text, libs) == [] && HtmlToken(text, libs) == [] ==> r == current
  {
    var x := XmlToken(text, libs);
    if x != [] then x
    else
      var h := HtmlToken(text, libs);
      if h != [] then h else current
  }

  /** Reading the same response twice tracks the same token as reading it
      once. */
  lemma RefreshIdempotent(current: string, text: string, libs: Libs)
    ensures RefreshViewState(RefreshViewState(current, text, libs), text, libs)
            == RefreshViewState(current, text, libs)
  {
  }

  /** Where the refreshed token comes from: if it changed, it is the
      stripped text of a ViewState update of the parsed envelope, or the
      value of a ViewState input of the HTML. */
  lemma RefreshSource(current: string, text: string, libs: Libs)
    requires RefreshViewState(current, text, libs) != current
    ensures var r := RefreshViewState(current, text, libs);
            (LooksLikeEnvelope(text) && libs.parseXml(text).Parsed? &&
             exists e :: e in libs.parseXml(text).elements && IsTokenUpdate(e) && Strip(e.text) == r)
            || (exists c :: c in libs.parseHtml(text).inputs && c.name == ViewStateName && c.value == r)
  {
    var r := RefreshViewState(current, text, libs);
    if XmlToken(text, libs) != [] {
      var elements := libs.parseXml(text).elements;
      var j :| 0 <= j < |elements| && IsTokenUpdate(elements[j]) && Strip(elements[j].text) == r;
      assert elements[j] in elements;
    } else {
      var c := FindInput(libs.parseHtml(text).inputs, ViewStateName).value;
      assert c.value == r;
    }
  }

  /** A response that carries no token, including an envelope that does
      not parse and has no fallback input, keeps the tracked token. */
  lemma RefreshWithoutToken(current: string, text: string, libs: Libs)
    requires LooksLikeEnvelope(text) ==>
               (libs.parseXml(text).Unparsable? ||
                forall e :: e in libs.parseXml(text).elements ==> !IsTokenUpdate(e))
    requires forall c :: c in libs.parseHtml(text).inputs && c.name == ViewStateName ==> c.value == []
    ensures RefreshViewState(current, text, libs) == current
  {
    if LooksLikeEnvelope(text) && libs.parseXml(text).Parsed? {
      var es := libs.parseXml(text).elements;
      forall j | 0 <= j < |es|
        ensures !IsTokenUpdate(es[j])
      {
        assert es[j] in es;
      }
      assert EnvelopeToken(es) == [];
    }
    assert XmlToken(text, libs) == [];
    var inputs := libs.parseHtml(text).inputs;
    assert HtmlToken(text, libs) == [] by {
      match FindInput(inputs, ViewStateName)
      case None =>
      case Some(c) =>
        assert c in inputs;
    }
  }

  // ------------------------------------------------------------ unwrapping

  /** An update element with non-blank text: what the unwrapper keeps. */
  predicate IsChunk(e: Element) {
    IsUpdate(e) && Strip(e.text) != []
  }

  /** The text an update element contributes: unescaped and stripped. */
  function ChunkText(unescape: string -> string): Element -> string {
    (e: Element) => unescape(Strip(e.text))
  }

  /** The unescaped stripped texts of the update elements with non-blank
      text, in document order. */
  function Chunks(elements: seq<Element>, unescape: string -> string): (r: seq<string>)
    ensures |r| <= |elements|
    ensures r == [] <==> forall j :: 0 <= j < |elements| ==> !IsChunk(elements[j])
    ensures forall x :: x in r <==> exists e :: e in elements && IsChunk(e) && unescape(Strip(e.text)) == x
    ensures InOrder(elements, IsChunk, ChunkText(unescape), r)
  {
    var f := ChunkText(unescape);
    var r := FilterMap(elements, IsChunk, f);
    FilterMapInOrder(elements, IsChunk, f);
    FilterMapMembers(elements, IsChunk, f);
    assert forall x :: x in r <==> exists e :: e in elements && IsChunk(e) && f(e) == x;
    r
  }

  /** `_unwrap_jsf_partial_response`. */
  function Unwrap(text: string, libs: Libs): (r: string)
    ensures !LooksLikeEnvelope(text) ==> r == text
    ensures libs.parseXml(text).Unparsable? ==> r == text
    ensures LooksLikeEnvelope(text) && libs.parseXml(text).Parsed? ==>
              var chunks := Chunks(libs.parseXml(text).elements, libs.unescape);
              r == if chunks == [] then text else Join(chunks, "\n")
  {
    if !LooksLikeEnvelope(text) then text
    else
      match libs.parseXml(text)
      case Unparsable => text
      case Parsed(elements) =>
        var chunks := Chunks(elements, libs.unescape);
        if chunks == [] then text else Join(chunks, "\n")
  }

  /** When the unwrapped chunks themselves contain no line break, splitting
      the unwrapped text at line breaks recovers them one by one. */
  lemma UnwrapSplits(text: string, libs: Libs)
    requires LooksLikeEnvelope(text) && libs.parseXml(text).Parsed?
    requires var chunks := Chunks(libs.parseXml(text).elements, libs.unescape);
             chunks != [] && forall k :: 0 <= k < |chunks| ==> NoneOf(chunks[k], {'\n'})
    ensures Split(Unwrap(text, libs), {'\n'}) == Chunks(libs.parseXml(text).elements, libs.unescape)
  {
    SplitJoin(Chunks(libs.parseXml(text).elements, libs.unescape), '\n');
  }
}
