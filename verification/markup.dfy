/** Abstract records standing for parsed markup. HTML documents and JSF
    partial-response envelopes are never parsed here: a `Libs` value supplies
    the parsers as functions, and the model works on what they return. An
    absent attribute is the empty string, because every use in the scraper
    reads attributes as `attr or ""`. */
module Markup {
  import opened Wrappers

  /** An `input`, `textarea` or `button` element: its tag name, its `name`,
      `id`, `type` and `value` attributes, and its stripped text content. */
  datatype Control = Control(tag: string, name: string, id: string, inputType: string,
                             value: string, text: string)

  /** A `form` element and its controls in document order. */
  datatype Form = Form(id: string, name: string, action: string, controls: seq<Control>)

  /** A `label` element: `str` is its single string child (empty when it
      has none or several) and `text` its whitespace-joined stripped text. */
  datatype Label = Label(str: string, text: string)

  /** A `table` element with the labels inside it, in document order, and
      the text of the first label that follows the table in the document. */
  datatype Table = Table(id: string, labels: seq<Label>, nextLabel: string)

  /** What the HTML parser yields for one document: its forms, every `input`
      element, its tables, and its non-empty stripped text nodes. */
  datatype Html = Html(forms: seq<Form>, inputs: seq<Control>, tables: seq<Table>,
                       strings: seq<string>)

  /** One element of a parsed XML tree: tag (possibly namespace-qualified),
      `id` attribute, and all its text content concatenated. */
  datatype Element = Element(tag: string, id: string, text: string)

  /** The XML parser's outcome: a parse error, or every element of the tree
      in document order, root first. */
  datatype Envelope = Unparsable | Parsed(elements: seq<Element>)

  /** The foreign libraries: HTML parsing, XML parsing, HTML entity
      decoding and cookie-string parsing into (name, value) pairs. */
  datatype Libs = Libs(parseHtml: string -> Html, parseXml: string -> Envelope,
                       unescape: string -> string,
                       parseCookies: string -> seq<(string, string)>)

  /** The JSF state-token field name. */
  const ViewStateName: string := "javax.faces.ViewState"

  /** `soup.find("input", {"name": name})`: the first input whose name is
      exactly `name`. */
  function FindInput(inputs: seq<Control>, name: string): (r: Option<Control>)
    ensures r.Some? ==> r.value in inputs && r.value.name == name
    ensures r.None? <==> forall j :: 0 <= j < |inputs| ==> inputs[j].name != name
    ensures r.Some? ==> exists i :: 0 <= i < |inputs| && inputs[i] == r.value &&
                                   (forall j :: 0 <= j < i ==> inputs[j].name != name)
  {
    if inputs == [] then None
    else if inputs[0].name == name then Some(inputs[0])
    else
      var r := FindInput(inputs[1..], name);
      assert forall i :: 0 <= i < |inputs[1..]| ==> inputs[1..][i] == inputs[i + 1];
      r
  }
}
