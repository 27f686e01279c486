/** Reading the claim status and the insured party out of a search
    response. The live query reads only the `datosSolicitud` table, where
    each "Label:" label is followed by the label holding its value. */
module Extraction {
  import opened Wrappers
  import opened Text
  import opened Lists
  import opened Markup
  import opened Patterns
  import opened Status
  import opened Jsf

  /** A table whose stripped id ends, case-insensitively, in
      "datosSolicitud" (JSF prefixes ids with the form's id). */
  predicate IsDatosTable(t: Table) {
    EndsWith(Lower(Strip(t.id)), "datossolicitud")
  }

  /** The text of the label after the `i`-th label of the table: the next
      label inside it, else the first label after it in the document. */
  function NextLabelText(t: Table, i: nat): string
    requires i < |t.labels|
  {
    if i + 1 < |t.labels| then t.labels[i + 1].text else t.nextLabel
  }

  /** `_extract_label_value_from_datos_solicitud`: the text of the label
      after the first label whose string matches, or nothing when no label
      matches or the following label is blank. */
  function LabelValue(t: Table, pattern: string -> bool): (r: Option<string>)
    ensures r.Some? ==> r.value != []
    ensures r.Some? <==> exists i :: 0 <= i < |t.labels| && pattern(t.labels[i].str) &&
                                   (forall j :: 0 <= j < i ==> !pattern(t.labels[j].str)) &&
                                   NextLabelText(t, i) != []
    ensures r.Some? ==> exists i :: 0 <= i < |t.labels| && pattern(t.labels[i].str) &&
                                   (forall j :: 0 <= j < i ==> !pattern(t.labels[j].str)) &&
                                   r.value == NextLabelText(t, i)
  {
    FirstWhereIsFirst(t.labels, (l: Label) => pattern(l.str));
    match FirstWhere(t.labels, (l: Label) => pattern(l.str))
    case None => None
    case Some(i) =>
      var v := NextLabelText(t, i);
      if v == [] then None else Some(v)
  }

  /** `_extract_info_from_html`: the raw status and the insured party read
      from the first `datosSolicitud` table of the unwrapped response, and
      nothing at all when there is no such table. */
  function ExtractInfo(text: string, libs: Libs): (r: (Option<string>, Option<string>))
    ensures r.0.Some? ==> r.0.value != []
    ensures r.1.Some? ==> r.1.value != []
    ensures var tables := libs.parseHtml(Unwrap(text, libs)).tables;
            (forall j :: 0 <= j < |tables| ==> !IsDatosTable(tables[j])) ==> r == (None, None)
    ensures var tables := libs.parseHtml(Unwrap(text, libs)).tables;
            forall i :: (0 <= i < |tables| && IsDatosTable(tables[i]) &&
                         (forall j :: 0 <= j < i ==> !IsDatosTable(tables[j]))) ==>
                        r == (LabelValue(tables[i], MatchesEstadoSiniestro),
                              LabelValue(tables[i], MatchesInquilinoAsegurado))
  {
    var tables := libs.parseHtml(Unwrap(text, libs)).tables;
    FirstWhereIsFirst(tables, IsDatosTable);
    match FirstWhere(tables, IsDatosTable)
    case None => (None, None)
    case Some(i) =>
      (LabelValue(tables[i], MatchesEstadoSiniestro), LabelValue(tables[i], MatchesInquilinoAsegurado))
  }

  // ------------------------------------------------ the label-index rule

  /** Label `i` names the status ("estado siniestro" in its text) and the
      label after it, inside the table, is not blank. */
  predicate LabelHit(labels: seq<Label>, i: int) {
    && 0 <= i && i + 1 < |labels|
    && labels[i].text != []
    && Contains(Lower(labels[i].text), "estado siniestro")
    && labels[i + 1].text != []
  }

  /** The label-index loop of `_extract_estado_from_html`: the label after
      the first hit, if there is one. */
  method ScanLabels(labels: seq<Label>) returns (r: Option<string>)
    ensures r.None? <==> forall i :: 0 <= i < |labels| ==> !LabelHit(labels, i)
    ensures r.Some? ==> exists i :: 0 <= i < |labels| && LabelHit(labels, i) &&
                                   (forall j :: 0 <= j < i ==> !LabelHit(labels, j)) &&
                                   r.value == labels[i + 1].text
  {
    var i := 0;
    while i < |labels|
      invariant 0 <= i <= |labels|
      invariant forall j :: 0 <= j < i ==> !LabelHit(labels, j)
    {
      var key := labels[i].text;
      if key != [] && Contains(Lower(key), "estado siniestro") && i + 1 < |labels| {
        var val := labels[i + 1].text;
        if val != [] {
          assert LabelHit(labels, i);
          return Some(val);
        }
      }
      i := i + 1;
    }
    return None;
  }

  /** The same rule as a function: the reference the loop is checked
      against. */
  function FirstLabelHit(labels: seq<Label>, from: nat): (r: Option<string>)
    requires from <= |labels|
    decreases |labels| - from
  {
    if from == |labels| then None
    else if LabelHit(labels, from) then Some(labels[from + 1].text)
    else FirstLabelHit(labels, from + 1)
  }

  /** The loop computes the reference rule. */
  lemma {:induction false} ScanMatchesReference(labels: seq<Label>, from: nat, i: nat)
    requires from <= i < |labels| && LabelHit(labels, i)
    requires forall j :: from <= j < i ==> !LabelHit(labels, j)
    ensures FirstLabelHit(labels, from) == Some(labels[i + 1].text)
    decreases i - from
  {
    if from < i {
      ScanMatchesReference(labels, from + 1, i);
    }
  }

  lemma {:induction false} NoHitReference(labels: seq<Label>, from: nat)
    requires from <= |labels|
    requires forall j :: from <= j < |labels| ==> !LabelHit(labels, j)
    ensures FirstLabelHit(labels, from) == None
    decreases |labels| - from
  {
    if from < |labels| {
      NoHitReference(labels, from + 1);
    }
  }

  // ------------------------------------------------------ page excerpt

  const ExcerptLimit: nat := 180

  /** The last resort: the page's text with whitespace runs collapsed,
      stripped and cut to 180 characters, or "NO ENCONTRADO" for a blank
      page. */
  function Excerpt(fullText: string): (r: string)
    ensures r != [] && |r| <= ExcerptLimit
    ensures AllSpace(fullText) ==> r == NotFound
    ensures !AllSpace(fullText) ==>
              SingleSpaced(r) && !IsSpace(r[0]) && StartsWith(Strip(Collapse(fullText)), r)
    ensures !AllSpace(fullText) && |Strip(Collapse(fullText))| <= ExcerptLimit ==>
              r == Strip(Collapse(fullText))
    ensures !AllSpace(fullText) && |Strip(Collapse(fullText))| > ExcerptLimit ==> |r| == ExcerptLimit
  {
    var compact := Strip(Collapse(fullText));
    CollapseAllSpace(fullText);
    if compact == [] then NotFound
    else
      var n := if |compact| < ExcerptLimit then |compact| else ExcerptLimit;
      SingleSpacedStrip(Collapse(fullText));
      SingleSpacedInfix(compact, 0, n);
      compact[..n]
  }

  // ------------------------------------------------- status extraction

  /** The phrases that mark an empty search result. */
  const NoResultMarkers: seq<string> :=
    ["no se encontraron", "sin resultados", "no existen registros", "no existe", "no encontrado"]

  predicate HasNoResultMarker(lower: string) {
    exists k :: 0 <= k < |NoResultMarkers| && Contains(lower, NoResultMarkers[k])
  }

  /** The raw status one `datosSolicitud` table yields: the label after
      the first label whose string matches `estado\s*siniestro`, else the
      label-index rule. */
  function TableStatus(t: Table): Option<string> {
    var byPattern := LabelValue(t, MatchesEstadoSiniestro);
    if byPattern.Some? then byPattern else FirstLabelHit(t.labels, 0)
  }

  function Same(t: Table): Table { t }

  /** The `datosSolicitud` tables of a page, in document order. */
  function DatosOf(tables: seq<Table>): seq<Table> {
    FilterMap(tables, IsDatosTable, Same)
  }

  /** The first raw status among the tables, in order. */
  function FirstTableStatus(tables: seq<Table>): Option<string> {
    if tables == [] then None
    else
      var s := TableStatus(tables[0]);
      if s.Some? then s else FirstTableStatus(tables[1..])
  }

  /** The reference definition of `_extract_estado_from_html` on a parsed
      page: the `datosSolicitud` tables first, then the no-result markers,
      then what the heuristic tiers found (`middle`), then the excerpt. */
  function EstadoOf(doc: Html, middle: Option<string>): (r: string)
    ensures r != []
  {
    var datos := DatosOf(doc.tables);
    var fullText := Join(doc.strings, " ");
    var status := FirstTableStatus(datos);
    if status.Some? then NormalizeEstado(status.value)
    else if HasNoResultMarker(Lower(fullText)) then NotFound
    else if middle.Some? then NormalizeEstado(middle.value)
    else Excerpt(fullText)
  }

  /** `_extract_estado_from_html`, with the heuristic middle tiers given as
      their outcome `middle`. */
  method ExtractEstado(text: string, libs: Libs, middle: Option<string>) returns (r: string)
    ensures r == EstadoOf(libs.parseHtml(Unwrap(text, libs)), middle)
    ensures r != []
  {
    var doc := libs.parseHtml(Unwrap(text, libs));
    var fullText := Join(doc.strings, " ");
    var datos := DatosOf(doc.tables);
    var k := 0;
    while k < |datos|
      invariant 0 <= k <= |datos|
      invariant FirstTableStatus(datos) == FirstTableStatus(datos[k..])
    {
      var t := datos[k];
      assert datos[k..][1..] == datos[k + 1..];
      var byPattern := LabelValue(t, MatchesEstadoSiniestro);
      if byPattern.Some? {
        return NormalizeEstado(byPattern.value);
      }
      var byIndex := ScanLabels(t.labels);
      if byIndex.Some? {
        var i :| 0 <= i < |t.labels| && LabelHit(t.labels, i) &&
                 (forall j :: 0 <= j < i ==> !LabelHit(t.labels, j)) && byIndex.value == t.labels[i + 1].text;
        ScanMatchesReference(t.labels, 0, i);
        return NormalizeEstado(byIndex.value);
      }
      NoHitReference(t.labels, 0);
      k := k + 1;
    }
    assert datos[k..] == [];
    if HasNoResultMarker(Lower(fullText)) {
      return NotFound;
    }
    if middle.Some? {
      return NormalizeEstado(middle.value);
    }
    return Excerpt(fullText);
  }

  /** The first `datosSolicitud` table that yields a status decides the
      result, whatever the page's other text and the heuristic tiers say. */
  lemma FirstDatosDecides(doc: Html, i: int, v: string, middle: Option<string>)
    requires 0 <= i < |doc.tables| && IsDatosTable(doc.tables[i]) && TableStatus(doc.tables[i]) == Some(v)
    requires forall j :: 0 <= j < i && IsDatosTable(doc.tables[j]) ==> TableStatus(doc.tables[j]).None?
    ensures EstadoOf(doc, middle) == NormalizeEstado(v)
  {
    FirstDatosStatus(doc.tables, i, v);
  }

  lemma {:induction false} FirstDatosStatus(tables: seq<Table>, i: int, v: string)
    requires 0 <= i < |tables| && IsDatosTable(tables[i]) && TableStatus(tables[i]) == Some(v)
    requires forall j :: 0 <= j < i && IsDatosTable(tables[j]) ==> TableStatus(tables[j]).None?
    ensures FirstTableStatus(DatosOf(tables)) == Some(v)
    decreases i
  {
    if i > 0 {
      FirstDatosStatus(tables[1..], i - 1, v);
      if IsDatosTable(tables[0]) {
        assert DatosOf(tables) == [tables[0]] + DatosOf(tables[1..]);
        assert DatosOf(tables)[1..] == DatosOf(tables[1..]);
      }
    }
  }

  /** When no `datosSolicitud` table yields a status, a no-result marker
      anywhere in the page's text makes it "NO ENCONTRADO" before the
      heuristic tiers are consulted; without a marker, their hit is
      normalised and, failing that, the page's excerpt is the result. */
  lemma NoDatosStatus(doc: Html, middle: Option<string>)
    requires forall j :: 0 <= j < |doc.tables| && IsDatosTable(doc.tables[j]) ==> TableStatus(doc.tables[j]).None?
    ensures HasNoResultMarker(Lower(Join(doc.strings, " "))) ==> EstadoOf(doc, middle) == NotFound
    ensures !HasNoResultMarker(Lower(Join(doc.strings, " "))) && middle.Some? ==>
              EstadoOf(doc, middle) == NormalizeEstado(middle.value)
    ensures !HasNoResultMarker(Lower(Join(doc.strings, " "))) && middle.None? ==>
              EstadoOf(doc, middle) == Excerpt(Join(doc.strings, " "))
  {
    NoDatosStatusNone(doc.tables);
  }

  lemma {:induction false} NoDatosStatusNone(tables: seq<Table>)
    requires forall j :: 0 <= j < |tables| && IsDatosTable(tables[j]) ==> TableStatus(tables[j]).None?
    ensures FirstTableStatus(DatosOf(tables)).None?
    decreases |tables|
  {
    if tables != [] {
      NoDatosStatusNone(tables[1..]);
      if IsDatosTable(tables[0]) {
        assert DatosOf(tables) == [tables[0]] + DatosOf(tables[1..]);
        assert DatosOf(tables)[1..] == DatosOf(tables[1..]);
      }
    }
  }

  /** A page with no text, no status table and no heuristic hit reads as
      "NO ENCONTRADO". */
  lemma BlankPageNotFound(doc: Html)
    requires forall j :: 0 <= j < |doc.tables| ==> !IsDatosTable(doc.tables[j])
    requires AllSpace(Join(doc.strings, " "))
    ensures EstadoOf(doc, None) == NotFound
  {
    assert DatosOf(doc.tables) == [];
  }
}
