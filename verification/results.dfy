/** The outcome record of one query, its JSON row in the query endpoint's
    response, and the export endpoint's reading of such rows back. */
module Results {
  import opened Wrappers
  import opened Text
  import opened Lists
  import opened Json

  /** `BolivarResult`: one filing number's outcome. */
  datatype BolivarResult = BolivarResult(radicado: string, ok: bool, estadoRaw: Option<string>,
                                         estadoNormalizado: Option<string>, asegurado: Option<string>,
                                         consultedAt: string, error: Option<string>)

  // ------------------------------------------------------- result rows

  const ResultKeys: set<string> :=
    {"radicado", "ok", "estado_raw", "estado_normalizado", "asegurado", "consulted_at", "error"}

  /** `_to_result_dict`: every field under its snake-case name, `None` as
      null. */
  function ToResultDict(b: BolivarResult): (m: map<string, Value>)
    ensures m.Keys == ResultKeys
  {
    map["radicado" := Str(b.radicado), "ok" := Bool(b.ok), "estado_raw" := FromOption(b.estadoRaw),
        "estado_normalizado" := FromOption(b.estadoNormalizado), "asegurado" := FromOption(b.asegurado),
        "consulted_at" := Str(b.consultedAt), "error" := FromOption(b.error)]
  }

  /** A string or null, as the optional fields hold. */
  predicate OptionalText(v: Value) {
    v.Str? || v.Null?
  }

  /** Reading a row back: the record it encodes, if it has the seven
      fields with the right kinds of value. */
  function FromResultDict(m: map<string, Value>): (r: Option<BolivarResult>)
    ensures r.Some? ==> ResultKeys <= m.Keys
  {
    if ResultKeys <= m.Keys && m["radicado"].Str? && m["ok"].Bool? && m["consulted_at"].Str? &&
       OptionalText(m["estado_raw"]) && OptionalText(m["estado_normalizado"]) &&
       OptionalText(m["asegurado"]) && OptionalText(m["error"])
    then Some(BolivarResult(m["radicado"].s, m["ok"].b, ToOption(m["estado_raw"]),
                            ToOption(m["estado_normalizado"]), ToOption(m["asegurado"]),
                            m["consulted_at"].s, ToOption(m["error"])))
    else None
  }

  /** A row holds everything its record held. */
  lemma ResultDictRoundTrip(b: BolivarResult)
    ensures FromResultDict(ToResultDict(b)) == Some(b)
  {
    var m := ToResultDict(b);
    OptionRoundTrip(b.estadoRaw);
    OptionRoundTrip(b.estadoNormalizado);
    OptionRoundTrip(b.asegurado);
    OptionRoundTrip(b.error);
    assert ResultKeys <= m.Keys;
  }


  // -------------------------------------------------------------- export

  /** An export row: the five fields the export keeps, under the keys
      "radicado", "estado_raw", "estado_normalizado", "asegurado" and
      "consulted_at". */
  datatype ExportRow = ExportRow(radicado: string, estadoRaw: string, estadoNormalizado: string,
                                 asegurado: string, consultedAt: string)

  /** `(item.get(key) or "").strip()`; nothing when the value is a truthy
      non-string, where the source fails. */
  function ExportField(item: map<string, Value>, key: string): (r: Option<string>)
    ensures r.Some? ==> Stripped(r.value)
    ensures r.None? <==> Truthy(Get(item, key)) && !Get(item, key).Str?
  {
    var v := Get(item, key);
    if !Truthy(v) then Some([]) else if v.Str? then Some(Strip(v.s)) else None
  }

  /** The export row of one object, if none of its five fields fails. */
  function RowOf(item: map<string, Value>): (r: Option<ExportRow>)
    ensures r.Some? ==> Some(r.value.radicado) == ExportField(item, "radicado")
    ensures r.Some? ==> Some(r.value.estadoRaw) == ExportField(item, "estado_raw")
    ensures r.Some? ==> Some(r.value.estadoNormalizado) == ExportField(item, "estado_normalizado")
    ensures r.Some? ==> Some(r.value.asegurado) == ExportField(item, "asegurado")
    ensures r.Some? ==> Some(r.value.consultedAt) == ExportField(item, "consulted_at")
    ensures r.None? <==> ExportField(item, "radicado").None? || ExportField(item, "estado_raw").None? ||
                         ExportField(item, "estado_normalizado").None? || ExportField(item, "asegurado").None? ||
                         ExportField(item, "consulted_at").None?
  {
    var radicado := ExportField(item, "radicado");
    var raw := ExportField(item, "estado_raw");
    var normalized := ExportField(item, "estado_normalizado");
    var insured := ExportField(item, "asegurado");
    var at := ExportField(item, "consulted_at");
    if radicado.Some? && raw.Some? && normalized.Some? && insured.Some? && at.Some? then
      Some(ExportRow(radicado.value, raw.value, normalized.value, insured.value, at.value))
    else
      None
  }

  predicate IsObject(v: Value) { v.Object? }

  function FieldsOf(v: Value): map<string, Value> {
    if v.Object? then v.fields else map[]
  }

  /** `rows` are the export rows of `objects`, one for one, in order. */
  predicate RowsFor(objects: seq<map<string, Value>>, rows: seq<ExportRow>) {
    |rows| == |objects| && forall j :: 0 <= j < |rows| ==> RowOf(objects[j]) == Some(rows[j])
  }

  /** The objects of a list, in order, as their fields. */
  function Objects(items: seq<Value>): seq<map<string, Value>> {
    FilterMap(items, IsObject, FieldsOf)
  }

  /** The rows of the objects of a list, in order, non-objects skipped;
      nothing if any object fails. */
  function RowsOf(items: seq<Value>): (r: Option<seq<ExportRow>>)
    ensures r.Some? ==> |r.value| <= |items|
    ensures r.Some? ==> RowsFor(Objects(items), r.value)
    ensures r.None? <==> exists k :: 0 <= k < |items| && items[k].Object? && RowOf(items[k].fields).None?
    decreases |items|
  {
    if items == [] then Some([])
    else
      var rest := RowsOf(items[1..]);
      assert forall k :: 0 < k < |items| ==> items[k] == items[1..][k - 1];
      if !items[0].Object? then rest
      else
        var row := RowOf(items[0].fields);
        if row.None? || rest.None? then None
        else
          assert Objects(items) == [items[0].fields] + Objects(items[1..]);
          RowsForCons(items[0].fields, Objects(items[1..]), row.value, rest.value);
          Some([row.value] + rest.value)
  }

  lemma RowsForCons(obj: map<string, Value>, objects: seq<map<string, Value>>, row: ExportRow,
                    rows: seq<ExportRow>)
    requires RowOf(obj) == Some(row) && RowsFor(objects, rows)
    ensures RowsFor([obj] + objects, [row] + rows)
  {
    var os, rs := [obj] + objects, [row] + rows;
    forall j | 0 <= j < |rs|
      ensures RowOf(os[j]) == Some(rs[j])
    {
      if j > 0 {
        assert os[j] == objects[j - 1] && rs[j] == rows[j - 1];
      }
    }
  }

  function SameRow(row: ExportRow): ExportRow { row }

  /** A row with a non-empty filing number. */
  predicate HasRadicado(row: ExportRow) {
    row.radicado != []
  }

  /** `_sanitize_export_rows`: for a list, the rows of its objects that
      have a filing number; for anything else, no rows; nothing when an
      object has a truthy non-string field. */
  function SanitizeExportRows(results: Value): (r: Option<seq<ExportRow>>)
    ensures !results.List? ==> r == Some([])
    ensures results.List? ==> (r.None? <==> RowsOf(results.items).None?)
    ensures results.List? && r.Some? ==>
              forall row :: row in r.value <==> row in RowsOf(results.items).value && HasRadicado(row)
    ensures results.List? && r.Some? ==> InOrder(RowsOf(results.items).value, HasRadicado, SameRow, r.value)
  {
    if !results.List? then Some([])
    else
      var rows := RowsOf(results.items);
      if rows.None? then None
      else
        FilterMapMembers(rows.value, HasRadicado, SameRow);
        FilterMapInOrder(rows.value, HasRadicado, SameRow);
        Some(FilterMap(rows.value, HasRadicado, SameRow))
  }

  /** The export row of a query result: its five text fields trimmed,
      absent ones as "". */
  function ExportOf(b: BolivarResult): ExportRow {
    ExportRow(Strip(b.radicado), Strip(b.estadoRaw.GetOr([])), Strip(b.estadoNormalizado.GetOr([])),
              Strip(b.asegurado.GetOr([])), Strip(b.consultedAt))
  }

  /** A text field or null reads back trimmed, null as "". */
  lemma ExportFieldOf(m: map<string, Value>, key: string, o: Option<string>)
    requires key in m && m[key] == FromOption(o)
    ensures ExportField(m, key) == Some(Strip(o.GetOr([])))
  {
    if o.None? {
      assert Strip([]) == [];
    }
  }

  /** The row of a result reads back as the result's trimmed fields. */
  lemma ExportOfOne(b: BolivarResult)
    ensures RowOf(ToResultDict(b)) == Some(ExportOf(b))
  {
    var m := ToResultDict(b);
    ExportFieldOf(m, "radicado", Some(b.radicado));
    ExportFieldOf(m, "estado_raw", b.estadoRaw);
    ExportFieldOf(m, "estado_normalizado", b.estadoNormalizado);
    ExportFieldOf(m, "asegurado", b.asegurado);
    ExportFieldOf(m, "consulted_at", Some(b.consultedAt));
  }

  /** The query endpoint's rows always pass the export sanitiser, one
      export row per result, each holding the result's trimmed fields. */
  lemma {:induction false} ExportOfResults(items: seq<Value>, results: seq<BolivarResult>)
    requires |items| == |results|
    requires forall k :: 0 <= k < |items| ==> items[k] == Object(ToResultDict(results[k]))
    ensures RowsOf(items) == Some(Map(results, ExportOf))
    decreases |items|
  {
    if items != [] {
      var tail := results[1..];
      assert forall k :: 0 <= k < |tail| ==> items[1..][k] == Object(ToResultDict(tail[k]));
      ExportOfResults(items[1..], tail);
      ExportOfOne(results[0]);
    }
  }

  /** Exporting the rows of results whose filing numbers are not blank
      gives one row per result, in order, with its trimmed fields. */
  lemma SanitizeResults(items: seq<Value>, results: seq<BolivarResult>)
    requires |items| == |results|
    requires forall k :: 0 <= k < |items| ==> items[k] == Object(ToResultDict(results[k]))
    requires forall k :: 0 <= k < |results| ==> !AllSpace(results[k].radicado)
    ensures SanitizeExportRows(List(items)) == Some(Map(results, ExportOf))
  {
    ExportOfResults(items, results);
    var rows := Map(results, ExportOf);
    FilterMapKeepsAll(rows, HasRadicado, SameRow);
  }
}
