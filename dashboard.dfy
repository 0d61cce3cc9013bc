/** The dashboard page's data path: decoding the parsed CSV records into
    rows, the filter the controls drive, and the option lists of the
    category and school selects.

    A parsed record is a `map` from header to cell text; a header the CSV
    lacks is a missing key (`undefined`).  `toLowerCase` is the parameter
    `lower`, and pt-BR `localeCompare` the parameter `collate`. */
module Dashboard {
  import opened Seqs
  import opened Text
  import opened Money
  import opened Status
  import opened Helpers

  type Record = map<string, string>

  /** `r[col]`: the cell, or `None` for `undefined`. */
  function Cell(rec: Record, col: string): (r: Option<string>)
    ensures r.Some? <==> col in rec
  {
    if col in rec then Some(rec[col]) else None
  }

  /** `(r[col] || "").trim()`. */
  function Field(rec: Record, col: string): (r: string)
    ensures Trimmed(r)
    ensures col !in rec ==> r == ""
  {
    Trim(Cell(rec, col).GetOr(""))
  }

  /** One record of `processCSVText` into a `DashboardRow`.  The status is
      normalised from the raw cell, not from the trimmed `statusRaw`. */
  function Decode(rec: Record): Row {
    Row(
      tipo := Field(rec, ColTipo),
      key := Field(rec, ColKey),
      resumo := Field(rec, ColResumo),
      statusRaw := Field(rec, ColStatus),
      statusNorm := NormalizeStatus(Cell(rec, ColStatus)),
      categoria := Field(rec, ColCategoria),
      escola := Field(rec, ColEscola),
      disciplina := Field(rec, ColDisciplina),
      contratual := ToCents(Cell(rec, ColValContratual)),
      medido := ToCents(Cell(rec, ColValMedido)),
      paiKey := Field(rec, ColPaiKey))
  }

  /** `results.data.map(...)`: one row per record, in order. */
  function DecodeAll(recs: seq<Record>): (rows: seq<Row>)
    ensures |rows| == |recs|
    ensures forall i :: 0 <= i < |recs| ==> rows[i] == Decode(recs[i])
  {
    MapSeq(recs, Decode)
  }

  /** Every text field of a decoded row is trimmed. */
  predicate TextTrimmed(r: Row) {
    && Trimmed(r.tipo) && Trimmed(r.key) && Trimmed(r.resumo) && Trimmed(r.statusRaw)
    && Trimmed(r.categoria) && Trimmed(r.escola) && Trimmed(r.disciplina) && Trimmed(r.paiKey)
  }

  /** Decoding trims every text field. */
  lemma DecodeTrimmed(rec: Record)
    ensures TextTrimmed(Decode(rec))
  {
  }

  /** The status is normalised from the raw cell, which gives the same as
      normalising the trimmed `statusRaw`; a missing status column gives "". */
  lemma DecodeStatus(rec: Record)
    ensures Decode(rec).statusNorm == NormalizeStatus(Some(Decode(rec).statusRaw))
    ensures ColStatus !in rec ==> Decode(rec).statusNorm == ""
  {
    var cell := Cell(rec, ColStatus);
    if cell.Some? {
      NormalizeIgnoresTrim(cell.value);
    } else {
      TrimFixpoint("");
    }
  }

  /** A missing column reads as "" for text and as 0 for money. */
  lemma DecodeMissing(rec: Record)
    ensures ColKey !in rec ==> Decode(rec).key == ""
    ensures ColTipo !in rec ==> Decode(rec).tipo == ""
    ensures ColResumo !in rec ==> Decode(rec).resumo == ""
    ensures ColStatus !in rec ==> Decode(rec).statusRaw == ""
    ensures ColDisciplina !in rec ==> Decode(rec).disciplina == ""
    ensures ColCategoria !in rec ==> Decode(rec).categoria == ""
    ensures ColEscola !in rec ==> Decode(rec).escola == ""
    ensures ColPaiKey !in rec ==> Decode(rec).paiKey == ""
    ensures ColValContratual !in rec ==> Decode(rec).contratual == 0
    ensures ColValMedido !in rec ==> Decode(rec).medido == 0
  {
  }

  // ---------------------------------------------------------------------------
  // filteredData

  /** The filter controls; "" means "any". */
  datatype Criteria = Criteria(categoria: string, escola: string, status: string, query: string)

  const NoCriteria := Criteria("", "", "", "")

  /** `${key} ${resumo} ${categoria} ${escola}`: the text the query searches. */
  function Haystack(r: Row): string {
    r.key + " " + r.resumo + " " + r.categoria + " " + r.escola
  }

  /** The exact-match part of the filter: each non-empty criterion equals
      the row's field. */
  predicate ExactMatch(c: Criteria, r: Row) {
    && (c.categoria == "" || r.categoria == c.categoria)
    && (c.escola == "" || r.escola == c.escola)
    && (c.status == "" || r.statusNorm == c.status)
  }

  /** The predicate of `rawData.filter(...)`: a chain of early rejections. */
  predicate Keeps(lower: string -> string, c: Criteria, r: Row) {
    if c.categoria != "" && r.categoria != c.categoria then false
    else if c.escola != "" && r.escola != c.escola then false
    else if c.status != "" && r.statusNorm != c.status then false
    else if c.query != "" && !Contains(lower(Haystack(r)), lower(c.query)) then false
    else true
  }

  function FilterRows(lower: string -> string, c: Criteria, rows: seq<Row>): (r: seq<Row>)
    ensures |r| <= |rows|
  {
    Filter(rows, (x: Row) => Keeps(lower, c, x))
  }

  /** A row is kept exactly when it matches every non-empty exact criterion
      and, for a non-empty query, the lowercased query occurs somewhere in
      the lowercased haystack. */
  lemma KeepsIff(lower: string -> string, c: Criteria, r: Row)
    ensures Keeps(lower, c, r) <==>
      ExactMatch(c, r) &&
      (c.query == "" || exists k :: OccursAt(lower(Haystack(r)), lower(c.query), k))
  {
    ContainsAt(lower(Haystack(r)), lower(c.query));
  }

  /** With every criterion empty, the filter returns the rows unchanged. */
  lemma NoCriteriaKeepsAll(lower: string -> string, rows: seq<Row>)
    ensures FilterRows(lower, NoCriteria, rows) == rows
  {
    FilterKeepsAll(rows, (x: Row) => Keeps(lower, NoCriteria, x));
  }

  /** The result is an order-preserving subsequence of the input, and every
      kept row meets the exact criteria. */
  lemma FilterRowsShape(lower: string -> string, c: Criteria, rows: seq<Row>)
    ensures IsSubsequence(FilterRows(lower, c, rows), rows)
    ensures forall i :: 0 <= i < |FilterRows(lower, c, rows)| ==> ExactMatch(c, FilterRows(lower, c, rows)[i])
  {
    FilterIsSubsequence(rows, (x: Row) => Keeps(lower, c, x));
  }

  /** Applying the same criteria twice is applying them once. */
  lemma FilterRowsIdempotent(lower: string -> string, c: Criteria, rows: seq<Row>)
    ensures FilterRows(lower, c, FilterRows(lower, c, rows)) == FilterRows(lower, c, rows)
  {
    FilterIdempotent(rows, (x: Row) => Keeps(lower, c, x));
  }

  // ---------------------------------------------------------------------------
  // option lists

  function CategoryOf(r: Row): Option<string> {
    Some(r.categoria)
  }

  function SchoolOf(r: Row): Option<string> {
    Some(r.escola)
  }

  /** `uniqSorted(rawData.map(r => r.categoria))`. */
  function Categories(rows: seq<Row>, collate: (string, string) -> bool): (r: seq<string>)
    ensures |r| <= |rows|
  {
    UniqSorted(MapSeq(rows, CategoryOf), collate)
  }

  /** `uniqSorted(rawData.map(r => r.escola))`. */
  function Schools(rows: seq<Row>, collate: (string, string) -> bool): (r: seq<string>)
    ensures |r| <= |rows|
  {
    UniqSorted(MapSeq(rows, SchoolOf), collate)
  }

  /** A category is offered exactly when some row has it (rows are decoded
      trimmed, so no further trimming happens). */
  lemma CategoriesOffered(rows: seq<Row>, collate: (string, string) -> bool, x: string)
    requires forall i :: 0 <= i < |rows| ==> Trimmed(rows[i].categoria)
    ensures x in Categories(rows, collate) <==> x != "" && exists i :: 0 <= i < |rows| && rows[i].categoria == x
  {
    var arr := MapSeq(rows, CategoryOf);
    UniqSortedMembers(arr, collate, x);
    TrimmedOptions(arr, x);
    if Some(x) in arr {
      var i :| 0 <= i < |arr| && arr[i] == Some(x);
      assert rows[i].categoria == x;
    }
    if exists i :: 0 <= i < |rows| && rows[i].categoria == x {
      var i :| 0 <= i < |rows| && rows[i].categoria == x;
      assert arr[i] == Some(x);
    }
  }

  /** The same for schools. */
  lemma SchoolsOffered(rows: seq<Row>, collate: (string, string) -> bool, x: string)
    requires forall i :: 0 <= i < |rows| ==> Trimmed(rows[i].escola)
    ensures x in Schools(rows, collate) <==> x != "" && exists i :: 0 <= i < |rows| && rows[i].escola == x
  {
    var arr := MapSeq(rows, SchoolOf);
    UniqSortedMembers(arr, collate, x);
    TrimmedOptions(arr, x);
    if Some(x) in arr {
      var i :| 0 <= i < |arr| && arr[i] == Some(x);
      assert rows[i].escola == x;
    }
    if exists i :: 0 <= i < |rows| && rows[i].escola == x {
      var i :| 0 <= i < |rows| && rows[i].escola == x;
      assert arr[i] == Some(x);
    }
  }
}
