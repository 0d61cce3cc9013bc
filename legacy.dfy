/** The legacy single-page dashboard (`legacy/app.js`).

    Its `toCents`, `normalizeStatus`, `uniqSorted`, the KPI sums, the
    deliverables report and the category and school rollups are the same
    code as the component version, and are modelled once, in `Money`,
    `Status`, `Helpers`, `Kpi`, `Deliverables` and `Charts`.  What differs
    is here: `escapeHtml`; the decoding in `parseCsvText`, which has no
    `disciplina` and normalises the already trimmed status; the query,
    trimmed and lowercased once when the filters are read; the status
    counts, built through a `Map`; and the page state, the global
    `rawRows` with the category and school selects, whose selection is kept
    only while it is still offered.  DOM reads become parameters. */
module Legacy {
  import opened Seqs
  import opened Text
  import opened Money
  import opened Status
  import opened Helpers
  import opened Dashboard
  import opened Charts

  // ---------------------------------------------------------------------------
  // escapeHtml

  predicate Special(c: char) {
    c == '&' || c == '<' || c == '>' || c == '"' || c == '\''
  }

  /** The replacement of one character. */
  function EscapeChar(c: char): (r: string)
    ensures !Special(c) ==> r == [c]
    ensures Special(c) ==> |r| >= 4 && r[0] == '&' && r[|r| - 1] == ';'
  {
    if c == '&' then "&amp;"
    else if c == '<' then "&lt;"
    else if c == '>' then "&gt;"
    else if c == '"' then "&quot;"
    else if c == '\'' then "&#39;"
    else [c]
  }

  /** `.replace(/[&<>"']/g, ...)`, one character at a time. */
  function Escape(s: string): string {
    if s == [] then [] else EscapeChar(s[0]) + Escape(s[1..])
  }

  /** `escapeHtml(s)`: `String(s ?? "")` escaped. */
  function EscapeHtml(s: Option<string>): (r: string)
    ensures s.None? ==> r == ""
  {
    Escape(s.GetOr(""))
  }

  /** Characters that are unsafe inside HTML text or a quoted attribute. */
  predicate Unsafe(c: char) {
    c == '<' || c == '>' || c == '"' || c == '\''
  }

  lemma EscapeCharSafe(c: char)
    ensures forall i :: 0 <= i < |EscapeChar(c)| ==> !Unsafe(EscapeChar(c)[i])
  {
  }

  /** The output has no raw `<`, `>`, `"` or `'`. */
  lemma {:induction false} EscapeSafe(s: string)
    ensures forall i :: 0 <= i < |Escape(s)| ==> !Unsafe(Escape(s)[i])
    decreases |s|
  {
    if s != [] {
      EscapeSafe(s[1..]);
      EscapeCharSafe(s[0]);
      var a, b := EscapeChar(s[0]), Escape(s[1..]);
      assert forall i :: 0 <= i < |a + b| ==> (a + b)[i] == if i < |a| then a[i] else b[i - |a|];
    }
  }

  /** Text without special characters is left unchanged. */
  lemma {:induction false} EscapePlain(s: string)
    requires forall i :: 0 <= i < |s| ==> !Special(s[i])
    ensures Escape(s) == s
    decreases |s|
  {
    if s != [] {
      EscapePlain(s[1..]);
      assert s == [s[0]] + s[1..];
    }
  }

  /** Decoding the five entities; any other character stands for itself. */
  function Unescape(r: string): string
    decreases |r|
  {
    if r == [] then []
    else if |r| >= 5 && r[..5] == "&amp;" then "&" + Unescape(r[5..])
    else if |r| >= 4 && r[..4] == "&lt;" then "<" + Unescape(r[4..])
    else if |r| >= 4 && r[..4] == "&gt;" then ">" + Unescape(r[4..])
    else if |r| >= 6 && r[..6] == "&quot;" then "\"" + Unescape(r[6..])
    else if |r| >= 5 && r[..5] == "&#39;" then "'" + Unescape(r[5..])
    else [r[0]] + Unescape(r[1..])
  }

  lemma UnescapeStep(c: char, t: string)
    ensures Unescape(EscapeChar(c) + t) == [c] + Unescape(t)
  {
    if c == '&' {
      UnescapeAmp(t);
    } else if c == '<' {
      UnescapeLt(t);
    } else if c == '>' {
      UnescapeGt(t);
    } else if c == '"' {
      UnescapeQuot(t);
    } else if c == '\'' {
      UnescapeApos(t);
    } else {
      UnescapePlain(c, t);
    }
  }

  lemma UnescapeAmp(t: string)
    ensures Unescape("&amp;" + t) == "&" + Unescape(t)
  {
    var r := "&amp;" + t;
    assert r[..5] == "&amp;" && r[5..] == t;
  }

  lemma UnescapePlain(c: char, t: string)
    requires !Special(c)
    ensures Unescape([c] + t) == [c] + Unescape(t)
  {
    var r := [c] + t;
    assert r[0] == c && r[1..] == t;
    assert !(|r| >= 4 && r[..4] in ["&lt;", "&gt;"]) && !(|r| >= 5 && r[..5] in ["&amp;", "&#39;"]) && !(|r| >= 6 && r[..6] == "&quot;") by {
      assert forall k :: 1 <= k <= |r| ==> r[..k][0] == c;
    }
  }

  lemma UnescapeLt(t: string)
    ensures Unescape("&lt;" + t) == "<" + Unescape(t)
  {
    var r := "&lt;" + t;
    assert r[1] == 'l';
    assert r[..4] == "&lt;" && r[4..] == t;
  }

  lemma UnescapeGt(t: string)
    ensures Unescape("&gt;" + t) == ">" + Unescape(t)
  {
    var r := "&gt;" + t;
    assert r[1] == 'g';
    assert r[..4] == "&gt;" && r[4..] == t;
  }

  lemma UnescapeQuot(t: string)
    ensures Unescape("&quot;" + t) == "\"" + Unescape(t)
  {
    var r := "&quot;" + t;
    assert r[1] == 'q';
    assert r[..6] == "&quot;" && r[6..] == t;
  }

  lemma UnescapeApos(t: string)
    ensures Unescape("&#39;" + t) == "'" + Unescape(t)
  {
    var r := "&#39;" + t;
    assert r[1] == '#';
    assert r[..5] == "&#39;" && r[5..] == t;
  }

  /** Escaping loses nothing: decoding the entities gives the text back. */
  lemma {:induction false} EscapeRoundTrip(s: string)
    ensures Unescape(Escape(s)) == s
    decreases |s|
  {
    if s != [] {
      EscapeRoundTrip(s[1..]);
      UnescapeStep(s[0], Escape(s[1..]));
      assert s == [s[0]] + s[1..];
    }
  }

  // ---------------------------------------------------------------------------
  // parseCsvText

  /** The row `parseCsvText` builds from one record: no `disciplina` (left
      ""), and the status normalised from the trimmed `statusRaw`. */
  function LegacyDecode(rec: Record): Row {
    var statusRaw := Field(rec, ColStatus);
    Row(
      tipo := Field(rec, ColTipo),
      key := Field(rec, ColKey),
      resumo := Field(rec, ColResumo),
      statusRaw := statusRaw,
      statusNorm := NormalizeStatus(Some(statusRaw)),
      categoria := Field(rec, ColCategoria),
      escola := Field(rec, ColEscola),
      disciplina := "",
      contratual := ToCents(Cell(rec, ColValContratual)),
      medido := ToCents(Cell(rec, ColValMedido)),
      paiKey := Field(rec, ColPaiKey))
  }

  /** The legacy decoding agrees with the component's on every field but
      the `disciplina` it does not read. */
  lemma LegacyDecodeAgrees(rec: Record)
    ensures LegacyDecode(rec) == Decode(rec).(disciplina := "")
  {
    DecodeStatus(rec);
  }

  // ---------------------------------------------------------------------------
  // getFilters / applyFilters

  /** `getFilters()`: the selects as they are, the query trimmed and
      lowercased. */
  function GetFilters(lower: string -> string, categoria: string, escola: string, status: string, q: string): Criteria {
    Criteria(categoria, escola, status, lower(Trim(q)))
  }

  /** The predicate of `applyFilters`: the query is already lowercased and
      is not lowercased again. */
  predicate LegacyKeeps(lower: string -> string, f: Criteria, r: Row) {
    if f.categoria != "" && r.categoria != f.categoria then false
    else if f.escola != "" && r.escola != f.escola then false
    else if f.status != "" && r.statusNorm != f.status then false
    else if f.query != "" && !Contains(lower(Haystack(r)), f.query) then false
    else true
  }

  function ApplyFilters(lower: string -> string, f: Criteria, rows: seq<Row>): seq<Row> {
    Filter(rows, (r: Row) => LegacyKeeps(lower, f, r))
  }

  /** The legacy filter is the component's filter applied to the trimmed
      query, for a lowercasing that maps only "" to "". */
  lemma LegacyFilterAgrees(lower: string -> string, categoria: string, escola: string, status: string, q: string, rows: seq<Row>)
    requires forall s :: lower(s) == [] <==> s == []
    ensures ApplyFilters(lower, GetFilters(lower, categoria, escola, status, q), rows)
         == FilterRows(lower, Criteria(categoria, escola, status, Trim(q)), rows)
  {
    var f := GetFilters(lower, categoria, escola, status, q);
    var c := Criteria(categoria, escola, status, Trim(q));
    FilterExt(rows, (r: Row) => LegacyKeeps(lower, f, r), (x: Row) => Keeps(lower, c, x));
  }

  // ---------------------------------------------------------------------------
  // hydrateFilters

  /** `cats.includes(prev) ? prev : ""`. */
  function KeepSelection(prev: string, options: seq<string>): (r: string)
    ensures r == "" || r in options
    ensures r == prev <==> prev in options || prev == ""
  {
    if prev in options then prev else ""
  }

  // ---------------------------------------------------------------------------
  // renderCharts: status counts through a Map

  /** The status `Map` after counting `tasks`: seeded with the three
      statuses at 0, then `set(t.statusNorm || "—", (get(...) || 0) + 1)`. */
  method LegacyStatusCounts(tasks: seq<Row>) returns (counts: seq<nat>)
    ensures counts == StatusCounts(tasks)
  {
    var byStatus: map<string, nat> := map[Pending := 0, InProgress := 0, Done := 0];
    StatusesDiffer();
    for i := 0 to |tasks|
      invariant forall s :: s in StatusOrder ==> s in byStatus && byStatus[s] == Count(tasks[..i], HasStatus(s))
    {
      var t := tasks[i];
      var k := if t.statusNorm != "" then t.statusNorm else NoValue;
      var prev := if k in byStatus then byStatus[k] else 0;
      byStatus := byStatus[k := prev + 1];
      CountStep(tasks, i, k);
    }
    assert tasks[..|tasks|] == tasks;
    counts := [byStatus[Pending], byStatus[InProgress], byStatus[Done]];
  }

  lemma CountStep(tasks: seq<Row>, i: int, k: string)
    requires 0 <= i < |tasks|
    requires k == if tasks[i].statusNorm != "" then tasks[i].statusNorm else NoValue
    ensures forall s :: s in StatusOrder ==>
              Count(tasks[..i + 1], HasStatus(s)) == Count(tasks[..i], HasStatus(s)) + (if k == s then 1 else 0)
  {
    assert tasks[..i + 1] == tasks[..i] + [tasks[i]];
    forall s | s in StatusOrder
      ensures Count(tasks[..i + 1], HasStatus(s)) == Count(tasks[..i], HasStatus(s)) + (if k == s then 1 else 0)
    {
      FilterSnoc(tasks[..i], tasks[i], HasStatus(s));
      assert s != NoValue && s != "";
    }
  }

  // ---------------------------------------------------------------------------
  // the page state

  /** The page: the global `rawRows` and the two selects with their options. */
  class Page {
    var rawRows: seq<Row>
    var cats: seq<string>
    var escolas: seq<string>
    var selCat: string
    var selEsc: string

    constructor()
      ensures rawRows == [] && cats == [] && escolas == [] && selCat == "" && selEsc == ""
    {
      rawRows := [];
      cats := [];
      escolas := [];
      selCat := "";
      selEsc := "";
    }

    /** `hydrateFilters()`: rebuild the options from `rawRows` and keep each
        selection only if it is still offered. */
    method HydrateFilters(collate: (string, string) -> bool)
      modifies this
      ensures rawRows == old(rawRows)
      ensures cats == Categories(rawRows, collate)
      ensures escolas == Schools(rawRows, collate)
      ensures selCat == KeepSelection(old(selCat), cats)
      ensures selEsc == KeepSelection(old(selEsc), escolas)
    {
      var prevCat, prevEsc := selCat, selEsc;
      cats := Categories(rawRows, collate);
      escolas := Schools(rawRows, collate);
      selCat := KeepSelection(prevCat, cats);
      selEsc := KeepSelection(prevEsc, escolas);
    }

    /** `parseCsvText`: replace `rawRows` by the decoded records, then
        rehydrate the filters. */
    method ParseCsvText(recs: seq<Record>, collate: (string, string) -> bool)
      modifies this
      ensures rawRows == MapSeq(recs, LegacyDecode)
      ensures cats == Categories(rawRows, collate)
      ensures escolas == Schools(rawRows, collate)
      ensures selCat == KeepSelection(old(selCat), cats)
      ensures selEsc == KeepSelection(old(selEsc), escolas)
    {
      rawRows := MapSeq(recs, LegacyDecode);
      HydrateFilters(collate);
    }

    /** `applyFilters(rawRows)` with the current selects, the status select
        and the query box given as parameters. */
    method Filtered(lower: string -> string, status: string, q: string) returns (rows: seq<Row>)
      ensures rows == ApplyFilters(lower, GetFilters(lower, selCat, selEsc, status, q), rawRows)
    {
      var f := GetFilters(lower, selCat, selEsc, status, q);
      rows := Filter(rawRows, (r: Row) => LegacyKeeps(lower, f, r));
    }
  }
}
