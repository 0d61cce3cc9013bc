/** The rest of `dashboard-helpers`: the CSV column names (`COL`), the decoded
    row (`DashboardRow`) and `uniqSorted`, which builds the option lists of
    the category and school filters.

    pt-BR `localeCompare` is the parameter `collate`, read as
    `collate(a, b) := a.localeCompare(b, "pt-BR") <= 0`. */
module Helpers {
  import opened Seqs
  import opened Text
  import opened Sorting
  import opened Status

  // ---------------------------------------------------------------------------
  // COL: the issue tracker's CSV headers

  const ColTipo: string := "Tipo de item"
  const ColKey: string := "Chave da item"
  const ColResumo: string := "Resumo"
  const ColStatus: string := "Status"
  const ColCategoria: string := "Campo personalizado (Categoria)"
  const ColEscola: string := "Campo personalizado (Escola)"
  const ColValContratual: string := "Campo personalizado (Valor Contratual)"
  const ColValMedido: string := "Campo personalizado (Valor Medido)"
  const ColPaiKey: string := "Chave pai"
  const ColDisciplina: string := "Campo personalizado (Disciplina)"

  /** The `tipo` of a task and of a subtask. */
  const Task: string := "Tarefa"
  const Subtask: string := "Subtarefa"

  /** `DashboardRow`: one decoded CSV record.  Money is in integer cents. */
  datatype Row = Row(
    tipo: string,
    key: string,
    resumo: string,
    statusRaw: string,
    statusNorm: string,
    categoria: string,
    escola: string,
    disciplina: string,
    contratual: int,
    medido: int,
    paiKey: string)

  predicate IsTask(r: Row) {
    r.tipo == Task
  }

  predicate IsSubtask(r: Row) {
    r.tipo == Subtask
  }

  /** `statusNorm === "Concluído"`. */
  predicate IsDone(r: Row) {
    r.statusNorm == Done
  }

  /** `valorContratualCents || 0`: the field is always a number, so `|| 0`
      changes nothing. */
  function Contratual(r: Row): int {
    r.contratual
  }

  function Medido(r: Row): int {
    r.medido
  }

  /** The balance of a row: contractual minus measured, possibly negative. */
  function Balance(r: Row): int {
    r.contratual - r.medido
  }

  /** Summed balances are the difference of the summed values. */
  lemma {:induction false} SumBalance(rows: seq<Row>)
    ensures SumOf(rows, Balance) == SumOf(rows, Contratual) - SumOf(rows, Medido)
    decreases |rows|
  {
    if rows != [] {
      SumBalance(rows[..|rows| - 1]);
    }
  }

  function Tasks(rows: seq<Row>): (r: seq<Row>)
    ensures forall i :: 0 <= i < |r| ==> IsTask(r[i])
  {
    Filter(rows, IsTask)
  }

  function Subtasks(rows: seq<Row>): (r: seq<Row>)
    ensures forall i :: 0 <= i < |r| ==> IsSubtask(r[i])
  {
    Filter(rows, IsSubtask)
  }

  // ---------------------------------------------------------------------------
  // uniqSorted

  /** The entries the filter keeps: present and not blank once trimmed. */
  predicate NonBlank(v: Option<string>) {
    v.Some? && Trim(v.value) != []
  }

  function TrimValue(v: Option<string>): string {
    Trim(v.GetOr(""))
  }

  /** `x` is the trimmed form of some non-blank entry of `arr`. */
  predicate IsOption(arr: seq<Option<string>>, x: string) {
    exists j :: 0 <= j < |arr| && NonBlank(arr[j]) && TrimValue(arr[j]) == x
  }

  /** `uniqSorted(arr)`: drop missing and blank entries, trim, keep the first
      of equal values (`new Set`), sort by `collate`. */
  function UniqSorted(arr: seq<Option<string>>, collate: (string, string) -> bool): (r: seq<string>)
    ensures |r| <= |arr|
  {
    var present := Filter(arr, NonBlank);
    var values := Dedup(MapSeq(present, TrimValue));
    DedupShorter(MapSeq(present, TrimValue));
    SortBy(collate, values)
  }

  lemma {:induction false} DedupShorter<T>(s: seq<T>)
    ensures |Dedup(s)| <= |s|
    decreases |s|
  {
    if s != [] {
      DedupShorter(s[..|s| - 1]);
    }
  }

  /** Inserting a new value into a sequence without repeats keeps it without repeats. */
  lemma {:induction false} InsertDistinct<T>(le: (T, T) -> bool, x: T, s: seq<T>)
    requires Distinct(s) && x !in s
    ensures Distinct(Insert(le, x, s))
    decreases |s|
  {
    if s != [] && !le(s[|s| - 1], x) {
      var s', z := s[..|s| - 1], s[|s| - 1];
      assert x !in s' && z !in s' by {
        assert forall k :: 0 <= k < |s'| ==> s'[k] == s[k];
      }
      InsertDistinct(le, x, s');
      InsertPermutes(le, x, s');
      var r' := Insert(le, x, s');
      assert z !in multiset(r') by {
        assert z != x;
      }
    }
  }

  /** Sorting a sequence without repeats gives one without repeats. */
  lemma {:induction false} SortByDistinct<T>(le: (T, T) -> bool, s: seq<T>)
    requires Distinct(s)
    ensures Distinct(SortBy(le, s))
    decreases |s|
  {
    if s != [] {
      var s', x := s[..|s| - 1], s[|s| - 1];
      assert Distinct(s');
      assert x !in s';
      SortByDistinct(le, s');
      assert x !in multiset(SortBy(le, s'));
      InsertDistinct(le, x, SortBy(le, s'));
    }
  }

  /** The values of the option list are exactly the trimmed non-blank entries. */
  lemma UniqSortedMembers(arr: seq<Option<string>>, collate: (string, string) -> bool, x: string)
    ensures x in UniqSorted(arr, collate) <==> IsOption(arr, x)
  {
    var values := Dedup(MapSeq(Filter(arr, NonBlank), TrimValue));
    assert x in UniqSorted(arr, collate) <==> x in values by {
      assert x in multiset(SortBy(collate, values)) <==> x in multiset(values);
    }
    if x in values {
      ValueIsOption(arr, x);
    }
    if IsOption(arr, x) {
      OptionIsValue(arr, x);
    }
  }

  /** Over present, already trimmed entries the options are exactly the
      non-empty entries. */
  lemma TrimmedOptions(arr: seq<Option<string>>, x: string)
    requires forall i :: 0 <= i < |arr| ==> arr[i].Some? && Trimmed(arr[i].value)
    ensures IsOption(arr, x) <==> x != "" && Some(x) in arr
  {
    OptionIsEntry(arr, x);
    EntryIsOption(arr, x);
  }

  lemma OptionIsEntry(arr: seq<Option<string>>, x: string)
    requires forall i :: 0 <= i < |arr| ==> arr[i].Some? && Trimmed(arr[i].value)
    ensures IsOption(arr, x) ==> x != "" && Some(x) in arr
  {
    if IsOption(arr, x) {
      var j :| 0 <= j < |arr| && NonBlank(arr[j]) && TrimValue(arr[j]) == x;
      TrimmedEntry(arr[j], x);
    }
  }

  lemma EntryIsOption(arr: seq<Option<string>>, x: string)
    ensures x != "" && Trimmed(x) && Some(x) in arr ==> IsOption(arr, x)
  {
    if x != "" && Trimmed(x) && Some(x) in arr {
      var i :| 0 <= i < |arr| && arr[i] == Some(x);
      EntryTrimmed(x);
    }
  }

  lemma TrimmedEntry(v: Option<string>, x: string)
    requires v.Some? && Trimmed(v.value)
    requires NonBlank(v) && TrimValue(v) == x
    ensures x != "" && v == Some(x)
  {
    TrimFixpoint(v.value);
  }

  lemma EntryTrimmed(x: string)
    requires x != "" && Trimmed(x)
    ensures NonBlank(Some(x)) && TrimValue(Some(x)) == x
  {
    TrimFixpoint(x);
  }

  lemma ValueIsOption(arr: seq<Option<string>>, x: string)
    requires x in Dedup(MapSeq(Filter(arr, NonBlank), TrimValue))
    ensures IsOption(arr, x)
  {
    var present := Filter(arr, NonBlank);
    var trimmed := MapSeq(present, TrimValue);
    var i :| 0 <= i < |trimmed| && trimmed[i] == x;
    assert present[i] in arr && NonBlank(present[i]);
    var j :| 0 <= j < |arr| && arr[j] == present[i];
  }

  lemma OptionIsValue(arr: seq<Option<string>>, x: string)
    requires IsOption(arr, x)
    ensures x in Dedup(MapSeq(Filter(arr, NonBlank), TrimValue))
  {
    var j :| 0 <= j < |arr| && NonBlank(arr[j]) && TrimValue(arr[j]) == x;
    var present := Filter(arr, NonBlank);
    assert arr[j] in present;
    MapSeqHas(present, TrimValue, arr[j]);
  }

  lemma MapSeqHas<T, U>(s: seq<T>, f: T -> U, x: T)
    requires x in s
    ensures f(x) in MapSeq(s, f)
  {
    var i :| 0 <= i < |s| && s[i] == x;
    assert MapSeq(s, f)[i] == f(x);
  }

  /** `uniqSorted`'s promise: no repeats, no blank entry, every entry is
      trimmed, and the list is ordered by the collation. */
  lemma UniqSortedShape(arr: seq<Option<string>>, collate: (string, string) -> bool)
    requires TotalPreorder(collate)
    ensures var r := UniqSorted(arr, collate);
            && Distinct(r)
            && Sorted(collate, r)
            && forall i :: 0 <= i < |r| ==> r[i] != [] && Trimmed(r[i])
  {
    var present := Filter(arr, NonBlank);
    var values := Dedup(MapSeq(present, TrimValue));
    SortByDistinct(collate, values);
    SortBySorted(collate, values);
    var r := UniqSorted(arr, collate);
    forall i | 0 <= i < |r| ensures r[i] != [] && Trimmed(r[i]) {
      UniqSortedMembers(arr, collate, r[i]);
    }
  }
}
