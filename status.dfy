/** `normalizeStatus`: the issue tracker's workflow labels folded into the
    three statuses the dashboard counts.  The input is trimmed first; a blank
    input gives ""; a label outside the table passes through trimmed. */
module Status {
  import opened Seqs
  import opened Text

  const Pending: string := "Pendente"
  const InProgress: string := "Em andamento"
  const Done: string := "Concluído"

  /** The exact-match table: tracker label, then the status it stands for. */
  const StatusTable: seq<(string, string)> := [
    ("Tarefas pendentes", Pending),
    ("Em andamento", InProgress),
    ("Em Análise (interna)", InProgress),
    ("Concluído", Done),
    ("Aprovado", Done),
    ("Em Análise (SEDUC)", Done)
  ]

  /** The first entry of `table` whose label is `s`: the chain of `if`s. */
  function Lookup(table: seq<(string, string)>, s: string): (r: Option<string>)
    ensures r.Some? ==> (s, r.value) in table
    ensures r.None? <==> forall i :: 0 <= i < |table| ==> table[i].0 != s
  {
    if table == [] then None
    else if table[0].0 == s then Some(table[0].1)
    else Lookup(table[1..], s)
  }

  /** `normalizeStatus(raw)`; `None` stands for `null` and `undefined`, which
      `raw || ""` turns into "". */
  function NormalizeStatus(raw: Option<string>): (r: string)
    ensures raw.None? ==> r == ""
  {
    Classify(Trim(raw.GetOr("")))
  }

  /** The chain of comparisons on the trimmed text. */
  function Classify(s: string): string {
    if s == [] then ""
    else match Lookup(StatusTable, s)
      case Some(status) => status
      case None => s
  }

  /** No label occurs twice in a table. */
  predicate LabelsDistinct(table: seq<(string, string)>) {
    forall i, j :: 0 <= i < j < |table| ==> table[i].0 != table[j].0
  }

  lemma {:induction false} LookupFinds(table: seq<(string, string)>, s: string, v: string)
    requires LabelsDistinct(table) && (s, v) in table
    ensures Lookup(table, s) == Some(v)
    decreases |table|
  {
    if table[0] != (s, v) {
      assert (s, v) in table[1..];
      var k :| 0 <= k < |table[1..]| && table[1..][k] == (s, v);
      assert table[0].0 != table[k + 1].0;
      LookupFinds(table[1..], s, v);
    }
  }

  lemma StatusTableDistinct()
    ensures LabelsDistinct(StatusTable)
    ensures forall i :: 0 <= i < |StatusTable| ==> StatusTable[i].0 != [] && StatusTable[i].1 != []
  {
  }

  /** "Pendente" is not a label: the tracker's own label is "Tarefas pendentes". */
  lemma PendingIsNoLabel()
    ensures Lookup(StatusTable, Pending) == None
  {
    forall i | 0 <= i < |StatusTable| ensures StatusTable[i].0 != Pending {
      assert StatusTable[i].0[0] != 'P' || |StatusTable[i].0| != |Pending|;
    }
  }

  lemma InProgressIsFixed()
    ensures Lookup(StatusTable, InProgress) == Some(InProgress)
  {
    StatusTableDistinct();
    assert StatusTable[1] == (InProgress, InProgress);
    LookupFinds(StatusTable, InProgress, InProgress);
  }

  lemma DoneIsFixed()
    ensures Lookup(StatusTable, Done) == Some(Done)
  {
    StatusTableDistinct();
    assert StatusTable[3] == (Done, Done);
    LookupFinds(StatusTable, Done, Done);
  }

  lemma StatusesTrimmed()
    ensures Trimmed(Pending) && Trimmed(InProgress) && Trimmed(Done)
  {
  }

  /** Every label of the table, with any white space around it, gives its status. */
  lemma NormalizeByTable(raw: string, name: string, status: string)
    requires (name, status) in StatusTable && Trim(raw) == name
    ensures NormalizeStatus(Some(raw)) == status
  {
    StatusTableDistinct();
    LookupFinds(StatusTable, name, status);
  }

  /** Any other text passes through, trimmed. */
  lemma NormalizeUnknown(raw: string)
    requires forall p :: p in StatusTable ==> p.0 != Trim(raw)
    ensures NormalizeStatus(Some(raw)) == Trim(raw)
  {
    var s := Trim(raw);
    forall i | 0 <= i < |StatusTable| ensures StatusTable[i].0 != s {
      assert StatusTable[i] in StatusTable;
    }
  }

  /** The result is "" exactly when the input is blank. */
  lemma NormalizeBlank(raw: string)
    ensures NormalizeStatus(Some(raw)) == "" <==> AllSpace(raw)
  {
    var s := Trim(raw);
    if s != [] {
      match Lookup(StatusTable, s)
      case Some(status) =>
        StatusTableDistinct();
        var k :| 0 <= k < |StatusTable| && StatusTable[k] == (s, status);
      case None =>
    }
  }

  predicate IsStatus(r: string) {
    r == Pending || r == InProgress || r == Done
  }

  lemma TableValuesAreStatuses()
    ensures forall i :: 0 <= i < |StatusTable| ==> IsStatus(StatusTable[i].1)
  {
  }

  /** What the table gives is one of the three statuses. */
  lemma LookupIsStatus(s: string)
    ensures Lookup(StatusTable, s).Some? ==> IsStatus(Lookup(StatusTable, s).value)
  {
    var r := Lookup(StatusTable, s);
    if r.Some? {
      TableValuesAreStatuses();
      var k :| 0 <= k < |StatusTable| && StatusTable[k] == (s, r.value);
    }
  }

  /** The result is one of the three statuses, "", or the trimmed input. */
  lemma NormalizeRange(raw: Option<string>)
    ensures var r := NormalizeStatus(raw);
            IsStatus(r) || r == "" || r == Trim(raw.GetOr(""))
  {
    LookupIsStatus(Trim(raw.GetOr("")));
  }

  /** Trimming first changes nothing, since the function trims anyway. */
  lemma NormalizeIgnoresTrim(raw: string)
    ensures NormalizeStatus(Some(Trim(raw))) == NormalizeStatus(Some(raw))
  {
    TrimIdempotent(raw);
  }

  /** A trimmed text that the table leaves alone, or maps to itself, is a fixed point. */
  lemma FixedPoint(r: string)
    requires Trimmed(r) && r != []
    requires Lookup(StatusTable, r) == None || Lookup(StatusTable, r) == Some(r)
    ensures NormalizeStatus(Some(r)) == r
  {
    TrimFixpoint(r);
  }

  /** A status normalises to itself. */
  lemma StatusFixed(r: string)
    requires IsStatus(r)
    ensures NormalizeStatus(Some(r)) == r
  {
    StatusesTrimmed();
    if r == Pending {
      PendingIsNoLabel();
      FixedPoint(Pending);
    } else if r == InProgress {
      InProgressIsFixed();
      FixedPoint(InProgress);
    } else {
      DoneIsFixed();
      FixedPoint(Done);
    }
  }

  /** Normalising twice is normalising once: the three statuses are not labels
      that map elsewhere, and a passed-through label is already trimmed. */
  lemma NormalizeIdempotent(raw: Option<string>)
    ensures NormalizeStatus(Some(NormalizeStatus(raw))) == NormalizeStatus(raw)
  {
    var s := Trim(raw.GetOr(""));
    var r := NormalizeStatus(raw);
    if s == [] {
      assert r == "";
      TrimFixpoint(r);
    } else if Lookup(StatusTable, s).None? {
      assert r == s;
      TrimFixpoint(s);
    } else {
      LookupIsStatus(s);
      StatusFixed(r);
    }
  }
}
