/** `EntregaveisTable`: progress of the deliverables (subtasks) of each task.

    Subtasks are grouped under their parent key (`paiKey`, or their own key
    when that is empty; a subtask with both empty is dropped) by a loop that
    fills a `Map` with `push`.  Each task then gets the number of its
    subtasks, how many are concluded and the percentage; the rows are sorted
    in place by that percentage; the totals, the global percentage and a
    financial estimate (each task's contract weighted by its completed
    share, rounded with `Math.round`) are computed from the sorted rows.

    Percentages are exact `real`s here. */
module Deliverables {
  import opened Seqs
  import opened Sorting
  import opened Status
  import opened Helpers
  import Kpi

  // ---------------------------------------------------------------------------
  // grouping subtasks by parent

  /** `st.paiKey || st.key`. */
  function ParentKey(st: Row): string {
    if st.paiKey != "" then st.paiKey else st.key
  }

  function HasParent(k: string): Row -> bool {
    (st: Row) => ParentKey(st) == k
  }

  /** The subtasks listed under key `k`: `subByParent.get(k) || []`. */
  function Children(subtasks: seq<Row>, k: string): seq<Row> {
    if k == "" then [] else Filter(subtasks, HasParent(k))
  }

  /** What the map holds: exactly the non-empty child lists, keyed by parent. */
  ghost predicate GroupedAs(byParent: map<string, seq<Row>>, subtasks: seq<Row>) {
    && (forall k :: k in byParent ==> byParent[k] == Children(subtasks, k) && byParent[k] != [])
    && (forall k :: k !in byParent ==> Children(subtasks, k) == [])
  }

  lemma ChildrenSnoc(subtasks: seq<Row>, st: Row, k: string)
    ensures Children(subtasks + [st], k) ==
            Children(subtasks, k) + (if k != "" && ParentKey(st) == k then [st] else [])
  {
    if k != "" {
      FilterSnoc(subtasks, st, HasParent(k));
    }
  }

  /** One turn of the loop: `st` pushed onto the list of its parent key,
      which is created empty first if needed; skipped when that key is "". */
  function Push(byParent: map<string, seq<Row>>, st: Row): map<string, seq<Row>> {
    var pk := ParentKey(st);
    if pk == "" then byParent
    else byParent[pk := (if pk in byParent then byParent[pk] else []) + [st]]
  }

  lemma PushGroups(byParent: map<string, seq<Row>>, subtasks: seq<Row>, st: Row)
    requires GroupedAs(byParent, subtasks)
    ensures GroupedAs(Push(byParent, st), subtasks + [st])
  {
    forall k ensures Children(subtasks + [st], k) ==
        Children(subtasks, k) + (if k != "" && ParentKey(st) == k then [st] else []) {
      ChildrenSnoc(subtasks, st, k);
    }
  }

  /** The map after the loop has pushed every subtask of `subtasks`. */
  function Grouped(subtasks: seq<Row>): map<string, seq<Row>> {
    if subtasks == [] then map[]
    else Push(Grouped(subtasks[..|subtasks| - 1]), subtasks[|subtasks| - 1])
  }

  lemma {:induction false} GroupedGroups(subtasks: seq<Row>)
    ensures GroupedAs(Grouped(subtasks), subtasks)
    decreases |subtasks|
  {
    if subtasks != [] {
      var s', st := subtasks[..|subtasks| - 1], subtasks[|subtasks| - 1];
      GroupedGroups(s');
      PushGroups(Grouped(s'), s', st);
      assert s' + [st] == subtasks;
    }
  }

  /** The `for (const st of allSubtasks)` loop. */
  method GroupByParent(subtasks: seq<Row>) returns (byParent: map<string, seq<Row>>)
    ensures GroupedAs(byParent, subtasks)
  {
    byParent := map[];
    for i := 0 to |subtasks|
      invariant byParent == Grouped(subtasks[..i])
    {
      var st := subtasks[i];
      assert subtasks[..i + 1][..i] == subtasks[..i];
      var pk := ParentKey(st);
      if pk != "" {
        if pk !in byParent {
          byParent := byParent[pk := []];
        }
        byParent := byParent[pk := byParent[pk] + [st]];
      }
    }
    assert subtasks[..|subtasks|] == subtasks;
    GroupedGroups(subtasks);
  }

  /** `subByParent.get(key) || []` reads the child list of `key`. */
  lemma LookupIsChildren(byParent: map<string, seq<Row>>, subtasks: seq<Row>, k: string)
    requires GroupedAs(byParent, subtasks)
    ensures (if k in byParent then byParent[k] else []) == Children(subtasks, k)
  {
  }

  /** A subtask is listed under its parent key and nowhere else; one whose
      parent key and own key are both empty is listed nowhere. */
  lemma ChildOfParent(subtasks: seq<Row>, i: int, k: string)
    requires 0 <= i < |subtasks|
    ensures subtasks[i] in Children(subtasks, k) <==> k != "" && ParentKey(subtasks[i]) == k
  {
  }

  // ---------------------------------------------------------------------------
  // per-task progress

  /** `(concl / total) * 100`, or 0 without subtasks. */
  function Pct(concl: nat, total: nat): (pct: real)
    ensures total == 0 ==> pct == 0.0
    ensures concl <= total ==> 0.0 <= pct <= 100.0
    ensures total > 0 ==> pct * total as real == 100.0 * concl as real
  {
    if total > 0 then (concl as real / total as real) * 100.0 else 0.0
  }

  datatype Progress = Progress(
    key: string,
    resumo: string,
    categoria: string,
    escola: string,
    statusNorm: string,
    total: nat,
    concl: nat,
    pct: real,
    contratual: int)

  /** The row of task `t` given its subtask list. */
  function ProgressOf(t: Row, list: seq<Row>): (p: Progress)
    ensures p.total == |list| && p.concl <= p.total
  {
    var total := |list|;
    var concl := Count(list, IsDone);
    Progress(t.key, t.resumo, t.categoria, t.escola, t.statusNorm, total, concl, Pct(concl, total), t.contratual)
  }

  function TaskProgress(subtasks: seq<Row>): Row -> Progress {
    (t: Row) => ProgressOf(t, Children(subtasks, t.key))
  }

  /** `rows.sort((a, b) => a.pct - b.pct)`. */
  function PctLe(a: Progress, b: Progress): bool {
    a.pct <= b.pct
  }

  lemma PctLeTotalPreorder()
    ensures TotalPreorder(PctLe)
  {
  }

  function Total(p: Progress): int {
    p.total
  }

  function Concl(p: Progress): int {
    p.concl
  }

  /** `Math.round(n / d)` for an exact ratio: the floor of n/d + 1/2. */
  function RoundRatio(n: int, d: int): (r: int)
    requires d > 0
    ensures 2 * d * r <= 2 * n + d < 2 * d * (r + 1)
  {
    (2 * n + d) / (2 * d)
  }

  /** `Math.round(valorContratualCents * (concl / total))`, 0 without subtasks. */
  function Estimate(p: Progress): int {
    if p.total > 0 then RoundRatio(p.contratual * p.concl, p.total) else 0
  }

  datatype Report = Report(
    rows: seq<Progress>,
    totalEnt: int,
    conclEnt: int,
    pctEnt: real,
    totalContratual: int,
    estimate: int,
    pctFin: real)

  /** The unsorted rows, one per task in task order. */
  function Unsorted(data: seq<Row>): seq<Progress> {
    MapSeq(Tasks(data), TaskProgress(Subtasks(data)))
  }

  /** `pct` is `part / whole * 100`, or 0 when `whole` is not positive. */
  predicate PercentOf(pct: real, part: int, whole: int) {
    if whole > 0 then pct * whole as real == 100.0 * part as real else pct == 0.0
  }

  /** The `reduce` totals over the sorted rows, and the contract total over
      the tasks. */
  function Summarize(rows: seq<Progress>, tasks: seq<Row>): (rep: Report)
    ensures PercentOf(rep.pctEnt, rep.conclEnt, rep.totalEnt)
    ensures PercentOf(rep.pctFin, rep.estimate, rep.totalContratual)
  {
    var totalEnt := SumOf(rows, Total);
    var conclEnt := SumOf(rows, Concl);
    var totalContratual := SumOf(tasks, Contratual);
    var estimate := SumOf(rows, Estimate);
    Report(
      rows, totalEnt, conclEnt,
      Kpi.MeasuredPct(totalEnt, conclEnt),
      totalContratual, estimate,
      Kpi.MeasuredPct(totalContratual, estimate))
  }

  /** The whole table from the filtered rows. */
  function Deliverables(data: seq<Row>): (rep: Report)
    ensures PercentOf(rep.pctEnt, rep.conclEnt, rep.totalEnt)
    ensures PercentOf(rep.pctFin, rep.estimate, rep.totalContratual)
  {
    Summarize(SortBy(PctLe, Unsorted(data)), Tasks(data))
  }

  /** `allTasks.map(t => ...)` reading the list of `t.key` from the map. */
  function ProgressFrom(byParent: map<string, seq<Row>>): Row -> Progress {
    (t: Row) => ProgressOf(t, if t.key in byParent then byParent[t.key] else [])
  }

  lemma ProgressFromGrouping(byParent: map<string, seq<Row>>, subtasks: seq<Row>, tasks: seq<Row>)
    requires GroupedAs(byParent, subtasks)
    ensures MapSeq(tasks, ProgressFrom(byParent)) == MapSeq(tasks, TaskProgress(subtasks))
  {
    forall i | 0 <= i < |tasks|
      ensures MapSeq(tasks, ProgressFrom(byParent))[i] == MapSeq(tasks, TaskProgress(subtasks))[i] {
      LookupIsChildren(byParent, subtasks, tasks[i].key);
    }
  }

  /** The component body: the grouping loop, the per-task `map`, the
      in-place sort and the `reduce` totals. */
  method ComputeDeliverables(data: seq<Row>) returns (rep: Report)
    ensures rep == Deliverables(data)
  {
    var allTasks := Tasks(data);
    var allSubtasks := Subtasks(data);
    var byParent := GroupByParent(allSubtasks);
    var unsorted := MapSeq(allTasks, ProgressFrom(byParent));
    ProgressFromGrouping(byParent, allSubtasks, allTasks);
    var rows := SortedCopy(unsorted, PctLe);
    rep := Summarize(rows, allTasks);
  }


  // ---------------------------------------------------------------------------
  // what the table promises

  /** Every row counts the subtasks grouped under its task's key, at most
      that many are concluded, a task with an empty key has none, and the
      percentage lies in [0, 100] and is 0 without subtasks. */
  lemma RowFacts(data: seq<Row>, i: int)
    requires 0 <= i < |Tasks(data)|
    ensures var t := Tasks(data)[i];
            var p := Unsorted(data)[i];
            && p.key == t.key
            && p.total == |Children(Subtasks(data), t.key)|
            && p.concl <= p.total
            && (t.key == "" ==> p.total == 0)
            && 0.0 <= p.pct <= 100.0
            && (p.total == 0 ==> p.pct == 0.0)
  {
  }

  /** The rows are the tasks' rows, reordered: sorted by non-decreasing
      percentage, a permutation, and stable, so rows with equal percentage
      keep task order. */
  lemma RowsSortedStable(data: seq<Row>, p: Progress)
    ensures var rows := Deliverables(data).rows;
            && Sorted(PctLe, rows)
            && multiset(rows) == multiset(Unsorted(data))
            && Filter(rows, EquivTo(PctLe, p)) == Filter(Unsorted(data), EquivTo(PctLe, p))
  {
    PctLeTotalPreorder();
    SortBySorted(PctLe, Unsorted(data));
    SortByStable(PctLe, Unsorted(data), p);
  }

  /** Summing per-row counts: concluded deliverables never exceed all of
      them, and sorting does not change either total. */
  lemma TotalsBound(data: seq<Row>)
    ensures var rep := Deliverables(data);
            && rep.conclEnt <= rep.totalEnt
            && rep.totalEnt == SumOf(Unsorted(data), Total)
            && rep.conclEnt == SumOf(Unsorted(data), Concl)
  {
    var rows := Deliverables(data).rows;
    forall x | x in rows ensures Concl(x) <= Total(x) {
      assert x in multiset(rows);
      assert x in multiset(Unsorted(data));
      var i :| 0 <= i < |Unsorted(data)| && Unsorted(data)[i] == x;
    }
    SumMonotone(rows, Concl, Total);
    SortBySum(PctLe, Unsorted(data), Total);
    SortBySum(PctLe, Unsorted(data), Concl);
  }

  function ContractOf(p: Progress): int {
    p.contratual
  }

  /** The financial estimate is the sum of the per-task estimates (sorting
      does not change it), and the contract total is the sum over the
      tasks. */
  lemma EstimateTotal(data: seq<Row>)
    ensures Deliverables(data).estimate == SumOf(Unsorted(data), Estimate)
    ensures Deliverables(data).totalContratual == SumOf(Tasks(data), Contratual)
  {
    SortBySum(PctLe, Unsorted(data), Estimate);
  }

  /** With no negative contract value, the estimate lies between 0 and the
      contract total. */
  lemma EstimateWithinContract(data: seq<Row>)
    requires forall i :: 0 <= i < |Tasks(data)| ==> Tasks(data)[i].contratual >= 0
    ensures 0 <= Deliverables(data).estimate <= Deliverables(data).totalContratual
  {
    var unsorted := Unsorted(data);
    EstimateTotal(data);
    RowEstimatesBounded(data);
    SumNonNegative(unsorted, Estimate);
    SumMonotone(unsorted, Estimate, ContractOf);
    SumOfMapped(Tasks(data), TaskProgress(Subtasks(data)), ContractOf, Contratual);
  }

  lemma RowEstimatesBounded(data: seq<Row>)
    requires forall i :: 0 <= i < |Tasks(data)| ==> Tasks(data)[i].contratual >= 0
    ensures forall p :: p in Unsorted(data) ==> 0 <= Estimate(p) <= ContractOf(p)
  {
    var tasks, unsorted := Tasks(data), Unsorted(data);
    forall i | 0 <= i < |unsorted| ensures 0 <= Estimate(unsorted[i]) <= ContractOf(unsorted[i]) {
      TaskEstimateBounded(tasks[i], Subtasks(data));
    }
  }

  lemma TaskEstimateBounded(t: Row, subtasks: seq<Row>)
    requires t.contratual >= 0
    ensures var p := TaskProgress(subtasks)(t);
            0 <= Estimate(p) <= ContractOf(p)
  {
    EstimateBounds(TaskProgress(subtasks)(t));
  }

  /** The estimate of one task: 0 without subtasks, the whole contract when
      every subtask is concluded, and between 0 and the contract for a
      non-negative contract. */
  lemma EstimateBounds(p: Progress)
    requires p.concl <= p.total
    ensures p.total == 0 ==> Estimate(p) == 0
    ensures p.total > 0 && p.concl == p.total ==> Estimate(p) == p.contratual
    ensures p.contratual >= 0 ==> 0 <= Estimate(p) <= p.contratual
  {
    if p.total > 0 {
      var v, c, t := p.contratual, p.concl, p.total;
      RoundFacts(v * c, t, Estimate(p));
      if c == t {
        RoundOfWhole(v, t, Estimate(p));
      }
      if v >= 0 {
        MulMonotone(v, c, t);
        RoundBetween(v * c, v, t, Estimate(p));
      }
    }
  }

  lemma RoundFacts(n: int, t: int, r: int)
    requires t > 0 && r == RoundRatio(n, t)
    ensures 2 * t * r <= 2 * n + t < 2 * t * (r + 1)
  {
  }

  lemma MulMonotone(v: int, c: int, t: int)
    requires v >= 0 && c <= t
    ensures v * c <= v * t
  {
    assert v * t - v * c == v * (t - c);
  }

  /** Cancelling a positive factor from a strict inequality. */
  lemma LtFromMul(k: int, a: int, b: int)
    requires k > 0 && k * a < k * b
    ensures a < b
  {
    assert k * b - k * a == k * (b - a);
  }

  lemma RoundOfWhole(v: int, t: int, r: int)
    requires t > 0 && 2 * t * r <= 2 * (v * t) + t < 2 * t * (r + 1)
    ensures r == v
  {
    assert 2 * t * (v + 1) == 2 * (v * t) + 2 * t;
    LtFromMul(2 * t, r, v + 1);
    assert 2 * t * v == 2 * (v * t);
    LtFromMul(2 * t, v, r + 1);
  }

  lemma RoundBetween(n: int, v: int, t: int, r: int)
    requires t > 0 && 0 <= n <= v * t
    requires 2 * t * r <= 2 * n + t < 2 * t * (r + 1)
    ensures 0 <= r <= v
  {
    assert 2 * t * 0 == 0;
    LtFromMul(2 * t, 0, r + 1);
    assert 2 * t * (v + 1) == 2 * (v * t) + 2 * t;
    LtFromMul(2 * t, r, v + 1);
  }
}
