/** `DashboardCharts`: the four charts drawn from the filtered rows.

    Only tasks feed them.  The status chart counts tasks per status in a
    fixed order; the finance chart shows the measured total and the
    remaining balance clamped at zero; the category chart adds contractual
    and measured values per category; the schools chart adds the balance per
    school and keeps the ten largest.  The per-category and per-school sums
    are built by loops that fill a JavaScript `Map`, whose keys iterate in
    the order they were first set: the model keeps that order as `keys`
    beside the `map` of values.  pt-BR `localeCompare` is the parameter
    `collate`. */
module Charts {
  import opened Seqs
  import opened Sorting
  import opened Status
  import opened Helpers

  /** The bucket of a task whose category or school is empty: `k || "—"`. */
  const NoValue: string := "—"

  const StatusOrder: seq<string> := [Pending, InProgress, Done]

  // ---------------------------------------------------------------------------
  // status chart

  function HasStatus(s: string): Row -> bool {
    (t: Row) => t.statusNorm == s
  }

  /** A status outside the chart's order (including the empty one). */
  predicate Unlisted(t: Row) {
    t.statusNorm != Pending && t.statusNorm != InProgress && t.statusNorm != Done
  }

  /** `statusOrder.map(s => tasks.filter(t => t.statusNorm === s).length)`. */
  function StatusCounts(tasks: seq<Row>): (r: seq<nat>)
    ensures |r| == |StatusOrder|
  {
    MapSeq(StatusOrder, (s: string) => Count(tasks, HasStatus(s)))
  }

  /** The three bars and the tasks with any other status partition the
      tasks: no task is counted twice, and the bars add up to at most the
      number of tasks. */
  lemma {:induction false} StatusPartition(tasks: seq<Row>)
    ensures var c := StatusCounts(tasks);
            c[0] + c[1] + c[2] + Count(tasks, Unlisted) == |tasks|
    decreases |tasks|
  {
    if tasks != [] {
      var s', t := tasks[..|tasks| - 1], tasks[|tasks| - 1];
      assert s' + [t] == tasks;
      StatusPartition(s');
      FilterSnoc(s', t, HasStatus(Pending));
      FilterSnoc(s', t, HasStatus(InProgress));
      FilterSnoc(s', t, HasStatus(Done));
      FilterSnoc(s', t, Unlisted);
      StatusesDiffer();
    }
  }

  lemma StatusesDiffer()
    ensures Pending != InProgress && Pending != Done && InProgress != Done
  {
    assert |Pending| != |InProgress| && |Pending| != |Done| && |InProgress| != |Done|;
  }

  // ---------------------------------------------------------------------------
  // finance chart

  /** `Math.max(0, totalContratual - totalMedido)`: the balance, never below zero. */
  function FinanceSaldo(tasks: seq<Row>): (r: int)
    ensures r >= 0
    ensures r >= SumOf(tasks, Contratual) - SumOf(tasks, Medido)
    ensures r == 0 || r == SumOf(tasks, Balance)
  {
    SumBalance(tasks);
    var d := SumOf(tasks, Contratual) - SumOf(tasks, Medido);
    if d > 0 then d else 0
  }

  // ---------------------------------------------------------------------------
  // category chart

  /** `t.categoria || "—"`. */
  function CatKey(t: Row): (k: string)
    ensures k != ""
  {
    if t.categoria != "" then t.categoria else NoValue
  }

  /** `{ vc, vm }`: contractual and measured cents of one category. */
  datatype Entry = Entry(vc: int, vm: int)

  /** `byCat`: keys in insertion order, and the entry of each. */
  datatype CatMap = CatMap(keys: seq<string>, at: map<string, Entry>)

  /** What `byCat` holds after the tasks `tasks`: one key per category, in
      order of first appearance, each with the sums of its tasks. */
  ghost predicate CatSummed(m: CatMap, tasks: seq<Row>) {
    && m.keys == Dedup(MapSeq(tasks, CatKey))
    && (forall k :: k in m.at <==> k in m.keys)
    && (forall k :: k in m.at ==>
          m.at[k] == Entry(GroupSum(tasks, CatKey, k, Contratual), GroupSum(tasks, CatKey, k, Medido)))
  }

  /** One turn of the loop: create the entry if missing, then add the task. */
  function CatAdd(m: CatMap, t: Row): CatMap {
    var k := CatKey(t);
    var m1 := if k in m.at then m else CatMap(m.keys + [k], m.at[k := Entry(0, 0)]);
    var e := m1.at[k];
    CatMap(m1.keys, m1.at[k := Entry(e.vc + t.contratual, e.vm + t.medido)])
  }

  /** `byCat` after the loop has visited `tasks`. */
  function CatFold(tasks: seq<Row>): CatMap {
    if tasks == [] then CatMap([], map[])
    else CatAdd(CatFold(tasks[..|tasks| - 1]), tasks[|tasks| - 1])
  }

  lemma CatAddSummed(m: CatMap, tasks: seq<Row>, t: Row)
    requires CatSummed(m, tasks)
    ensures CatSummed(CatAdd(m, t), tasks + [t])
  {
    var m' := CatAdd(m, t);
    DedupSnoc(tasks, t, CatKey);
    assert m'.keys == Dedup(MapSeq(tasks + [t], CatKey));
    assert forall k :: k in m'.at <==> k in m'.keys;
    forall k | k in m'.at
      ensures m'.at[k] == Entry(GroupSum(tasks + [t], CatKey, k, Contratual), GroupSum(tasks + [t], CatKey, k, Medido))
    {
      CatEntryStep(m, tasks, t, k);
    }
  }

  lemma CatEntryStep(m: CatMap, tasks: seq<Row>, t: Row, k: string)
    requires CatSummed(m, tasks) && k in CatAdd(m, t).at
    ensures CatAdd(m, t).at[k] == Entry(GroupSum(tasks + [t], CatKey, k, Contratual), GroupSum(tasks + [t], CatKey, k, Medido))
  {
    GroupSumSnoc(tasks, t, CatKey, k, Contratual);
    GroupSumSnoc(tasks, t, CatKey, k, Medido);
    if k !in m.at {
      GroupSumFresh(tasks, CatKey, k, Contratual);
      GroupSumFresh(tasks, CatKey, k, Medido);
    }
  }

  lemma {:induction false} CatFoldSummed(tasks: seq<Row>)
    ensures CatSummed(CatFold(tasks), tasks)
    decreases |tasks|
  {
    if tasks != [] {
      var s', t := tasks[..|tasks| - 1], tasks[|tasks| - 1];
      assert s' + [t] == tasks;
      assert CatFold(tasks) == CatAdd(CatFold(s'), t);
      CatFoldSummed(s');
      CatAddSummed(CatFold(s'), s', t);
    }
  }

  /** The `tasks.forEach` loop that fills `byCat`. */
  method RollupCategories(tasks: seq<Row>) returns (byCat: CatMap)
    ensures CatSummed(byCat, tasks)
  {
    byCat := CatMap([], map[]);
    for i := 0 to |tasks|
      invariant byCat == CatFold(tasks[..i])
    {
      var t := tasks[i];
      assert tasks[..i + 1][..i] == tasks[..i];
      var k := if t.categoria != "" then t.categoria else NoValue;
      if k !in byCat.at {
        byCat := CatMap(byCat.keys + [k], byCat.at[k := Entry(0, 0)]);
      }
      var entry := byCat.at[k];
      byCat := byCat.(at := byCat.at[k := Entry(entry.vc + t.contratual, entry.vm + t.medido)]);
    }
    assert tasks[..|tasks|] == tasks;
    CatFoldSummed(tasks);
  }

  /** The distinct categories, in order of first appearance. */
  function CatKeys(tasks: seq<Row>): seq<string> {
    Dedup(MapSeq(tasks, CatKey))
  }

  function CatContratual(tasks: seq<Row>): string -> int {
    (k: string) => GroupSum(tasks, CatKey, k, Contratual)
  }

  function CatMedido(tasks: seq<Row>): string -> int {
    (k: string) => GroupSum(tasks, CatKey, k, Medido)
  }

  /** `Array.from(byCat.keys()).sort(localeCompare)`. */
  function CatLabels(tasks: seq<Row>, collate: (string, string) -> bool): seq<string> {
    SortBy(collate, CatKeys(tasks))
  }

  /** The category labels: each category of a task exactly once, none
      empty, ordered by the collation. */
  lemma CatLabelsShape(tasks: seq<Row>, collate: (string, string) -> bool, k: string)
    requires TotalPreorder(collate)
    ensures var labels := CatLabels(tasks, collate);
            && Distinct(labels)
            && Sorted(collate, labels)
            && (k in labels <==> exists i :: 0 <= i < |tasks| && CatKey(tasks[i]) == k)
  {
    var keys := CatKeys(tasks);
    SortByDistinct(collate, keys);
    SortBySorted(collate, keys);
    assert k in CatLabels(tasks, collate) <==> k in multiset(keys);
    if k in keys {
      var j :| 0 <= j < |keys| && keys[j] == k;
      var i :| 0 <= i < |tasks| && MapSeq(tasks, CatKey)[i] == k;
    }
    if exists i :: 0 <= i < |tasks| && CatKey(tasks[i]) == k {
      var i :| 0 <= i < |tasks| && CatKey(tasks[i]) == k;
      assert MapSeq(tasks, CatKey)[i] == k;
    }
  }

  /** The contractual bars add up to the contractual total, and the measured
      bars to the measured total: every task lands in exactly one category. */
  lemma CategoryBarsSum(tasks: seq<Row>, collate: (string, string) -> bool)
    ensures SumOf(MapSeq(CatLabels(tasks, collate), CatContratual(tasks)), Id) == SumOf(tasks, Contratual)
    ensures SumOf(MapSeq(CatLabels(tasks, collate), CatMedido(tasks)), Id) == SumOf(tasks, Medido)
  {
    var keys := CatKeys(tasks);
    SumOfMapSeq(CatLabels(tasks, collate), CatContratual(tasks));
    SortBySum(collate, keys, CatContratual(tasks));
    SumOverKeysIsSumOf(keys, tasks, CatKey, Contratual);
    GroupsPartitionSum(tasks, CatKey, Contratual);
    SumOfMapSeq(CatLabels(tasks, collate), CatMedido(tasks));
    SortBySum(collate, keys, CatMedido(tasks));
    SumOverKeysIsSumOf(keys, tasks, CatKey, Medido);
    GroupsPartitionSum(tasks, CatKey, Medido);
  }

  // ---------------------------------------------------------------------------
  // top schools chart

  /** `t.escola || "—"`. */
  function SchoolKey(t: Row): (k: string)
    ensures k != ""
  {
    if t.escola != "" then t.escola else NoValue
  }

  /** `byEsc`: keys in insertion order, and the summed balance of each. */
  datatype SchoolMap = SchoolMap(keys: seq<string>, at: map<string, int>)

  ghost predicate SchoolSummed(m: SchoolMap, tasks: seq<Row>) {
    && m.keys == Dedup(MapSeq(tasks, SchoolKey))
    && (forall k :: k in m.at <==> k in m.keys)
    && (forall k :: k in m.at ==> m.at[k] == GroupSum(tasks, SchoolKey, k, Balance))
  }

  /** `byEsc.set(k, (byEsc.get(k) || 0) + s)`. */
  function SchoolAdd(m: SchoolMap, t: Row): SchoolMap {
    var k := SchoolKey(t);
    var prev := if k in m.at then m.at[k] else 0;
    SchoolMap(if k in m.at then m.keys else m.keys + [k], m.at[k := prev + Balance(t)])
  }

  function SchoolFold(tasks: seq<Row>): SchoolMap {
    if tasks == [] then SchoolMap([], map[])
    else SchoolAdd(SchoolFold(tasks[..|tasks| - 1]), tasks[|tasks| - 1])
  }

  lemma SchoolAddSummed(m: SchoolMap, tasks: seq<Row>, t: Row)
    requires SchoolSummed(m, tasks)
    ensures SchoolSummed(SchoolAdd(m, t), tasks + [t])
  {
    var m' := SchoolAdd(m, t);
    DedupSnoc(tasks, t, SchoolKey);
    assert m'.keys == Dedup(MapSeq(tasks + [t], SchoolKey));
    assert forall k :: k in m'.at <==> k in m'.keys;
    forall k | k in m'.at
      ensures m'.at[k] == GroupSum(tasks + [t], SchoolKey, k, Balance)
    {
      SchoolEntryStep(m, tasks, t, k);
    }
  }

  lemma SchoolEntryStep(m: SchoolMap, tasks: seq<Row>, t: Row, k: string)
    requires SchoolSummed(m, tasks) && k in SchoolAdd(m, t).at
    ensures SchoolAdd(m, t).at[k] == GroupSum(tasks + [t], SchoolKey, k, Balance)
  {
    GroupSumSnoc(tasks, t, SchoolKey, k, Balance);
    if k !in m.at {
      GroupSumFresh(tasks, SchoolKey, k, Balance);
    }
  }

  lemma {:induction false} SchoolFoldSummed(tasks: seq<Row>)
    ensures SchoolSummed(SchoolFold(tasks), tasks)
    decreases |tasks|
  {
    if tasks != [] {
      var s', t := tasks[..|tasks| - 1], tasks[|tasks| - 1];
      assert s' + [t] == tasks;
      assert SchoolFold(tasks) == SchoolAdd(SchoolFold(s'), t);
      SchoolFoldSummed(s');
      SchoolAddSummed(SchoolFold(s'), s', t);
    }
  }

  /** The `tasks.forEach` loop that fills `byEsc`. */
  method RollupSchools(tasks: seq<Row>) returns (byEsc: SchoolMap)
    ensures SchoolSummed(byEsc, tasks)
  {
    byEsc := SchoolMap([], map[]);
    for i := 0 to |tasks|
      invariant byEsc == SchoolFold(tasks[..i])
    {
      var t := tasks[i];
      assert tasks[..i + 1][..i] == tasks[..i];
      var k := if t.escola != "" then t.escola else NoValue;
      var s := t.contratual - t.medido;
      var prev := if k in byEsc.at then byEsc.at[k] else 0;
      byEsc := SchoolMap(if k in byEsc.at then byEsc.keys else byEsc.keys + [k], byEsc.at[k := prev + s]);
    }
    assert tasks[..|tasks|] == tasks;
    SchoolFoldSummed(tasks);
  }

  /** `Array.from(byEsc.entries())`: each school with its balance, in order
      of first appearance. */
  function SchoolEntries(tasks: seq<Row>): seq<(string, int)> {
    MapSeq(Dedup(MapSeq(tasks, SchoolKey)), (k: string) => (k, GroupSum(tasks, SchoolKey, k, Balance)))
  }

  /** `(a, b) => b[1] - a[1]` read as "`a` may come before `b`": larger
      balances first. */
  function BalanceDesc(a: (string, int), b: (string, int)): bool {
    b.1 <= a.1
  }

  lemma BalanceDescTotalPreorder()
    ensures TotalPreorder(BalanceDesc)
  {
  }

  /** `.sort(...).slice(0, 10)`. */
  function TopSchools(tasks: seq<Row>): seq<(string, int)> {
    Take(SortBy(BalanceDesc, SchoolEntries(tasks)), 10)
  }

  /** Each entry pairs a school with its summed balance. */
  lemma EntryValue(tasks: seq<Row>, e: (string, int))
    requires e in SchoolEntries(tasks)
    ensures e.1 == GroupSum(tasks, SchoolKey, e.0, Balance)
  {
  }

  /** Every entry not in a prefix of a list sorted by `BalanceDesc` has a
      balance no larger than any entry of the prefix. */
  lemma PrefixDominates(sorted: seq<(string, int)>, n: nat, e: (string, int))
    requires Sorted(BalanceDesc, sorted) && n <= |sorted| && e in sorted && e !in sorted[..n]
    ensures forall i :: 0 <= i < n ==> e.1 <= sorted[i].1
  {
    var j :| 0 <= j < |sorted| && sorted[j] == e;
  }

  /** At most ten schools are shown, fewer only when there are fewer
      distinct schools; they are ordered largest balance first, and each
      carries the summed balance of its tasks. */
  lemma TopSchoolsOrdered(tasks: seq<Row>)
    ensures var top := TopSchools(tasks);
            var n := |Dedup(MapSeq(tasks, SchoolKey))|;
            && |top| == (if n < 10 then n else 10)
            && (forall i, j :: 0 <= i < j < |top| ==> top[j].1 <= top[i].1)
            && (forall i :: 0 <= i < |top| ==> top[i].1 == GroupSum(tasks, SchoolKey, top[i].0, Balance))
  {
    var top := TopSchools(tasks);
    SchoolsSorted(tasks);
    forall i | 0 <= i < |top|
      ensures top[i].1 == GroupSum(tasks, SchoolKey, top[i].0, Balance)
    {
      TopSchoolIsEntry(tasks, top[i]);
      EntryValue(tasks, top[i]);
    }
  }

  /** The entries sorted by `BalanceDesc` are ordered largest first. */
  lemma SchoolsSorted(tasks: seq<Row>)
    ensures Sorted(BalanceDesc, SortBy(BalanceDesc, SchoolEntries(tasks)))
  {
    BalanceDescTotalPreorder();
    SortBySorted(BalanceDesc, SchoolEntries(tasks));
  }

  lemma TopSchoolIsEntry(tasks: seq<Row>, e: (string, int))
    requires e in TopSchools(tasks)
    ensures e in SchoolEntries(tasks)
  {
    var sorted := SortBy(BalanceDesc, SchoolEntries(tasks));
    assert e in sorted;
    assert e in multiset(sorted);
  }

  /** No school left out of the chart has a larger balance than a school
      shown. */
  lemma TopSchoolsDominate(tasks: seq<Row>, e: (string, int))
    requires e in SchoolEntries(tasks) && e !in TopSchools(tasks)
    ensures forall i :: 0 <= i < |TopSchools(tasks)| ==> e.1 <= TopSchools(tasks)[i].1
  {
    var sorted := SortBy(BalanceDesc, SchoolEntries(tasks));
    SchoolsSorted(tasks);
    TopIsPrefix(tasks);
    EntrySorted(tasks, e);
    PrefixDominates(sorted, |TopSchools(tasks)|, e);
  }

  lemma TopIsPrefix(tasks: seq<Row>)
    ensures var sorted := SortBy(BalanceDesc, SchoolEntries(tasks));
            |TopSchools(tasks)| <= |sorted| && TopSchools(tasks) == sorted[..|TopSchools(tasks)|]
  {
  }

  lemma EntrySorted(tasks: seq<Row>, e: (string, int))
    requires e in SchoolEntries(tasks)
    ensures e in SortBy(BalanceDesc, SchoolEntries(tasks))
  {
    assert e in multiset(SortBy(BalanceDesc, SchoolEntries(tasks)));
  }

  /** Schools with equal balances keep the order in which they first
      appeared (the sort is stable). */
  lemma TopSchoolsStable(tasks: seq<Row>, y: (string, int))
    ensures Filter(SortBy(BalanceDesc, SchoolEntries(tasks)), EquivTo(BalanceDesc, y))
         == Filter(SchoolEntries(tasks), EquivTo(BalanceDesc, y))
  {
    BalanceDescTotalPreorder();
    SortByStable(BalanceDesc, SchoolEntries(tasks), y);
  }

  // ---------------------------------------------------------------------------
  // the whole component

  datatype ChartData = ChartData(
    statusCounts: seq<nat>,
    totalContratual: int,
    totalMedido: int,
    saldo: int,
    catLabels: seq<string>,
    catContratual: seq<int>,
    catMedido: seq<int>,
    topSchools: seq<(string, int)>)

  /** What `DashboardCharts` draws for `data`. */
  function ChartsOf(data: seq<Row>, collate: (string, string) -> bool): ChartData {
    var tasks := Tasks(data);
    var labels := CatLabels(tasks, collate);
    ChartData(
      StatusCounts(tasks),
      SumOf(tasks, Contratual),
      SumOf(tasks, Medido),
      FinanceSaldo(tasks),
      labels,
      MapSeq(labels, CatContratual(tasks)),
      MapSeq(labels, CatMedido(tasks)),
      TopSchools(tasks))
  }

  /** `byCat.get(k)!.vc`. */
  function VcOf(m: CatMap, k: string): int {
    if k in m.at then m.at[k].vc else 0
  }

  function VmOf(m: CatMap, k: string): int {
    if k in m.at then m.at[k].vm else 0
  }

  function SaldoOf(m: SchoolMap, k: string): int {
    if k in m.at then m.at[k] else 0
  }

  /** The component body: the two loops, the copies sorted in place, and
      the pure reductions. */
  method ComputeCharts(data: seq<Row>, collate: (string, string) -> bool) returns (c: ChartData)
    ensures c == ChartsOf(data, collate)
  {
    var tasks := Tasks(data);
    var statusCounts := StatusCounts(tasks);
    var totalContratual := SumOf(tasks, Contratual);
    var totalMedido := SumOf(tasks, Medido);
    var saldo := FinanceSaldo(tasks);

    var byCat := RollupCategories(tasks);
    var catLabels := SortedCopy(byCat.keys, collate);
    var catContratual := MapSeq(catLabels, (k: string) => VcOf(byCat, k));
    var catMedido := MapSeq(catLabels, (k: string) => VmOf(byCat, k));
    CatValues(byCat, tasks, catLabels, collate);

    var byEsc := RollupSchools(tasks);
    var entries := MapSeq(byEsc.keys, (k: string) => (k, SaldoOf(byEsc, k)));
    assert entries == SchoolEntries(tasks);
    var sorted := SortedCopy(entries, BalanceDesc);
    var top := Take(sorted, 10);

    c := ChartData(statusCounts, totalContratual, totalMedido, saldo, catLabels, catContratual, catMedido, top);
  }

  lemma CatValues(byCat: CatMap, tasks: seq<Row>, labels: seq<string>, collate: (string, string) -> bool)
    requires CatSummed(byCat, tasks) && labels == SortBy(collate, byCat.keys)
    ensures labels == CatLabels(tasks, collate)
    ensures MapSeq(labels, (k: string) => VcOf(byCat, k)) == MapSeq(labels, CatContratual(tasks))
    ensures MapSeq(labels, (k: string) => VmOf(byCat, k)) == MapSeq(labels, CatMedido(tasks))
  {
    CatLabelsKnown(byCat, tasks, labels, collate);
    CatVcValues(byCat, tasks, labels);
    CatVmValues(byCat, tasks, labels);
  }

  lemma CatLabelsKnown(byCat: CatMap, tasks: seq<Row>, labels: seq<string>, collate: (string, string) -> bool)
    requires CatSummed(byCat, tasks) && labels == SortBy(collate, byCat.keys)
    ensures forall i :: 0 <= i < |labels| ==> labels[i] in byCat.at
  {
    forall i | 0 <= i < |labels| ensures labels[i] in byCat.at {
      assert labels[i] in multiset(byCat.keys);
    }
  }

  lemma CatVcValues(byCat: CatMap, tasks: seq<Row>, labels: seq<string>)
    requires CatSummed(byCat, tasks)
    requires forall i :: 0 <= i < |labels| ==> labels[i] in byCat.at
    ensures MapSeq(labels, (k: string) => VcOf(byCat, k)) == MapSeq(labels, CatContratual(tasks))
  {
    var a := MapSeq(labels, (k: string) => VcOf(byCat, k));
    var b := MapSeq(labels, CatContratual(tasks));
    forall i | 0 <= i < |labels| ensures a[i] == b[i] {
      assert byCat.at[labels[i]].vc == GroupSum(tasks, CatKey, labels[i], Contratual);
    }
  }

  lemma CatVmValues(byCat: CatMap, tasks: seq<Row>, labels: seq<string>)
    requires CatSummed(byCat, tasks)
    requires forall i :: 0 <= i < |labels| ==> labels[i] in byCat.at
    ensures MapSeq(labels, (k: string) => VmOf(byCat, k)) == MapSeq(labels, CatMedido(tasks))
  {
    var a := MapSeq(labels, (k: string) => VmOf(byCat, k));
    var b := MapSeq(labels, CatMedido(tasks));
    forall i | 0 <= i < |labels| ensures a[i] == b[i] {
      assert byCat.at[labels[i]].vm == GroupSum(tasks, CatKey, labels[i], Medido);
    }
  }


  /** Only tasks feed the charts: adding or removing rows of any other kind
      changes nothing. */
  lemma OnlyTasksCount(data: seq<Row>, collate: (string, string) -> bool)
    ensures ChartsOf(Tasks(data), collate) == ChartsOf(data, collate)
  {
    FilterIdempotent(data, IsTask);
  }
}
