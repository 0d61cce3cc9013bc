/** The four KPI cards: contractual and measured totals over the tasks, the
    balance of the concluded tasks, and the measured share of the contract. */
module Kpi {
  import opened Seqs
  import opened Status
  import opened Helpers

  datatype Kpis = Kpis(
    taskCount: nat,
    totalContratual: int,
    totalMedido: int,
    concludedCount: nat,
    saldoConcluidas: int,
    pct: real)

  /** `totalMedido / totalContratual * 100`, or 0 for a contract total that
      is not positive. */
  function MeasuredPct(totalContratual: int, totalMedido: int): (pct: real)
    ensures totalContratual <= 0 ==> pct == 0.0
    ensures totalContratual > 0 ==> pct * totalContratual as real == 100.0 * totalMedido as real
  {
    if totalContratual > 0 then (totalMedido as real / totalContratual as real) * 100.0 else 0.0
  }

  function Concluded(rows: seq<Row>): seq<Row> {
    Filter(Tasks(rows), IsDone)
  }

  /** `KPIContainer`'s figures for the filtered rows. */
  function ComputeKpis(rows: seq<Row>): (k: Kpis)
    ensures k.concludedCount <= k.taskCount <= |rows|
    ensures k.totalContratual <= 0 ==> k.pct == 0.0
  {
    var tasks := Tasks(rows);
    var done := Concluded(rows);
    var totalContratual := SumOf(tasks, Contratual);
    var totalMedido := SumOf(tasks, Medido);
    Kpis(
      taskCount := |tasks|,
      totalContratual := totalContratual,
      totalMedido := totalMedido,
      concludedCount := |done|,
      saldoConcluidas := SumOf(done, Balance),
      pct := MeasuredPct(totalContratual, totalMedido))
  }

  /** Only tasks count: a row that is not a task, inserted anywhere, changes
      no KPI. */
  lemma NonTaskIgnored(before: seq<Row>, x: Row, after: seq<Row>)
    requires !IsTask(x)
    ensures ComputeKpis(before + [x] + after) == ComputeKpis(before + after)
  {
    FilterAppend(before + [x], after, IsTask);
    FilterAppend(before, [x], IsTask);
    FilterAppend(before, after, IsTask);
    assert Filter([x], IsTask) == [] by {
      assert [x][..0] == [];
    }
    assert Filter(before, IsTask) + [] == Filter(before, IsTask);
  }

  /** The balance adds (contractual - measured) over the concluded tasks only:
      it is the sum over all tasks of the balance of those that are done. */
  lemma SaldoOnlyConcluded(rows: seq<Row>)
    ensures ComputeKpis(rows).saldoConcluidas == SumWhere(Tasks(rows), IsDone, Balance)
  {
    SumWhereIsSumOfFilter(Tasks(rows), IsDone, Balance);
  }

  /** When every task is concluded the balance is the contractual total minus
      the measured total. */
  lemma AllConcludedSaldo(rows: seq<Row>)
    requires forall i :: 0 <= i < |rows| && IsTask(rows[i]) ==> IsDone(rows[i])
    ensures var k := ComputeKpis(rows);
            k.saldoConcluidas == k.totalContratual - k.totalMedido
  {
    var tasks := Tasks(rows);
    forall x | x in tasks ensures IsDone(x) {
      var i :| 0 <= i < |rows| && rows[i] == x;
    }
    FilterKeepsAll(tasks, IsDone);
    SumBalance(tasks);
  }

  /** The balance may be negative: one concluded task measured above its
      contract gives a negative balance. */
  lemma SaldoMayBeNegative(x: Row)
    requires IsTask(x) && IsDone(x) && x.medido > x.contratual
    ensures ComputeKpis([x]).saldoConcluidas < 0
  {
    assert [] + [x] == [x];
    FilterSnoc([], x, IsTask);
    FilterSnoc([], x, IsDone);
    SumOfSnoc([], x, Balance);
  }

  /** Two tasks: A (1000.00 contracted, 500.00 measured, concluded) and
      B (2000.00 contracted, nothing measured, pending). */
  lemma TwoTaskScenario(a: Row, b: Row)
    requires a.tipo == Task && a.statusNorm == Done && a.contratual == 100000 && a.medido == 50000
    requires b.tipo == Task && b.statusNorm == Pending && b.contratual == 200000 && b.medido == 0
    ensures var k := ComputeKpis([a, b]);
            && k.totalContratual == 300000
            && k.totalMedido == 50000
            && k.saldoConcluidas == 50000
            && k.taskCount == 2 && k.concludedCount == 1
            && k.pct * 3.0 == 50.0
  {
    var rows := [a, b];
    assert [] + [a] == [a] && [a] + [b] == rows;
    FilterSnoc([], a, IsTask);
    FilterSnoc([a], b, IsTask);
    assert Tasks(rows) == rows;
    assert !IsDone(b) by {
      assert |Pending| != |Done|;
    }
    FilterSnoc([], a, IsDone);
    FilterSnoc([a], b, IsDone);
    assert Concluded(rows) == [a];
    SumOfSnoc([], a, Contratual);
    SumOfSnoc([a], b, Contratual);
    SumOfSnoc([], a, Medido);
    SumOfSnoc([a], b, Medido);
    SumOfSnoc([], a, Balance);
  }
}
