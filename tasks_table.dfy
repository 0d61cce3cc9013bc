/** `TasksTable`: the list of tasks after the filters.

    The tasks are sorted in place by category, then school, then key, each
    compared with pt-BR `localeCompare` (the parameter `collate`, read as
    "`localeCompare <= 0`"); a comparison that returns 0 falls through to
    the next key (`c1 || c2 || c3`).  Each line shows the task's balance
    only when the task is concluded. */
module TasksTable {
  import opened Seqs
  import opened Sorting
  import opened Status
  import opened Helpers

  /** `localeCompare` returns 0: neither string goes before the other. */
  predicate Same(collate: (string, string) -> bool, x: string, y: string) {
    collate(x, y) && collate(y, x)
  }

  /** The comparator of `tasks.sort`, read as "`a` may come before `b`". */
  function ByCategorySchoolKey(collate: (string, string) -> bool): (Row, Row) -> bool {
    (a: Row, b: Row) =>
      if !Same(collate, a.categoria, b.categoria) then collate(a.categoria, b.categoria)
      else if !Same(collate, a.escola, b.escola) then collate(a.escola, b.escola)
      else collate(a.key, b.key)
  }

  /** The three-field comparison is transitive when `collate` is. */
  lemma LexTransitive(collate: (string, string) -> bool, a: Row, b: Row, c: Row)
    requires TotalPreorder(collate)
    requires ByCategorySchoolKey(collate)(a, b) && ByCategorySchoolKey(collate)(b, c)
    ensures ByCategorySchoolKey(collate)(a, c)
  {
    assert collate(a.categoria, b.categoria) && collate(b.categoria, c.categoria);
    assert collate(a.categoria, c.categoria);
    if Same(collate, a.categoria, c.categoria) {
      assert Same(collate, a.categoria, b.categoria) by {
        assert collate(b.categoria, c.categoria) && collate(c.categoria, a.categoria);
      }
      assert Same(collate, b.categoria, c.categoria) by {
        assert collate(c.categoria, a.categoria) && collate(a.categoria, b.categoria);
      }
      assert collate(a.escola, b.escola) && collate(b.escola, c.escola);
      assert collate(a.escola, c.escola);
      if Same(collate, a.escola, c.escola) {
        assert Same(collate, a.escola, b.escola) by {
          assert collate(b.escola, c.escola) && collate(c.escola, a.escola);
        }
        assert Same(collate, b.escola, c.escola) by {
          assert collate(c.escola, a.escola) && collate(a.escola, b.escola);
        }
        assert collate(a.key, b.key) && collate(b.key, c.key);
      }
    }
  }

  /** A total preorder on the strings gives one on the tasks. */
  lemma ByCategorySchoolKeyTotalPreorder(collate: (string, string) -> bool)
    requires TotalPreorder(collate)
    ensures TotalPreorder(ByCategorySchoolKey(collate))
  {
    var le := ByCategorySchoolKey(collate);
    forall a: Row, b: Row ensures le(a, b) || le(b, a) {
      assert collate(a.categoria, b.categoria) || collate(b.categoria, a.categoria);
      assert collate(a.escola, b.escola) || collate(b.escola, a.escola);
      assert collate(a.key, b.key) || collate(b.key, a.key);
    }
    forall a: Row, b: Row, c: Row | le(a, b) && le(b, c) ensures le(a, c) {
      LexTransitive(collate, a, b, c);
    }
  }

  datatype Line = Line(
    key: string,
    resumo: string,
    categoria: string,
    escola: string,
    statusNorm: string,
    contratual: int,
    medido: int,
    saldo: Option<int>)

  /** `t.categoria || "—"`, `t.escola || "—"`. */
  function OrDash(s: string): (r: string)
    ensures r != ""
    ensures s != "" ==> r == s
    ensures s == "" ==> r == "—"
  {
    if s != "" then s else "—"
  }

  /** A task's line.  The balance column is present exactly for concluded
      tasks, and then holds the contract minus what was measured (negative
      when more was measured than contracted). */
  function LineOf(t: Row): (l: Line)
    ensures l.saldo.Some? <==> IsDone(t)
    ensures l.saldo.Some? ==> l.saldo.value == Balance(t)
    ensures l.key == t.key && l.contratual == t.contratual && l.medido == t.medido
  {
    Line(t.key, t.resumo, OrDash(t.categoria), OrDash(t.escola), t.statusNorm,
         t.contratual, t.medido,
         if t.statusNorm == Done then Some(t.contratual - t.medido) else None)
  }

  /** The rendered table: the sorted tasks, one line each, and the count
      `Exibindo {tasks.length} tarefas`. */
  datatype Table = Table(lines: seq<Line>, count: nat)

  function SortedTasks(data: seq<Row>, collate: (string, string) -> bool): seq<Row> {
    SortBy(ByCategorySchoolKey(collate), Tasks(data))
  }

  function TableOf(data: seq<Row>, collate: (string, string) -> bool): Table {
    var tasks := SortedTasks(data, collate);
    Table(MapSeq(tasks, LineOf), |tasks|)
  }

  /** The component body: filter, sort the fresh array in place, render. */
  method RenderTasks(data: seq<Row>, collate: (string, string) -> bool) returns (table: Table)
    ensures table == TableOf(data, collate)
  {
    var tasks := Filter(data, IsTask);
    tasks := SortedCopy(tasks, ByCategorySchoolKey(collate));
    var lines := MapSeq(tasks, LineOf);
    table := Table(lines, |tasks|);
  }

  /** The table lists every task and nothing else, each exactly once, and
      its count is the number of tasks. */
  lemma TableIsPermutation(data: seq<Row>, collate: (string, string) -> bool)
    ensures multiset(SortedTasks(data, collate)) == multiset(Tasks(data))
    ensures TableOf(data, collate).count == |Tasks(data)| == |TableOf(data, collate).lines|
    ensures forall i :: 0 <= i < |SortedTasks(data, collate)| ==> IsTask(SortedTasks(data, collate)[i])
  {
    var s := SortedTasks(data, collate);
    forall i | 0 <= i < |s| ensures IsTask(s[i]) {
      assert s[i] in multiset(Tasks(data));
    }
  }

  /** The tasks are ordered by category; within equal categories by school;
      within equal category and school by key. */
  lemma TableOrder(data: seq<Row>, collate: (string, string) -> bool, i: int, j: int)
    requires TotalPreorder(collate)
    requires 0 <= i < j < |SortedTasks(data, collate)|
    ensures var s := SortedTasks(data, collate);
            && collate(s[i].categoria, s[j].categoria)
            && (Same(collate, s[i].categoria, s[j].categoria) ==> collate(s[i].escola, s[j].escola))
            && (Same(collate, s[i].categoria, s[j].categoria) && Same(collate, s[i].escola, s[j].escola)
                ==> collate(s[i].key, s[j].key))
  {
    ByCategorySchoolKeyTotalPreorder(collate);
    SortBySorted(ByCategorySchoolKey(collate), Tasks(data));
  }

  /** Tasks that compare equal on all three fields keep their order in the
      data (the sort is stable). */
  lemma TableStable(data: seq<Row>, collate: (string, string) -> bool, y: Row)
    requires TotalPreorder(collate)
    ensures Filter(SortedTasks(data, collate), EquivTo(ByCategorySchoolKey(collate), y))
         == Filter(Tasks(data), EquivTo(ByCategorySchoolKey(collate), y))
  {
    ByCategorySchoolKeyTotalPreorder(collate);
    SortByStable(ByCategorySchoolKey(collate), Tasks(data), y);
  }
}
