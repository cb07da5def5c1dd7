/**
 The three tabs the render step derives from the task list on every render:
 the "To Do" tasks, the "Done" tasks, and all of them. Each tab's label shows
 the length of its list.
 */
module Columns {
  import opened Tasks

  const ALL: string := "All"

  datatype Column = Column(title: string, items: seq<Task>)

  /** The column test: a task belongs when its status is exactly `status`. */
  function HasStatus(status: string): Task -> bool {
    (t: Task) => t.status == status
  }

  /** The tasks whose status is exactly `status`, in list order. */
  function WithStatus(items: seq<Task>, status: string): (r: seq<Task>)
    ensures forall t :: t in r <==> t in items && t.status == status
  {
    Filter(items, HasStatus(status))
  }

  /** The tab list of `render`: "To Do", "Done", "All", in that order. */
  function ColumnsOf(items: seq<Task>): (r: seq<Column>)
    ensures |r| == 3
    ensures r[0].title == TODO && r[1].title == DONE && r[2].title == ALL
    ensures forall t :: t in r[0].items <==> t in items && t.status == TODO
    ensures forall t :: t in r[1].items <==> t in items && t.status == DONE
    ensures r[2].items == items
  {
    [ Column(TODO, WithStatus(items, TODO)),
      Column(DONE, WithStatus(items, DONE)),
      Column(ALL, items) ]
  }

  /** The "To Do" and "Done" tab counts never exceed the "All" count, and add
      up to it when every status is one of the two labels. */
  lemma ColumnCounts(items: seq<Task>)
    ensures |ColumnsOf(items)[0].items| + |ColumnsOf(items)[1].items| <= |ColumnsOf(items)[2].items|
    ensures (forall t :: t in items ==> KnownStatus(t.status)) ==>
              |ColumnsOf(items)[0].items| + |ColumnsOf(items)[1].items| == |ColumnsOf(items)[2].items|
  {
    FilterCounts(items, HasStatus(TODO), HasStatus(DONE));
  }

  /** A column keeps the list's order: the column of a concatenation is the
      concatenation of the columns, and a column of a list ordered by id is
      itself ordered by id. */
  lemma ColumnKeepsOrder(a: seq<Task>, b: seq<Task>, status: string)
    ensures WithStatus(a + b, status) == WithStatus(a, status) + WithStatus(b, status)
    ensures StrictlyAscending(a) ==> StrictlyAscending(WithStatus(a, status))
  {
    FilterAppend(a, b, HasStatus(status));
    if StrictlyAscending(a) {
      FilterKeepsAscending(a, HasStatus(status));
    }
  }
}
