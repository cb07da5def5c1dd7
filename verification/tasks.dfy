/**
 The task records of the to-do list and the pure list operations its handlers
 are built from: the status flip, the per-id map and filter, and the
 `sort(sortBy('id'))` that add, toggle, rename and remove apply to their result.
 */
module Tasks {

  /** The two status labels the app itself writes. A task loaded from local
      storage may carry any string, so the status is not an enumeration. */
  const TODO: string := "To Do"
  const DONE: string := "Done"

  datatype Task = Task(id: int, title: string, status: string)

  /** A status the app writes: one of the two labels. */
  predicate KnownStatus(status: string) {
    status == TODO || status == DONE
  }

  /** The status a toggle writes, computed from the status it is handed:
      "Done" exactly when that status is "To Do", and "To Do" for anything else. */
  function Flip(status: string): (r: string)
    ensures KnownStatus(r)
    ensures r == DONE <==> status == TODO
  {
    if status == TODO then DONE else TODO
  }

  /** On the two known labels, flipping twice gives the label back. */
  lemma FlipInvolutive(status: string)
    requires KnownStatus(status)
    ensures Flip(Flip(status)) == status
  {
  }

  /** Off the two known labels, flipping twice does not give the label back. */
  lemma FlipNotInvolutiveOffLabels(status: string)
    requires !KnownStatus(status)
    ensures Flip(Flip(status)) != status
  {
  }

  // ---------------------------------------------------------------------------
  // Orderings of a task list by id

  /** Ordered by id, ties allowed: what any by-id sort produces. */
  predicate SortedById(xs: seq<Task>) {
    forall i, j :: 0 <= i < j < |xs| ==> xs[i].id <= xs[j].id
  }

  /** Ordered by id with no two tasks sharing an id. */
  predicate StrictlyAscending(xs: seq<Task>) {
    forall i, j :: 0 <= i < j < |xs| ==> xs[i].id < xs[j].id
  }

  /** Every id in the list was issued by a counter that has reached `bound`. */
  predicate IdsAtMost(xs: seq<Task>, bound: int) {
    forall t :: t in xs ==> t.id <= bound
  }

  /** No id in the list is below `bound`. */
  predicate IdsAtLeast(xs: seq<Task>, bound: int) {
    forall t :: t in xs ==> bound <= t.id
  }

  /** The store invariant: ids strictly increasing and none above the counter. */
  predicate Valid(xs: seq<Task>, counter: int) {
    StrictlyAscending(xs) && IdsAtMost(xs, counter)
  }

  /** Appending a task with the next id keeps the invariant, with the counter
      advanced to that id. */
  lemma AppendFreshKeepsValid(xs: seq<Task>, counter: int, t: Task)
    requires Valid(xs, counter)
    requires t.id == counter + 1
    ensures Valid(xs + [t], counter + 1)
  {
    var ys := xs + [t];
    forall i, j | 0 <= i < j < |ys|
      ensures ys[i].id < ys[j].id
    {
      if j == |xs| {
        assert ys[i] == xs[i] && xs[i] in xs;
      } else {
        assert ys[i] == xs[i] && ys[j] == xs[j];
      }
    }
  }

  /** Some task in the list carries `id`. */
  predicate HasId(xs: seq<Task>, id: int) {
    exists t :: t in xs && t.id == id
  }

  /** The list's ids, in order. */
  function IdsOf(xs: seq<Task>): (r: seq<int>)
    ensures |r| == |xs|
    ensures forall i :: 0 <= i < |xs| ==> r[i] == xs[i].id
  {
    seq(|xs|, i requires 0 <= i < |xs| => xs[i].id)
  }

  // ---------------------------------------------------------------------------
  // The by-id sort

  /** Places `t` before the first task whose id is not smaller, so that among
      equal ids the earlier task stays first. */
  function Insert(t: Task, xs: seq<Task>): (r: seq<Task>)
    requires SortedById(xs)
    ensures SortedById(r)
    ensures multiset(r) == multiset(xs) + multiset{t}
  {
    if xs == [] || t.id <= xs[0].id then
      [t] + xs
    else
      var rest := Insert(t, xs[1..]);
      InsertBehindHead(t, xs, rest);
      [xs[0]] + rest
  }

  /** The step of `Insert` that passes the head: the head may stay in front of
      any sorted arrangement of the tail with `t` added. */
  lemma InsertBehindHead(t: Task, xs: seq<Task>, rest: seq<Task>)
    requires SortedById(xs) && xs != [] && xs[0].id < t.id
    requires SortedById(rest)
    requires multiset(rest) == multiset(xs[1..]) + multiset{t}
    ensures SortedById([xs[0]] + rest)
    ensures multiset([xs[0]] + rest) == multiset(xs) + multiset{t}
  {
    assert xs == [xs[0]] + xs[1..];
    forall u | u in rest
      ensures xs[0].id <= u.id
    {
      assert u in multiset(rest);
      if u != t {
        assert u in multiset(xs[1..]);
        var k :| 0 <= k < |xs[1..]| && xs[1..][k] == u;
        assert xs[k + 1] == u;
      }
    }
    var r := [xs[0]] + rest;
    forall i, j | 0 <= i < j < |r|
      ensures r[i].id <= r[j].id
    {
      assert r[j] == rest[j - 1];
      if i == 0 {
        assert r[j] in rest;
      } else {
        assert r[i] == rest[i - 1];
      }
    }
  }

  /** A stable sort by id. It stands for `items.sort(sortBy('id'))`: the
      handlers rely only on its contract, a permutation sorted by id. */
  function SortById(xs: seq<Task>): (r: seq<Task>)
    ensures SortedById(r)
    ensures multiset(r) == multiset(xs)
  {
    if xs == [] then
      []
    else
      assert xs == [xs[0]] + xs[1..];
      Insert(xs[0], SortById(xs[1..]))
  }

  /** A permutation has the same members. */
  lemma SameMembers(xs: seq<Task>, ys: seq<Task>)
    requires multiset(xs) == multiset(ys)
    ensures forall t :: t in xs <==> t in ys
  {
    forall t
      ensures t in xs <==> t in ys
    {
      assert t in xs <==> t in multiset(xs);
      assert t in ys <==> t in multiset(ys);
    }
  }

  /** Whatever algorithm sorts it, a list whose ids strictly increase has only
      one ordering sorted by id: itself. */
  lemma {:induction false} SortedPermutationUnique(xs: seq<Task>, ys: seq<Task>)
    requires StrictlyAscending(xs)
    requires SortedById(ys)
    requires multiset(ys) == multiset(xs)
    ensures ys == xs
  {
    if xs == [] {
      assert |ys| == |multiset(ys)| == 0;
    } else {
      SortedPermutationHead(xs, ys);
      assert xs == [xs[0]] + xs[1..];
      assert ys == [ys[0]] + ys[1..];
      assert multiset(ys[1..]) == multiset(ys) - multiset{xs[0]};
      assert multiset(xs[1..]) == multiset(xs) - multiset{xs[0]};
      SortedPermutationUnique(xs[1..], ys[1..]);
    }
  }

  /** The first step of the uniqueness proof: both lists start with the task
      of least id. */
  lemma SortedPermutationHead(xs: seq<Task>, ys: seq<Task>)
    requires StrictlyAscending(xs) && xs != []
    requires SortedById(ys)
    requires multiset(ys) == multiset(xs)
    ensures ys != [] && ys[0] == xs[0]
  {
    assert |ys| == |multiset(ys)| == |multiset(xs)| == |xs|;
    assert xs[0] in multiset(ys);
    var j :| 0 <= j < |ys| && ys[j] == xs[0];
    assert ys[0] in multiset(xs);
    var k :| 0 <= k < |xs| && xs[k] == ys[0];
    assert ys[0].id <= ys[j].id;
    assert k == 0;
  }

  /** The `sort(sortBy('id'))` a handler applies to its result: a permutation
      sorted by id, which leaves a list whose ids strictly increase as it is. */
  function Resort(xs: seq<Task>): (r: seq<Task>)
    ensures |r| == |xs|
    ensures SortedById(r)
    ensures multiset(r) == multiset(xs)
    ensures StrictlyAscending(xs) ==> r == xs
  {
    var r := SortById(xs);
    assert |r| == |multiset(r)| == |multiset(xs)| == |xs|;
    if StrictlyAscending(xs) then
      SortedPermutationUnique(xs, r);
      r
    else
      r
  }

  // ---------------------------------------------------------------------------
  // Filter, as `Array.prototype.filter`

  function Filter(xs: seq<Task>, keep: Task -> bool): (r: seq<Task>)
    ensures |r| <= |xs|
    ensures forall t :: t in r <==> t in xs && keep(t)
  {
    if xs == [] then
      []
    else
      assert xs == [xs[0]] + xs[1..];
      if keep(xs[0]) then [xs[0]] + Filter(xs[1..], keep) else Filter(xs[1..], keep)
  }

  /** Filtering keeps the original order: it distributes over concatenation. */
  lemma {:induction false} FilterAppend(a: seq<Task>, b: seq<Task>, keep: Task -> bool)
    ensures Filter(a + b, keep) == Filter(a, keep) + Filter(b, keep)
  {
    if a == [] {
      assert a + b == b;
    } else {
      assert (a + b)[1..] == a[1..] + b;
      FilterAppend(a[1..], b, keep);
    }
  }

  /** A filter that drops nothing returns the list unchanged. */
  lemma {:induction false} FilterKeepsAll(xs: seq<Task>, keep: Task -> bool)
    requires forall t :: t in xs ==> keep(t)
    ensures Filter(xs, keep) == xs
  {
    if xs != [] {
      assert xs == [xs[0]] + xs[1..];
      FilterKeepsAll(xs[1..], keep);
    }
  }

  /** A filter of a strictly ascending list is strictly ascending. */
  lemma {:induction false} FilterKeepsAscending(xs: seq<Task>, keep: Task -> bool)
    requires StrictlyAscending(xs)
    ensures StrictlyAscending(Filter(xs, keep))
  {
    if xs != [] {
      var tail := xs[1..];
      FilterKeepsAscending(tail, keep);
      if keep(xs[0]) {
        forall u | u in tail
          ensures xs[0].id < u.id
        {
          var k :| 0 <= k < |tail| && tail[k] == u;
          assert xs[k + 1] == u;
        }
        PrependKeepsAscending(xs[0], Filter(tail, keep));
      }
    }
  }

  /** A task whose id is below every id of a strictly ascending list may go
      in front of it. */
  lemma PrependKeepsAscending(t: Task, xs: seq<Task>)
    requires StrictlyAscending(xs)
    requires forall u :: u in xs ==> t.id < u.id
    ensures StrictlyAscending([t] + xs)
  {
    var r := [t] + xs;
    forall i, j | 0 <= i < j < |r|
      ensures r[i].id < r[j].id
    {
      assert r[j] == xs[j - 1];
      if 0 < i {
        assert r[i] == xs[i - 1];
      }
    }
  }

  /** Two filters that never both keep a task select at most the whole list
      between them, and exactly the whole list when every task is kept by one. */
  lemma {:induction false} FilterCounts(xs: seq<Task>, p: Task -> bool, q: Task -> bool)
    requires forall t :: t in xs ==> !(p(t) && q(t))
    ensures |Filter(xs, p)| + |Filter(xs, q)| <= |xs|
    ensures (forall t :: t in xs ==> p(t) || q(t)) ==> |Filter(xs, p)| + |Filter(xs, q)| == |xs|
  {
    if xs != [] {
      assert xs == [xs[0]] + xs[1..];
      assert forall t :: t in xs[1..] ==> t in xs;
      FilterCounts(xs[1..], p, q);
    }
  }

  // ---------------------------------------------------------------------------
  // The per-id updates of the handlers

  /** The `items.map` of a status toggle: every task whose id is `task.id`
      gets the flip of `task.status` (the argument's status, not its own). */
  function SetStatus(items: seq<Task>, task: Task): (r: seq<Task>)
    ensures |r| == |items|
    ensures forall i :: 0 <= i < |items| ==> r[i].id == items[i].id && r[i].title == items[i].title
    ensures forall i :: 0 <= i < |items| && items[i].id != task.id ==> r[i] == items[i]
    ensures forall i :: 0 <= i < |items| && items[i].id == task.id ==> r[i].status == Flip(task.status)
  {
    seq(|items|, i requires 0 <= i < |items| =>
      if items[i].id == task.id then items[i].(status := Flip(task.status)) else items[i])
  }

  /** The `items.map` of a rename: every task whose id is `id` gets `title`. */
  function SetTitle(items: seq<Task>, id: int, title: string): (r: seq<Task>)
    ensures |r| == |items|
    ensures forall i :: 0 <= i < |items| ==> r[i].id == items[i].id && r[i].status == items[i].status
    ensures forall i :: 0 <= i < |items| && items[i].id != id ==> r[i] == items[i]
    ensures forall i :: 0 <= i < |items| && items[i].id == id ==> r[i].title == title
  {
    seq(|items|, i requires 0 <= i < |items| =>
      if items[i].id == id then items[i].(title := title) else items[i])
  }

  /** The removal test: a task survives unless it carries `id`. */
  function OtherId(id: int): Task -> bool {
    (t: Task) => t.id != id
  }

  /** The `items.filter` of a removal: the tasks whose id is not `id`. */
  function Without(items: seq<Task>, id: int): (r: seq<Task>)
    ensures forall t :: t in r <==> t in items && t.id != id
    ensures !HasId(r, id)
  {
    Filter(items, OtherId(id))
  }

  /** Two lists with the same ids at the same places are ordered alike. */
  lemma SameIdsKeepValid(xs: seq<Task>, ys: seq<Task>, counter: int)
    requires Valid(xs, counter)
    requires IdsOf(ys) == IdsOf(xs)
    ensures Valid(ys, counter)
  {
    assert |ys| == |IdsOf(ys)| == |xs|;
    forall t | t in ys
      ensures t.id <= counter
    {
      var k :| 0 <= k < |ys| && ys[k] == t;
      assert IdsOf(ys)[k] == IdsOf(xs)[k];
      assert xs[k] in xs;
    }
    forall i, j | 0 <= i < j < |ys|
      ensures ys[i].id < ys[j].id
    {
      assert IdsOf(ys)[i] == IdsOf(xs)[i] && IdsOf(ys)[j] == IdsOf(xs)[j];
    }
  }

  /** A lower bound on the ids carries over to a list with the same ids in the
      same places. */
  lemma SameIdsKeepLowerBound(xs: seq<Task>, ys: seq<Task>, bound: int)
    requires IdsAtLeast(xs, bound)
    requires IdsOf(ys) == IdsOf(xs)
    ensures IdsAtLeast(ys, bound)
  {
    assert |ys| == |IdsOf(ys)| == |xs|;
    forall t | t in ys
      ensures bound <= t.id
    {
      var k :| 0 <= k < |ys| && ys[k] == t;
      assert IdsOf(ys)[k] == IdsOf(xs)[k];
      assert xs[k] in xs;
    }
  }

  /** Toggling twice with the same task argument is toggling once: the status
      written comes from the argument, so the second toggle writes it again
      rather than flipping back. */
  lemma ToggleSameTaskIdempotent(items: seq<Task>, task: Task)
    ensures SetStatus(SetStatus(items, task), task) == SetStatus(items, task)
  {
    var once := SetStatus(items, task);
    var twice := SetStatus(once, task);
    forall i | 0 <= i < |items|
      ensures twice[i] == once[i]
    {
      if items[i].id == task.id {
        assert twice[i] == once[i].(status := Flip(task.status));
      }
    }
  }

  /** Toggling a task and then toggling the task as it now reads gives back the
      original list, provided the task is in the list, ids are unique and its
      status is one of the two labels. */
  lemma ToggleTwiceRestores(items: seq<Task>, task: Task)
    requires StrictlyAscending(items)
    requires task in items
    requires KnownStatus(task.status)
    ensures SetStatus(SetStatus(items, task), task.(status := Flip(task.status))) == items
  {
    var once := SetStatus(items, task);
    var twice := SetStatus(once, task.(status := Flip(task.status)));
    FlipInvolutive(task.status);
    var k :| 0 <= k < |items| && items[k] == task;
    forall i | 0 <= i < |items|
      ensures twice[i] == items[i]
    {
      if items[i].id == task.id {
        assert i == k;
      }
    }
  }

  /** A removal of an absent id is a no-op. */
  lemma RemoveAbsentIsNoOp(items: seq<Task>, id: int)
    requires !HasId(items, id)
    ensures Without(items, id) == items
  {
    FilterKeepsAll(items, OtherId(id));
  }

  /** With unique ids, removing a task that is present removes exactly that
      task and keeps the others in order around it. */
  lemma RemovePresentDropsOne(items: seq<Task>, k: int)
    requires StrictlyAscending(items)
    requires 0 <= k < |items|
    ensures Without(items, items[k].id) == items[..k] + items[k + 1..]
    ensures |Without(items, items[k].id)| == |items| - 1
  {
    var keep := OtherId(items[k].id);
    var before, after := items[..k], items[k + 1..];
    assert items == before + ([items[k]] + after);
    OthersHaveOtherIds(items, k);
    FilterKeepsAll(before, keep);
    FilterKeepsAll(after, keep);
    assert Filter([items[k]], keep) == [];
    FilterAppend([items[k]], after, keep);
    FilterAppend(before, [items[k]] + after, keep);
  }

  /** With unique ids, the tasks before and after position `k` carry ids
      other than the one at `k`. */
  lemma OthersHaveOtherIds(items: seq<Task>, k: int)
    requires StrictlyAscending(items)
    requires 0 <= k < |items|
    ensures forall t :: t in items[..k] ==> t.id != items[k].id
    ensures forall t :: t in items[k + 1..] ==> t.id != items[k].id
  {
    forall t | t in items[..k]
      ensures t.id < items[k].id
    {
      var i :| 0 <= i < k && items[..k][i] == t;
      assert items[i] == t;
    }
    forall t | t in items[k + 1..]
      ensures items[k].id < t.id
    {
      var i :| 0 <= i < |items| - k - 1 && items[k + 1..][i] == t;
      assert items[k + 1 + i] == t;
    }
  }
}
