/** The task records of the to-do list and the list operations of the `TodoApp` component:
    deleting, toggling, marking all done, clearing completed tasks, rewriting an edited task,
    looking a task up, the filtered and searched view, and the three counts of the chart. */
module TaskList {
  import opened Seqs
  import opened Text

  datatype Option<T> = None | Some(value: T)

  /** One stored record `{id, name, completed, dueDate}`. The due date is absent only in
      records that did not come from this component (for example, edited storage). */
  datatype Task = Task(id: int, name: string, completed: bool, dueDate: Option<string>)

  /** The three filter buttons. */
  datatype FilterMode = All | Active | Completed

  /** The chart rows 'Active', 'Completed' and 'Total'. */
  datatype TaskCounts = TaskCounts(active: nat, completed: nat, total: nat)

  predicate IsActive(t: Task) { !t.completed }

  predicate IsCompleted(t: Task) { t.completed }

  /** Some task in the list carries `id`. */
  predicate HasId(tasks: seq<Task>, id: int)
  {
    exists i :: 0 <= i < |tasks| && tasks[i].id == id
  }

  /** No two tasks of the list share an id. */
  predicate UniqueIds(tasks: seq<Task>)
  {
    forall i, j :: 0 <= i < |tasks| && 0 <= j < |tasks| && i != j ==> tasks[i].id != tasks[j].id
  }

  /** Two lists hold the same tasks, position by position, except possibly for the flags. */
  predicate SameExceptFlags(a: seq<Task>, b: seq<Task>)
  {
    |a| == |b|
    && forall i :: 0 <= i < |a| ==> a[i].id == b[i].id && a[i].name == b[i].name && a[i].dueDate == b[i].dueDate
  }

  // ---------------------------------------------------------------------------------------
  // Single-task and bulk changes

  /** `deleteTask(id)`: `tasks.filter(item => item.id !== id)`. */
  function Delete(tasks: seq<Task>, id: int): (r: seq<Task>)
    ensures IsSubseq(r, tasks)
    ensures forall i :: 0 <= i < |r| ==> r[i] in tasks && r[i].id != id
    ensures forall i :: 0 <= i < |tasks| && tasks[i].id != id ==> tasks[i] in r
    ensures !HasId(r, id)
    ensures !HasId(tasks, id) ==> r == tasks
    ensures HasId(tasks, id) ==> |r| < |tasks|
    ensures forall t :: multiset(r)[t] == if t.id != id then multiset(tasks)[t] else 0
  {
    var keep := (t: Task) => t.id != id;
    FilterCount(tasks, keep);
    if !HasId(tasks, id) then
      FilterKeepsAll(tasks, keep);
      Filter(tasks, keep)
    else
      var k :| 0 <= k < |tasks| && tasks[k].id == id;
      FilterPartition(tasks, keep, (t: Task) => t.id == id);
      assert tasks[k] in Filter(tasks, (t: Task) => t.id == id);
      Filter(tasks, keep)
  }

  /** `toggleComplete(id)`: flips `completed` on the tasks with that id and on no other. */
  function Toggle(tasks: seq<Task>, id: int): (r: seq<Task>)
    ensures SameExceptFlags(r, tasks)
    ensures forall i :: 0 <= i < |r| ==> (r[i].completed != tasks[i].completed <==> tasks[i].id == id)
    ensures !HasId(tasks, id) ==> r == tasks
  {
    seq(|tasks|, i requires 0 <= i < |tasks| =>
      if tasks[i].id == id then tasks[i].(completed := !tasks[i].completed) else tasks[i])
  }

  /** `markAllDone()`: every task becomes completed, nothing else changes. */
  function MarkAll(tasks: seq<Task>): (r: seq<Task>)
    ensures SameExceptFlags(r, tasks)
    ensures forall i :: 0 <= i < |r| ==> r[i].completed
  {
    seq(|tasks|, i requires 0 <= i < |tasks| => tasks[i].(completed := true))
  }

  /** `clearCompleted()`: exactly the not-completed tasks, in their order and with their
      multiplicities; as many as the 'Active' count. */
  function ClearCompleted(tasks: seq<Task>): (r: seq<Task>)
    ensures IsSubseq(r, tasks)
    ensures forall i :: 0 <= i < |r| ==> r[i] in tasks && !r[i].completed
    ensures forall i :: 0 <= i < |tasks| && !tasks[i].completed ==> tasks[i] in r
    ensures |r| == Stats(tasks).active
    ensures forall t :: multiset(r)[t] == if !t.completed then multiset(tasks)[t] else 0
  {
    FilterCount(tasks, IsActive);
    Filter(tasks, IsActive)
  }

  /** The update branch of `addOrUpdate`: tasks whose id is `editId` take the draft name and
      due date and keep their id and flag; every other task is left alone. */
  function Rename(tasks: seq<Task>, editId: int, name: string, due: string): (r: seq<Task>)
    ensures |r| == |tasks|
    ensures forall i :: 0 <= i < |r| ==> r[i].id == tasks[i].id && r[i].completed == tasks[i].completed
    ensures forall i :: 0 <= i < |r| && tasks[i].id == editId ==> r[i].name == name && r[i].dueDate == Some(due)
    ensures forall i :: 0 <= i < |r| && tasks[i].id != editId ==> r[i] == tasks[i]
    ensures !HasId(tasks, editId) ==> r == tasks
  {
    seq(|tasks|, i requires 0 <= i < |tasks| =>
      if tasks[i].id == editId then tasks[i].(name := name, dueDate := Some(due)) else tasks[i])
  }

  /** `tasks.find(item => item.id === id)`: the first task with that id, if any. */
  function Find(tasks: seq<Task>, id: int): (r: Option<Task>)
    ensures r.None? <==> !HasId(tasks, id)
    ensures r.Some? ==> exists k :: FirstWithId(tasks, id, k) && r.value == tasks[k]
  {
    if tasks == [] then None
    else if tasks[0].id == id then
      assert FirstWithId(tasks, id, 0);
      Some(tasks[0])
    else
      var r := Find(tasks[1..], id);
      if r.Some? then
        var k :| FirstWithId(tasks[1..], id, k) && r.value == tasks[1..][k];
        assert FirstWithId(tasks, id, k + 1);
        r
      else
        assert !HasId(tasks, id) by {
          forall i | 0 <= i < |tasks| ensures tasks[i].id != id {
            if i > 0 { assert tasks[i] == tasks[1..][i - 1]; }
          }
        }
        r
  }

  /** Index `k` holds the first task of the list whose id is `id`. */
  predicate FirstWithId(tasks: seq<Task>, id: int, k: int)
  {
    0 <= k < |tasks| && tasks[k].id == id && forall j :: 0 <= j < k ==> tasks[j].id != id
  }

  // ---------------------------------------------------------------------------------------
  // Derived views

  /** Any filter value other than "active" or "completed" shows every task. */
  function ParseFilter(filter: string): (m: FilterMode)
    ensures m == Active <==> filter == "active"
    ensures m == Completed <==> filter == "completed"
  {
    if filter == "active" then Active
    else if filter == "completed" then Completed
    else All
  }

  /** The first filter of the view. */
  predicate Shown(mode: FilterMode, t: Task)
  {
    match mode
    case Active => !t.completed
    case Completed => t.completed
    case All => true
  }

  /** The second filter of the view: case-insensitive substring match on the name. */
  predicate NameMatches(t: Task, search: string)
  {
    Includes(ToLower(t.name), ToLower(search))
  }

  /** `filteredTasks`: an in-order sublist of the tasks holding exactly those that the mode
      shows and whose name matches the search text. */
  function Visible(tasks: seq<Task>, mode: FilterMode, search: string): (r: seq<Task>)
    ensures IsSubseq(r, tasks)
    ensures forall i :: 0 <= i < |r| ==> r[i] in tasks && Shown(mode, r[i]) && NameMatches(r[i], search)
    ensures forall i :: 0 <= i < |tasks| && Shown(mode, tasks[i]) && NameMatches(tasks[i], search) ==> tasks[i] in r
    ensures forall t :: multiset(r)[t] == if Shown(mode, t) && NameMatches(t, search) then multiset(tasks)[t] else 0
  {
    var byMode := Filter(tasks, (t: Task) => Shown(mode, t));
    var r := Filter(byMode, (t: Task) => NameMatches(t, search));
    SubseqTransitive(r, byMode, tasks);
    FilterCount(tasks, (t: Task) => Shown(mode, t));
    FilterCount(byMode, (t: Task) => NameMatches(t, search));
    r
  }

  /** `taskStats`: the 'Active', 'Completed' and 'Total' counts. Every task is either active
      or completed, so the first two add up to the third. */
  function Stats(tasks: seq<Task>): (r: TaskCounts)
    ensures r.total == |tasks|
    ensures r.active + r.completed == r.total
  {
    FilterPartition(tasks, IsActive, IsCompleted);
    TaskCounts(|Filter(tasks, IsActive)|, |Filter(tasks, IsCompleted)|, |tasks|)
  }

  // ---------------------------------------------------------------------------------------
  // Properties relating several operations

  /** Toggling the same id twice restores the list. */
  lemma ToggleTwice(tasks: seq<Task>, id: int)
    ensures Toggle(Toggle(tasks, id), id) == tasks
  {
    var r := Toggle(Toggle(tasks, id), id);
    assert forall i :: 0 <= i < |tasks| ==> r[i] == tasks[i];
  }

  /** Marking all done twice is marking all done once. */
  lemma MarkAllIdempotent(tasks: seq<Task>)
    ensures MarkAll(MarkAll(tasks)) == MarkAll(tasks)
  {
  }

  /** After marking all done there is no active task, and all tasks count as completed. */
  lemma MarkAllStats(tasks: seq<Task>)
    ensures Stats(MarkAll(tasks)).active == 0
    ensures Stats(MarkAll(tasks)).completed == Stats(MarkAll(tasks)).total == |tasks|
  {
    var m := MarkAll(tasks);
    FilterKeepsNone(m, IsActive);
  }

  /** Clearing completed tasks twice is clearing them once. */
  lemma ClearCompletedIdempotent(tasks: seq<Task>)
    ensures ClearCompleted(ClearCompleted(tasks)) == ClearCompleted(tasks)
  {
    FilterIdempotent(tasks, IsActive);
  }

  /** After clearing completed tasks the 'Completed' count is zero and every remaining task
      is active. */
  lemma ClearCompletedStats(tasks: seq<Task>)
    ensures Stats(ClearCompleted(tasks)).completed == 0
    ensures Stats(ClearCompleted(tasks)).active == Stats(ClearCompleted(tasks)).total
  {
    FilterKeepsNone(ClearCompleted(tasks), IsCompleted);
  }

  /** With no search text, "all" shows every task, and "active" and "completed" show the
      not-completed and the completed tasks, in order, which together account for every task. */
  lemma VisibleEmptySearch(tasks: seq<Task>)
    ensures Visible(tasks, All, "") == tasks
    ensures Visible(tasks, Active, "") == Filter(tasks, IsActive)
    ensures Visible(tasks, Completed, "") == Filter(tasks, IsCompleted)
    ensures |Visible(tasks, Active, "")| + |Visible(tasks, Completed, "")| == |tasks|
  {
    forall t: Task ensures NameMatches(t, "") {
      IncludesEmpty(ToLower(t.name));
    }
    FilterKeepsAll(tasks, (t: Task) => Shown(All, t));
    FilterKeepsAll(tasks, (t: Task) => NameMatches(t, ""));
    FilterAgree(tasks, (t: Task) => Shown(Active, t), IsActive);
    FilterKeepsAll(Filter(tasks, IsActive), (t: Task) => NameMatches(t, ""));
    FilterAgree(tasks, (t: Task) => Shown(Completed, t), IsCompleted);
    FilterKeepsAll(Filter(tasks, IsCompleted), (t: Task) => NameMatches(t, ""));
    FilterPartition(tasks, IsActive, IsCompleted);
  }

  /** The search ignores case: a task named "Buy Milk" is found by "milk" and by "MILK". */
  lemma SearchIgnoresCase(id: int, completed: bool, due: Option<string>)
    ensures NameMatches(Task(id, "Buy Milk", completed, due), "milk")
    ensures NameMatches(Task(id, "Buy Milk", completed, due), "MILK")
  {
    var lowered := ToLower("Buy Milk");
    assert lowered == "buy milk";
    assert ToLower("milk") == "milk";
    assert ToLower("MILK") == "milk";
    assert OccursAt(lowered, "milk", 4);
    IncludesIffOccurs(lowered, "milk");
  }

  /** "all" shows every task; "active" and "completed" each show exactly the tasks the other hides. */
  lemma ShownModes(t: Task)
    ensures Shown(All, t)
    ensures Shown(Active, t) <==> !Shown(Completed, t)
    ensures Shown(Active, t) == IsActive(t) && Shown(Completed, t) == IsCompleted(t)
  {
  }

  /** The case of the search text and of the name make no difference, and every task is found
      by its own name. */
  lemma NameMatchesIgnoresCase(t: Task, search: string)
    ensures NameMatches(t, search) == NameMatches(t, ToLower(search))
    ensures NameMatches(t, search) == NameMatches(t.(name := ToLower(t.name)), search)
    ensures NameMatches(t, t.name)
  {
    ToLowerIdempotent(search);
    ToLowerIdempotent(t.name);
    var n := ToLower(t.name);
    assert n == [] + n + [];
    IncludesInfix([], n, []);
  }

  /** Every list operation keeps ids unique; so does the append of a fresh id. */
  lemma OperationsKeepUniqueIds(tasks: seq<Task>, id: int, name: string, due: string)
    requires UniqueIds(tasks)
    ensures UniqueIds(Delete(tasks, id))
    ensures UniqueIds(Toggle(tasks, id))
    ensures UniqueIds(MarkAll(tasks))
    ensures UniqueIds(ClearCompleted(tasks))
    ensures UniqueIds(Rename(tasks, id, name, due))
    ensures !HasId(tasks, id) ==> UniqueIds(tasks + [Task(id, name, false, Some(due))])
  {
    FilterKeepsUniqueIds(tasks, (t: Task) => t.id != id);
    FilterKeepsUniqueIds(tasks, IsActive);
    if !HasId(tasks, id) {
      UniqueIdsSnoc(tasks, Task(id, name, false, Some(due)));
    }
  }

  /** Appending a task whose id is new to a list with unique ids keeps them unique. */
  lemma UniqueIdsSnoc(tasks: seq<Task>, t: Task)
    requires UniqueIds(tasks) && !HasId(tasks, t.id)
    ensures UniqueIds(tasks + [t])
  {
    var n := tasks + [t];
    forall i, j | 0 <= i < |n| && 0 <= j < |n| && i != j ensures n[i].id != n[j].id {
      if i < |tasks| && j < |tasks| {
      } else if i < |tasks| {
        assert n[i] == tasks[i];
      } else {
        assert n[j] == tasks[j];
      }
    }
  }

  /** Filtering a list with unique ids leaves ids unique. */
  lemma {:induction false} FilterKeepsUniqueIds(tasks: seq<Task>, keep: Task -> bool)
    requires UniqueIds(tasks)
    ensures UniqueIds(Filter(tasks, keep))
  {
    if tasks != [] {
      var rest := tasks[1..];
      UniqueIdsTail(tasks);
      FilterKeepsUniqueIds(rest, keep);
      if keep(tasks[0]) {
        var f := Filter(rest, keep);
        forall k | 0 <= k < |f| ensures f[k].id != tasks[0].id {
          var m :| 0 <= m < |rest| && rest[m] == f[k];
          assert tasks[m + 1] == rest[m];
        }
        UniqueIdsCons(tasks[0], f);
      }
    }
  }

  /** Dropping the first task keeps ids unique, and its id occurs nowhere in the rest. */
  lemma UniqueIdsTail(tasks: seq<Task>)
    requires UniqueIds(tasks) && tasks != []
    ensures UniqueIds(tasks[1..])
    ensures !HasId(tasks[1..], tasks[0].id)
  {
    var rest := tasks[1..];
    forall i, j | 0 <= i < |rest| && 0 <= j < |rest| && i != j ensures rest[i].id != rest[j].id {
      assert rest[i] == tasks[i + 1] && rest[j] == tasks[j + 1];
    }
    forall i | 0 <= i < |rest| ensures rest[i].id != tasks[0].id {
      assert rest[i] == tasks[i + 1];
    }
  }

  /** Putting a task whose id is new in front of a list with unique ids keeps them unique. */
  lemma UniqueIdsCons(t: Task, rest: seq<Task>)
    requires UniqueIds(rest)
    requires forall k :: 0 <= k < |rest| ==> rest[k].id != t.id
    ensures UniqueIds([t] + rest)
  {
    var r := [t] + rest;
    forall i, j | 0 <= i < |r| && 0 <= j < |r| && i != j ensures r[i].id != r[j].id {
      if i > 0 { assert r[i] == rest[i - 1]; }
      if j > 0 { assert r[j] == rest[j - 1]; }
    }
  }
}
