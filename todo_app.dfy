/** The state of the `TodoApp` component and its handlers. Each handler is one atomic
    transition: the pure functions `Submit` and `BeginEdit` say what `addOrUpdate` and
    `editTask` do to the whole state, and the class `TodoApp` holds the state cells and
    updates them one setter at a time. */
module TodoApp {
  import opened Seqs
  import opened Text
  import opened TaskList

  /** The component's state cells, except the colour theme. */
  datatype AppState = AppState(
    tasks: seq<Task>,
    input: string,
    dueDate: string,
    editId: Option<int>,
    search: string,
    filter: string)

  /** The state on mount, given the task list read back from storage. */
  function Initial(saved: seq<Task>): AppState
  {
    AppState(saved, "", "", None, "", "all")
  }

  /** `selected.dueDate || ""`: an absent due date is shown as an empty draft. */
  function DraftDate(due: Option<string>): string
  {
    match due
    case Some(d) => d
    case None => ""
  }

  /** On mount the view shows every saved task, nothing is being edited, and pressing the add
      button with the empty draft changes nothing. */
  lemma InitialView(saved: seq<Task>, freshId: int)
    ensures Visible(Initial(saved).tasks, ParseFilter(Initial(saved).filter), Initial(saved).search) == saved
    ensures Initial(saved).editId.None?
    ensures Submit(Initial(saved), freshId) == Initial(saved)
  {
    VisibleEmptySearch(saved);
  }

  /** A present due date comes back unchanged through the draft; an absent one becomes "". */
  lemma DraftDateRestores(due: Option<string>)
    ensures due.Some? ==> Some(DraftDate(due)) == due
    ensures due.None? ==> DraftDate(due) == ""
  {
  }

  /** `addOrUpdate()`, with `freshId` standing for `Date.now()`. */
  function Submit(st: AppState, freshId: int): (r: AppState)
    // a blank draft name changes nothing at all
    ensures IsBlank(st.input) ==> r == st
    // otherwise the draft is reset and edit mode is left, whether or not a task matched
    ensures !IsBlank(st.input) ==> r.input == "" && r.dueDate == "" && r.editId == None
    ensures r.search == st.search && r.filter == st.filter
    // adding: exactly one new, not completed task at the end, the earlier ones untouched
    ensures !IsBlank(st.input) && st.editId.None? ==>
      |r.tasks| == |st.tasks| + 1 && r.tasks[..|st.tasks|] == st.tasks
      && r.tasks[|st.tasks|] == Task(freshId, st.input, false, Some(st.dueDate))
    // updating: same length and order, only the tasks with the edited id take the draft
    ensures !IsBlank(st.input) && st.editId.Some? ==>
      |r.tasks| == |st.tasks|
      && (forall i :: 0 <= i < |r.tasks| ==>
            r.tasks[i].id == st.tasks[i].id && r.tasks[i].completed == st.tasks[i].completed)
      && (forall i :: 0 <= i < |r.tasks| && st.tasks[i].id == st.editId.value ==>
            r.tasks[i].name == st.input && r.tasks[i].dueDate == Some(st.dueDate))
      && (forall i :: 0 <= i < |r.tasks| && st.tasks[i].id != st.editId.value ==>
            r.tasks[i] == st.tasks[i])
  {
    if IsBlank(st.input) then st
    else
      var tasks :=
        if st.editId.Some? then Rename(st.tasks, st.editId.value, st.input, st.dueDate)
        else st.tasks + [Task(freshId, st.input, false, Some(st.dueDate))];
      st.(tasks := tasks, editId := None, input := "", dueDate := "")
  }

  /** `editTask(id)`: the draft takes the first matching task's name and due date and `id`
      becomes the edit target. With no such task, `selected` is undefined and reading its
      name throws before any state cell is set: that outcome is `None`. */
  function BeginEdit(st: AppState, id: int): (r: Option<AppState>)
    ensures r.None? <==> !HasId(st.tasks, id)
    ensures r.Some? ==>
      r.value.tasks == st.tasks && r.value.editId == Some(id)
      && r.value.search == st.search && r.value.filter == st.filter
      && exists k :: FirstWithId(st.tasks, id, k)
           && r.value.input == st.tasks[k].name && r.value.dueDate == DraftDate(st.tasks[k].dueDate)
  {
    match Find(st.tasks, id)
    case None => None
    case Some(selected) =>
      Some(st.(input := selected.name, dueDate := DraftDate(selected.dueDate), editId := Some(id)))
  }

  /** Submitting an edit without touching the draft gives the task list back unchanged,
      provided ids are unique and the task has a due date (an absent one comes back as ""). */
  lemma EditThenSubmit(st: AppState, id: int, freshId: int)
    requires UniqueIds(st.tasks)
    requires BeginEdit(st, id).Some?
    requires forall i :: 0 <= i < |st.tasks| && st.tasks[i].id == id ==> st.tasks[i].dueDate.Some?
    ensures Submit(BeginEdit(st, id).value, freshId).tasks == st.tasks
  {
    var e := BeginEdit(st, id).value;
    var k :| FirstWithId(st.tasks, id, k) && e.input == st.tasks[k].name
              && e.dueDate == DraftDate(st.tasks[k].dueDate);
    var r := Submit(e, freshId);
    if !IsBlank(e.input) {
      forall i | 0 <= i < |st.tasks| ensures r.tasks[i] == st.tasks[i] {
        if st.tasks[i].id == id {
          assert i == k;
        }
      }
    }
  }

  /** `addOrUpdate` keeps ids unique when the clock value is new to the list. */
  lemma SubmitKeepsUniqueIds(st: AppState, freshId: int)
    requires UniqueIds(st.tasks)
    requires !HasId(st.tasks, freshId)
    ensures UniqueIds(Submit(st, freshId).tasks)
  {
    if st.editId.Some? {
      OperationsKeepUniqueIds(st.tasks, st.editId.value, st.input, st.dueDate);
    } else {
      OperationsKeepUniqueIds(st.tasks, freshId, st.input, st.dueDate);
    }
  }

  /** One draft typed into the form: name, due date and the clock value at submission. */
  datatype Draft = Draft(name: string, dueDate: string, id: int)

  /** Typing each draft into the form and pressing the add button, in order. */
  function AddAll(st: AppState, drafts: seq<Draft>): AppState
    decreases |drafts|
  {
    if drafts == [] then st
    else AddAll(Submit(st.(input := drafts[0].name, dueDate := drafts[0].dueDate), drafts[0].id), drafts[1..])
  }

  /** How many drafts have a non-blank name. */
  function NonBlank(drafts: seq<Draft>): nat
  {
    if drafts == [] then 0
    else (if IsBlank(drafts[0].name) then 0 else 1) + NonBlank(drafts[1..])
  }

  /** Outside edit mode, a run of additions grows the list by one task per non-blank name, and
      ids stay unique when every clock value is distinct and new to the list. */
  lemma {:induction false} AddAllCountsAndIds(st: AppState, drafts: seq<Draft>)
    requires st.editId.None?
    requires UniqueIds(st.tasks)
    requires forall i, j :: 0 <= i < j < |drafts| ==> drafts[i].id != drafts[j].id
    requires forall i :: 0 <= i < |drafts| ==> !HasId(st.tasks, drafts[i].id)
    ensures |AddAll(st, drafts).tasks| == |st.tasks| + NonBlank(drafts)
    ensures UniqueIds(AddAll(st, drafts).tasks)
    ensures AddAll(st, drafts).editId.None?
    decreases |drafts|
  {
    if drafts != [] {
      var d := drafts[0];
      var next := Submit(st.(input := d.name, dueDate := d.dueDate), d.id);
      OperationsKeepUniqueIds(st.tasks, d.id, d.name, d.dueDate);
      var rest := drafts[1..];
      forall i | 0 <= i < |rest| ensures !HasId(next.tasks, rest[i].id) {
        assert rest[i] == drafts[i + 1];
        forall m | 0 <= m < |next.tasks| ensures next.tasks[m].id != rest[i].id {
          if m < |st.tasks| {
            assert next.tasks[m] == st.tasks[m];
          }
        }
      }
      forall i, j | 0 <= i < j < |rest| ensures rest[i].id != rest[j].id {
        assert rest[i] == drafts[i + 1] && rest[j] == drafts[j + 1];
      }
      AddAllCountsAndIds(next, rest);
    }
  }

  /** Starting empty: add "Write spec" with no due date, add "Review PR" due 2025-01-01, toggle
      the first. Then there is one active and one completed task out of two, and the active
      view holds exactly "Review PR". */
  lemma ExampleSession(id1: int, id2: int)
    requires id1 != id2
    ensures
      var s1 := Submit(Initial([]).(input := "Write spec", dueDate := ""), id1);
      var s2 := Submit(s1.(input := "Review PR", dueDate := "2025-01-01"), id2);
      var tasks := Toggle(s2.tasks, id1);
      Stats(tasks) == TaskCounts(1, 1, 2)
      && Visible(tasks, Active, "") == [Task(id2, "Review PR", false, Some("2025-01-01"))]
  {
    assert !IsSpace('W') && !IsSpace('R');
    var s1 := Submit(Initial([]).(input := "Write spec", dueDate := ""), id1);
    var s2 := Submit(s1.(input := "Review PR", dueDate := "2025-01-01"), id2);
    var t1 := Task(id1, "Write spec", true, Some(""));
    var t2 := Task(id2, "Review PR", false, Some("2025-01-01"));
    assert s1.tasks == [Task(id1, "Write spec", false, Some(""))];
    assert s2.tasks == [Task(id1, "Write spec", false, Some("")), t2];
    var tasks := Toggle(s2.tasks, id1);
    assert tasks == [t1, t2];
    assert Filter(tasks, IsActive) == [t2];
    assert Filter(tasks, IsCompleted) == [t1];
    VisibleEmptySearch(tasks);
  }

  /** The component: its state cells as fields, its handlers as methods. */
  class TodoApp {
    var tasks: seq<Task>
    var input: string
    var dueDate: string
    var editId: Option<int>
    var search: string
    var filter: string

    function State(): AppState
      reads this
    {
      AppState(tasks, input, dueDate, editId, search, filter)
    }

    /** Mount, with `saved` the list read back from storage. */
    constructor (saved: seq<Task>)
      ensures State() == Initial(saved)
    {
      tasks := saved;
      input := "";
      search := "";
      editId := None;
      filter := "all";
      dueDate := "";
    }

    /** The task name field's change handler. */
    method SetInput(value: string)
      modifies this
      ensures State() == old(State()).(input := value)
    {
      input := value;
    }

    /** The due date field's change handler. */
    method SetDueDate(value: string)
      modifies this
      ensures State() == old(State()).(dueDate := value)
    {
      dueDate := value;
    }

    /** The search field's change handler. */
    method SetSearch(value: string)
      modifies this
      ensures State() == old(State()).(search := value)
    {
      search := value;
    }

    /** A filter button. */
    method SetFilter(value: string)
      modifies this
      ensures State() == old(State()).(filter := value)
    {
      filter := value;
    }

    /** The add / update button; `freshId` is the clock reading. */
    method AddOrUpdate(freshId: int)
      modifies this
      ensures State() == Submit(old(State()), freshId)
    {
      if IsBlank(input) {
        return;
      }
      if editId.Some? {
        tasks := Rename(tasks, editId.value, input, dueDate);
        editId := None;
      } else {
        tasks := tasks + [Task(freshId, input, false, Some(dueDate))];
      }
      input := "";
      dueDate := "";
    }

    /** The edit button of a task. `found` is false when no task has the id; the source
        then throws, and no state cell has changed. */
    method EditTask(id: int) returns (found: bool)
      modifies this
      ensures found <==> HasId(old(tasks), id)
      ensures found ==> State() == BeginEdit(old(State()), id).value
      ensures !found ==> State() == old(State())
    {
      var selected := Find(tasks, id);
      if selected.None? {
        return false;
      }
      input := selected.value.name;
      dueDate := DraftDate(selected.value.dueDate);
      editId := Some(id);
      return true;
    }

    /** The delete button of a task. */
    method DeleteTask(id: int)
      modifies this
      ensures State() == old(State()).(tasks := Delete(old(tasks), id))
    {
      tasks := Delete(tasks, id);
    }

    /** A click on a task. */
    method ToggleComplete(id: int)
      modifies this
      ensures State() == old(State()).(tasks := Toggle(old(tasks), id))
    {
      tasks := Toggle(tasks, id);
    }

    /** The "Mark All Done" button. */
    method MarkAllDone()
      modifies this
      ensures State() == old(State()).(tasks := MarkAll(old(tasks)))
    {
      tasks := MarkAll(tasks);
    }

    /** The "Clear Completed" button. */
    method ClearCompletedTasks()
      modifies this
      ensures State() == old(State()).(tasks := ClearCompleted(old(tasks)))
    {
      tasks := ClearCompleted(tasks);
    }

    /** `filteredTasks`, recomputed from the current state. */
    function FilteredTasks(): (r: seq<Task>)
      reads this
      ensures IsSubseq(r, tasks)
      ensures forall i :: 0 <= i < |r| ==> r[i] in tasks && Shown(ParseFilter(filter), r[i]) && NameMatches(r[i], search)
      ensures forall i :: 0 <= i < |tasks| && Shown(ParseFilter(filter), tasks[i]) && NameMatches(tasks[i], search) ==> tasks[i] in r
      ensures forall t :: multiset(r)[t] == if Shown(ParseFilter(filter), t) && NameMatches(t, search) then multiset(tasks)[t] else 0
    {
      Visible(tasks, ParseFilter(filter), search)
    }

    /** `taskStats`, recomputed from the current state. */
    function TaskStats(): (r: TaskCounts)
      reads this
      ensures r.active + r.completed == r.total == |tasks|
    {
      Stats(tasks)
    }
  }
}
