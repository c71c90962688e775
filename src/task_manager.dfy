/**
 * The console task list (Lab-0.2/Lab-0.2/Program.cs): a project whose list of tasks the
 * menu grows with `AddTask` and updates in place with `MarkTaskComplete`, the overdue
 * query, and the `with` copy of the project.
 *
 * `Project` is a record that holds a reference to a mutable `List<Task>`; here the list is
 * the class `TaskList` and the record a datatype holding it. Console lines are inputs: a
 * `None` line is the null `Console.ReadLine` returns at the end of the input. Every
 * `DateTime.Now` read is a parameter; console output is left out.
 */
module TaskManager {
  import opened Wrappers
  import opened Numerics
  import opened Time
  import opened IntParse

  /** `record Task(string Title, bool IsComplete, DateTime DueDate)`. */
  datatype Task = Task(title: string, isComplete: bool, dueDate: DateTime)

  /** The `List<Task>` a project refers to. */
  class TaskList {
    var items: seq<Task>

    constructor (items: seq<Task>)
      ensures this.items == items
    {
      this.items := items;
    }
  }

  /** `record Project(string Name, List<Task> Tasks)`. */
  datatype Project = Project(name: string, tasks: TaskList)

  const UntitledTask: string := "Untitled Task"

  /** Days from creation to the due date of a task added from the menu. */
  const MenuTaskDays: nat := 7

  // ---------------------------------------------------------------------------
  // AddTask
  // ---------------------------------------------------------------------------

  /** The task `AddTask` creates from the line read at `now`. */
  function NewTask(title: Option<string>, now: DateTime): Task {
    Task(title.GetOr(UntitledTask), false, AddDays(now, MenuTaskDays))
  }

  /** `AddTask`: read a title, append a new open task due a week later. */
  method AddTask(project: Project, title: Option<string>, now: DateTime)
    modifies project.tasks
    ensures project.tasks.items == old(project.tasks.items) + [NewTask(title, now)]
  {
    var newTask := Task(if title.Some? then title.value else UntitledTask, false, AddDays(now, MenuTaskDays));
    project.tasks.items := project.tasks.items + [newTask];
  }

  /**
   * The appended task is open, is due seven days after the read, and carries the line
   * read or "Untitled Task" for a null line; the tasks before it keep their places.
   */
  lemma AddTaskAppendsOpenTask(tasks: seq<Task>, title: Option<string>, now: DateTime)
    ensures var after := tasks + [NewTask(title, now)];
      && |after| == |tasks| + 1 && after[..|tasks|] == tasks
      && !after[|tasks|].isComplete && after[|tasks|].dueDate == now + 7 * TicksPerDay
      && (title.None? ==> after[|tasks|].title == "Untitled Task")
      && (title.Some? ==> after[|tasks|].title == title.value)
  {
  }

  // ---------------------------------------------------------------------------
  // MarkTaskComplete
  // ---------------------------------------------------------------------------

  /** The line parses to the 1-based number of the task at index `i`. */
  predicate Selects(input: Option<string>, i: int) {
    Numbered(ParseInt32(input), i)
  }

  predicate Numbered(n: Option<int32>, i: int) {
    n.Some? && n.value as int == i + 1
  }

  /** The list after `MarkTaskComplete` reads `input`. */
  function Completed(tasks: seq<Task>, input: Option<string>): (r: seq<Task>)
    ensures |r| == |tasks|
    ensures forall i :: 0 <= i < |tasks| ==> r[i].title == tasks[i].title && r[i].dueDate == tasks[i].dueDate
    ensures forall i :: 0 <= i < |tasks| ==> (r[i].isComplete <==> tasks[i].isComplete || Selects(input, i))
  {
    CompletedNumber(tasks, ParseInt32(input))
  }

  /** The list after the number `n` was read: the task it numbers, if any, is completed. */
  function CompletedNumber(tasks: seq<Task>, n: Option<int32>): (r: seq<Task>)
    ensures |r| == |tasks|
    ensures forall i :: 0 <= i < |tasks| ==> r[i].title == tasks[i].title && r[i].dueDate == tasks[i].dueDate
    ensures forall i :: 0 <= i < |tasks| ==> (r[i].isComplete <==> tasks[i].isComplete || Numbered(n, i))
  {
    if |tasks| == 0 then tasks
    else if n.Some? && 0 < n.value as int <= |tasks| then
      var k := n.value as int - 1;
      tasks[k := tasks[k].(isComplete := true)]
    else tasks
  }

  /** `MarkTaskComplete`: on a list that is not empty, read a number and complete that task in place. */
  method MarkTaskComplete(project: Project, input: Option<string>)
    modifies project.tasks
    ensures project.tasks.items == Completed(old(project.tasks.items), input)
  {
    if |project.tasks.items| == 0 {
      return;
    }
    var index := ParseInt32(input);
    if index.Some? && index.value > 0 && index.value as int <= |project.tasks.items| {
      var task := project.tasks.items[index.value - 1];
      var updatedTask := task.(isComplete := true);
      project.tasks.items := project.tasks.items[index.value - 1 := updatedTask];
    }
  }

  /** An unparsable line, or a number outside 1..Count, leaves the list as it was. */
  lemma CompletedUnselected(tasks: seq<Task>, input: Option<string>)
    requires forall i :: 0 <= i < |tasks| ==> !Selects(input, i)
    ensures Completed(tasks, input) == tasks
  {
    var r := Completed(tasks, input);
    assert forall i :: 0 <= i < |tasks| ==> r[i] == tasks[i];
  }

  /**
   * The number `i + 1` completes exactly the task at index `i`, keeping its title and due
   * date; if that task is already complete, the list stays as it was.
   */
  lemma CompletedSelected(tasks: seq<Task>, input: Option<string>, i: int)
    requires 0 <= i < |tasks| && Selects(input, i)
    ensures Completed(tasks, input) == tasks[i := tasks[i].(isComplete := true)]
    ensures tasks[i].isComplete ==> Completed(tasks, input) == tasks
  {
    if tasks[i].isComplete {
      assert tasks[i := tasks[i].(isComplete := true)] == tasks;
    }
  }

  /** Reading the same line twice changes nothing more. */
  lemma CompletedIdempotent(tasks: seq<Task>, input: Option<string>)
    ensures Completed(Completed(tasks, input), input) == Completed(tasks, input)
  {
  }

  // ---------------------------------------------------------------------------
  // The overdue query
  // ---------------------------------------------------------------------------

  predicate IsOverdue(t: Task, now: DateTime) {
    !t.isComplete && t.dueDate < now
  }

  /** `Tasks.Where(t => !t.IsComplete && t.DueDate < DateTime.Now).ToList()`. */
  function Overdue(tasks: seq<Task>, now: DateTime): seq<Task> {
    if |tasks| == 0 then []
    else (if IsOverdue(tasks[0], now) then [tasks[0]] else []) + Overdue(tasks[1..], now)
  }

  /** The query holds exactly the open tasks due before `now`, and no more of them than the list. */
  lemma {:induction false} OverdueMembers(tasks: seq<Task>, now: DateTime)
    ensures forall t :: t in Overdue(tasks, now) <==> t in tasks && IsOverdue(t, now)
    ensures |Overdue(tasks, now)| <= |tasks|
  {
    if |tasks| > 0 {
      OverdueMembers(tasks[1..], now);
      assert tasks == [tasks[0]] + tasks[1..];
    }
  }

  /** The query keeps the list's order: it distributes over concatenation. */
  lemma {:induction false} OverdueConcat(a: seq<Task>, b: seq<Task>, now: DateTime)
    ensures Overdue(a + b, now) == Overdue(a, now) + Overdue(b, now)
  {
    if |a| == 0 {
      assert a + b == b;
    } else {
      OverdueConcat(a[1..], b, now);
      var head := if IsOverdue(a[0], now) then [a[0]] else [];
      assert (a + b)[0] == a[0];
      assert (a + b)[1..] == a[1..] + b;
      assert Overdue(a + b, now) == head + Overdue(a[1..] + b, now);
      assert Overdue(a, now) == head + Overdue(a[1..], now);
    }
  }

  /** A task added from the menu is not overdue until its week has passed. */
  lemma NewTaskNotOverdue(tasks: seq<Task>, title: Option<string>, added: DateTime, now: DateTime)
    requires now <= AddDays(added, MenuTaskDays)
    ensures Overdue(tasks + [NewTask(title, added)], now) == Overdue(tasks, now)
  {
    OverdueConcat(tasks, [NewTask(title, added)], now);
    assert [NewTask(title, added)][1..] == [];
  }

  /** Completing a task never adds to the overdue list. */
  lemma CompletingNeverAddsOverdue(tasks: seq<Task>, input: Option<string>, now: DateTime)
    ensures forall t :: t in Overdue(Completed(tasks, input), now) ==> t in Overdue(tasks, now)
  {
    var after := Completed(tasks, input);
    OverdueMembers(after, now);
    OverdueMembers(tasks, now);
    forall t | t in Overdue(after, now)
      ensures t in tasks
    {
      var i :| 0 <= i < |after| && after[i] == t;
      assert after[i] == tasks[i];
    }
  }

  // ---------------------------------------------------------------------------
  // The `with` copy
  // ---------------------------------------------------------------------------

  /**
   * `project with { Tasks = new List<Task>(project.Tasks) { task } }`: the same name and a
   * new list holding the project's tasks and then `task`; the project's own list is left
   * alone and is not shared with the copy.
   */
  method CopyWithTask(project: Project, task: Task) returns (copy: Project)
    ensures fresh(copy.tasks)
    ensures copy.name == project.name
    ensures copy.tasks.items == project.tasks.items + [task]
    ensures project.tasks.items == old(project.tasks.items)
  {
    var tasks := new TaskList(project.tasks.items + [task]);
    copy := project.(tasks := tasks);
  }

  /**
   * The start of the program: "Test Project" with one task due a week after `created`,
   * its copy with "New Task" due two weeks after `copied`, and the overdue list at
   * `checked`.
   */
  method Start(created: DateTime, copied: DateTime, checked: DateTime)
    returns (project: Project, project2: Project, overdue: seq<Task>)
    ensures fresh(project.tasks) && fresh(project2.tasks) && project.tasks != project2.tasks
    ensures project.name == project2.name == "Test Project"
    ensures project.tasks.items == [Task("Initial Task", false, AddDays(created, 7))]
    ensures project2.tasks.items == project.tasks.items + [Task("New Task", false, AddDays(copied, 14))]
    ensures overdue == Overdue(project.tasks.items, checked)
  {
    var tasks := new TaskList([Task("Initial Task", false, AddDays(created, 7))]);
    project := Project("Test Project", tasks);
    project2 := CopyWithTask(project, Task("New Task", false, AddDays(copied, 14)));
    overdue := Overdue(project.tasks.items, checked);
  }

  /** Unless a week passes between the start and the query, nothing is overdue. */
  lemma NothingOverdueAtStart(created: DateTime, checked: DateTime)
    requires checked <= AddDays(created, 7)
    ensures Overdue([Task("Initial Task", false, AddDays(created, 7))], checked) == []
  {
    assert [Task("Initial Task", false, AddDays(created, 7))][1..] == [];
  }

  // ---------------------------------------------------------------------------
  // The menu
  // ---------------------------------------------------------------------------

  /** A console line, and the clock when it has been read. */
  datatype Line = Line(text: Option<string>, now: DateTime)

  /** The line after a choice: the next input, or the null that follows the end of the input. */
  function NextText(lines: seq<Line>): Option<string> {
    if |lines| > 0 then lines[0].text else None
  }

  function NextClock(lines: seq<Line>, fallback: DateTime): DateTime {
    if |lines| > 0 then lines[0].now else fallback
  }

  function AfterNext(lines: seq<Line>): seq<Line> {
    if |lines| > 0 then lines[1..] else []
  }

  /**
   * The task list after the menu loop reads `lines`: "1" reads a title and adds a task,
   * "2" reads a number when there are tasks, "4" leaves, and every other choice (among
   * them "3", which only displays) changes nothing. The loop itself never ends on its
   * own; the list stops changing when the input ends.
   */
  function Session(tasks: seq<Task>, lines: seq<Line>): seq<Task>
    decreases |lines|
  {
    if |lines| == 0 then tasks
    else
      var choice, rest := lines[0].text, lines[1..];
      if choice == Some("1") then
        Session(tasks + [NewTask(NextText(rest), NextClock(rest, lines[0].now))], AfterNext(rest))
      else if choice == Some("2") && |tasks| > 0 then
        Session(Completed(tasks, NextText(rest)), AfterNext(rest))
      else if choice == Some("4") then tasks
      else Session(tasks, rest)
  }

  /** The menu loop, reading its choices and their follow-up lines from `lines`. */
  method RunMenu(project: Project, lines: seq<Line>)
    modifies project.tasks
    ensures project.tasks.items == Session(old(project.tasks.items), lines)
  {
    var pos := 0;
    while pos < |lines|
      invariant 0 <= pos <= |lines|
      invariant Session(project.tasks.items, lines[pos..]) == Session(old(project.tasks.items), lines)
      decreases |lines| - pos
    {
      var choice, rest := lines[pos].text, lines[pos + 1..];
      assert lines[pos..][1..] == rest;
      if choice == Some("1") {
        AddTask(project, NextText(rest), NextClock(rest, lines[pos].now));
        pos := if pos + 1 < |lines| then pos + 2 else pos + 1;
        assert lines[pos..] == AfterNext(rest);
      } else if choice == Some("2") {
        if |project.tasks.items| > 0 {
          MarkTaskComplete(project, NextText(rest));
          pos := if pos + 1 < |lines| then pos + 2 else pos + 1;
          assert lines[pos..] == AfterNext(rest);
        } else {
          pos := pos + 1;
        }
      } else if choice == Some("4") {
        return;
      } else {
        pos := pos + 1;
      }
    }
  }

  /**
   * `later` extends `earlier` the way the menu changes a list: no task is removed or
   * moved, titles and due dates stay, and a completed task stays completed.
   */
  predicate Extends(earlier: seq<Task>, later: seq<Task>) {
    && |earlier| <= |later|
    && forall i :: 0 <= i < |earlier| ==>
      later[i].title == earlier[i].title && later[i].dueDate == earlier[i].dueDate
      && (earlier[i].isComplete ==> later[i].isComplete)
  }

  /** Whatever the input, a session only appends tasks and completes them. */
  lemma {:induction false} SessionExtends(tasks: seq<Task>, lines: seq<Line>)
    ensures Extends(tasks, Session(tasks, lines))
    decreases |lines|
  {
    if |lines| > 0 {
      var choice, rest := lines[0].text, lines[1..];
      if choice == Some("1") {
        var added := tasks + [NewTask(NextText(rest), NextClock(rest, lines[0].now))];
        SessionExtends(added, AfterNext(rest));
      } else if choice == Some("2") && |tasks| > 0 {
        SessionExtends(Completed(tasks, NextText(rest)), AfterNext(rest));
      } else if choice != Some("4") {
        SessionExtends(tasks, rest);
      }
    }
  }

  /** Each "1" adds one task, so a session of `k` lines adds at most `k` tasks. */
  lemma {:induction false} SessionGrowth(tasks: seq<Task>, lines: seq<Line>)
    ensures |tasks| <= |Session(tasks, lines)| <= |tasks| + |lines|
    decreases |lines|
  {
    if |lines| > 0 {
      var choice, rest := lines[0].text, lines[1..];
      if choice == Some("1") {
        SessionGrowth(tasks + [NewTask(NextText(rest), NextClock(rest, lines[0].now))], AfterNext(rest));
      } else if choice == Some("2") && |tasks| > 0 {
        SessionGrowth(Completed(tasks, NextText(rest)), AfterNext(rest));
      } else if choice != Some("4") {
        SessionGrowth(tasks, rest);
      }
    }
  }
}
