/**
 * What a caller of the ledger can prove from the operations' contracts alone:
 * undo replays the history rather than reversing operations, and the completed
 * queue hands tasks back in the order they were completed.
 */
module LedgerScenarios {
  import opened Tasks
  import opened Sequences
  import opened Ledger

  /**
   * Adding a task and undoing: the history is back where it was, but the task
   * stays appended (the re-append is skipped because it is present), so it is
   * open once more than before; a task that was not open is open exactly once.
   */
  method AddThenUndo(m: TaskManager, t: Task)
    modifies m
    ensures m.tasks == old(m.tasks) + [t]
    ensures multiset(m.tasks)[t] == multiset(old(m.tasks))[t] + 1
    ensures m.actionStack == old(m.actionStack)
    ensures m.completedQueue == old(m.completedQueue)
  {
    m.AddTask(t);
    m.UndoLastAction();
  }

  /**
   * Deleting a task and undoing: the history is back where it was and the task is
   * open again. If it was open once, it comes back at the END of the list, not at
   * its old position; if it was open more than once, the undo finds a copy still
   * open and the deleted copy stays gone.
   */
  method DeleteThenUndo(m: TaskManager, t: Task)
    modifies m
    ensures t in m.tasks
    ensures multiset(old(m.tasks))[t] <= 1 ==> m.tasks == RemoveFirst(old(m.tasks), t) + [t]
    ensures multiset(old(m.tasks))[t] > 1 ==> m.tasks == RemoveFirst(old(m.tasks), t)
    ensures m.actionStack == old(m.actionStack)
    ensures m.completedQueue == old(m.completedQueue)
  {
    m.DeleteTask(t);
    assert t in m.tasks <==> multiset(old(m.tasks))[t] > 1;
    m.UndoLastAction();
  }

  /**
   * Editing an open task and undoing: the history is back where it was, but the
   * edit stays in place, because undo finds the new version already open.
   */
  method EditThenUndo(m: TaskManager, oldTask: Task, newTask: Task)
    requires oldTask in m.tasks
    modifies m
    ensures m.tasks == old(m.tasks)[IndexOf(old(m.tasks), oldTask) := newTask]
    ensures m.actionStack == old(m.actionStack)
    ensures m.completedQueue == old(m.completedQueue)
  {
    m.EditTask(oldTask, newTask);
    assert m.tasks[IndexOf(old(m.tasks), oldTask)] == newTask;
    m.UndoLastAction();
  }

  /**
   * Editing a task that is not open pushes nothing, so the undo that follows
   * pops an OLDER history entry: here it re-opens the previously deleted prev.
   */
  method EditMissThenUndo(m: TaskManager, prev: Task, oldTask: Task, newTask: Task)
    requires m.tasks == [] && m.actionStack == [prev]
    modifies m
    ensures m.tasks == [prev] && m.actionStack == []
    ensures m.completedQueue == old(m.completedQueue)
  {
    m.EditTask(oldTask, newTask);
    m.UndoLastAction();
  }

  /** Undo on an empty history changes nothing, and the history stays empty. */
  method UndoOnEmptyHistory(m: TaskManager)
    requires m.actionStack == []
    modifies m
    ensures m.tasks == old(m.tasks) && m.completedQueue == old(m.completedQueue)
    ensures m.PeekLastAction() == None
  {
    m.UndoLastAction();
  }

  /**
   * Completing a and then b on a ledger with nothing completed yet, then dequeuing
   * three times, yields a, then b, then None.
   */
  method CompleteThenDequeue(m: TaskManager, a: Task, b: Task)
      returns (first: Option<Task>, second: Option<Task>, third: Option<Task>)
    requires m.completedQueue == []
    modifies m
    ensures first == Some(a) && second == Some(b) && third == None
    ensures m.completedQueue == []
    ensures m.actionStack == old(m.actionStack)
  {
    m.CompleteTask(a);
    m.CompleteTask(b);
    first := m.DequeueCompleted();
    second := m.DequeueCompleted();
    third := m.DequeueCompleted();
  }

  /**
   * Starting empty, adding a and then b (different tasks), deleting a and undoing
   * leaves b before a: the original order is lost.
   */
  method UndoLosesPosition(a: Task, b: Task) returns (open: seq<Task>)
    requires a != b
    ensures open == [b, a]
  {
    var m := new TaskManager();
    m.AddTask(a);
    m.AddTask(b);
    m.DeleteTask(a);
    m.UndoLastAction();
    open := m.GetTasks();
  }

  /**
   * Starting empty, with "Write report" due 2025-01-10 and "Buy milk" due
   * 2025-01-05: searching "buy milk" finds the second task whatever its case,
   * searching "2025-01-10" finds the first, and "nonexistent" finds nothing.
   */
  method SearchExample() returns (byName: Option<Task>, byDate: Option<Task>, missing: Option<Task>)
    ensures byName == Some(Task("Buy milk", "2025-01-05", "Low"))
    ensures byDate == Some(Task("Write report", "2025-01-10", "High"))
    ensures missing == None
  {
    var report := Task("Write report", "2025-01-10", "High");
    var milk := Task("Buy milk", "2025-01-05", "Low");
    var m := new TaskManager();
    m.AddTask(report);
    m.AddTask(milk);
    assert m.tasks == [report, milk];
    assert !Matches(report, "buy milk") && Matches(milk, "buy milk");
    byName := m.SearchTask("buy milk");
    assert Matches(report, "2025-01-10");
    byDate := m.SearchTask("2025-01-10");
    assert !Matches(report, "nonexistent") && !Matches(milk, "nonexistent");
    missing := m.SearchTask("nonexistent");
  }

  /**
   * A completed task can be open at the same time: starting empty, adding t,
   * completing it and undoing pops the add from the history and re-appends t,
   * while t is still in the completed queue.
   */
  method CompletedTaskReopened(t: Task) returns (open: seq<Task>, completed: seq<Task>)
    ensures open == [t] && completed == [t]
  {
    var m := new TaskManager();
    m.AddTask(t);
    m.CompleteTask(t);
    m.UndoLastAction();
    open := m.GetTasks();
    completed := m.GetCompletedQueue();
  }

  /** Two keywords that differ only in case find the same task. */
  method SearchIgnoresKeywordCase(m: TaskManager, k1: string, k2: string)
      returns (r1: Option<Task>, r2: Option<Task>)
    requires EqualsIgnoreCase(k1, k2)
    ensures r1 == r2
  {
    r1 := m.SearchTask(k1);
    r2 := m.SearchTask(k2);
    forall j | 0 <= j < |m.tasks|
      ensures Matches(m.tasks[j], k1) <==> Matches(m.tasks[j], k2)
    {
      MatchesIgnoresKeywordCase(m.tasks[j], k1, k2);
    }
    if r1.Some? {
      var i1 :| 0 <= i1 < |m.tasks| && m.tasks[i1] == r1.value && Matches(m.tasks[i1], k1) &&
                forall j :: 0 <= j < i1 ==> !Matches(m.tasks[j], k1);
      var i2 :| 0 <= i2 < |m.tasks| && m.tasks[i2] == r2.value && Matches(m.tasks[i2], k2) &&
                forall j :: 0 <= j < i2 ==> !Matches(m.tasks[j], k2);
      assert i1 == i2;
    }
  }
}
