/**
 * The in-memory task ledger: the open tasks in display order, a stack of the tasks
 * touched by add, edit and delete (consumed by undo), and a first-in-first-out
 * queue of completed tasks.
 */
module Ledger {
  import opened Tasks
  import opened Sequences

  class TaskManager {
    /** The open tasks, in display order; the same task may occur more than once. */
    var tasks: seq<Task>
    /** The undo history; its top is the LAST element. */
    var actionStack: seq<Task>
    /** The completed tasks; the oldest (next to be dequeued) is the FIRST element. */
    var completedQueue: seq<Task>

    /** A new ledger has no tasks, no history and no completed tasks. */
    constructor ()
      ensures tasks == [] && actionStack == [] && completedQueue == []
    {
      actionStack := [];
      completedQueue := [];
      tasks := [];
    }

    /** The most recently pushed task, without removing it; None on an empty history. */
    function PeekLastAction(): (r: Option<Task>)
      reads this
      ensures r.None? <==> actionStack == []
      ensures r.Some? ==> r.value == actionStack[|actionStack| - 1]
    {
      if actionStack != [] then Some(actionStack[|actionStack| - 1]) else None
    }

    /** The open tasks, in display order. */
    function GetTasks(): (r: seq<Task>)
      reads this
      ensures r == tasks
    {
      tasks
    }

    /** The completed tasks, oldest (next to be dequeued) first. */
    function GetCompletedQueue(): (r: seq<Task>)
      reads this
      ensures r == completedQueue
    {
      completedQueue
    }

    /**
     * Pushes the task and appends it to the open tasks, with no uniqueness check:
     * the task occurs once more than before and is now the top of the history.
     */
    method AddTask(task: Task)
      modifies this
      ensures actionStack == old(actionStack) + [task]
      ensures tasks == old(tasks) + [task]
      ensures multiset(tasks)[task] == old(multiset(tasks)[task]) + 1
      ensures PeekLastAction() == Some(task)
      ensures completedQueue == old(completedQueue)
    {
      actionStack := actionStack + [task];
      tasks := tasks + [task];
    }

    /**
     * Replaces the first occurrence of oldTask by newTask, at the same position, and
     * pushes newTask. When oldTask is not open, nothing at all changes.
     */
    method EditTask(oldTask: Task, newTask: Task)
      modifies this
      ensures oldTask !in old(tasks) ==>
                tasks == old(tasks) && actionStack == old(actionStack)
      ensures oldTask in old(tasks) ==>
                var i := IndexOf(old(tasks), oldTask);
                old(tasks)[i] == oldTask && oldTask !in old(tasks)[..i] &&
                tasks == old(tasks)[i := newTask] &&
                actionStack == old(actionStack) + [newTask]
      ensures |tasks| == |old(tasks)|
      ensures completedQueue == old(completedQueue)
    {
      var index := IndexOf(tasks, oldTask);
      if index != -1 {
        tasks := tasks[index := newTask];
        actionStack := actionStack + [newTask];
      }
    }

    /**
     * Removes the first occurrence of the task, if any, and pushes the task in
     * every case, even when it was not open.
     */
    method DeleteTask(task: Task)
      modifies this
      ensures tasks == RemoveFirst(old(tasks), task)
      ensures actionStack == old(actionStack) + [task]
      ensures PeekLastAction() == Some(task)
      ensures completedQueue == old(completedQueue)
    {
      tasks := RemoveFirst(tasks, task);
      actionStack := actionStack + [task];
    }

    /**
     * Removes the first occurrence of the task, if any, and enqueues the task in
     * every case; the history is not touched, so a completion cannot be undone.
     */
    method CompleteTask(task: Task)
      modifies this
      ensures tasks == RemoveFirst(old(tasks), task)
      ensures completedQueue == old(completedQueue) + [task]
      ensures actionStack == old(actionStack)
    {
      tasks := RemoveFirst(tasks, task);
      completedQueue := completedQueue + [task];
    }

    /**
     * Pops the top of the history, if there is one, and appends it to the open tasks
     * unless an equal task is already open. The task is not put back at its old position.
     */
    method UndoLastAction()
      modifies this
      ensures old(actionStack) == [] ==>
                tasks == old(tasks) && actionStack == []
      ensures old(actionStack) != [] ==>
                var last := old(actionStack)[|old(actionStack)| - 1];
                actionStack == old(actionStack)[..|old(actionStack)| - 1] &&
                tasks == (if last in old(tasks) then old(tasks) else old(tasks) + [last]) &&
                last in tasks
      ensures completedQueue == old(completedQueue)
    {
      if actionStack != [] {
        var last := actionStack[|actionStack| - 1];
        actionStack := actionStack[..|actionStack| - 1];
        if last !in tasks {
          tasks := tasks + [last];
        }
      }
    }

    /** Removes and returns the oldest completed task; None when the queue is empty. */
    method DequeueCompleted() returns (r: Option<Task>)
      modifies this
      ensures old(completedQueue) == [] ==> r == None && completedQueue == []
      ensures old(completedQueue) != [] ==>
                r == Some(old(completedQueue)[0]) && completedQueue == old(completedQueue)[1..]
      ensures tasks == old(tasks) && actionStack == old(actionStack)
    {
      if completedQueue == [] {
        r := None;
      } else {
        r := Some(completedQueue[0]);
        completedQueue := completedQueue[1..];
      }
    }

    /**
     * The earliest open task whose name or due date equals the keyword ignoring
     * case; None when no open task matches.
     */
    method SearchTask(keyword: string) returns (r: Option<Task>)
      ensures r.None? <==> forall j :: 0 <= j < |tasks| ==> !Matches(tasks[j], keyword)
      ensures r.Some? ==>
                exists i :: 0 <= i < |tasks| && tasks[i] == r.value && Matches(tasks[i], keyword) &&
                  forall j :: 0 <= j < i ==> !Matches(tasks[j], keyword)
    {
      var i := 0;
      while i < |tasks|
        invariant 0 <= i <= |tasks|
        invariant forall j :: 0 <= j < i ==> !Matches(tasks[j], keyword)
      {
        var t := tasks[i];
        if Matches(t, keyword) {
          return Some(t);
        }
        i := i + 1;
      }
      return None;
    }
  }
}
