/**
  Call sequences on the store, one for each behaviour the backend's tests
  exercise and for the consequences of the partial-update rules, each stated
  for every valid store and every argument.
 */
module BackendClients {
  import opened Wrappers
  import opened Backend

  /** A task read back by the id its creation returned is the created row, with that id and name. */
  method CreateThenGet(s: Store, category: string, taskName: string) returns (t: Task, got: Option<Task>)
    requires s.Valid()
    modifies s
    ensures s.Valid()
    ensures got == Some(t) && got.value.id == t.id && got.value.taskName == taskName
    ensures t.category == category && t.taskDetail == None && t.priority == None && t.assignee == None
  {
    t := s.CreateTask(category, taskName);
    got := s.GetTask(t.id);
  }

  /** Renaming a task to a non-empty name changes the name and nothing else in either table. */
  method RenameKeepsOtherFields(s: Store, taskId: int, newName: string) returns (r: Option<Task>)
    requires s.Valid() && taskId in s.tasks && newName != ""
    modifies s
    ensures s.Valid()
    ensures r == Some(old(s.tasks[taskId]).(taskName := newName))
    ensures s.tasks == old(s.tasks)[taskId := r.value]
    ensures s.subtasks == old(s.subtasks)
  {
    r := s.UpdateTask(taskId, taskName := Some(newName));
  }

  /**
    Empty strings for category, name and assignee are skipped like missing
    arguments, so none of those fields can be cleared: the store is unchanged.
   */
  method EmptyTextIsNotApplied(s: Store, taskId: int) returns (r: Option<Task>)
    requires s.Valid()
    modifies s
    ensures s.Valid()
    ensures s.tasks == old(s.tasks) && s.subtasks == old(s.subtasks)
    ensures r == (if taskId in old(s.tasks) then Some(old(s.tasks[taskId])) else None)
  {
    r := s.UpdateTask(taskId, category := Some(""), taskName := Some(""), assignee := Some(""));
  }

  /** The detail is applied whenever it is given, so it can be cleared to the empty string. */
  method DetailCanBeCleared(s: Store, taskId: int) returns (r: Option<Task>)
    requires s.Valid() && taskId in s.tasks
    modifies s
    ensures s.Valid()
    ensures r == Some(old(s.tasks[taskId]).(taskDetail := Some("")))
    ensures s.tasks == old(s.tasks)[taskId := r.value] && s.subtasks == old(s.subtasks)
  {
    r := s.UpdateTask(taskId, taskDetail := Some(""));
  }

  /** Deleting a task makes it unreadable and takes a subtask created under it along. */
  method DeleteTaskCascades(s: Store, category: string, taskName: string, subtaskName: string)
    returns (deleted: bool, gotTask: Option<Task>, gotSubtask: Option<Subtask>)
    requires s.Valid()
    modifies s
    ensures s.Valid()
    ensures deleted && gotTask == None && gotSubtask == None
    ensures s.tasks == old(s.tasks) && s.subtasks == old(s.subtasks)
  {
    var t := s.CreateTask(category, taskName);
    // the new task id is fresh, so no subtask that existed before belongs to it
    assert forall id :: id in old(s.subtasks) ==> old(s.subtasks)[id].taskId != t.id;
    var sub := s.CreateSubtask(t.id, subtaskName);
    ghost var made := s.subtasks;
    deleted := s.DeleteTask(t.id);
    forall id | id in old(s.subtasks)
      ensures id in s.subtasks && s.subtasks[id] == old(s.subtasks)[id]
    {
      assert id != sub.value.id && made[id] == old(s.subtasks)[id];
    }
    forall id | id in s.subtasks
      ensures id in old(s.subtasks)
    {
      assert id in made && made[id].taskId != t.id;
    }
    gotTask := s.GetTask(t.id);
    gotSubtask := s.GetSubtask(sub.value.id);
  }

  /** A subtask created under a new task belongs to it, keeps its name and detail, and starts neither completed nor initiated. */
  method CreateSubtaskDefaults(s: Store, taskName: string, name: string, detail: string)
    returns (parent: Task, sub: Option<Subtask>)
    requires s.Valid()
    modifies s
    ensures s.Valid()
    ensures sub.Some? && sub.value.taskId == parent.id
    ensures sub.value.name == name && sub.value.detail == Some(detail)
    ensures !sub.value.completed && !sub.value.initiated
  {
    parent := s.CreateTask("", taskName);
    sub := s.CreateSubtask(parent.id, name, Some(detail));
  }

  /** Under an id that names no task, no subtask is created. */
  method SubtaskNeedsParent(s: Store, taskId: int, name: string) returns (sub: Option<Subtask>)
    requires s.Valid() && taskId !in s.tasks
    modifies s
    ensures s.Valid()
    ensures sub == None && s.subtasks == old(s.subtasks) && s.tasks == old(s.tasks)
  {
    sub := s.CreateSubtask(taskId, name);
  }

  /** Both flags of a subtask can be set and cleared, and its name can be changed along with them. */
  method SubtaskFlagsApply(s: Store, subtaskId: int, name: string, completed: bool, initiated: bool)
    returns (r: Option<Subtask>)
    requires s.Valid() && subtaskId in s.subtasks && name != ""
    modifies s
    ensures s.Valid()
    ensures r == Some(old(s.subtasks[subtaskId]).(name := name, completed := completed, initiated := initiated))
    ensures s.subtasks == old(s.subtasks)[subtaskId := r.value] && s.tasks == old(s.tasks)
  {
    r := s.UpdateSubtask(subtaskId, name := Some(name), completed := Some(completed), initiated := Some(initiated));
  }

  /** Deleting one of two subtasks of a task leaves the task and the other subtask as they were. */
  method DeleteSubtaskKeepsSiblings(s: Store, taskName: string)
    returns (parent: Task, first: Subtask, second: Subtask, deleted: bool)
    requires s.Valid()
    modifies s
    ensures s.Valid()
    ensures deleted && s.GetSubtask(first.id) == None
    ensures s.GetTask(parent.id) == Some(parent) && s.GetSubtask(second.id) == Some(second)
    ensures first.taskId == parent.id && second.taskId == parent.id
  {
    parent := s.CreateTask("", taskName);
    var made := s.CreateSubtask(parent.id, "first");
    first := made.value;
    made := s.CreateSubtask(parent.id, "second");
    second := made.value;
    deleted := s.DeleteSubtask(first.id);
  }

  /**
    Row ids are reused: after the only task of an empty store is deleted,
    the next task gets the same id.
   */
  method DeletedIdIsReused(s: Store) returns (first: Task, second: Task)
    requires s.Valid() && s.tasks == map[]
    modifies s
    ensures s.Valid()
    ensures first.id == 1 && second.id == first.id
  {
    first := s.CreateTask("", "one");
    var deleted := s.DeleteTask(first.id);
    second := s.CreateTask("", "two");
  }
}
