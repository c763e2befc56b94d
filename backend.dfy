/**
  The data-access layer of the task manager: two tables, tasks and subtasks,
  each keyed by an integer row id, and the eight operations that read and
  change them. The relational store is modelled as two in-memory maps held
  by a `Store` object; its methods change those maps in place.
 */
module Backend {
  import opened Wrappers

  /** The fixed priority levels. The store keeps a level by its text value. */
  datatype Priority = Low | Medium | High {

    /** The enum member's value, the text written to the priority column. */
    function Value(): (r: string) {
      match this
      case Low => "low"
      case Medium => "medium"
      case High => "high"
    }
  }

  /** Looking a level up by its value: the level `Priority(text)` gives, or None where `Priority(text)` raises ValueError. */
  function PriorityFromValue(text: string): (r: Option<Priority>)
    ensures forall p: Priority :: r == Some(p) <==> p.Value() == text
  {
    if text == "low" then Some(Low)
    else if text == "medium" then Some(Medium)
    else if text == "high" then Some(High)
    else None
  }

  /** Python truthiness of an optional text argument: present and not the empty string. */
  predicate TruthyText(arg: Option<string>) {
    arg.Some? && arg.value != ""
  }

  /**
    The column form of an optional priority: its value, or no value. An enum
    member is always truthy, so "if priority" only tests for None.
   */
  function PriorityColumn(priority: Option<Priority>): (r: Option<string>)
    ensures r.None? <==> priority.None?
    ensures r.Some? ==> PriorityFromValue(r.value) == priority
  {
    if priority.Some? then Some(priority.value.Value()) else None
  }

  /** A row of the tasks table (the timestamps are not modelled). */
  datatype Task = Task(
    id: int,
    category: string,
    taskName: string,
    taskDetail: Option<string>,
    priority: Option<string>,
    assignee: Option<string>)

  /** A row of the subtasks table (the timestamps are not modelled). */
  datatype Subtask = Subtask(
    id: int,
    taskId: int,
    name: string,
    detail: Option<string>,
    completed: bool,
    initiated: bool)

  /**
    The rowid SQLite gives a row inserted without one: one more than the
    largest rowid in the table, or 1 when the table is empty.
   */
  ghost predicate IsNextRowId(keys: set<int>, id: int) {
    && (keys == {} ==> id == 1)
    && (keys != {} ==> id - 1 in keys)
    && (forall k :: k in keys ==> k < id)
  }

  /** Every finite set of row ids is empty or has a largest element. */
  lemma {:induction false} LargestKeyExists(keys: set<int>)
    ensures keys == {} || exists m :: m in keys && forall k :: k in keys ==> k <= m
  {
    if forall x :: x !in keys {
      assert keys == {};
    } else {
      var x :| x in keys;
      var rest := keys - {x};
      LargestKeyExists(rest);
      if rest == {} {
        forall k | k in keys
          ensures k <= x
        {
          assert k !in rest;
        }
      } else {
        var m :| m in rest && forall k :: k in rest ==> k <= m;
        var top := if x <= m then m else x;
        forall k | k in keys
          ensures k <= top
        {
          if k != x {
            assert k in rest;
          }
        }
      }
    }
  }

  /** Chooses the row id of the next insert into a table whose ids are `keys`. */
  method NextRowId(keys: set<int>) returns (id: int)
    ensures IsNextRowId(keys, id)
    ensures id !in keys
  {
    if keys == {} {
      id := 1;
    } else {
      LargestKeyExists(keys);
      var m :| m in keys && forall k :: k in keys ==> k <= m;
      id := m + 1;
    }
  }

  /** The two tables of the store. */
  class Store {
    var tasks: map<int, Task>
    var subtasks: map<int, Subtask>

    /**
      The store invariant: row ids are positive and each row is filed under
      its own id, a stored priority is the value of some level, and every
      subtask belongs to a stored task.
     */
    ghost predicate Valid()
      reads this
    {
      && (forall id :: id in tasks ==>
            1 <= id && tasks[id].id == id &&
            (tasks[id].priority.Some? ==> PriorityFromValue(tasks[id].priority.value).Some?))
      && (forall id :: id in subtasks ==>
            1 <= id && subtasks[id].id == id && subtasks[id].taskId in tasks)
    }

    /** A store whose tables have just been created. */
    constructor ()
      ensures Valid()
      ensures tasks == map[] && subtasks == map[]
    {
      tasks := map[];
      subtasks := map[];
    }

    /** The first task whose id is `taskId`, if there is one. */
    function GetTask(taskId: int): (r: Option<Task>)
      reads this
      requires Valid()
      ensures r.Some? <==> exists id :: id in tasks && tasks[id].id == taskId
      ensures r.Some? ==> r.value.id == taskId && r.value == tasks[taskId]
    {
      if taskId in tasks then Some(tasks[taskId]) else None
    }

    /**
      The first subtask whose id is `subtaskId`, if there is one: the lookup
      that updating and deleting a subtask start with.
     */
    function GetSubtask(subtaskId: int): (r: Option<Subtask>)
      reads this
      requires Valid()
      ensures r.Some? <==> exists id :: id in subtasks && subtasks[id].id == subtaskId
      ensures r.Some? ==> r.value.id == subtaskId && r.value == subtasks[subtaskId]
    {
      if subtaskId in subtasks then Some(subtasks[subtaskId]) else None
    }

    /** All tasks, in the order of a scan of the table: by ascending row id. */
    method GetTasks() returns (r: seq<Task>)
      requires Valid()
      ensures forall i :: 0 <= i < |r| ==> r[i].id in tasks && tasks[r[i].id] == r[i]
      ensures forall id :: id in tasks ==> tasks[id] in r
      ensures forall i, j :: 0 <= i < j < |r| ==> r[i].id < r[j].id
    {
      var top := NextRowId(tasks.Keys);
      r := [];
      var rowid := 1;
      while rowid < top
        invariant 1 <= rowid <= top
        invariant forall i :: 0 <= i < |r| ==>
          r[i].id < rowid && r[i].id in tasks && tasks[r[i].id] == r[i]
        invariant forall id :: id in tasks && id < rowid ==> tasks[id] in r
        invariant forall i, j :: 0 <= i < j < |r| ==> r[i].id < r[j].id
      {
        if rowid in tasks {
          r := r + [tasks[rowid]];
        }
        rowid := rowid + 1;
      }
    }

    /** Inserts a task under a fresh row id and returns the stored row. */
    method CreateTask(category: string, taskName: string, taskDetail: Option<string> := None,
                      priority: Option<Priority> := None, assignee: Option<string> := None)
      returns (t: Task)
      requires Valid()
      modifies this
      ensures Valid()
      ensures t.id !in old(tasks) && IsNextRowId(old(tasks).Keys, t.id)
      ensures t.category == category && t.taskName == taskName && t.taskDetail == taskDetail
      ensures t.priority == PriorityColumn(priority) && t.assignee == assignee
      ensures tasks == old(tasks)[t.id := t]
      ensures subtasks == old(subtasks)
    {
      var id := NextRowId(tasks.Keys);
      t := Task(id, category, taskName, taskDetail, PriorityColumn(priority), assignee);
      tasks := tasks[id := t];
    }

    /**
      Overwrites the fields of task `taskId` for which an argument is given:
      category, name, priority and assignee only when the argument is truthy,
      the detail whenever it is not None. Returns the updated row, or None
      (changing nothing) when there is no such task.
     */
    method UpdateTask(taskId: int, category: Option<string> := None, taskName: Option<string> := None,
                      taskDetail: Option<string> := None, priority: Option<Priority> := None,
                      assignee: Option<string> := None)
      returns (r: Option<Task>)
      requires Valid()
      modifies this
      ensures Valid()
      ensures r.Some? <==> taskId in old(tasks)
      ensures r.None? ==> tasks == old(tasks)
      ensures r.Some? ==> tasks == old(tasks)[taskId := r.value]
      ensures r.Some? ==>
        var was := old(tasks)[taskId];
        && r.value.id == taskId
        && r.value.category == (if TruthyText(category) then category.value else was.category)
        && r.value.taskName == (if TruthyText(taskName) then taskName.value else was.taskName)
        && r.value.taskDetail == (if taskDetail.Some? then taskDetail else was.taskDetail)
        && r.value.priority == (if priority.Some? then PriorityColumn(priority) else was.priority)
        && r.value.assignee == (if TruthyText(assignee) then assignee else was.assignee)
      ensures subtasks == old(subtasks)
    {
      r := GetTask(taskId);
      if r.Some? {
        var t := r.value;
        if TruthyText(category) {
          t := t.(category := category.value);
        }
        if TruthyText(taskName) {
          t := t.(taskName := taskName.value);
        }
        if taskDetail.Some? {
          t := t.(taskDetail := taskDetail);
        }
        if priority.Some? {
          t := t.(priority := PriorityColumn(priority));
        }
        if TruthyText(assignee) {
          t := t.(assignee := assignee);
        }
        tasks := tasks[taskId := t];
        r := Some(t);
      }
    }

    /**
      Deletes task `taskId` together with all of its subtasks (the
      relationship's delete-orphan cascade). Reports whether the task existed.
     */
    method DeleteTask(taskId: int) returns (deleted: bool)
      requires Valid()
      modifies this
      ensures Valid()
      ensures deleted <==> taskId in old(tasks)
      ensures tasks == old(tasks) - {taskId}
      ensures GetTask(taskId) == None
      ensures forall id :: id in subtasks <==> id in old(subtasks) && old(subtasks)[id].taskId != taskId
      ensures forall id :: id in subtasks ==> subtasks[id] == old(subtasks)[id]
      ensures !deleted ==> subtasks == old(subtasks)
    {
      var found := GetTask(taskId);
      if found.Some? {
        subtasks := map id | id in subtasks && subtasks[id].taskId != taskId :: subtasks[id];
        tasks := tasks - {taskId};
        deleted := true;
      } else {
        deleted := false;
      }
    }

    /**
      Inserts a subtask of task `taskId` under a fresh row id and returns it,
      or returns None and inserts nothing when there is no such task.
     */
    method CreateSubtask(taskId: int, name: string, detail: Option<string> := None,
                         completed: bool := false, initiated: bool := false)
      returns (r: Option<Subtask>)
      requires Valid()
      modifies this
      ensures Valid()
      ensures r.Some? <==> taskId in old(tasks)
      ensures r.None? ==> subtasks == old(subtasks)
      ensures r.Some? ==>
        && r.value.id !in old(subtasks) && IsNextRowId(old(subtasks).Keys, r.value.id)
        && r.value.taskId == taskId && r.value.name == name && r.value.detail == detail
        && r.value.completed == completed && r.value.initiated == initiated
        && subtasks == old(subtasks)[r.value.id := r.value]
      ensures tasks == old(tasks)
    {
      var parent := GetTask(taskId);
      if parent.Some? {
        var id := NextRowId(subtasks.Keys);
        var s := Subtask(id, taskId, name, detail, completed, initiated);
        subtasks := subtasks[id := s];
        r := Some(s);
      } else {
        r := None;
      }
    }

    /**
      Overwrites the fields of subtask `subtaskId` for which an argument is
      given: the name only when it is truthy, the detail and both flags
      whenever they are not None. Returns the updated row, or None (changing
      nothing) when there is no such subtask.
     */
    method UpdateSubtask(subtaskId: int, name: Option<string> := None, detail: Option<string> := None,
                         completed: Option<bool> := None, initiated: Option<bool> := None)
      returns (r: Option<Subtask>)
      requires Valid()
      modifies this
      ensures Valid()
      ensures r.Some? <==> subtaskId in old(subtasks)
      ensures r.None? ==> subtasks == old(subtasks)
      ensures r.Some? ==> subtasks == old(subtasks)[subtaskId := r.value]
      ensures r.Some? ==>
        var was := old(subtasks)[subtaskId];
        && r.value.id == subtaskId && r.value.taskId == was.taskId
        && r.value.name == (if TruthyText(name) then name.value else was.name)
        && r.value.detail == (if detail.Some? then detail else was.detail)
        && r.value.completed == (if completed.Some? then completed.value else was.completed)
        && r.value.initiated == (if initiated.Some? then initiated.value else was.initiated)
      ensures tasks == old(tasks)
    {
      r := GetSubtask(subtaskId);
      if r.Some? {
        var s := r.value;
        if TruthyText(name) {
          s := s.(name := name.value);
        }
        if detail.Some? {
          s := s.(detail := detail);
        }
        if completed.Some? {
          s := s.(completed := completed.value);
        }
        if initiated.Some? {
          s := s.(initiated := initiated.value);
        }
        subtasks := subtasks[subtaskId := s];
        r := Some(s);
      }
    }

    /** Deletes subtask `subtaskId` alone and reports whether it existed. */
    method DeleteSubtask(subtaskId: int) returns (deleted: bool)
      requires Valid()
      modifies this
      ensures Valid()
      ensures deleted <==> subtaskId in old(subtasks)
      ensures subtasks == old(subtasks) - {subtaskId}
      ensures GetSubtask(subtaskId) == None
      ensures tasks == old(tasks)
    {
      var found := GetSubtask(subtaskId);
      if found.Some? {
        subtasks := subtasks - {subtaskId};
        deleted := true;
      } else {
        deleted := false;
      }
    }
  }
}
