# BuraqManager data-access layer in Dafny

BuraqManager is a desktop task manager. Its persistence layer (`backend.py`) keeps two
tables in a local SQLite file: **tasks** (category, name, optional detail, optional
priority, optional assignee) and **subtasks** (owning task id, name, optional detail, a
`completed` and an `initiated` flag). Every row is keyed by an integer id that the
database assigns. Eight operations read and change the tables: `get_tasks`, `get_task`,
`create_task`, `update_task`, `delete_task`, `create_subtask`, `update_subtask` and
`delete_subtask`.

This project models that layer as a class `Backend.Store` with one map per table, keyed
by row id. Each operation is a method that changes those maps in place, or a
function/method that only reads them. Python's `None` is `Wrappers.Option`. "Truthy" on a
text argument is written out as `Backend.TruthyText` (present and not `""`). A `Priority`
argument is truthy whenever it is present, because enum members are always truthy.

The store invariant `Store.Valid()` says three things:
- every row is filed under its own positive id;
- a stored priority is the value of one of the three levels;
- every subtask's `taskId` names a stored task (referential integrity).

Every operation requires `Valid()` and re-establishes it.

Modelling decisions taken from the code:
- Row ids. The columns are declared `Integer, primary_key=True, autoincrement=True`. On
  SQLite this does not emit the `AUTOINCREMENT` keyword, so a new row gets one more than
  the largest rowid in the table, or 1 if the table is empty. The model uses exactly
  that rule (`NextRowId`). A new id is never in use. But the id of a deleted
  largest-id row is handed out again (`BackendClients.DeletedIdIsReused`); it is not a
  never-reused counter.
- Partial updates are uneven, as written in the code. In `update_task`, category, name,
  priority and assignee are applied only when truthy, and the detail whenever it is not
  `None`. In `update_subtask`, the name is applied only when truthy; the detail and both
  flags whenever they are not `None`. So a subtask's `completed` can be set back to
  `false`, and a task's detail can be cleared to `""`. A task's name, category or assignee
  cannot be cleared.
- Deleting a task removes all of its subtasks. This is the relationship's
  `cascade="all, delete-orphan"`, which the ORM carries out.
- `get_tasks` runs a table scan with no `ORDER BY`. The model returns the rows in
  ascending row id, which is rowid order.

Files: `wrappers.dfy` (Option), `backend.dfy` (module `Backend`: the records, row ids and
the store), `clients.dfy` (module `BackendClients`: call sequences that the backend's
tests exercise, and the consequences of the update rules, each stated for every valid
store).

## Model

| member | source | states |
|---|---|---|
| `Backend.PriorityFromValue` | backend.py:9-12 | Looking a level up by its text finds level `p` exactly when `p`'s value is that text; "low", "medium" and "high" are the only texts that name a level |
| `Backend.PriorityColumn` | backend.py:63 | The stored form of a priority argument is absent exactly when no priority was given, and it decodes back to the level that was given |
| `Backend.LargestKeyExists` | backend.py:17 | Every finite set of row ids is empty or has a largest element, so SQLite's "largest rowid plus one" is always defined |
| `Backend.NextRowId` | backend.py:31 | The id for the next insert is 1 in an empty table and otherwise one more than the largest id in use; it is larger than every id in use, hence fresh |
| `Backend.Store.constructor` | backend.py:45-47 | A freshly created database has two empty tables and satisfies the store invariant |
| `Backend.Store.GetTask` | backend.py:59-60 | Returns a task exactly when some stored task has that id, and then it is the task with that id; an id that names no task yields None |
| `Backend.Store.GetSubtask` | backend.py:105 | Returns a subtask exactly when some stored subtask has that id, and then it is the subtask with that id, else None |
| `Backend.Store.GetTasks` | backend.py:56-57 | Returns every stored task and only stored tasks, each once, in strictly ascending id order |
| `Backend.Store.CreateTask` | backend.py:62-67 | The new task's id was not in use and follows the rowid rule. The row holds exactly the given category, name, detail and assignee; priority is stored as its value, or None. No other row of either table changes |
| `Backend.Store.UpdateTask` | backend.py:69-84 | A missing id returns None and changes nothing. Otherwise category, name, priority and assignee change only when the argument is truthy, and detail whenever it is not None. Only that task changes, subtasks are unchanged, and the updated row is returned |
| `Backend.Store.DeleteTask` | backend.py:86-92 | Returns true exactly when the task existed. Afterwards the task is gone and `GetTask` yields None, and exactly the subtasks of that task are gone. Other tasks and other subtasks are untouched, and a missing id changes nothing |
| `Backend.Store.CreateSubtask` | backend.py:94-102 | If no task has `taskId`, returns None and inserts nothing. Otherwise the new subtask has a fresh id, `taskId`, the given name, detail and flags, and no other row changes |
| `Backend.Store.UpdateSubtask` | backend.py:104-117 | A missing id returns None and changes nothing. Otherwise the name changes only when truthy; detail, completed and initiated change whenever they are not None. The owner and the other rows are unchanged |
| `Backend.Store.DeleteSubtask` | backend.py:119-125 | Returns true exactly when the subtask existed, and removes only that subtask; the tasks table is unchanged |
| `BackendClients.CreateThenGet` | tests/test_backend.py:33-42 | Reading a task back by the id that creating it returned yields the created row, with the same id and name; the optional fields default to None |
| `BackendClients.RenameKeepsOtherFields` | tests/test_backend.py:44-52 | Updating only the name of an existing task to a non-empty text sets that name and leaves every other field and every other row as it was |
| `BackendClients.EmptyTextIsNotApplied` | backend.py:72-81 | Passing `""` for category, name and assignee changes nothing in either table, so those fields cannot be cleared |
| `BackendClients.DetailCanBeCleared` | backend.py:76-77 | Passing `""` as the detail of an existing task stores `""` as that task's detail; no other field, no other task and no subtask changes |
| `BackendClients.DeleteTaskCascades` | tests/test_backend.py:54-66 | Deleting a just-created task returns true; afterwards neither the task nor a subtask created under it can be read back, and both tables are as they were before the task was created |
| `BackendClients.CreateSubtaskDefaults` | tests/test_backend.py:68-79 | A subtask created under a new task references it, keeps the given name and detail, and is neither completed nor initiated when the flags are omitted |
| `BackendClients.SubtaskNeedsParent` | backend.py:95-102 | Creating a subtask under an id that names no task returns None and leaves both tables unchanged |
| `BackendClients.SubtaskFlagsApply` | tests/test_backend.py:81-91 | Updating an existing subtask's name together with its flags stores all three, whether each flag is true or false; no other subtask and no task changes |
| `BackendClients.DeleteSubtaskKeepsSiblings` | tests/test_backend.py:93-102 | Deleting one of two subtasks of a task returns true and removes it; the parent task and the sibling subtask read back unchanged |
| `BackendClients.DeletedIdIsReused` | backend.py:17 | In an empty store, creating a task gives it id 1, and after deleting it the next task gets id 1 again |

## Left out

- Timestamps: `createdAt` and `updatedAt` are taken from the wall clock (`datetime.utcnow`), so they are not modelled.
- The SQLAlchemy engine, `create_all`, `SessionLocal`, `get_db`, `commit` and `refresh` are library I/O. The store is an in-memory object, and each method is one committed unit of work.
- The returned rows are values. The ORM returns live objects tied to the session, and that aliasing is not modelled.
- The `task`/`subtasks` relationship attributes (`back_populates`) are not modelled as navigable objects. Only their delete cascade is.
- Column length limits (`String(100)`, `String(255)`, `String(20)`): SQLite does not enforce them, and no code checks them.
- Storage failures are not modelled. This covers an integrity error from passing `None` for a required column without a default (a task's category or name, a subtask's name), and a disk error. Arguments are typed so that required values are present.
- `Backend.Store.CreateSubtask`: the flags are booleans, so passing `None` for `completed` (which falls back to the column default `False`) is not modelled.
- `Backend.Store.CreateSubtask`: `initiated` is a nullable column, and the Python function accepts an explicit `None` for it; the model takes a boolean.
- `Backend.NextRowId`: row ids are unbounded integers. SQLite's 64-bit rowid limit is not modelled, nor its random choice of rowid once the largest rowid is the maximum.
- `Backend.Store.GetTasks`: SQLite gives no order without `ORDER BY`. The model fixes the order of a rowid scan, which is what a plain table scan returns.
- The graphical window (`main.py`) and the dashboard mockup (`dev_1.0.py`) are presentation code and are not part of this model. That includes the category sidebar and the category filter.
