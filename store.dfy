/**
 * The store functions of app.py (lines 34-114). Each opens a connection,
 * runs one statement and commits; here each is one atomic step on the
 * table held by a TaskStore object. The ghost `log` records every
 * statement issued except the SELECT of `ListTasks`, so callers can state
 * how often each one ran.
 */
module Store {
  import opened Tasks
  import opened Query
  import opened TaskTable

  class TaskStore {
    var hasTable: bool
    var tasks: map<int, Task>
    var nextId: int
    ghost var log: seq<Statement>

    function State(): Db
      reads this
    {
      Db(hasTable, tasks, nextId)
    }

    ghost predicate Valid()
      reads this
    {
      TaskTable.Valid(State())
    }

    /** A database without the `tasks` table, its sequence not yet used. */
    constructor ()
      ensures Valid() && State() == Db(false, map[], 1) && log == []
    {
      hasTable, tasks, nextId := false, map[], 1;
      log := [];
    }

    /** `init_db` */
    method InitDb()
      requires Valid()
      modifies this
      ensures Valid() && hasTable
      ensures State() == Commit(old(State()), CreateTable)
      ensures old(hasTable) ==> State() == old(State())
      ensures log == old(log) + [CreateTable]
    {
      if !hasTable {
        hasTable, tasks := true, map[];
      }
      log := log + [CreateTable];
    }

    /** `create_task`; here and below, `ok` is false when the database rejects the statement. */
    method CreateTask(title: string, description: string, isFavorite: bool) returns (ok: bool)
      requires Valid()
      modifies this
      ensures Valid()
      ensures ok <==> Exec(old(State()), Insert(title, description, isFavorite)).Some?
      ensures State() == Commit(old(State()), Insert(title, description, isFavorite))
      ensures log == old(log) + [Insert(title, description, isFavorite)]
    {
      ok := hasTable && nextId <= MaxSerial;
      if ok {
        tasks := tasks[nextId := Task(title, description, isFavorite)];
        nextId := nextId + 1;
      }
      log := log + [Insert(title, description, isFavorite)];
    }

    /** `list_tasks`: build the statement, then return the rows its WHERE clause admits. */
    method ListTasks(search: Option<string>, favorite: Option<bool>) returns (rows: Option<set<Row>>)
      requires Valid()
      ensures rows == if hasTable then Some(Select(tasks, search, favorite)) else None
    {
      var query, conditions, params := BuildQuery(search, favorite);
      if !hasTable {
        return None;
      }
      var found := set id | id in tasks && Where(conditions, params, RowOf(id, tasks[id])) :: RowOf(id, tasks[id]);
      assert found == Select(tasks, search, favorite);
      rows := Some(found);
    }

    /** `update_favorite_status` */
    method UpdateFavoriteStatus(id: int, isFavorite: bool) returns (ok: bool)
      requires Valid()
      modifies this
      ensures Valid()
      ensures ok <==> Exec(old(State()), SetFavorite(id, isFavorite)).Some?
      ensures State() == Commit(old(State()), SetFavorite(id, isFavorite))
      ensures log == old(log) + [SetFavorite(id, isFavorite)]
    {
      ok := hasTable;
      if ok && id in tasks {
        tasks := tasks[id := tasks[id].(isFavorite := isFavorite)];
      }
      log := log + [SetFavorite(id, isFavorite)];
    }

    /** `delete_task` */
    method DeleteTask(id: int) returns (ok: bool)
      requires Valid()
      modifies this
      ensures Valid()
      ensures ok <==> Exec(old(State()), DeleteOne(id)).Some?
      ensures State() == Commit(old(State()), DeleteOne(id))
      ensures log == old(log) + [DeleteOne(id)]
    {
      ok := hasTable;
      if ok {
        tasks := tasks - {id};
      }
      log := log + [DeleteOne(id)];
    }

    /** `update_task` */
    method UpdateTask(id: int, title: string, description: string) returns (ok: bool)
      requires Valid()
      modifies this
      ensures Valid()
      ensures ok <==> Exec(old(State()), SetText(id, title, description)).Some?
      ensures State() == Commit(old(State()), SetText(id, title, description))
      ensures log == old(log) + [SetText(id, title, description)]
    {
      ok := hasTable;
      if ok && id in tasks {
        tasks := tasks[id := tasks[id].(title := title, description := description)];
      }
      log := log + [SetText(id, title, description)];
    }

    /** `delete_all_tasks` */
    method DeleteAllTasks() returns (ok: bool)
      requires Valid()
      modifies this
      ensures Valid()
      ensures ok <==> Exec(old(State()), DeleteAll).Some?
      ensures State() == Commit(old(State()), DeleteAll)
      ensures log == old(log) + [DeleteAll]
    {
      ok := hasTable;
      if ok {
        tasks := map[];
      }
      log := log + [DeleteAll];
    }
  }
}
