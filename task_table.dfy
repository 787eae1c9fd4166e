/**
 * The `tasks` table (app.py, lines 37-46) and what each statement the store
 * issues does to it. Each store function runs exactly one statement.
 */
module TaskTable {
  import opened Tasks
  import opened Pattern
  import opened Query

  type Table = map<int, Task>

  /** The largest value of the `integer` sequence behind `id SERIAL`. */
  const MaxSerial := 2147483647

  /** The database as the page sees it: whether `tasks` exists, its rows, and the sequence's next value. */
  datatype Db = Db(hasTable: bool, tasks: Table, nextId: int)

  /** Every id in use was handed out by the sequence; no table, no rows and a sequence not yet started. */
  predicate Valid(db: Db) {
    && 1 <= db.nextId
    && (forall id :: id in db.tasks ==> 1 <= id < db.nextId)
    && (!db.hasTable ==> db.tasks == map[] && db.nextId == 1)
  }

  /** The statements the store functions execute. */
  datatype Statement =
    | CreateTable                                              // CREATE TABLE IF NOT EXISTS tasks (...)
    | Insert(title: string, description: string, isFavorite: bool)  // INSERT INTO tasks (...) VALUES (...)
    | SetText(id: int, title: string, description: string)     // UPDATE tasks SET title, description WHERE id
    | SetFavorite(id: int, isFavorite: bool)                   // UPDATE tasks SET is_favorite WHERE id
    | DeleteOne(id: int)                                       // DELETE FROM tasks WHERE id
    | DeleteAll                                                // DELETE FROM tasks

  /**
   * The effect of one statement, or None when the database rejects it: every
   * statement but CreateTable needs the table, and an insert needs a value
   * left in the sequence.
   */
  function Exec(db: Db, st: Statement): (r: Option<Db>)
    ensures r.Some? ==> r.value.hasTable && (db.hasTable || st.CreateTable?)
    ensures r.Some? ==> r.value.nextId == db.nextId + (if st.Insert? && db.hasTable then 1 else 0)
    ensures r.Some? ==> forall id :: id in r.value.tasks && id !in db.tasks ==> st.Insert? && id == db.nextId
  {
    if st.CreateTable? then
      Some(if db.hasTable then db else db.(hasTable := true, tasks := map[]))
    else if !db.hasTable then None
    else match st
      case Insert(title, description, isFavorite) =>
        if db.nextId > MaxSerial then None
        else Some(Db(true, db.tasks[db.nextId := Task(title, description, isFavorite)], db.nextId + 1))
      case SetText(id, title, description) =>
        Some(if id in db.tasks then db.(tasks := db.tasks[id := db.tasks[id].(title := title, description := description)]) else db)
      case SetFavorite(id, isFavorite) =>
        Some(if id in db.tasks then db.(tasks := db.tasks[id := db.tasks[id].(isFavorite := isFavorite)]) else db)
      case DeleteOne(id) =>
        Some(db.(tasks := db.tasks - {id}))
      case DeleteAll =>
        Some(db.(tasks := map[]))
  }

  /** A rejected statement leaves the database as it was. */
  function Commit(db: Db, st: Statement): Db {
    match Exec(db, st)
    case Some(d) => d
    case None => db
  }

  function CommitAll(db: Db, sts: seq<Statement>): Db
    decreases |sts|
  {
    if sts == [] then db else CommitAll(Commit(db, sts[0]), sts[1..])
  }

  /** The rows `list_tasks` returns; the SELECT has no ORDER BY, so a set. */
  function Select(tasks: Table, search: Option<string>, favorite: Option<bool>): (r: set<Row>)
    ensures forall row :: row in r ==> row.id in tasks && row == RowOf(row.id, tasks[row.id]) && Matches(search, favorite, row)
    ensures forall id :: id in tasks && Matches(search, favorite, RowOf(id, tasks[id])) ==> RowOf(id, tasks[id]) in r
  {
    set id | id in tasks && Matches(search, favorite, RowOf(id, tasks[id])) :: RowOf(id, tasks[id])
  }

  /** A statement is rejected only for a missing table or an exhausted sequence. */
  lemma ExecFails(db: Db, st: Statement)
    ensures Exec(db, st).None? <==>
      (!db.hasTable && !st.CreateTable?) || (db.hasTable && st.Insert? && db.nextId > MaxSerial)
  {
  }

  /** Every statement keeps the table valid and never hands out an id again. */
  lemma ExecKeepsValid(db: Db, st: Statement)
    requires Valid(db)
    ensures var d := Commit(db, st);
      && Valid(d)
      && db.nextId <= d.nextId
      && (forall id :: id in d.tasks && id !in db.tasks ==> id == db.nextId && st.Insert?)
  {
  }

  lemma {:induction false} CommitAllKeepsValid(db: Db, sts: seq<Statement>)
    requires Valid(db)
    ensures Valid(CommitAll(db, sts)) && db.nextId <= CommitAll(db, sts).nextId
    decreases |sts|
  {
    if sts != [] {
      ExecKeepsValid(db, sts[0]);
      CommitAllKeepsValid(Commit(db, sts[0]), sts[1..]);
    }
  }

  /** An id freed by a delete is never in use again. */
  lemma {:induction false} IdsNeverReused(db: Db, sts: seq<Statement>, id: int)
    requires Valid(db) && id < db.nextId && id !in db.tasks
    ensures id !in CommitAll(db, sts).tasks
    decreases |sts|
  {
    if sts != [] {
      ExecKeepsValid(db, sts[0]);
      IdsNeverReused(Commit(db, sts[0]), sts[1..], id);
    }
  }

  /** `CREATE TABLE IF NOT EXISTS`: a second run changes nothing. */
  lemma CreateTableIdempotent(db: Db)
    ensures Commit(db, CreateTable).hasTable
    ensures db.hasTable ==> Commit(db, CreateTable) == db
    ensures Commit(Commit(db, CreateTable), CreateTable) == Commit(db, CreateTable)
  {
  }

  /** An insert adds one row with the given fields under a fresh id and leaves the others. */
  lemma InsertAddsOneRow(db: Db, title: string, description: string, isFavorite: bool)
    requires Valid(db) && db.hasTable && db.nextId <= MaxSerial
    ensures var d := Commit(db, Insert(title, description, isFavorite));
      && db.nextId !in db.tasks
      && d.tasks.Keys == db.tasks.Keys + {db.nextId}
      && |d.tasks| == |db.tasks| + 1
      && d.tasks[db.nextId] == Task(title, description, isFavorite)
      && (forall id :: id in db.tasks ==> d.tasks[id] == db.tasks[id])
  {
  }

  /** `update_task` rewrites title and description of one row and nothing else. */
  lemma SetTextChangesOnlyText(db: Db, id: int, title: string, description: string)
    requires db.hasTable
    ensures var d := Commit(db, SetText(id, title, description));
      && d.hasTable && d.nextId == db.nextId
      && d.tasks.Keys == db.tasks.Keys
      && (forall k :: k in db.tasks && k != id ==> d.tasks[k] == db.tasks[k])
      && (id in db.tasks ==>
            d.tasks[id] == Task(title, description, db.tasks[id].isFavorite))
      && (id !in db.tasks ==> d == db)
  {
  }

  /** `update_favorite_status` rewrites the flag of one row and nothing else. */
  lemma SetFavoriteChangesOnlyFlag(db: Db, id: int, isFavorite: bool)
    requires db.hasTable
    ensures var d := Commit(db, SetFavorite(id, isFavorite));
      && d.hasTable && d.nextId == db.nextId
      && d.tasks.Keys == db.tasks.Keys
      && (forall k :: k in db.tasks && k != id ==> d.tasks[k] == db.tasks[k])
      && (id in db.tasks ==>
            d.tasks[id] == Task(db.tasks[id].title, db.tasks[id].description, isFavorite))
      && (id !in db.tasks ==> d == db)
  {
  }

  /** `delete_task` removes exactly the row with that id; a second call changes nothing. */
  lemma DeleteRemovesOnlyId(db: Db, id: int)
    requires db.hasTable
    ensures var d := Commit(db, DeleteOne(id));
      && d.tasks.Keys == db.tasks.Keys - {id}
      && (forall k :: k in d.tasks ==> d.tasks[k] == db.tasks[k])
      && d.nextId == db.nextId
      && Commit(d, DeleteOne(id)) == d
  {
  }

  /** After `delete_all_tasks` every listing is empty, whatever the filters. */
  lemma DeleteAllEmptiesEveryListing(db: Db, search: Option<string>, favorite: Option<bool>)
    requires db.hasTable
    ensures Commit(db, DeleteAll).tasks == map[]
    ensures Select(Commit(db, DeleteAll).tasks, search, favorite) == {}
  {
  }

  /** The rows of a listing are rows of the table, one per id. */
  lemma SelectFromTable(tasks: Table, search: Option<string>, favorite: Option<bool>)
    ensures forall r :: r in Select(tasks, search, favorite) ==>
      r.id in tasks && r == RowOf(r.id, tasks[r.id]) && Matches(search, favorite, r)
    ensures forall r1, r2 :: r1 in Select(tasks, search, favorite) && r2 in Select(tasks, search, favorite) && r1.id == r2.id ==> r1 == r2
  {
  }

  /** Without filters, and with an empty search text, the listing is the whole table. */
  lemma UnfilteredListingIsWholeTable(tasks: Table, favorite: Option<bool>)
    ensures Select(tasks, None, None) == set id | id in tasks :: RowOf(id, tasks[id])
    ensures Select(tasks, Some(""), favorite) == Select(tasks, None, favorite)
  {
  }

  /** The "Favorite" and "Not Favorite" listings split the unfiltered one in two. */
  lemma FavoriteFilterPartitions(tasks: Table, search: Option<string>)
    ensures Select(tasks, search, Some(true)) !! Select(tasks, search, Some(false))
    ensures Select(tasks, search, Some(true)) + Select(tasks, search, Some(false)) == Select(tasks, search, None)
    ensures forall b: bool :: Select(tasks, search, Some(b)) == set r | r in Select(tasks, search, None) && r.isFavorite == b
  {
  }

  /** For a search text without metacharacters, the listing is the case-insensitive substring matches. */
  lemma SearchSelectsSubstrings(tasks: Table, q: string, favorite: Option<bool>)
    requires Plain(q)
    ensures forall r :: r in Select(tasks, Some(q), favorite) <==>
      r in Select(tasks, None, favorite) && Contains(Fold(r.title), Fold(q))
  {
    forall id | id in tasks {
      SearchIsSubstring(tasks[id].title, q);
    }
    if q == [] {
      forall s: string ensures Contains(Fold(s), Fold(q)) { assert Fold(q) <= Fold(s)[0..]; }
    }
  }

  /**
   * A created task is listed when searched for by its own title and its
   * favourite flag, provided the title has no backslash; `%` and `_` in it
   * match themselves among other things.
   */
  lemma CreatedTaskIsListed(db: Db, title: string, description: string, isFavorite: bool)
    requires Valid(db) && db.hasTable && db.nextId <= MaxSerial && Escape !in title
    ensures Row(db.nextId, title, description, isFavorite)
      in Select(Commit(db, Insert(title, description, isFavorite)).tasks, Some(title), Some(isFavorite))
  {
    var d := Commit(db, Insert(title, description, isFavorite));
    var row := Row(db.nextId, title, description, isFavorite);
    SearchFindsOwnTitle(title);
    assert RowOf(db.nextId, d.tasks[db.nextId]) == row;
    assert Matches(Some(title), Some(isFavorite), row);
  }

  /** A task whose title holds a backslash is not found by searching for its own title. */
  lemma BackslashTitleNotListed(db: Db)
    requires Valid(db) && db.hasTable && db.nextId <= MaxSerial
    ensures Row(db.nextId, "a\\b", "", false)
      !in Select(Commit(db, Insert("a\\b", "", false)).tasks, Some("a\\b"), Some(false))
  {
    BackslashTitleNotFound();
    assert SearchPattern("a\\b") == "%a\\b%";
  }
}
