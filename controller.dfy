/**
 * One session of the page (`main` in app.py, lines 118-201). Each widget
 * event makes Streamlit run `main` from the top; the run reads and writes
 * the session keys `confirm_clear` and `edit_mode_{id}` and calls the store.
 * `Next` says what one run does to the session and which statements it
 * issues; `Page.Run` is the run itself.
 */
module Controller {
  import opened Tasks
  import opened TaskTable
  import opened Store

  /** The session keys `main` uses: `confirm_clear` (present or absent) and `edit_mode_{id}`. */
  datatype Session = Session(confirmClear: bool, editMode: map<int, bool>)

  /** A session before any button was pressed. */
  const Fresh := Session(false, map[])

  /** `st.session_state.get(f'edit_mode_{id}', False)` */
  predicate Editing(s: Session, id: int) {
    id in s.editMode && s.editMode[id]
  }

  /** The widget event that starts a run; at most one per run. */
  datatype Event =
    | Rerun                                                       // a run without a click
    | CreateClicked(title: string, description: string, isFavorite: bool)
    | ClearClicked                                                // "Clear All Tasks"
    | YesClicked                                                  // "Yes, delete all tasks"
    | CancelClicked                                               // "Cancel"
    | EditClicked(id: int)
    | SaveClicked(id: int, title: string, description: string)
    | FavoriteTicked(id: int, isFavorite: bool)                   // the row's checkbox now reads isFavorite
    | DeleteClicked(id: int)
  {
    /** The widgets drawn inside one listed row. */
    predicate OnRow() {
      EditClicked? || SaveClicked? || FavoriteTicked? || DeleteClicked?
    }
  }

  /** The session after a run and the statements the run issued, in order (CREATE TABLE aside). */
  datatype Step = Step(session: Session, issued: seq<Statement>)

  /** The "Filter by Favorite" selectbox: All, Favorite, Not Favorite. */
  function FavoriteFilterOf(choice: string): (f: Option<bool>)
    ensures f == Some(true) <==> choice == "Favorite"
    ensures f == Some(false) <==> choice == "Not Favorite"
    ensures f == None <==> choice != "Favorite" && choice != "Not Favorite"
  {
    if choice == "Favorite" then Some(true)
    else if choice == "Not Favorite" then Some(false)
    else None
  }

  /** A row with this id is drawn, so its widgets exist. */
  predicate Shown(rows: set<Row>, id: int) {
    exists r :: r in rows && r.id == id
  }

  /**
   * One run of `main` for event `e`, with `rows` the listing drawn in this
   * run. A row's widgets exist only when the row is listed; the checkbox,
   * Edit and Delete only while the row is not being edited, Save only while
   * it is.
   */
  function Next(s: Session, e: Event, rows: set<Row>): (r: Step)
    ensures |r.issued| <= 1
    ensures DeleteAll in r.issued <==> e.YesClicked? && s.confirmClear
    ensures !s.confirmClear && r.session.confirmClear ==> e.ClearClicked?
    ensures (e.YesClicked? || e.CancelClicked?) && s.confirmClear ==> !r.session.confirmClear
    ensures e.OnRow() && !Shown(rows, e.id) ==> r == Step(s, [])
    ensures forall id :: id in r.session.editMode ==> id in s.editMode || (e.OnRow() && id == e.id && Shown(rows, id))
  {
    match e
    case Rerun => Step(s, [])
    case CreateClicked(title, description, isFavorite) =>
      Step(s, [Insert(title, description, isFavorite)])
    case ClearClicked => Step(s.(confirmClear := true), [])
    case YesClicked =>
      if s.confirmClear then Step(s.(confirmClear := false), [DeleteAll]) else Step(s, [])
    case CancelClicked =>
      if s.confirmClear then Step(s.(confirmClear := false), []) else Step(s, [])
    case EditClicked(id) =>
      if Shown(rows, id) && !Editing(s, id) then Step(s.(editMode := s.editMode[id := true]), [])
      else Step(s, [])
    case SaveClicked(id, title, description) =>
      if Shown(rows, id) && Editing(s, id)
      then Step(s.(editMode := s.editMode[id := false]), [SetText(id, title, description)])
      else Step(s, [])
    case FavoriteTicked(id, isFavorite) =>
      if !Editing(s, id) && exists row :: row in rows && row.id == id && row.isFavorite != isFavorite
      then Step(s, [SetFavorite(id, isFavorite)])
      else Step(s, [])
    case DeleteClicked(id) =>
      if Shown(rows, id) && !Editing(s, id) then Step(s, [DeleteOne(id)]) else Step(s, [])
  }

  /** The "Favorite" and "Not Favorite" choices split the "All" listing in two. */
  lemma FilterChoicesSplitListing(tasks: Table, search: Option<string>)
    ensures Select(tasks, search, FavoriteFilterOf("Favorite")) !! Select(tasks, search, FavoriteFilterOf("Not Favorite"))
    ensures Select(tasks, search, FavoriteFilterOf("Favorite")) + Select(tasks, search, FavoriteFilterOf("Not Favorite"))
         == Select(tasks, search, FavoriteFilterOf("All"))
  {
  }

  /** While a row is edited, its checkbox, Edit and Delete do nothing. */
  lemma EditingHidesRowActions(s: Session, rows: set<Row>, id: int, isFavorite: bool)
    requires Editing(s, id)
    ensures Next(s, EditClicked(id), rows) == Step(s, [])
    ensures Next(s, DeleteClicked(id), rows) == Step(s, [])
    ensures Next(s, FavoriteTicked(id, isFavorite), rows) == Step(s, [])
  {
  }

  /** Requesting clear-all and then cancelling deletes nothing and ends with no pending confirmation. */
  lemma ClearThenCancel(s: Session, db: Db, rows1: set<Row>, rows2: set<Row>)
    ensures var first := Next(s, ClearClicked, rows1);
      var second := Next(first.session, CancelClicked, rows2);
      && first.issued + second.issued == []
      && CommitAll(db, first.issued + second.issued) == db
      && second.session == s.(confirmClear := false)
  {
  }

  /** Requesting clear-all and then confirming issues one DELETE and empties every listing. */
  lemma ClearThenConfirm(s: Session, db: Db, rows1: set<Row>, rows2: set<Row>,
                         search: Option<string>, favorite: Option<bool>)
    requires db.hasTable
    ensures var first := Next(s, ClearClicked, rows1);
      var second := Next(first.session, YesClicked, rows2);
      && first.issued + second.issued == [DeleteAll]
      && Select(CommitAll(db, first.issued + second.issued).tasks, search, favorite) == {}
      && second.session == s.(confirmClear := false)
  {
    var first := Next(s, ClearClicked, rows1);
    assert first == Step(s.(confirmClear := true), []);
    var second := Next(first.session, YesClicked, rows2);
    assert second == Step(s.(confirmClear := false), [DeleteAll]);
    assert first.issued + second.issued == [DeleteAll];
    DeleteAllEmptiesEveryListing(db, search, favorite);
  }

  /**
   * Edit on a listed row and then Save: the row gets the new title and
   * description, keeps its favourite flag, and leaves edit mode; no other
   * row changes.
   */
  lemma EditThenSave(s: Session, db: Db, search: Option<string>, favorite: Option<bool>,
                     id: int, title: string, description: string)
    requires db.hasTable && id in db.tasks && !Editing(s, id)
    requires RowOf(id, db.tasks[id]) in Select(db.tasks, search, favorite)
    ensures var rows := Select(db.tasks, search, favorite);
      var first := Next(s, EditClicked(id), rows);
      var second := Next(first.session, SaveClicked(id, title, description), rows);
      var after := CommitAll(db, first.issued + second.issued);
      && first.issued + second.issued == [SetText(id, title, description)]
      && after.tasks.Keys == db.tasks.Keys
      && after.tasks[id] == Task(title, description, db.tasks[id].isFavorite)
      && (forall k :: k in db.tasks && k != id ==> after.tasks[k] == db.tasks[k])
      && !Editing(second.session, id)
  {
  }

  /** The per-session controller: the session keys, and the store every run talks to. */
  class Page {
    var confirmClear: bool
    var editMode: map<int, bool>
    const store: TaskStore

    function State(): Session
      reads this
    {
      Session(confirmClear, editMode)
    }

    /** Edit-mode keys only name ids the sequence has handed out, so a new task never inherits one. */
    ghost predicate Valid()
      reads this, store
    {
      && store.Valid()
      && forall id :: id in editMode ==> id < store.nextId
    }

    constructor (store: TaskStore)
      requires store.Valid()
      ensures Valid() && State() == Fresh && this.store == store
    {
      this.store := store;
      confirmClear, editMode := false, map[];
    }

    /** One run of `main` triggered by event `e`, with the search box and selectbox reading `search` and `choice`. */
    method Run(e: Event, search: Option<string>, choice: string)
      requires Valid()
      modifies this, store
      ensures Valid()
      ensures var db := Commit(old(store.State()), CreateTable);
        var step := Next(old(State()), e, Select(db.tasks, search, FavoriteFilterOf(choice)));
        && State() == step.session
        && store.log == old(store.log) + [CreateTable] + step.issued
        && store.State() == CommitAll(db, step.issued)
      ensures e.CreateClicked? ==> !Editing(State(), old(store.nextId))
    {
      store.InitDb();
      ghost var db := store.State();
      CreateTableIdempotent(old(store.State()));
      if e.CreateClicked? {
        var ok := store.CreateTask(e.title, e.description, e.isFavorite);
        assert CommitAll(db, [Insert(e.title, e.description, e.isFavorite)]) == store.State();
        ExecKeepsValid(db, Insert(e.title, e.description, e.isFavorite));
        db := store.State();
      }
      var favorite := FavoriteFilterOf(choice);
      if e.ClearClicked? {
        confirmClear := true;
      }
      if confirmClear {
        if e.YesClicked? {
          var ok := store.DeleteAllTasks();
          confirmClear := false;
          assert CommitAll(db, [DeleteAll]) == store.State();
          return;
        }
        if e.CancelClicked? {
          confirmClear := false;
          return;
        }
      }
      var listed := store.ListTasks(search, favorite);
      var rows := listed.value;
      SelectFromTable(db.tasks, search, favorite);
      DrawRows(e, rows);
    }

    /** `for task in tasks`: draw each listed row; the row the event belongs to reacts and the run restarts. */
    method DrawRows(e: Event, rows: set<Row>)
      requires Valid() && store.hasTable
      requires forall x :: x in rows ==> x.id in store.tasks
      requires forall x, y :: x in rows && y in rows && x.id == y.id ==> x == y
      modifies this, store
      ensures Valid()
      ensures !e.OnRow() ==> State() == old(State()) && store.log == old(store.log) && store.State() == old(store.State())
      ensures e.OnRow() ==> var step := Next(old(State()), e, rows);
        && State() == step.session
        && store.log == old(store.log) + step.issued
        && store.State() == CommitAll(old(store.State()), step.issued)
    {
      var remaining := rows;
      while remaining != {}
        invariant remaining <= rows
        invariant forall r :: r in rows - remaining ==> !(e.OnRow() && r.id == e.id)
        decreases remaining
      {
        var r :| r in remaining;
        remaining := remaining - {r};
        if e.OnRow() && e.id == r.id {
          RowAction(e, r, rows);
          return;
        }
      }
    }

    /**
     * The widgets of listed row `r` reacting to `e` (app.py, lines 172-201):
     * Save while editing, otherwise the checkbox, Edit or Delete.
     */
    method RowAction(e: Event, r: Row, ghost rows: set<Row>)
      requires Valid() && store.hasTable
      requires e.OnRow() && e.id == r.id && r in rows
      requires forall x :: x in rows ==> x.id in store.tasks
      requires forall x :: x in rows && x.id == r.id ==> x == r
      modifies this, store
      ensures Valid()
      ensures var step := Next(old(State()), e, rows);
        && State() == step.session
        && store.log == old(store.log) + step.issued
        && store.State() == CommitAll(old(store.State()), step.issued)
    {
      ghost var db := store.State();
      var editing := r.id in editMode && editMode[r.id];
      if editing {
        if e.SaveClicked? {
          var ok := store.UpdateTask(r.id, e.title, e.description);
          editMode := editMode[r.id := false];
          assert CommitAll(db, [SetText(r.id, e.title, e.description)]) == store.State();
        }
      } else if e.FavoriteTicked? {
        if e.isFavorite != r.isFavorite {
          var ok := store.UpdateFavoriteStatus(r.id, e.isFavorite);
          assert CommitAll(db, [SetFavorite(r.id, e.isFavorite)]) == store.State();
        }
      } else if e.EditClicked? {
        editMode := editMode[r.id := true];
      } else if e.DeleteClicked? {
        var ok := store.DeleteTask(r.id);
        assert CommitAll(db, [DeleteOne(r.id)]) == store.State();
      }
    }
  }
}
