# Prompt Manager: task store, list query and page session

A model of the core of a one-page Streamlit "Prompt Manager" (`app.py`). The
page keeps short text tasks in a Postgres table `tasks(id SERIAL, title,
description, is_favorite)`. The user creates them through a form, lists them
by title search and favourite filter, edits a task's title and description in
place, ticks its favourite checkbox, and deletes it. A "Clear All Tasks"
button deletes everything after a confirmation.

The model has six modules:

- `Tasks` (tasks.dfy): a task and a selected row, plus `Option`.
- `Pattern` (pattern.dfy): the `ILIKE` match the search asks for. `%` matches
  any run of characters, `_` matches one character, and a backslash escapes
  the next character. Both sides are folded with ASCII lower-casing.
- `Query` (query.dfy): `list_tasks`'s statement builder. `BuildQuery` appends
  to the condition and parameter lists step by step and adds `WHERE` only when
  a condition exists. `Where` gives the meaning of the built WHERE clause, with
  the k-th `%s` bound to the k-th parameter. `Matches` is the filter the page
  promises.
- `TaskTable` (task_table.dfy): the database as a value. It holds whether the
  table exists, the rows keyed by id, and the next value of the `SERIAL`
  sequence. `Exec` gives the effect of each statement the store issues, and
  `Select` gives the rows a listing returns, as a set.
- `Store` (store.dfy): class `TaskStore`, one method per store function. Each
  method changes the object's fields as its one statement changes the table.
  A ghost log records every statement issued except the SELECT of `ListTasks`.
- `Controller` (controller.dfy): the session keys `confirm_clear` and
  `edit_mode_{id}`. `Next` is the specification of one run of `main` for one
  widget event. Class `Page` runs `main`: it ensures the table exists, handles
  the form, the clear-all confirmation and the listing, then loops over the
  listed rows.

Three things the code does that a reader may not expect; the model follows the code:

- Deleting a task does not remove its `edit_mode_{id}` key (app.py:200).
  Save sets the key to false and does not remove it (app.py:181). Such stale
  keys are harmless because ids are never reused. `Page.Valid` keeps every key
  below the sequence's next value, and `TaskTable.IdsNeverReused` proves that
  a deleted id never comes back.
- The search is not a plain substring test. The text is put between `%`s
  unescaped (app.py:69), so `%`, `_` and `\` in it act as pattern characters.
  `SearchIsSubstring` gives the substring reading for search texts without
  them. `UnderscoreSearchMatchesAnyTitle` and `PercentSearchMatchesEveryTitle`
  show what happens otherwise. A title without a backslash is always found by
  searching for itself (`CreatedTaskIsListed`). A task whose title contains a
  backslash may not be: the backslash escapes the next character of the
  pattern, so the task titled `a\b` is not found by searching `a\b`
  (`BackslashTitleNotListed`).
- Listings have no order: the SELECT has no ORDER BY.

## Model

| member | source | states |
|---|---|---|
| `Pattern.Like` | app.py:68 | the LIKE match the search condition asks for: `%` any run, `_` any one character, backslash escapes the next; for a pattern without those characters it is plain equality |
| `Pattern.ILike` | app.py:68 | LIKE on case-folded operands; for a pattern without pattern characters, equality up to (ASCII) case |
| `Pattern.SearchIsSubstring` | app.py:67-69 | for a search text without `%`, `_` or `\`, `title ILIKE '%q%'` holds exactly when q occurs in the title, ignoring (ASCII) case |
| `Pattern.UnderscoreSearchMatchesAnyTitle` | app.py:69 | because the search text is not escaped, searching for `_` matches exactly the non-empty titles |
| `Pattern.PercentSearchMatchesEveryTitle` | app.py:69 | searching for `%` matches every title, the empty one included |
| `Pattern.SearchFindsOwnTitle` | app.py:67-69 | a search text without a backslash, wrapped as `%q%`, matches the title equal to it, even when it holds `%` or `_` |
| `Pattern.BackslashTitleNotFound` | app.py:69 | the title `a\b` does not match the pattern `%a\b%`, because the backslash escapes `b` |
| `Query.Where` | app.py:67-78 | the meaning of the built WHERE clause: with no condition every row passes; otherwise the first condition, bound to the first parameter, AND the rest |
| `Query.Matches` | app.py:67-73 | the filter the page promises: with no search text and no favourite choice every row passes; a row whose flag differs from the chosen one never passes |
| `Query.MatchesPlainSearch` | app.py:67-73 | for a search text without pattern characters, a row passes iff its folded title contains the folded text and its flag equals the chosen one, if any |
| `Query.BuildQuery` | app.py:63-78 | the condition list is exactly [title ILIKE] if the search text is truthy, followed by [is_favorite =] if a favourite filter is given, and the parameter tuple is exactly `%q%` and the boolean in the same order; conditions and parameters grow in lockstep, with as many `%s` in the text as parameters; WHERE appears iff a search text is truthy or a favourite filter is given; with neither, the bare SELECT and no parameters; the search condition comes first with parameter `%q%`, the favourite condition last with the boolean; the built WHERE clause admits exactly the rows the page's filter describes |
| `Query.SqlHasOnePlaceholder` | app.py:68-72 | each condition text carries exactly one `%s` |
| `Query.JoinPlaceholders` | app.py:76 | joining the conditions with AND keeps one `%s` per condition |
| `Query.QueryPlaceholders` | app.py:63-76 | the whole statement carries one `%s` per condition |
| `Query.WhereOnlyWithConditions` | app.py:75-76 | the text contains ` WHERE ` exactly when the condition list is non-empty |
| `TaskTable.Exec` | app.py:37-113 | the effect of each statement the store runs (CREATE TABLE IF NOT EXISTS, INSERT, the two UPDATEs, the two DELETEs): a statement that succeeds leaves the table in place; only an insert advances the sequence, by one; an id the result has and the old table had not is the one an insert took from the sequence |
| `TaskTable.Select` | app.py:63-79 | the rows the SELECT returns, as a set: every row of the table that passes the filter, and only those |
| `TaskTable.ExecFails` | app.py:37-46 | a statement is rejected only when the table is missing (and it is not the CREATE) or when an insert finds the `integer` sequence exhausted |
| `TaskTable.ExecKeepsValid` | app.py:40 | every statement keeps each id between 1 and the next sequence value, never lowers that value, and only an insert adds an id, the fresh one |
| `TaskTable.CommitAllKeepsValid` | app.py:40 | any sequence of statements keeps the table valid and never lowers the next sequence value |
| `TaskTable.IdsNeverReused` | app.py:40 | an id handed out and then deleted stays absent after any later statements |
| `TaskTable.CreateTableIdempotent` | app.py:37-46 | `CREATE TABLE IF NOT EXISTS` leaves the table in place; an existing table is unchanged, and running it twice is the same as once |
| `TaskTable.InsertAddsOneRow` | app.py:50-57 | an insert adds exactly one row, under a fresh id, with the given title, description and flag, and leaves every other row unchanged; an empty title is accepted |
| `TaskTable.SetTextChangesOnlyText` | app.py:100-107 | `update_task` sets only title and description of the row with that id and keeps its flag; other rows, the ids and the sequence are unchanged; an absent id changes nothing |
| `TaskTable.SetFavoriteChangesOnlyFlag` | app.py:83-90 | `update_favorite_status` sets only the flag of the row with that id; everything else is unchanged; an absent id changes nothing |
| `TaskTable.DeleteRemovesOnlyId` | app.py:93-97 | `delete_task` removes exactly that id, leaves other rows unchanged, and a second delete of it changes nothing |
| `TaskTable.DeleteAllEmptiesEveryListing` | app.py:110-114 | after `delete_all_tasks` the table is empty and every listing is empty, whatever the filters |
| `TaskTable.SelectFromTable` | app.py:63-80 | every listed row is a row of the table that passes the filter, and no two listed rows share an id |
| `TaskTable.UnfilteredListingIsWholeTable` | app.py:63-78 | with no filters the listing is every row with its current fields; an empty search text is the same as no search |
| `TaskTable.FavoriteFilterPartitions` | app.py:71-73 | the favourite filter true and false select disjoint sets whose union is the unfiltered listing; each is exactly the rows with that flag (False is a real filter) |
| `TaskTable.SearchSelectsSubstrings` | app.py:67-69 | for a search text without pattern characters, a listing holds exactly the rows of the unsearched listing whose folded title contains the folded text |
| `TaskTable.CreatedTaskIsListed` | app.py:50-80 | a task created with a title without a backslash is listed, with its fields and fresh id, when searched by that title and its flag |
| `TaskTable.BackslashTitleNotListed` | app.py:50-80 | a task created with the title `a\b` is not listed when searched by that title and its flag |
| `Store.TaskStore.InitDb` | app.py:34-47 | creates the table when missing, leaves an existing one unchanged, and logs the CREATE |
| `Store.TaskStore.CreateTask` | app.py:50-57 | the table changes as the INSERT does, or not at all when it is rejected; `ok` reports which; the INSERT is logged once |
| `Store.TaskStore.ListTasks` | app.py:60-80 | runs the built statement and returns exactly the rows of `Select`, or None when the table is missing |
| `Store.TaskStore.UpdateFavoriteStatus` | app.py:83-90 | the table changes as the UPDATE of `is_favorite` does; the UPDATE is logged once |
| `Store.TaskStore.DeleteTask` | app.py:93-97 | the table changes as the DELETE of that id does; the DELETE is logged once |
| `Store.TaskStore.UpdateTask` | app.py:100-107 | the table changes as the UPDATE of title and description does; the UPDATE is logged once |
| `Store.TaskStore.DeleteAllTasks` | app.py:110-114 | the table changes as `DELETE FROM tasks` does; the DELETE is logged once |
| `Controller.FavoriteFilterOf` | app.py:138-139 | "Favorite" gives True, "Not Favorite" gives False, and any other choice ("All") gives None |
| `Controller.Next` | app.py:125-201 | besides `init_db`'s CREATE TABLE and the SELECT, one run issues at most one statement that changes the table; DELETE FROM tasks is issued iff Yes is pressed while the confirmation is pending; the confirmation becomes pending only by "Clear All Tasks"; Yes or Cancel end it; a row event for a row not listed does nothing; edit-mode keys are added only for the listed row the event belongs to |
| `Controller.FilterChoicesSplitListing` | app.py:138-139 | the "Favorite" and "Not Favorite" listings are disjoint and together are the "All" listing |
| `Controller.EditingHidesRowActions` | app.py:174-201 | while a row is being edited, its checkbox, Edit and Delete do nothing |
| `Controller.ClearThenCancel` | app.py:143-163 | Clear then Cancel issues no statement, leaves the table as it was, and ends with no pending confirmation |
| `Controller.ClearThenConfirm` | app.py:143-163 | Clear then Yes issues DELETE FROM tasks exactly once, every later listing is empty, and no confirmation is pending |
| `Controller.EditThenSave` | app.py:172-182 | Edit then Save on a listed row issues one UPDATE; the row gets the new title and description and keeps its flag; no other row changes; the row leaves edit mode |
| `Controller.Page.Run` | app.py:118-201 | one run of `main` ensures the table, then changes the session and the table as `Next` says, with the statements logged in order; a freshly created task is not in edit mode |
| `Controller.Page.DrawRows` | app.py:165-201 | the loop over the listed rows lets only the row the event belongs to react, as `Next` says; an event for no row changes nothing |
| `Controller.Page.RowAction` | app.py:172-201 | one listed row's widgets: Save while editing; otherwise the checkbox when it differs from the stored flag, Edit, or Delete, each as `Next` says |

## Left out

- The psycopg2 connection, `closing`, cursors and `commit` (app.py:29-31). Each store function is one atomic step on the table.
- Connection and credential failures. The only rejections modelled are a missing table and an exhausted `id` sequence.
- `load_dotenv`, the environment variables and the injected CSS (app.py:7-24). They are configuration and styling.
- Streamlit rendering: widgets, expanders, columns, `st.success`/`st.warning`. `st.experimental_rerun` is modelled only as ending the current run. Widget values reach the model as the fields of an `Event` and the `search`/`choice` arguments of `Page.Run`.
- Postgres case folding for ILIKE depends on the locale. The model folds ASCII letters only and claims nothing about other characters.
- Pattern.Like: a pattern ending in a lone backslash is an error in Postgres, and here it matches nothing. A pattern `%q%` cannot end that way.
- The `description` column is nullable. The page always passes a string, so NULL is not modelled.
- An insert rejected for any reason other than sequence exhaustion also consumes a sequence value in Postgres. That case does not arise in the model.
- Several sessions editing at once (last write wins). Only one session is modelled, with one widget event per run.
