/** Values shared by the task store and the page: a task row of the `tasks` table. */
module Tasks {

  datatype Option<+T> = None | Some(value: T)

  /** The columns of one row of `tasks` other than its `id`. */
  datatype Task = Task(title: string, description: string, isFavorite: bool)

  /** One row as `SELECT id, title, description, is_favorite` returns it. */
  datatype Row = Row(id: int, title: string, description: string, isFavorite: bool)

  function RowOf(id: int, t: Task): Row {
    Row(id, t.title, t.description, t.isFavorite)
  }
}
