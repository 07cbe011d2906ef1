/**
 * The shapes the managed backend hands to the routes: the signed-in user
 * with the roles stored in its metadata, photo rows, and the outcome of a
 * query. The backend itself is not modelled; its answers are inputs.
 */
module Store {
  import opened Wrappers

  /** A signed-in user: `user_metadata.role` and `app_metadata.role`. */
  datatype User = User(id: string, userRole: Option<string>, appRole: Option<string>)

  /** `user?.app_metadata?.role === "admin"`. */
  predicate AppAdmin(user: Option<User>) {
    user.Some? && user.value.appRole == Some("admin")
  }

  /** A row of the `photos` table as a `select("id, tags")` returns it;
   *  `tags` may be `null`. */
  datatype PhotoRow = PhotoRow(id: string, tags: Option<seq<string>>)

  /** `{ data, error }` of a query: an error, or data that may be `null`. */
  datatype Query<T> = QueryError | Data(rows: Option<seq<T>>)

  /** `data ?? []`. */
  function RowsOf<T>(q: Query<T>): seq<T>
    requires q.Data?
  {
    q.rows.GetOr([])
  }
}
