/**
 The database handle the controller shares: one connection whose users table is changed in
 place by the statements the controller issues.  Each method or function here is one of those
 statements; what it does to the table is the corresponding function of module `Users`.
 */
module UserStore {
  import opened Users

  class Store {
    /** Whether the users table exists yet. */
    var present: bool
    /** The rows of the users table. */
    var rows: Rows

    /** The database as a value. */
    function State(): Database
      reads this
    {
      if present then HasTable(rows) else NoTable
    }

    /** Opens a connection to a database that is in state `stored` (for a fresh in-memory database, `NoTable`). */
    constructor Open(stored: Database)
      ensures State() == stored
    {
      present := stored.HasTable?;
      rows := if stored.HasTable? then stored.rows else map[];
    }

    /** `CREATE TABLE IF NOT EXISTS users (id INTEGER PRIMARY KEY, name TEXT, age INTEGER)`. */
    method CreateTableIfNotExists()
      modifies this
      ensures State() == CreateIfAbsent(old(State()))
    {
      if !present {
        present, rows := true, map[];
      }
    }

    /** `DELETE FROM users`: every row goes, the table stays. */
    method DeleteAll()
      requires present
      modifies this`rows
      ensures rows == map[]
    {
      rows := map[];
    }

    /** The start-up block: create the table if absent, then clear it in test mode. */
    method Startup(testMode: bool)
      modifies this
      ensures State() == Users.Startup(old(State()), testMode)
    {
      CreateTableIfNotExists();
      if testMode {
        DeleteAll();
      }
    }

    /** `INSERT INTO users (name, age) VALUES (?, ?)`; `id` is the id the new row got. */
    method Insert(name: string, age: int) returns (id: int)
      requires present
      modifies this`rows
      ensures id == NextId(old(rows))
      ensures rows == Inserted(old(rows), name, age)
    {
      id := NextId(rows);
      rows := rows[id := (name, age)];
    }

    /** `SELECT * FROM users`: every row once, ascending by id. */
    function SelectAll(): (us: seq<User>)
      reads this
      requires present
      ensures Lists(us, rows)
    {
      ListAll(rows)
    }

    /** `SELECT * FROM users WHERE id = ?`: the row with that id, or no row. */
    function SelectWhereId(id: int): (us: seq<User>)
      reads this
      requires present
      ensures id in rows ==> us == [UserAt(rows, id)]
      ensures id !in rows ==> us == []
    {
      SelectById(rows, id)
    }

    /** `UPDATE users SET name = ?, age = ? WHERE id = ?`: a silent no-op when no row has that id. */
    method UpdateWhereId(id: int, name: string, age: int)
      requires present
      modifies this`rows
      ensures rows == Updated(old(rows), id, name, age)
    {
      if id in rows {
        rows := rows[id := (name, age)];
      }
    }

    /** `DELETE FROM users WHERE id = ?`: a silent no-op when no row has that id. */
    method DeleteWhereId(id: int)
      requires present
      modifies this`rows
      ensures rows == Deleted(old(rows), id)
    {
      rows := rows - {id};
    }
  }
}
