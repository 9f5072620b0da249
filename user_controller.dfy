/**
 The five request handlers.  Each takes the shared database handle and the request fields
 already taken out of the path and the body, issues its one statement, and produces the value
 the handler sends back as JSON.
 */
module UserController {
  import opened Users
  import opened UserStore

  /** The request body exactly as it was received; the handlers never look inside it. */
  type Body = string

  /** What a handler sends back. */
  datatype Response =
    | Echo(body: Body)          // the request body, sent back unchanged
    | Row(user: User)           // one row `{id, name, age}`
    | RowList(users: seq<User>) // an array of rows
    | Empty                     // the empty object `{}`

  /**
   `createUser`: inserts `name` and `age` and answers with the submitted body, not with the
   stored row and not with the id it was given.
   */
  method CreateUser(db: Store, body: Body, name: string, age: int) returns (r: Response)
    requires db.present
    modifies db
    ensures db.present
    ensures db.rows == Inserted(old(db.rows), name, age)
    ensures GetUser(db, NextId(old(db.rows))) == Row(User(NextId(old(db.rows)), name, age))
    ensures r == Echo(body)
  {
    var _ := db.Insert(name, age);
    r := Echo(body);
  }

  /** `getUsers`: every row of the table, each exactly once; `[]` for an empty table. */
  function GetUsers(db: Store): (r: Response)
    reads db
    requires db.present
    ensures r.RowList? && Lists(r.users, db.rows)
    ensures db.rows == map[] ==> r == RowList([])
  {
    RowList(db.SelectAll())
  }

  /**
   `getUser`: the first row the query returns when it returns any, otherwise `{}`; a missing
   id is answered with `{}`, never with an error.
   */
  function GetUser(db: Store, id: int): (r: Response)
    reads db
    requires db.present
    ensures id in db.rows ==> r == Row(UserAt(db.rows, id))
    ensures id !in db.rows ==> r == Empty
  {
    var found := db.SelectWhereId(id);
    if |found| > 0 then Row(found[0]) else Empty
  }

  /**
   `updateUser`: overwrites name and age of the row with that id, does nothing when there is
   none, and answers with the submitted body either way.
   */
  method UpdateUser(db: Store, id: int, body: Body, name: string, age: int) returns (r: Response)
    requires db.present
    modifies db
    ensures db.present
    ensures db.rows == Updated(old(db.rows), id, name, age)
    ensures id in old(db.rows) ==> GetUser(db, id) == Row(User(id, name, age))
    ensures id !in old(db.rows) ==> db.rows == old(db.rows)
    ensures r == Echo(body)
  {
    db.UpdateWhereId(id, name, age);
    r := Echo(body);
  }

  /**
   `deleteUser`: removes the row with that id (nothing when there is none), after which
   `getUser` of that id answers `{}`; answers with the request body verbatim.
   */
  method DeleteUser(db: Store, id: int, body: Body) returns (r: Response)
    requires db.present
    modifies db
    ensures db.present
    ensures db.rows == Deleted(old(db.rows), id)
    ensures GetUser(db, id) == Empty
    ensures r == Echo(body)
  {
    db.DeleteWhereId(id);
    r := Echo(body);
  }
}
