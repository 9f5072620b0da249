/**
 The end-to-end scenario of the repository's test suite: start in test mode, create Ryan,
 list, read, update to Ryan+, read, delete, read.  The request bodies are parameters because
 body parsing belongs to the web framework, which is not modelled.
 */
module AppTest {
  import opened Users
  import opened UserStore
  import opened UserController

  /** The replay: each response is the one the test expects (or, for writes, the echoed body). */
  method Scenario(createBody: Body, updateBody: Body, deleteBody: Body)
    returns (created: Response, listed: Response, read: Response,
             updated: Response, readAfterUpdate: Response,
             deleted: Response, readAfterDelete: Response)
    ensures created == Echo(createBody)
    ensures listed == RowList([User(1, "Ryan", 18)])
    ensures read == Row(User(1, "Ryan", 18))
    ensures updated == Echo(updateBody)
    ensures readAfterUpdate == Row(User(1, "Ryan+", 20))
    ensures deleted == Echo(deleteBody)
    ensures readAfterDelete == Empty
  {
    var db := new Store.Open(NoTable);
    db.Startup(true);
    created := CreateUser(db, createBody, "Ryan", 18);
    CreateThenListOnEmpty("Ryan", 18);
    listed := GetUsers(db);
    read := GetUser(db, 1);
    updated := UpdateUser(db, 1, updateBody, "Ryan+", 20);
    readAfterUpdate := GetUser(db, 1);
    deleted := DeleteUser(db, 1, deleteBody);
    readAfterDelete := GetUser(db, 1);
  }
}
