/**
 The users table as a value: what each SQL statement the controller issues does to the
 relation `users (id INTEGER PRIMARY KEY, name TEXT, age INTEGER)`.

 The primary key makes the relation a finite map from `id` to `(name, age)`, so two rows
 with the same id cannot exist. The whole database, as far as the controller sees it, is
 either without a users table or holds one with some rows.
 */
module Users {

  /** One row of the users table, as a query returns it: `{id, name, age}`. */
  datatype User = User(id: int, name: string, age: int)

  /** The rows of the table, keyed by the primary-key column `id`. */
  type Rows = map<int, (string, int)>

  /** The database: no users table yet, or a users table holding `rows`. */
  datatype Database = NoTable | HasTable(rows: Rows)

  /** The row stored under `id`, as a `User`. */
  function UserAt(m: Rows, id: int): User
    requires id in m
  {
    User(id, m[id].0, m[id].1)
  }

  /** `u` is a row of `m`: its id is a key of `m` and its name and age are the ones stored there. */
  ghost predicate Stored(m: Rows, u: User)
  {
    u.id in m && m[u.id] == (u.name, u.age)
  }

  /** Strictly ascending ids; in particular no id occurs twice. */
  ghost predicate Ascending(us: seq<User>)
  {
    forall i, j :: 0 <= i < j < |us| ==> us[i].id < us[j].id
  }

  /** `us` lists the rows of `m`: each row exactly once, nothing else, in ascending id order. */
  ghost predicate Lists(us: seq<User>, m: Rows)
  {
    && |us| == |m|
    && Ascending(us)
    && (forall i :: 0 <= i < |us| ==> Stored(m, us[i]))
    && (forall id :: id in m ==> exists i :: 0 <= i < |us| && us[i].id == id)
  }

  // ---------------------------------------------------------------------------------------
  // Smallest and largest key

  /** `lo` is the least element of `ids`. */
  predicate IsLeast(lo: int, ids: set<int>)
  {
    lo in ids && forall i :: i in ids ==> lo <= i
  }

  /** `hi` is the greatest element of `ids`. */
  predicate IsGreatest(hi: int, ids: set<int>)
  {
    hi in ids && forall i :: i in ids ==> i <= hi
  }

  /** A set that is not empty has an element. */
  lemma HasElement(ids: set<int>)
    requires ids != {}
    ensures exists i :: i in ids
  {
    if forall i :: i !in ids {
      assert false;
    }
  }

  /** A table that is not empty has a row and a positive count. */
  lemma HasRow(m: Rows)
    requires m != map[]
    ensures exists k :: k in m
    ensures |m| > 0
  {
    HasElement(m.Keys);
    var k :| k in m;
    assert |m - {k}| == |m| - 1;
  }

  /** A non-empty finite set of integers has a least element. */
  lemma {:induction false} LeastExists(ids: set<int>)
    requires ids != {}
    ensures exists lo :: IsLeast(lo, ids)
  {
    HasElement(ids);
    var x :| x in ids;
    if ids == {x} {
      assert IsLeast(x, ids);
    } else {
      var rest := ids - {x};
      LeastExists(rest);
      var lo :| IsLeast(lo, rest);
      var lo' := if x < lo then x else lo;
      forall i | i in ids ensures lo' <= i {
        if i != x {
          assert i in rest;
        }
      }
      assert IsLeast(lo', ids);
    }
  }

  /** A non-empty finite set of integers has a greatest element. */
  lemma {:induction false} GreatestExists(ids: set<int>)
    requires ids != {}
    ensures exists hi :: IsGreatest(hi, ids)
  {
    HasElement(ids);
    var x :| x in ids;
    if ids == {x} {
      assert IsGreatest(x, ids);
    } else {
      var rest := ids - {x};
      GreatestExists(rest);
      var hi :| IsGreatest(hi, rest);
      var hi' := if hi < x then x else hi;
      forall i | i in ids ensures i <= hi' {
        if i != x {
          assert i in rest;
        }
      }
      assert IsGreatest(hi', ids);
    }
  }

  /** The least element of a non-empty set of ids. */
  function MinId(ids: set<int>): (lo: int)
    requires ids != {}
    ensures lo in ids && forall i :: i in ids ==> lo <= i
  {
    LeastExists(ids);
    var lo :| IsLeast(lo, ids); lo
  }

  /** The greatest element of a non-empty set of ids. */
  function MaxId(ids: set<int>): (hi: int)
    requires ids != {}
    ensures hi in ids && forall i :: i in ids ==> i <= hi
  {
    GreatestExists(ids);
    var hi :| IsGreatest(hi, ids); hi
  }

  // ---------------------------------------------------------------------------------------
  // Schema setup

  /** `CREATE TABLE IF NOT EXISTS users (...)`: an existing table is kept as it is. */
  function CreateIfAbsent(db: Database): (db': Database)
    ensures db'.HasTable?
    ensures db.HasTable? ==> db' == db
    ensures db.NoTable? ==> db'.rows == map[]
  {
    if db.HasTable? then db else HasTable(map[])
  }

  /**
   Start-up: create the table if it is absent and, in test mode, then run `DELETE FROM users`.
   Outside test mode existing rows survive a restart.
   */
  function Startup(db: Database, testMode: bool): (db': Database)
    ensures db'.HasTable?
    ensures testMode ==> db'.rows == map[]
    ensures !testMode && db.HasTable? ==> db' == db
    ensures !testMode && db.NoTable? ==> db'.rows == map[]
  {
    var created := CreateIfAbsent(db);
    if testMode then HasTable(map[]) else created
  }

  // ---------------------------------------------------------------------------------------
  // Data-changing statements

  /**
   The id SQLite gives the new row of `INSERT INTO users (name, age)`: `id` is an INTEGER
   PRIMARY KEY without AUTOINCREMENT, so the new rowid is one more than the largest id now in
   the table, or 1 when the table is empty.
   */
  function NextId(m: Rows): (id: int)
    ensures m == map[] ==> id == 1
    ensures m != map[] ==> id - 1 in m
    ensures forall k :: k in m ==> k < id
    ensures id !in m
  {
    if m == map[] then 1 else MaxId(m.Keys) + 1
  }

  /** `INSERT INTO users (name, age) VALUES (?, ?)`: one new row under `NextId(m)`, nothing else changes. */
  function Inserted(m: Rows, name: string, age: int): (m': Rows)
    ensures m'.Keys == m.Keys + {NextId(m)}
    ensures m'[NextId(m)] == (name, age)
    ensures forall k :: k in m ==> m'[k] == m[k]
  {
    m[NextId(m) := (name, age)]
  }

  /**
   `UPDATE users SET name = ?, age = ? WHERE id = ?`: the matching row gets the new name and
   age; with no matching row nothing happens and no row is created.
   */
  function Updated(m: Rows, id: int, name: string, age: int): (m': Rows)
    ensures m'.Keys == m.Keys
    ensures id in m ==> m'[id] == (name, age)
    ensures forall k :: k in m && k != id ==> m'[k] == m[k]
    ensures id !in m ==> m' == m
  {
    if id in m then m[id := (name, age)] else m
  }

  /** `DELETE FROM users WHERE id = ?`: the matching row goes, if there is one; the others stay. */
  function Deleted(m: Rows, id: int): (m': Rows)
    ensures m'.Keys == m.Keys - {id}
    ensures forall k :: k in m' ==> m'[k] == m[k]
    ensures id !in m ==> m' == m
  {
    m - {id}
  }

  // ---------------------------------------------------------------------------------------
  // Queries

  /**
   `SELECT * FROM users`. The statement has no ORDER BY; the model returns SQLite's rowid
   scan order, ascending id.
   */
  function ListAll(m: Rows): (us: seq<User>)
    ensures Lists(us, m)
    decreases |m|
  {
    if m == map[] then []
    else
      var lo := MinId(m.Keys);
      assert (m - {lo}).Keys == m.Keys - {lo};
      var tail := ListAll(m - {lo});
      ConsLists(m, lo, tail);
      [UserAt(m, lo)] + tail
  }

  /** Putting the row with the least id in front of a listing of the other rows lists them all. */
  lemma ConsLists(m: Rows, lo: int, tail: seq<User>)
    requires lo in m && forall k :: k in m ==> lo <= k
    requires Lists(tail, m - {lo})
    ensures Lists([UserAt(m, lo)] + tail, m)
  {
    var rest := m - {lo};
    var us := [UserAt(m, lo)] + tail;
    assert rest.Keys == m.Keys - {lo};
    assert |m| == |rest| + 1;
    assert Ascending(us) by {
      forall i, j | 0 <= i < j < |us| ensures us[i].id < us[j].id {
        assert us[j] == tail[j - 1] && tail[j - 1].id in rest;
        if i > 0 {
          assert us[i] == tail[i - 1];
        }
      }
    }
    forall i | 0 <= i < |us| ensures Stored(m, us[i]) {
      if i > 0 {
        assert us[i] == tail[i - 1] && Stored(rest, tail[i - 1]);
      }
    }
    forall id | id in m ensures exists i :: 0 <= i < |us| && us[i].id == id {
      if id != lo {
        assert id in rest;
        var i :| 0 <= i < |tail| && tail[i].id == id;
        assert us[i + 1].id == id;
      } else {
        assert us[0].id == id;
      }
    }
  }

  /** The rows of `us` whose id is `id`, in order: the `WHERE id = ?` filter. */
  function Where(us: seq<User>, id: int): (r: seq<User>)
  {
    if us == [] then []
    else (if us[0].id == id then [us[0]] else []) + Where(us[1..], id)
  }

  /** Filtering an ascending listing of rows of `m` by id yields the one row with that id, or nothing. */
  lemma {:induction false} WhereAscending(us: seq<User>, m: Rows, id: int)
    requires Ascending(us)
    requires forall i :: 0 <= i < |us| ==> Stored(m, us[i])
    ensures (exists i :: 0 <= i < |us| && us[i].id == id) ==> id in m && Where(us, id) == [UserAt(m, id)]
    ensures (forall i :: 0 <= i < |us| ==> us[i].id != id) ==> Where(us, id) == []
  {
    if us != [] {
      var tail := us[1..];
      assert forall i :: 0 <= i < |tail| ==> tail[i] == us[i + 1];
      WhereAscending(tail, m, id);
      if us[0].id == id {
        assert forall i :: 0 <= i < |tail| ==> tail[i].id != id by {
          forall i | 0 <= i < |tail| ensures tail[i].id != id {
            assert us[0].id < us[i + 1].id;
          }
        }
      } else if exists i :: 0 <= i < |us| && us[i].id == id {
        var i :| 0 <= i < |us| && us[i].id == id;
        assert tail[i - 1].id == id;
      }
    }
  }

  /** `SELECT * FROM users WHERE id = ?`: at most one row, the stored one when the id exists. */
  function SelectById(m: Rows, id: int): (r: seq<User>)
    ensures id in m ==> r == [UserAt(m, id)]
    ensures id !in m ==> r == []
  {
    var all := ListAll(m);
    WhereAscending(all, m, id);
    Where(all, id)
  }

  // ---------------------------------------------------------------------------------------
  // Properties relating several statements

  /** The listing is determined by the rows: two ascending listings of the same rows are equal. */
  lemma {:induction false} ListsUnique(a: seq<User>, b: seq<User>, m: Rows)
    requires Lists(a, m) && Lists(b, m)
    ensures a == b
    decreases |m|
  {
    if m != map[] {
      HeadsAgree(a, b, m);
      var rest := m - {a[0].id};
      TailLists(a, m);
      TailLists(b, m);
      ListsUnique(a[1..], b[1..], rest);
      assert a == [a[0]] + a[1..] && b == [b[0]] + b[1..];
    }
  }

  /** Two listings of the same non-empty rows start with the same row, the one with the least id. */
  lemma HeadsAgree(a: seq<User>, b: seq<User>, m: Rows)
    requires Lists(a, m) && Lists(b, m) && m != map[]
    ensures |a| > 0 && |b| > 0 && a[0] == b[0] && |m - {a[0].id}| < |m|
  {
    HasRow(m);
    FirstIsLeast(a, m);
    FirstIsLeast(b, m);
    assert a[0].id == b[0].id;
    assert Stored(m, a[0]) && Stored(m, b[0]);
    assert (m - {a[0].id}).Keys == m.Keys - {a[0].id};
  }

  /** The first row of a listing of `m` has the least id of `m`. */
  lemma FirstIsLeast(us: seq<User>, m: Rows)
    requires Lists(us, m) && |us| > 0
    ensures IsLeast(us[0].id, m.Keys)
  {
    forall k | k in m.Keys ensures us[0].id <= k {
      var i :| 0 <= i < |us| && us[i].id == k;
      if i > 0 {
        assert us[0].id < us[i].id;
      }
    }
    assert Stored(m, us[0]);
  }

  /** Dropping the first row of a listing of `m` lists `m` without that row. */
  lemma TailLists(us: seq<User>, m: Rows)
    requires Lists(us, m) && m != map[]
    ensures Lists(us[1..], m - {us[0].id})
  {
    var lo := us[0].id;
    var rest := m - {lo};
    var tail := us[1..];
    assert rest.Keys == m.Keys - {lo};
    assert |tail| == |rest|;
    assert Ascending(tail) by {
      forall i, j | 0 <= i < j < |tail| ensures tail[i].id < tail[j].id {
        assert tail[i] == us[i + 1] && tail[j] == us[j + 1];
      }
    }
    forall i | 0 <= i < |tail| ensures Stored(rest, tail[i]) {
      assert tail[i] == us[i + 1];
      assert us[0].id < us[i + 1].id;
    }
    forall id | id in rest ensures exists i :: 0 <= i < |tail| && tail[i].id == id {
      var i :| 0 <= i < |us| && us[i].id == id;
      assert i != 0;
      assert tail[i - 1].id == id;
    }
  }

  /**
   A new row goes to the end of the listing: it gets a larger id than every row present, so the
   ascending listing is always the insertion order of the rows that remain.
   */
  lemma {:induction false} InsertAppendsToListing(m: Rows, name: string, age: int)
    ensures ListAll(Inserted(m, name, age)) == ListAll(m) + [User(NextId(m), name, age)]
  {
    var m' := Inserted(m, name, age);
    var v := ListAll(m) + [User(NextId(m), name, age)];
    SnocLists(ListAll(m), m, User(NextId(m), name, age));
    assert m' == m[NextId(m) := (name, age)];
    ListsUnique(ListAll(m'), v, m');
  }

  /** Appending a row whose id exceeds every id present to a listing of `m` lists `m` with that row. */
  lemma SnocLists(us: seq<User>, m: Rows, u: User)
    requires Lists(us, m)
    requires forall k :: k in m ==> k < u.id
    ensures Lists(us + [u], m[u.id := (u.name, u.age)])
  {
    var m' := m[u.id := (u.name, u.age)];
    var v := us + [u];
    assert u.id !in m;
    assert m' - {u.id} == m;
    assert |m'| == |m| + 1;
    assert forall i :: 0 <= i < |us| ==> v[i] == us[i] && us[i].id in m;
    assert Ascending(v) by {
      forall i, j | 0 <= i < j < |v| ensures v[i].id < v[j].id {
        if j == |us| {
          assert v[i].id in m;
        }
      }
    }
    forall i | 0 <= i < |v| ensures Stored(m', v[i]) {
      if i < |us| {
        assert Stored(m, us[i]);
      }
    }
    forall k | k in m' ensures exists i :: 0 <= i < |v| && v[i].id == k {
      if k == u.id {
        assert v[|us|].id == k;
      } else {
        var i :| 0 <= i < |us| && us[i].id == k;
        assert v[i].id == k;
      }
    }
  }

  /** Creating a user in an empty table and then listing gives exactly that user, with id 1. */
  lemma {:induction false} CreateThenListOnEmpty(name: string, age: int)
    ensures ListAll(Inserted(map[], name, age)) == [User(1, name, age)]
  {
    InsertAppendsToListing(map[], name, age);
  }

  /** Deleting the row an insert just added gives back the table as it was before the insert. */
  lemma DeleteUndoesInsert(m: Rows, name: string, age: int)
    ensures Deleted(Inserted(m, name, age), NextId(m)) == m
  {
    assert Deleted(Inserted(m, name, age), NextId(m)).Keys == m.Keys;
  }

  /** After test-mode start-up the table is empty, so the first insert gets id 1. */
  lemma FirstInsertAfterTestStartup(db: Database, name: string, age: int)
    ensures NextId(Startup(db, true).rows) == 1
    ensures Inserted(Startup(db, true).rows, name, age) == map[1 := (name, age)]
  {
  }

  /** Start-up is idempotent: running it twice leaves the database as running it once. */
  lemma StartupIdempotent(db: Database, testMode: bool)
    ensures Startup(Startup(db, testMode), testMode) == Startup(db, testMode)
  {
  }

  /**
   Ids are not reserved once used: deleting the row with the largest id makes that id the
   next one handed out.
   */
  lemma {:induction false} DeletedMaxIdIsReused(m: Rows)
    requires m != map[]
    ensures NextId(m) - 2 in m || m.Keys == {1} ==> NextId(Deleted(m, NextId(m) - 1)) == NextId(m) - 1
  {
    var top := NextId(m) - 1;
    var d := Deleted(m, top);
    if top - 1 in m {
      assert top - 1 in d;
      assert NextId(d) - 1 in d;
    }
  }
}
