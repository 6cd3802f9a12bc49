/**
 * The relational user table behind `db.find_user` and `db.create_user`.
 *
 * The SQL of the two queries is not part of this model. Each is modelled from one
 * assumption only:
 *   - `find_user(auth_id)` returns the rows whose `auth_id` column equals its
 *     argument, in table order;
 *   - `create_user(user_name, email, img, auth_id)` appends one row whose `id` is
 *     fresh and returns exactly that row.
 * A query that fails (its promise rejects) returns nothing and changes nothing.
 */
module UserTable {
  import opened Wrappers

  /** One row of the user table; the column names are those the client reads. */
  datatype UserRow = UserRow(id: nat, userName: string, email: string, img: string, authId: string)

  /** The whole table: its rows in insertion order and the next id the key sequence hands out. */
  datatype Table = Table(rows: seq<UserRow>, nextId: nat)

  /** Every id was handed out before `nextId`, in increasing order (a serial primary key). */
  ghost predicate TableValid(t: Table) {
    && (forall i :: 0 <= i < |t.rows| ==> t.rows[i].id < t.nextId)
    && (forall i, j :: 0 <= i < j < |t.rows| ==> t.rows[i].id < t.rows[j].id)
  }

  /** No two rows carry the same provider identity id. */
  ghost predicate UniqueAuthIds(rows: seq<UserRow>) {
    forall i, j :: 0 <= i < j < |rows| ==> rows[i].authId != rows[j].authId
  }

  /** `find_user`: the rows whose `auth_id` equals `key`, in table order. */
  function FindUserRows(rows: seq<UserRow>, key: string): (found: seq<UserRow>)
    ensures forall x :: x in found ==> x in rows && x.authId == key
    ensures forall x :: x in rows && x.authId == key ==> x in found
    ensures |found| <= |rows|
  {
    if |rows| == 0 then []
    else if rows[0].authId == key then [rows[0]] + FindUserRows(rows[1..], key)
    else FindUserRows(rows[1..], key)
  }

  /** `create_user` on a table: the table with one new row and the rows the query returns. */
  function CreateUserRow(t: Table, userName: string, email: string, img: string, authId: string): (r: (Table, seq<UserRow>))
    ensures |r.1| == 1 && r.1[0].id == t.nextId
    ensures r.0.rows == t.rows + r.1
    ensures r.1[0] == UserRow(t.nextId, userName, email, img, authId)
    ensures r.0.nextId > t.nextId
    ensures TableValid(t) ==> TableValid(r.0)
  {
    var row := UserRow(t.nextId, userName, email, img, authId);
    (Table(t.rows + [row], t.nextId + 1), [row])
  }

  /** Looking a key up after appending rows: the matches of the old rows come first. */
  lemma {:induction false} FindUserRowsAppend(rows: seq<UserRow>, extra: seq<UserRow>, key: string)
    ensures FindUserRows(rows + extra, key) == FindUserRows(rows, key) + FindUserRows(extra, key)
  {
    if |rows| == 0 {
      assert rows + extra == extra;
    } else {
      assert (rows + extra)[1..] == rows[1..] + extra;
      FindUserRowsAppend(rows[1..], extra, key);
    }
  }

  /** A key no row carries finds nothing. */
  lemma {:induction false} FindUserRowsNone(rows: seq<UserRow>, key: string)
    requires forall j :: 0 <= j < |rows| ==> rows[j].authId != key
    ensures FindUserRows(rows, key) == []
  {
    if |rows| > 0 {
      FindUserRowsNone(rows[1..], key);
    }
  }

  /** With unique identity ids, the lookup of a row's own id returns that row alone. */
  lemma {:induction false} FindUserRowsUnique(rows: seq<UserRow>, i: nat)
    requires UniqueAuthIds(rows)
    requires i < |rows|
    ensures FindUserRows(rows, rows[i].authId) == [rows[i]]
  {
    var key := rows[i].authId;
    if i == 0 {
      forall j | 0 <= j < |rows[1..]| ensures rows[1..][j].authId != key {
        assert rows[1..][j] == rows[j + 1];
      }
      FindUserRowsNone(rows[1..], key);
    } else {
      assert UniqueAuthIds(rows[1..]) by {
        forall a, b | 0 <= a < b < |rows[1..]|
          ensures rows[1..][a].authId != rows[1..][b].authId
        {
          assert rows[1..][a] == rows[a + 1] && rows[1..][b] == rows[b + 1];
        }
      }
      FindUserRowsUnique(rows[1..], i - 1);
      assert rows[1..][i - 1] == rows[i];
    }
  }

  /** The table object the server reaches through `app.get('db')`. */
  class UserStore {
    var rows: seq<UserRow>
    var nextId: nat

    ghost predicate Valid()
      reads this
    {
      TableValid(State())
    }

    /** The abstract value of the store. */
    function State(): Table
      reads this
    {
      Table(rows, nextId)
    }

    /**
     * The store over the persisted table `t`, which keeps the rows of every earlier
     * sign-up; a fresh database is the case `Table([], 1)`.
     */
    constructor (t: Table)
      requires TableValid(t)
      ensures Valid()
      ensures State() == t
    {
      rows := t.rows;
      nextId := t.nextId;
    }

    /** `db.find_user([key])`: `None` when the query fails, otherwise the matching rows. */
    method FindUser(key: string, fails: bool) returns (r: Option<seq<UserRow>>)
      ensures fails ==> r == None
      ensures !fails ==> r == Some(FindUserRows(rows, key))
    {
      if fails {
        r := None;
      } else {
        r := Some(FindUserRows(rows, key));
      }
    }

    /** `db.create_user([userName, email, img, authId])`: appends one row with a fresh id. */
    method CreateUser(userName: string, email: string, img: string, authId: string, fails: bool)
      returns (r: Option<seq<UserRow>>)
      requires Valid()
      modifies this
      ensures Valid()
      ensures fails ==> r == None && State() == old(State())
      ensures !fails ==> r.Some? && (State(), r.value) == CreateUserRow(old(State()), userName, email, img, authId)
    {
      if fails {
        r := None;
      } else {
        var created := CreateUserRow(State(), userName, email, img, authId);
        rows, nextId := created.0.rows, created.0.nextId;
        r := Some(created.1);
      }
    }
  }
}
