/** The `users` table, as a sequence of `(id, name)` rows in table order, and
    the two SQL statements the core runs against it: the name query
    `SELECT * FROM users WHERE name = @name` and the id-keyed `MERGE` that the
    repository's Save executes. */
module UsersTable {
  import opened Users

  /** One row of the `users` table. */
  datatype Row = Row(id: string, name: string)

  /** The user a reader row is turned back into. */
  function ToUser(row: Row): User
  {
    User(UserId(row.id), UserName(row.name))
  }

  /** The `@id` and `@name` parameters a user is written with. */
  function ToRow(user: User): (row: Row)
    ensures ToUser(row) == user
    ensures row.name == user.name.value && row.id == user.id.value
  {
    Row(user.id.value, user.name.value)
  }

  /** Some row of the table carries this name. */
  ghost predicate Stored(rows: seq<Row>, name: string)
  {
    exists i :: 0 <= i < |rows| && rows[i].name == name
  }

  /** Some row of the table carries this id. */
  predicate HasId(rows: seq<Row>, id: string)
  {
    exists i :: 0 <= i < |rows| && rows[i].id == id
  }

  /** Row `k` is the first row, in table order, that carries `name`. */
  ghost predicate IsFirstMatch(rows: seq<Row>, name: string, k: int)
  {
    0 <= k < |rows| && rows[k].name == name &&
    forall j :: 0 <= j < k ==> rows[j].name != name
  }

  /** No two rows carry the same name. */
  ghost predicate NamesDistinct(rows: seq<Row>)
  {
    forall i, j :: 0 <= i < j < |rows| ==> rows[i].name != rows[j].name
  }

  /** No two rows carry the same id. */
  ghost predicate IdsDistinct(rows: seq<Row>)
  {
    forall i, j :: 0 <= i < j < |rows| ==> rows[i].id != rows[j].id
  }

  /** The result set of `SELECT * FROM users WHERE name = @name`, in table order. */
  function Select(rows: seq<Row>, name: string): (hits: seq<Row>)
    ensures forall x :: x in hits <==> x in rows && x.name == name
    ensures |hits| <= |rows|
    decreases |rows|
  {
    if rows == [] then []
    else if rows[0].name == name then [rows[0]] + Select(rows[1..], name)
    else Select(rows[1..], name)
  }

  /** The query returns a row exactly when some row has the name. */
  lemma {:induction false} SelectNonEmpty(rows: seq<Row>, name: string)
    ensures Select(rows, name) != [] <==> Stored(rows, name)
  {
    if Stored(rows, name) {
      var i :| 0 <= i < |rows| && rows[i].name == name;
      assert rows[i] in rows;
    }
    if Select(rows, name) != [] {
      var x := Select(rows, name)[0];
      assert x in rows && x.name == name;
      var i :| 0 <= i < |rows| && rows[i] == x;
    }
  }

  /** The first row of the result set is the first matching row of the table. */
  lemma {:induction false} SelectHeadIsFirstMatch(rows: seq<Row>, name: string, k: int)
    requires IsFirstMatch(rows, name, k)
    ensures Select(rows, name) != [] && Select(rows, name)[0] == rows[k]
    decreases |rows|
  {
    if k > 0 {
      assert rows[0].name != name;
      assert IsFirstMatch(rows[1..], name, k - 1);
      SelectHeadIsFirstMatch(rows[1..], name, k - 1);
    }
  }

  /** Every first matching row is the head of the result set. */
  lemma {:induction false} SelectHead(rows: seq<Row>, name: string)
    ensures forall k :: IsFirstMatch(rows, name, k) ==> Select(rows, name) != [] && Select(rows, name)[0] == rows[k]
  {
    forall k | IsFirstMatch(rows, name, k) ensures Select(rows, name) != [] && Select(rows, name)[0] == rows[k] {
      SelectHeadIsFirstMatch(rows, name, k);
    }
  }

  /** A table that holds a name has a first row holding it. */
  lemma {:induction false} FirstMatchExists(rows: seq<Row>, name: string)
    requires Stored(rows, name)
    ensures exists k :: IsFirstMatch(rows, name, k)
    decreases |rows|
  {
    if rows[0].name == name {
      assert IsFirstMatch(rows, name, 0);
    } else {
      var i :| 0 <= i < |rows| && rows[i].name == name;
      assert rows[1..][i - 1].name == name;
      FirstMatchExists(rows[1..], name);
      var k :| IsFirstMatch(rows[1..], name, k);
      assert IsFirstMatch(rows, name, k + 1);
    }
  }

  /** The rows after `UPDATE SET name = data.name` on every row whose id matches. */
  function UpdateName(rows: seq<Row>, row: Row): (r: seq<Row>)
    ensures |r| == |rows|
    ensures forall i :: 0 <= i < |rows| ==> r[i] == if rows[i].id == row.id then row else rows[i]
    decreases |rows|
  {
    if rows == [] then []
    else [if rows[0].id == row.id then row else rows[0]] + UpdateName(rows[1..], row)
  }

  /** The `MERGE INTO users ... ON users.id = data.id` statement: rows with the
      id take the new name, and when none has it the row is inserted at the end. */
  function Upsert(rows: seq<Row>, row: Row): (r: seq<Row>)
    ensures row in r
    ensures |r| == if HasId(rows, row.id) then |rows| else |rows| + 1
    ensures forall i :: 0 <= i < |rows| && rows[i].id != row.id ==> r[i] == rows[i]
    ensures forall i :: 0 <= i < |rows| && rows[i].id == row.id ==> r[i] == row
    ensures forall i :: 0 <= i < |r| ==> r[i] == row || (i < |rows| && r[i] == rows[i])
    ensures !HasId(rows, row.id) ==> r == rows + [row]
  {
    if HasId(rows, row.id) then
      var i :| 0 <= i < |rows| && rows[i].id == row.id;
      assert UpdateName(rows, row)[i] == row;
      UpdateName(rows, row)
    else
      rows + [row]
  }

  /** An INSERT of a name not yet stored keeps names pairwise distinct. */
  lemma AppendKeepsNamesDistinct(rows: seq<Row>, row: Row)
    requires NamesDistinct(rows) && !Stored(rows, row.name)
    ensures NamesDistinct(rows + [row])
  {
  }

  /** An INSERT of an id not yet stored keeps ids pairwise distinct. */
  lemma AppendKeepsIdsDistinct(rows: seq<Row>, row: Row)
    requires IdsDistinct(rows) && !HasId(rows, row.id)
    ensures IdsDistinct(rows + [row])
  {
  }

  /** The MERGE of a name not yet stored keeps names and ids pairwise distinct. */
  lemma UpsertKeepsDistinct(rows: seq<Row>, row: Row)
    requires NamesDistinct(rows) && IdsDistinct(rows) && !Stored(rows, row.name)
    ensures NamesDistinct(Upsert(rows, row)) && IdsDistinct(Upsert(rows, row))
  {
  }

  /** Saving the same row twice leaves the table as saving it once. */
  lemma UpsertIdempotent(rows: seq<Row>, row: Row)
    ensures Upsert(Upsert(rows, row), row) == Upsert(rows, row)
  {
  }

  /** The MERGE keeps the id a key of the table. */
  lemma UpsertKeepsIdsDistinct(rows: seq<Row>, row: Row)
    requires IdsDistinct(rows)
    ensures IdsDistinct(Upsert(rows, row))
  {
  }
}
