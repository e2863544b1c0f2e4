/** The server-side todo router (`todoRouter`): four procedures over the single
    `todos` table, modelled as its rows plus the id the next insert receives.
    Row order in `rows` is insertion order and means nothing; only `List`
    orders rows. */
module TodoRouter {
  import opened Todos
  import opened NewestFirst

  /** The `todos` table. */
  datatype Table = Table(rows: seq<Todo>, nextId: int)

  /** Why a procedure rejects its call: input validation failed, or the row to
      toggle does not exist ("Todo not found"). */
  datatype ServerError = InvalidInput | NotFound {
    /** The error's message; the validator's own wording is not modelled. */
    function Message(): string
    {
      match this
      case InvalidInput => "invalid input"
      case NotFound => "Todo not found"
    }
  }

  datatype Result<+T> = Ok(value: T) | Err(error: ServerError)

  /** The table after a procedure, and what the procedure answers. */
  datatype Reply<+T> = Reply(table: Table, result: Result<T>)

  /** Row ids are unique and all below the next id to hand out. */
  predicate Valid(t: Table)
  {
    && UniqueIds(t.rows)
    && forall i :: 0 <= i < |t.rows| ==> t.rows[i].id < t.nextId
  }

  /** `list`: every row, newest first. */
  function List(t: Table): (r: seq<Todo>)
    ensures SortedDesc(r)
    ensures multiset(r) == multiset(t.rows)
  {
    Sort(t.rows)
  }

  /** `create`: the input must hold at least one character; the insert takes
      the next id, `completed` false and the server's clock `now`. */
  function Create(t: Table, text: string, now: int): (r: Reply<Todo>)
    ensures |text| == 0 ==> r == Reply(t, Err(InvalidInput))
    ensures |text| >= 1 ==>
      && r.result.Ok?
      && r.result.value.id == t.nextId
      && r.result.value.text == text
      && !r.result.value.completed
      && r.result.value.createdAt == now
      && r.table.rows == t.rows + [r.result.value]
      && r.table.nextId == t.nextId + 1
    ensures |text| >= 1 && Valid(t) ==> r.result.value.id !in Ids(t.rows)
    ensures Valid(t) ==> Valid(r.table)
  {
    if |text| == 0 then Reply(t, Err(InvalidInput))
    else
      var row := Todo(t.nextId, text, false, now);
      IdsIndex(t.rows, t.nextId);
      var rows := t.rows + [row];
      assert Valid(t) ==> UniqueIds(rows) by {
        if Valid(t) {
          forall i, j | 0 <= i < j < |rows| ensures rows[i].id != rows[j].id {
            if j == |t.rows| {
              assert rows[i] == t.rows[i];
            } else {
              assert rows[i] == t.rows[i] && rows[j] == t.rows[j];
            }
          }
        }
      }
      Reply(Table(rows, t.nextId + 1), Ok(row))
  }

  /** `toggle`: an id with no row is rejected and the table is left alone;
      otherwise `completed` is set to the negation of the row's value and the
      updated row is returned. */
  function Toggle(t: Table, id: int): (r: Reply<Todo>)
    ensures id !in Ids(t.rows) ==> r == Reply(t, Err(NotFound))
    ensures id in Ids(t.rows) ==>
      && r.result.Ok?
      && r.result.value.id == id
      && r.table.nextId == t.nextId
      && |r.table.rows| == |t.rows|
      && r.result.value in r.table.rows
      && forall i :: 0 <= i < |t.rows| && t.rows[i].id != id ==> r.table.rows[i] == t.rows[i]
    ensures Valid(t) ==> Valid(r.table)
  {
    match FindFirst(t.rows, id)
    case None => Reply(t, Err(NotFound))
    case Some(k) =>
      var rows := SetCompleted(t.rows, id, !t.rows[k].completed);
      assert Valid(t) ==> UniqueIds(rows) by {
        if Valid(t) {
          forall i, j | 0 <= i < j < |rows| ensures rows[i].id != rows[j].id {
          }
        }
      }
      Reply(Table(rows, t.nextId), Ok(rows[k]))
  }

  /** With valid rows, toggling flips the one row carrying the id and returns
      it. */
  lemma ToggleFlipsRow(t: Table, k: nat)
    requires Valid(t)
    requires k < |t.rows|
    ensures var row := t.rows[k].(completed := !t.rows[k].completed);
      Toggle(t, t.rows[k].id) == Reply(t.(rows := t.rows[k := row]), Ok(row))
  {
    var id := t.rows[k].id;
    IdsIndex(t.rows, id);
    assert FindFirst(t.rows, id) == Some(k);
    var row := t.rows[k].(completed := !t.rows[k].completed);
    var rows := Toggle(t, id).table.rows;
    forall i | 0 <= i < |t.rows| ensures rows[i] == t.rows[k := row][i] {
    }
  }

  /** `delete`: removes the row carrying the id, if any, and always answers
      `{ success: true }`. */
  function Delete(t: Table, id: int): (r: Reply<bool>)
    ensures r.result == Ok(true)
    ensures r.table.nextId == t.nextId
    ensures forall x :: x in r.table.rows <==> x in t.rows && x.id != id
    ensures Ids(r.table.rows) == Ids(t.rows) - {id}
    ensures id !in Ids(t.rows) ==> r.table == t
    ensures Valid(t) ==> Valid(r.table)
  {
    var rows := RemoveById(t.rows, id);
    assert Valid(t) ==> Valid(Table(rows, t.nextId)) by {
      if Valid(t) {
        RemoveKeepsUnique(t.rows, id);
        forall i | 0 <= i < |rows| ensures rows[i].id < t.nextId {
          assert rows[i] in t.rows;
        }
      }
    }
    Reply(Table(rows, t.nextId), Ok(true))
  }
}
