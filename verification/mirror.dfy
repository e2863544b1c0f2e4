/** The store against the router: a user intent runs the store's mutation,
    and when the store invokes `mutateAsync` the matching procedure runs
    against the table and its answer is what `mutateAsync` settles with. The
    store's list then keeps holding exactly the table's rows. */
module StoreMirrorsServer {
  import opened Todos
  import opened NewestFirst
  import TodoStore
  import TodoRouter

  /** The local list holds exactly the rows of a valid table, ids unique. */
  predicate Mirrors(todos: seq<Todo>, t: TodoRouter.Table)
  {
    && TodoRouter.Valid(t)
    && UniqueIds(todos)
    && multiset(todos) == multiset(t.rows)
  }

  /** What `mutateAsync` settles with when the procedure answers `r`. */
  function AsSettled<T>(r: TodoRouter.Result<T>): TodoStore.Settled<T>
  {
    match r
    case Ok(v) => TodoStore.Resolved(v)
    case Err(e) => TodoStore.Rejected(TodoStore.RemoteError(e.Message()))
  }

  /** A user intent: add a todo (with the client's `Date.now()` as temporary
      id and clock, and the server's clock), toggle one, or delete one. */
  datatype Op =
    | AddTodo(text: string, tempId: int, clientNow: int, serverNow: int)
    | ToggleTodo(id: int)
    | DeleteTodo(id: int)

  /** The client's store and the server's table. */
  datatype World = World(store: TodoStore.Store, table: TodoRouter.Table)

  /** One intent end to end; the table changes only when the store called
      the server. */
  function Apply(w: World, op: Op): (r: World)
    ensures w.table.nextId <= r.table.nextId <= w.table.nextId + 1
  {
    match op
    case AddTodo(text, tempId, clientNow, serverNow) =>
      var reply := TodoRouter.Create(w.table, text, serverNow);
      var call := TodoStore.Create(w.store, text, tempId, clientNow, AsSettled(reply.result));
      World(call.store, reply.table)
    case ToggleTodo(id) =>
      var reply := TodoRouter.Toggle(w.table, id);
      var call := TodoStore.Toggle(w.store, id, AsSettled(reply.result));
      World(call.store, if call.remoteCalled then reply.table else w.table)
    case DeleteTodo(id) =>
      var reply := TodoRouter.Delete(w.table, id);
      var call := TodoStore.Delete(w.store, id, AsSettled(reply.result));
      World(call.store, if call.remoteCalled then reply.table else w.table)
  }

  /** Intents one after the other, each finishing before the next starts. */
  function Run(w: World, ops: seq<Op>): World
    decreases |ops|
  {
    if ops == [] then w else Run(Apply(w, ops[0]), ops[1..])
  }

  /** Every temporary id in `ops` is at least `bound`. */
  predicate TempIdsFrom(ops: seq<Op>, bound: int)
  {
    forall i :: 0 <= i < |ops| && ops[i].AddTodo? ==> ops[i].tempId >= bound
  }

  /** A mirrored list holds no id the table has not handed out yet. */
  lemma MirroredIdsBelow(todos: seq<Todo>, t: TodoRouter.Table, x: int)
    requires Mirrors(todos, t)
    requires x >= t.nextId
    ensures x !in Ids(todos)
  {
    IdsIndex(todos, x);
    forall i | 0 <= i < |todos| ensures todos[i].id != x {
      assert todos[i] in multiset(t.rows);
      var m :| 0 <= m < |t.rows| && t.rows[m] == todos[i];
    }
  }

  /** The row mirroring the local record at `j`. */
  lemma MirroredRow(todos: seq<Todo>, t: TodoRouter.Table, j: nat) returns (k: nat)
    requires Mirrors(todos, t) && j < |todos|
    ensures k < |t.rows| && t.rows[k] == todos[j]
  {
    assert todos[j] in multiset(t.rows);
    k :| 0 <= k < |t.rows| && t.rows[k] == todos[j];
  }

  /** Adding a todo keeps the mirror, whether the server accepts the text or
      rejects it, provided the temporary id is one the server has not handed
      out. */
  lemma AddKeepsMirror(w: World, text: string, tempId: int, clientNow: int, serverNow: int)
    requires Mirrors(w.store.todos, w.table)
    requires tempId >= w.table.nextId
    ensures var r := Apply(w, AddTodo(text, tempId, clientNow, serverNow));
      Mirrors(r.store.todos, r.table)
  {
    var l := w.store.todos;
    MirroredIdsBelow(l, w.table, tempId);
    var reply := TodoRouter.Create(w.table, text, serverNow);
    if |text| == 0 {
      TodoStore.CreateRejectedRestores(w.store, text, tempId, clientNow, TodoStore.RemoteError("invalid input"));
    } else {
      var row := reply.result.value;
      TodoStore.CreateResolvedPrepends(w.store, text, tempId, clientNow, row);
      MirroredIdsBelow(l, w.table, row.id);
      UniqueCons(row, l);
      assert multiset([row] + l) == multiset(w.table.rows + [row]);
    }
  }

  /** Overwriting a mirrored record and its row alike, id kept, keeps the
      mirror. */
  lemma UpdateKeepsMirror(todos: seq<Todo>, t: TodoRouter.Table, j: nat, k: nat, row: Todo)
    requires Mirrors(todos, t)
    requires j < |todos| && k < |t.rows| && todos[j] == t.rows[k]
    requires row.id == todos[j].id
    ensures Mirrors(todos[j := row], t.(rows := t.rows[k := row]))
  {
    var l := todos[j := row];
    var rows := t.rows[k := row];
    UpdateMultiset(todos, j, row);
    UpdateMultiset(t.rows, k, row);
    forall a, b | 0 <= a < b < |l| ensures l[a].id != l[b].id {
      assert l[a].id == todos[a].id && l[b].id == todos[b].id;
    }
    forall a, b | 0 <= a < b < |rows| ensures rows[a].id != rows[b].id {
      assert rows[a].id == t.rows[a].id && rows[b].id == t.rows[b].id;
    }
    forall a | 0 <= a < |rows| ensures rows[a].id < t.nextId {
      assert rows[a].id == t.rows[a].id;
    }
  }

  /** What a toggle of a held id does to both sides: the record and its row
      become the same flipped record. */
  lemma ToggleApplied(w: World, id: int) returns (j: nat, k: nat)
    requires Mirrors(w.store.todos, w.table)
    requires id in Ids(w.store.todos)
    ensures j < |w.store.todos| && k < |w.table.rows|
    ensures w.store.todos[j] == w.table.rows[k] && w.store.todos[j].id == id
    ensures var f := w.store.todos[j].(completed := !w.store.todos[j].completed);
      Apply(w, ToggleTodo(id))
        == World(w.store.(todos := w.store.todos[j := f]), w.table.(rows := w.table.rows[k := f]))
  {
    var l := w.store.todos;
    IdsIndex(l, id);
    j :| 0 <= j < |l| && l[j].id == id;
    k := MirroredRow(l, w.table, j);
    var row := w.table.rows[k].(completed := !w.table.rows[k].completed);
    TodoRouter.ToggleFlipsRow(w.table, k);
    TodoStore.ToggleResolvedReplaces(w.store, j, row);
  }

  /** Toggling keeps the mirror: an id the list lacks reaches no server, and
      one it holds is flipped on both sides alike. */
  lemma ToggleKeepsMirror(w: World, id: int)
    requires Mirrors(w.store.todos, w.table)
    ensures var r := Apply(w, ToggleTodo(id)); Mirrors(r.store.todos, r.table)
  {
    if id in Ids(w.store.todos) {
      var j, k := ToggleApplied(w, id);
      var f := w.store.todos[j].(completed := !w.store.todos[j].completed);
      UpdateKeepsMirror(w.store.todos, w.table, j, k, f);
    }
  }

  /** What a delete of a held id does to both sides: the record at `j` and
      its row at `k` go. */
  lemma DeleteApplied(w: World, id: int) returns (j: nat, k: nat)
    requires Mirrors(w.store.todos, w.table)
    requires id in Ids(w.store.todos)
    ensures j < |w.store.todos| && k < |w.table.rows|
    ensures w.store.todos[j] == w.table.rows[k] && w.store.todos[j].id == id
    ensures Apply(w, DeleteTodo(id)).store.todos == RemoveById(w.store.todos, id)
    ensures Apply(w, DeleteTodo(id)).table == TodoRouter.Table(RemoveById(w.table.rows, id), w.table.nextId)
  {
    var l := w.store.todos;
    IdsIndex(l, id);
    j :| 0 <= j < |l| && l[j].id == id;
    k := MirroredRow(l, w.table, j);
    assert TodoStore.Delete(w.store, id, TodoStore.Resolved(true)).store.todos == RemoveById(l, id);
  }

  /** Dropping a mirrored record and its row alike keeps the mirror. */
  lemma RemoveKeepsMirror(todos: seq<Todo>, t: TodoRouter.Table, j: nat, k: nat)
    requires Mirrors(todos, t)
    requires j < |todos| && k < |t.rows| && todos[j] == t.rows[k]
    ensures Mirrors(RemoveById(todos, todos[j].id),
                    TodoRouter.Table(RemoveById(t.rows, todos[j].id), t.nextId))
  {
    RemoveUniqueMultiset(todos, j);
    RemoveUniqueMultiset(t.rows, k);
    RemoveKeepsUnique(todos, todos[j].id);
    assert TodoRouter.Valid(TodoRouter.Delete(t, todos[j].id).table);
  }

  /** Deleting keeps the mirror: an id the list lacks reaches no server, and
      one it holds is removed on both sides. */
  lemma DeleteKeepsMirror(w: World, id: int)
    requires Mirrors(w.store.todos, w.table)
    ensures var r := Apply(w, DeleteTodo(id)); Mirrors(r.store.todos, r.table)
  {
    if id in Ids(w.store.todos) {
      var j, k := DeleteApplied(w, id);
      RemoveKeepsMirror(w.store.todos, w.table, j, k);
    }
  }

  lemma ApplyKeepsMirror(w: World, op: Op)
    requires Mirrors(w.store.todos, w.table)
    requires op.AddTodo? ==> op.tempId >= w.table.nextId
    ensures var r := Apply(w, op); Mirrors(r.store.todos, r.table)
  {
    match op
    case AddTodo(text, tempId, clientNow, serverNow) =>
      AddKeepsMirror(w, text, tempId, clientNow, serverNow);
    case ToggleTodo(id) =>
      ToggleKeepsMirror(w, id);
    case DeleteTodo(id) =>
      DeleteKeepsMirror(w, id);
  }

  /** Any sequence of intents, each settled with the procedure's own answer,
      keeps the mirror, as long as temporary ids stay clear of the ids the
      server hands out meanwhile (`Date.now()` dwarfs an auto-incremented id).
      The only failure such a run meets is a create the validator rejects. */
  lemma {:induction false} RunKeepsMirror(w: World, ops: seq<Op>)
    requires Mirrors(w.store.todos, w.table)
    requires TempIdsFrom(ops, w.table.nextId + |ops|)
    ensures var r := Run(w, ops); Mirrors(r.store.todos, r.table)
    decreases |ops|
  {
    if ops != [] {
      ApplyKeepsMirror(w, ops[0]);
      var w' := Apply(w, ops[0]);
      assert TempIdsFrom(ops[1..], w'.table.nextId + |ops[1..]|) by {
        forall i | 0 <= i < |ops[1..]| && ops[1..][i].AddTodo?
          ensures ops[1..][i].tempId >= w'.table.nextId + |ops[1..]|
        {
          assert ops[1..][i] == ops[i + 1];
        }
      }
      RunKeepsMirror(w', ops[1..]);
    }
  }

  /** A mirrored list that is newest first with distinct timestamps is
      exactly what `list` returns for the table. */
  lemma MirrorIsList(todos: seq<Todo>, t: TodoRouter.Table)
    requires Mirrors(todos, t)
    requires StrictlyDesc(todos)
    ensures todos == TodoRouter.List(t)
  {
    SortedSameRecords(todos, TodoRouter.List(t));
  }

  /** Loading the list the screen fetches, `setTodos(list())`, makes the
      store mirror any valid table. */
  lemma SetTodosFromList(s: TodoStore.Store, t: TodoRouter.Table)
    requires TodoRouter.Valid(t)
    ensures Mirrors(TodoStore.SetTodos(s, TodoRouter.List(t)).todos, t)
  {
    UniqueIdsPermutation(t.rows, TodoRouter.List(t));
  }

  // ----- lost responses -----------------------------------------------------

  /** A delete the server commits but whose response never reaches the store
      (it settles rejected) leaves the record in the list and not in the
      table: the mirror breaks. */
  lemma LostDeleteResponseBreaksMirror(w: World, id: int, e: TodoStore.RemoteError)
    requires Mirrors(w.store.todos, w.table)
    requires id in Ids(w.store.todos)
    ensures !Mirrors(TodoStore.Delete(w.store, id, TodoStore.Rejected(e)).store.todos,
                     TodoRouter.Delete(w.table, id).table)
  {
    var l := TodoStore.Delete(w.store, id, TodoStore.Rejected(e)).store.todos;
    var rows := TodoRouter.Delete(w.table, id).table.rows;
    assert id in Ids(l);
    var x :| x in l && x.id == id;
    assert x !in rows;
    assert multiset(l)[x] > 0 && multiset(rows)[x] == 0;
  }

  /** A create the server commits but whose response never reaches the store
      leaves the table one row longer than the list: the mirror breaks. */
  lemma LostCreateResponseBreaksMirror(w: World, text: string, tempId: int, clientNow: int,
                                       serverNow: int, e: TodoStore.RemoteError)
    requires Mirrors(w.store.todos, w.table)
    requires tempId >= w.table.nextId
    requires |text| >= 1
    ensures !Mirrors(TodoStore.Create(w.store, text, tempId, clientNow, TodoStore.Rejected(e)).store.todos,
                     TodoRouter.Create(w.table, text, serverNow).table)
  {
    MirroredIdsBelow(w.store.todos, w.table, tempId);
    TodoStore.CreateRejectedRestores(w.store, text, tempId, clientNow, e);
    var rows := TodoRouter.Create(w.table, text, serverNow).table.rows;
    assert |multiset(rows)| == |multiset(w.store.todos)| + 1;
  }

  // ----- ordering -----------------------------------------------------------

  /** No record of `s` is newer than `floor`. */
  predicate NoNewerThan(s: seq<Todo>, floor: int)
  {
    forall i :: 0 <= i < |s| ==> s[i].createdAt <= floor
  }

  /** Each create in `ops` reads a server clock later than `floor` and than
      every earlier create's. */
  predicate ServerClockAfter(ops: seq<Op>, floor: int)
    decreases |ops|
  {
    if ops == [] then true
    else if ops[0].AddTodo? then
      ops[0].serverNow > floor && ServerClockAfter(ops[1..], ops[0].serverNow)
    else
      ServerClockAfter(ops[1..], floor)
  }

  /** Filtering the record at `j` out of a strictly newest-first list with
      unique ids keeps it strictly newest first. */
  lemma RemoveKeepsStrict(s: seq<Todo>, j: nat)
    requires UniqueIds(s) && StrictlyDesc(s) && j < |s|
    ensures StrictlyDesc(RemoveById(s, s[j].id))
  {
    RemoveUnique(s, j);
    DropKeepsStrict(s, j);
  }

  lemma DropKeepsStrict(s: seq<Todo>, j: nat)
    requires StrictlyDesc(s) && j < |s|
    ensures StrictlyDesc(s[..j] + s[j + 1..])
  {
    var r := s[..j] + s[j + 1..];
    forall a, b | 0 <= a < b < |r| ensures r[a].createdAt > r[b].createdAt {
      var a' := if a < j then a else a + 1;
      var b' := if b < j then b else b + 1;
      assert r[a] == s[a'] && r[b] == s[b'];
    }
  }

  lemma AddKeepsStrict(w: World, text: string, tempId: int, clientNow: int, serverNow: int, floor: int)
    requires Mirrors(w.store.todos, w.table)
    requires tempId >= w.table.nextId && serverNow > floor
    requires StrictlyDesc(w.store.todos) && NoNewerThan(w.store.todos, floor)
    ensures var r := Apply(w, AddTodo(text, tempId, clientNow, serverNow)).store.todos;
      StrictlyDesc(r) && NoNewerThan(r, serverNow)
  {
    var l := w.store.todos;
    MirroredIdsBelow(l, w.table, tempId);
    if |text| == 0 {
      TodoStore.CreateRejectedRestores(w.store, text, tempId, clientNow, TodoStore.RemoteError("invalid input"));
    } else {
      var row := TodoRouter.Create(w.table, text, serverNow).result.value;
      TodoStore.CreateResolvedPrepends(w.store, text, tempId, clientNow, row);
      var r := [row] + l;
      forall a, b | 0 <= a < b < |r| ensures r[a].createdAt > r[b].createdAt {
        assert r[b] == l[b - 1];
        if a > 0 {
          assert r[a] == l[a - 1];
        }
      }
      forall a | 0 <= a < |r| ensures r[a].createdAt <= serverNow {
        if a > 0 {
          assert r[a] == l[a - 1];
        }
      }
    }
  }

  lemma FlipKeepsStrict(l: seq<Todo>, j: nat, floor: int)
    requires j < |l|
    requires StrictlyDesc(l) && NoNewerThan(l, floor)
    ensures var r := l[j := l[j].(completed := !l[j].completed)];
      StrictlyDesc(r) && NoNewerThan(r, floor)
  {
    var r := l[j := l[j].(completed := !l[j].completed)];
    assert forall a :: 0 <= a < |r| ==> r[a].createdAt == l[a].createdAt;
  }

  lemma ToggleKeepsStrict(w: World, id: int, floor: int)
    requires Mirrors(w.store.todos, w.table)
    requires StrictlyDesc(w.store.todos) && NoNewerThan(w.store.todos, floor)
    ensures var r := Apply(w, ToggleTodo(id)).store.todos;
      StrictlyDesc(r) && NoNewerThan(r, floor)
  {
    var l := w.store.todos;
    if id in Ids(l) {
      var j, k := ToggleApplied(w, id);
      FlipKeepsStrict(l, j, floor);
    }
  }

  lemma DeleteKeepsStrict(w: World, id: int, floor: int)
    requires Mirrors(w.store.todos, w.table)
    requires StrictlyDesc(w.store.todos) && NoNewerThan(w.store.todos, floor)
    ensures var r := Apply(w, DeleteTodo(id)).store.todos;
      StrictlyDesc(r) && NoNewerThan(r, floor)
  {
    var l := w.store.todos;
    if id in Ids(l) {
      var j, k := DeleteApplied(w, id);
      RemoveKeepsStrict(l, j);
      var r := RemoveById(l, id);
      forall a | 0 <= a < |r| ensures r[a].createdAt <= floor {
        assert r[a] in l;
      }
    }
  }

  /** One intent keeps the list strictly newest first when a create's server
      clock is later than every record held. */
  lemma ApplyKeepsStrict(w: World, op: Op, floor: int)
    requires Mirrors(w.store.todos, w.table)
    requires op.AddTodo? ==> op.tempId >= w.table.nextId && op.serverNow > floor
    requires StrictlyDesc(w.store.todos) && NoNewerThan(w.store.todos, floor)
    ensures var r := Apply(w, op).store.todos;
      StrictlyDesc(r) && NoNewerThan(r, if op.AddTodo? then op.serverNow else floor)
  {
    match op
    case AddTodo(text, tempId, clientNow, serverNow) =>
      AddKeepsStrict(w, text, tempId, clientNow, serverNow, floor);
    case ToggleTodo(id) =>
      ToggleKeepsStrict(w, id, floor);
    case DeleteTodo(id) =>
      DeleteKeepsStrict(w, id, floor);
  }

  /** Intents run one after the other, starting from a mirrored list that is
      strictly newest first, with each create reading a later server clock:
      the store ends up holding exactly what `list` returns. */
  lemma {:induction false} RunMatchesList(w: World, ops: seq<Op>, floor: int)
    requires Mirrors(w.store.todos, w.table)
    requires TempIdsFrom(ops, w.table.nextId + |ops|)
    requires StrictlyDesc(w.store.todos) && NoNewerThan(w.store.todos, floor)
    requires ServerClockAfter(ops, floor)
    ensures var r := Run(w, ops); r.store.todos == TodoRouter.List(r.table)
    decreases |ops|
  {
    if ops == [] {
      MirrorIsList(w.store.todos, w.table);
    } else {
      ApplyKeepsMirror(w, ops[0]);
      ApplyKeepsStrict(w, ops[0], floor);
      var w' := Apply(w, ops[0]);
      assert TempIdsFrom(ops[1..], w'.table.nextId + |ops[1..]|) by {
        forall i | 0 <= i < |ops[1..]| && ops[1..][i].AddTodo?
          ensures ops[1..][i].tempId >= w'.table.nextId + |ops[1..]|
        {
          assert ops[1..][i] == ops[i + 1];
        }
      }
      RunMatchesList(w', ops[1..], if ops[0].AddTodo? then ops[0].serverNow else floor);
    }
  }

  /** From the store's initial state and an empty table, every run whose
      temporary ids clear the server's ids and whose creates read increasing
      server clocks ends with the store holding exactly what `list` returns. */
  lemma InitialMatchesList(nextId: int, ops: seq<Op>, floor: int)
    requires TempIdsFrom(ops, nextId + |ops|)
    requires ServerClockAfter(ops, floor)
    ensures var r := Run(World(TodoStore.Initial, TodoRouter.Table([], nextId)), ops);
      r.store.todos == TodoRouter.List(r.table)
  {
    RunMatchesList(World(TodoStore.Initial, TodoRouter.Table([], nextId)), ops, floor);
  }

  /** After the screen loads `list()` into the store, the same holds from any
      valid table whose rows have distinct timestamps no later than `floor`. */
  lemma LoadedRunMatchesList(s: TodoStore.Store, t: TodoRouter.Table, ops: seq<Op>, floor: int)
    requires TodoRouter.Valid(t)
    requires StrictlyDesc(TodoRouter.List(t)) && NoNewerThan(TodoRouter.List(t), floor)
    requires TempIdsFrom(ops, t.nextId + |ops|)
    requires ServerClockAfter(ops, floor)
    ensures var r := Run(World(TodoStore.SetTodos(s, TodoRouter.List(t)), t), ops);
      r.store.todos == TodoRouter.List(r.table)
  {
    SetTodosFromList(s, t);
    RunMatchesList(World(TodoStore.SetTodos(s, TodoRouter.List(t)), t), ops, floor);
  }
}
