/** The client-side optimistic todo store (`useTodoStore`). Every mutation is
    split into the `set` it performs before awaiting the injected remote call
    (`...Begin`, the optimistic step) and the `set` it performs once that call
    settles (`...Settle`, the resolution step); `Create`, `Toggle` and `Delete`
    compose the two into one uninterrupted call. Interleaved calls are
    compositions of the steps. */
module TodoStore {
  import opened Todos
  import opened NewestFirst

  /** What a remote call rejects with (a `TRPCClientError`), kept opaque. */
  datatype RemoteError = RemoteError(message: string)

  /** How the injected `mutateAsync` settles. */
  datatype Settled<+T> = Resolved(value: T) | Rejected(error: RemoteError)

  /** The store's state; `error == None` is `null`. */
  datatype Store = Store(todos: seq<Todo>, isLoading: bool, error: Option<RemoteError>)

  /** How a mutation ends for its caller: it returns, or rethrows the error. */
  datatype Completion = Returned | Threw(error: RemoteError)

  /** A resolution step: the state its `set` leaves, and how the call ends. */
  datatype Step = Step(store: Store, completion: Completion)

  /** A whole mutation: the final state, whether `mutateAsync` was invoked, and
      how the call ends. */
  datatype Call = Call(store: Store, remoteCalled: bool, completion: Completion)

  /** The state the store is created with. */
  const Initial := Store([], false, None)

  /** The optimistic record `create` shows until the server answers. */
  function Provisional(text: string, tempId: int, now: int): Todo
  {
    Todo(tempId, text, false, now)
  }

  function SetTodos(s: Store, todos: seq<Todo>): (r: Store)
    ensures r.todos == todos
    ensures r.isLoading == s.isLoading && r.error == s.error
  {
    s.(todos := todos)
  }

  function SetLoading(s: Store, isLoading: bool): (r: Store)
    ensures r.isLoading == isLoading
    ensures r.todos == s.todos && r.error == s.error
  {
    s.(isLoading := isLoading)
  }

  function SetError(s: Store, error: Option<RemoteError>): (r: Store)
    ensures r.error == error
    ensures r.todos == s.todos && r.isLoading == s.isLoading
  {
    s.(error := error)
  }

  // ----- create -------------------------------------------------------------

  /** Prepends the provisional record, which carries the temporary id. */
  function CreateBegin(s: Store, text: string, tempId: int, now: int): (r: Store)
    ensures |r.todos| == |s.todos| + 1
    ensures r.todos[0] == Provisional(text, tempId, now) && r.todos[1..] == s.todos
    ensures r.isLoading == s.isLoading && r.error == s.error
  {
    s.(todos := [Provisional(text, tempId, now)] + s.todos)
  }

  /** On success every record carrying the temporary id becomes the server's
      record; on failure those records are dropped and the error is recorded
      and rethrown. */
  function CreateSettle(s: Store, tempId: int, outcome: Settled<Todo>): (r: Step)
    ensures r.store.isLoading == s.isLoading
    ensures outcome.Resolved? ==>
      && r.completion == Returned
      && r.store.error == s.error
      && |r.store.todos| == |s.todos|
      && forall i :: 0 <= i < |s.todos| ==>
           r.store.todos[i] == if s.todos[i].id == tempId then outcome.value else s.todos[i]
    ensures outcome.Rejected? ==>
      && r.completion == Threw(outcome.error)
      && r.store.error == Some(outcome.error)
      && Ids(r.store.todos) == Ids(s.todos) - {tempId}
      && forall t :: t in r.store.todos <==> t in s.todos && t.id != tempId
  {
    match outcome
    case Resolved(todo) =>
      Step(s.(todos := ReplaceById(s.todos, tempId, todo)), Returned)
    case Rejected(e) =>
      Step(s.(todos := RemoveById(s.todos, tempId), error := Some(e)), Threw(e))
  }

  /** `create(input, mutateAsync)` with `Date.now()` as `tempId`, the current
      time as `now`, and `outcome` what `mutateAsync(input)` settles with. */
  function Create(s: Store, text: string, tempId: int, now: int, outcome: Settled<Todo>): (r: Call)
    ensures r.remoteCalled
    ensures r.store.isLoading == s.isLoading
    ensures outcome.Resolved? ==>
      && r.completion == Returned
      && r.store.error == s.error
      && |r.store.todos| == |s.todos| + 1
      && r.store.todos[0] == outcome.value
    ensures outcome.Rejected? ==>
      && r.completion == Threw(outcome.error)
      && r.store.error == Some(outcome.error)
      && Ids(r.store.todos) == Ids(s.todos) - {tempId}
  {
    var begun := CreateBegin(s, text, tempId, now);
    var settled := CreateSettle(begun, tempId, outcome);
    Call(settled.store, true, settled.completion)
  }

  /** With a temporary id no existing record carries, a successful create
      leaves the server's record in front of the untouched list. */
  lemma CreateResolvedPrepends(s: Store, text: string, tempId: int, now: int, u: Todo)
    requires tempId !in Ids(s.todos)
    ensures Create(s, text, tempId, now, Resolved(u)).store == s.(todos := [u] + s.todos)
  {
    var begun := CreateBegin(s, text, tempId, now);
    assert begun.todos[1..] == s.todos;
    var r := Create(s, text, tempId, now, Resolved(u)).store.todos;
    IdsIndex(s.todos, tempId);
    forall i | 0 <= i < |r| ensures r[i] == ([u] + s.todos)[i] {
      if i > 0 {
        assert begun.todos[i] == s.todos[i - 1];
      }
    }
  }

  /** With a temporary id no existing record carries, a failed create restores
      the list exactly, records the error and rethrows it. */
  lemma CreateRejectedRestores(s: Store, text: string, tempId: int, now: int, e: RemoteError)
    requires tempId !in Ids(s.todos)
    ensures Create(s, text, tempId, now, Rejected(e)) == Call(s.(error := Some(e)), true, Threw(e))
  {
    var begun := CreateBegin(s, text, tempId, now);
    assert begun.todos == [begun.todos[0]] + s.todos;
    assert RemoveById(begun.todos, tempId) == RemoveById(s.todos, tempId);
  }

  /** A failed create leaves the set of ids as it was exactly when the
      temporary id was not already in use. */
  lemma CreateRejectedKeepsIds(s: Store, text: string, tempId: int, now: int, e: RemoteError)
    ensures Ids(Create(s, text, tempId, now, Rejected(e)).store.todos) == Ids(s.todos)
        <==> tempId !in Ids(s.todos)
  {
    var r := Create(s, text, tempId, now, Rejected(e)).store.todos;
    if tempId in Ids(s.todos) {
      assert tempId !in Ids(r);
    }
  }

  // ----- toggle -------------------------------------------------------------

  /** Flips `completed` on the records carrying `id`; nothing else changes. */
  function ToggleBegin(s: Store, id: int): (r: Store)
    ensures |r.todos| == |s.todos|
    ensures forall i :: 0 <= i < |s.todos| ==>
      && r.todos[i].id == s.todos[i].id
      && r.todos[i].text == s.todos[i].text
      && r.todos[i].createdAt == s.todos[i].createdAt
      && r.todos[i].completed == (s.todos[i].completed != (s.todos[i].id == id))
    ensures r.isLoading == s.isLoading && r.error == s.error
  {
    s.(todos := FlipCompleted(s.todos, id))
  }

  /** On success the records carrying `id` become the server's record; on
      failure they get back the `completed` value captured before the flip,
      and the error is recorded and rethrown. */
  function ToggleSettle(s: Store, id: int, previous: bool, outcome: Settled<Todo>): (r: Step)
    ensures r.store.isLoading == s.isLoading
    ensures |r.store.todos| == |s.todos|
    ensures forall i :: 0 <= i < |s.todos| && s.todos[i].id != id ==> r.store.todos[i] == s.todos[i]
    ensures outcome.Resolved? ==>
      && r.completion == Returned
      && r.store.error == s.error
      && forall i :: 0 <= i < |s.todos| && s.todos[i].id == id ==> r.store.todos[i] == outcome.value
    ensures outcome.Rejected? ==>
      && r.completion == Threw(outcome.error)
      && r.store.error == Some(outcome.error)
      && forall i :: 0 <= i < |s.todos| && s.todos[i].id == id ==>
           r.store.todos[i] == s.todos[i].(completed := previous)
  {
    match outcome
    case Resolved(updated) =>
      Step(s.(todos := ReplaceById(s.todos, id, updated)), Returned)
    case Rejected(e) =>
      Step(s.(todos := SetCompleted(s.todos, id, previous), error := Some(e)), Threw(e))
  }

  /** `toggle({ id }, mutateAsync)`, `outcome` being what `mutateAsync` would
      settle with. An id the list does not hold is a silent no-op: no state
      change and no remote call. */
  function Toggle(s: Store, id: int, outcome: Settled<Todo>): (r: Call)
    ensures id !in Ids(s.todos) ==> r == Call(s, false, Returned)
    ensures id in Ids(s.todos) ==>
      && r.remoteCalled
      && r.store.isLoading == s.isLoading
      && |r.store.todos| == |s.todos|
      && (forall i :: 0 <= i < |s.todos| && s.todos[i].id != id ==> r.store.todos[i] == s.todos[i])
      && (outcome.Resolved? ==> r.completion == Returned && r.store.error == s.error)
      && (outcome.Rejected? ==> r.completion == Threw(outcome.error) && r.store.error == Some(outcome.error))
  {
    match FindFirst(s.todos, id)
    case None => Call(s, false, Returned)
    case Some(k) =>
      var previous := s.todos[k].completed;
      var settled := ToggleSettle(ToggleBegin(s, id), id, previous, outcome);
      Call(settled.store, true, settled.completion)
  }

  /** All records carrying `id` agree on `completed` (true when ids are unique). */
  predicate AgreeOnCompleted(s: seq<Todo>, id: int)
  {
    forall i, j :: 0 <= i < |s| && 0 <= j < |s| && s[i].id == id && s[j].id == id ==>
      s[i].completed == s[j].completed
  }

  /** Restoring the captured value after a flip gives back the list exactly
      when every record carrying the id had that value. */
  lemma RestoreAfterFlipIff(l: seq<Todo>, id: int, k: nat)
    requires k < |l| && l[k].id == id
    ensures SetCompleted(FlipCompleted(l, id), id, l[k].completed) == l <==> AgreeOnCompleted(l, id)
  {
    var r := SetCompleted(FlipCompleted(l, id), id, l[k].completed);
    if AgreeOnCompleted(l, id) {
      forall i | 0 <= i < |l| ensures r[i] == l[i] {
      }
    } else {
      var i, j :| 0 <= i < |l| && 0 <= j < |l| && l[i].id == id
        && l[j].id == id && l[i].completed != l[j].completed;
      assert r[i].completed == r[j].completed;
    }
  }

  /** A failed toggle restores the list exactly when every record carrying the
      id had the `completed` value captured from the first of them. */
  lemma ToggleRejectedRestoresIff(s: Store, id: int, e: RemoteError)
    requires id in Ids(s.todos)
    ensures Toggle(s, id, Rejected(e)).store.todos == s.todos <==> AgreeOnCompleted(s.todos, id)
  {
    var k := FindFirst(s.todos, id).value;
    assert Toggle(s, id, Rejected(e)).store.todos
        == SetCompleted(FlipCompleted(s.todos, id), id, s.todos[k].completed);
    RestoreAfterFlipIff(s.todos, id, k);
  }

  /** With unique ids, a failed toggle puts everything back, records the error
      and rethrows it. */
  lemma ToggleRejectedRestores(s: Store, id: int, e: RemoteError)
    requires UniqueIds(s.todos)
    requires id in Ids(s.todos)
    ensures Toggle(s, id, Rejected(e)) == Call(s.(error := Some(e)), true, Threw(e))
  {
    ToggleRejectedRestoresIff(s, id, e);
  }

  /** With unique ids, a successful toggle swaps the one matching record for
      the server's record. */
  lemma ToggleResolvedReplaces(s: Store, k: nat, u: Todo)
    requires UniqueIds(s.todos)
    requires k < |s.todos|
    ensures Toggle(s, s.todos[k].id, Resolved(u)) == Call(s.(todos := s.todos[k := u]), true, Returned)
  {
    var id := s.todos[k].id;
    IdsIndex(s.todos, id);
    assert Toggle(s, id, Resolved(u)).store.todos == ReplaceById(FlipCompleted(s.todos, id), id, u);
    ReplaceAfterFlip(s.todos, k, u);
  }

  // ----- delete -------------------------------------------------------------

  /** Removes every record carrying `id`. */
  function DeleteBegin(s: Store, id: int): (r: Store)
    ensures forall t :: t in r.todos <==> t in s.todos && t.id != id
    ensures Ids(r.todos) == Ids(s.todos) - {id}
    ensures r.isLoading == s.isLoading && r.error == s.error
  {
    s.(todos := RemoveById(s.todos, id))
  }

  /** On success (whatever `success` flag came back) the removal stands; on
      failure the captured record is appended, the whole list is re-sorted
      newest first, and the error is recorded and rethrown. */
  function DeleteSettle(s: Store, captured: Todo, outcome: Settled<bool>): (r: Step)
    ensures outcome.Resolved? ==> r == Step(s, Returned)
    ensures outcome.Rejected? ==>
      && r.completion == Threw(outcome.error)
      && r.store.error == Some(outcome.error)
      && r.store.isLoading == s.isLoading
      && SortedDesc(r.store.todos)
      && multiset(r.store.todos) == multiset(s.todos) + multiset{captured}
  {
    match outcome
    case Resolved(_) => Step(s, Returned)
    case Rejected(e) =>
      Step(s.(todos := Sort(s.todos + [captured]), error := Some(e)), Threw(e))
  }

  /** `delete({ id }, mutateAsync)`, `outcome` being what `mutateAsync` would
      settle with. An id the list does not hold is a silent no-op: no state
      change and no remote call. */
  function Delete(s: Store, id: int, outcome: Settled<bool>): (r: Call)
    ensures id !in Ids(s.todos) ==> r == Call(s, false, Returned)
    ensures id in Ids(s.todos) ==> r.remoteCalled && r.store.isLoading == s.isLoading
    ensures id in Ids(s.todos) && outcome.Resolved? ==>
      && r.completion == Returned
      && r.store.error == s.error
      && Ids(r.store.todos) == Ids(s.todos) - {id}
      && forall t :: t in r.store.todos <==> t in s.todos && t.id != id
    ensures id in Ids(s.todos) && outcome.Rejected? ==>
      && r.completion == Threw(outcome.error)
      && r.store.error == Some(outcome.error)
      && SortedDesc(r.store.todos)
      && Ids(r.store.todos) == Ids(s.todos)
  {
    match FindFirst(s.todos, id)
    case None => Call(s, false, Returned)
    case Some(k) =>
      var captured := s.todos[k];
      var begun := DeleteBegin(s, id);
      var settled := DeleteSettle(begun, captured, outcome);
      if outcome.Resolved? then Call(settled.store, true, settled.completion)
      else
        DeleteRejectedIds(begun.todos, settled.store.todos, captured, s.todos, id);
        Call(settled.store, true, settled.completion)
  }

  lemma DeleteRejectedIds(begun: seq<Todo>, r: seq<Todo>, captured: Todo, s: seq<Todo>, id: int)
    requires captured in s && captured.id == id
    requires Ids(begun) == Ids(s) - {id}
    requires multiset(r) == multiset(begun) + multiset{captured}
    ensures Ids(r) == Ids(s)
  {
    forall x | x in Ids(r) ensures x in Ids(s) {
      var t :| t in r && t.id == x;
      assert t in multiset(r);
      if t != captured {
        assert t in begun;
        assert t.id in Ids(begun);
      }
    }
    forall x | x in Ids(s) ensures x in Ids(r) {
      assert captured in multiset(r);
      if x != id {
        assert x in Ids(begun);
        var t :| t in begun && t.id == x;
        assert t in multiset(r);
      }
    }
  }

  /** With unique ids, a failed delete brings back exactly the records that
      were there, newest first, records the error and rethrows it. */
  lemma DeleteRejectedPermutes(s: Store, k: nat, e: RemoteError)
    requires UniqueIds(s.todos)
    requires k < |s.todos|
    ensures var r := Delete(s, s.todos[k].id, Rejected(e));
      && multiset(r.store.todos) == multiset(s.todos)
      && SortedDesc(r.store.todos)
      && r.store.error == Some(e)
      && r.completion == Threw(e)
  {
    var id := s.todos[k].id;
    IdsIndex(s.todos, id);
    assert FindFirst(s.todos, id) == Some(k);
    RemoveUniqueMultiset(s.todos, k);
    assert s.todos[k] in multiset(s.todos);
  }

  /** Re-sorting after putting back the record at `k` of a newest-first list
      with unique ids restores the list, as long as the record after it is
      strictly older. */
  lemma ReinsertAt(l: seq<Todo>, k: nat)
    requires UniqueIds(l) && SortedDesc(l)
    requires k < |l|
    requires k + 1 == |l| || l[k + 1].createdAt < l[k].createdAt
    ensures Sort(RemoveById(l, l[k].id) + [l[k]]) == l
  {
    RemoveUnique(l, k);
    RemoveKeepsSorted(l, l[k].id);
    SortAppend(l[..k] + l[k + 1..], l[k]);
    InsertAtOwnPlace(l, k);
  }

  lemma InsertAtOwnPlace(l: seq<Todo>, k: nat)
    requires SortedDesc(l)
    requires k < |l|
    requires k + 1 == |l| || l[k + 1].createdAt < l[k].createdAt
    ensures Insert(l[..k] + l[k + 1..], l[k]) == l
  {
    assert AllAtLeast(l[..k], l[k]) by {
      forall i | 0 <= i < k ensures l[..k][i].createdAt >= l[k].createdAt {
        assert l[..k][i] == l[i];
      }
    }
    InsertBetween(l[..k], l[k + 1..], l[k]);
    SplitAt(l, k);
  }

  /** A failed delete on a newest-first list with unique ids puts the record
      back where it was, as long as the record after it is strictly older. */
  lemma DeleteRejectedRestoresPosition(s: Store, k: nat, e: RemoteError)
    requires UniqueIds(s.todos) && SortedDesc(s.todos)
    requires k < |s.todos|
    requires k + 1 == |s.todos| || s.todos[k + 1].createdAt < s.todos[k].createdAt
    ensures Delete(s, s.todos[k].id, Rejected(e)) == Call(s.(error := Some(e)), true, Threw(e))
  {
    var id := s.todos[k].id;
    IdsIndex(s.todos, id);
    assert FindFirst(s.todos, id) == Some(k);
    ReinsertAt(s.todos, k);
  }

  // ----- ordering -----------------------------------------------------------

  /** Every record of `s` is at most as new as `x`. */
  predicate AllAtMost(s: seq<Todo>, x: Todo)
  {
    forall i :: 0 <= i < |s| ==> s[i].createdAt <= x.createdAt
  }

  /** A create keeps the list newest first when the record it ends with is at
      least as new as every record already there. */
  lemma CreateKeepsNewestFirst(s: Store, text: string, tempId: int, now: int, outcome: Settled<Todo>)
    requires SortedDesc(s.todos)
    requires tempId !in Ids(s.todos)
    requires outcome.Resolved? ==> AllAtMost(s.todos, outcome.value)
    ensures SortedDesc(Create(s, text, tempId, now, outcome).store.todos)
  {
    match outcome
    case Resolved(u) =>
      CreateResolvedPrepends(s, text, tempId, now, u);
      var r := [u] + s.todos;
      forall i, j | 0 <= i < j < |r| ensures r[i].createdAt >= r[j].createdAt {
        assert r[j] == s.todos[j - 1];
        if i > 0 {
          assert r[i] == s.todos[i - 1];
        }
      }
    case Rejected(e) =>
      CreateRejectedRestores(s, text, tempId, now, e);
  }

  /** A toggle keeps the list newest first as long as the server's record
      carries the timestamp of the records it replaces. */
  lemma ToggleKeepsNewestFirst(s: Store, id: int, outcome: Settled<Todo>)
    requires SortedDesc(s.todos)
    requires outcome.Resolved? ==>
      forall i :: 0 <= i < |s.todos| && s.todos[i].id == id ==>
        s.todos[i].createdAt == outcome.value.createdAt
    ensures SortedDesc(Toggle(s, id, outcome).store.todos)
  {
    var r := Toggle(s, id, outcome).store.todos;
    if id in Ids(s.todos) {
      var k := FindFirst(s.todos, id).value;
      var begun := ToggleBegin(s, id);
      assert r == ToggleSettle(begun, id, s.todos[k].completed, outcome).store.todos;
      assert forall i :: 0 <= i < |r| ==> r[i].createdAt == s.todos[i].createdAt;
    }
  }

  /** A delete keeps the list newest first, whether it succeeds or fails. */
  lemma DeleteKeepsNewestFirst(s: Store, id: int, outcome: Settled<bool>)
    requires SortedDesc(s.todos)
    ensures SortedDesc(Delete(s, id, outcome).store.todos)
  {
    if id in Ids(s.todos) && outcome.Resolved? {
      RemoveKeepsSorted(s.todos, id);
    }
  }

  // ----- interleaving -------------------------------------------------------

  /** Two overlapping toggles of one record whose remote calls both fail: each
      call restores the value it captured, so the outcome depends on the order
      in which the failures arrive. Failing in the order the calls were made
      leaves the record flipped although the server changed nothing; failing in
      the opposite order restores it. */
  lemma OverlappingTogglesBothRejected(s: Store, k: nat, e1: RemoteError, e2: RemoteError)
    requires UniqueIds(s.todos)
    requires k < |s.todos|
    ensures
      var id := s.todos[k].id;
      var c := s.todos[k].completed;
      var first := ToggleBegin(s, id);
      var second := ToggleBegin(first, id);
      && first.todos[k].completed == !c
      && ToggleSettle(ToggleSettle(second, id, c, Rejected(e1)).store, id, !c, Rejected(e2)).store.todos
         == s.todos[k := s.todos[k].(completed := !c)]
      && ToggleSettle(ToggleSettle(second, id, !c, Rejected(e2)).store, id, c, Rejected(e1)).store.todos
         == s.todos
  {
    var id := s.todos[k].id;
    var c := s.todos[k].completed;
    var second := ToggleBegin(ToggleBegin(s, id), id);
    FlipCompletedTwice(s.todos, id);
    assert second.todos == s.todos;
    var a := ToggleSettle(second, id, c, Rejected(e1)).store;
    var b := ToggleSettle(second, id, !c, Rejected(e2)).store;
    assert a.todos == SetCompleted(s.todos, id, c);
    assert b.todos == SetCompleted(s.todos, id, !c);
    assert ToggleSettle(a, id, !c, Rejected(e2)).store.todos == SetCompleted(a.todos, id, !c);
    assert ToggleSettle(b, id, c, Rejected(e1)).store.todos == SetCompleted(b.todos, id, c);
    SetCompletedTwice(s.todos, id, c, !c);
    SetCompletedTwice(s.todos, id, !c, c);
    SetCompletedUnique(s.todos, k, !c);
    SetCompletedUnique(s.todos, k, c);
    assert s.todos[k := s.todos[k].(completed := c)] == s.todos;
  }
}
