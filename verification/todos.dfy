/** Todo records, shared by the mobile store and the API router, and the list
    transforms both sides apply to them: `Array.prototype.find`, `filter` by id
    and the three `map` callbacks the store and the router use. */
module Todos {

  /** A todo row. `createdAt` is a timestamp in milliseconds: the source carries
      it as an ISO-8601 string and only ever compares the parsed times. */
  datatype Todo = Todo(id: int, text: string, completed: bool, createdAt: int)

  /** An optional value; `None` plays the part of `null` / `undefined`. */
  datatype Option<+T> = None | Some(value: T)

  /** The ids present in a list. */
  function Ids(s: seq<Todo>): set<int>
  {
    set t | t in s :: t.id
  }

  /** No two records of the list share an id. */
  predicate UniqueIds(s: seq<Todo>)
  {
    forall i, j :: 0 <= i < j < |s| ==> s[i].id != s[j].id
  }

  lemma IdsCons(s: seq<Todo>)
    requires s != []
    ensures Ids(s) == {s[0].id} + Ids(s[1..])
  {
    assert s == [s[0]] + s[1..];
    forall x | x in Ids(s) ensures x in {s[0].id} + Ids(s[1..]) {
      var t :| t in s && t.id == x;
      if t != s[0] {
        assert t in s[1..];
      }
    }
  }

  lemma IdsIndex(s: seq<Todo>, id: int)
    ensures id in Ids(s) <==> exists i :: 0 <= i < |s| && s[i].id == id
  {
    if id in Ids(s) {
      var t :| t in s && t.id == id;
      var i :| 0 <= i < |s| && s[i] == t;
    }
  }

  /** Index of the first record carrying `id`: the record
      `todos.find((t) => t.id === id)` returns, or `None` for `undefined`. */
  function FindFirst(s: seq<Todo>, id: int): (r: Option<nat>)
    ensures r.None? <==> id !in Ids(s)
    ensures r.Some? ==> r.value < |s| && s[r.value].id == id
    ensures r.Some? ==> forall j :: 0 <= j < r.value ==> s[j].id != id
  {
    if s == [] then None
    else
      IdsCons(s);
      if s[0].id == id then Some(0)
      else match FindFirst(s[1..], id)
        case None => None
        case Some(k) => Some(k + 1)
  }

  /** `todos.filter((t) => t.id !== id)`: keeps, in order, the records that do
      not carry `id`. */
  function RemoveById(s: seq<Todo>, id: int): (r: seq<Todo>)
    ensures forall t :: t in r <==> t in s && t.id != id
    ensures Ids(r) == Ids(s) - {id}
    ensures id !in Ids(s) ==> r == s
  {
    if s == [] then []
    else
      IdsCons(s);
      assert s == [s[0]] + s[1..];
      var rest := RemoveById(s[1..], id);
      if s[0].id == id then rest
      else
        IdsCons([s[0]] + rest);
        assert ([s[0]] + rest)[1..] == rest;
        [s[0]] + rest
  }

  /** Filtering a concatenation filters each part and keeps them in order:
      together with `RemoveByIdSingle` this pins `RemoveById` down as the
      order-preserving filter. */
  lemma {:induction false} RemoveByIdConcat(a: seq<Todo>, b: seq<Todo>, id: int)
    ensures RemoveById(a + b, id) == RemoveById(a, id) + RemoveById(b, id)
  {
    if a == [] {
      assert a + b == b;
    } else {
      assert (a + b)[0] == a[0];
      assert (a + b)[1..] == a[1..] + b;
      RemoveByIdConcat(a[1..], b, id);
      if a[0].id != id {
        assert [a[0]] + (RemoveById(a[1..], id) + RemoveById(b, id))
            == ([a[0]] + RemoveById(a[1..], id)) + RemoveById(b, id);
      }
    }
  }

  /** A single record survives the filter exactly when it carries another id. */
  lemma RemoveByIdSingle(t: Todo, id: int)
    ensures RemoveById([t], id) == if t.id == id then [] else [t]
  {
    assert [t][1..] == [];
  }

  /** Every record carrying another id keeps its multiplicity; records
      carrying the id are gone. */
  lemma {:induction false} RemoveByIdMultiset(s: seq<Todo>, id: int)
    ensures forall t :: multiset(RemoveById(s, id))[t] == if t.id == id then 0 else multiset(s)[t]
  {
    if s != [] {
      RemoveByIdMultiset(s[1..], id);
      assert s == [s[0]] + s[1..];
      assert multiset(s) == multiset{s[0]} + multiset(s[1..]);
    }
  }

  /** `todos.map((t) => t.id === id ? u : t)`: every record carrying `id` is
      replaced by `u`, everything else stays where it was. */
  function ReplaceById(s: seq<Todo>, id: int, u: Todo): (r: seq<Todo>)
    ensures |r| == |s|
    ensures forall i :: 0 <= i < |s| ==> r[i] == if s[i].id == id then u else s[i]
    ensures id !in Ids(s) ==> r == s
  {
    if s == [] then []
    else
      IdsCons(s);
      [if s[0].id == id then u else s[0]] + ReplaceById(s[1..], id, u)
  }

  /** `todos.map((t) => t.id === id ? { ...t, completed: !t.completed } : t)`. */
  function FlipCompleted(s: seq<Todo>, id: int): (r: seq<Todo>)
    ensures |r| == |s|
    ensures forall i :: 0 <= i < |s| ==>
      && r[i].id == s[i].id
      && r[i].text == s[i].text
      && r[i].createdAt == s[i].createdAt
      && r[i].completed == (if s[i].id == id then !s[i].completed else s[i].completed)
  {
    if s == [] then []
    else
      var t := s[0];
      [if t.id == id then t.(completed := !t.completed) else t] + FlipCompleted(s[1..], id)
  }

  /** `todos.map((t) => t.id === id ? { ...t, completed: c } : t)`. */
  function SetCompleted(s: seq<Todo>, id: int, c: bool): (r: seq<Todo>)
    ensures |r| == |s|
    ensures forall i :: 0 <= i < |s| ==>
      && r[i].id == s[i].id
      && r[i].text == s[i].text
      && r[i].createdAt == s[i].createdAt
      && r[i].completed == (if s[i].id == id then c else s[i].completed)
  {
    if s == [] then []
    else
      var t := s[0];
      [if t.id == id then t.(completed := c) else t] + SetCompleted(s[1..], id, c)
  }

  /** Flipping twice is the identity: a pair of optimistic toggles of the same
      id cancel out. */
  lemma {:induction false} FlipCompletedTwice(s: seq<Todo>, id: int)
    ensures FlipCompleted(FlipCompleted(s, id), id) == s
  {
    var r := FlipCompleted(FlipCompleted(s, id), id);
    forall i | 0 <= i < |s| ensures r[i] == s[i] {
    }
  }

  lemma UniqueIdsTail(s: seq<Todo>)
    requires s != [] && UniqueIds(s)
    ensures UniqueIds(s[1..])
    ensures s[0].id !in Ids(s[1..])
  {
    var tail := s[1..];
    forall i, j | 0 <= i < j < |tail| ensures tail[i].id != tail[j].id {
      assert tail[i] == s[i + 1] && tail[j] == s[j + 1];
    }
    IdsIndex(tail, s[0].id);
    forall j | 0 <= j < |tail| ensures tail[j].id != s[0].id {
      assert tail[j] == s[j + 1];
    }
  }

  /** A list with unique ids loses exactly the one record carrying `id` when
      filtered by it. */
  lemma {:induction false} RemoveUnique(s: seq<Todo>, k: nat)
    requires UniqueIds(s)
    requires k < |s|
    ensures RemoveById(s, s[k].id) == s[..k] + s[k + 1..]
    decreases k
  {
    UniqueIdsTail(s);
    if k > 0 {
      var tail := s[1..];
      assert tail[k - 1] == s[k];
      RemoveUnique(tail, k - 1);
      RemoveUniqueStep(s, k);
    }
  }

  lemma RemoveUniqueStep(s: seq<Todo>, k: nat)
    requires 0 < k < |s| && s[0].id != s[k].id
    requires RemoveById(s[1..], s[k].id) == s[1..][..k - 1] + s[1..][k..]
    ensures RemoveById(s, s[k].id) == s[..k] + s[k + 1..]
  {
    assert RemoveById(s, s[k].id) == [s[0]] + RemoveById(s[1..], s[k].id);
    ConsSlices(s, k);
  }

  lemma ConsSlices(s: seq<Todo>, k: nat)
    requires 0 < k < |s|
    ensures [s[0]] + (s[1..][..k - 1] + s[1..][k..]) == s[..k] + s[k + 1..]
  {
    var tail := s[1..];
    assert tail[..k - 1] == s[1..k];
    assert tail[k..] == s[k + 1..];
    assert [s[0]] + s[1..k] == s[..k];
  }

  lemma SplitAt(s: seq<Todo>, k: nat)
    requires k < |s|
    ensures s[..k] + [s[k]] + s[k + 1..] == s
  {
  }

  /** Putting a record with a fresh id in front keeps ids unique. */
  lemma UniqueCons(x: Todo, s: seq<Todo>)
    requires UniqueIds(s) && x.id !in Ids(s)
    ensures UniqueIds([x] + s)
  {
    var r := [x] + s;
    IdsIndex(s, x.id);
    forall i, j | 0 <= i < j < |r| ensures r[i].id != r[j].id {
      assert r[j] == s[j - 1];
      if i > 0 {
        assert r[i] == s[i - 1];
      }
    }
  }

  /** Filtering keeps ids unique. */
  lemma {:induction false} RemoveKeepsUnique(s: seq<Todo>, id: int)
    requires UniqueIds(s)
    ensures UniqueIds(RemoveById(s, id))
  {
    if s != [] {
      UniqueIdsTail(s);
      RemoveKeepsUnique(s[1..], id);
      if s[0].id != id {
        var rest := RemoveById(s[1..], id);
        assert RemoveById(s, id) == [s[0]] + rest;
        UniqueCons(s[0], rest);
      }
    }
  }

  /** Reordering a list with unique ids keeps them unique. */
  lemma {:induction false} UniqueIdsPermutation(a: seq<Todo>, b: seq<Todo>)
    requires UniqueIds(a)
    requires multiset(a) == multiset(b)
    ensures UniqueIds(b)
    decreases |b|
  {
    if b != [] {
      assert b[0] in multiset(a);
      var k :| 0 <= k < |a| && a[k] == b[0];
      var rest := RemoveById(a, b[0].id);
      RemoveKeepsUnique(a, b[0].id);
      RemoveUniqueMultiset(a, k);
      assert b == [b[0]] + b[1..];
      assert multiset(b[1..]) == multiset(b) - multiset{b[0]};
      UniqueIdsPermutation(rest, b[1..]);
      forall t | t in b[1..] ensures t.id != b[0].id {
        assert t in multiset(rest);
      }
      UniqueCons(b[0], b[1..]);
    }
  }

  /** Overwriting the record at `j` swaps one occurrence in the multiset. */
  lemma UpdateMultiset(s: seq<Todo>, j: nat, x: Todo)
    requires j < |s|
    ensures multiset(s[j := x]) == multiset(s) - multiset{s[j]} + multiset{x}
  {
    SplitAt(s, j);
    assert s[j := x] == s[..j] + [x] + s[j + 1..];
  }

  /** With unique ids, filtering by the id at `j` drops exactly that record
      from the multiset. */
  lemma RemoveUniqueMultiset(s: seq<Todo>, j: nat)
    requires UniqueIds(s) && j < |s|
    ensures multiset(RemoveById(s, s[j].id)) == multiset(s) - multiset{s[j]}
  {
    RemoveUnique(s, j);
    SplitAt(s, j);
  }

  /** The later of two `SetCompleted` calls on one id wins. */
  lemma SetCompletedTwice(s: seq<Todo>, id: int, c1: bool, c2: bool)
    ensures SetCompleted(SetCompleted(s, id, c1), id, c2) == SetCompleted(s, id, c2)
  {
    var a := SetCompleted(SetCompleted(s, id, c1), id, c2);
    var b := SetCompleted(s, id, c2);
    forall i | 0 <= i < |s| ensures a[i] == b[i] {
    }
  }

  /** With unique ids, `SetCompleted` touches only the record at `k`. */
  lemma SetCompletedUnique(s: seq<Todo>, k: nat, c: bool)
    requires UniqueIds(s) && k < |s|
    ensures SetCompleted(s, s[k].id, c) == s[k := s[k].(completed := c)]
  {
    var a := SetCompleted(s, s[k].id, c);
    forall i | 0 <= i < |s| ensures a[i] == s[k := s[k].(completed := c)][i] {
    }
  }

  /** With unique ids, flipping the record at `k` and then replacing records
      by its id leaves the replacement at `k` and nothing else changed. */
  lemma ReplaceAfterFlip(s: seq<Todo>, k: nat, u: Todo)
    requires UniqueIds(s) && k < |s|
    ensures ReplaceById(FlipCompleted(s, s[k].id), s[k].id, u) == s[k := u]
  {
    var a := ReplaceById(FlipCompleted(s, s[k].id), s[k].id, u);
    forall i | 0 <= i < |s| ensures a[i] == s[k := u][i] {
      if i != k {
        assert s[i].id != s[k].id;
      }
    }
  }
}
