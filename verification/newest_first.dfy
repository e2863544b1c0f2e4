/** Newest-first ordering of todos. The store's delete rollback sorts with the
    comparator `(a, b) => timeB - timeA`; `Array.prototype.sort` is stable, so
    records with equal timestamps keep their relative order. `Sort` below is a
    stable insertion sort with that comparator. */
module NewestFirst {
  import opened Todos

  /** Ordered by `createdAt`, newest first. */
  predicate SortedDesc(s: seq<Todo>)
  {
    forall i, j :: 0 <= i < j < |s| ==> s[i].createdAt >= s[j].createdAt
  }

  /** Newest first, no two records sharing a timestamp. */
  predicate StrictlyDesc(s: seq<Todo>)
  {
    forall i, j :: 0 <= i < j < |s| ==> s[i].createdAt > s[j].createdAt
  }

  /** Every record of `s` is at least as new as `x`. */
  predicate AllAtLeast(s: seq<Todo>, x: Todo)
  {
    forall i :: 0 <= i < |s| ==> s[i].createdAt >= x.createdAt
  }

  /** Places `x` after every record at least as new as it: a stable sort that
      meets `x` last puts it behind the records with the same timestamp. */
  function Insert(s: seq<Todo>, x: Todo): (r: seq<Todo>)
    ensures |r| == |s| + 1
    ensures multiset(r) == multiset(s) + multiset{x}
    ensures SortedDesc(s) ==> SortedDesc(r)
  {
    if s == [] then [x]
    else if s[0].createdAt >= x.createdAt then
      var rest := Insert(s[1..], x);
      assert s == [s[0]] + s[1..];
      InsertKeepsSorted(s, x, rest);
      [s[0]] + rest
    else
      [x] + s
  }

  lemma InsertKeepsSorted(s: seq<Todo>, x: Todo, rest: seq<Todo>)
    requires s != [] && s[0].createdAt >= x.createdAt
    requires multiset(rest) == multiset(s[1..]) + multiset{x}
    requires SortedDesc(s[1..]) ==> SortedDesc(rest)
    ensures SortedDesc(s) ==> SortedDesc([s[0]] + rest)
  {
    if SortedDesc(s) {
      var r := [s[0]] + rest;
      assert SortedDesc(s[1..]);
      forall j | 0 < j < |r| ensures r[0].createdAt >= r[j].createdAt {
        var y := rest[j - 1];
        assert y in multiset(rest);
        if y != x {
          assert y in s[1..];
          var m :| 0 <= m < |s[1..]| && s[1..][m] == y;
          assert s[m + 1] == y;
        }
      }
    }
  }

  /** `[...s].sort((a, b) => b.createdAt - a.createdAt)`: a stable,
      newest-first permutation of `s`. */
  function Sort(s: seq<Todo>): (r: seq<Todo>)
    ensures multiset(r) == multiset(s)
    ensures SortedDesc(r)
    ensures |r| == |s|
  {
    if s == [] then []
    else
      var init := s[..|s| - 1];
      assert s == init + [s[|s| - 1]];
      Insert(Sort(init), s[|s| - 1])
  }

  /** The records of `s` stamped `c`, in their order in `s`. */
  function WithTime(s: seq<Todo>, c: int): (r: seq<Todo>)
    ensures |r| <= |s|
  {
    if s == [] then []
    else (if s[0].createdAt == c then [s[0]] else []) + WithTime(s[1..], c)
  }

  lemma {:induction false} WithTimeConcat(a: seq<Todo>, b: seq<Todo>, c: int)
    ensures WithTime(a + b, c) == WithTime(a, c) + WithTime(b, c)
  {
    if a == [] {
      assert a + b == b;
    } else {
      var h := if a[0].createdAt == c then [a[0]] else [];
      assert (a + b)[0] == a[0];
      assert (a + b)[1..] == a[1..] + b;
      assert WithTime(a + b, c) == h + WithTime(a[1..] + b, c);
      WithTimeConcat(a[1..], b, c);
      assert WithTime(a, c) == h + WithTime(a[1..], c);
      assert h + (WithTime(a[1..], c) + WithTime(b, c)) == (h + WithTime(a[1..], c)) + WithTime(b, c);
    }
  }

  lemma WithTimeSingle(x: Todo, c: int)
    ensures WithTime([x], c) == if x.createdAt == c then [x] else []
  {
    assert [x][1..] == [];
  }

  /** A newest-first list whose head is older than `c` holds nothing stamped
      `c`. */
  lemma NoneWithTime(s: seq<Todo>, c: int)
    requires SortedDesc(s)
    requires s == [] || s[0].createdAt < c
    ensures WithTime(s, c) == []
  {
    if s != [] {
      SortedTail(s);
      NoneWithTime(s[1..], c);
    }
  }

  lemma WithTimeCons(x: Todo, s: seq<Todo>, c: int)
    ensures WithTime([x] + s, c) == (if x.createdAt == c then [x] else []) + WithTime(s, c)
  {
    assert ([x] + s)[0] == x;
    assert ([x] + s)[1..] == s;
  }

  /** Stability of one insertion into a newest-first list: among the records
      stamped `c` the new one comes last, and the others keep their order. */
  lemma {:induction false} InsertStable(s: seq<Todo>, x: Todo, c: int)
    requires SortedDesc(s)
    ensures WithTime(Insert(s, x), c) == WithTime(s, c) + (if x.createdAt == c then [x] else [])
  {
    var tx := if x.createdAt == c then [x] else [];
    if s == [] {
      WithTimeSingle(x, c);
    } else if s[0].createdAt >= x.createdAt {
      SortedTail(s);
      InsertStable(s[1..], x, c);
      InsertStableStep(s, x, c, tx);
    } else {
      assert Insert(s, x) == [x] + s;
      WithTimeCons(x, s, c);
      if x.createdAt == c {
        NoneWithTime(s, c);
      }
    }
  }

  lemma InsertStableStep(s: seq<Todo>, x: Todo, c: int, tx: seq<Todo>)
    requires s != [] && s[0].createdAt >= x.createdAt
    requires WithTime(Insert(s[1..], x), c) == WithTime(s[1..], c) + tx
    ensures WithTime(Insert(s, x), c) == WithTime(s, c) + tx
  {
    var h := if s[0].createdAt == c then [s[0]] else [];
    var rest := Insert(s[1..], x);
    assert Insert(s, x) == [s[0]] + rest;
    WithTimeCons(s[0], rest, c);
    WithTimeCons(s[0], s[1..], c);
    assert [s[0]] + s[1..] == s;
    assert h + (WithTime(s[1..], c) + tx) == (h + WithTime(s[1..], c)) + tx;
  }

  /** `Sort` is stable: for every timestamp, the records carrying it appear
      in the result in the order they had in the input. */
  lemma {:induction false} SortStable(s: seq<Todo>, c: int)
    ensures WithTime(Sort(s), c) == WithTime(s, c)
  {
    if s != [] {
      var init := s[..|s| - 1];
      var last := s[|s| - 1];
      var tail := if last.createdAt == c then [last] else [];
      assert Sort(s) == Insert(Sort(init), last);
      SortStable(init, c);
      InsertStable(Sort(init), last, c);
      assert WithTime(Sort(s), c) == WithTime(init, c) + tail;
      SplitLast(s);
      WithTimeConcat(init, [last], c);
      WithTimeSingle(last, c);
    }
  }

  /** Where `Insert` puts the new record: behind every record at least as new,
      in front of the first strictly older one. */
  lemma {:induction false} InsertBetween(a: seq<Todo>, b: seq<Todo>, x: Todo)
    requires AllAtLeast(a, x)
    requires b == [] || b[0].createdAt < x.createdAt
    ensures Insert(a + b, x) == a + [x] + b
  {
    if a == [] {
      assert a + b == b;
    } else {
      InsertStep(a, b, x);
      InsertBetween(a[1..], b, x);
      ConsConcat(a, b, x);
    }
  }

  lemma InsertStep(a: seq<Todo>, b: seq<Todo>, x: Todo)
    requires a != [] && AllAtLeast(a, x)
    ensures AllAtLeast(a[1..], x)
    ensures Insert(a + b, x) == [a[0]] + Insert(a[1..] + b, x)
  {
    forall i | 0 <= i < |a[1..]| ensures a[1..][i].createdAt >= x.createdAt {
      assert a[1..][i] == a[i + 1];
    }
    assert (a + b)[0] == a[0];
    assert (a + b)[1..] == a[1..] + b;
  }

  lemma ConsConcat(a: seq<Todo>, b: seq<Todo>, x: Todo)
    requires a != []
    ensures [a[0]] + (a[1..] + [x] + b) == a + [x] + b
  {
  }

  lemma SortedInit(s: seq<Todo>)
    requires s != [] && SortedDesc(s)
    ensures SortedDesc(s[..|s| - 1])
    ensures AllAtLeast(s[..|s| - 1], s[|s| - 1])
  {
    var init := s[..|s| - 1];
    forall i, j | 0 <= i < j < |init| ensures init[i].createdAt >= init[j].createdAt {
      assert init[i] == s[i] && init[j] == s[j];
    }
    forall i | 0 <= i < |init| ensures init[i].createdAt >= s[|s| - 1].createdAt {
      assert init[i] == s[i];
    }
  }

  /** Sorting a list that is already newest-first leaves it as it is. */
  lemma {:induction false} SortSorted(s: seq<Todo>)
    requires SortedDesc(s)
    ensures Sort(s) == s
  {
    if s != [] {
      var init := s[..|s| - 1];
      var last := s[|s| - 1];
      SortedInit(s);
      SortSorted(init);
      InsertLast(init, last);
      SplitLast(s);
    }
  }

  /** A record no newer than any in the list goes at its end. */
  lemma {:induction false} InsertLast(s: seq<Todo>, x: Todo)
    requires AllAtLeast(s, x)
    ensures Insert(s, x) == s + [x]
  {
    if s != [] {
      assert AllAtLeast(s[1..], x) by {
        forall i | 0 <= i < |s[1..]| ensures s[1..][i].createdAt >= x.createdAt {
          assert s[1..][i] == s[i + 1];
        }
      }
      InsertLast(s[1..], x);
      assert [s[0]] + (s[1..] + [x]) == s + [x];
    }
  }

  lemma SplitLast(s: seq<Todo>)
    requires s != []
    ensures s[..|s| - 1] + [s[|s| - 1]] == s
  {
  }

  /** Appending one record and sorting a sorted list inserts it in place. */
  lemma SortAppend(s: seq<Todo>, x: Todo)
    requires SortedDesc(s)
    ensures Sort(s + [x]) == Insert(s, x)
  {
    assert (s + [x])[..|s + [x]| - 1] == s;
    SortSorted(s);
  }

  /** Removing records keeps the order of the rest. */
  lemma {:induction false} RemoveKeepsSorted(s: seq<Todo>, id: int)
    requires SortedDesc(s)
    ensures SortedDesc(RemoveById(s, id))
  {
    if s != [] {
      assert SortedDesc(s[1..]);
      RemoveKeepsSorted(s[1..], id);
      var rest := RemoveById(s[1..], id);
      if s[0].id != id {
        var r := [s[0]] + rest;
        assert RemoveById(s, id) == r;
        forall j | 0 < j < |r| ensures r[0].createdAt >= r[j].createdAt {
          assert r[j] in rest;
          assert r[j] in s[1..];
          var m :| 0 <= m < |s[1..]| && s[1..][m] == r[j];
          assert s[m + 1] == r[j];
        }
      }
    }
  }

  /** Two newest-first lists holding the same records are equal when one of
      them has no two records with the same timestamp. */
  lemma {:induction false} SortedSameRecords(a: seq<Todo>, b: seq<Todo>)
    requires SortedDesc(a) && SortedDesc(b) && StrictlyDesc(a)
    requires multiset(a) == multiset(b)
    ensures a == b
  {
    assert |a| == |multiset(a)| == |b|;
    if a != [] {
      SameHead(a, b);
      SameTail(a, b);
      SortedTail(a);
      SortedTail(b);
      SortedSameRecords(a[1..], b[1..]);
      assert a == [a[0]] + a[1..] && b == [b[0]] + b[1..];
    }
  }

  lemma SameHead(a: seq<Todo>, b: seq<Todo>)
    requires a != [] && b != []
    requires SortedDesc(b) && StrictlyDesc(a)
    requires multiset(a) == multiset(b)
    ensures a[0] == b[0]
  {
    assert a[0] in multiset(b);
    var m :| 0 <= m < |b| && b[m] == a[0];
    assert b[0] in multiset(a);
    var n :| 0 <= n < |a| && a[n] == b[0];
    assert n == 0;
  }

  lemma SameTail(a: seq<Todo>, b: seq<Todo>)
    requires a != [] && b != [] && a[0] == b[0]
    requires multiset(a) == multiset(b)
    ensures multiset(a[1..]) == multiset(b[1..])
  {
    assert a == [a[0]] + a[1..] && b == [b[0]] + b[1..];
    assert multiset(a[1..]) == multiset(a) - multiset{a[0]};
    assert multiset(b[1..]) == multiset(b) - multiset{b[0]};
  }

  lemma SortedTail(s: seq<Todo>)
    requires s != [] && SortedDesc(s)
    ensures SortedDesc(s[1..])
    ensures StrictlyDesc(s) ==> StrictlyDesc(s[1..])
  {
    var t := s[1..];
    forall i, j | 0 <= i < j < |t| ensures t[i].createdAt >= t[j].createdAt {
      assert t[i] == s[i + 1] && t[j] == s[j + 1];
    }
    if StrictlyDesc(s) {
      forall i, j | 0 <= i < j < |t| ensures t[i].createdAt > t[j].createdAt {
        assert t[i] == s[i + 1] && t[j] == s[j + 1];
      }
    }
  }
}
