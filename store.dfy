/**
 * The store the page's setup closure builds: an insertion-ordered set of
 * to-do records and the counter `ID` that hands out their ids.
 */
module Store {
  import opened Decimal
  import opened Todos

  /** The two records the store is seeded with, ids 0 and 1. */
  function InitialTodos(): (r: seq<Todo>)
    ensures DistinctIds(r) && forall t :: t in r ==> t.id < 2
  {
    [Todo(0, "Buy a unicorn", false), Todo(1, "Taste JavaScript", true)]
  }

  /** `allTodos.delete(todo)`: the record with that id goes, the others keep their order. */
  function Delete(ts: seq<Todo>, id: nat): (r: seq<Todo>)
    ensures forall t :: t in r <==> t in ts && t.id != id
    ensures (forall t :: t in ts ==> t.id != id) ==> r == ts
  {
    if ts == [] then []
    else if ts[0].id == id then
      assert ts == [ts[0]] + ts[1..];
      Delete(ts[1..], id)
    else
      assert ts == [ts[0]] + ts[1..];
      [ts[0]] + Delete(ts[1..], id)
  }

  /** The records after the first have unique ids, none of them the first record's. */
  lemma TailDistinct(ts: seq<Todo>)
    requires DistinctIds(ts) && ts != []
    ensures DistinctIds(ts[1..])
    ensures forall u :: u in ts[1..] ==> u.id != ts[0].id
  {
    var rest := ts[1..];
    forall i, j | 0 <= i < j < |rest| ensures rest[i].id != rest[j].id {
      assert rest[i] == ts[i + 1] && rest[j] == ts[j + 1];
    }
    forall u | u in rest ensures u.id != ts[0].id {
      var k :| 0 <= k < |rest| && rest[k] == u;
      assert ts[k + 1] == u;
    }
  }

  lemma ConsDistinct(x: Todo, d: seq<Todo>)
    requires DistinctIds(d) && forall u :: u in d ==> u.id != x.id
    ensures DistinctIds([x] + d)
  {
    var r := [x] + d;
    forall i, j | 0 <= i < j < |r| ensures r[i].id != r[j].id {
      if i == 0 {
        assert r[j] in d;
      } else {
        assert r[i] == d[i - 1] && r[j] == d[j - 1];
      }
    }
  }

  /** Deleting keeps ids unique. */
  lemma {:induction false} DeleteDistinct(ts: seq<Todo>, id: nat)
    requires DistinctIds(ts)
    ensures DistinctIds(Delete(ts, id))
  {
    if ts != [] {
      TailDistinct(ts);
      DeleteDistinct(ts[1..], id);
      if ts[0].id != id {
        ConsDistinct(ts[0], Delete(ts[1..], id));
      }
    }
  }

  /** With unique ids, deleting a present id removes exactly one record. */
  lemma {:induction false} DeleteCount(ts: seq<Todo>, id: nat)
    requires DistinctIds(ts)
    ensures (exists t :: t in ts && t.id == id) ==> |Delete(ts, id)| == |ts| - 1
    ensures (forall t :: t in ts ==> t.id != id) ==> |Delete(ts, id)| == |ts|
  {
    if ts != [] {
      TailDistinct(ts);
      DeleteCount(ts[1..], id);
      if ts[0].id != id && exists t :: t in ts && t.id == id {
        var t :| t in ts && t.id == id;
        assert t in ts[1..];
      }
    }
  }

  /** The seeded page shows "1 active / 2 total". */
  lemma InitialSummary()
    ensures Summary(InitialTodos()) == "1 active / 2 total"
  {
    SeededSummary(InitialTodos());
  }

  /** Any active record followed by a completed one gives "1 active / 2 total". */
  lemma SeededSummary(ts: seq<Todo>)
    requires |ts| == 2 && !ts[0].completed && ts[1].completed
    ensures Summary(ts) == "1 active / 2 total"
  {
    SeededActiveCount(ts);
    assert Summary(ts) == NatToString(1) + " active / " + NatToString(2) + " total";
    OneOfTwoText();
  }

  lemma SeededActiveCount(ts: seq<Todo>)
    requires |ts| == 2 && !ts[0].completed && ts[1].completed
    ensures ActiveCount(ts) == 1
  {
    ActiveCountAppend([ts[0]], ts[1]);
    ActiveCountAppend([], ts[0]);
    assert [ts[0]] == [] + [ts[0]];
    assert ts == [ts[0]] + [ts[1]];
  }

  lemma OneOfTwoText()
    ensures NatToString(1) + " active / " + NatToString(2) + " total" == "1 active / 2 total"
  {
    assert NatToString(1) == "1" && NatToString(2) == "2";
  }

  /** The seeded page lists id 1 above id 0; the active screen shows only id 0, the completed one only id 1. */
  lemma InitialDisplay()
    ensures Display(All, InitialTodos()) == [InitialTodos()[1], InitialTodos()[0]]
    ensures Display(Active, InitialTodos()) == [InitialTodos()[0]]
    ensures Display(Completed, InitialTodos()) == [InitialTodos()[1]]
  {
    SeededDisplay(InitialTodos());
  }

  /** Any two records shaped like the seeds (id 0 active, id 1 completed) are displayed that way. */
  lemma SeededDisplay(ts: seq<Todo>)
    requires |ts| == 2 && ts[0].id == 0 && ts[1].id == 1 && !ts[0].completed && ts[1].completed
    ensures Display(All, ts) == [ts[1], ts[0]]
    ensures Display(Active, ts) == [ts[0]]
    ensures Display(Completed, ts) == [ts[1]]
  {
    assert ts == [ts[0]] + [ts[1]];
    assert [ts[0]] == [] + [ts[0]];
    assert Select(All, ts) == ts by {
      ActiveCompletedPartition(ts);
    }
    assert Select(Active, ts) == [ts[0]] by {
      SelectSnoc(Active, [ts[0]], ts[1]);
      SelectSnoc(Active, [], ts[0]);
    }
    assert Select(Completed, ts) == [ts[1]] by {
      SelectSnoc(Completed, [ts[0]], ts[1]);
      SelectSnoc(Completed, [], ts[0]);
    }
    SortOne(ts[0]);
    SortOne(ts[1]);
    SortSeededPair(ts);
  }

  lemma SortOne(t: Todo)
    ensures SortByIdDesc([t]) == [t]
  {
    assert [t][1..] == [];
  }

  lemma SortSeededPair(ts: seq<Todo>)
    requires |ts| == 2 && ts[0].id < ts[1].id
    ensures SortByIdDesc(ts) == [ts[1], ts[0]]
  {
    var a, b := ts[0], ts[1];
    assert ts[1..] == [b];
    SortOne(b);
    assert SortByIdDesc(ts) == Insert(a, [b]);
    assert [b][1..] == [];
    assert Insert(a, [b]) == [b] + Insert(a, []);
  }

  /** After `addTodo` the total and the active count each grow by one and the new record is listed first. */
  lemma AddViews(ts: seq<Todo>, n: nat, text: string)
    requires DistinctIds(ts) && forall t :: t in ts ==> t.id < n
    ensures ActiveCount(ts + [Todo(n, text, false)]) == ActiveCount(ts) + 1
    ensures |ts + [Todo(n, text, false)]| == |ts| + 1
    ensures Display(All, ts + [Todo(n, text, false)])[0] == Todo(n, text, false)
    ensures Display(Active, ts + [Todo(n, text, false)])[0] == Todo(n, text, false)
  {
    var t := Todo(n, text, false);
    var ts' := ts + [t];
    ActiveCountAppend(ts, t);
    assert DistinctIds(ts') by {
      forall i, j | 0 <= i < j < |ts'| ensures ts'[i].id != ts'[j].id {
        assert ts'[i] in ts;
        if j < |ts| { assert ts'[i] == ts[i] && ts'[j] == ts[j]; }
      }
    }
    NewestFirst(All, ts', t);
    NewestFirst(Active, ts', t);
  }

  /** A record whose id exceeds every other id and that passes the filter heads the displayed list. */
  lemma NewestFirst(f: Filter, ts: seq<Todo>, t: Todo)
    requires DistinctIds(ts) && t in ts && Passes(f, t)
    requires forall u :: u in ts && u != t ==> u.id < t.id
    ensures |Display(f, ts)| > 0 && Display(f, ts)[0] == t
  {
    DisplaySpec(f, ts);
    var d := Display(f, ts);
    assert t in d;
    var k :| 0 <= k < |d| && d[k] == t;
    if k != 0 {
      assert d[0].id > d[k].id;
      assert d[0] in ts;
    }
  }

  /** After `destroyTodo` no view shows a record with that id, and every other record is still shown where its filter allows. */
  lemma DestroyViews(ts: seq<Todo>, id: nat, f: Filter)
    requires DistinctIds(ts)
    ensures forall t :: t in Display(f, Delete(ts, id)) <==> t in ts && t.id != id && Passes(f, t)
  {
    DeleteDistinct(ts, id);
    DisplaySpec(f, Delete(ts, id));
  }

  /**
   * After `clearCompleted` no completed record is left, every active record
   * is kept, and the summary takes its short form.
   */
  lemma ClearCompletedViews(ts: seq<Todo>)
    ensures forall t :: t in Select(Active, ts) ==> !t.completed
    ensures forall t :: t in ts && !t.completed ==> t in Select(Active, ts)
    ensures ActiveCount(Select(Active, ts)) == |Select(Active, ts)| == ActiveCount(ts)
    ensures Summary(Select(Active, ts)) == NatToString(ActiveCount(ts)) + " active"
  {
    var r := Select(Active, ts);
    assert forall i :: 0 <= i < |r| ==> !r[i].completed by {
      forall i | 0 <= i < |r| ensures !r[i].completed {
        assert r[i] in r;
      }
    }
  }

  /** Deleting twice is the same as deleting once. */
  lemma DeleteIdempotent(ts: seq<Todo>, id: nat)
    ensures Delete(Delete(ts, id), id) == Delete(ts, id)
  {
  }

  /**
   * One step of the walk in `TodoStore.ClearCompleted`.  Before the step, the
   * records ahead of position i are the active ones among the first k original
   * records and the rest is the unvisited tail; the record at i is the k-th
   * original one.
   */
  lemma ClearCompletedVisit(cur: seq<Todo>, before: seq<Todo>, i: nat, k: nat)
    requires i < |cur| && k < |before|
    requires cur[i..] == before[k..]
    ensures cur[i] == before[k]
    ensures Select(Active, before[..k + 1]) ==
      Select(Active, before[..k]) + if before[k].completed then [] else [before[k]]
  {
    assert cur[i..][0] == before[k..][0];
    assert before[..k + 1] == before[..k] + [before[k]];
    SelectSnoc(Active, before[..k], before[k]);
  }

  /** Deleting the completed record at i keeps the walk's invariant. */
  lemma ClearCompletedDelete(cur: seq<Todo>, before: seq<Todo>, i: nat, k: nat)
    requires i < |cur| && k < |before|
    requires cur[..i] == Select(Active, before[..k]) && cur[i..] == before[k..]
    requires cur[i].completed
    ensures (cur[..i] + cur[i + 1..])[..i] == Select(Active, before[..k + 1])
    ensures (cur[..i] + cur[i + 1..])[i..] == before[k + 1..]
  {
    ClearCompletedVisit(cur, before, i, k);
    var next := cur[..i] + cur[i + 1..];
    assert next[..i] == cur[..i];
    assert next[i..] == cur[i + 1..] == cur[i..][1..];
  }

  /** Stepping past the active record at i keeps the walk's invariant. */
  lemma ClearCompletedKeep(cur: seq<Todo>, before: seq<Todo>, i: nat, k: nat)
    requires i < |cur| && k < |before|
    requires cur[..i] == Select(Active, before[..k]) && cur[i..] == before[k..]
    requires !cur[i].completed
    ensures cur[..i + 1] == Select(Active, before[..k + 1])
    ensures cur[i + 1..] == before[k + 1..]
  {
    ClearCompletedVisit(cur, before, i, k);
    assert cur[..i + 1] == cur[..i] + [cur[i]];
    assert cur[i + 1..] == cur[i..][1..];
  }

  /** When the walk reaches the end, exactly the active records are left. */
  lemma ClearCompletedDone(cur: seq<Todo>, before: seq<Todo>, i: nat, k: nat)
    requires i == |cur| && k <= |before|
    requires cur[..i] == Select(Active, before[..k]) && cur[i..] == before[k..]
    ensures cur == Select(Active, before)
  {
    assert |before[k..]| == 0;
    assert before[..k] == before;
    assert cur[..i] == cur;
  }

  /** Dropping the completed records keeps ids unique and below the counter. */
  lemma ClearCompletedKeepsIds(ts: seq<Todo>, nextId: nat)
    requires DistinctIds(ts) && forall t :: t in ts ==> t.id < nextId
    ensures DistinctIds(Select(Active, ts)) && forall t :: t in Select(Active, ts) ==> t.id < nextId
  {
    SelectDistinct(Active, ts);
  }

  class TodoStore {
    /** The counter `ID`: the next id to hand out. */
    var nextId: nat
    /** `allTodos`, in insertion order (the order a JavaScript `Set` iterates in). */
    var todos: seq<Todo>

    /** Ids are unique and every id was taken from the counter before its current value. */
    ghost predicate Valid()
      reads this
    {
      DistinctIds(todos) && forall t :: t in todos ==> t.id < nextId
    }

    /** The setup closure: an empty set, then the two seeded records. */
    constructor ()
      ensures Valid()
      ensures todos == InitialTodos() && nextId == 2
    {
      nextId := 0;
      todos := [];
      new;
      AddRecord("Buy a unicorn", false);
      AddRecord("Taste JavaScript", true);
    }

    /** `allTodos.add(reactive.object({ id: String(ID++), label, completed }))`. */
    method AddRecord(text: string, completed: bool)
      requires Valid()
      modifies this
      ensures Valid()
      ensures todos == old(todos) + [Todo(old(nextId), text, completed)]
      ensures nextId == old(nextId) + 1
    {
      var t := Todo(nextId, text, completed);
      todos := todos + [t];
      nextId := nextId + 1;
      assert forall u :: u in old(todos) ==> u.id < t.id;
    }

    /** `addTodo`: a fresh record, not completed, with the submitted label. */
    method Add(text: string)
      requires Valid()
      modifies this
      ensures Valid()
      ensures todos == old(todos) + [Todo(old(nextId), text, false)]
      ensures nextId == old(nextId) + 1
    {
      AddRecord(text, false);
    }

    /** `destroyTodo`: removes the record with this id; nothing happens if there is none. */
    method Destroy(id: nat)
      requires Valid()
      modifies this
      ensures Valid()
      ensures todos == Delete(old(todos), id)
      ensures nextId == old(nextId)
    {
      DeleteDistinct(todos, id);
      todos := Delete(todos, id);
    }

    /**
     * `clearCompleted`: walks the set and deletes each completed record as it
     * is reached; the walk goes on with the record after the deleted one.
     */
    method ClearCompleted()
      requires Valid()
      modifies this
      ensures Valid()
      ensures todos == Select(Active, old(todos))
      ensures nextId == old(nextId)
    {
      ghost var before := todos;
      var i := 0;
      ghost var k := 0;
      while i < |todos|
        invariant 0 <= i <= |todos|
        invariant 0 <= k <= |before|
        invariant todos[..i] == Select(Active, before[..k])
        invariant todos[i..] == before[k..]
        modifies this`todos
        decreases |todos| - i
      {
        if todos[i].completed {
          ClearCompletedDelete(todos, before, i, k);
          todos := todos[..i] + todos[i + 1..];
        } else {
          ClearCompletedKeep(todos, before, i, k);
          i := i + 1;
        }
        k := k + 1;
      }
      ClearCompletedDone(todos, before, i, k);
      ClearCompletedKeepsIds(before, nextId);
    }
  }

  lemma DistinctThree(ts: seq<Todo>)
    requires |ts| == 3 && ts[0].id == 0 && ts[1].id == 1 && ts[2].id == 2
    ensures DistinctIds(ts)
  {
    forall i, j | 0 <= i < j < 3 ensures ts[i].id != ts[j].id {
    }
  }

  lemma DescendingThree(a: Todo, b: Todo, c: Todo)
    requires a.id > b.id > c.id
    ensures DescendingById([a, b, c])
  {
    var s := [a, b, c];
    forall i, j | 0 <= i < j < 3 ensures s[i].id > s[j].id {
    }
  }

  lemma TwoOfThreeText()
    ensures NatToString(2) + " active / " + NatToString(3) + " total" == "2 active / 3 total"
  {
    assert NatToString(2) == "2" && NatToString(3) == "3";
  }

  lemma ReversedThreeMultiset(ts: seq<Todo>)
    requires |ts| == 3
    ensures multiset(ts) == multiset([ts[2], ts[1], ts[0]])
  {
    var a, b, c := ts[0], ts[1], ts[2];
    calc {
      multiset(ts);
      == { assert ts == [a] + [b] + [c]; }
      multiset([a]) + multiset([b]) + multiset([c]);
      ==
      multiset([c]) + multiset([b]) + multiset([a]);
      == { assert [c, b, a] == [c] + [b] + [a]; }
      multiset([c, b, a]);
    }
  }

  /** Records with ids 0, 1 and 2 are listed as 2, 1, 0 whatever their labels and flags. */
  lemma ThreeListedNewestFirst(ts: seq<Todo>)
    requires |ts| == 3 && ts[0].id == 0 && ts[1].id == 1 && ts[2].id == 2
    ensures Display(All, ts) == [ts[2], ts[1], ts[0]]
  {
    var expected := [ts[2], ts[1], ts[0]];
    assert Select(All, ts) == ts by {
      SelectAllPass(All, ts);
    }
    var shown := Display(All, ts);
    assert DescendingById(shown) by {
      DistinctThree(ts);
      SortDescending(ts);
    }
    assert multiset(expected) == multiset(shown) by {
      ReversedThreeMultiset(ts);
    }
    DescendingThree(ts[2], ts[1], ts[0]);
    DescendingUnique(expected, shown);
  }

  /** The page after one submitted label: three records, newest first, and the summary line. */
  method AddThenList() returns (shown: seq<Todo>, summary: string)
    ensures shown == [Todo(2, "Walk the unicorn", false), Todo(1, "Taste JavaScript", true), Todo(0, "Buy a unicorn", false)]
    ensures summary == "2 active / 3 total"
  {
    var store := new TodoStore();
    store.Add("Walk the unicorn");
    var ts := store.todos;
    ThreeListedNewestFirst(ts);
    shown := Display(All, ts);
    InitialSummary();
    ActiveCountAppend(InitialTodos(), ts[2]);
    assert ActiveCount(ts) == 2 && |ts| == 3;
    summary := Summary(ts);
    TwoOfThreeText();
  }
}
