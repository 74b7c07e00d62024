/**
 * The to-do records and the two views the page derives from a snapshot of
 * the store: the filtered list sorted newest first (`todos()`) and the
 * footer's summary line (`count()`).
 */
module Todos {
  import opened Decimal

  datatype Option<T> = None | Some(value: T)

  /** A to-do record.  The source keeps the id as the text `String(n)`; `id` is that n.  `text` is the source's `label` (a reserved word in Dafny). */
  datatype Todo = Todo(id: nat, text: string, completed: bool)

  /** The three route filters: all, active (not completed), completed. */
  datatype Filter = All | Active | Completed

  /** The route predicates: `all` admits every record, `active` and `completed` split them by `completed`. */
  function Passes(f: Filter, t: Todo): (b: bool)
    ensures f == All ==> b
    ensures f != All ==> (b <==> t.completed == (f == Completed))
  {
    match f
    case All => true
    case Active => !t.completed
    case Completed => t.completed
  }

  /** No two records share an id. */
  predicate DistinctIds(ts: seq<Todo>) {
    forall i, j :: 0 <= i < j < |ts| ==> ts[i].id != ts[j].id
  }

  /** Strictly decreasing ids: newest first, as the display order. */
  predicate DescendingById(ts: seq<Todo>) {
    forall i, j :: 0 <= i < j < |ts| ==> ts[i].id > ts[j].id
  }

  // ---------------------------------------------------------------- filtering

  /**
   * The route's filter applied to a snapshot: the records that pass, in their
   * order.
   */
  function Select(f: Filter, ts: seq<Todo>): (r: seq<Todo>)
    ensures |r| <= |ts|
    ensures forall t :: t in r <==> t in ts && Passes(f, t)
  {
    if ts == [] then []
    else
      var last := ts[|ts| - 1];
      assert ts == ts[..|ts| - 1] + [last];
      Select(f, ts[..|ts| - 1]) + (if Passes(f, last) then [last] else [])
  }

  /** Filtering a snapshot with one more record at the end. */
  lemma SelectSnoc(f: Filter, ts: seq<Todo>, t: Todo)
    ensures Select(f, ts + [t]) == Select(f, ts) + if Passes(f, t) then [t] else []
  {
    assert (ts + [t])[..|ts|] == ts;
  }

  /** Each record that passes is kept as often as it occurs, and no other is. */
  lemma {:induction false} SelectMultiset(f: Filter, ts: seq<Todo>, t: Todo)
    ensures multiset(Select(f, ts))[t] == if Passes(f, t) then multiset(ts)[t] else 0
  {
    if ts != [] {
      var init, last := ts[..|ts| - 1], ts[|ts| - 1];
      SelectMultiset(f, init, t);
      assert ts == init + [last];
      assert multiset(ts) == multiset(init) + multiset{last};
      var tail := if Passes(f, last) then [last] else [];
      assert Select(f, ts) == Select(f, init) + tail;
      assert multiset(Select(f, ts)) == multiset(Select(f, init)) + multiset(tail);
    }
  }

  /** Filtering never brings two records with one id together. */
  lemma {:induction false} SelectDistinct(f: Filter, ts: seq<Todo>)
    requires DistinctIds(ts)
    ensures DistinctIds(Select(f, ts))
  {
    if ts != [] {
      var init := ts[..|ts| - 1];
      var last := ts[|ts| - 1];
      assert DistinctIds(init) by {
        forall i, j | 0 <= i < j < |init| ensures init[i].id != init[j].id {
          assert init[i] == ts[i] && init[j] == ts[j];
        }
      }
      SelectDistinct(f, init);
      var a := Select(f, init);
      forall u | u in a ensures u.id != last.id {
        var k :| 0 <= k < |init| && init[k] == u;
        assert ts[k] == u;
      }
      var r := Select(f, ts);
      if Passes(f, last) {
        assert r == a + [last];
        forall i, j | 0 <= i < j < |r| ensures r[i].id != r[j].id {
          if j == |r| - 1 {
            assert r[i] in a;
          } else {
            assert r[i] == a[i] && r[j] == a[j];
          }
        }
      } else {
        assert r == a;
      }
    }
  }

  /** When every record passes, filtering returns the snapshot itself. */
  lemma {:induction false} SelectAllPass(f: Filter, ts: seq<Todo>)
    requires forall i :: 0 <= i < |ts| ==> Passes(f, ts[i])
    ensures Select(f, ts) == ts
  {
    if ts != [] {
      var init, last := ts[..|ts| - 1], ts[|ts| - 1];
      forall i | 0 <= i < |init| ensures Passes(f, init[i]) {
        assert init[i] == ts[i];
      }
      SelectAllPass(f, init);
      assert Passes(f, last);
      assert init + [last] == ts;
      SelectSnoc(f, init, last);
    }
  }

  /** A record that fails the filter makes the result shorter than the snapshot. */
  lemma {:induction false} SelectDropsOne(f: Filter, ts: seq<Todo>, i: nat)
    requires i < |ts| && !Passes(f, ts[i])
    ensures |Select(f, ts)| < |ts|
  {
    var init := ts[..|ts| - 1];
    if i < |ts| - 1 {
      assert init[i] == ts[i];
      SelectDropsOne(f, init, i);
    }
  }

  /** Every record passes exactly when filtering loses nothing. */
  lemma SelectKeepsAll(f: Filter, ts: seq<Todo>)
    ensures |Select(f, ts)| == |ts| <==> forall i :: 0 <= i < |ts| ==> Passes(f, ts[i])
    ensures (forall i :: 0 <= i < |ts| ==> Passes(f, ts[i])) ==> Select(f, ts) == ts
  {
    if forall i :: 0 <= i < |ts| ==> Passes(f, ts[i]) {
      SelectAllPass(f, ts);
    } else {
      var i :| 0 <= i < |ts| && !Passes(f, ts[i]);
      SelectDropsOne(f, ts, i);
    }
  }

  /** The active and the completed views split the whole store, with no overlap. */
  lemma ActiveCompletedPartition(ts: seq<Todo>)
    ensures multiset(Select(Active, ts)) + multiset(Select(Completed, ts)) == multiset(ts)
    ensures multiset(Select(Active, ts)) * multiset(Select(Completed, ts)) == multiset{}
    ensures Select(All, ts) == ts
  {
    var a, c := multiset(Select(Active, ts)), multiset(Select(Completed, ts));
    assert a + c == multiset(ts) by {
      forall t ensures (a + c)[t] == multiset(ts)[t] {
        SelectMultiset(Active, ts, t);
        SelectMultiset(Completed, ts, t);
      }
    }
    assert a * c == multiset{} by {
      forall t ensures (a * c)[t] == 0 {
        SelectMultiset(Active, ts, t);
        SelectMultiset(Completed, ts, t);
      }
    }
    SelectAllPass(All, ts);
  }

  // ---------------------------------------------------------------- counting

  /** `active([...allTodos]).length`. */
  function ActiveCount(ts: seq<Todo>): (n: nat)
    ensures n <= |ts|
    ensures n == |ts| <==> forall i :: 0 <= i < |ts| ==> !ts[i].completed
  {
    SelectKeepsAll(Active, ts);
    |Select(Active, ts)|
  }

  /** A record added at the end counts once more, as active when it is not completed. */
  lemma ActiveCountAppend(ts: seq<Todo>, t: Todo)
    ensures ActiveCount(ts + [t]) == ActiveCount(ts) + if t.completed then 0 else 1
  {
    SelectSnoc(Active, ts, t);
  }

  /** `count()`: "<total> active" when nothing is completed, else "<active> active / <total> total". */
  function Summary(ts: seq<Todo>): (s: string)
    ensures ParseSummary(s) == Some((ActiveCount(ts), |ts|))
  {
    var total := |ts|;
    var activeCount := ActiveCount(ts);
    if total == activeCount then
      ParseShortSummary(total);
      NatToString(total) + " active"
    else
      ParseLongSummary(activeCount, total);
      NatToString(activeCount) + " active / " + NatToString(total) + " total"
  }

  /** Reads a summary line back into (active, total); each count must be a numeral `String` could print. */
  function ParseSummary(s: string): Option<(nat, nat)> {
    var (a, rest) := SplitDigits(s);
    if !IsCanonical(a) then None
    else if rest == " active" then Some((ParseDecimal(a), ParseDecimal(a)))
    else
      match ParseTotalClause(rest)
      case Some(n) => Some((ParseDecimal(a), n))
      case None => None
  }

  /** Reads " active / <total> total" back into the total. */
  function ParseTotalClause(rest: string): Option<nat> {
    if |rest| >= 10 && rest[..10] == " active / " then
      var (t, tail) := SplitDigits(rest[10..]);
      if IsCanonical(t) && tail == " total" then Some(ParseDecimal(t)) else None
    else None
  }

  lemma ParseShortSummary(n: nat)
    ensures ParseSummary(NatToString(n) + " active") == Some((n, n))
  {
    ParseNatToString(n);
    SplitDigitsOf(NatToString(n), " active");
  }

  lemma ParseTotalClauseOf(n: nat)
    ensures ParseTotalClause(" active / " + NatToString(n) + " total") == Some(n)
  {
    var rest := " active / " + NatToString(n) + " total";
    ParseNatToString(n);
    assert rest[..10] == " active / ";
    assert rest[10..] == NatToString(n) + " total";
    SplitDigitsOf(NatToString(n), " total");
  }

  lemma ParseLongSummary(a: nat, n: nat)
    ensures ParseSummary(NatToString(a) + " active / " + NatToString(n) + " total") == Some((a, n))
  {
    ParseNatToString(a);
    var rest := " active / " + NatToString(n) + " total";
    assert NatToString(a) + " active / " + NatToString(n) + " total" == NatToString(a) + rest;
    SplitDigitsOf(NatToString(a), rest);
    assert |rest| > |" active"|;
    ParseTotalClauseOf(n);
  }

  /**
   * A line that parses to (a, n) is exactly one of the two forms `count()`
   * prints, with both counts written by `String`: the parser reads no other
   * spelling of the same counts.
   */
  lemma ParseSummaryExact(s: string, a: nat, n: nat)
    requires ParseSummary(s) == Some((a, n))
    ensures s == NatToString(a) + " active" || s == NatToString(a) + " active / " + NatToString(n) + " total"
    ensures s == NatToString(a) + " active" ==> a == n
  {
    var d, rest := SplitDigits(s).0, SplitDigits(s).1;
    assert IsCanonical(d) && ParseDecimal(d) == a;
    NatToStringParse(d);
    if rest == " active" {
      assert s == d + rest;
      assert a == n;
    } else {
      assert ParseTotalClause(rest) == Some(n);
      ParseTotalClauseExact(rest, n);
      var long := " active / " + NatToString(n) + " total";
      assert s == d + long;
      assert |d + long| > |d + " active"|;
      ConcatAssoc(d, " active / ", NatToString(n), " total");
    }
  }

  lemma ConcatAssoc(p: string, q: string, r: string, t: string)
    ensures p + q + r + t == p + (q + r + t)
  {
  }

  /** A total clause that parses to n is exactly " active / " + `String(n)` + " total". */
  lemma ParseTotalClauseExact(rest: string, n: nat)
    requires ParseTotalClause(rest) == Some(n)
    ensures rest == " active / " + NatToString(n) + " total"
  {
    var (t, tail) := SplitDigits(rest[10..]);
    NatToStringParse(t);
    assert rest == rest[..10] + rest[10..];
  }

  /**
   * `Summary`'s round trip and `SummaryShortForm` together fix the line
   * exactly: any string meeting both is the summary.
   */
  lemma SummaryDetermined(ts: seq<Todo>, s: string)
    requires ParseSummary(s) == Some((ActiveCount(ts), |ts|))
    requires s == NatToString(|ts|) + " active" <==> forall i :: 0 <= i < |ts| ==> !ts[i].completed
    ensures s == Summary(ts)
  {
    ParseSummaryExact(s, ActiveCount(ts), |ts|);
    SummaryShortForm(ts);
  }

  /** The short form "<total> active" appears exactly when every record is active. */
  lemma SummaryShortForm(ts: seq<Todo>)
    ensures Summary(ts) == NatToString(|ts|) + " active" <==> forall i :: 0 <= i < |ts| ==> !ts[i].completed
  {
    var s := Summary(ts);
    if ActiveCount(ts) != |ts| {
      assert s[|s| - 1] == 'l';
      assert (NatToString(|ts|) + " active")[|NatToString(|ts|) + " active"| - 1] == 'e';
    }
  }

  // ---------------------------------------------------------------- sorting

  /** Inserts t before the first record whose id is not larger; earlier records stay first among equal ids. */
  function Insert(t: Todo, ts: seq<Todo>): (r: seq<Todo>)
    ensures multiset(r) == multiset(ts) + multiset{t}
  {
    if ts == [] then [t]
    else if t.id >= ts[0].id then [t] + ts
    else
      assert ts == [ts[0]] + ts[1..];
      [ts[0]] + Insert(t, ts[1..])
  }

  /**
   * `.sort((a, b) => Number(b.id) - Number(a.id))`: a stable sort by id,
   * largest first (the comparator's `Number` undoes `String`, see
   * `Decimal.ParseNatToString`).
   */
  function SortByIdDesc(ts: seq<Todo>): (r: seq<Todo>)
    ensures multiset(r) == multiset(ts)
  {
    if ts == [] then []
    else
      assert ts == [ts[0]] + ts[1..];
      Insert(ts[0], SortByIdDesc(ts[1..]))
  }

  lemma {:induction false} InsertDescending(t: Todo, ts: seq<Todo>)
    requires DescendingById(ts)
    requires forall u :: u in ts ==> u.id != t.id
    ensures DescendingById(Insert(t, ts))
  {
    if ts == [] {
    } else if t.id >= ts[0].id {
      assert t.id != ts[0].id by { assert ts[0] in ts; }
      forall u | u in ts ensures u.id < t.id {
        var k :| 0 <= k < |ts| && ts[k] == u;
      }
      ConsDescending(t, ts);
    } else {
      var rest := ts[1..];
      TailDescending(ts);
      InsertDescending(t, rest);
      var r := Insert(t, rest);
      forall u | u in r ensures u.id < ts[0].id {
        assert u in multiset(r);
        if u != t {
          var k :| 0 <= k < |rest| && rest[k] == u;
          assert ts[k + 1] == u;
        }
      }
      ConsDescending(ts[0], r);
    }
  }

  /** A record with a larger id than every record of a descending list can go in front of it. */
  lemma ConsDescending(x: Todo, ts: seq<Todo>)
    requires DescendingById(ts)
    requires forall u :: u in ts ==> u.id < x.id
    ensures DescendingById([x] + ts)
  {
    var r := [x] + ts;
    forall i, j | 0 <= i < j < |r| ensures r[i].id > r[j].id {
      if i == 0 {
        assert r[j] in ts;
      } else {
        assert r[i] == ts[i - 1] && r[j] == ts[j - 1];
      }
    }
  }

  /** With distinct ids the sort gives strictly decreasing ids. */
  lemma {:induction false} SortDescending(ts: seq<Todo>)
    requires DistinctIds(ts)
    ensures DescendingById(SortByIdDesc(ts))
  {
    if ts != [] {
      SortDescending(ts[1..]);
      var rest := SortByIdDesc(ts[1..]);
      forall u | u in rest ensures u.id != ts[0].id {
        assert u in multiset(ts[1..]);
      }
      InsertDescending(ts[0], rest);
    }
  }

  /**
   * A list with strictly decreasing ids is determined by its elements: any
   * sorting algorithm with this comparator gives the same list.
   */
  lemma {:induction false} DescendingUnique(s: seq<Todo>, t: seq<Todo>)
    requires DescendingById(s) && DescendingById(t)
    requires multiset(s) == multiset(t)
    ensures s == t
  {
    assert |t| == |multiset(t)| == |multiset(s)| == |s|;
    if s != [] {
      HeadIsLargest(s, t);
      HeadIsLargest(t, s);
      var x := s[0];
      assert x == t[0];
      var s', t' := s[1..], t[1..];
      TailDescending(s);
      TailDescending(t);
      TailMultiset(s);
      TailMultiset(t);
      DescendingUnique(s', t');
    }
  }

  lemma TailDescending(s: seq<Todo>)
    requires DescendingById(s) && s != []
    ensures DescendingById(s[1..])
  {
  }

  lemma TailMultiset(s: seq<Todo>)
    requires s != []
    ensures multiset(s[1..]) == multiset(s) - multiset{s[0]}
  {
    assert s == [s[0]] + s[1..];
  }

  /** The head of a strictly descending list has an id no smaller than any record of an equal multiset. */
  lemma HeadIsLargest(s: seq<Todo>, t: seq<Todo>)
    requires DescendingById(s) && DescendingById(t)
    requires multiset(s) == multiset(t) && s != []
    ensures t != [] && t[0].id <= s[0].id
    ensures t[0].id == s[0].id ==> t[0] == s[0]
  {
    assert t[0] in multiset(s) by {
      assert |t| == |multiset(t)| == |multiset(s)| == |s|;
      assert t[0] in multiset(t);
    }
    var i :| 0 <= i < |s| && s[i] == t[0];
    assert i == 0 || s[0].id > s[i].id;
  }

  // ---------------------------------------------------------------- display

  /** `todos()`: the route's filter, then newest first. */
  function Display(f: Filter, ts: seq<Todo>): (r: seq<Todo>)
    ensures multiset(r) == multiset(Select(f, ts))
    ensures forall t :: t in r <==> t in ts && Passes(f, t)
  {
    var r := SortByIdDesc(Select(f, ts));
    SameElements(r, Select(f, ts));
    r
  }

  /** Two lists with the same multiset hold the same records. */
  lemma SameElements(a: seq<Todo>, b: seq<Todo>)
    requires multiset(a) == multiset(b)
    ensures forall t :: t in a <==> t in b
  {
    forall t ensures t in a <==> t in b {
      assert t in a <==> t in multiset(a);
      assert t in b <==> t in multiset(b);
    }
  }

  /**
   * The displayed list holds exactly the records that pass the filter, each
   * once, with strictly decreasing ids; and it is the only such list.
   */
  lemma DisplaySpec(f: Filter, ts: seq<Todo>)
    requires DistinctIds(ts)
    ensures DescendingById(Display(f, ts))
    ensures multiset(Display(f, ts)) == multiset(Select(f, ts))
    ensures forall t :: t in Display(f, ts) <==> t in ts && Passes(f, t)
    ensures forall s :: DescendingById(s) && multiset(s) == multiset(Select(f, ts)) ==> s == Display(f, ts)
  {
    SelectDistinct(f, ts);
    SortDescending(Select(f, ts));
    forall s | DescendingById(s) && multiset(s) == multiset(Select(f, ts)) ensures s == Display(f, ts) {
      DescendingUnique(s, Display(f, ts));
    }
  }

  /** The active and completed screens together show every record once; the "all" screen shows them all. */
  lemma DisplayPartition(ts: seq<Todo>)
    ensures multiset(Display(Active, ts)) + multiset(Display(Completed, ts)) == multiset(ts)
    ensures multiset(Display(All, ts)) == multiset(ts)
  {
    ActiveCompletedPartition(ts);
  }
}
