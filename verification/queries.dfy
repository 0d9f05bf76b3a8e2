/**
 * The read-only queries over a list of tasks: filtering by category,
 * keyword search, sorting by a key and the productivity totals.
 */
module Queries {
  import opened TodoTypes
  import opened Text
  import opened Dates

  // ------------------------------------------------------------ selection

  /** What a query keeps: one category exactly, or tasks matching a keyword. */
  datatype Criterion = InCategory(category: string) | MatchesKeyword(keyword: string)

  /** Some tag equals `item` up to ASCII case. */
  predicate AnyTagEqualFold(tags: seq<string>, item: string) {
    exists i :: 0 <= i < |tags| && EqualFold(tags[i], item)
  }

  /**
   * The search condition: the lower-cased keyword occurs in the lower-cased
   * text or category, or some tag equals the keyword up to case.
   */
  predicate KeywordMatch(t: Task, keyword: string)
    ensures keyword == "" ==> KeywordMatch(t, keyword)
  {
    assert keyword == "" ==> IsPrefix(Lower(keyword), Lower(t.text));
    Contains(Lower(t.text), Lower(keyword))
    || Contains(Lower(t.category), Lower(keyword))
    || AnyTagEqualFold(t.tags, keyword)
  }

  predicate Meets(t: Task, c: Criterion) {
    match c
    case InCategory(cat) => t.category == cat
    case MatchesKeyword(k) => KeywordMatch(t, k)
  }

  /** `r` keeps some of the elements of `s`, in their order. */
  ghost predicate IsSubsequence(r: seq<Task>, s: seq<Task>)
    decreases |s|
  {
    r == []
    || (s != [] && ((r[0] == s[0] && IsSubsequence(r[1..], s[1..])) || IsSubsequence(r, s[1..])))
  }

  /** The tasks of `s` that meet `c`, in their original order. */
  function Select(s: seq<Task>, c: Criterion): (r: seq<Task>)
    ensures |r| <= |s|
    ensures forall i :: 0 <= i < |r| ==> Meets(r[i], c)
  {
    if s == [] then []
    else if Meets(s[0], c) then [s[0]] + Select(s[1..], c)
    else Select(s[1..], c)
  }

  /**
   * Select keeps exactly the tasks meeting `c`: each as often as it occurs
   * in `s`, no other task, and in the order of `s`.
   */
  lemma SelectMeaning(s: seq<Task>, c: Criterion)
    ensures forall t :: multiset(Select(s, c))[t] == if Meets(t, c) then multiset(s)[t] else 0
    ensures IsSubsequence(Select(s, c), s)
  {
    SelectCounts(s, c);
    SelectIsSubsequence(s, c);
  }

  lemma {:induction false} SelectCounts(s: seq<Task>, c: Criterion)
    ensures forall t :: multiset(Select(s, c))[t] == if Meets(t, c) then multiset(s)[t] else 0
  {
    if s != [] {
      SelectCounts(s[1..], c);
      assert s == [s[0]] + s[1..];
      assert multiset(s) == multiset{s[0]} + multiset(s[1..]);
      if Meets(s[0], c) {
        assert multiset(Select(s, c)) == multiset{s[0]} + multiset(Select(s[1..], c));
      }
    }
  }

  lemma {:induction false} SelectIsSubsequence(s: seq<Task>, c: Criterion)
    ensures IsSubsequence(Select(s, c), s)
  {
    if s != [] {
      SelectIsSubsequence(s[1..], c);
      var r := Select(s, c);
      if Meets(s[0], c) {
        assert r[0] == s[0] && r[1..] == Select(s[1..], c);
      }
    }
  }

  lemma {:induction false} SelectAppend(a: seq<Task>, b: seq<Task>, c: Criterion)
    ensures Select(a + b, c) == Select(a, c) + Select(b, c)
  {
    if a == [] {
      assert a + b == b;
    } else {
      var ab := a + b;
      assert ab != [] && ab[0] == a[0] && ab[1..] == a[1..] + b;
      SelectAppend(a[1..], b, c);
      assert Select(ab[1..], c) == Select(a[1..], c) + Select(b, c);
    }
  }

  /** Selecting with two criteria that agree on every task gives the same list. */
  lemma {:induction false} SelectSameCondition(s: seq<Task>, c1: Criterion, c2: Criterion)
    requires forall i :: 0 <= i < |s| ==> (Meets(s[i], c1) <==> Meets(s[i], c2))
    ensures Select(s, c1) == Select(s, c2)
  {
    if s != [] {
      SelectSameCondition(s[1..], c1, c2);
    }
  }

  /** filterTask's result: the input itself for "", the category's tasks otherwise. */
  function Filtered(tasks: seq<Task>, category: string): (r: seq<Task>)
    ensures |r| <= |tasks|
    ensures category != "" ==> forall i :: 0 <= i < |r| ==> r[i].category == category
  {
    if category == "" then tasks else Select(tasks, InCategory(category))
  }

  /** filterTask: an accumulator loop over the tasks. */
  method FilterTask(tasks: seq<Task>, category: string) returns (results: seq<Task>)
    ensures category == "" ==> results == tasks
    ensures category != "" ==> results == Select(tasks, InCategory(category))
    ensures results == Filtered(tasks, category)
  {
    if category == "" {
      return tasks;
    }
    results := [];
    var i := 0;
    while i < |tasks|
      invariant 0 <= i <= |tasks|
      invariant results == Select(tasks[..i], InCategory(category))
    {
      SelectAppend(tasks[..i], [tasks[i]], InCategory(category));
      assert tasks[..i + 1] == tasks[..i] + [tasks[i]];
      if tasks[i].category == category {
        results := results + [tasks[i]];
      }
      i := i + 1;
    }
    assert tasks[..i] == tasks;
  }

  /** The empty filter keeps everything; any other keeps exactly its category. */
  lemma FilteredMeaning(tasks: seq<Task>, category: string)
    ensures category == "" ==> Filtered(tasks, category) == tasks
    ensures category != "" ==>
      && (forall t :: t in Filtered(tasks, category) ==> t.category == category)
      && (forall t :: t in tasks && t.category == category ==> t in Filtered(tasks, category))
      && IsSubsequence(Filtered(tasks, category), tasks)
  {
    if category != "" {
      var r := Select(tasks, InCategory(category));
      SelectMeaning(tasks, InCategory(category));
      forall t | t in tasks && t.category == category
        ensures t in r
      {
        assert multiset(r)[t] == multiset(tasks)[t] > 0;
      }
      forall t | t in r
        ensures t.category == category
      {
        assert multiset(r)[t] > 0;
      }
    }
  }

  /** contains: is some tag equal to `item` up to case? Stops at the first hit. */
  method ContainsFold(slice: seq<string>, item: string) returns (found: bool)
    ensures found <==> exists i :: 0 <= i < |slice| && Lower(slice[i]) == Lower(item)
  {
    var i := 0;
    while i < |slice|
      invariant 0 <= i <= |slice|
      invariant forall j :: 0 <= j < i ==> Lower(slice[j]) != Lower(item)
    {
      if Lower(slice[i]) == Lower(item) {
        return true;
      }
      i := i + 1;
    }
    return false;
  }

  /** searchTasks: the tasks matching the keyword, in list order (empty: "no tasks found"). */
  method SearchTasks(tasks: seq<Task>, keyword: string) returns (results: seq<Task>)
    ensures results == Select(tasks, MatchesKeyword(keyword))
  {
    results := [];
    var i := 0;
    while i < |tasks|
      invariant 0 <= i <= |tasks|
      invariant results == Select(tasks[..i], MatchesKeyword(keyword))
    {
      var task := tasks[i];
      var inTags := ContainsFold(task.tags, keyword);
      if Contains(Lower(task.text), Lower(keyword))
        || Contains(Lower(task.category), Lower(keyword))
        || inTags
      {
        results := results + [task];
      }
      assert results == Select(tasks[..i + 1], MatchesKeyword(keyword)) by {
        SelectAppend(tasks[..i], [task], MatchesKeyword(keyword));
        assert tasks[..i + 1] == tasks[..i] + [task];
      }
      i := i + 1;
    }
    assert tasks[..i] == tasks;
  }

  /** The search does not depend on the case of the keyword. */
  lemma SearchIgnoresKeywordCase(tasks: seq<Task>, k1: string, k2: string)
    requires Lower(k1) == Lower(k2)
    ensures Select(tasks, MatchesKeyword(k1)) == Select(tasks, MatchesKeyword(k2))
  {
    SelectSameCondition(tasks, MatchesKeyword(k1), MatchesKeyword(k2));
  }

  /** Lower-casing the keyword first changes nothing: every comparison lower-cases it again. */
  lemma KeywordMatchLowered(t: Task, keyword: string)
    ensures KeywordMatch(t, Lower(keyword)) <==> KeywordMatch(t, keyword)
  {
    LowerIdempotent(keyword);
  }

  /** A task described as "Buy Milk" is found by the keyword "milk". */
  lemma SearchFindsBuyMilk(t: Task)
    requires t.text == "Buy Milk"
    ensures Select([t], MatchesKeyword("milk")) == [t]
  {
    var l := Lower(t.text);
    assert l[4..8] == "milk";
    ContainsAt(l, Lower("milk"), 4);
  }

  // --------------------------------------------------------------- sorting

  /** The keys sortTask knows; any other key leaves the order alone. */
  datatype SortKey = ByPriority | ByDue | ByCategory

  function SortKeyOf(sortBy: string): (r: Option<SortKey>)
    ensures r.Some? <==> sortBy in ["priority", "due", "category"]
  {
    if sortBy == "priority" then Some(ByPriority)
    else if sortBy == "due" then Some(ByDue)
    else if sortBy == "category" then Some(ByCategory)
    else None
  }

  /** Go's `<` on strings: lexicographic, character by character. */
  predicate StringLess(a: string, b: string)
    decreases |a|
    ensures StringLess(a, b) ==> a != b
  {
    if a == [] then b != []
    else if b == [] then false
    else a[0] < b[0] || (a[0] == b[0] && StringLess(a[1..], b[1..]))
  }

  lemma {:induction false} StringLessIrreflexive(a: string)
    ensures !StringLess(a, a)
  {
    if a != [] {
      StringLessIrreflexive(a[1..]);
    }
  }

  lemma {:induction false} StringLessTransitive(a: string, b: string, c: string)
    requires StringLess(a, b) && StringLess(b, c)
    ensures StringLess(a, c)
  {
    if a != [] && a[0] == b[0] && b[0] == c[0] {
      StringLessTransitive(a[1..], b[1..], c[1..]);
    }
  }

  /** Of two different strings one is less than the other. */
  lemma {:induction false} StringLessTotal(a: string, b: string)
    ensures a != b ==> StringLess(a, b) || StringLess(b, a)
  {
    if a != [] && b != [] && a[0] == b[0] {
      StringLessTotal(a[1..], b[1..]);
      assert a == [a[0]] + a[1..] && b == [b[0]] + b[1..];
    }
  }

  /** The less function sortTask hands to sort.Slice for each key. */
  predicate Less(key: SortKey, x: Task, y: Task)
    ensures Less(key, x, y) ==> x != y
  {
    match key
    case ByPriority => x.priority > y.priority
    case ByDue => Before(x.due, y.due)
    case ByCategory => StringLess(x.category, y.category)
  }

  lemma LessIsStrictOrder(key: SortKey, x: Task, y: Task, z: Task)
    ensures !Less(key, x, x)
    ensures Less(key, x, y) && Less(key, y, z) ==> Less(key, x, z)
  {
    match key
    case ByPriority =>
    case ByDue =>
      BeforeIsStrictOrder(x.due, y.due, z.due);
    case ByCategory =>
      StringLessIrreflexive(x.category);
      if Less(key, x, y) && Less(key, y, z) {
        StringLessTransitive(x.category, y.category, z.category);
      }
  }

  /** sort.Slice's promise: no later element is less than an earlier one. */
  ghost predicate SortedBy(s: seq<Task>, key: SortKey) {
    forall i, j :: 0 <= i < j < |s| ==> !Less(key, s[j], s[i])
  }

  /** For key "priority": priorities never increase along the sorted list. */
  lemma SortedByPriorityMeaning(s: seq<Task>)
    requires SortedBy(s, ByPriority)
    ensures forall i, j :: 0 <= i < j < |s| ==> s[i].priority >= s[j].priority
  {
  }

  /** For key "due": due dates never go back in time along the sorted list. */
  lemma SortedByDueMeaning(s: seq<Task>)
    requires SortedBy(s, ByDue)
    ensures forall i, j :: 0 <= i < j < |s| ==> !Before(s[j].due, s[i].due)
    ensures forall i, j :: 0 <= i < j < |s| ==> s[i].due == s[j].due || Before(s[i].due, s[j].due)
  {
    forall i, j | 0 <= i < j < |s|
      ensures s[i].due == s[j].due || Before(s[i].due, s[j].due)
    {
      BeforeIsStrictOrder(s[i].due, s[j].due, s[j].due);
    }
  }

  /** For key "category": categories never decrease along the sorted list. */
  lemma SortedByCategoryMeaning(s: seq<Task>)
    requires SortedBy(s, ByCategory)
    ensures forall i, j :: 0 <= i < j < |s| ==>
      s[i].category == s[j].category || StringLess(s[i].category, s[j].category)
  {
    forall i, j | 0 <= i < j < |s|
      ensures s[i].category == s[j].category || StringLess(s[i].category, s[j].category)
    {
      StringLessTotal(s[i].category, s[j].category);
    }
  }

  /** The position of a least element of `a[from..]` under the key's order. */
  method MinIndex(a: array<Task>, from: nat, key: SortKey) returns (m: nat)
    requires from < a.Length
    ensures from <= m < a.Length
    ensures forall k :: from <= k < a.Length ==> !Less(key, a[k], a[m])
  {
    m := from;
    LessIsStrictOrder(key, a[m], a[m], a[m]);
    var j := from + 1;
    while j < a.Length
      invariant from <= m < j <= a.Length
      invariant forall k :: from <= k < j ==> !Less(key, a[k], a[m])
    {
      if Less(key, a[j], a[m]) {
        forall k | from <= k < j
          ensures !Less(key, a[k], a[j])
        {
          LessIsStrictOrder(key, a[k], a[j], a[m]);
        }
        LessIsStrictOrder(key, a[j], a[j], a[j]);
        m := j;
      }
      j := j + 1;
    }
  }

  /** The first `n` elements are in order and none of the rest is less than any of them. */
  ghost predicate SortedUpTo(s: seq<Task>, n: nat, key: SortKey)
    requires n <= |s|
  {
    && (forall p, q :: 0 <= p < q < n ==> !Less(key, s[q], s[p]))
    && (forall p, q :: 0 <= p < n <= q < |s| ==> !Less(key, s[q], s[p]))
  }

  /** Swapping a least element of the unsorted part to its front extends the sorted prefix. */
  lemma SelectionStep(s: seq<Task>, i: nat, m: nat, key: SortKey)
    requires i <= m < |s| && SortedUpTo(s, i, key)
    requires forall k :: i <= k < |s| ==> !Less(key, s[k], s[m])
    ensures SortedUpTo(s[i := s[m]][m := s[i]], i + 1, key)
  {
  }

  /**
   * sortTask: reorders the list in place. For a known key the result is
   * sorted by that key's less function; for any other key nothing moves.
   * Ties are not kept in their original order.
   */
  method SortTasks(a: array<Task>, sortBy: string)
    modifies a
    ensures multiset(a[..]) == multiset(old(a[..]))
    ensures SortKeyOf(sortBy).None? ==> a[..] == old(a[..])
    ensures SortKeyOf(sortBy).Some? ==> SortedBy(a[..], SortKeyOf(sortBy).value)
  {
    var key := SortKeyOf(sortBy);
    if key.None? {
      return;
    }
    var k := key.value;
    var i := 0;
    while i < a.Length
      invariant 0 <= i <= a.Length
      invariant multiset(a[..]) == multiset(old(a[..]))
      invariant SortedUpTo(a[..], i, k)
    {
      var m := MinIndex(a, i, k);
      ghost var before := a[..];
      SelectionStep(before, i, m, k);
      a[i], a[m] := a[m], a[i];
      assert a[..] == before[i := before[m]][m := before[i]];
      i := i + 1;
    }
  }

  // ---------------------------------------------------------------- report

  /** The three counts of the productivity report. */
  datatype Totals = Totals(completed: nat, estimated: int, actual: int)

  function Plus(x: Totals, y: Totals): Totals {
    Totals(x.completed + y.completed, x.estimated + y.estimated, x.actual + y.actual)
  }

  /** The completed tasks, and the sums of their estimated and actual minutes. */
  function ReportTotals(tasks: seq<Task>): (r: Totals)
    ensures r.completed <= |tasks|
  {
    if tasks == [] then Totals(0, 0, 0)
    else
      var rest := ReportTotals(tasks[1..]);
      if tasks[0].isComplete
      then Totals(rest.completed + 1, rest.estimated + tasks[0].estimatedTime, rest.actual + tasks[0].actualTime)
      else rest
  }

  lemma {:induction false} ReportTotalsAppend(a: seq<Task>, b: seq<Task>)
    ensures ReportTotals(a + b) == Plus(ReportTotals(a), ReportTotals(b))
  {
    if a == [] {
      assert a + b == b;
    } else {
      var ab := a + b;
      assert ab != [] && ab[0] == a[0] && ab[1..] == a[1..] + b;
      ReportTotalsAppend(a[1..], b);
      var x, y := ReportTotals(a[1..]), ReportTotals(b);
      assert ReportTotals(ab[1..]) == Plus(x, y);
    }
  }

  /** One more task: counted, with its minutes added, exactly when it is complete. */
  lemma ReportTotalsSnoc(s: seq<Task>, t: Task)
    ensures var r := ReportTotals(s);
      ReportTotals(s + [t]) ==
        if t.isComplete then Totals(r.completed + 1, r.estimated + t.estimatedTime, r.actual + t.actualTime)
        else r
  {
    ReportTotalsAppend(s, [t]);
    assert [t][1..] == [];
  }

  /** With no completed task every count is zero. */
  lemma {:induction false} NothingCompletedNothingCounted(tasks: seq<Task>)
    requires forall i :: 0 <= i < |tasks| ==> !tasks[i].isComplete
    ensures ReportTotals(tasks) == Totals(0, 0, 0)
  {
    if tasks != [] {
      NothingCompletedNothingCounted(tasks[1..]);
    }
  }

  /** The counting loop of generateProductivityReport. */
  method ProductivityReport(tasks: seq<Task>) returns (r: Totals)
    ensures r == ReportTotals(tasks)
  {
    var completed, estimated, actual := 0, 0, 0;
    var i := 0;
    while i < |tasks|
      invariant 0 <= i <= |tasks|
      invariant Totals(completed, estimated, actual) == ReportTotals(tasks[..i])
    {
      ReportTotalsSnoc(tasks[..i], tasks[i]);
      assert tasks[..i + 1] == tasks[..i] + [tasks[i]];
      if tasks[i].isComplete {
        completed := completed + 1;
        actual := actual + tasks[i].actualTime;
        estimated := estimated + tasks[i].estimatedTime;
      }
      i := i + 1;
    }
    assert tasks[..i] == tasks;
    r := Totals(completed, estimated, actual);
  }

  /**
   * The efficiency row appears when this guard holds (as written: on the
   * estimate). It admits every report with a positive estimate whose
   * percentage is defined, but also the ones whose divisor is zero.
   */
  predicate ShowsEfficiencyAsWritten(r: Totals)
    ensures r.estimated > 0 && Efficiency(r).Some? ==> ShowsEfficiencyAsWritten(r)
    ensures ShowsEfficiencyAsWritten(r) ==> r.estimated > 0
  {
    r.estimated > 0
  }

  /** One completed task estimated at 30 minutes with no actual time passes the guard, so the division is by zero. */
  lemma EfficiencyGuardAdmitsZeroDivisor()
    ensures var t := NewTask(1, Draft("t", 0, ZERO_DATE, "")).(isComplete := true, estimatedTime := 30);
      ShowsEfficiencyAsWritten(ReportTotals([t])) && ReportTotals([t]).actual == 0
  {
  }

  /** Estimated over actual minutes, as a percentage, when the actual total is positive. */
  function Efficiency(r: Totals): (e: Option<real>)
    ensures e.Some? <==> r.actual > 0
    ensures e.Some? && r.estimated == r.actual ==> e.value == 100.0
  {
    if r.actual > 0 then
      var q := r.estimated as real / r.actual as real;
      assert r.estimated == r.actual ==> q == 1.0;
      Some(q * 100.0)
    else None
  }
}
