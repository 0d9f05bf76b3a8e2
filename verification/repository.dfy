/**
 * What each mutation of the to-do list does to the list of tasks, as
 * functions on values, and the properties of those functions: the id
 * policy, "only the first match changes", order preservation.
 */
module Repository {
  import opened TodoTypes
  import opened Queries

  /** The position of the first task with this id, if any. */
  function FindFirst(s: seq<Task>, id: int): (r: Option<nat>)
    ensures r.Some? ==> r.value < |s| && s[r.value].id == id
    ensures r.Some? ==> forall j :: 0 <= j < r.value ==> s[j].id != id
    ensures r.None? <==> forall j :: 0 <= j < |s| ==> s[j].id != id
  {
    if s == [] then None
    else if s[0].id == id then Some(0)
    else
      match FindFirst(s[1..], id)
      case None => None
      case Some(i) => Some(i + 1)
  }

  /** The ids of the tasks, in list order. */
  function Ids(s: seq<Task>): (r: seq<int>)
    ensures |r| == |s| && forall i :: 0 <= i < |s| ==> r[i] == s[i].id
  {
    if s == [] then [] else [s[0].id] + Ids(s[1..])
  }

  // ------------------------------------------------------------------ add

  /** The id add gives a new task: the LAST task's id plus one, or 1 for an empty list. */
  function NextId(s: seq<Task>): (r: int)
    ensures s == [] ==> r == 1
    ensures IdsAscending(s) ==> forall i :: 0 <= i < |s| ==> s[i].id < r
  {
    if |s| == 0 then 1 else s[|s| - 1].id + 1
  }

  /** The list after add: the new, incomplete task appended at the end. */
  function Added(s: seq<Task>, d: Draft): (r: seq<Task>)
    ensures |r| == |s| + 1 && r[..|s|] == s
    ensures r[|s|].id == NextId(s) && !r[|s|].isComplete
  {
    s + [NewTask(NextId(s), d)]
  }

  /** add grows the list by one at the end, leaves earlier tasks alone and numbers the new task after the last one. */
  lemma AddedMeaning(s: seq<Task>, d: Draft)
    ensures |Added(s, d)| == |s| + 1 && Added(s, d)[..|s|] == s
    ensures var t := Added(s, d)[|s|];
      && t.id == (if s == [] then 1 else s[|s| - 1].id + 1)
      && !t.isComplete && t.text == d.text && t.priority == d.priority
      && t.due == d.due && t.category == d.category
  {
    assert Added(s, d)[..|s|] == s;
  }

  /** A sequence of adds, one draft after another. */
  function AddAll(s: seq<Task>, drafts: seq<Draft>): seq<Task>
    decreases |drafts|
  {
    if drafts == [] then s else AddAll(Added(s, drafts[0]), drafts[1..])
  }

  /** The ids are exactly 1, 2, ..., n. */
  predicate Numbered(s: seq<Task>) {
    forall i :: 0 <= i < |s| ==> s[i].id == i + 1
  }

  lemma {:induction false} AddAllKeepsNumbering(s: seq<Task>, drafts: seq<Draft>)
    requires Numbered(s)
    ensures |AddAll(s, drafts)| == |s| + |drafts| && Numbered(AddAll(s, drafts))
    decreases |drafts|
  {
    if drafts != [] {
      AddAllKeepsNumbering(Added(s, drafts[0]), drafts[1..]);
    }
  }

  /** Adds into an empty list without removals in between number the tasks 1, 2, 3, ... without gaps. */
  lemma AddsFromEmptyNumberFromOne(drafts: seq<Draft>)
    ensures |AddAll([], drafts)| == |drafts|
    ensures forall i :: 0 <= i < |drafts| ==> AddAll([], drafts)[i].id == i + 1
  {
    AddAllKeepsNumbering([], drafts);
  }

  /** Ids strictly increase along the list. */
  predicate IdsAscending(s: seq<Task>) {
    forall i, j :: 0 <= i < j < |s| ==> s[i].id < s[j].id
  }

  predicate IdsUnique(s: seq<Task>) {
    forall i, j :: 0 <= i < j < |s| ==> s[i].id != s[j].id
  }

  /** While ids ascend, add picks an id no task has, and the ids keep ascending. */
  lemma AddedFreshWhenAscending(s: seq<Task>, d: Draft)
    requires IdsAscending(s)
    ensures forall i :: 0 <= i < |s| ==> s[i].id != NextId(s)
    ensures IdsAscending(Added(s, d)) && IdsUnique(Added(s, d))
  {
    AscendingIsUnique(Added(s, d));
  }

  /**
   * The "last id plus one" policy is not "maximum plus one": after an import
   * puts ids 3 and 2 in that order, add hands out 3 again.
   */
  lemma NextIdCanCollide(d: Draft)
    ensures var s := [NewTask(3, d), NewTask(2, d)];
      NextId(s) == 3 && s[0].id == NextId(s) && !IdsUnique(Added(s, d))
  {
    var s := [NewTask(3, d), NewTask(2, d)];
    assert Added(s, d)[0].id == Added(s, d)[2].id;
  }

  // --------------------------------------------------------------- remove

  /** The list after remove: the first task with the id spliced out, or the same list. */
  function RemoveFirst(s: seq<Task>, id: int): (r: seq<Task>)
    ensures |r| == if FindFirst(s, id).Some? then |s| - 1 else |s|
    ensures forall t :: t in r ==> t in s
  {
    match FindFirst(s, id)
    case None => s
    case Some(i) => s[..i] + s[i + 1..]
  }

  /**
   * remove deletes one task, the first with the id, and keeps the rest in
   * order with their ids; with no such task the list is unchanged.
   */
  lemma RemoveFirstMeaning(s: seq<Task>, id: int)
    ensures FindFirst(s, id).None? ==> RemoveFirst(s, id) == s
    ensures FindFirst(s, id).Some? ==> |RemoveFirst(s, id)| == |s| - 1
    ensures FindFirst(s, id).Some? ==>
      multiset(RemoveFirst(s, id)) == multiset(s) - multiset{s[FindFirst(s, id).value]}
    ensures FindFirst(s, id).Some? ==> IsSubsequence(RemoveFirst(s, id), s)
    ensures FindFirst(s, id).Some? ==> SkippedAt(RemoveFirst(s, id), s, FindFirst(s, id).value)
  {
    if FindFirst(s, id).Some? {
      var i := FindFirst(s, id).value;
      SkipOneMultiset(s, i);
      SkipOneIsSubsequence(s, i);
      SkipOnePositions(s, i);
    }
  }

  /** `r` is `s` with position `i` spliced out: earlier tasks stay in place, later ones move up by one. */
  predicate SkippedAt(r: seq<Task>, s: seq<Task>, i: nat) {
    |r| == |s| - 1 && i < |s|
    && forall k :: 0 <= k < |r| ==> r[k] == if k < i then s[k] else s[k + 1]
  }

  lemma SkipOnePositions(s: seq<Task>, i: nat)
    requires i < |s|
    ensures SkippedAt(s[..i] + s[i + 1..], s, i)
  {
  }

  lemma SkipOneMultiset(s: seq<Task>, i: nat)
    requires i < |s|
    ensures multiset(s[..i] + s[i + 1..]) == multiset(s) - multiset{s[i]}
  {
    assert s == s[..i] + [s[i]] + s[i + 1..];
    assert multiset(s) == multiset(s[..i]) + multiset{s[i]} + multiset(s[i + 1..]);
  }

  lemma {:induction false} SkipOneIsSubsequence(s: seq<Task>, i: nat)
    requires i < |s|
    ensures IsSubsequence(s[..i] + s[i + 1..], s)
  {
    if i == 0 {
      assert s[..0] + s[1..] == s[1..];
      SubsequenceOfItself(s[1..]);
    } else {
      SkipOneIsSubsequence(s[1..], i - 1);
      var r := s[..i] + s[i + 1..];
      assert r[0] == s[0];
      assert r[1..] == s[1..][..i - 1] + s[1..][i..];
    }
  }

  lemma {:induction false} SubsequenceOfItself(s: seq<Task>)
    ensures IsSubsequence(s, s)
  {
    if s != [] {
      SubsequenceOfItself(s[1..]);
    }
  }

  /** With unique ids, after remove no task carries the id and every other task is still there. */
  lemma RemoveClearsUniqueId(s: seq<Task>, id: int)
    requires IdsUnique(s)
    ensures forall t :: t in RemoveFirst(s, id) ==> t.id != id
    ensures forall t :: t in s && t.id != id ==> t in RemoveFirst(s, id)
    ensures IdsUnique(RemoveFirst(s, id))
  {
    if FindFirst(s, id).Some? {
      var i := FindFirst(s, id).value;
      var r := RemoveFirst(s, id);
      SkipOnePositions(s, i);
      forall t | t in s && t.id != id
        ensures t in r
      {
        var k :| 0 <= k < |s| && s[k] == t;
        assert k != i;
        if k < i { assert r[k] == t; } else { assert r[k - 1] == t; }
      }
    }
  }

  /** remove keeps the ids ascending. */
  lemma RemoveKeepsAscending(s: seq<Task>, id: int)
    requires IdsAscending(s)
    ensures IdsAscending(RemoveFirst(s, id))
  {
    if FindFirst(s, id).Some? {
      var i := FindFirst(s, id).value;
      var r := RemoveFirst(s, id);
      assert forall k :: 0 <= k < |r| ==> r[k] == (if k < i then s[k] else s[k + 1]);
    }
  }

  lemma AscendingIsUnique(s: seq<Task>)
    requires IdsAscending(s)
    ensures IdsUnique(s)
  {
  }

  // -------------------------------------------------- updates of one task

  /** The in-place change each by-id command makes to the first task it finds. */
  datatype Edit =
    | MarkComplete
    | AttachFile(filename: string)
    | AddPerson(collaborator: string)
    | AppendSubtask(text: string)

  /** The id addSubtask gives: the last subtask's id plus one, or 1. */
  function NextSubtaskId(subs: seq<Subtask>): (r: int)
    ensures subs == [] ==> r == 1
    ensures SubtaskIdsAscending(subs) ==> forall i :: 0 <= i < |subs| ==> subs[i].id < r
  {
    if |subs| == 0 then 1 else subs[|subs| - 1].id + 1
  }

  function Apply(t: Task, e: Edit): (r: Task)
    ensures r.id == t.id
  {
    match e
    case MarkComplete => t.(isComplete := true)
    case AttachFile(f) => t.(attachments := t.attachments + [f])
    case AddPerson(c) => t.(collaborators := t.collaborators + [c])
    case AppendSubtask(text) =>
      t.(subtasks := t.subtasks + [Subtask(NextSubtaskId(t.subtasks), text, false)])
  }

  /** Each edit touches one field of a task, and appends exactly one element where it appends. */
  lemma ApplyMeaning(t: Task, e: Edit)
    ensures e.MarkComplete? ==> Apply(t, e) == t.(isComplete := true)
    ensures e.AttachFile? ==>
      Apply(t, e) == t.(attachments := Apply(t, e).attachments)
      && Apply(t, e).attachments == t.attachments + [e.filename]
    ensures e.AddPerson? ==>
      Apply(t, e) == t.(collaborators := Apply(t, e).collaborators)
      && Apply(t, e).collaborators == t.collaborators + [e.collaborator]
    ensures e.AppendSubtask? ==>
      var subs := Apply(t, e).subtasks;
      && Apply(t, e) == t.(subtasks := subs)
      && |subs| == |t.subtasks| + 1 && subs[..|t.subtasks|] == t.subtasks
      && subs[|t.subtasks|].id == (if t.subtasks == [] then 1 else t.subtasks[|t.subtasks| - 1].id + 1)
      && subs[|t.subtasks|].text == e.text && !subs[|t.subtasks|].isComplete
  {
    if e.AppendSubtask? {
      assert Apply(t, e).subtasks[..|t.subtasks|] == t.subtasks;
    }
  }

  predicate SubtaskIdsAscending(subs: seq<Subtask>) {
    forall i, j :: 0 <= i < j < |subs| ==> subs[i].id < subs[j].id
  }

  /** While a task's subtask ids ascend, addSubtask picks a fresh one and they keep ascending. */
  lemma AppendSubtaskKeepsAscending(t: Task, text: string)
    requires SubtaskIdsAscending(t.subtasks)
    ensures forall i :: 0 <= i < |t.subtasks| ==> t.subtasks[i].id != NextSubtaskId(t.subtasks)
    ensures SubtaskIdsAscending(Apply(t, AppendSubtask(text)).subtasks)
  {
  }

  /** The list after a by-id command: the first task with the id edited in place, or the same list. */
  function UpdateFirst(s: seq<Task>, id: int, e: Edit): (r: seq<Task>)
    ensures Ids(r) == Ids(s)
  {
    match FindFirst(s, id)
    case None => s
    case Some(i) => s[i := Apply(s[i], e)]
  }

  /**
   * Only the first task with the id changes, and it changes by the edit;
   * every other task stays where it was, unchanged. An absent id changes nothing.
   */
  lemma UpdateFirstMeaning(s: seq<Task>, id: int, e: Edit)
    ensures |UpdateFirst(s, id, e)| == |s|
    ensures FindFirst(s, id).None? ==> UpdateFirst(s, id, e) == s
    ensures FindFirst(s, id).Some? ==>
      var i := FindFirst(s, id).value;
      && UpdateFirst(s, id, e)[i] == Apply(s[i], e)
      && forall j :: 0 <= j < |s| && j != i ==> UpdateFirst(s, id, e)[j] == s[j]
  {
  }

  /** A by-id command keeps the ids ascending. */
  lemma UpdateKeepsAscending(s: seq<Task>, id: int, e: Edit)
    requires IdsAscending(s)
    ensures IdsAscending(UpdateFirst(s, id, e))
  {
    var r := UpdateFirst(s, id, e);
    assert forall i :: 0 <= i < |s| ==> r[i].id == Ids(r)[i] == Ids(s)[i] == s[i].id;
  }

  lemma {:induction false} ReportTotalsAt(s: seq<Task>, i: nat, x: Task)
    requires i < |s|
    ensures Plus(ReportTotals(s[i := x]), ReportTotals([s[i]])) == Plus(ReportTotals(s), ReportTotals([x]))
  {
    assert s == s[..i] + ([s[i]] + s[i + 1..]);
    assert s[i := x] == s[..i] + ([x] + s[i + 1..]);
    ReportTotalsAppend(s[..i], [s[i]] + s[i + 1..]);
    ReportTotalsAppend([s[i]], s[i + 1..]);
    ReportTotalsAppend(s[..i], [x] + s[i + 1..]);
    ReportTotalsAppend([x], s[i + 1..]);
  }

  /**
   * Marking a task complete adds one to the report's completed count when
   * that task was pending, and nothing when it was done or absent.
   */
  lemma MarkCompleteCountsOnce(s: seq<Task>, id: int)
    ensures ReportTotals(UpdateFirst(s, id, MarkComplete)).completed ==
      ReportTotals(s).completed
      + (if FindFirst(s, id).Some? && !s[FindFirst(s, id).value].isComplete then 1 else 0)
  {
    if FindFirst(s, id).Some? {
      var i := FindFirst(s, id).value;
      ReportTotalsAt(s, i, Apply(s[i], MarkComplete));
    }
  }

  // -------------------------------------------------------------- scenario

  /** Add "buy milk" to an empty list, remove id 1, then remove id 1 again. */
  lemma AddRemoveScenario(due: Date)
    ensures var after := Added([], Draft("buy milk", 0, due, "errand"));
      && |after| == 1 && after[0].id == 1 && !after[0].isComplete
      && FindFirst(after, 1).Some? && RemoveFirst(after, 1) == []
      && FindFirst(RemoveFirst(after, 1), 1).None?
  {
  }
}
