/**
 * The task record and the pure operations on an ordered task list that the
 * task manager builds on: first-match lookup by id, marking the first match
 * completed, removing the first match, and selecting the pending tasks.
 */
module Tasks {
  import opened Wrappers

  /** A point in time; `new Date()` is supplied by the caller as one of these. */
  type Timestamp = int

  /** One to-do item. `completedAt` is absent until the task is completed. */
  datatype Task = Task(
    id: string,
    title: string,
    completed: bool,
    createdAt: Timestamp,
    completedAt: Option<Timestamp>)

  /** The invariant of a single task: a completion time exactly when completed. */
  predicate Consistent(t: Task) {
    t.completedAt.Some? <==> t.completed
  }

  predicate AllConsistent(ts: seq<Task>) {
    forall k :: 0 <= k < |ts| ==> Consistent(ts[k])
  }

  /** No two tasks of the list share an id. */
  predicate UniqueIds(ts: seq<Task>) {
    forall i, j :: 0 <= i < j < |ts| ==> ts[i].id != ts[j].id
  }

  /** Some task of the list has this id. */
  predicate HasId(ts: seq<Task>, id: string) {
    exists k :: 0 <= k < |ts| && ts[k].id == id
  }

  /** The task `addTask` creates: given id, given title, pending, no completion time. */
  function NewTask(id: string, title: string, now: Timestamp): (t: Task)
    ensures t.id == id && t.title == title && t.createdAt == now
    ensures !t.completed && t.completedAt.None?
  {
    Task(id, title, false, now, None)
  }

  /** The position of the first task whose id equals `id`, or None when there is none. */
  function FirstMatch(ts: seq<Task>, id: string): (r: Option<nat>)
    ensures r.Some? ==> r.value < |ts| && ts[r.value].id == id
    ensures r.Some? ==> forall j :: 0 <= j < r.value ==> ts[j].id != id
    ensures r.None? <==> !HasId(ts, id)
  {
    if ts == [] then None
    else if ts[0].id == id then Some(0)
    else match FirstMatch(ts[1..], id)
         case None => None
         case Some(i) => Some(i + 1)
  }

  /** The first match depends only on the ids of the list, not on the other fields. */
  lemma FirstMatchSameIds(a: seq<Task>, b: seq<Task>, id: string)
    requires |a| == |b|
    requires forall k :: 0 <= k < |a| ==> a[k].id == b[k].id
    ensures FirstMatch(a, id) == FirstMatch(b, id)
  {
  }

  /** The linear search `findIndex` performs: the first index whose id equals `id`, or -1. */
  method FindIndex(ts: seq<Task>, id: string) returns (i: int)
    ensures -1 <= i < |ts|
    ensures i == -1 <==> !HasId(ts, id)
    ensures 0 <= i ==> ts[i].id == id && forall j :: 0 <= j < i ==> ts[j].id != id
    ensures i == (match FirstMatch(ts, id) case None => -1 case Some(k) => k)
  {
    i := 0;
    while i < |ts|
      invariant 0 <= i <= |ts|
      invariant forall j :: 0 <= j < i ==> ts[j].id != id
    {
      if ts[i].id == id {
        return;
      }
      i := i + 1;
    }
    i := -1;
  }

  /** The two field assignments `completeTask` makes on the task it found. */
  function MarkCompleted(t: Task, now: Timestamp): (r: Task)
    ensures r.completed && r.completedAt == Some(now) && Consistent(r)
    ensures r.id == t.id && r.title == t.title && r.createdAt == t.createdAt
  {
    t.(completed := true, completedAt := Some(now))
  }

  /**
   * The list after completing `id` at time `now`: the first task with that id is
   * completed, with `now` as its completion time even if it was completed
   * already; every other task is the same; with no such task nothing changes.
   */
  function CompleteFirst(ts: seq<Task>, id: string, now: Timestamp): (r: seq<Task>)
    ensures |r| == |ts|
    ensures FirstMatch(ts, id).None? ==> r == ts
    ensures FirstMatch(ts, id).Some? ==>
      var i := FirstMatch(ts, id).value;
      && r[i].completed && r[i].completedAt == Some(now)
      && r[i].id == ts[i].id && r[i].title == ts[i].title && r[i].createdAt == ts[i].createdAt
      && forall j :: 0 <= j < |ts| && j != i ==> r[j] == ts[j]
  {
    match FirstMatch(ts, id)
    case None => ts
    case Some(i) => ts[i := MarkCompleted(ts[i], now)]
  }

  /**
   * The list after deleting `id`: exactly the entry at the first matching
   * position is cut out and the rest keep their order; with no such task
   * nothing changes.
   */
  function RemoveFirst(ts: seq<Task>, id: string): (r: seq<Task>)
    ensures FirstMatch(ts, id).None? ==> r == ts
    ensures FirstMatch(ts, id).Some? ==>
      var i := FirstMatch(ts, id).value;
      && |r| == |ts| - 1
      && (forall j :: 0 <= j < i ==> r[j] == ts[j])
      && (forall j :: i <= j < |r| ==> r[j] == ts[j + 1])
  {
    match FirstMatch(ts, id)
    case None => ts
    case Some(i) => ts[..i] + ts[i + 1..]
  }

  /** The tasks that are not completed, in their original order. */
  function Pending(ts: seq<Task>): (r: seq<Task>)
    ensures |r| <= |ts|
    ensures forall t :: t in r <==> t in ts && !t.completed
  {
    if ts == [] then []
    else (if ts[0].completed then [] else [ts[0]]) + Pending(ts[1..])
  }

  /** The tasks `listTasks` shows: all of them, or only the pending ones. */
  function Visible(ts: seq<Task>, showCompleted: bool): (r: seq<Task>)
    ensures showCompleted ==> r == ts
    ensures !showCompleted ==> |r| <= |ts| && forall t :: t in r <==> t in ts && !t.completed
  {
    if showCompleted then ts else Pending(ts)
  }

  // ---------------------------------------------------------------------------
  // Reference definitions: the same operations written as one walk down the list

  /** Complete the first task with the id, walking the list from the front. */
  function CompleteFirstRec(ts: seq<Task>, id: string, now: Timestamp): seq<Task> {
    if ts == [] then []
    else if ts[0].id == id then [MarkCompleted(ts[0], now)] + ts[1..]
    else [ts[0]] + CompleteFirstRec(ts[1..], id, now)
  }

  /** Drop the first task with the id, walking the list from the front. */
  function RemoveFirstRec(ts: seq<Task>, id: string): seq<Task> {
    if ts == [] then []
    else if ts[0].id == id then ts[1..]
    else [ts[0]] + RemoveFirstRec(ts[1..], id)
  }

  lemma {:induction false} CompleteFirstAgrees(ts: seq<Task>, id: string, now: Timestamp)
    ensures CompleteFirst(ts, id, now) == CompleteFirstRec(ts, id, now)
  {
    if ts != [] && ts[0].id != id {
      CompleteFirstAgrees(ts[1..], id, now);
      assert ts == [ts[0]] + ts[1..];
      match FirstMatch(ts[1..], id)
      case None =>
      case Some(i) =>
        assert FirstMatch(ts, id) == Some(i + 1);
        assert CompleteFirst(ts, id, now) == [ts[0]] + CompleteFirst(ts[1..], id, now);
    }
  }

  lemma {:induction false} RemoveFirstAgrees(ts: seq<Task>, id: string)
    ensures RemoveFirst(ts, id) == RemoveFirstRec(ts, id)
  {
    if ts != [] && ts[0].id != id {
      RemoveFirstAgrees(ts[1..], id);
      assert ts == [ts[0]] + ts[1..];
      match FirstMatch(ts[1..], id)
      case None =>
      case Some(i) =>
        assert FirstMatch(ts, id) == Some(i + 1);
        assert ts[..i + 1] == [ts[0]] + ts[1..][..i];
        assert ts[i + 2..] == ts[1..][i + 1..];
    }
  }

  // ---------------------------------------------------------------------------
  // Properties of the operations

  /** Selecting pending tasks distributes over concatenation: it keeps relative order. */
  lemma {:induction false} PendingAppend(a: seq<Task>, b: seq<Task>)
    ensures Pending(a + b) == Pending(a) + Pending(b)
  {
    if a == [] {
      assert a + b == b;
    } else {
      assert (a + b)[1..] == a[1..] + b;
      PendingAppend(a[1..], b);
    }
  }

  /** A freshly added task shows up at the end of the pending listing. */
  lemma PendingAfterAdd(ts: seq<Task>, id: string, title: string, now: Timestamp)
    ensures Pending(ts + [NewTask(id, title, now)]) == Pending(ts) + [NewTask(id, title, now)]
  {
    PendingAppend(ts, [NewTask(id, title, now)]);
  }

  /** A list with no completed task is its own pending listing. */
  lemma {:induction false} PendingOfAllPending(ts: seq<Task>)
    requires forall k :: 0 <= k < |ts| ==> !ts[k].completed
    ensures Pending(ts) == ts
  {
    if ts != [] {
      var rest := ts[1..];
      assert forall k :: 0 <= k < |rest| ==> rest[k] == ts[k + 1];
      PendingOfAllPending(rest);
      assert ts == [ts[0]] + rest;
    }
  }

  /** The pending listing is the whole list exactly when no task is completed. */
  lemma PendingIsAll(ts: seq<Task>)
    ensures Pending(ts) == ts <==> forall k :: 0 <= k < |ts| ==> !ts[k].completed
  {
    if forall k :: 0 <= k < |ts| ==> !ts[k].completed {
      PendingOfAllPending(ts);
    } else {
      var k :| 0 <= k < |ts| && ts[k].completed;
      assert ts[k] in ts;
    }
  }

  /** Selecting pending tasks twice is selecting them once. */
  lemma PendingIdempotent(ts: seq<Task>)
    ensures Pending(Pending(ts)) == Pending(ts)
  {
    var p := Pending(ts);
    forall k | 0 <= k < |p| ensures !p[k].completed {
      assert p[k] in p;
    }
    PendingIsAll(p);
  }

  /** Completing leaves every id, and so every later lookup, where it was. */
  lemma CompleteKeepsIds(ts: seq<Task>, id: string, now: Timestamp, other: string)
    ensures var r := CompleteFirst(ts, id, now);
      && (forall k :: 0 <= k < |ts| ==> r[k].id == ts[k].id)
      && FirstMatch(r, other) == FirstMatch(ts, other)
  {
    FirstMatchSameIds(CompleteFirst(ts, id, now), ts, other);
  }

  /**
   * Completing an already completed task overwrites its completion time: two
   * completions in a row leave the list as the later one alone would.
   */
  lemma CompleteOverwrites(ts: seq<Task>, id: string, t1: Timestamp, t2: Timestamp)
    ensures CompleteFirst(CompleteFirst(ts, id, t1), id, t2) == CompleteFirst(ts, id, t2)
  {
    CompleteKeepsIds(ts, id, t1, id);
  }

  /** With unique ids, the completed task is no longer among the pending ones. */
  lemma CompleteLeavesPending(ts: seq<Task>, id: string, now: Timestamp)
    requires UniqueIds(ts)
    ensures forall t :: t in Pending(CompleteFirst(ts, id, now)) ==> t.id != id
  {
  }

  /** Cutting one element out of a sequence removes one occurrence of it from its multiset. */
  lemma CutMultiset(s: seq<Task>, i: nat)
    requires i < |s|
    ensures multiset(s[..i] + s[i + 1..]) + multiset{s[i]} == multiset(s)
  {
    assert s == s[..i] + [s[i]] + s[i + 1..];
  }

  /** Deleting takes exactly one task out of the multiset of tasks. */
  lemma RemoveFirstMultiset(ts: seq<Task>, id: string)
    requires HasId(ts, id)
    ensures multiset(RemoveFirst(ts, id)) + multiset{ts[FirstMatch(ts, id).value]} == multiset(ts)
  {
    CutMultiset(ts, FirstMatch(ts, id).value);
  }

  /** With unique ids, deleting removes the id from the list and keeps the ids unique. */
  lemma RemoveFirstUnique(ts: seq<Task>, id: string)
    requires UniqueIds(ts)
    ensures var r := RemoveFirst(ts, id);
      UniqueIds(r) && !HasId(r, id)
  {
  }

  /** With ids A, B, C, deleting B leaves A, C. */
  lemma RemoveMiddleExample(a: Task, b: Task, c: Task)
    requires a.id == "A" && b.id == "B" && c.id == "C"
    ensures RemoveFirst([a, b, c], "B") == [a, c]
  {
    assert FirstMatch([a, b, c], "B") == Some(1) by {
      assert [a, b, c][1..] == [b, c];
    }
  }

  /** Adding a task keeps the completion-time invariant. */
  lemma AddKeepsConsistent(ts: seq<Task>, id: string, title: string, now: Timestamp)
    requires AllConsistent(ts)
    ensures AllConsistent(ts + [NewTask(id, title, now)])
  {
  }

  /** Completing a task keeps the completion-time invariant. */
  lemma CompleteKeepsConsistent(ts: seq<Task>, id: string, now: Timestamp)
    requires AllConsistent(ts)
    ensures AllConsistent(CompleteFirst(ts, id, now))
  {
  }

  /** Deleting a task keeps the completion-time invariant. */
  lemma RemoveKeepsConsistent(ts: seq<Task>, id: string)
    requires AllConsistent(ts)
    ensures AllConsistent(RemoveFirst(ts, id))
  {
  }

  /** Adding a task whose id is not yet in use keeps ids unique. */
  lemma AddKeepsUnique(ts: seq<Task>, id: string, title: string, now: Timestamp)
    requires UniqueIds(ts) && !HasId(ts, id)
    ensures UniqueIds(ts + [NewTask(id, title, now)])
  {
  }

  /** Completing a task keeps ids unique. */
  lemma CompleteKeepsUnique(ts: seq<Task>, id: string, now: Timestamp)
    requires UniqueIds(ts)
    ensures UniqueIds(CompleteFirst(ts, id, now))
  {
    CompleteKeepsIds(ts, id, now, id);
  }
}
