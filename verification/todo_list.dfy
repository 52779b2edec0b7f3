/** The task list as a value, and the new list each event handler computes from the old one. */
module TodoList {
  import opened JsText

  /** The three options of the priority selector. */
  datatype Priority = Low | Medium | High

  /** One to-do entry; `id` is the millisecond timestamp taken when the task was added. */
  datatype Task = Task(id: int, text: string, priority: Priority, completed: bool)

  /** The criteria the list is filtered by: removal of one id, the two completion states and
      the view that lets everything through. */
  datatype Criterion = IdIsNot(id: int) | NotCompleted | Completed | Everything

  predicate Holds(crit: Criterion, t: Task) {
    match crit
    case IdIsNot(id) => t.id != id
    case NotCompleted => !t.completed
    case Completed => t.completed
    case Everything => true
  }

  /** `a` is `b` with some entries left out, the rest in their original order. */
  predicate IsSubsequence<T(==)>(a: seq<T>, b: seq<T>)
    decreases |b|
  {
    if a == [] then true
    else if b == [] then false
    else if a[0] == b[0] then IsSubsequence(a[1..], b[1..])
    else IsSubsequence(a, b[1..])
  }

  /** No two tasks share an id. */
  predicate UniqueIds(ts: seq<Task>) {
    forall i, j :: 0 <= i < j < |ts| ==> ts[i].id != ts[j].id
  }

  predicate HasId(ts: seq<Task>, id: int) {
    exists t :: t in ts && t.id == id
  }

  /** Array.prototype.filter: keeps the tasks that meet the criterion. */
  function Keep(ts: seq<Task>, crit: Criterion): (r: seq<Task>)
    ensures |r| <= |ts|
    ensures forall t :: t in r <==> t in ts && Holds(crit, t)
  {
    if ts == [] then []
    else if Holds(crit, ts[0]) then [ts[0]] + Keep(ts[1..], crit)
    else Keep(ts[1..], crit)
  }

  /** The kept tasks are a subsequence: filtering never reorders. */
  lemma {:induction false} KeepIsSubsequence(ts: seq<Task>, crit: Criterion)
    ensures IsSubsequence(Keep(ts, crit), ts)
  {
    if ts != [] {
      KeepIsSubsequence(ts[1..], crit);
      var rest := Keep(ts[1..], crit);
      if Holds(crit, ts[0]) {
        assert ([ts[0]] + rest)[1..] == rest;
      } else if rest != [] {
        assert rest[0] in rest;
      }
    }
  }

  /** Each task meeting the criterion keeps all its occurrences, each failing task loses all. */
  lemma {:induction false} KeepCounts(ts: seq<Task>, crit: Criterion, t: Task)
    ensures multiset(Keep(ts, crit))[t] == if Holds(crit, t) then multiset(ts)[t] else 0
  {
    if ts != [] {
      KeepCounts(ts[1..], crit, t);
      assert ts == [ts[0]] + ts[1..];
      assert multiset(ts) == multiset{ts[0]} + multiset(ts[1..]);
      if Holds(crit, ts[0]) {
        assert multiset(Keep(ts, crit)) == multiset{ts[0]} + multiset(Keep(ts[1..], crit));
      }
    }
  }

  /** Filtering twice by the same criterion is filtering once. */
  lemma {:induction false} KeepIdempotent(ts: seq<Task>, crit: Criterion)
    ensures Keep(Keep(ts, crit), crit) == Keep(ts, crit)
  {
    if ts != [] {
      KeepIdempotent(ts[1..], crit);
      if Holds(crit, ts[0]) {
        assert ([ts[0]] + Keep(ts[1..], crit))[1..] == Keep(ts[1..], crit);
      }
    }
  }

  /** Filtering removes something exactly when some task fails the criterion. */
  lemma {:induction false} KeepAllIff(ts: seq<Task>, crit: Criterion)
    ensures Keep(ts, crit) == ts <==> forall t :: t in ts ==> Holds(crit, t)
    ensures |Keep(ts, crit)| == |ts| <==> forall t :: t in ts ==> Holds(crit, t)
  {
    if ts != [] {
      KeepAllIff(ts[1..], crit);
      assert ts == [ts[0]] + ts[1..];
      assert |Keep(ts[1..], crit)| < |ts|;
    }
  }

  /** The incomplete and the completed tasks together are the whole list. */
  lemma {:induction false} CompletionPartition(ts: seq<Task>)
    ensures |Keep(ts, NotCompleted)| + |Keep(ts, Completed)| == |ts|
    ensures multiset(Keep(ts, NotCompleted)) + multiset(Keep(ts, Completed)) == multiset(ts)
  {
    if ts != [] {
      CompletionPartition(ts[1..]);
      assert ts == [ts[0]] + ts[1..];
    }
  }

  lemma {:induction false} KeepPreservesUniqueIds(ts: seq<Task>, crit: Criterion)
    requires UniqueIds(ts)
    ensures UniqueIds(Keep(ts, crit))
  {
    if ts != [] {
      assert UniqueIds(ts[1..]) by {
        forall i, j | 0 <= i < j < |ts[1..]| ensures ts[1..][i].id != ts[1..][j].id {
          assert ts[1..][i] == ts[i + 1] && ts[1..][j] == ts[j + 1];
        }
      }
      KeepPreservesUniqueIds(ts[1..], crit);
      var rest := Keep(ts[1..], crit);
      if Holds(crit, ts[0]) {
        forall j | 0 < j < |[ts[0]] + rest| ensures ([ts[0]] + rest)[j].id != ts[0].id {
          var t := rest[j - 1];
          assert t in ts[1..];
          var m :| 0 <= m < |ts[1..]| && ts[1..][m] == t;
          assert ts[m + 1] == t;
        }
      }
    }
  }

  // ---------------------------------------------------------------------------
  // add (the submit handler)

  /** The list after submitting `input` with `priority` at time `now`: a blank input is
      ignored; otherwise a new incomplete task with the trimmed text is put in front. */
  function Added(ts: seq<Task>, input: string, priority: Priority, now: int): (r: seq<Task>)
    ensures AllWhitespace(input) ==> r == ts
    ensures !AllWhitespace(input) ==>
      && |r| == |ts| + 1
      && r[0] == Task(now, Trim(input), priority, false)
      && r[0].text != [] && r[1..] == ts
  {
    TrimEmptyIff(input);
    var text := Trim(input);
    if text == [] then ts else [Task(now, text, priority, false)] + ts
  }

  /** A fresh timestamp keeps the ids unique. */
  lemma AddedPreservesUniqueIds(ts: seq<Task>, input: string, priority: Priority, now: int)
    requires UniqueIds(ts) && !HasId(ts, now)
    ensures UniqueIds(Added(ts, input, priority, now))
  {
  }

  /** One submission: the text typed, the priority selected and the clock reading. */
  datatype Submission = Submission(input: string, priority: Priority, now: int)

  /** The task a non-blank submission creates. */
  function NewTask(s: Submission): Task {
    Task(s.now, Trim(s.input), s.priority, false)
  }

  lemma AddedNonBlank(ts: seq<Task>, s: Submission)
    requires !AllWhitespace(s.input)
    ensures Added(ts, s.input, s.priority, s.now) == [NewTask(s)] + ts
  {
  }

  /** The list after the submissions in order, earliest first. */
  function AddedAll(ts: seq<Task>, subs: seq<Submission>): seq<Task>
    decreases |subs|
  {
    if subs == [] then ts
    else
      var last := subs[|subs| - 1];
      Added(AddedAll(ts, subs[..|subs| - 1]), last.input, last.priority, last.now)
  }

  /** The tasks the submissions create, the latest first. */
  function NewestFirst(subs: seq<Submission>): (r: seq<Task>)
    ensures |r| == |subs|
    decreases |subs|
  {
    if subs == [] then [] else [NewTask(subs[|subs| - 1])] + NewestFirst(subs[..|subs| - 1])
  }

  /** Entry i of NewestFirst is the task of the i-th submission counted from the last. */
  lemma {:induction false} NewestFirstAt(subs: seq<Submission>, i: nat)
    requires i < |subs|
    ensures NewestFirst(subs)[i] == NewTask(subs[|subs| - 1 - i])
  {
    if i > 0 {
      var init := subs[..|subs| - 1];
      NewestFirstAt(init, i - 1);
      assert init[|subs| - 1 - i] == subs[|subs| - 1 - i];
    }
  }

  /** Putting one task in front commutes with appending a list behind. */
  lemma ConsAppend(t: Task, a: seq<Task>, b: seq<Task>)
    ensures [t] + (a + b) == ([t] + a) + b
  {
  }

  /** After non-blank submissions the new tasks stand in front, the latest first, and the
      earlier list follows unchanged. */
  lemma {:induction false} AddedAllNewestFirst(ts: seq<Task>, subs: seq<Submission>)
    requires forall k :: 0 <= k < |subs| ==> !AllWhitespace(subs[k].input)
    ensures AddedAll(ts, subs) == NewestFirst(subs) + ts
    ensures |AddedAll(ts, subs)| == |ts| + |subs|
  {
    if subs != [] {
      var n := |subs|;
      var init := subs[..n - 1];
      assert forall k :: 0 <= k < |init| ==> init[k] == subs[k];
      AddedAllNewestFirst(ts, init);
      var last := subs[n - 1];
      var before := AddedAll(ts, init);
      assert AddedAll(ts, subs) == Added(before, last.input, last.priority, last.now);
      AddedNonBlank(before, last);
      assert NewestFirst(subs) == [NewTask(last)] + NewestFirst(init);
      ConsAppend(NewTask(last), NewestFirst(init), ts);
    }
  }

  // ---------------------------------------------------------------------------
  // toggle

  /** Array.prototype.map flipping `completed` on the tasks whose id is `id`. */
  function Toggled(ts: seq<Task>, id: int): (r: seq<Task>)
    ensures |r| == |ts|
    ensures forall i :: 0 <= i < |ts| ==>
      && r[i].id == ts[i].id && r[i].text == ts[i].text && r[i].priority == ts[i].priority
      && (r[i].completed != ts[i].completed <==> ts[i].id == id)
  {
    if ts == [] then []
    else
      var t := ts[0];
      [if t.id == id then t.(completed := !t.completed) else t] + Toggled(ts[1..], id)
  }

  /** Toggling the same id twice gives back the original list. */
  lemma ToggledInvolution(ts: seq<Task>, id: int)
    ensures Toggled(Toggled(ts, id), id) == ts
  {
  }

  /** Toggling an id no task has changes nothing. */
  lemma ToggledUnknownId(ts: seq<Task>, id: int)
    requires !HasId(ts, id)
    ensures Toggled(ts, id) == ts
  {
  }

  lemma ToggledPreservesUniqueIds(ts: seq<Task>, id: int)
    requires UniqueIds(ts)
    ensures UniqueIds(Toggled(ts, id))
  {
  }

  /** With unique ids, a toggle changes at most one task: the only one carrying the id. */
  lemma ToggledChangesOne(ts: seq<Task>, id: int, i: int, j: int)
    requires UniqueIds(ts) && 0 <= i < |ts| && 0 <= j < |ts| && i != j
    requires Toggled(ts, id)[i] != ts[i]
    ensures Toggled(ts, id)[j] == ts[j]
  {
  }

  // ---------------------------------------------------------------------------
  // delete, clear completed

  /** The list the delayed part of deleteTodo leaves: every task with a different id. */
  function Deleted(ts: seq<Task>, id: int): (r: seq<Task>)
    ensures forall t :: t in r <==> t in ts && t.id != id
  {
    Keep(ts, IdIsNot(id))
  }

  /** Deleting keeps the survivors in order, keeps every occurrence of them, and deleting
      the same id again has no further effect. */
  lemma DeletedSpec(ts: seq<Task>, id: int)
    ensures IsSubsequence(Deleted(ts, id), ts)
    ensures forall t: Task :: t.id != id ==> multiset(Deleted(ts, id))[t] == multiset(ts)[t]
    ensures Deleted(Deleted(ts, id), id) == Deleted(ts, id)
    ensures Deleted(ts, id) == ts <==> !HasId(ts, id)
    ensures UniqueIds(ts) ==> UniqueIds(Deleted(ts, id))
  {
    KeepIsSubsequence(ts, IdIsNot(id));
    forall t: Task | t.id != id ensures multiset(Deleted(ts, id))[t] == multiset(ts)[t] {
      KeepCounts(ts, IdIsNot(id), t);
    }
    KeepIdempotent(ts, IdIsNot(id));
    KeepAllIff(ts, IdIsNot(id));
    if UniqueIds(ts) {
      KeepPreservesUniqueIds(ts, IdIsNot(id));
    }
  }

  /** The list the clear-completed button leaves: the tasks not yet completed. */
  function ClearedCompleted(ts: seq<Task>): (r: seq<Task>)
    ensures forall t :: t in r <==> t in ts && !t.completed
  {
    Keep(ts, NotCompleted)
  }

  /** Clearing keeps every incomplete task, all of its occurrences, in order; clearing again
      changes nothing; and it changes the list exactly when some task is completed. */
  lemma ClearedCompletedSpec(ts: seq<Task>)
    ensures IsSubsequence(ClearedCompleted(ts), ts)
    ensures forall t: Task :: !t.completed ==> multiset(ClearedCompleted(ts))[t] == multiset(ts)[t]
    ensures ClearedCompleted(ClearedCompleted(ts)) == ClearedCompleted(ts)
    ensures ClearedCompleted(ts) == ts <==> forall t :: t in ts ==> !t.completed
    ensures UniqueIds(ts) ==> UniqueIds(ClearedCompleted(ts))
  {
    KeepIsSubsequence(ts, NotCompleted);
    forall t: Task | !t.completed ensures multiset(ClearedCompleted(ts))[t] == multiset(ts)[t] {
      KeepCounts(ts, NotCompleted, t);
    }
    KeepIdempotent(ts, NotCompleted);
    KeepAllIff(ts, NotCompleted);
    if UniqueIds(ts) {
      KeepPreservesUniqueIds(ts, NotCompleted);
    }
  }

  // ---------------------------------------------------------------------------
  // the visible tasks (renderTodos)

  /** The filter value "active" shows incomplete tasks, "completed" completed ones, and
      every other value the whole list. */
  function CriterionFor(filter: string): (r: Criterion)
    ensures forall t: Task :: Holds(r, t) <==>
      (filter == "active" ==> !t.completed) && (filter == "completed" ==> t.completed)
  {
    if filter == "active" then NotCompleted
    else if filter == "completed" then Completed
    else Everything
  }

  /** The tasks renderTodos shows for the filter value, in the list's order. */
  function Visible(ts: seq<Task>, filter: string): (r: seq<Task>)
    ensures IsSubsequence(r, ts)
    ensures forall t :: t in r <==>
      t in ts && (filter == "active" ==> !t.completed) && (filter == "completed" ==> t.completed)
  {
    KeepIsSubsequence(ts, CriterionFor(filter));
    Keep(ts, CriterionFor(filter))
  }

  /** What each filter value shows, always in the list's own order. */
  lemma VisibleSpec(ts: seq<Task>, filter: string)
    ensures IsSubsequence(Visible(ts, filter), ts)
    ensures filter == "active" ==>
      forall t :: multiset(Visible(ts, filter))[t] == if t.completed then 0 else multiset(ts)[t]
    ensures filter == "completed" ==>
      forall t :: multiset(Visible(ts, filter))[t] == if t.completed then multiset(ts)[t] else 0
    ensures filter != "active" && filter != "completed" ==> Visible(ts, filter) == ts
  {
    KeepIsSubsequence(ts, CriterionFor(filter));
    forall t ensures multiset(Visible(ts, filter))[t] ==
      if Holds(CriterionFor(filter), t) then multiset(ts)[t] else 0
    {
      KeepCounts(ts, CriterionFor(filter), t);
    }
    KeepAllIff(ts, CriterionFor(filter));
  }

  /** The "active" and "completed" views together account for every task exactly once. */
  lemma VisiblePartition(ts: seq<Task>)
    ensures |Visible(ts, "active")| + |Visible(ts, "completed")| == |ts|
    ensures multiset(Visible(ts, "active")) + multiset(Visible(ts, "completed")) == multiset(ts)
  {
    CompletionPartition(ts);
  }
}
