/** The completion progress that updateStats derives from the task list. */
module Progress {
  import opened TodoList

  /** How many tasks are completed: the length of the list filtered by `completed`. */
  function CompletedCount(ts: seq<Task>): (c: nat)
    ensures c <= |ts|
    ensures c == 0 <==> forall t :: t in ts ==> !t.completed
    ensures c == |ts| <==> forall t :: t in ts ==> t.completed
  {
    KeepAllIff(ts, Completed);
    var kept := Keep(ts, Completed);
    assert kept != [] ==> kept[0] in kept;
    |kept|
  }

  /** The exact percentage of completed tasks, 0 for an empty list. */
  function Percentage(ts: seq<Task>): (p: real)
    ensures 0.0 <= p <= 100.0
    ensures p == 0.0 <==> forall t :: t in ts ==> !t.completed
    ensures p == 100.0 <==> ts != [] && forall t :: t in ts ==> t.completed
  {
    PercentOf(CompletedCount(ts), |ts|)
  }

  /** c out of n as a percentage, 0 when n is 0: otherwise the value times n is 100 times c. */
  function PercentOf(c: nat, n: nat): (p: real)
    requires c <= n
    ensures 0.0 <= p <= 100.0
    ensures p == 0.0 <==> c == 0
    ensures p == 100.0 <==> n > 0 && c == n
    ensures n > 0 ==> p * (n as real) == 100.0 * (c as real)
  {
    if n == 0 then 0.0
    else
      var p := (c as real / n as real) * 100.0;
      RatioPercent(c as real, n as real, p);
      p
  }

  /** The arithmetic behind PercentOf, over the reals. */
  lemma RatioPercent(c: real, n: real, p: real)
    requires 0.0 <= c <= n && n > 0.0 && p == (c / n) * 100.0
    ensures 0.0 <= p <= 100.0
    ensures p == 0.0 <==> c == 0.0
    ensures p == 100.0 <==> c == n
    ensures p * n == 100.0 * c
  {
  }

  /** Math.round for the non-negative values it is given here: the nearest integer, halves
      rounded up. */
  function Round(x: real): (r: int)
    requires x >= 0.0
    ensures r >= 0
    ensures r as real - 0.5 <= x < r as real + 0.5
  {
    (x + 0.5).Floor
  }

  /** The whole percentage shown next to the progress ring. */
  function ShownPercent(ts: seq<Task>): (r: nat)
    ensures r <= 100
    ensures ts == [] ==> r == 0
    ensures (forall t :: t in ts ==> !t.completed) ==> r == 0
    ensures ts != [] && (forall t :: t in ts ==> t.completed) ==> r == 100
    ensures r as real - 0.5 <= Percentage(ts) < r as real + 0.5
  {
    Round(Percentage(ts))
  }

  /** One completed task out of four shows 25%. */
  lemma OneOfFour(ts: seq<Task>)
    requires |ts| == 4 && CompletedCount(ts) == 1
    ensures Percentage(ts) == 25.0 && ShownPercent(ts) == 25
  {
  }
}
