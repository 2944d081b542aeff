/**
 * The rules on the reader's home screen (`ReaderHomeView`): the greeting by
 * hour, the reading-goal card with its "% Complete" line, the recent
 * activity list and the goal editor sheet. The hour is a
 * parameter; the goal is the stored `readingGoal` (10 until changed).
 */
module ReaderHome {
  import opened Common
  import BookStore
  import ReadingTracker

  const DefaultReadingGoal: int := 10

  /** `timeOfDayGreeting()` for the current hour. */
  function Greeting(hour: int): (r: string)
    ensures 0 <= hour < 12 <==> r == "morning"
    ensures 12 <= hour < 17 <==> r == "afternoon"
    ensures (hour < 0 || hour >= 17) <==> r == "evening"
  {
    if 0 <= hour < 12 then "morning"
    else if 12 <= hour < 17 then "afternoon"
    else "evening"
  }

  /** Along the clock hours 0...23 the greeting only moves forward: morning, afternoon, evening. */
  lemma GreetingMovesForward(h1: int, h2: int)
    requires 0 <= h1 <= h2 <= 23
    ensures Greeting(h1) == "evening" ==> Greeting(h2) == "evening"
    ensures Greeting(h2) == "morning" ==> Greeting(h1) == "morning"
  {
  }

  /** "N books to go!": `max(0, readingGoal - totalReadCount)`. */
  function BooksToGo(goal: int, totalRead: int): (r: int)
    ensures r >= 0
    ensures r == 0 <==> totalRead >= goal
    ensures r > 0 ==> totalRead + r == goal
  {
    if goal - totalRead > 0 then goal - totalRead else 0
  }

  /** One more logged book brings the goal one step closer, until it is met. */
  lemma OneMoreBook(goal: int, totalRead: int)
    ensures BooksToGo(goal, totalRead + 1) == if BooksToGo(goal, totalRead) > 0 then BooksToGo(goal, totalRead) - 1 else 0
  {
  }

  /** "Goal achieved!" is shown when the tracker's progress reaches 100%. */
  predicate GoalAchieved(t: ReadingTracker.Tracker) {
    t.progressPercent >= 1.0
  }

  /**
   * Progress is measured against the seed pool, not the reading goal: after
   * a reload the banner shows exactly when the logs reach the pool's size.
   */
  lemma AchievedMeansPoolRead(t: ReadingTracker.Tracker, seedCount: nat)
    requires seedCount > 0
    ensures GoalAchieved(ReadingTracker.UpdateProgress(t, seedCount)) <==> |t.readingLogs| >= seedCount
  {
    var r := ReadingTracker.UpdateProgress(t, seedCount);
    var n := |t.readingLogs| as real;
    var c := seedCount as real;
    assert r.progressPercent * c == n;
    if r.progressPercent >= 1.0 {
      assert r.progressPercent * c >= 1.0 * c;
    } else {
      assert r.progressPercent * c < 1.0 * c;
    }
  }

  /** So the banner and "books to go" can disagree: five seed books read of a goal of ten. */
  lemma AchievedWithBooksToGo(t: ReadingTracker.Tracker)
    requires |t.readingLogs| == 5
    ensures GoalAchieved(ReadingTracker.UpdateProgress(t, 5))
    ensures BooksToGo(DefaultReadingGoal, ReadingTracker.UpdateProgress(t, 5).totalReadCount) == 5
  {
    AchievedMeansPoolRead(t, 5);
  }

  /** "N% Complete": `Int(progressPercent * 100)`, which truncates toward zero. */
  function PercentComplete(progress: real): (r: int)
    ensures progress >= 0.0 ==> r >= 0 && r as real <= progress * 100.0 < r as real + 1.0
    ensures progress < 0.0 ==> r <= 0 && r as real - 1.0 < progress * 100.0 <= r as real
  {
    var x := progress * 100.0;
    if x >= 0.0 then x.Floor else -((-x).Floor)
  }

  /**
   * After a reload the line shows the whole-number percentage of the seed
   * pool read, rounded down: `100 * logs / seeds` in integer division.
   */
  lemma PercentAfterReload(t: ReadingTracker.Tracker, seedCount: nat)
    requires seedCount > 0
    ensures PercentComplete(ReadingTracker.UpdateProgress(t, seedCount).progressPercent)
         == (100 * |t.readingLogs|) / seedCount
  {
    var p := ReadingTracker.UpdateProgress(t, seedCount).progressPercent;
    var n := |t.readingLogs|;
    var q := (100 * n) / seedCount;
    assert q * seedCount <= 100 * n < (q + 1) * seedCount;
    ScaledBetween(p * 100.0, seedCount as real, q, 100 * n);
    assert p * 100.0 >= 0.0;
    assert PercentComplete(p) == (p * 100.0).Floor;
  }

  /** Dividing out a positive factor: `x * c` between `q * c` and `(q + 1) * c` puts `x` between `q` and `q + 1`. */
  lemma ScaledBetween(x: real, c: real, q: int, m: int)
    requires c > 0.0 && q >= 0
    requires x * c == m as real
    requires (q as real) * c <= m as real < (q as real + 1.0) * c
    ensures q as real <= x < q as real + 1.0
  {
    if x < q as real {
      MulLess(x, q as real, c);
    }
    if x >= q as real + 1.0 {
      MulAtMost(q as real + 1.0, x, c);
    }
  }

  lemma MulLess(a: real, b: real, c: real)
    requires a < b && c > 0.0
    ensures a * c < b * c
  {
  }

  lemma MulAtMost(a: real, b: real, c: real)
    requires a <= b && c > 0.0
    ensures a * c <= b * c
  {
  }

  /** "Recent Activity": the first three loaded logs, newest first as loaded. */
  function RecentActivity(t: ReadingTracker.Tracker): (r: seq<BookStore.ReadingLog>)
    ensures |r| == if |t.readingLogs| < 3 then |t.readingLogs| else 3
    ensures r == t.readingLogs[..|r|]
  {
    Take(t.readingLogs, 3)
  }

  /** The home screen's three recent logs are the first of the tracker's five recent reads. */
  lemma RecentActivityStartsRecentReads(t: ReadingTracker.Tracker)
    ensures |RecentActivity(t)| <= |ReadingTracker.RecentReads(t)|
    ensures RecentActivity(t) == ReadingTracker.RecentReads(t)[..|RecentActivity(t)|]
  {
  }

  /** The goal editor: the bound goal and the stepper's value. */
  datatype GoalEditor = GoalEditor(currentGoal: int, newGoal: int)

  const MinGoal: int := 1
  const MaxGoal: int := 100

  /** Opening the sheet starts the stepper at the current goal. */
  function OpenEditor(goal: int): (e: GoalEditor)
    ensures e.currentGoal == goal && e.newGoal == goal
  {
    GoalEditor(goal, goal)
  }

  /** The stepper's "+": one more, never above 100. */
  function Increment(e: GoalEditor): (r: GoalEditor)
    ensures r.currentGoal == e.currentGoal
    ensures e.newGoal < MaxGoal ==> r.newGoal == e.newGoal + 1
    ensures e.newGoal >= MaxGoal ==> r.newGoal == MaxGoal
  {
    e.(newGoal := if e.newGoal + 1 < MaxGoal then e.newGoal + 1 else MaxGoal)
  }

  /** The stepper's "-": one fewer, never below 1. */
  function Decrement(e: GoalEditor): (r: GoalEditor)
    ensures r.currentGoal == e.currentGoal
    ensures e.newGoal > MinGoal ==> r.newGoal == e.newGoal - 1
    ensures e.newGoal <= MinGoal ==> r.newGoal == MinGoal
  {
    e.(newGoal := if e.newGoal - 1 > MinGoal then e.newGoal - 1 else MinGoal)
  }

  predicate InRange(goal: int) {
    MinGoal <= goal <= MaxGoal
  }

  /** The stepper never leaves 1...100 once inside it, and "-" undoes "+" below the top. */
  lemma StepperStaysInRange(e: GoalEditor)
    requires InRange(e.newGoal)
    ensures InRange(Increment(e).newGoal) && InRange(Decrement(e).newGoal)
    ensures e.newGoal < MaxGoal ==> Decrement(Increment(e)) == e
    ensures e.newGoal > MinGoal ==> Increment(Decrement(e)) == e
  {
  }

  /** "Save Goal" writes the stepper's value to the stored goal. */
  function Save(e: GoalEditor): (goal: int)
    ensures goal == e.newGoal
  {
    e.newGoal
  }

  /** "Cancel" keeps the stored goal. */
  function Cancel(e: GoalEditor): (goal: int)
    ensures goal == e.currentGoal
  {
    e.currentGoal
  }

  /** Opening and saving without touching the stepper, or cancelling after any steps, keeps the goal. */
  lemma OpenThenCloseKeepsGoal(goal: int, ups: nat)
    ensures Save(OpenEditor(goal)) == goal
    ensures Cancel(Increments(OpenEditor(goal), ups)) == goal
  {
    IncrementsKeepGoal(OpenEditor(goal), ups);
  }

  /** `n` taps on "+". */
  function Increments(e: GoalEditor, n: nat): GoalEditor
    decreases n
  {
    if n == 0 then e else Increments(Increment(e), n - 1)
  }

  lemma {:induction false} IncrementsKeepGoal(e: GoalEditor, n: nat)
    ensures Increments(e, n).currentGoal == e.currentGoal
    ensures InRange(e.newGoal) ==> InRange(Increments(e, n).newGoal)
    decreases n
  {
    if n > 0 {
      IncrementsKeepGoal(Increment(e), n - 1);
    }
  }
}
