/** The tracker of components/StreakTracker.tsx: the next milestone, the
    threshold already passed, and the progress bar between them. Every
    function is generic over the table; lemmas state what holds for any
    valid table and, at the end, for the concrete one. */
module StreakTracker {
  import opened Wrappers
  import opened Constants
  import opened JsNumber

  /** Where `ms.find(m => m.day > streak)` stops: the first index whose day
      exceeds the streak, or `|ms|` when no entry does. */
  function FindAbove(ms: seq<Milestone>, streak: nat): (k: nat)
    ensures k <= |ms|
    ensures forall j :: 0 <= j < k ==> ms[j].day <= streak
    ensures k < |ms| ==> ms[k].day > streak
    decreases |ms|
  {
    if ms == [] then 0
    else if ms[0].day > streak then 0
    else 1 + FindAbove(ms[1..], streak)
  }

  /** `getNextMilestone`: the first entry above the streak, falling back to
      the last entry of the table. */
  function NextMilestone(ms: seq<Milestone>, streak: nat): (m: Milestone)
    requires |ms| > 0
    ensures streak < Last(ms).day ==>
      exists k :: 0 <= k < |ms| && ms[k] == m && m.day > streak &&
        forall j :: 0 <= j < k ==> ms[j].day <= streak
    ensures ValidTable(ms) && Last(ms).day <= streak ==> m == Last(ms)
  {
    var k := FindAbove(ms, streak);
    if k < |ms| then ms[k] else Last(ms)
  }

  /** Where the reverse scan `[...ms].reverse().find(m => m.day <= streak)`
      stops, as an index into `ms`: the last index whose day is at most the
      streak, or None when no entry is. */
  function FindLastAtMost(ms: seq<Milestone>, streak: nat): (r: Option<nat>)
    ensures r.None? ==> forall j :: 0 <= j < |ms| ==> ms[j].day > streak
    ensures r.Some? ==> r.value < |ms| && ms[r.value].day <= streak
    ensures r.Some? ==> forall j :: r.value < j < |ms| ==> ms[j].day > streak
    decreases |ms|
  {
    if ms == [] then None
    else if Last(ms).day <= streak then Some(|ms| - 1)
    else FindLastAtMost(ms[..|ms| - 1], streak)
  }

  /** `prevMilestoneDay`: the day of the entry the reverse scan finds, or 0.
      (The source's `|| 0` turns a day of 0 into 0, the same number.) */
  function PrevMilestoneDay(ms: seq<Milestone>, streak: nat): (d: nat)
    ensures d <= streak
    ensures d != 0 ==> d in Days(ms)
    ensures ValidTable(ms) ==> (d == 0 <==> streak < ms[0].day)
    ensures ValidTable(ms) ==>
      forall j :: 0 <= j < |ms| && ms[j].day <= streak ==> ms[j].day <= d
  {
    match FindLastAtMost(ms, streak)
    case None => 0
    case Some(i) => ms[i].day
  }

  /** The denominator of the progress ratio, `nextMilestone.day - prevMilestoneDay`. */
  function Span(ms: seq<Milestone>, streak: nat): int
    requires |ms| > 0
  {
    NextMilestone(ms, streak).day - PrevMilestoneDay(ms, streak)
  }

  /** `progress` exactly as the source evaluates it, with JavaScript's
      division by zero: `Math.min(100, Math.max(0, (streak - prev) / span * 100))`. */
  function ProgressAsWritten(ms: seq<Milestone>, streak: nat): (p: Num)
    requires |ms| > 0
    ensures p == NaN || p.Finite?
    ensures p.Finite? ==> 0.0 <= p.v <= 100.0
  {
    var prev := PrevMilestoneDay(ms, streak);
    MinWith(100.0, MaxWith(0.0, Times(Divide((streak - prev) as real, Span(ms, streak) as real), 100.0)))
  }

  /** `progress` with the division guarded: a zero span (streak at or past
      the last milestone) gives 100, otherwise the clamped ratio. The guard is
      this model's; the source divides unguarded (see ProgressAsWritten). */
  function Progress(ms: seq<Milestone>, streak: nat): (p: real)
    requires ValidTable(ms)
    ensures 0.0 <= p <= 100.0
  {
    var prev := PrevMilestoneDay(ms, streak);
    var span := Span(ms, streak);
    if span == 0 then 100.0
    else
      SpanPositiveBelowLast(ms, streak);
      Clamp(((streak - prev) as real / span as real) * 100.0)
  }

  /** `Math.min(100, Math.max(0, x))` on a finite x. */
  function Clamp(x: real): (r: real)
    ensures 0.0 <= r <= 100.0
    ensures 0.0 <= x <= 100.0 ==> r == x
    ensures x < 0.0 ==> r == 0.0
    ensures x > 100.0 ==> r == 100.0
  {
    if x < 0.0 then 0.0 else if x > 100.0 then 100.0 else x
  }

  /** On a finite value the clamp is the source's `Math.min(100, Math.max(0, x))`. */
  lemma ClampIsMinOfMax(x: real)
    ensures Finite(Clamp(x)) == MinWith(100.0, MaxWith(0.0, Finite(x)))
  {
  }

  /** Below the last milestone the streak lies between the previous
      threshold and the next milestone, so the span is positive; at or past
      it both are the last day and the span is zero. */
  lemma SpanPositiveBelowLast(ms: seq<Milestone>, streak: nat)
    requires ValidTable(ms)
    ensures streak < Last(ms).day ==>
      PrevMilestoneDay(ms, streak) <= streak < NextMilestone(ms, streak).day
    ensures Span(ms, streak) == 0 <==> streak >= Last(ms).day
    ensures Span(ms, streak) >= 0
  {
    var prev := PrevMilestoneDay(ms, streak);
    var next := NextMilestone(ms, streak);
    if streak >= Last(ms).day {
      assert Last(ms).day <= prev;
      assert prev in Days(ms);
      var i :| 0 <= i < |ms| && Days(ms)[i] == prev;
      LastIsLargest(ms, i);
    }
  }

  /** Below the last milestone the unclamped ratio already lies in [0, 100),
      so the clamp changes nothing. */
  lemma ProgressBelowLast(ms: seq<Milestone>, streak: nat)
    requires ValidTable(ms)
    requires streak < Last(ms).day
    ensures Progress(ms, streak) < 100.0
    ensures Progress(ms, streak)
      == ((streak - PrevMilestoneDay(ms, streak)) as real / Span(ms, streak) as real) * 100.0
  {
    SpanPositiveBelowLast(ms, streak);
    var a := (streak - PrevMilestoneDay(ms, streak)) as real;
    var b := Span(ms, streak) as real;
    RatioBelowOne(a, b);
  }

  lemma RatioBelowOne(a: real, b: real)
    requires 0.0 <= a < b
    ensures 0.0 <= a / b < 1.0
  {
    assert (a / b) * b == a;
  }

  /** The bar is full exactly at or past the last milestone. */
  lemma ProgressFullIff(ms: seq<Milestone>, streak: nat)
    requires ValidTable(ms)
    ensures Progress(ms, streak) == 100.0 <==> streak >= Last(ms).day
  {
    SpanPositiveBelowLast(ms, streak);
    if streak < Last(ms).day {
      ProgressBelowLast(ms, streak);
    }
  }

  /** The bar is empty at a streak of 0 and on reaching any milestone but the
      last: the previous threshold is then the streak itself. */
  lemma ProgressZeroAtThreshold(ms: seq<Milestone>, streak: nat)
    requires ValidTable(ms)
    requires streak == 0 || exists i :: 0 <= i < |ms| - 1 && ms[i].day == streak
    ensures Progress(ms, streak) == 0.0
  {
    var prev := PrevMilestoneDay(ms, streak);
    if streak != 0 {
      var i :| 0 <= i < |ms| - 1 && ms[i].day == streak;
      assert ms[i].day < Last(ms).day;
      assert ms[i].day <= prev;
    }
    assert prev == streak;
    ProgressBelowLast(ms, streak);
  }

  /** The previous threshold never goes down as the streak grows. */
  lemma PrevMilestoneDayMonotone(ms: seq<Milestone>, s1: nat, s2: nat)
    requires ValidTable(ms)
    requires s1 <= s2
    ensures PrevMilestoneDay(ms, s1) <= PrevMilestoneDay(ms, s2)
  {
    var d1 := PrevMilestoneDay(ms, s1);
    if d1 != 0 {
      assert d1 in Days(ms);
      var i :| 0 <= i < |ms| && Days(ms)[i] == d1;
      assert ms[i].day <= s2;
    }
  }

  /** Between two milestones (same previous threshold, below the last) the
      bar never goes back as the streak grows. */
  lemma ProgressMonotoneWithinSegment(ms: seq<Milestone>, s1: nat, s2: nat)
    requires ValidTable(ms)
    requires s1 <= s2 < Last(ms).day
    requires PrevMilestoneDay(ms, s1) == PrevMilestoneDay(ms, s2)
    ensures Progress(ms, s1) <= Progress(ms, s2)
  {
    ProgressBelowLast(ms, s1);
    ProgressBelowLast(ms, s2);
    NextMilestoneWithinSegment(ms, s1, s2);
    var prev := PrevMilestoneDay(ms, s1);
    DivideMonotone((s1 - prev) as real, (s2 - prev) as real, Span(ms, s1) as real);
  }

  /** Two streaks with the same previous threshold, both below the last
      milestone, have the same next milestone. */
  lemma NextMilestoneWithinSegment(ms: seq<Milestone>, s1: nat, s2: nat)
    requires ValidTable(ms)
    requires s1 <= s2 < Last(ms).day
    requires PrevMilestoneDay(ms, s1) == PrevMilestoneDay(ms, s2)
    ensures NextMilestone(ms, s1) == NextMilestone(ms, s2)
  {
    var k1 := FindAbove(ms, s1);
    var k2 := FindAbove(ms, s2);
    if k1 < k2 {
      assert false;
    } else if k2 < k1 {
      assert false;
    }
  }

  lemma DivideMonotone(a: real, b: real, d: real)
    requires a <= b && d > 0.0
    ensures a / d <= b / d
  {
    assert (a / d) * d == a && (b / d) * d == b;
  }

  /** Wherever the source's division is defined or overflows to +Infinity,
      the guarded progress is the value the source shows. */
  lemma ProgressMatchesSourceOffLastDay(ms: seq<Milestone>, streak: nat)
    requires ValidTable(ms)
    requires streak != Last(ms).day
    ensures ProgressAsWritten(ms, streak) == Finite(Progress(ms, streak))
  {
    SpanPositiveBelowLast(ms, streak);
    if streak < Last(ms).day {
      ProgressBelowLast(ms, streak);
      var prev := PrevMilestoneDay(ms, streak);
      RatioBelowOne((streak - prev) as real, Span(ms, streak) as real);
    } else {
      assert PrevMilestoneDay(ms, streak) == Last(ms).day;
    }
  }

  /** At exactly the last milestone the source divides 0 by 0: NaN, which
      `Math.max` and `Math.min` both pass through. */
  lemma ProgressNaNAtLastDay(ms: seq<Milestone>)
    requires ValidTable(ms)
    ensures ProgressAsWritten(ms, Last(ms).day) == NaN
  {
    SpanPositiveBelowLast(ms, Last(ms).day);
    var prev := PrevMilestoneDay(ms, Last(ms).day);
    assert prev >= Last(ms).day by {
      assert Last(ms).day <= Last(ms).day;
    }
  }

  /** The concrete table: at streak 100 the source's progress is NaN; one
      day later the division gives +Infinity, which the clamp turns into 100. */
  lemma ProgressAtHundred()
    ensures ProgressAsWritten(Milestones, 100) == NaN
    ensures ProgressAsWritten(Milestones, 101) == Finite(100.0)
  {
    MilestonesShape();
    ProgressNaNAtLastDay(Milestones);
    ProgressMatchesSourceOffLastDay(Milestones, 101);
    ProgressFullIff(Milestones, 101);
  }

  /** The worked values of the next milestone for the concrete table. */
  lemma NextMilestoneExamples()
    ensures NextMilestone(Milestones, 0).day == 7
    ensures NextMilestone(Milestones, 7).day == 30
    ensures NextMilestone(Milestones, 100).day == 100
    ensures NextMilestone(Milestones, 150).day == 100
  {
    MilestonesShape();
    var t := Milestones;
    assert t[0].day == 7 && t[1].day == 30 && t[2].day == 100;
  }

  /** The worked values of the previous threshold for the concrete table. */
  lemma PrevMilestoneDayExamples()
    ensures PrevMilestoneDay(Milestones, 0) == 0
    ensures PrevMilestoneDay(Milestones, 6) == 0
    ensures PrevMilestoneDay(Milestones, 7) == 7
    ensures PrevMilestoneDay(Milestones, 99) == 30
    ensures PrevMilestoneDay(Milestones, 100) == 100
  {
    MilestonesShape();
    var t := Milestones;
    assert t[0].day == 7 && t[1].day == 30 && t[2].day == 100;
  }

  /** The worked values of the progress bar for the concrete table. */
  lemma ProgressExamples()
    ensures Progress(Milestones, 0) == 0.0
    ensures Progress(Milestones, 7) == 0.0
    ensures Progress(Milestones, 500) == 100.0
  {
    MilestonesShape();
    var t := Milestones;
    assert t[0].day == 7 && t[1].day == 30 && t[2].day == 100;
    ProgressZeroAtThreshold(t, 0);
    ProgressZeroAtThreshold(t, 7);
    ProgressFullIff(t, 500);
  }
}
