/** The reward vault of components/RewardGallery.tsx: which milestones are
    unlocked, how many, and the flags each card is drawn with. */
module RewardGallery {
  import opened Constants

  /** `isUnlocked`: the streak has reached the milestone's day. */
  predicate IsUnlocked(streak: nat, m: Milestone) {
    streak >= m.day
  }

  /** `isJustUnlocked`: the streak sits exactly on the milestone's day. A
      just-unlocked milestone is unlocked. */
  function IsJustUnlocked(streak: nat, m: Milestone): (b: bool)
    ensures b ==> IsUnlocked(streak, m)
  {
    streak == m.day
  }

  /** Once unlocked, a milestone stays unlocked as the streak grows. */
  lemma UnlockedStaysUnlocked(m: Milestone, s1: nat, s2: nat)
    requires s1 <= s2 && IsUnlocked(s1, m)
    ensures IsUnlocked(s2, m)
  {
  }

  /** A milestone is just unlocked exactly on the day it turns from locked
      to unlocked. */
  lemma JustUnlockedIsCrossing(m: Milestone, streak: nat)
    requires streak > 0
    ensures IsJustUnlocked(streak, m) <==> IsUnlocked(streak, m) && !IsUnlocked(streak - 1, m)
  {
  }

  /** `MILESTONES.filter(m => currentStreak >= m.day)`: the unlocked
      entries, in table order. */
  function Unlocked(ms: seq<Milestone>, streak: nat): (u: seq<Milestone>)
    ensures |u| <= |ms|
    ensures forall m :: m in u ==> m in ms && IsUnlocked(streak, m)
    ensures forall i :: 0 <= i < |ms| && IsUnlocked(streak, ms[i]) ==> ms[i] in u
    decreases |ms|
  {
    if ms == [] then []
    else (if IsUnlocked(streak, ms[0]) then [ms[0]] else []) + Unlocked(ms[1..], streak)
  }

  /** `unlockedCount`, the length of the filtered table. */
  function UnlockedCount(ms: seq<Milestone>, streak: nat): (n: nat)
    ensures n <= |ms|
  {
    |Unlocked(ms, streak)|
  }

  /** On an ascending table the unlocked entries are exactly the first
      `UnlockedCount` entries: an entry is unlocked if and only if its index
      is below the count. */
  lemma {:induction false} UnlockedIsPrefix(ms: seq<Milestone>, streak: nat)
    requires StrictlyAscending(ms)
    ensures Unlocked(ms, streak) == ms[..UnlockedCount(ms, streak)]
    ensures forall i :: 0 <= i < |ms| ==>
      (i < UnlockedCount(ms, streak) <==> IsUnlocked(streak, ms[i]))
  {
    if ms != [] {
      var rest := ms[1..];
      TailAscending(ms);
      UnlockedIsPrefix(rest, streak);
      if IsUnlocked(streak, ms[0]) {
        UnlockedHead(ms, streak);
      } else {
        NothingUnlockedPastLockedHead(ms, streak);
      }
    }
  }

  lemma TailAscending(ms: seq<Milestone>)
    requires StrictlyAscending(ms) && ms != []
    ensures StrictlyAscending(ms[1..])
  {
    var rest := ms[1..];
    forall i, j | 0 <= i < j < |rest| ensures rest[i].day < rest[j].day {
      assert rest[i] == ms[i + 1] && rest[j] == ms[j + 1];
    }
  }

  /** The step of UnlockedIsPrefix when the head is unlocked. */
  lemma UnlockedHead(ms: seq<Milestone>, streak: nat)
    requires ms != [] && IsUnlocked(streak, ms[0])
    requires Unlocked(ms[1..], streak) == ms[1..][..UnlockedCount(ms[1..], streak)]
    requires forall i :: 0 <= i < |ms| - 1 ==>
      (i < UnlockedCount(ms[1..], streak) <==> IsUnlocked(streak, ms[1..][i]))
    ensures Unlocked(ms, streak) == ms[..UnlockedCount(ms, streak)]
    ensures forall i :: 0 <= i < |ms| ==>
      (i < UnlockedCount(ms, streak) <==> IsUnlocked(streak, ms[i]))
  {
    var rest := ms[1..];
    var c := UnlockedCount(rest, streak);
    assert Unlocked(ms, streak) == [ms[0]] + Unlocked(rest, streak);
    assert UnlockedCount(ms, streak) == c + 1;
    ConsPrefix(ms, c);
    forall i | 0 <= i < |ms|
      ensures i < c + 1 <==> IsUnlocked(streak, ms[i])
    {
      if i > 0 {
        assert ms[i] == rest[i - 1];
        assert i - 1 < c <==> IsUnlocked(streak, rest[i - 1]);
      }
    }
  }

  lemma ConsPrefix(ms: seq<Milestone>, c: nat)
    requires c < |ms|
    ensures ms[..c + 1] == [ms[0]] + ms[1..][..c]
  {
    forall k | 0 <= k < c + 1 ensures ms[..c + 1][k] == ([ms[0]] + ms[1..][..c])[k] {
      if k > 0 { assert ms[k] == ms[1..][k - 1]; }
    }
  }

  /** The step of UnlockedIsPrefix when the head is locked: on an ascending
      table every later entry is locked too. */
  lemma NothingUnlockedPastLockedHead(ms: seq<Milestone>, streak: nat)
    requires StrictlyAscending(ms)
    requires ms != [] && !IsUnlocked(streak, ms[0])
    requires Unlocked(ms[1..], streak) == ms[1..][..UnlockedCount(ms[1..], streak)]
    ensures Unlocked(ms, streak) == []
    ensures forall i :: 0 <= i < |ms| ==> !IsUnlocked(streak, ms[i])
  {
    var rest := ms[1..];
    forall i | 0 <= i < |ms|
      ensures !IsUnlocked(streak, ms[i])
    {
      if i > 0 { assert ms[0].day < ms[i].day; }
    }
    if UnlockedCount(rest, streak) > 0 {
      assert false;
    }
  }

  /** A longer streak never unlocks fewer milestones. */
  lemma {:induction false} UnlockedCountMonotone(ms: seq<Milestone>, s1: nat, s2: nat)
    requires s1 <= s2
    ensures UnlockedCount(ms, s1) <= UnlockedCount(ms, s2)
  {
    if ms != [] {
      UnlockedCountMonotone(ms[1..], s1, s2);
    }
  }

  /** `delayClass`: the staggered animation delay of the card at `index`. */
  function DelayClass(index: nat): (c: string)
    ensures index == 0 <==> c == "delay-100"
    ensures index == 1 <==> c == "delay-200"
    ensures index >= 2 <==> c == "delay-300"
  {
    if index == 0 then "delay-100" else if index == 1 then "delay-200" else "delay-300"
  }

  /** What one card of the grid is drawn with. */
  datatype Card = Card(
    milestone: Milestone,
    unlocked: bool,
    justUnlocked: bool,
    delayClass: string,
    highlighted: bool,   // the `scale-105 ring-4` style of the unlocked branch
    showsLock: bool,     // the "Locked" overlay
    showsShimmer: bool)  // the shimmer of unlocked cards

  /** The card `MILESTONES.map` draws for entry `index`. */
  function CardAt(ms: seq<Milestone>, streak: nat, index: nat): Card
    requires index < |ms|
  {
    var m := ms[index];
    var isUnlocked := IsUnlocked(streak, m);
    var isJustUnlocked := IsJustUnlocked(streak, m);
    Card(m, isUnlocked, isJustUnlocked, DelayClass(index),
         isUnlocked && isJustUnlocked, !isUnlocked, isUnlocked)
  }

  /** The whole grid, one card per table entry, in table order. */
  function Cards(ms: seq<Milestone>, streak: nat): (cs: seq<Card>)
    ensures |cs| == |ms|
    ensures forall i :: 0 <= i < |cs| ==> cs[i].milestone == ms[i]
    ensures forall i :: 0 <= i < |cs| ==>
      && cs[i].unlocked == IsUnlocked(streak, ms[i])
      && cs[i].justUnlocked == IsJustUnlocked(streak, ms[i])
      && cs[i].delayClass == DelayClass(i)
    ensures forall i :: 0 <= i < |cs| ==> cs[i].justUnlocked ==> cs[i].unlocked
    ensures forall i :: 0 <= i < |cs| ==> (cs[i].showsLock <==> !cs[i].unlocked)
    ensures forall i :: 0 <= i < |cs| ==> (cs[i].showsShimmer <==> cs[i].unlocked)
    ensures forall i :: 0 <= i < |cs| ==> (cs[i].highlighted <==> cs[i].justUnlocked)
  {
    seq(|ms|, i requires 0 <= i < |ms| => CardAt(ms, streak, i))
  }

  /** On an ascending table the unlocked cards are the first
      `unlockedCount` cards of the grid. */
  lemma UnlockedCardsArePrefix(ms: seq<Milestone>, streak: nat)
    requires StrictlyAscending(ms)
    ensures forall i :: 0 <= i < |ms| ==>
      (Cards(ms, streak)[i].unlocked <==> i < UnlockedCount(ms, streak))
  {
    UnlockedIsPrefix(ms, streak);
  }

  /** With distinct days at most one card is drawn as just unlocked. */
  lemma AtMostOneJustUnlocked(ms: seq<Milestone>, streak: nat, i: nat, j: nat)
    requires ValidTable(ms)
    requires i < |ms| && j < |ms|
    requires Cards(ms, streak)[i].justUnlocked && Cards(ms, streak)[j].justUnlocked
    ensures i == j
  {
    DaysDistinct(ms, i, j);
  }

  /** Counts on the concrete table at each side of each threshold. */
  lemma UnlockedCountOfTable(streak: nat)
    ensures UnlockedCount(Milestones, streak)
      == if streak >= 100 then 3 else if streak >= 30 then 2 else if streak >= 7 then 1 else 0
  {
    MilestonesShape();
    var t := Milestones;
    assert t[0].day == 7 && t[1].day == 30 && t[2].day == 100;
    UnlockedIsPrefix(t, streak);
    var c := UnlockedCount(t, streak);
    if streak >= 100 {
      assert c > 2;
    } else if streak >= 30 {
      assert c > 1 && !(c > 2);
    } else if streak >= 7 {
      assert c > 0 && !(c > 1);
    } else {
      assert !(c > 0);
    }
  }
}
