/** The badge of components/BadgeDisplay.tsx. Its tier ladder hard-codes the
    thresholds 100, 30 and 7 instead of reading the milestone table; the
    lemmas here show that it agrees with the table and with the tracker. */
module BadgeDisplay {
  import opened Constants
  import StreakTracker
  import RewardGallery

  /** The four badges, lowest first. */
  datatype Tier = Novice | Bronze | Silver | Gold

  function Rank(t: Tier): (r: nat)
    ensures r <= 3
  {
    match t
    case Novice => 0
    case Bronze => 1
    case Silver => 2
    case Gold => 3
  }

  function TierOfRank(n: nat): (t: Tier)
    requires n <= 3
    ensures Rank(t) == n
  {
    if n == 0 then Novice else if n == 1 then Bronze else if n == 2 then Silver else Gold
  }

  /** The reference tier, read off the table: one step above Novice per
      unlocked milestone. */
  function TierAt(streak: nat): Tier {
    TierOfRank(RewardGallery.UnlockedCount(Milestones, streak))
  }

  /** What the badge shows: icon, title and style class. */
  datatype Badge = Badge(icon: string, title: string, badgeClass: string)

  function Look(t: Tier): Badge {
    match t
    case Novice => Badge("🛡️", "Novice Badge", "bg-gray-100 text-gray-400")
    case Bronze => Badge("🥉", "Special Bronze", "bg-orange-100 text-orange-600 border-orange-300")
    case Silver => Badge("🥈", "Rare Silver", "bg-slate-100 text-slate-600 border-slate-300")
    case Gold => Badge("🥇", "Legendary Gold", "bg-yellow-100 text-yellow-600 border-yellow-300")
  }

  /** The tier selection: three locals start at the Novice badge and the
      first matching branch of the ladder overwrites them. The badge shown is
      that of the table tier. */
  method SelectBadge(streak: nat) returns (badgeIcon: string, badgeTitle: string, badgeClass: string)
    ensures Badge(badgeIcon, badgeTitle, badgeClass) == Look(TierAt(streak))
  {
    badgeIcon := "🛡️";
    badgeTitle := "Novice Badge";
    badgeClass := "bg-gray-100 text-gray-400";

    if streak >= 100 {
      badgeIcon := "🥇";
      badgeTitle := "Legendary Gold";
      badgeClass := "bg-yellow-100 text-yellow-600 border-yellow-300";
    } else if streak >= 30 {
      badgeIcon := "🥈";
      badgeTitle := "Rare Silver";
      badgeClass := "bg-slate-100 text-slate-600 border-slate-300";
    } else if streak >= 7 {
      badgeIcon := "🥉";
      badgeTitle := "Special Bronze";
      badgeClass := "bg-orange-100 text-orange-600 border-orange-300";
    }
    RewardGallery.UnlockedCountOfTable(streak);
  }

  /** The ladder picks exactly one tier, by the thresholds it hard-codes. */
  lemma TierLadder(streak: nat)
    ensures TierAt(streak) == (if streak >= 100 then Gold
                               else if streak >= 30 then Silver
                               else if streak >= 7 then Bronze
                               else Novice)
  {
    RewardGallery.UnlockedCountOfTable(streak);
  }

  /** The hard-coded thresholds are the table's days: a tier of rank r > 0
      is shown exactly when the r-th milestone is reached and the next one
      (if any) is not. */
  lemma TierMatchesTable(streak: nat)
    ensures var t, r := Milestones, Rank(TierAt(streak));
      && (r == 0 <==> streak < t[0].day)
      && (r > 0 ==> t[r - 1].day <= streak)
      && (r < |t| ==> streak < t[r].day)
  {
    MilestonesShape();
    RewardGallery.UnlockedIsPrefix(Milestones, streak);
  }

  /** A longer streak never shows a lower badge. */
  lemma TierMonotone(s1: nat, s2: nat)
    requires s1 <= s2
    ensures Rank(TierAt(s1)) <= Rank(TierAt(s2))
  {
    RewardGallery.UnlockedCountMonotone(Milestones, s1, s2);
  }

  /** The "Unlocked at" number under the badge. */
  function UnlockedAtDay(streak: nat): (d: nat)
    ensures d <= streak
    ensures d == 0 <==> TierAt(streak) == Novice
  {
    RewardGallery.UnlockedCountOfTable(streak);
    if streak >= 100 then 100 else if streak >= 30 then 30 else if streak >= 7 then 7 else 0
  }

  /** The "Unlocked at" number is the tracker's previous threshold. */
  lemma UnlockedAtIsPrevMilestoneDay(streak: nat)
    ensures UnlockedAtDay(streak) == StreakTracker.PrevMilestoneDay(Milestones, streak)
  {
    MilestonesShape();
    var t := Milestones;
    assert t[0].day == 7 && t[1].day == 30 && t[2].day == 100;
    var d := StreakTracker.PrevMilestoneDay(t, streak);
    if d != 0 {
      assert d in Days(t);
    }
  }
}
