/** The milestone record and the static milestone table of constants.ts.
    The contract address, the ABI and the sound URLs are configuration for
    foreign calls and are not part of this model. */
module Constants {

  /** The four values of the `rarity` union type. */
  datatype Rarity = Common | Rare | Legendary | Epic

  /** One entry of the milestone table: the streak length (in days) that
      unlocks it and what the display shows for it. */
  datatype Milestone = Milestone(
    day: nat,
    name: string,  // the `label` field
    emoji: string,
    color: string,
    description: string,
    perks: seq<string>,
    rarity: Rarity)

  /** The days of a table, in table order. */
  function Days(ms: seq<Milestone>): (ds: seq<nat>)
    ensures |ds| == |ms|
    ensures forall i :: 0 <= i < |ms| ==> ds[i] == ms[i].day
  {
    seq(|ms|, i requires 0 <= i < |ms| => ms[i].day)
  }

  /** Days ascend strictly along the table. */
  ghost predicate StrictlyAscending(ms: seq<Milestone>) {
    forall i, j :: 0 <= i < j < |ms| ==> ms[i].day < ms[j].day
  }

  /** What the milestone engine expects of its table: at least one entry,
      every day positive, days strictly ascending. */
  ghost predicate ValidTable(ms: seq<Milestone>) {
    && |ms| > 0
    && (forall i :: 0 <= i < |ms| ==> ms[i].day > 0)
    && StrictlyAscending(ms)
  }

  /** The last (highest) entry of a non-empty table. */
  function Last(ms: seq<Milestone>): Milestone
    requires |ms| > 0
  {
    ms[|ms| - 1]
  }

  /** The `MILESTONES` table. */
  const Milestones: seq<Milestone> :=
    [ Milestone(
        7, "Bronze Pathfinder", "🥉", "from-orange-400 to-orange-700",
        "You have shown consistency. You are now a Pathfinder of the Base ecosystem.",
        ["Exclusive Discord Role", "1.1x Streak Multiplier (Visual)", "Early Access to Tier 2"],
        Common),
      Milestone(
        30, "Silver Sentinel", "🥈", "from-slate-300 to-slate-500",
        "A full month of dedication. Your presence is etched into the block history.",
        ["Priority Minting", "1.5x Streak Multiplier (Visual)", "Sentinel Badge NFT Metadata"],
        Rare),
      Milestone(
        100, "Gold Sovereign", "🥇", "from-yellow-300 to-yellow-600",
        "Centurion of Base. You are among the elite 1% of daily active users.",
        ["Governance Voting Rights", "2.0x Streak Multiplier (Visual)", "Legendary Physical Merch Eligibility"],
        Legendary)
    ]

  /** The shape of the table: three entries at days 7, 30 and 100, so a
      valid engine table, each with three perks, and no entry uses the
      declared rarity `Epic`. */
  lemma MilestonesShape()
    ensures |Milestones| == 3
    ensures Days(Milestones) == [7, 30, 100]
    ensures ValidTable(Milestones)
    ensures forall i :: 0 <= i < |Milestones| ==> |Milestones[i].perks| == 3
    ensures forall i :: 0 <= i < |Milestones| ==> Milestones[i].rarity != Epic
  {
  }

  /** Distinct days: at most one entry of a valid table sits at any given day. */
  lemma DaysDistinct(ms: seq<Milestone>, i: nat, j: nat)
    requires ValidTable(ms)
    requires i < |ms| && j < |ms|
    requires ms[i].day == ms[j].day
    ensures i == j
  {
  }

  /** No threshold of a valid table is reached by a streak of zero. */
  lemma NothingUnlockedAtZero(ms: seq<Milestone>)
    requires ValidTable(ms)
    ensures forall i :: 0 <= i < |ms| ==> !(ms[i].day <= 0)
  {
  }

  /** In a valid table the last entry holds the largest day. */
  lemma LastIsLargest(ms: seq<Milestone>, i: nat)
    requires ValidTable(ms)
    requires i < |ms|
    ensures ms[i].day <= Last(ms).day
  {
    if i < |ms| - 1 {
      assert ms[i].day < ms[|ms| - 1].day;
    }
  }
}
