/** The composition root of App.tsx: the streak read from the contract, the
    check-in (mint) button, the confirmation handler and its celebration, the
    view switch and the footer. Wallet, contract and receipt hooks are inputs
    here; audio, confetti, the contract write and the refetch are recorded as
    emitted effects. */
module App {
  import opened Wrappers
  import opened Constants
  import StreakTracker
  import RewardGallery

  /** `ViewState`. */
  datatype View = Home | Rewards

  /** What the main area shows. */
  datatype Screen = Landing | Dashboard | Gallery

  /** The fire-and-forget side effects the component triggers. */
  datatype Effect =
    | PlayClick       // the click sound
    | PlaySuccess     // the success sound
    | PlayUnlocked    // the unlocked sound
    | RefetchStreak   // re-read `streakCount` from the contract
    | Confetti        // `window.confetti`
    | WriteCheckIn    // the `checkIn` contract write

  /** The celebration banner. */
  datatype Celebration = Celebration(title: string, msg: string)

  /** How long the banner stays up, in milliseconds. */
  const ClearDelayMs: nat := 6000

  /** `streak`: the value read from the contract, or 0 while nothing has been
      read. A read of zero is falsy in the source and also gives 0. */
  function StreakFromRead(data: Option<nat>): (s: nat)
    ensures s == 0 <==> (data == None || data == Some(0))
    ensures data.Some? ==> s == data.value
  {
    match data
    case None => 0
    case Some(n) => n
  }

  /** Some entry of the table sits exactly at the streak. */
  ghost predicate HasMilestoneAt(ms: seq<Milestone>, streak: nat) {
    exists i :: 0 <= i < |ms| && ms[i].day == streak
  }

  /** `MILESTONES.find(m => m.day === streak)`: the milestone whose day is
      exactly the streak, if any. */
  function MilestoneHit(ms: seq<Milestone>, streak: nat): (r: Option<Milestone>)
    ensures r.Some? <==> HasMilestoneAt(ms, streak)
    ensures r.Some? ==> r.value in ms && r.value.day == streak
    decreases |ms|
  {
    if ms == [] then None
    else if ms[0].day == streak then Some(ms[0])
    else MilestoneHit(ms[1..], streak)
  }

  /** The banner for a milestone that was just reached. */
  function CelebrationFor(m: Milestone): (c: Celebration)
    ensures c.title == "LEVEL UP!"
    ensures |c.msg| == 10 + |m.name| + |m.emoji|
    ensures c.msg[..9] == "Unlocked "
    ensures c.msg[9..9 + |m.name|] == m.name && c.msg[9 + |m.name|] == ' '
    ensures c.msg[10 + |m.name|..] == m.emoji
  {
    Celebration("LEVEL UP!", "Unlocked " + m.name + " " + m.emoji)
  }

  /** The banner the confirmation handler sets, if it sets one: only on a
      confirmed check-in whose streak is exactly a milestone's day. */
  function CelebrationOnConfirm(isConfirmed: bool, ms: seq<Milestone>, streak: nat): (c: Option<Celebration>)
    ensures c.Some? <==> isConfirmed && HasMilestoneAt(ms, streak)
    ensures c.Some? ==> exists i :: 0 <= i < |ms| && ms[i].day == streak && c.value == CelebrationFor(ms[i])
  {
    if !isConfirmed then None
    else match MilestoneHit(ms, streak)
      case None => None
      case Some(m) => Some(CelebrationFor(m))
  }

  /** The effects the confirmation handler fires, in order. The success
      sound, the refetch and the confetti fire on every confirmation; the
      unlocked sound fires exactly when the streak equals a milestone's day. */
  function ConfirmationEffects(isConfirmed: bool, ms: seq<Milestone>, streak: nat): (e: seq<Effect>)
    ensures !isConfirmed ==> e == []
    ensures isConfirmed ==> |e| >= 3 && e[..2] == [PlaySuccess, RefetchStreak] && e[|e| - 1] == Confetti
    ensures isConfirmed ==> |e| == (if HasMilestoneAt(ms, streak) then 4 else 3)
    ensures isConfirmed && HasMilestoneAt(ms, streak) ==> e[2] == PlayUnlocked
    ensures PlayUnlocked in e <==> isConfirmed && HasMilestoneAt(ms, streak)
    ensures WriteCheckIn !in e && PlayClick !in e
  {
    if !isConfirmed then []
    else
      [PlaySuccess, RefetchStreak] +
      (if MilestoneHit(ms, streak).Some? then [PlayUnlocked, Confetti] else [Confetti])
  }

  /** The effects of `handleMint`: the click sound always, the `checkIn`
      write only with a connected wallet and an address. */
  function MintEffects(isConnected: bool, address: Option<string>): (e: seq<Effect>)
    ensures |e| >= 1 && e[0] == PlayClick
    ensures |e| == (if isConnected && address.Some? then 2 else 1)
    ensures WriteCheckIn in e <==> isConnected && address.Some?
  {
    [PlayClick] + (if !isConnected || address.None? then [] else [WriteCheckIn])
  }

  /** A footer chip is lit exactly when the gallery shows that milestone
      unlocked. */
  function FooterChipActive(streak: nat, m: Milestone): (active: bool)
    ensures active <==> RewardGallery.IsUnlocked(streak, m)
  {
    streak >= m.day
  }

  /** A `>=` test is not what fires the celebration: one day past a
      milestone nothing is unlocked anew. */
  lemma NoCelebrationPastThreshold()
    ensures PlayUnlocked !in ConfirmationEffects(true, Milestones, 31)
    ensures CelebrationOnConfirm(true, Milestones, 31) == None
  {
    MilestonesShape();
    var t := Milestones;
    assert t[0].day == 7 && t[1].day == 30 && t[2].day == 100;
  }

  /** Reaching the second milestone exactly names it in the banner. */
  lemma CelebrationAtThirty()
    ensures CelebrationOnConfirm(true, Milestones, 30)
      == Some(Celebration("LEVEL UP!", "Unlocked Silver Sentinel 🥈"))
  {
    MilestonesShape();
    var t := Milestones;
    var m := t[1];
    assert t[0].day == 7 && m.day == 30;
    assert m.name == "Silver Sentinel" && m.emoji == "🥈";
    assert "Unlocked " + m.name + " " + m.emoji == "Unlocked Silver Sentinel 🥈";
    assert MilestoneHit(t, 30) == Some(m);
  }

  /** On a valid table the number of unlocked milestones is the position
      where the tracker's next-milestone scan stops. */
  lemma UnlockedCountIsNextIndex(ms: seq<Milestone>, streak: nat)
    requires ValidTable(ms)
    ensures RewardGallery.UnlockedCount(ms, streak) == StreakTracker.FindAbove(ms, streak)
  {
    RewardGallery.UnlockedIsPrefix(ms, streak);
    var c := RewardGallery.UnlockedCount(ms, streak);
    var k := StreakTracker.FindAbove(ms, streak);
    assert k < |ms| ==> ms[k].day > streak;
    assert c < |ms| ==> !RewardGallery.IsUnlocked(streak, ms[c]);
  }

  /** What the gallery counts and what the tracker shows agree: the next
      milestone is the first locked one, and the previous threshold is the
      day of the last unlocked one. */
  lemma GalleryAgreesWithTracker(ms: seq<Milestone>, streak: nat)
    requires ValidTable(ms)
    ensures var c := RewardGallery.UnlockedCount(ms, streak);
      && (c < |ms| ==> StreakTracker.NextMilestone(ms, streak) == ms[c])
      && StreakTracker.PrevMilestoneDay(ms, streak) == (if c == 0 then 0 else ms[c - 1].day)
  {
    UnlockedCountIsNextIndex(ms, streak);
    RewardGallery.UnlockedIsPrefix(ms, streak);
    var c := RewardGallery.UnlockedCount(ms, streak);
    var d := StreakTracker.PrevMilestoneDay(ms, streak);
    if c > 0 {
      assert ms[c - 1].day <= d;
      assert d in Days(ms);
    }
  }

  /** The state App.tsx keeps between renders, with the hooks' results
      (wallet connection, the streak read) as plain fields. */
  class AppState {
    const milestones: seq<Milestone>  // the imported `MILESTONES`
    var isConnected: bool
    var address: Option<string>
    var streakData: Option<nat>
    var activeView: View
    var celebration: Option<Celebration>
    var celebrationAge: nat      // milliseconds since the banner was set
    var effects: seq<Effect>     // every effect fired so far, in order

    /** A banner is up for less than the clear delay; without one the age is 0. */
    ghost predicate Valid()
      reads this
    {
      && (celebration.None? ==> celebrationAge == 0)
      && celebrationAge < ClearDelayMs
    }

    function Streak(): nat
      reads this
    {
      StreakFromRead(streakData)
    }

    /** The footer chips, one per milestone: lit exactly where the reward
      gallery draws that milestone's card unlocked. */
    function FooterChips(): (chips: seq<bool>)
      reads this
      ensures |chips| == |milestones|
      ensures forall i :: 0 <= i < |chips| ==>
        chips[i] == RewardGallery.Cards(milestones, Streak())[i].unlocked
    {
      seq(|milestones|, i requires 0 <= i < |milestones| reads this =>
        FooterChipActive(Streak(), milestones[i]))
    }

    /** The navigation is rendered only with a connected wallet. */
    predicate NavShown()
      reads this
    {
      isConnected
    }

    function CurrentScreen(): (s: Screen)
      reads this
      ensures s == Landing <==> !isConnected
      ensures s == Gallery <==> isConnected && activeView == Rewards
    {
      if !isConnected then Landing
      else match activeView
        case Home => Dashboard
        case Rewards => Gallery
    }

    /** First render: disconnected, nothing read, the home view, no banner. */
    constructor ()
      ensures Valid()
      ensures !isConnected && address == None && streakData == None
      ensures activeView == Home && celebration == None && effects == []
      ensures Streak() == 0
      ensures milestones == Milestones
    {
      milestones := Milestones;
      isConnected := false;
      address := None;
      streakData := None;
      activeView := Home;
      celebration := None;
      celebrationAge := 0;
      effects := [];
    }

    /** `useAccount` reports a new connection state. */
    method AccountChanged(connected: bool, addr: Option<string>)
      modifies this`isConnected, this`address
      ensures isConnected == connected && address == addr
    {
      isConnected := connected;
      address := addr;
    }

    /** `useReadContract` delivers a new `streakCount`. */
    method StreakRead(data: Option<nat>)
      modifies this`streakData
      ensures streakData == data
      ensures Streak() == StreakFromRead(data)
    {
      streakData := data;
    }

    /** `handleMint`: click sound, then the `checkIn` write unless the wallet
      is disconnected or has no address. */
    method HandleMint()
      modifies this`effects
      ensures effects == old(effects) + MintEffects(isConnected, address)
    {
      effects := effects + [PlayClick];
      if !isConnected || address.None? {
        return;
      }
      effects := effects + [WriteCheckIn];
    }

    /** A navigation button: click sound, then exactly its view. */
    method Navigate(v: View)
      requires NavShown()
      modifies this`effects, this`activeView
      ensures activeView == v
      ensures effects == old(effects) + [PlayClick]
      ensures CurrentScreen() == if v == Home then Dashboard else Gallery
    {
      effects := effects + [PlayClick];
      activeView := v;
    }

    /** The confirmation effect, run with the receipt hook's `isSuccess` and
      the streak currently read. A hit sets a fresh banner, which restarts
      the clear timer. */
    method OnConfirmation(isConfirmed: bool)
      requires Valid()
      modifies this`effects, this`celebration, this`celebrationAge
      ensures Valid()
      ensures effects == old(effects) + ConfirmationEffects(isConfirmed, milestones, Streak())
      ensures celebration == match CelebrationOnConfirm(isConfirmed, milestones, Streak())
                             case Some(c) => Some(c)
                             case None => old(celebration)
      ensures CelebrationOnConfirm(isConfirmed, milestones, Streak()).Some? ==> celebrationAge == 0
      ensures CelebrationOnConfirm(isConfirmed, milestones, Streak()).None? ==>
        celebrationAge == old(celebrationAge)
    {
      if isConfirmed {
        effects := effects + [PlaySuccess];
        effects := effects + [RefetchStreak];
        var hit := MilestoneHit(milestones, Streak());
        if hit.Some? {
          celebration := Some(CelebrationFor(hit.value));
          celebrationAge := 0;
          effects := effects + [PlayUnlocked];
          effects := effects + [Confetti];
          assert effects == old(effects) + [PlaySuccess, RefetchStreak, PlayUnlocked, Confetti];
        } else {
          effects := effects + [Confetti];
          assert effects == old(effects) + [PlaySuccess, RefetchStreak, Confetti];
        }
      }
    }

    /** `elapsedMs` milliseconds pass: a banner that has been up for the
      clear delay is cleared, an earlier one stays. */
    method CelebrationTimer(elapsedMs: nat)
      requires Valid()
      modifies this`celebration, this`celebrationAge
      ensures Valid()
      ensures old(celebration) == None ==> celebration == None
      ensures old(celebration) != None ==>
        (celebration == None <==> old(celebrationAge) + elapsedMs >= ClearDelayMs)
      ensures celebration != None ==>
        celebration == old(celebration) && celebrationAge == old(celebrationAge) + elapsedMs
    {
      if celebration.Some? {
        if celebrationAge + elapsedMs >= ClearDelayMs {
          celebration := None;
          celebrationAge := 0;
        } else {
          celebrationAge := celebrationAge + elapsedMs;
        }
      }
    }
  }
}
