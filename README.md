# Streak milestone engine — a Dafny model

This project models the display logic of a daily check-in dApp front end. A
wallet reads one integer, the streak, from a contract. The front end then
derives everything it shows from that integer and a static table of
milestones at 7, 30 and 100 days:

- the next milestone and the threshold already passed;
- the progress bar between them;
- the badge tier and its "Unlocked at" day;
- which reward cards are unlocked, and how many;
- what happens when a check-in transaction is confirmed (sounds, confetti,
  a refetch, and a "LEVEL UP!" banner on reaching a milestone exactly);
- the small state of the page: the view, the mint guard and the banner timer.

The engine is written once over any table that is non-empty, has positive
days and ascends strictly (`Constants.ValidTable`). It is then instantiated
with the concrete table.

Modules follow the source files:

| module | source | form |
|---|---|---|
| `Constants` | constants.ts | the `Milestone` record, the `Milestones` table, table facts |
| `StreakTracker` | components/StreakTracker.tsx | functions and lemmas |
| `JsNumber` | (JavaScript `/`, `Math.max`, `Math.min`) | the special values NaN and ±Infinity |
| `RewardGallery` | components/RewardGallery.tsx | functions and lemmas |
| `BadgeDisplay` | components/BadgeDisplay.tsx | the tier ladder as a method over three locals; the "Unlocked at" expression as a function |
| `App` | App.tsx | pure helpers plus class `AppState`, whose methods update the page state and append the effects they fire to an effect log |
| `Wrappers` | — | `Option` |

Three behaviours of the code are worth knowing before reading the model:

- Progress is NaN at exactly the last milestone day and 100 after it: the
  code divides 0 by 0 on that day (see Findings). The model's `Progress`
  guards the division and gives 100 from the last day on.
- The badge hard-codes the thresholds 100/30/7 instead of reading the table.
  `BadgeDisplay.TierMatchesTable` proves they are the table's days.
- Neither the streak nor the table is validated: the streak is a `uint256`
  read and the table a fixed constant. The model takes the streak as a
  `nat` and requires a valid table.

## Model

| member | source | states |
|---|---|---|
| `Constants.MilestonesShape` | constants.ts:42-70 | the table has three entries at days 7, 30, 100 (strictly ascending, all positive), each with three perks, and none uses the declared rarity `Epic` |
| `Constants.DaysDistinct` | constants.ts:44-62 | in a valid table two entries with the same day are the same entry |
| `Constants.NothingUnlockedAtZero` | constants.ts:44-62 | no threshold of a valid table is reached by a streak of 0 |
| `Constants.LastIsLargest` | constants.ts:42-70 | the last entry of a valid table has the largest day |
| `StreakTracker.FindAbove` | components/StreakTracker.tsx:11 | the `find` scan stops at the first index whose day exceeds the streak; every earlier day is at most the streak |
| `StreakTracker.NextMilestone` | components/StreakTracker.tsx:10-12 | below the last day: an entry above the streak with every earlier entry at or below it; at or past the last day (valid table): the last entry |
| `StreakTracker.FindLastAtMost` | components/StreakTracker.tsx:16 | the reverse scan stops at the last index whose day is at most the streak, or finds none when every day exceeds it |
| `StreakTracker.PrevMilestoneDay` | components/StreakTracker.tsx:16 | at most the streak; 0 exactly when the streak is below the first day; otherwise a table day, and the largest one at or below the streak |
| `StreakTracker.PrevMilestoneDayMonotone` | components/StreakTracker.tsx:16 | the previous threshold never decreases as the streak grows |
| `StreakTracker.SpanPositiveBelowLast` | components/StreakTracker.tsx:14-20 | below the last day, prev ≤ streak < next.day; the denominator `next.day - prev` is 0 if and only if the streak is at or past the last day |
| `StreakTracker.ProgressAsWritten` | components/StreakTracker.tsx:18-21 | the source's value is NaN or a finite number in [0, 100]; it is never infinite |
| `StreakTracker.Progress` | components/StreakTracker.tsx:18-21 | the guarded progress lies in [0, 100] |
| `StreakTracker.Clamp` | components/StreakTracker.tsx:18-21 | `Math.min(100, Math.max(0, x))` lies in [0, 100]: 0 below the range, 100 above it, x itself inside it |
| `StreakTracker.ClampIsMinOfMax` | components/StreakTracker.tsx:18-21 | on a finite value the clamp equals `MinWith(100, MaxWith(0, x))`, the JavaScript evaluation |
| `StreakTracker.ProgressBelowLast` | components/StreakTracker.tsx:18-21 | below the last day the unclamped ratio is already in [0, 100), so the clamp changes nothing |
| `StreakTracker.ProgressFullIff` | components/StreakTracker.tsx:18-21 | the bar is full if and only if the streak is at or past the last day |
| `StreakTracker.ProgressZeroAtThreshold` | components/StreakTracker.tsx:18-21 | the bar is empty at a streak of 0 and at every milestone day except the last |
| `StreakTracker.NextMilestoneWithinSegment` | components/StreakTracker.tsx:10-16 | two streaks below the last day with the same previous threshold have the same next milestone |
| `StreakTracker.ProgressMonotoneWithinSegment` | components/StreakTracker.tsx:18-21 | between two milestones the bar never goes back as the streak grows |
| `StreakTracker.ProgressMatchesSourceOffLastDay` | components/StreakTracker.tsx:18-21 | on every streak except exactly the last day, the source's value is finite and equals the guarded progress (above the last day +Infinity clamps to 100) |
| `StreakTracker.ProgressNaNAtLastDay` | components/StreakTracker.tsx:20 | at exactly the last day the source computes 0/0, and the NaN passes through `Math.max` and `Math.min` |
| `StreakTracker.ProgressAtHundred` | components/StreakTracker.tsx:18-21 | on the concrete table the source's progress is NaN at streak 100 and 100 at streak 101 |
| `StreakTracker.NextMilestoneExamples` | components/StreakTracker.tsx:10-12 | next milestone of 0, 7, 100, 150 is day 7, 30, 100, 100 |
| `StreakTracker.PrevMilestoneDayExamples` | components/StreakTracker.tsx:16 | previous threshold of 0, 6, 7, 99, 100 is 0, 0, 7, 30, 100 |
| `StreakTracker.ProgressExamples` | components/StreakTracker.tsx:18-21 | progress at 0 and 7 is 0, at 500 it is 100 |
| `JsNumber.Divide` | components/StreakTracker.tsx:20 | a nonzero divisor gives the exact quotient; a zero divisor gives NaN for 0/0 and an infinity of the dividend's sign otherwise |
| `JsNumber.Times` | components/StreakTracker.tsx:20 | scaling by 100 keeps NaN and the infinities and scales a finite value |
| `JsNumber.MaxWith` | components/StreakTracker.tsx:20 | `Math.max(0, x)` is NaN exactly for NaN, +Infinity exactly for +Infinity, and otherwise a finite number that is at least 0 and at least x |
| `JsNumber.MinWith` | components/StreakTracker.tsx:18-21 | `Math.min(100, x)` is NaN exactly for NaN, -Infinity exactly for -Infinity, and otherwise a finite number that is at most 100 and at most x |
| `RewardGallery.Unlocked` | components/RewardGallery.tsx:11-14 | the filter keeps exactly the entries whose day is at most the streak; its length is at most the table's |
| `RewardGallery.UnlockedCount` | components/RewardGallery.tsx:11-14 | `unlockedCount` lies in [0, size of the table] |
| `RewardGallery.UnlockedIsPrefix` | components/RewardGallery.tsx:12 | on an ascending table the unlocked entries are the first `unlockedCount` entries: an entry is unlocked if and only if its index is below the count |
| `RewardGallery.UnlockedCountMonotone` | components/RewardGallery.tsx:11-14 | a longer streak never unlocks fewer milestones |
| `RewardGallery.UnlockedStaysUnlocked` | components/RewardGallery.tsx:32 | `isUnlocked` (`currentStreak >= milestone.day`) never turns back to locked as the streak grows |
| `RewardGallery.IsJustUnlocked` | components/RewardGallery.tsx:33 | `isJustUnlocked` implies `isUnlocked` |
| `RewardGallery.JustUnlockedIsCrossing` | components/RewardGallery.tsx:32-33 | for a positive streak a milestone is just unlocked exactly when it is unlocked and was locked one day earlier |
| `RewardGallery.DelayClass` | components/RewardGallery.tsx:36 | index 0 gives `delay-100`, index 1 gives `delay-200`, every other index gives `delay-300` |
| `RewardGallery.Cards` | components/RewardGallery.tsx:31-78 | one card per entry in table order, carrying that entry; card i is unlocked exactly when the streak has reached its day, just unlocked exactly when the streak equals its day, and has delay class `DelayClass(i)`; just-unlocked implies unlocked; the lock overlay shows if and only if the card is locked; the shimmer shows if and only if it is unlocked; the highlight ring shows if and only if it is just unlocked |
| `RewardGallery.UnlockedCardsArePrefix` | components/RewardGallery.tsx:32 | on an ascending table card i is unlocked if and only if i < `unlockedCount` |
| `RewardGallery.AtMostOneJustUnlocked` | components/RewardGallery.tsx:33 | with distinct days at most one card is just unlocked |
| `RewardGallery.UnlockedCountOfTable` | components/RewardGallery.tsx:11-14 | on the concrete table the count is 0, 1, 2, 3 below 7, from 7, from 30, from 100 |
| `BadgeDisplay.SelectBadge` | components/BadgeDisplay.tsx:9-25 | the three locals end as the icon, title and class of the tier whose rank is the number of unlocked table milestones |
| `BadgeDisplay.TierLadder` | components/BadgeDisplay.tsx:13-25 | exactly one tier: Gold from 100, else Silver from 30, else Bronze from 7, else Novice |
| `BadgeDisplay.TierMatchesTable` | components/BadgeDisplay.tsx:13-21 | the hard-coded thresholds are the table's days: rank r > 0 exactly when milestone r is reached and milestone r + 1 (if any) is not |
| `BadgeDisplay.TierMonotone` | components/BadgeDisplay.tsx:13-25 | a longer streak never shows a lower tier |
| `BadgeDisplay.UnlockedAtDay` | components/BadgeDisplay.tsx:33 | the "Unlocked at" day is at most the streak, and 0 exactly for the Novice badge |
| `BadgeDisplay.UnlockedAtIsPrevMilestoneDay` | components/BadgeDisplay.tsx:33 | for every streak the "Unlocked at" day equals the tracker's `prevMilestoneDay` |
| `App.StreakFromRead` | App.tsx:35 | the streak is 0 when the read is absent or zero, otherwise the value read |
| `App.MilestoneHit` | App.tsx:77 | finds a milestone if and only if some entry's day equals the streak exactly; what it finds is a table entry at that day |
| `App.CelebrationFor` | App.tsx:79-82 | the banner's title is "LEVEL UP!" and its message reads back as "Unlocked ", the label, a space and the emoji, with nothing else |
| `App.CelebrationOnConfirm` | App.tsx:77-82 | a banner is set if and only if the check-in is confirmed and some entry's day equals the streak; it is that entry's "LEVEL UP!" banner with its label and emoji |
| `App.ConfirmationEffects` | App.tsx:72-89 | nothing without confirmation; otherwise success sound and refetch first and confetti last; the unlocked sound if and only if a milestone's day equals the streak exactly, in third place; exactly four effects on a hit and three otherwise, so each fires once; never a click or a write |
| `App.MintEffects` | App.tsx:57-69 | the click sound always comes first; the `checkIn` write happens if and only if the wallet is connected and has an address; two effects then, one otherwise |
| `App.FooterChipActive` | App.tsx:240 | a footer chip is lit if and only if the gallery's `isUnlocked` holds for that milestone |
| `App.NoCelebrationPastThreshold` | App.tsx:77-84 | at streak 31 (past 30, not on it) no unlocked sound and no banner |
| `App.CelebrationAtThirty` | App.tsx:79-82 | at streak 30 the banner is "LEVEL UP!" / "Unlocked Silver Sentinel 🥈" |
| `App.UnlockedCountIsNextIndex` | components/RewardGallery.tsx:11-14 | on a valid table the gallery's `unlockedCount` is the index where the tracker's next-milestone scan stops |
| `App.GalleryAgreesWithTracker` | components/StreakTracker.tsx:10-16 | the tracker's next milestone is the first locked card, and its previous threshold is the day of the last unlocked card |
| `App.AppState.constructor` | App.tsx:17-35 | first render: disconnected, nothing read (streak 0), home view, no banner, no effects |
| `App.AppState.CurrentScreen` | App.tsx:147-222 | the landing screen if and only if disconnected; the gallery if and only if connected with the rewards view |
| `App.AppState.FooterChips` | App.tsx:239-243 | one chip per milestone, lit exactly where the gallery's card for the same streak is unlocked |
| `App.AppState.AccountChanged` | App.tsx:16 | the connection state and address become those reported |
| `App.AppState.StreakRead` | App.tsx:25-35 | a new read replaces the stored one and the streak follows it |
| `App.AppState.HandleMint` | App.tsx:57-69 | appends the click sound, then the `checkIn` write only when connected with an address |
| `App.AppState.Navigate` | App.tsx:130-143 | only callable while the navigation is rendered (connected); sets exactly the chosen view, plays the click, shows the dashboard or the gallery |
| `App.AppState.OnConfirmation` | App.tsx:72-89 | appends exactly `ConfirmationEffects` for the current streak; sets the banner named by the exact milestone hit and resets its age to 0 (the timer restarts even for an equal banner); otherwise leaves the banner and its age as they were |
| `App.AppState.CelebrationTimer` | App.tsx:92-97 | a banner is cleared once it has been up 6000 ms in total, and not before; without a banner nothing changes |

## Left out

- Wallet connection, the contract read and write, and receipt waiting (App.tsx:16-42). These are calls into external libraries and the network. Their results are inputs: `AccountChanged`, `StreakRead`, and the `isConfirmed` argument of `OnConfirmation`.
- The contract address, the ABI and the sound URLs (constants.ts:2-30). They are configuration for foreign calls.
- Audio playback (hooks/useAudio.ts) and `window.confetti` (App.tsx:44-55). They are fire-and-forget side effects, recorded only as entries of the effect log.
- React effect scheduling. The confirmation effect lists `streak` among its dependencies. When the refetched value arrives while `isConfirmed` is still true, the effect runs again: the sounds, the refetch and the confetti fire a second time. The banner is first decided on the streak read before the refetch. `AppState.OnConfirmation` models one run on the streak currently read; it does not decide whether the double run or the stale streak is intended.
- An exact-equality check misses a milestone if the streak read ever skips a value. The model states the exact test and leaves this open.
- Floating point rounding of `progress`, and `Number(...)` losing precision for reads above 2^53. Numbers are exact reals, and only NaN and ±Infinity are modelled.
- JSX, the CSS class strings of the components (except `delayClass`) and animation. The badge's class strings and the table's `color` and `description` are kept as data, but nothing is proved about them.
- The `disabled={isMinting || isConfirming}` attribute of the mint button (App.tsx:187). It is rendering; `HandleMint` models a click that reaches the handler.
- The banner timer is modelled by an elapsed-time argument to `CelebrationTimer`, not by a clock. The `clearTimeout` cleanup is modelled as the banner age being reset when a new banner is set.
- index.tsx (provider wiring) and vite.config.ts (build configuration). Neither contains logic.
- `label`, the milestone field, is named `name` here because `label` is a Dafny keyword.
- The `Confetti` entry of the effect log records the call of `triggerConfetti`; the call draws nothing when `window.confetti` is undefined (App.tsx:46), which the model does not track.
- Progress: guards the zero denominator and returns 100 at and past the last day. The source yields NaN at exactly the last day (see Findings) and 100 past it.

## Findings

| source | as written | input that shows it | evidently intended | confidence | as-written member | corrected member |
|---|---|---|---|---|---|---|
| components/StreakTracker.tsx:18-21 | at a streak equal to the last milestone, `prevMilestoneDay` and `nextMilestone.day` are both 100, so `progress` is `0/0 * 100` = NaN; `Math.max` and `Math.min` pass NaN through, and the bar's width style becomes `NaN%` | streak = 100 | a full bar (100) at and past the last milestone, as one day later (+Infinity clamped to 100) | high; not executed | `StreakTracker.ProgressNaNAtLastDay` | `StreakTracker.ProgressFullIff` |
