# Verified model of the coparentes backend

A Dafny 4.11 model of the parts of the backend where a mistake would be hard to see: the custody
calendar, the attempt limiter, password-reset links, byte and bit codecs, and workspace membership.
`dafny verify dfyconfig.toml` checks the whole project.

## What is modelled

| files | subject |
|---|---|
| JsDate, DateUtils | time values and civil dates as section 21.4.1 of ECMA-262 defines them, and the UTC day, week and month functions of `custody/dateUtils.js` |
| Pattern | the weekly patterns: who has the child on a date, before or after the start, with the truncating remainder of JavaScript |
| Custody, CustodyRuns, CustodyDays, CustodyService | schedules, exceptions, swaps and the slot table; every service action as one step; theorems over all sequences of actions; the actions as methods of a class that change the rows in place |
| CustodyAnswers | exactly when each request to the calendar is taken, what is then stored, and what the days show after the other parent agrees |
| CustodyOwners | which schedule each plain row comes from, in every reachable calendar |
| CustodyAgreements, CustodySwaps | the overridden days as the replay of what the parents agreed on; what an answer to a swap guarantees and what it does not |
| RateLimit | the fixed-window limiter with lockout and background eviction, as a class and as traces of timed events |
| ResetTokens, ResetLinks, ResetSessions, ResetAnswers | reset requests, confirmations and logins as separate database steps that interleave freely; which links and which sessions survive |
| Bits, Base32, Base64, FileSignature, Envelope | Crockford Base32 on a 32-bit word, base64 lengths and peeking, type detection, the `enc:v1:` envelope |
| Membership, MembershipAnswers | registration, joining, invitations, child accounts and deletion; consents, thread keys and message tags |
| Accounts, ClosedAccounts | membership beside reset links, logins and sessions; what can still reach an account after its user deleted it |
| Options, Runs, Sets | absent values, runs of state machines, sizes of sets |

Each imperative handler is a class method whose `ensures` gives the whole new state as a step function
of the old one; the theorems are about sequences of those steps. Clocks, random values, the
environment and the cipher are arguments. An id is the position of a row in creation order, so the
newest of several rows is the one with the largest id. Slots are keyed by their date, as the unique
index in `prisma/schema.prisma` makes possible, and a slot is named by its date.

## What the proofs found

- `utcDayStart` floors to the day for every year except 0 to 99, which `Date.UTC` reads as 1900 to 1999
  (`DateUtils.UtcDayStartExact`, `DateUtils.YearFiftyIsRemapped`). The calendar is modelled for dates
  from year 100 on.
- In any half-open interval of k windows at most (k + 1) * max - 1 attempts pass, one fewer than the
  usual estimate for fixed windows, and that number is reached (`RateLimit.RateBoundOver`,
  `RateLimit.RateBoundIsSharp`).
- Two overlapping reset requests for one user can delete each other's token, so that both mails carry
  dead links although both requests succeed (`ResetLinks.CrossingLeavesNoLink`). Once all requests of
  a user have done their deletion, the newest one, if its mail has not failed and its token was never
  claimed, has a live link if and only if no other request of the user was between creating and deleting
  when it created its token (`ResetLinks.CreationDecides`).
- A login that compared the old password before a reset and inserts its session after the reset deleted
  them leaves a session of the old password. That can happen if and only if such a login was under way
  at the deletion (`ResetSessions.StaleSessionsIff`).
- The cap of five sessions is checked when a login lists, not when it inserts. A step breaks it if and
  only if it is an insert that finds five sessions, and a run keeps it throughout if and only if no
  insert finds five (`ResetSessions.StepKeepsCapIff`, `ResetSessions.FiveSessionsIff`). Only overlapping
  logins can find five (`ResetSessions.FindingFiveOverlaps`); two of them make six sessions of four
  (`ResetSessions.SixSessionsAreReachable`).
- A workspace never has more than two active parents, but it can have two of role parentB: accepting an
  e-mail invitation does not ask for a free seat as joining by code does
  (`Membership.TwoParentBsAreReachable`). That acceptance is the only step that seats a second one
  (`Membership.StepKeepsOneParentBIff`).
- A deleted account is never opened again, but it can still be reached. A parent can sync the key of the
  family thread to the account of a child, a reset link from before the deletion still sets a password,
  and a login asks only for the password (`ClosedAccounts.ClosedAccountGetsKey`,
  `ClosedAccounts.ClosedAccountLogsIn`). The account stays without rows and sessions throughout a run if
  and only if the run neither syncs a key to it nor logs in to it (`Accounts.DeletedAccountIsBareIff`).
  What was true at the deletion decides whether that can happen: a key can come if and only if the
  account is a child's, and a session if and only if a login was under way or a reset token was unused
  and not yet expired (`ClosedAccounts.KeyReachesClosedIff`, `ClosedAccounts.LoginReachesClosedIff`,
  `ClosedAccounts.ClaimReachesClosedIff`).
- The length formula for base64 is right for well-formed text exactly when the padding does not run past
  the next multiple of four characters (`Base64.LengthOfWellFormed`), and for other text when the padding
  makes up for the skipped characters (`Base64.LengthFormulaExact`). For four padding signs alone it is
  minus one (`Base64.LengthCanBeNegative`).
- A file can carry the signatures of two types only if one is HEIC; all five such pairs occur
  (`FileSignature.SignaturesExclude`, `FileSignature.OverlapsOccur`).
- Text that already starts with `enc:v1:` is stored as it is and never reads back as itself
  (`Envelope.RoundTripIff`, `Envelope.PrefixedNoteIsLost`).
- The answer to a swap request is not final: any parent but the requester may answer it at any status
  (`CustodySwaps.SwapAnswerDoneIff`). Accepted twice, it reads accepted and nothing is exchanged;
  accepted and then rejected, it reads rejected and the days stay exchanged
  (`CustodySwaps.AnsweringAgainIsReachable`). A further acceptance is harmless if and only if the two
  rows show the same custodian (`CustodySwaps.AcceptingAgainIsHarmlessIff`), and the status stays
  truthful if and only if nobody answers an accepted request again
  (`CustodySwaps.AnswerKeepsStatusTruthIff`, `CustodySwaps.AcceptedStaysTrueIff`).
- A swap accepted while a proposal is pending fills a missing day from the plan nobody approved, and
  the day stays protected after the proposal is rejected (`CustodySwaps.SwapUsesApprovedIff`,
  `CustodySwaps.RejectedPlanStays`).

## Model

| member | source | states |
|---|---|---|
| JsDate.CivilRoundTrip | src/services/custody/dateUtils.js:8-13 | a day number is rebuilt from its UTC year, month and date |
| JsDate.MakeDayMeetsStandard | src/services/custody/dateUtils.js:10-12 | every existing civil date is read back from the day number made from it |
| JsDate.YearFromDay | src/services/custody/dateUtils.js:11 | the year found is the one whose first day is at or before the day and whose last day is not before it |
| JsDate.WeekDaysOfTheStandard | src/services/custody/dateUtils.js:24 | 1 January 1970 is a Thursday, 0 is Sunday, and each day is one weekday further |
| JsDate.MonthsOfTheStandard | src/services/custody/dateUtils.js:10-12 | the months have their lengths, and the days count from 1 January 1970 |
| DateUtils.UtcDayStartExact | src/services/custody/dateUtils.js:8-13 | rebuilding a date from its fields floors to midnight if and only if the year is not 0 to 99 |
| DateUtils.YearFiftyIsRemapped | src/services/custody/dateUtils.js:8-13 | 1 January of year 50 becomes 1 January 1950 |
| DateUtils.AddUtcDaysExact | src/services/custody/dateUtils.js:15-19 | adding n days through the date field moves the time by exactly n days, across months and years, for negative n too |
| DateUtils.MondayExact | src/services/custody/dateUtils.js:22-27 | the result is a Monday midnight and the date lies in the seven days from it |
| DateUtils.MondayIffNotRemapped | src/services/custody/dateUtils.js:22-27 | for every time value at all, the Monday found is that of its week if and only if the year is not 0 to 99 |
| DateUtils.WeekIndexExact | src/services/custody/dateUtils.js:30-34 | the difference of Mondays is a whole number of weeks, so the floor never rounds, and the index counts calendar weeks |
| DateUtils.WeekIndexConstantOnWeeks | src/services/custody/dateUtils.js:30-34 | two dates have the same index if and only if they lie in the same Monday-to-Sunday week |
| DateUtils.TwelveMonthsLater | src/services/custody/dateUtils.js:36-40 | twelve months later is the same date next year, 29 February becoming 1 March, and 365 or 366 days away by the leap rule |
| Pattern.ResolvedPlanIsRead | src/services/custody/pattern.js:33-66 | what is stored for a proposal is read back as the interval (2 by default) and the weeks asked for, presets as their tables |
| Pattern.CustodianMeetsRule | src/services/custody/pattern.js:72-93 | the custodian of a date is that of the reference rule on calendar weeks with a floored modulus, also before the start and at any time of day |
| Pattern.CustodianIsOfTheDay | src/services/custody/pattern.js:77-93 | on every date the custodian is the entry under the day's own name, Sunday for 0 to Saturday for 6, else Monday's, else parent A, in week A every interval-th calendar week and in week B otherwise |
| Pattern.PresetsByName | src/services/custody/constants.js:34-59 | alternating weeks begin with parent A; the other preset gives the weekend to the parent who does not have the rest of the week |
| Pattern.IntervalOfOldRows | src/services/custody/pattern.js:79-86 | a custom week stored without an interval repeats weekly if its two weeks agree on every day, and otherwise every two weeks |
| Pattern.CustodianIsPeriodic | src/services/custody/pattern.js:76-92 | the custodian repeats every 7 * interval days in both directions |
| Pattern.DaysPerPeriod | src/services/custody/pattern.js:79-89 | any 7 * interval consecutive days give a parent the days of one week A and interval - 1 weeks B |
| Pattern.PresetsAreFair | src/services/custody/constants.js:34-59 | under a preset the parents' days in any window differ by at most seven, and are equal over whole fortnights |
| Pattern.SevenIsReached | src/services/custody/constants.js:34-59 | seven is reached under both presets |
| CustodyRuns.OpenEndedHorizon | src/services/custody/slotGeneration.js:7-10 | an open-ended schedule covers 365 or 366 days |
| CustodyRuns.HorizonEndExact | src/services/custody/slotGeneration.js:7-10 | the horizon ends at a midnight: the day after the end date, or 365 or 366 days after the start |
| CustodyService.CollectRows | src/services/custody/slotGeneration.js:32-49 | the cursor loop terminates with one row for each unprotected midnight of the range, made from the schedule, and no other |
| CustodyService.CustodyCalendar.UpsertRows | src/services/custody/slotGeneration.js:51-69 | after the upserts the table shows the rows on their days and is unchanged elsewhere |
| CustodyService.CustodyCalendar.GenerateSlotsFromSchedule | src/services/custody/slotGeneration.js:6-72 | overridden days and days outside the horizon are untouched, every other day of the horizon is the schedule's row, and the result counts those days |
| CustodyRuns.GenerationIsIdempotent | src/services/custody/slotGeneration.js:6-72 | generating twice is generating once |
| CustodyService.CustodyCalendar.ProposeCustodySchedule | src/services/custody/scheduleActions.js:8-57 | a proposal refused for its role or range changes nothing; otherwise it supersedes all pending ones and is the new pending one |
| CustodyAnswers.RefusalsChangeNothing | src/services/custody/scheduleActions.js:20-34 | whatever is not taken leaves the whole calendar as it was |
| CustodyAnswers.ProposalIsTakenIff | src/services/custody/scheduleActions.js:20-34 | a proposal is taken if and only if a parent makes it and its last day, if any, is not before its first; one day is a range |
| CustodyAnswers.ProposalIsStored | src/services/custody/scheduleActions.js:26-57 | the new last row holds the pattern, the first and last day, the handover, the proposer, the interval and the two weeks that were asked for, or their defaults, and nothing else but the pending rows changes |
| CustodyService.CustodyCalendar.RespondToCustodySchedule | src/services/custody/scheduleActions.js:83-149 | the answer to a pending schedule by another parent supersedes it, or makes it the active one and generates its slots; all refusals in order |
| CustodyAnswers.ScheduleAnswerIsTakenIff | src/services/custody/scheduleActions.js:90-112 | an answer is taken if and only if the schedule is pending and the responder is a parent other than its proposer |
| CustodyAnswers.ScheduleAnswerIsStored | src/services/custody/scheduleActions.js:114-147 | an approval activates the schedule under the responder's name, supersedes the active one and writes each open day of the horizon with the schedule's custodian and handover; a rejection only supersedes |
| CustodyAnswers.ApprovedProposalShows | src/services/custody/slotGeneration.js:32-49 | proposed by one parent and approved by another, every day of the range without an override shows what the weeks asked for say under the day's own name, with the handover asked for |
| CustodyService.CustodyCalendar.ApplyAcceptedException | src/services/custody/exceptionActions.js:6-32 | the day-by-day upserts set exactly the exception's days and nothing else |
| CustodyRuns.ExceptionDaysExact | src/services/custody/exceptionActions.js:7-10 | those days are the midnights from the first to the last date, both included |
| CustodyService.CustodyCalendar.CreateCustodyException | src/services/custody/exceptionActions.js:34-77 | an exception needs a parent, an active schedule and an ordered range, and is stored pending with whole days |
| CustodyAnswers.ExceptionIsTakenIff | src/services/custody/exceptionActions.js:43-64 | an exception is taken if and only if a parent asks, a schedule is active and the last day, by default the first, is not before the first |
| CustodyAnswers.ExceptionIsStored | src/services/custody/exceptionActions.js:66-77 | the new row holds the custodian and exactly the days asked for, pending and in the requester's name, and nothing else changes |
| CustodyService.CustodyCalendar.RespondToCustodyException | src/services/custody/exceptionActions.js:104-148 | only a pending exception, answered by another parent, changes state, and only approval touches the table |
| CustodyAnswers.ExceptionAnswerIsTakenIff | src/services/custody/exceptionActions.js:111-134 | an answer is taken if and only if the exception is pending and the responder is a parent other than its requester |
| CustodyAnswers.ExceptionAnswerIsStored | src/services/custody/exceptionActions.js:136-148 | the row becomes accepted or rejected; an approval gives its days the custodian and keeps schedule and handover of the rows that are there |
| CustodyAnswers.ApprovedRequestShows | src/services/custody/exceptionActions.js:34-148 | asked for by one parent and approved by another, exactly the days asked for show the custodian asked for, and every other row is as before |
| CustodyService.CustodyCalendar.FindCustodySlotForDay | src/services/calendar.js:107-126 | on midnight-aligned rows the interval query finds exactly the row of the day |
| CustodyService.CustodyCalendar.EnsureCustodySlotForDay | src/services/calendar.js:128-148 | afterwards the day has a row, unless there is neither one nor a schedule; no other row changes |
| CustodyService.CustodyCalendar.ApplyAcceptedSwapToCalendar | src/services/calendar.js:150-189 | both days get a row and their custodians are exchanged, or nothing happens |
| CustodyDays.SwapConserves | src/services/calendar.js:150-189 | each parent keeps the number of days, other rows stay, and the step exchanges both days or changes nothing |
| CustodyDays.SwapTwiceRestores | src/services/calendar.js:176-188 | the same swap applied twice gives every day its custodian back, same-day swaps included |
| CustodyService.CustodyCalendar.CreateSwapRequest | src/services/calendar.js:512-530 | a pending request of the requester for the two dates is added, whatever the dates, and nothing else changes |
| CustodyAnswers.SwapIsStored | src/services/calendar.js:512-530 | the new row holds the two dates in the order given, pending and in the requester's name |
| CustodyAnswers.AcceptedSwapShows | src/services/calendar.js:150-189 | asked for by one parent and accepted by another, the two days show each other's custodian, from their rows or the schedule in force, and every other row is as before |
| CustodyService.CustodyCalendar.RespondToSwapRequest | src/services/calendar.js:338-379 | another parent's answer sets the status, and only acceptance touches the table |
| CustodyService.CustodyCalendar.UpdateCustodySlotHandover | src/services/custody/slotActions.js:3-42 | handover columns change only for a parent while no schedule is pending or active |
| CustodyAnswers.EditIsTakenIff | src/services/custody/slotActions.js:10-34 | an edit is taken if and only if a parent makes it, every schedule is superseded and the row is there |
| CustodyAnswers.EditIsStored | src/services/custody/slotActions.js:36-42 | the row has the handover given and is otherwise as before, and no other row changes |
| CustodyRuns.StepKeepsInv | src/services/custody/scheduleActions.js:36-57 | every action keeps the invariant: protocol, aligned rows, exact cache, covered active horizon |
| CustodyRuns.TableIsExactCache | src/services/custody/slotGeneration.js:23-69 | in every reachable state a schedule row shows the custodian its schedule gives that day, and the active schedule's horizon is complete, each day overridden or exactly its row |
| CustodyOwners.TableFollowsNewest | src/services/custody/slotGeneration.js:11-69 | in every reachable state a day without an agreed override has exactly the row of the approved schedule with the largest id whose horizon holds it, superseded or not, and no row when there is none |
| CustodyRuns.ProtocolHolds | src/services/custody/scheduleActions.js:98-147 | in every reachable state there is at most one pending and one active schedule, and the active one was approved by another user than its proposer |
| CustodyRuns.SupersededIsFinal | src/services/custody/scheduleActions.js:135-147 | a superseded schedule stays so and no schedule changes its plan or end |
| CustodyRuns.AnswersAreFinal | src/services/custody/exceptionActions.js:119-144 | an answered exception never changes again under any run, so it is applied at most once |
| CustodyRuns.ActiveForever | src/services/custody/slotActions.js:16-26 | once a schedule is active, exactly one is after every run, and every handover edit is refused without effect |
| CustodyRuns.OverridesSurvive | src/services/custody/slotGeneration.js:11-37 | no run deletes a row or turns an override back into a schedule row |
| CustodyRuns.ApprovedExceptionShows | src/services/custody/exceptionActions.js:6-32 | after approval the days from the first to the last date show the exception's custodian, and every other row is as before |
| CustodyAgreements.OverridesFollowAgreements | src/services/custody/exceptionActions.js:125-148 | after any run the overridden days and their custodians are exactly the replay, in order, of the exceptions approved and the swaps accepted in it |
| CustodyAgreements.OverrideMovesByAgreement | src/services/custody/exceptionActions.js:125-148 | over any run an overridden day stays so, and shows another custodian at the end only if a step of the run was an agreement of another parent that gave it that one: the exception's, or the one of the other day of the swap |
| CustodyAgreements.ExchangedIfOdd | src/services/calendar.js:150-189 | over any run in which no other agreement touches two overridden days, they are exchanged if their swaps were accepted an odd number of times, and as before if an even number |
| CustodySwaps.SwapAnswerDoneIff | src/services/calendar.js:338-379 | an answer is taken if and only if the request exists and the responder is a parent other than the requester, whatever its status |
| CustodySwaps.AcceptanceTakesEffectIff | src/services/calendar.js:150-189 | an acceptance exchanges the days if and only if both have rows or a schedule is pending or active, and otherwise changes no row |
| CustodySwaps.AcceptingAgainIsHarmlessIff | src/services/calendar.js:338-379 | with both rows there, a further acceptance leaves all custodians if and only if the two rows show the same one |
| CustodySwaps.AnswerKeepsStatusTruthIff | src/services/calendar.js:338-379 | an answer leaves "reads accepted exactly while exchanged" true if and only if the request did not read accepted before |
| CustodySwaps.StatusStaysTrueIff | src/services/calendar.js:338-379 | over any run in which no other agreement touches the two days, an accepted swap's status is truthful throughout if and only if no valid answer to it follows |
| CustodySwaps.AcceptedStaysTrueIff | src/services/calendar.js:338-379 | the same from the first acceptance of any request for two days of different custodians |
| CustodySwaps.AnsweringAgainIsReachable | src/routes/calendar.js:353-368 | from an empty calendar, both second answers are reached, with the custodians after each |
| CustodySwaps.SwapUsesApprovedIff | src/services/calendar.js:128-165 | the custodians a swap exchanges come from the table or an approved schedule if and only if both days have rows or no proposal is pending |
| CustodySwaps.RejectedPlanStays | src/services/custody/persistence.js:3-16 | a proposal that was only ever rejected can leave two protected days in the table |
| CustodyDays.CalendarIsFair | src/services/custody/slotGeneration.js:32-49 | in every reachable state the rows of an active preset schedule over days without overrides differ by at most seven between the parents |
| RateLimit.RateLimiter.ConsumeRateLimitAttempt | src/middleware/otpRateLimit.js:23-49 | the statements on the bucket in the map give the specified bucket and answer, and touch no other key |
| RateLimit.RateLimiter.PruneRateLimitBuckets | src/middleware/otpRateLimit.js:85-94 | the sweep, in any order of keys, removes exactly the stale buckets |
| RateLimit.PruningIsInvisible | src/middleware/otpRateLimit.js:23-49 | for any interleaving of attempts and sweeps, all answers are those of a limiter that never evicts |
| RateLimit.AttemptSimulates | src/middleware/otpRateLimit.js:31-48 | one attempt answers alike on the swept and the unswept map and keeps them equal up to lockouts that are over |
| RateLimit.RateBoundOver | src/middleware/otpRateLimit.js:35-48 | at most (k + 1) * max - 1 attempts on a key pass in any half-open interval of k windows, whatever other keys and sweeps do |
| RateLimit.RateBound | src/middleware/otpRateLimit.js:35-48 | at most 2 * max - 1 attempts on a key pass in any half-open interval as long as the window |
| RateLimit.RateBoundIsSharp | src/middleware/otpRateLimit.js:35-48 | that many do pass, for every quota, every number k of windows and every window of two milliseconds or more |
| RateLimit.ConfiguredLimits | src/middleware/otpRateLimit.js:66-76 | with the configured values at most nine verifications pass in five minutes and five issues in fifteen |
| RateLimit.ConfiguredNumbers | src/middleware/otpRateLimit.js:66-76 | five verifications in 300 seconds and then a lockout of 900; three issues in 900 seconds and no lockout |
| RateLimit.KeptUntil | src/middleware/otpRateLimit.js:85-94 | a sweep keeps a bucket to the end of its window and of its lockout, both included, and no longer |
| RateLimit.LockoutIsExact | src/middleware/otpRateLimit.js:31-45 | a lockout lasts exactly lockMs, attempts during it are refused and do not extend it, and the first attempt after it passes when it is as long as the window |
| ResetTokens.ResetService.CreateResetToken | src/services/authService.js:591-597 | a fresh unused token for the user, valid for an hour; nothing else changes |
| ResetTokens.ResetService.DeleteOtherTokens | src/services/authService.js:600-602 | the user's other unused tokens are gone, all other tokens stay |
| ResetTokens.ResetService.FinishMail | src/services/authService.js:607-640 | a failed mail deletes the request's own token, a sent one changes no token |
| ResetTokens.ResetService.ConfirmClaim | src/services/authService.js:745-773 | the claim succeeds exactly on an unused unexpired token, uses it up and sets its user's password; otherwise nothing changes |
| ResetTokens.ResetService.DeleteAllSessionsForUser | src/services/session.js:44-46 | all sessions of the user go, all others stay |
| ResetTokens.ResetService.ComparePassword | src/services/authService.js:332-339 | a login goes on exactly when the password fits the hash stored at that moment |
| ResetTokens.ResetService.OldestOf | src/services/session.js:13-20 | the n oldest sessions are picked: each picked one is older than each kept one |
| ResetTokens.ResetService.ListSurplus | src/services/session.js:8-18 | the sessions listed for deletion are all but the four newest of that moment |
| ResetTokens.ResetService.DeleteSurplus | src/services/session.js:15-19 | the listed sessions go, all others stay |
| ResetTokens.ResetService.InsertNewSession | src/services/session.js:22-33 | a fresh session of the user is added that expires after the given number of days, and nothing else changes |
| ResetTokens.ResetService.DeleteSessionRow | src/services/session.js:38-42 | the one session goes, all others stay |
| ResetTokens.ResetService.PurgeExpiredSessions | src/services/session.js:48-52 | exactly the sessions whose expiry has passed go |
| ResetTokens.ResetService.CreateSessionForUser | src/services/session.js:7-36 | the three steps uninterrupted leave the user with the new session and at most five in all |
| ResetAnswers.RequestAddsToken | src/services/authService.js:589-597 | the token added lasts 3,600,000 milliseconds, and every other token stays |
| ResetAnswers.SweepKeeps | src/services/authService.js:600-602 | used tokens, those of other users and the own one stay; all others of the user go |
| ResetAnswers.MailKeeps | src/services/authService.js:607-640 | a failed mail removes the own token alone |
| ResetAnswers.ClaimTakesIff | src/services/authService.js:745-773 | a claim is taken if and only if its token is there, unused and before its expiry, and then changes that token and its user's password alone |
| ResetAnswers.ConfirmationDeletes | src/services/session.js:44-46 | the sessions of the user go, those of all others stay |
| ResetAnswers.LoginBeginsIff | src/services/authService.js:332-339 | a login begins if and only if the hash given is the one stored |
| ResetAnswers.LoginLists | src/services/session.js:8-18 | of five or more sessions all but the four newest are listed, of fewer none |
| ResetAnswers.LoginEvicts | src/services/session.js:15-19 | exactly the listed sessions go |
| ResetAnswers.LoginInserts | src/services/session.js:22-33 | the new session is the user's and expires after the given days of 86,400,000 milliseconds |
| ResetAnswers.SessionsEnd | src/services/session.js:38-52 | a session outlives every purge up to its expiry and none after it; logout ends one |
| ResetTokens.AtMostOneLiveLink | src/services/authService.js:591-602 | under every interleaving, when no request of a user is between creating and deleting, the user has at most one unused token |
| ResetTokens.ClaimedAtMostOnce | src/services/authService.js:745-759 | under every interleaving no token is claimed twice, and a claimed one is refused from then on |
| ResetTokens.PasswordsFollowClaims | src/services/authService.js:766-772 | under every interleaving each stored hash is the one of the latest successful claim for the user |
| ResetTokens.OldSessionsAreGone | src/services/authService.js:782-784 | when a confirmation has finished, no session that existed at its claim is left, then or later |
| ResetLinks.LinkLivesIff | src/services/authService.js:600-626 | a live link is live after a run if and only if nothing in the run ended it |
| ResetLinks.ExpiryNeverChanges | src/services/authService.js:591-597 | over every interleaving a token keeps its user and its expiry, and a deleted one never comes back |
| ResetLinks.UndisturbedRequestWorks | src/services/authService.js:591-640 | a request whose link nothing ends, with any other steps around its own, leaves it as the user's only live one, claimable for exactly an hour, and the claim sets the password |
| ResetLinks.CreationDecides | src/services/authService.js:591-602 | the newest request of a user whose requests have all done their deletion, unclaimed and with its mail not failed, has a live link if and only if no other request of the user was between creating and deleting when it was created |
| ResetLinks.CrossingLeavesNoLink | src/services/authService.js:591-602 | two overlapping requests can both succeed and leave no usable link |
| ResetSessions.SessionsAfterInsert | src/services/session.js:7-36 | under every interleaving, after its insert the user of a login has that session, those left of what the login found when it listed, at most four, and all that were inserted since and are left |
| ResetSessions.StepKeepsCapIff | src/services/session.js:13-33 | every step from at most five sessions leaves at most five if and only if it is not an insert that finds five |
| ResetSessions.FiveSessionsIff | src/services/session.js:7-36 | over every run the user has at most five sessions at every moment if and only if no insert of the run finds five |
| ResetSessions.FindingFiveOverlaps | src/services/session.js:8-33 | an insert that finds five comes after another insert for the user since the login listed |
| ResetSessions.AtMostFiveSessions | src/services/session.js:7-36 | so over every run without such an overlap the user has at most five sessions at every moment |
| ResetSessions.SixSessionsAreReachable | src/services/session.js:7-36 | two overlapping logins make six sessions of four |
| ResetSessions.StaleSessionsIff | src/services/authService.js:782-784 | after a reset has deleted the sessions none is left, and one of an outdated password can appear, while the password stays, if and only if a login that compared an outdated hash was under way |
| Base32.EncodeCrockfordBase32 | src/utils/security.js:22-43 | the loop on the 32-bit word emits exactly the digits of the input bits in groups of five, zero-filled at the end |
| Base32.EncodingRoundTrip | src/utils/security.js:18-43 | decoding the emitted text gives the bytes back, and its length is the number of started groups of five bits |
| Base32.CreateRecoveryCode | src/utils/security.js:49-58 | fifteen bytes give six hyphenated groups of four symbols from which all the bytes can be read, so the length check never fails |
| Base64.LengthFormulaExact | src/services/messageAttachments.js:4-8 | for every text the formula is the decoded length if and only if its padding makes up, within four, for the characters the decoder does not read |
| Base64.LengthCanBeNegative | src/services/messageAttachments.js:4-8 | four padding signs alone have length minus one |
| Base64.AlphabetsOfTheStandard | src/utils/fileSignature.js:27 | the 64 characters are those of RFC 4648, in its order, for the standard and the URL alphabet |
| Base64.SextetOrder | src/utils/fileSignature.js:27 | the highest bit of a character comes first |
| Base64.LengthOfWellFormed | src/services/messageAttachments.js:4-8 | for text of the alphabets with padding: if and only if the padding stays within the next multiple of four |
| Base64.LengthOfEncoded | src/services/messageAttachments.js:4-8 | for the padded encoding of any bytes the formula is their number |
| Base64.PeekIsPrefix | src/utils/fileSignature.js:18-31 | for every text the peek is the beginning of the whole decoding, and all of its first maxBytes bytes if and only if the slice keeps characters enough for them |
| Base64.PeekOfWellFormed | src/utils/fileSignature.js:18-31 | for text of the alphabets with padding the peek is exactly the first maxBytes bytes |
| FileSignature.StartsWithAscii | src/utils/fileSignature.js:33-43 | the loop decides whether the text stands at the offset |
| FileSignature.DetectFileTypeFromBase64 | src/utils/fileSignature.js:49-115 | the branches give the type of the peeked bytes by the table of signatures |
| FileSignature.SignaturesExclude | src/utils/fileSignature.js:55-112 | two signatures hold of one file only if one is HEIC and the other PDF, JPEG, PNG, DOC or DOCX |
| FileSignature.OverlapsOccur | src/utils/fileSignature.js:55-112 | each of those five pairs occurs |
| FileSignature.BrandsByName | src/utils/fileSignature.js:86-98 | the brands of HEIC are the six named ones, in any case |
| FileSignature.TypeByMatches | src/utils/fileSignature.js:55-112 | what the order of the checks decides: PDF, JPEG and PNG win over HEIC, HEIC over DOC and DOCX, and every other type is found exactly when its signature is there |
| FileSignature.HeadDecides | src/utils/fileSignature.js:6-7 | the first twelve bytes decide the type |
| FileSignature.ElevenAreTooFew | src/utils/fileSignature.js:6-7 | eleven bytes do not |
| FileSignature.UploadIsDetected | src/utils/fileSignature.js:49-115 | the type detected from the encoded text of any file is the type of the whole file |
| Envelope.PrintedSplits | src/services/crypto.service.js:61-75 | splitting the printed envelope recovers exactly its four parts |
| Envelope.KeyIsFoundIff | src/services/crypto.service.js:19-35 | a key is found if and only if its variable decodes to exactly 32 bytes, and the error tells a blank variable from another |
| Envelope.StoredFormat | src/services/crypto.service.js:42-61 | a text is stored as it is only when it carries the prefix, refused without a key, and otherwise stored as prefix, key name, vector, tag and ciphertext in this order |
| Envelope.BrokenEnvelopeIff | src/services/crypto.service.js:74-77 | an envelope is refused as broken if and only if it has fewer than four parts or one of the first four is empty |
| Envelope.FourPartsAreRead | src/services/crypto.service.js:75 | what follows a further colon is not read |
| Envelope.RoundTripIff | src/services/crypto.service.js:42-93 | decrypt gives the plaintext back under any key name argument if and only if it did not already look encrypted |
| Envelope.PrefixedNoteIsLost | src/services/crypto.service.js:47-50 | a text that begins with the prefix is stored as it is and cannot be read back |
| Envelope.ServiceRoundTripIff | src/services/crypto.service.js:7-12 | under each of the four key names, once configured, every text is stored, encrypted unless empty, and reads back if and only if it did not already look encrypted |
| Envelope.FaithfulCiphersExist | src/services/crypto.service.js:52-61 | what the proofs ask of the cipher can be met |
| Envelope.EncryptIsIdempotent | src/services/crypto.service.js:47-50 | encrypting an encrypted value, with any key and vector, changes nothing |
| Envelope.SafeReadsBack | src/services/crypto.service.js:103-113 | the safe reader gives back both the stored envelope's text and legacy plain text |
| Envelope.SafeReaderNeverShowsEnvelopes | src/services/crypto.service.js:103-113 | for any value: the fallback for none and for an envelope that cannot be opened, the shorter text of one that can, and any other value as it is |
| Membership.MembershipService.RegisterUser | src/services/authService.js:73-113 | without the three required consents, then with a known e-mail, a registration is refused; otherwise the user is parentA of a new workspace and all six consents are saved, granted or not |
| MembershipAnswers.RegistrationIsTakenIff | src/services/authService.js:73-85 | a registration is taken if and only if terms, data processing and child data are consented to and the address is new |
| MembershipAnswers.RegistrationIsStored | src/services/authService.js:89-112 | it adds one workspace, its parentA and the six consents as given |
| Membership.MembershipService.JoinWorkspace | src/services/authService.js:264-330 | both branches with all refusals in order: e-mail, workspace, then parentB seat and expiry for a parent, profile, child and account for a child |
| MembershipAnswers.JoinIsTakenIff | src/services/authService.js:272-329 | a parent joins if and only if the address is new, the workspace exists without an active parentB and the code has not expired |
| MembershipAnswers.ChildJoinIsTakenIff | src/services/authService.js:296-329 | a child joins if and only if the address is new and the profile is of that workspace and has no account, open or closed |
| Membership.MembershipService.SendInviteTo | src/routes/invite.js:32-65 | only an active parent invites, not to the own e-mail in any case; an expired code is renewed and the address stored in lower case |
| MembershipAnswers.InviteIsSentIff | src/routes/invite.js:32-50 | an invitation is sent if and only if an active parent invites another address than the own, whatever the case |
| MembershipAnswers.InviteIsStored | src/routes/invite.js:52-65 | it is pending, in lower case and of the inviter, and a code is renewed exactly when it has expired |
| Membership.MembershipService.AcceptInviteToken | src/routes/invite.js:86-152 | all refusals in order, addresses compared in lower case; otherwise user and invitation change together |
| MembershipAnswers.InviteIsAcceptedIff | src/routes/invite.js:86-134 | an acceptance is taken if and only if the user is active, the invitation is pending and in time, its inviter exists, the addresses agree but for case, the user's workspace has at most one member and the inviter's fewer than two; a refusal changes no user |
| MembershipAnswers.AcceptanceIsStored | src/routes/invite.js:136-152 | only the user's workspace and role and the status of that invitation change |
| MembershipAnswers.MovesAreInvited | src/routes/invite.js:117-152 | over every run a user who ends in another workspace accepted an invitation to the own address, sent by a user of that workspace |
| MembershipAnswers.InvitationsMoveOnce | src/routes/invite.js:95-97 | over every run no invitation is accepted twice |
| MembershipAnswers.EmailsAreUnique | prisma/schema.prisma:151 | in every reachable store no two accounts, open or closed, have the same address |
| Membership.MembershipService.ExpireInvites | src/services/authService.js:820-823 | exactly the user's pending invitations become expired |
| Membership.MembershipService.UpdateUserConsent | src/services/consent.service.js:101-128 | a consent row is added, unless it would withhold a required consent |
| MembershipAnswers.ConsentIsStoredIff | src/services/consent.service.js:101-128 | a change is taken if and only if the account is open and it grants the consent or the consent is one of the three optional ones |
| Membership.RequiredConsentsStand | src/services/consent.service.js:101-128 | in every reachable store no row withholds a required consent |
| Membership.MembershipService.SetMessageTags | src/services/messageTags.js:63-83 | the user's tags of the message are the given ones, and no other row changes |
| MembershipAnswers.TagsAreStoredIff | src/services/messageTags.js:34-83 | a parent's tags of the message become the given ones, and all other rows stay |
| Membership.MembershipService.AssertValidParentThreadKeys | src/services/threads.js:78-103 | the keys pass exactly when they are for the active parents of the workspace, one each |
| Membership.MembershipService.CreateThreadIn | src/services/threads.js:210-319 | a channel that exists is left alone; otherwise the thread comes with the keys of the active parents, if any are given |
| MembershipAnswers.ThreadIsStoredIff | src/services/threads.js:210-319 | who may open which thread, when an existing one is returned, and which keys are stored with a new one |
| Membership.MembershipService.SyncFamilyThreadKey | src/services/threads.js:348-405 | all refusals in order; the target is any child of the workspace, its account open or closed |
| MembershipAnswers.KeyIsSyncedIff | src/services/threads.js:348-405 | a key is synced if and only if an active parent names a family thread and a child of the own workspace that has no key of it |
| Accounts.AccountService.DeleteOwnAccount | src/services/authService.js:791-838 | with the right password the user's sessions, keys, consents and tags go, the pending invitations expire and the account is closed with a new password; nothing else changes, reset tokens included |
| MembershipAnswers.DeletionIsTakenIff | src/services/authService.js:791-803 | a deletion is taken if and only if the account is open, the password right and the placeholder address not another user's |
| MembershipAnswers.DeletionIsStored | src/services/authService.js:812-835 | that account and its pending invitations change, its rows go, and nothing else changes |
| MembershipAnswers.ChildDeletionIsStored | src/services/workspace.js:279-304 | deleting a child of the workspace closes its account alone |
| MembershipAnswers.WorkspaceStepsAreStored | src/services/workspace.js:53-62 | a child is added to, and a code renewed in, a workspace that exists, and nothing else changes |
| Accounts.DeletionInFull | src/services/authService.js:791-838 | the refusals in order, and the whole system after a deletion: the sessions, rows and tokens of all other users stay |
| Accounts.ClosedStaysClosed | src/services/authService.js:825-835 | over every run of membership, resets and logins a closed account stays closed, in its workspace and role |
| Accounts.DeletedAccountIsBareIff | src/services/threads.js:371-401 | over every run after a deletion no row and no session belongs to the account at any moment if and only if the run neither synced a key to it nor logged in to it |
| ClosedAccounts.KeyReachesClosedIff | src/services/threads.js:371-401 | some run gives the deleted account a row if and only if it is a child's |
| ClosedAccounts.LoginReachesClosedIff | src/services/authService.js:332-359 | unless the random password is guessed, some run gives the deleted account a session if and only if, at the deletion, a login of it was under way or one of its reset tokens was unused and unexpired |
| ClosedAccounts.ClaimReachesClosedIff | src/services/authService.js:745-773 | a claim can reach the deleted account at a moment if and only if one of its tokens was unused at the deletion and expires after that moment |
| ClosedAccounts.ClaimSetsClosedPassword | src/services/authService.js:766-772 | such a claim sets the password of the account, which stays closed |
| ClosedAccounts.ClosedAccountGetsKey | src/routes/threads.js:330-348 | from an empty system, a child deletes its account and a parent then syncs a key to it |
| ClosedAccounts.ClosedAccountLogsIn | src/services/authService.js:332-359 | from an empty system, a link from before the deletion sets a password with which the deleted account logs in |
| Membership.AtMostTwoParents | src/services/workspace.js:74-86 | in every reachable store a workspace has at most one active parentA and lists at most two parents |
| Membership.ListParentUserIds | src/services/workspace.js:75-86 | the list holds exactly the active parents, in creation order |
| Membership.AcceptKeepsOneParentBIff | src/routes/invite.js:121-150 | an acceptance leaves at most one parentB if and only if there was none, or the user already was the workspace |
| Membership.StepKeepsOneParentBIff | src/routes/invite.js:121-150 | for every step and workspace: at most one parentB stays at most one if and only if the step is not an acceptance into a workspace with a parentB by a user from elsewhere |
| Membership.OneAccountPerChild | src/services/workspace.js:279-304 | in every reachable store a child has at most one account, and accounts belong to children that exist |
| Membership.TwoParentBsAreReachable | src/routes/invite.js:121-150 | two parentB in one workspace are reachable |

## Left out

- Express routing, request schemas, cookies, mail templates and sending, thread notifications, scripts and seeding: input and output only.
- bcrypt, HMAC, AES-GCM and random generation: arguments and abstract functions; token hashes are distinct by assumption.
- Several workspaces in the custody model: it is one workspace, and an id of another one reads as not found.
- Dates before year 100 and beyond the range of time values in the calendar; the day functions are stated for all integers.
- Custom intervals that are not whole numbers: the route admits only 1 to 52, the model any positive integer.
- Interleavings inside the schedule, exception, swap and membership handlers: each action is one step there.
- DateUtils.MondayExact: stated from year 100 on, and so is what builds on it; in years 0 to 99 the Monday is wrong, as `DateUtils.MondayIffNotRemapped` says.
- CustodyService.CustodyCalendar.RespondToCustodySchedule: assumes midnight-aligned rows, which every action keeps; the noon rows of the demo seed are not part of this model.
- CustodyService.CustodyCalendar.FindCustodySlotForDay: assumes midnight-aligned rows too; on others the query could find several.
- RateLimit.PruningIsInvisible: the clock is assumed never to run backwards.
- ResetTokens.ResetService.CreateResetToken: the request's lookup of the account is not a step of its own; in `Accounts` it is one step with the creation, so a request that looked the account up before a deletion and creates its token after it is not expressed.
- ResetTokens.ResetService.DeleteOtherTokens: the three steps of a request are separate methods whose order the caller keeps.
- ResetTokens.ResetService.InsertNewSession: the days until expiry are of 24 hours; the source adds calendar days in the zone of the server.
- ResetTokens.PasswordsFollowClaims: speaks of runs without account deletion, which `Accounts` adds; password changes by the logged-in user are not modelled.
- ResetSessions.StaleSessionsIff: a login is by password; the retired login codes between the two are not modelled.
- Membership.MembershipService.JoinWorkspace: the code is looked up by the caller, a number without a workspace standing for an unknown code.
- Membership.MembershipService.RegisterUser: of a saved consent its version, time and address hash are not columns here.
- Accounts.AccountService.DeleteOwnAccount: the name and the key columns of the account, which it overwrites, are not columns here; login codes and trusted devices, which it also deletes, have no writer that is still reached.
- Membership.MembershipService.SendInviteTo: letters are lowered within ASCII; renewal of a code from other handlers is the step `RefreshCode`, which may be taken at any time.
- Membership.MembershipService.SetMessageTags: messages are not a table here, and the tags arrive normalized.
- Membership.MembershipService.CreateThreadIn: the child that a topic may name is not a column here.
- Placeholder addresses of deleted accounts are arguments; one that another account has is refused, as the unique column does.
- Handlers behind a session: they ask for an open account; the session itself, and its deletion when the account is closed, is `DeleteSession`, which may be taken at any time.
- Child access by date of birth: it adds a child account like the child branch of joining, which is modelled.
- Base64.LengthFormulaExact: a character above U+FFFF counts as one here and as two in JavaScript.
- Base64.PeekIsPrefix: the same.
- Envelope.RoundTripIff: key names that contain a colon are excluded; the four names of the service contain none.
- Text conversion: a string is a sequence of characters, and the UTF-8 coding is part of the abstract cipher. Strings with lone surrogates, which the source accepts and its UTF-8 coding replaces, cannot be written.
- Login codes and trusted devices, receipts, expenses, documents, messages and serializers: easy or retired.
- `looksLikePlainText` and plain-text claims: a counting heuristic with no wider property.
