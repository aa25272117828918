# XP and moderation state engine of the multigame chat bot

This project models, in Dafny, the self-contained state engine of a chat bot
(`bot.py`). Everything else in that file talks to the chat platform. The
engine has five parts:

- **Level arithmetic.** `xp_for_level` gives the cumulative threshold
  100·(1+…+L). `xp_for_next_level` gives the step to the next threshold.
  `calculate_level` walks the thresholds. The integer progress window of
  `/profile` and `/rank` is modelled too (`levels.dfy`).
- **Duration parser.** `parse_duration` lower-cases its input and matches
  `(\d+)([mhdw])` at the start (`duration.dfy`).
- **Per-(user, guild) records.** This covers lazy creation by `init_user`,
  the XP award of `on_message` (mute check, 60 s cooldown, gain in 15..25,
  level recomputation, level-up notice), and the warning list of `/warn` and
  `/clearwarns` (`records.dfy`).
- **Punishment registry.** `banned_users` and `muted_users` are keyed by
  `"<guild id>_<user id>"`. `/tempban` and `/mute` write entries, `/unmute`
  deletes one, and the one-minute sweep `check_temp_punishments` removes
  expired ones (`registry.dfy`).
- **Ranking.** `/rank` lists the guild's records, stably sorts them by XP with
  the highest first, and takes the 1-based position of the user
  (`ranking.dfy`).

`bot.dfy` holds class `BotState`. Its fields are the source's global
dictionaries: `user_data`, `muted_users` and `banned_users`. It also holds
the insertion order of `user_data`'s user ids, which is the order every
handler iterates in. Each handler is a method that updates those fields in
place. Every method states its whole new state in terms of the old one.
`Valid()` is the invariant that every handler keeps:

- the cached level of every record equals `Level(xp)`;
- warning ids run 1..n;
- the order list holds each user id exactly once.

Time is integer seconds of the bot's clock, counted from 1970-01-01
00:00:00; `Registry.MaxInstant` is the last second `datetime` can hold.
The random gain is a parameter. The success or
refusal of each platform call is a boolean parameter.

Behaviour worth knowing, as the code has it:

- `calculate_level` returns the largest L with `xp_for_level(L) <= xp`,
  clamped to 1. Level 1 spans 0–299 XP, level 2 spans 300–599, and so on:
  level 2 is reached at 300 XP, not at the 100 XP of the first step.
- The progress window uses `[xp_for_level(L-1), xp_for_level(L))`, which is
  one band below the band `calculate_level` assigns to L. From level 2 on,
  the progress is therefore at least the window's width. The model
  reproduces this, and `Levels.ProgressWindowOverflows` states it.
- `parse_duration` ignores whatever follows the unit letter: `"1h30m"` is
  one hour, and `"10minutes"` is ten minutes.
- A user counts as muted when their key is in `muted_users`, whatever the
  entry's expiry. The entry stays until the sweep or `/unmute` removes it.
- `/unmute` deletes the entry only after the platform accepts clearing the
  timeout. A refused call deletes nothing.
- The rank is the position after a *stable* sort, so users with equal XP
  keep `user_data`'s insertion order (`Ranking.SortStable`). The rank is
  exactly 1 + the number of records with more XP + the number of records
  with the same XP that come earlier in `user_data`.
- `/tempban` and `/mute` compute the expiry with `datetime` before calling
  the platform. A valid duration whose expiry falls after 9999-12-31
  23:59:59 (such as `500000w`) raises there, so nothing is requested or
  recorded and the generic error reply is sent.

## Model

| member | source | states |
|---|---|---|
| `Levels.XpForLevel` | bot.py:72-76 | the cumulative threshold, at least 100·L from level 1; its closed form and increase are `Levels.XpForLevelClosedForm` and `Levels.XpForLevelIncreasing`, and the loop is `Levels.ComputeXpForLevel` |
| `Levels.ComputeXpForLevel` | bot.py:72-76 | the for-loop sum equals the triangular threshold, and equals the closed form 50·L·(L+1) for L ≥ 0 |
| `Levels.XpForLevelClosedForm` | bot.py:72-76 | `xp_for_level(L) == 50·L·(L+1)` for every L ≥ 0 |
| `Levels.XpForLevelIncreasing` | bot.py:72-76 | thresholds are strictly increasing from level 0 |
| `Levels.XpForNextLevel` | bot.py:78-79 | `xp_for_next_level(L) == xp_for_level(L+1) - xp_for_level(L)` for L ≥ 0 |
| `Levels.LevelFrom` | bot.py:63-70 | the upward search from a reached threshold ends in the level band of xp |
| `Levels.Level` | bot.py:63-70 | the result is the largest L with `xp_for_level(L) <= xp`, clamped to 1 (`InLevelBand`) |
| `Levels.LevelBandUnique` | bot.py:63-70 | an amount of XP lies in exactly one level band, so that level is well defined |
| `Levels.CalculateLevel` | bot.py:63-70 | the source's while-loop returns exactly `Level(xp)` |
| `Levels.LevelAtLeastOne` | bot.py:70 | the level is always at least 1 |
| `Levels.LevelAtThreshold` | bot.py:63-76 | `calculate_level(xp_for_level(L)) == L` for L ≥ 1 |
| `Levels.LevelBelowNextThreshold` | bot.py:63-76 | `calculate_level(xp_for_level(L+1) - 1) == L` for L ≥ 1 |
| `Levels.LevelMonotone` | bot.py:63-70 | more XP never gives a lower level |
| `Levels.ProgressWindow` | bot.py:214-217 | the window's width is 100·L for a cached level L ≥ 1 |
| `Levels.ProgressWindowOverflows` | bot.py:933-936 | with the level `calculate_level` gives, progress is in [width, width + 100·(L+1)) from level 2 on, and in [0, 3·width) at level 1 |
| `Duration.UnitSeconds` | bot.py:622-629 | the `multipliers` table: a unit is known exactly for m, h, d, w, and each is a positive whole number of minutes |
| `Duration.DigitRun` | bot.py:615 | the greedy `\d+` consumes the maximal run of leading digits |
| `Duration.ParseDuration` | bot.py:612-629 | every result is a non-negative multiple of 60 seconds |
| `Duration.ParseDurationCharacterised` | bot.py:615-629 | the result is `Some(v)` exactly when the lower-cased input starts with a non-empty digit string and a unit in m/h/d/w, with v = amount × unit seconds, whatever follows |
| `Duration.ParseDurationNone` | bot.py:615-617 | the result is None exactly when no digits-then-unit prefix exists |
| `Duration.DecimalValueOfShow` | bot.py:619 | `int()` of a printed amount gives that amount back |
| `Duration.ParseShownDuration` | bot.py:615-629 | round trip: a printed amount, a unit letter in either case and any trailing text parse to amount × unit seconds |
| `Duration.ParseDurationValidExamples` | bot.py:619-629 | "0m" is 0, "10m" is 600, "2W" is 1209600, "1h30m" is 3600 |
| `Duration.ParseDurationInvalidExamples` | bot.py:615-617 | a leading space, a missing unit, an unknown unit, or a missing amount gives None |
| `Ranking.Insert` | bot.py:917 | inserting keeps the multiset of entries and puts the new entry or the old head first |
| `Ranking.InsertSorted` | bot.py:917 | inserting into a list sorted by XP, highest first, keeps it sorted |
| `Ranking.SortByXpDesc` | bot.py:917 | the sort is a permutation of the list and is sorted by XP, highest first |
| `Ranking.InsertKeepsTies` | bot.py:917 | inserting an entry puts it ahead of the entries of equal XP and keeps every XP block's order |
| `Ranking.SortStable` | bot.py:917 | stability: for every XP value, the entries with that XP keep their input order in the sorted list |
| `Ranking.SortedBlock` | bot.py:917-919 | in a sorted list the entries of one XP form a contiguous block right after the entries with more XP |
| `Ranking.SortKeepsFirstOfEqualTop` | bot.py:917 | among the entries tied for the highest XP, the earliest listed is ranked first |
| `Ranking.SortCounts` | bot.py:917 | sorting keeps the number of entries above, or at least at, any XP |
| `Ranking.FirstPosition` | bot.py:919 | `next(...)` returns the 1-based position of the first entry with the user's id, or None exactly when there is none |
| `Ranking.PositionInSorted` | bot.py:917-919 | in a sorted list, a position lies inside the block of entries with its XP |
| `Ranking.PositionAmongTies` | bot.py:917-919 | with distinct ids, a user's entry is preceded in its XP block exactly by the entries of that XP listed before it |
| `Ranking.ExactPosition` | bot.py:917-919 | with distinct ids, the sorted position of an entry is the number of entries with more XP plus the number with equal XP listed before it |
| `Ranking.SortedEntryIsUnique` | bot.py:912-919 | with distinct ids, the sorted entry with the user's id is the user's own entry |
| `Ranking.RankPosition` | bot.py:917-971 | the rank is exactly 1 + the number of records with more XP + the number with equal XP listed earlier, so it lies between 1 + the number with more XP and the number with at least as much (exactly 1 + the number with more when XP values are distinct); the entry above never has less XP |
| `Ranking.SortedContainsEntry` | bot.py:919-921 | every listed entry appears in the sorted list, so the rank is always found |
| `Ranking.CountAtLeastDistinct` | bot.py:917-919 | with distinct XP values exactly one record has a given record's XP |
| `Records.AddRecord` | bot.py:49-60 | `init_user`: afterwards the record exists, and an existing one is returned untouched; the rest is `Records.AddRecordCreates`, `Records.AddRecordOnlyAdds`, `Records.AddRecordIdempotent` |
| `Records.Award` | bot.py:126-145 | the award rule never lowers xp or total_xp_gained and leaves warnings and join date alone; its full effect is `Records.AwardEffect`, `Records.AwardLevelUpIff`, `Records.AwardKeepsRecordOk` |
| `Records.AddWarning` | bot.py:570-580 | `/warn`'s update appends exactly one warning after the earlier ones; its id and the rest of the record are `Records.AddWarningAppends` |
| `Records.ClearWarnings` | bot.py:742 | `/clearwarns` empties the warning list and changes nothing else; `Records.ClearThenWarnStartsAtOne` |
| `Records.NewRecordOk` | bot.py:53-60 | a new record satisfies `RecordOk`: `level == calculate_level(xp)` and warning ids 1..n |
| `Records.AddRecordCreates` | bot.py:49-60 | after `init_user` the record exists; an existing one is unchanged, a missing one is the fresh record |
| `Records.AddRecordOnlyAdds` | bot.py:49-60 | `init_user` leaves every other user and guild as it was and adds at most the one record |
| `Records.AddRecordIdempotent` | bot.py:49-60 | calling `init_user` twice is the same as calling it once |
| `Records.AwardKeepsRecordOk` | bot.py:137-145 | an award keeps `level == calculate_level(xp)` and never lowers the level |
| `Records.AwardEffect` | bot.py:126-140 | inside the cooldown nothing changes; otherwise xp and total_xp_gained rise by the same gain in 15..25, messages_sent by 1, and last_xp_time becomes now |
| `Records.AwardLevelUpIff` | bot.py:143-166 | a level-up is signalled exactly when the new XP's level exceeds the old XP's level, with reward = new level × 50 |
| `Records.CooldownSuppressesSecondAward` | bot.py:129-133 | a second message less than 60 s after an award changes nothing |
| `Records.AwardAfterCooldown` | bot.py:129-140 | a second message at least 60 s after an award earns XP again |
| `Records.AddWarningAppends` | bot.py:570-580 | `/warn` appends one warning with id = previous count + 1, keeps earlier ones and ids 1..n |
| `Records.ClearThenWarnStartsAtOne` | bot.py:741-742 | `/clearwarns` empties the list only, and the next warning gets id 1 |
| `Registry.Key` | bot.py:117 | f"{guild_id}_{user_id}": the guild id, one `_`, then the user id, each recoverable by position; `Registry.KeyInjective` |
| `Registry.ExpiryRepresentable` | bot.py:383 | whether `now + timedelta(seconds=d)` stays in `datetime`'s range (otherwise OverflowError, also at bot.py:460); from 1970 on, exactly when now + d is at most 9999-12-31 23:59:59 |
| `Registry.Unexpired` | bot.py:638-668 | what a sweep leaves: only entries of the table, unchanged and unexpired; `Registry.UnexpiredSpec` adds that every unexpired entry stays |
| `Registry.SeparatorFirst` | bot.py:117 | in the key of a digit id, the first `_` follows the guild id |
| `Registry.KeyInjective` | bot.py:403 | for digit ids, `guild_id + "_" + user_id` determines the guild and the user |
| `Registry.OtherKeysUntouched` | bot.py:527-529 | writing or deleting one pair's entry leaves every other pair's entry as it was |
| `Registry.CollectExpired` | bot.py:638-648 | the first sweep loop collects each key whose expiry is ≤ now, once, and no other key |
| `Registry.DeleteKeys` | bot.py:650-651 | given present, distinct keys as `del` needs, every deletion finds its key and the loop removes exactly the collected keys |
| `Registry.DeleteExpiredIsUnexpired` | bot.py:650-668 | deleting the collected keys leaves exactly the unexpired entries |
| `Registry.UnexpiredSpec` | bot.py:638-668 | after a sweep no entry has expiry ≤ now, every other entry is kept unchanged, nothing is added |
| `Registry.SweepsCompose` | bot.py:632-668 | sweeping at t and then at a later t' equals one sweep at t' |
| `Registry.TenMinuteMuteLifecycle` | bot.py:460-473 | a "10m" mute expires at now + 600; a sweep keeps it before that and removes it from then on, without affecting other keys |
| `Bot.GuildEntries` | bot.py:912-915 | the guild list has at most one row per user id of `user_data`; `Bot.GuildEntriesFaithful` states its contents |
| `Bot.GuildEntriesFaithful` | bot.py:912-915 | the guild list holds each user with a record in the guild exactly once, with that record's XP |
| `Bot.OverlongDurationOverflows` | bot.py:383 | `"500000w"` is a valid duration whose expiry from any instant after 1970 lies beyond what `datetime` holds |
| `Bot.RankIn` | bot.py:917-971 | the rank is the position of the user's entry after the stable sort: 1 + the entries with more XP + the entries with equal XP listed earlier; the gap to the rank above exists iff rank > 1 and is ≥ 0; the "no data" branch is unreachable |
| `Bot.BotState.constructor` | bot.py:19-22 | the state starts with empty records and registries |
| `Bot.BotState.InitUser` | bot.py:49-60 | `user_data` becomes `AddRecord(old, user, guild, now)`; a new user id is appended to the iteration order |
| `Bot.BotState.OnMessage` | bot.py:108-148 | bot and guild-less messages change nothing; otherwise the record is created; if the mute key is present, the message is deleted and nothing else changes; otherwise the award rule is applied |
| `Bot.BotState.TempBan` | bot.py:372-410 | an invalid duration, an expiry past `datetime`'s range (OverflowError before the ban), or a refused ban leaves `banned_users` unchanged; otherwise the key maps to an entry expiring at now + duration, replacing any earlier one |
| `Bot.BotState.Mute` | bot.py:450-473 | an invalid duration, an expiry past `datetime`'s range (OverflowError before the timeout), or a refused timeout leaves `muted_users` unchanged; otherwise the key maps to an entry expiring at now + duration, replacing any earlier one |
| `Bot.BotState.Unmute` | bot.py:523-529 | if the platform accepts, exactly the user's key is removed (no-op when absent); otherwise nothing changes |
| `Bot.BotState.CheckTempPunishments` | bot.py:633-668 | both tables become their unexpired part; a reversal is requested once for each expired key, and the deletions do not depend on its outcome |
| `Bot.BotState.Warn` | bot.py:565-581 | creates the record if needed and appends one warning with the next id; returns the new count |
| `Bot.BotState.ClearWarns` | bot.py:737-742 | creates the record if needed and empties its warnings only; returns the old count |
| `Bot.BotState.CollectGuildEntries` | bot.py:912-915 | the loop over `user_data` builds the guild list in insertion order |
| `Bot.BotState.RankQuery` | bot.py:907-971 | after creating the record, reports a defined rank in 1..n equal to 1 + the records with more XP + the records with equal XP earlier in `user_data`, the gap to the rank above (≥ 0, only when rank > 1), and the progress window |

## Left out

- Platform calls are not modelled. This covers message deletion and sending, `ban`, `unban`, `timeout`, DMs, embeds, command registration, presence and syncing. Only their success or refusal enters the model, as a boolean parameter. A refused call is any exception that skips the registry write.
- Permission and role-hierarchy checks are left out (bot.py:301, 310, 363, 441, 514, 556, 728). They read platform objects.
- `/ban` is left out. It changes no state of the engine.
- JSON persistence is left out: `save_data`, `load_data` and the 5-minute `save_data_task`. This is file I/O. `load_data`'s result is also discarded at bot.py:85. `guild_settings` is read only by the welcome message and by persistence, so it is not modelled either.
- Task scheduling and asyncio interleaving are left out. This includes the `await` inside the iteration over the registries. Each handler is one atomic step.
- `random.randint(15, 25)` is left out. The gain is a parameter constrained to 15..25.
- `datetime` values and ISO strings are left out. Times are integer seconds, so the sub-second part is not modelled in the cooldown comparison (bot.py:131) nor in the sweep's `now >= unban_time` and `now >= unmute_time` (bot.py:641, 657): within the expiry second itself the model removes an entry that the source may keep until the next sweep. Only `datetime`'s range is kept (`Registry.MaxInstant`, `Registry.MaxDeltaSeconds`); the local clock's time zone and its changes are not modelled.
- `progress_percentage` and the progress bars are left out, as floats and presentation. Only the integer progress and width are kept.
- `/leaderboard` is left out. Its member filter is a platform lookup (`get_member`), and the rest is the same sort, displayed.
- The guild statistics of `/serverinfo` are left out as display-only, along with `/help`, `/info`, the welcome message of `on_member_join`, and `/userinfo`, which reads an existing record's level, XP and message count (bot.py:814-818) but never creates or changes one. The `init_user` call of `on_member_join` (bot.py:1017) is `Bot.BotState.InitUser`.
- `/warnings` (bot.py:685) and `/profile` (bot.py:209) are not separate methods: each is `Bot.BotState.InitUser`, whose effect on `user_data` and its order (a new 0-XP record that later rank lists include) is modelled, followed by reads. The rank and progress window that `/profile` shows (bot.py:213-217, 238-246) are the ones `Bot.BotState.RankQuery` reports: the same sort and search over the same list, with the XP of each row only. Its "N/A" fallback is unreachable for the same reason as the "no data" reply of `/rank`: the record was just created. The embeds and the percentage are display.
- Registry.CollectExpired: the expired keys are returned in an unspecified order. The source requests the reversals in the insertion order of `banned_users` and `muted_users` (bot.py:639, 655); the registries are maps here, which carry no order. The set of keys and their deletion are exact.
- The sweep's guild and member lookups (`get_guild`, `get_member`) are left out. They only decide whether a reversal call is made, and every failure is swallowed. The returned key lists are where a reversal is requested.
- Duration.ParseDuration: only ASCII digits and ASCII upper-case letters are handled. Python's `\d` also matches other Unicode decimal digits, and `str.lower` folds non-ASCII letters. Nor is the limit on integer conversion of Python 3.11 and later modelled: there `int()` of an amount longer than 4300 digits raises ValueError (bot.py:619), where the model returns the amount. A zero-padded amount shows the difference: 4300 zeros followed by `1m` is 60 seconds in the model, so `/tempban` and `/mute` record an entry, while Python 3.11 and later raise and record nothing.
- Bot.BotState.TempBan: the ids stored in the entry are the strings used in the key. The source stores the platform's integer ids.
- The warning list: a record has an empty warning list from creation. The source adds the `warnings` key on the first warning, and every reader treats a missing key as an empty list.
