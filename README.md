# Moderation bot core in Dafny

This project models the moderation core of a Discord bot. Warnings and timed punishments live in
a MySQL store, and the moderation cog turns warning counts into mutes and bans. The model covers:

- the store's two tables and the statements the cog issues against them (`storage.dfy`,
  module `Storage`, class `Storage.Database`);
- the warning-count policy, what applying and adjusting a punishment does, the `warn`,
  `delwarn` and `clearwarns` flows, the start-up recovery of reversal tasks and the reversal
  itself, and the `purge`, `unban` and `banlist` commands (`moderation.dfy`, module
  `Moderation`, class `Moderation.ModeratingCog`);
- the pure parts of `unban` and `banlist`: mention stripping, integer parsing, case-insensitive
  name matching, pages of five, entry numbering and arrow navigation (`banlist.dfy`, module
  `BanList`);
- `Filter`, the `WHERE` clause, and `FindFirst`, the linear search (`seqs.dfy`, module `Seqs`),
  and `Option` (`wrappers.dfy`).

Tables are sequences of rows in insertion order, and the `AUTO_INCREMENT` counter of `warnings`
is a field. `Database.Valid()` states the invariant every state-changing statement keeps:
ids are positive, strictly increasing along the table, and below the counter.

Every call the cog makes into the chat platform is recorded as an `Effect`, in call order. An
effect records the attempt, whatever the platform answers. Where the answer changes what the cog
does next, it is a parameter:
- `dmDelivered` in `Warn`;
- `mayRemoveRole` in `ClearWarns`;
- `deleted` in `Purge`;
- the `GuildView` handed to each command (the roles, members and bans it finds);
- the map of guilds a reversal task finds when it wakes.

Time is whole seconds.

The model follows the code as written:
- `clearwarns` deletes warnings only. It leaves `punishments` rows and scheduled tasks alone.
- Nothing in the code inserts into `punishments`. The rows that `cog_load` recovers come from
  an earlier state of the store, which the `Database` constructor takes as given.
- `_delayed_unpunish` returns without deleting the row when the guild or the member cannot be
  resolved. A banned user cannot be a member of the guild, so the task never lifts a ban. It
  gets past the member lookup only for a user who was already unbanned and has rejoined; the
  unban then finds no ban, and the task just deletes the row.

## Model

| member | source | states |
|---|---|---|
| Storage.Database.constructor | database.py:51-69 | the store opens on persisted `warnings` and `punishments` tables; the `warnings` ids are positive, increasing and below the counter, and `punishments` is taken as given |
| Storage.Database.AddWarning | database.py:95-103 | appends exactly one row with the next auto-increment id, the given fields and a NULL `ended_at`; the counter advances by one; `punishments` is untouched; the table invariant is kept |
| Storage.Database.GetWarningsCount | database.py:105-113 | the count is the number of rows of the (user, guild) pair, and it is 0 exactly when no row belongs to the pair |
| Storage.Database.GetAllUserWarnings | database.py:115-123 | one (reason, timestamp, moderator) entry per row of the pair, in table order, and as many entries as the count |
| Storage.Database.GetOneUserWarning | database.py:125-134 | `None` exactly when the pair has no row; otherwise the id of one of the pair's rows that no other row of the pair exceeds (the newest) |
| Storage.Database.DeleteLastWarning | database.py:136-143 | the table loses the rows with that id and keeps the rest in order; the invariant and `punishments` are kept |
| Storage.Database.DeleteAllUserWarnings | database.py:145-152 | the table loses exactly the pair's rows; the invariant and `punishments` are kept |
| Storage.Database.GetAllActivePunishments | database.py:76-84 | a row is returned exactly when it is the projection of a `punishments` row whose `ends_at` is set, in table order |
| Storage.Database.DeletePunishment | database.py:86-93 | `punishments` loses the rows of (user, guild, action) and keeps the rest; `warnings` is untouched |
| Storage.WarningsFor | database.py:118-122 | a row belongs to the result if and only if it is in the table and carries the pair's user and guild |
| Storage.CountFor | database.py:108-113 | the count never exceeds the table size, and it is 0 exactly when no row belongs to the pair |
| Storage.ActiveOf | database.py:79-84 | at most one projection per row, and each projection comes from a row whose `ends_at` is set |
| Storage.NoneForPair | database.py:105-113 | the count of a pair is 0 if and only if no row belongs to it |
| Storage.FilterKeepsOrder | database.py:136-152 | every `DELETE ... WHERE` keeps the ids increasing and only keeps rows that were there |
| Storage.AddWarningCounts | database.py:95-113 | an insert raises its own pair's count by one and leaves every other pair's count unchanged |
| Storage.DeleteAllCounts | database.py:145-152 | after the delete the pair's count is 0 and every other pair keeps exactly the rows it had |
| Storage.DeleteByIdOthers | database.py:136-143 | deleting a row of one pair by id leaves every other pair's rows unchanged, because ids are unique |
| Storage.DeleteByIdCount | database.py:136-143 | deleting an existing id of a pair lowers that pair's count by exactly one |
| Storage.DeletePunishmentExact | database.py:86-93 | a row survives the delete if and only if it was there and does not carry the key |
| Storage.ActiveOfMembership | database.py:76-84 | a projection is in the result if and only if some row with a set `ends_at` projects to it |
| Storage.MaxId | database.py:129-132 | `ORDER BY id DESC LIMIT 1` picks an id that is present and that no row exceeds |
| Seqs.Filter | database.py:110 | a `WHERE` result is no longer than the table, and holds only rows of the table that satisfy the condition |
| Seqs.FilterAppend | database.py:95-113 | filtering the table with an appended row is the old filter plus the row if it matches |
| Seqs.FilterMembership | database.py:145-152 | a row is in a `WHERE` result if and only if it is in the table and satisfies the condition |
| Seqs.FilterAbsorbs | database.py:136-152 | a second condition that only keeps rows the first one kept makes the first redundant |
| Seqs.FindFirst | cogs/moderation.py:380-394 | the first index whose entry matches, with no match before it; `None` exactly when no entry matches |
| Moderation.Policy | cogs/moderation.py:18-25 | there is a punishment exactly for counts 3 to 8; count 8 is a permanent ban; counts 3 to 7 mute for at least an hour |
| Moderation.PolicyEscalates | cogs/moderation.py:19-23 | each count from 3 to 7 mutes strictly longer than the counts below it |
| Moderation.Lockdown | cogs/moderation.py:118-119 | one speech-denying permission per guild channel, in channel order |
| Moderation.IsBanned | cogs/moderation.py:136-137 | a member counts as banned exactly when some ban entry carries the member's id |
| Moderation.ApplyPunishment | cogs/moderation.py:102-151 | no effect without a policy entry; the mute role is added exactly for counts 3 to 7, with an unmute scheduled for the policy's duration; a ban is issued exactly at 8 when the member is not already banned, and an already banned member only gets a notice; applying never removes the mute role, unbans or schedules an unban |
| Moderation.MuteRoleCreatedWhenMissing | cogs/moderation.py:114-119 | the mute role is created exactly when a mute is applied and no role named "Muted" exists, and then every channel is closed to it before anything else |
| Moderation.TimeoutClearedWhenHeld | cogs/moderation.py:121-122 | a mute lifts the member's timeout exactly when the role already existed and the member holds it |
| Moderation.MuteOrder | cogs/moderation.py:121-133 | a mute ends by adding the role, announcing the mute and scheduling the unmute for the policy's duration, in that order; a timeout it lifts is lifted just before the role is added |
| Moderation.PunishmentAnnounced | cogs/moderation.py:124-143 | every mute is announced with its duration, and every new ban at 8 warnings as permanent |
| Moderation.AdjustPunishmentAfterChange | cogs/moderation.py:153-171 | acts exactly below 3 warnings, always ending by lifting the timeout; the mute role is removed exactly when it exists and the member holds it; it never mutes, bans or unbans |
| Moderation.ApplyOrAdjust | cogs/moderation.py:296-297 | for any count, at most one of re-applying and adjusting has an effect |
| Moderation.TaskFor | cogs/moderation.py:57-64 | a recovered task keeps the row's user, guild and action, runs at once exactly when the end time has passed, and otherwise waits exactly until it |
| Moderation.RemainingDelay | cogs/moderation.py:60-62 | the delay is never negative and is either 0 or the time left until the end |
| Moderation.ModeratingCog.constructor | cogs/moderation.py:13-17 | the cog holds the given store and the optional log channel id |
| Moderation.ModeratingCog.SendLog | cogs/moderation.py:30-44 | a log message is sent exactly when a non-zero log channel id is configured and the guild has that channel |
| Moderation.ModeratingCog.CogLoad | cogs/moderation.py:46-64 | one reversal task per active row, in order, each waiting until the row's end or not at all; every row with an end time gets a task and every task comes from such a row |
| Moderation.ModeratingCog.DelayedUnpunish | cogs/moderation.py:66-100 | an unresolved guild or member leaves the store and the platform untouched; otherwise a held mute role is removed, or an unban is attempted and announced only if the user was banned, and the key's rows are deleted |
| Moderation.ModeratingCog.Warn | cogs/moderation.py:225-248 | stores exactly one new warning, which takes the next auto-increment id, and the counter advances by one; the reported total is the old count plus one; the log is written only if the direct message was delivered; the policy is applied exactly when the total is a policy count |
| Moderation.ModeratingCog.DelWarn | cogs/moderation.py:275-297 | with no warning nothing changes; otherwise the pair's newest warning is deleted, its count drops by one, every other pair is unchanged, and re-applying then adjusting follow for the new count |
| Moderation.ModeratingCog.ClearWarns | cogs/moderation.py:299-329 | the pair's warnings are all deleted and every other pair's stay; `punishments` is untouched; the timeout is lifted, the mute role removed if held, and an unban attempted |
| Moderation.ModeratingCog.Purge | cogs/moderation.py:173-188 | an amount outside 1..100 yields only a notice; a valid amount deletes amount + 1 messages, the command included |
| Moderation.ModeratingCog.Unban | cogs/moderation.py:367-396 | the user lifted is the one `UnbanTarget` names, followed by a confirmation and a log line; with no target only a notice is sent |
| Moderation.ModeratingCog.Banlist | cogs/moderation.py:398-443 | with no bans only a notice; otherwise the first page is shown, the index follows the arrows and never leaves the pages, and every page shown holds that page's numbered lines |
| BanList.TrimStart | cogs/moderation.py:379 | the result is a suffix of the input, does not start with a mention character, and only mention characters were dropped |
| BanList.TrimEnd | cogs/moderation.py:379 | the result is a prefix of the input, does not end with a mention character, and only mention characters were dropped |
| BanList.StripMentionEnds | cogs/moderation.py:379 | the stripped input is no longer than the input, neither starts nor ends with `<`, `@`, `!` or `>`, and is empty exactly when the input consists of those characters only |
| BanList.ParseInt | cogs/moderation.py:379-387 | parsing succeeds exactly on a non-empty run of ASCII digits, optionally preceded by `+` or `-`, and yields its signed decimal value; any other text is the `ValueError` that sends `unban` on to name matching |
| BanList.DecimalRoundTrip | cogs/moderation.py:379 | the parse inverts the decimal spelling of every id, the reference spelling an id has inside a mention |
| BanList.LowerFolds | cogs/moderation.py:390 | lower-casing keeps the length, turns each ASCII capital into its own lower-case letter, and changes no other character |
| BanList.LowerMatches | cogs/moderation.py:390 | a banned name matches the input exactly when both have the same length and agree character by character up to ASCII case |
| BanList.TrimStartPrefix | cogs/moderation.py:379 | stripping removes a leading run of mention characters and stops at the first other character |
| BanList.TrimEndSuffix | cogs/moderation.py:379 | stripping removes a trailing run of mention characters and stops at the last other character |
| BanList.MentionResolves | cogs/moderation.py:379 | the mentions `<@id>` and `<@!id>` parse back to the id |
| BanList.UnbanTarget | cogs/moderation.py:377-396 | a target is an entry of the list that matches the input by id or by name ignoring case; no target means no entry matches either way |
| BanList.UnbanById | cogs/moderation.py:378-385 | when the stripped input parses to an id some entry carries, the first such entry is the target, whatever the names say |
| BanList.UnbanByName | cogs/moderation.py:386-394 | when no entry carries the parsed id, or the input does not parse, the first entry whose name equals the input ignoring case is the target |
| BanList.UnbanNoMatch | cogs/moderation.py:396 | with neither an id match nor a name match there is no target |
| BanList.Pages | cogs/moderation.py:411 | there are ceil(n / 5) pages and each holds between one and five entries |
| BanList.PagesPartition | cogs/moderation.py:411 | there are ceil(n / 5) pages and reading them in order gives back the ban list |
| BanList.PageContents | cogs/moderation.py:411 | page k holds entries 5k onward; no page is empty and every page but the last holds five entries |
| BanList.ReasonText | cogs/moderation.py:460 | the reason shown is never empty: the entry's reason when it has a non-empty one, otherwise "No reason provided" |
| BanList.PageLines | cogs/moderation.py:458-463 | one line per entry of the page, in order, with that entry's user and reason, numbered consecutively from 1 + 5 × page index |
| BanList.BanlistNumbering | cogs/moderation.py:445-466 | the number shown before an entry is its 1-based position in the whole ban list, on every page |
| BanList.Step | cogs/moderation.py:430-436 | right moves one page on and left one page back; a move is refused exactly at the last page going right or the first going left; an index on a page stays on a page |
| BanList.Walk | cogs/moderation.py:426-443 | the page reached never lies below the first page nor further on than the number of reactions |
| BanList.WalkInBounds | cogs/moderation.py:426-443 | for any sequence of arrows the index stays within the pages |

## Left out

- Discord I/O is recorded as `Effect` values. Message wording, embeds, colours, emoji and the
  `delete_after` timer are not modelled; each message is a `Notice` or a `LogEntry` constructor.
- `asyncio` sleeping and task scheduling: a scheduled task is a `ScheduleUnmute`/`ScheduleUnban`
  effect or an `UnpunishTask`. The bodies of `unmute_later` and `unban_later` are not modelled.
  `DelayedUnpunish` models `_delayed_unpunish` from the moment its sleep ends.
- `datetime`: `utcnow()` is the `now` parameter. `cog_load` reads the clock once per row,
  while `CogLoad` uses one `now` for every row, so the time spent between rows is not modelled.
  `ends_at` is stored as whole seconds rather than an ISO-8601 string parsed by `fromisoformat`. Fractional seconds are not modelled.
  The warning timestamp is an opaque string supplied by the caller.
- The connection pool: `connect`, `close` and `create_tables` are not modelled, except for the
  table layout they create (the row datatypes and the constructor).
- `bot.py` (start-up, configuration, cog registration) is not part of this model.
- The commands `mute`, `unmute`, `kick`, `ban` and `warns` are not modelled. Their only store
  access is `get_all_user_warnings`, which is.
- BanList.ParseInt: Python's `int()` also accepts surrounding whitespace, `_` digit separators
  and non-ASCII digits. The model accepts only an optional sign followed by ASCII digits.
- BanList.Lower: `str.lower()` is modelled for ASCII letters only.
- `BIGINT` and `INT` column bounds are not modelled; ids are unbounded integers.
- `SELECT` row order is taken to be insertion order. SQL does not promise this without
  `ORDER BY`.
- Exceptions other than those the cog catches are not modelled. For example, `Forbidden` on
  the unban inside `_delayed_unpunish` would abort the task before the row is deleted.
  `Forbidden` on `member.send` is the `dmDelivered` parameter, and `Forbidden` on
  `remove_roles` in `clearwarns` is `mayRemoveRole`.
- Moderation.ModeratingCog.Purge: the reported count `len(deleted) - 1` is taken from the
  `deleted` parameter as given. The model does not bound it by the requested limit.
- Moderation.ModeratingCog.Banlist: the reaction filter (same author, same message, one of the
  two arrows) and the 60-second timeout are folded into the `arrows` parameter. It holds the
  accepted reactions in order, up to the timeout.
