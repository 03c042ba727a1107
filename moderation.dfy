/**
 * The moderation cog: the warning-count punishment policy, what applying and adjusting a
 * punishment does, the `warn`, `delwarn` and `clearwarns` flows over the store, the reversal
 * task and its recovery at start-up, and the `purge`, `unban` and `banlist` commands.
 *
 * Every call into the chat platform is recorded as an `Effect`, in the order the cog makes it;
 * an effect is the attempt, whatever the platform answers.  Where the answer changes what the
 * cog does next (a direct message refused, an unban that finds no ban), the answer is a
 * parameter.  Time is whole seconds.
 */
module Moderation {
  import opened Wrappers
  import opened Seqs
  import opened Storage
  import opened BanList

  type ChannelId = int

  datatype Action = Mute | Ban

  /** An entry of the policy table: what to do and for how many seconds; `None` is permanent. */
  datatype Penalty = Penalty(action: Action, duration: Option<nat>)

  const HOUR: nat := 3600

  /** Total warnings to punishment, looked up by exact count. */
  const PUNISHMENTS: map<int, Penalty> := map[
    3 := Penalty(Mute, Some(1 * HOUR)),
    4 := Penalty(Mute, Some(12 * HOUR)),
    5 := Penalty(Mute, Some(24 * HOUR)),
    6 := Penalty(Mute, Some(168 * HOUR)),
    7 := Penalty(Mute, Some(672 * HOUR)),
    8 := Penalty(Ban, None)]

  /** The punishment for exactly `count` warnings: counts 3 to 7 mute for ever longer, 8 bans
      for good, and every other count, 9 and above included, does nothing. */
  function Policy(count: int): (r: Option<Penalty>)
    ensures r.Some? <==> 3 <= count <= 8
    ensures r.Some? ==> (r.value.action == Ban <==> count == 8)
    ensures r.Some? ==> (r.value.duration.None? <==> count == 8)
    ensures r.Some? && r.value.duration.Some? ==> r.value.duration.value >= HOUR
  {
    if count in PUNISHMENTS then Some(PUNISHMENTS[count]) else None
  }

  /** Each further warning up to the seventh mutes for strictly longer. */
  lemma PolicyEscalates(c1: int, c2: int)
    requires 3 <= c1 < c2 <= 7
    ensures Policy(c1).value.duration.value < Policy(c2).value.duration.value
  {
  }

  /** What the cog sees of a guild when a command or a task runs. */
  datatype GuildView = GuildView(
    id: GuildId,
    channels: seq<ChannelId>,   // guild.channels
    hasGeneral: bool,           // a text channel named "general" exists
    muteRoleExists: bool,       // a role named "Muted" exists
    muted: set<UserId>,         // members holding that role
    members: set<UserId>,       // users guild.get_member resolves
    bans: seq<BanEntry>)        // guild.bans()

  /** `discord.utils.get(bans, user=member)` finds an entry. */
  function IsBanned(bans: seq<BanEntry>, user: UserId): (b: bool)
    ensures b <==> exists k :: 0 <= k < |bans| && bans[k].user.id == user
  {
    var found := FindFirst(bans, HasUserId(user));
    assert forall k :: 0 <= k < |bans| ==> (HasUserId(user)(bans[k]) <==> bans[k].user.id == user);
    found.Some?
  }

  datatype Notice =
    | Warned(user: UserId, total: nat)
    | MutedFor(user: UserId, duration: Option<nat>)
    | Unmuted(user: UserId)
    | UnmutedBelowThreshold(user: UserId)
    | CannotUnmute(user: UserId)
    | AlreadyBanned(user: UserId)
    | Banned(user: UserId, duration: Option<nat>)
    | NoWarnings(user: UserId)
    | LatestWarningRemoved(user: UserId)
    | WarningsCleared(user: UserId)
    | AutoUnmuted(user: UserId)
    | AutoUnbanned(user: UserId)
    | PurgeOutOfRange
    | Purged(count: int)
    | UnbannedUser(target: User)
    | NoBannedUserFound(input: string)
    | NoUsersBanned

  datatype LogEntry =
    | WarnedBy(user: UserId, moderator: UserId)
    | WarningRemovedBy(moderator: UserId, user: UserId)
    | WarningsClearedBy(moderator: UserId, user: UserId)
    | PurgedBy(moderator: UserId, count: int)
    | UnbannedBy(target: User, moderator: UserId)

  datatype Effect =
    | Say(notice: Notice)                          // ctx.send in the command's channel
    | Announce(notice: Notice)                     // a message in the "general" channel
    | DirectMessage(user: UserId, total: nat)      // member.send
    | Log(entry: LogEntry)                         // a message in the log channel
    | CreateMuteRole
    | DenySpeech(channel: ChannelId)               // set_permissions(speak=False, send_messages=False)
    | AddMuteRole(user: UserId)
    | RemoveMuteRole(user: UserId)
    | ClearTimeout(user: UserId)                   // member.timeout(None)
    | BanMember(user: UserId, warnings: int)       // member.ban(reason="Reached {n} warnings.")
    | UnbanUser(user: UserId)
    | ScheduleUnmute(user: UserId, delay: nat)     // the unmute_later task
    | ScheduleUnban(user: UserId, delay: nat)      // the unban_later task
    | PurgeMessages(limit: int)
    | SendBanPage(page: nat, pageCount: nat, lines: seq<NumberedBan>)
    | EditBanPage(page: nat, pageCount: nat, lines: seq<NumberedBan>)
    | AddReaction(arrow: Arrow)
    | RemoveReaction(arrow: Arrow)

  /** Creating the mute role closes every channel of the guild to it. */
  function Lockdown(channels: seq<ChannelId>): (effects: seq<Effect>)
    ensures |effects| == |channels|
    ensures forall i :: 0 <= i < |effects| ==> effects[i] == DenySpeech(channels[i])
  {
    seq(|channels|, i requires 0 <= i < |channels| => DenySpeech(channels[i]))
  }

  /** `apply_punishment(member, count)`. */
  function ApplyPunishment(g: GuildView, user: UserId, count: int): (effects: seq<Effect>)
    ensures Policy(count).None? ==> effects == []
    ensures AddMuteRole(user) in effects <==> 3 <= count <= 7
    ensures 3 <= count <= 7 ==> ScheduleUnmute(user, Policy(count).value.duration.value) in effects
    ensures forall e :: e in effects && e.ScheduleUnmute? ==> 3 <= count <= 7 && e == ScheduleUnmute(user, Policy(count).value.duration.value)
    ensures BanMember(user, count) in effects <==> count == 8 && !IsBanned(g.bans, user)
    ensures count == 8 && IsBanned(g.bans, user) ==> effects == [Say(AlreadyBanned(user))]
    ensures forall e :: e in effects ==> !e.ScheduleUnban? && !e.RemoveMuteRole? && !e.UnbanUser?
  {
    match Policy(count)
    case None => []
    case Some(Penalty(Mute, duration)) =>
      var setup := if g.muteRoleExists then [] else [CreateMuteRole] + Lockdown(g.channels);
      var clear := if g.muteRoleExists && user in g.muted then [ClearTimeout(user)] else [];
      var later := if duration.Some? && duration.value > 0 then [ScheduleUnmute(user, duration.value)] else [];
      setup + clear + [AddMuteRole(user), Say(MutedFor(user, duration))] + later
    case Some(Penalty(Ban, duration)) =>
      if IsBanned(g.bans, user) then
        [Say(AlreadyBanned(user))]
      else
        var later := match duration case Some(d) => (if d > 0 then [ScheduleUnban(user, d)] else []) case None => [];
        [BanMember(user, count), Say(Banned(user, duration))] + later
  }

  /** The effects of a mute, in the order `apply_punishment` makes them. */
  lemma MuteEffects(g: GuildView, user: UserId, count: int)
    requires 3 <= count <= 7
    ensures var duration := Policy(count).value.duration;
            ApplyPunishment(g, user, count)
            == (if g.muteRoleExists then [] else [CreateMuteRole] + Lockdown(g.channels))
               + ((if g.muteRoleExists && user in g.muted then [ClearTimeout(user)] else [])
                  + [AddMuteRole(user), Say(MutedFor(user, duration))]
                  + (if duration.Some? && duration.value > 0 then [ScheduleUnmute(user, duration.value)] else []))
  {
  }

  /** A mute ends by adding the role, announcing the mute and scheduling the unmute, in that
      order, and a timeout it lifts is lifted just before the role is added. */
  lemma MuteOrder(g: GuildView, user: UserId, count: int)
    requires 3 <= count <= 7
    ensures var e := ApplyPunishment(g, user, count);
            var d := Policy(count).value.duration.value;
            |e| >= 3 && e[|e| - 3..] == [AddMuteRole(user), Say(MutedFor(user, Some(d))), ScheduleUnmute(user, d)]
    ensures g.muteRoleExists && user in g.muted ==>
              |ApplyPunishment(g, user, count)| >= 4
              && ApplyPunishment(g, user, count)[|ApplyPunishment(g, user, count)| - 4] == ClearTimeout(user)
  {
    MuteEffects(g, user, count);
  }

  /** The mute role is created, and every channel closed to it before anything else happens,
      only when the role is missing. */
  lemma MuteRoleCreatedWhenMissing(g: GuildView, user: UserId, count: int)
    ensures CreateMuteRole in ApplyPunishment(g, user, count) <==> 3 <= count <= 7 && !g.muteRoleExists
    ensures 3 <= count <= 7 && !g.muteRoleExists ==>
              |ApplyPunishment(g, user, count)| > |g.channels|
              && ApplyPunishment(g, user, count)[..1 + |g.channels|] == [CreateMuteRole] + Lockdown(g.channels)
  {
    if 3 <= count <= 7 {
      MuteEffects(g, user, count);
      assert CreateMuteRole !in Lockdown(g.channels);
    }
  }

  /** A mute lifts a timeout only when the member already holds the mute role. */
  lemma TimeoutClearedWhenHeld(g: GuildView, user: UserId, count: int)
    ensures ClearTimeout(user) in ApplyPunishment(g, user, count) <==> 3 <= count <= 7 && g.muteRoleExists && user in g.muted
  {
    if 3 <= count <= 7 {
      MuteEffects(g, user, count);
      assert ClearTimeout(user) !in Lockdown(g.channels);
    }
  }

  /** Every mute is announced with its duration, and every new ban as permanent. */
  lemma PunishmentAnnounced(g: GuildView, user: UserId, count: int)
    ensures 3 <= count <= 7 ==> Say(MutedFor(user, Policy(count).value.duration)) in ApplyPunishment(g, user, count)
    ensures count == 8 && !IsBanned(g.bans, user) ==> Say(Banned(user, None)) in ApplyPunishment(g, user, count)
  {
    if 3 <= count <= 7 {
      MuteEffects(g, user, count);
    }
  }

  /** `adjust_punishment_after_change(member, count)`: below three warnings the mute role and any
      timeout are lifted; from three on nothing happens. */
  function AdjustPunishmentAfterChange(g: GuildView, user: UserId, count: int): (effects: seq<Effect>)
    ensures effects != [] <==> count < 3
    ensures count < 3 ==> effects[|effects| - 1] == ClearTimeout(user)
    ensures RemoveMuteRole(user) in effects <==> count < 3 && g.muteRoleExists && user in g.muted
    ensures forall e :: e in effects ==> !e.AddMuteRole? && !e.BanMember? && !e.UnbanUser?
  {
    if count < 3 then
      (if g.muteRoleExists && user in g.muted
       then [RemoveMuteRole(user), Say(UnmutedBelowThreshold(user))]
       else [])
      + [ClearTimeout(user)]
    else
      []
  }

  /** After a warning is removed, re-applying and adjusting never both act on one count. */
  lemma ApplyOrAdjust(g: GuildView, user: UserId, count: int)
    ensures ApplyPunishment(g, user, count) == [] || AdjustPunishmentAfterChange(g, user, count) == []
  {
  }

  /** `max(0, ends_at - now)`, the seconds a reversal still has to wait. */
  function RemainingDelay(endsAt: int, now: int): (d: nat)
    ensures d >= endsAt - now
    ensures d == 0 || d == endsAt - now
  {
    if endsAt - now <= 0 then 0 else endsAt - now
  }

  /** A `_delayed_unpunish` task started by `cog_load`. */
  datatype UnpunishTask = UnpunishTask(userId: UserId, guildId: GuildId, action: string, delay: nat)

  function TaskFor(a: ActivePunishment, now: int): (t: UnpunishTask)
    ensures t.userId == a.userId && t.guildId == a.guildId && t.action == a.action
    ensures t.delay == 0 <==> a.endsAt <= now
    ensures t.delay > 0 ==> now + t.delay == a.endsAt
  {
    UnpunishTask(a.userId, a.guildId, a.action, RemainingDelay(a.endsAt, now))
  }

  /** Both the guild and the member can be looked up when a reversal task wakes. */
  predicate Resolves(guilds: map<GuildId, GuildView>, guildId: GuildId, userId: UserId) {
    guildId in guilds && userId in guilds[guildId].members
  }

  /** `purge` accepts 1 to 100 messages. */
  predicate PurgeAmountValid(amount: int) {
    !(amount <= 0 || amount > 100)
  }

  class ModeratingCog {
    const db: Database
    const logChannelId: Option<ChannelId>

    constructor (db: Database, logChannelId: Option<ChannelId>)
      ensures this.db == db && this.logChannelId == logChannelId
    {
      this.db := db;
      this.logChannelId := logChannelId;
    }

    /** `send_log`: silent when no log channel is configured (an id of 0 counts as none) or the
        guild has no channel with that id. */
    function SendLog(g: GuildView, entry: LogEntry): (effects: seq<Effect>)
      ensures effects == [] || effects == [Log(entry)]
      ensures effects != [] <==> logChannelId.Some? && logChannelId.value != 0 && logChannelId.value in g.channels
    {
      if logChannelId.None? || logChannelId.value == 0 then []
      else if logChannelId.value in g.channels then [Log(entry)]
      else []
    }

    /** `cog_load`: one reversal task per punishment row with an end time, waiting until that
        end time, or not at all when it has passed.  Permanent rows get no task. */
    method CogLoad(now: int) returns (tasks: seq<UnpunishTask>)
      ensures |tasks| == |ActiveOf(db.punishments)|
      ensures forall i :: 0 <= i < |tasks| ==> tasks[i] == TaskFor(ActiveOf(db.punishments)[i], now)
      ensures forall p :: p in db.punishments && p.endsAt.Some? ==> TaskFor(Active(p), now) in tasks
      ensures forall t :: t in tasks ==> exists p :: p in db.punishments && p.endsAt.Some? && t == TaskFor(Active(p), now)
    {
      var rows := db.GetAllActivePunishments();
      tasks := [];
      for i := 0 to |rows|
        invariant |tasks| == i
        invariant forall k :: 0 <= k < i ==> tasks[k] == TaskFor(rows[k], now)
      {
        var row := rows[i];
        var delay := row.endsAt - now;
        if delay <= 0 {
          delay := 0;
        }
        tasks := tasks + [UnpunishTask(row.userId, row.guildId, row.action, delay)];
      }
      forall p | p in db.punishments && p.endsAt.Some?
        ensures TaskFor(Active(p), now) in tasks
      {
        assert Active(p) in rows;
        var i :| 0 <= i < |rows| && rows[i] == Active(p);
        assert tasks[i] == TaskFor(Active(p), now);
      }
      forall t | t in tasks
        ensures exists p :: p in db.punishments && p.endsAt.Some? && t == TaskFor(Active(p), now)
      {
        var i :| 0 <= i < |tasks| && tasks[i] == t;
        assert rows[i] in rows;
      }
    }

    /** `_delayed_unpunish` once its delay has passed: when the guild or the member cannot be
        resolved it returns and the row stays; otherwise it lifts the mute or the ban and deletes
        every row of (user, guild, action). */
    method DelayedUnpunish(guilds: map<GuildId, GuildView>, userId: UserId, guildId: GuildId, action: string)
      returns (effects: seq<Effect>)
      requires db.Valid()
      modifies db
      ensures db.Valid()
      ensures db.warnings == old(db.warnings) && db.nextWarningId == old(db.nextWarningId)
      ensures !Resolves(guilds, guildId, userId) ==> db.punishments == old(db.punishments) && effects == []
      ensures Resolves(guilds, guildId, userId) ==>
                db.punishments == WithoutKey(old(db.punishments), userId, guildId, action)
      ensures Resolves(guilds, guildId, userId) ==>
                var g := guilds[guildId];
                effects ==
                  if action == "mute" then
                    if g.muteRoleExists && userId in g.muted then
                      [RemoveMuteRole(userId)] + (if g.hasGeneral then [Announce(AutoUnmuted(userId))] else [])
                    else []
                  else if action == "ban" then
                    [UnbanUser(userId)]
                    + (if IsBanned(g.bans, userId) && g.hasGeneral then [Announce(AutoUnbanned(userId))] else [])
                  else []
    {
      if guildId !in guilds {
        return [];
      }
      var g := guilds[guildId];
      if userId !in g.members {
        return [];
      }
      effects := [];
      if action == "mute" {
        if g.muteRoleExists && userId in g.muted {
          effects := [RemoveMuteRole(userId)];
          if g.hasGeneral {
            effects := effects + [Announce(AutoUnmuted(userId))];
          }
        }
      } else if action == "ban" {
        effects := [UnbanUser(userId)];
        if IsBanned(g.bans, userId) && g.hasGeneral {
          effects := effects + [Announce(AutoUnbanned(userId))];
        }
      }
      db.DeletePunishment(userId, guildId, action);
    }

    /** `warn`: records one more warning for (member, guild), then applies the policy when the new
        total is one of its counts. */
    method Warn(g: GuildView, user: UserId, moderator: UserId, reason: string, timestamp: string, dmDelivered: bool)
      returns (total: nat, effects: seq<Effect>)
      requires db.Valid()
      modifies db
      ensures db.Valid()
      ensures db.warnings == old(db.warnings) + [WarningRow(old(db.nextWarningId), user, g.id, moderator, reason, timestamp, None)]
      ensures db.punishments == old(db.punishments) && db.nextWarningId == old(db.nextWarningId) + 1
      ensures total == old(CountFor(db.warnings, user, g.id)) + 1 == CountFor(db.warnings, user, g.id)
      ensures effects == [Say(Warned(user, total)), DirectMessage(user, total)]
                         + (if dmDelivered then SendLog(g, WarnedBy(user, moderator)) else [])
                         + (if total in PUNISHMENTS then ApplyPunishment(g, user, total) else [])
    {
      ghost var before := db.warnings;
      ghost var row := WarningRow(db.nextWarningId, user, g.id, moderator, reason, timestamp, None);
      db.AddWarning(user, g.id, moderator, reason, timestamp);
      AddWarningCounts(before, row, user, g.id);
      total := db.GetWarningsCount(user, g.id);
      var logged := if dmDelivered then SendLog(g, WarnedBy(user, moderator)) else [];
      var punished := if total in PUNISHMENTS then ApplyPunishment(g, user, total) else [];
      effects := [Say(Warned(user, total)), DirectMessage(user, total)] + logged + punished;
    }

    /** `delwarn`: with no warning for the pair nothing changes; otherwise the pair's newest
        warning (highest id) is deleted, the count drops by one, and the policy is re-applied and
        then adjusted for the new count, in that order. */
    method DelWarn(g: GuildView, user: UserId, moderator: UserId) returns (removed: bool, effects: seq<Effect>)
      requires db.Valid()
      modifies db
      ensures db.Valid()
      ensures db.punishments == old(db.punishments) && db.nextWarningId == old(db.nextWarningId)
      ensures removed <==> old(CountFor(db.warnings, user, g.id)) > 0
      ensures !removed ==> db.warnings == old(db.warnings) && effects == [Say(NoWarnings(user))]
      ensures removed ==> db.warnings == WithoutId(old(db.warnings), MaxId(old(WarningsFor(db.warnings, user, g.id))))
      ensures removed ==> CountFor(db.warnings, user, g.id) == old(CountFor(db.warnings, user, g.id)) - 1
      ensures removed ==> forall u, h :: (u, h) != (user, g.id) ==> WarningsFor(db.warnings, u, h) == old(WarningsFor(db.warnings, u, h))
      ensures removed ==>
                var count := CountFor(db.warnings, user, g.id);
                effects == [Say(LatestWarningRemoved(user))] + SendLog(g, WarningRemovedBy(moderator, user))
                           + ApplyPunishment(g, user, count) + AdjustPunishmentAfterChange(g, user, count)
    {
      ghost var before := db.warnings;
      NoneForPair(before, user, g.id);
      var row := db.GetOneUserWarning(user, g.id);
      if row.None? {
        return false, [Say(NoWarnings(user))];
      }
      removed := true;
      db.DeleteLastWarning(row.value);
      DeleteByIdCount(before, row.value, user, g.id);
      forall u, h | (u, h) != (user, g.id)
        ensures WarningsFor(db.warnings, u, h) == WarningsFor(before, u, h)
      {
        DeleteByIdOthers(before, row.value, user, g.id, u, h);
      }
      effects := [Say(LatestWarningRemoved(user))] + SendLog(g, WarningRemovedBy(moderator, user));
      var count := db.GetWarningsCount(user, g.id);
      effects := effects + ApplyPunishment(g, user, count);
      effects := effects + AdjustPunishmentAfterChange(g, user, count);
    }

    /** `clearwarns`: deletes every warning of the pair, then lifts the timeout, the mute role if
        held, and any ban.  Punishment rows are left as they are. */
    method ClearWarns(g: GuildView, user: UserId, moderator: UserId, mayRemoveRole: bool) returns (effects: seq<Effect>)
      requires db.Valid()
      modifies db
      ensures db.Valid()
      ensures db.warnings == WithoutPair(old(db.warnings), user, g.id)
      ensures CountFor(db.warnings, user, g.id) == 0
      ensures forall u, h :: (u, h) != (user, g.id) ==> WarningsFor(db.warnings, u, h) == old(WarningsFor(db.warnings, u, h))
      ensures db.punishments == old(db.punishments) && db.nextWarningId == old(db.nextWarningId)
      ensures effects == [Say(WarningsCleared(user))] + SendLog(g, WarningsClearedBy(moderator, user))
                         + [ClearTimeout(user)]
                         + (if g.muteRoleExists && user in g.muted
                            then [RemoveMuteRole(user), Say(if mayRemoveRole then Unmuted(user) else CannotUnmute(user))]
                            else [])
                         + [UnbanUser(user)]
    {
      ghost var before := db.warnings;
      db.DeleteAllUserWarnings(user, g.id);
      forall u, h
        ensures CountFor(db.warnings, user, g.id) == 0
        ensures (u, h) != (user, g.id) ==> WarningsFor(db.warnings, u, h) == WarningsFor(before, u, h)
      {
        DeleteAllCounts(before, user, g.id, u, h);
      }
      DeleteAllCounts(before, user, g.id, user, g.id);
      effects := [Say(WarningsCleared(user))] + SendLog(g, WarningsClearedBy(moderator, user));
      effects := effects + [ClearTimeout(user)];
      if g.muteRoleExists && user in g.muted {
        effects := effects + [RemoveMuteRole(user), Say(if mayRemoveRole then Unmuted(user) else CannotUnmute(user))];
      }
      effects := effects + [UnbanUser(user)];
    }

    /** `purge amount`: outside 1..100 only a notice; otherwise the channel's last `amount`
        messages and the command itself are deleted and the count of the others reported.
        `deleted` is how many messages the platform reports deleted. */
    function Purge(g: GuildView, moderator: UserId, amount: int, deleted: nat): (effects: seq<Effect>)
      ensures !PurgeAmountValid(amount) ==> effects == [Say(PurgeOutOfRange)]
      ensures PurgeAmountValid(amount) ==> 1 <= amount <= 100 && |effects| >= 2 && effects[0] == PurgeMessages(amount + 1)
      ensures (exists i :: 0 <= i < |effects| && effects[i].PurgeMessages?) <==> 1 <= amount <= 100
    {
      if amount <= 0 || amount > 100 then
        [Say(PurgeOutOfRange)]
      else
        [PurgeMessages(amount + 1), Say(Purged(deleted - 1))] + SendLog(g, PurgedBy(moderator, deleted - 1))
    }

    /** `unban input`: lifts the ban of the first entry whose id is the input without its mention
        characters, else of the first entry whose name is the input ignoring case. */
    method Unban(g: GuildView, moderator: UserId, input: string) returns (target: Option<User>, effects: seq<Effect>)
      ensures target == (match UnbanTarget(g.bans, input) case Some(i) => Some(g.bans[i].user) case None => None)
      ensures target.Some? ==> effects == [UnbanUser(target.value.id), Say(UnbannedUser(target.value))]
                                          + SendLog(g, UnbannedBy(target.value, moderator))
      ensures target.None? ==> effects == [Say(NoBannedUserFound(input))]
    {
      var bans := g.bans;
      var parsed := ParseInt(StripMention(input));
      if parsed.Some? {
        var i := 0;
        while i < |bans|
          invariant 0 <= i <= |bans|
          invariant forall k :: 0 <= k < i ==> bans[k].user.id != parsed.value
        {
          if bans[i].user.id == parsed.value {
            UnbanById(bans, input, i);
            target := Some(bans[i].user);
            effects := [UnbanUser(bans[i].user.id), Say(UnbannedUser(bans[i].user))]
                       + SendLog(g, UnbannedBy(bans[i].user, moderator));
            return;
          }
          i := i + 1;
        }
      }
      var lowered := Lower(input);
      var j := 0;
      while j < |bans|
        invariant 0 <= j <= |bans|
        invariant forall k :: 0 <= k < j ==> Lower(bans[k].user.name) != lowered
      {
        if Lower(bans[j].user.name) == lowered {
          UnbanByName(bans, input, j);
          target := Some(bans[j].user);
          effects := [UnbanUser(bans[j].user.id), Say(UnbannedUser(bans[j].user))]
                     + SendLog(g, UnbannedBy(bans[j].user, moderator));
          return;
        }
        j := j + 1;
      }
      UnbanNoMatch(bans, input);
      target := None;
      effects := [Say(NoBannedUserFound(input))];
    }

    /** `banlist`: shows page 1 of the ban list in pages of five and follows the moderator's arrow
        reactions (given in order, up to the timeout) without ever leaving the pages; `index` is
        the page shown last. */
    method Banlist(g: GuildView, arrows: seq<Arrow>) returns (index: nat, effects: seq<Effect>)
      ensures g.bans == [] ==> index == 0 && effects == [Say(NoUsersBanned)]
      ensures g.bans != [] ==> index == Walk(|Pages(g.bans)|, arrows) && index < |Pages(g.bans)|
      ensures g.bans != [] ==> forall e :: e in effects && (e.SendBanPage? || e.EditBanPage?) ==>
                e.page < e.pageCount == |Pages(g.bans)| && e.lines == PageLines(Pages(g.bans), e.page)
      ensures g.bans != [] ==> |effects| > 0 && effects[0] == SendBanPage(0, |Pages(g.bans)|, PageLines(Pages(g.bans), 0))
    {
      if g.bans == [] {
        return 0, [Say(NoUsersBanned)];
      }
      var pages := Pages(g.bans);
      PagesPartition(g.bans);
      index := 0;
      effects := [SendBanPage(0, |pages|, PageLines(pages, 0)), AddReaction(LeftArrow), AddReaction(RightArrow)];
      var n := 0;
      while n < |arrows|
        invariant 0 <= n <= |arrows|
        invariant index == Walk(|pages|, arrows[..n])
        invariant index < |pages|
        invariant |effects| > 0 && effects[0] == SendBanPage(0, |pages|, PageLines(pages, 0))
        invariant forall e :: e in effects && (e.SendBanPage? || e.EditBanPage?) ==>
                    e.page < e.pageCount == |pages| && e.lines == PageLines(pages, e.page)
      {
        var arrow := arrows[n];
        assert arrows[..n + 1][..n] == arrows[..n];
        match Step(index, |pages|, arrow) {
          case Some(next) =>
            index := next;
            effects := effects + [EditBanPage(index, |pages|, PageLines(pages, index)), RemoveReaction(arrow)];
          case None =>
            effects := effects + [RemoveReaction(arrow)];
        }
        n := n + 1;
      }
      assert arrows[..n] == arrows;
    }
  }
}
