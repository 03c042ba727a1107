/**
 * The bot's MySQL store: the `warnings` and `punishments` tables and one method per SQL
 * statement the moderation cog issues.  Tables are sequences of rows; a `WHERE` clause is a
 * `Filter`; the `AUTO_INCREMENT` counter of `warnings` is a field.
 */
module Storage {
  import opened Wrappers
  import opened Seqs

  type UserId = int
  type GuildId = int

  /** A row of `warnings`.  `endedAt` is the nullable `ended_at` column, which nothing writes. */
  datatype WarningRow = WarningRow(
    id: int,
    userId: UserId,
    guildId: GuildId,
    moderatorId: UserId,
    reason: string,
    timestamp: string,
    endedAt: Option<string>)

  /** A row of `punishments`; `endsAt` is the nullable `ends_at` column, in seconds. */
  datatype PunishmentRow = PunishmentRow(
    id: int,
    userId: UserId,
    guildId: GuildId,
    action: string,
    endsAt: Option<int>)

  /** The projection `SELECT reason, timestamp, moderator_id`. */
  datatype WarningEntry = WarningEntry(reason: string, timestamp: string, moderatorId: UserId)

  /** The projection `SELECT user_id, guild_id, action, ends_at` of a row whose `ends_at` is set. */
  datatype ActivePunishment = ActivePunishment(userId: UserId, guildId: GuildId, action: string, endsAt: int)

  // ---------------------------------------------------------------- WHERE clauses

  function OfPair(u: UserId, g: GuildId): WarningRow -> bool {
    (w: WarningRow) => w.userId == u && w.guildId == g
  }

  function NotOfPair(u: UserId, g: GuildId): WarningRow -> bool {
    (w: WarningRow) => !(w.userId == u && w.guildId == g)
  }

  function IdIsNot(id: int): WarningRow -> bool {
    (w: WarningRow) => w.id != id
  }

  function HasEnd(): PunishmentRow -> bool {
    (p: PunishmentRow) => p.endsAt.Some?
  }

  function NotKey(u: UserId, g: GuildId, action: string): PunishmentRow -> bool {
    (p: PunishmentRow) => !(p.userId == u && p.guildId == g && p.action == action)
  }

  /** The warnings of one (user, guild) pair, in table order. */
  function WarningsFor(ws: seq<WarningRow>, u: UserId, g: GuildId): (mine: seq<WarningRow>)
    ensures forall w :: w in mine <==> w in ws && w.userId == u && w.guildId == g
  {
    forall w ensures w in Filter(ws, OfPair(u, g)) <==> w in ws && OfPair(u, g)(w) {
      FilterMembership(ws, OfPair(u, g), w);
    }
    Filter(ws, OfPair(u, g))
  }

  /** `SELECT COUNT(*) FROM warnings WHERE user_id = u AND guild_id = g`. */
  function CountFor(ws: seq<WarningRow>, u: UserId, g: GuildId): (n: nat)
    ensures n <= |ws|
    ensures n == 0 <==> forall w :: w in ws ==> !(w.userId == u && w.guildId == g)
  {
    var mine := WarningsFor(ws, u, g);
    assert mine != [] ==> mine[0] in mine;
    |mine|
  }

  function WithoutId(ws: seq<WarningRow>, id: int): seq<WarningRow> {
    Filter(ws, IdIsNot(id))
  }

  function WithoutPair(ws: seq<WarningRow>, u: UserId, g: GuildId): seq<WarningRow> {
    Filter(ws, NotOfPair(u, g))
  }

  function WithoutKey(ps: seq<PunishmentRow>, u: UserId, g: GuildId, action: string): seq<PunishmentRow> {
    Filter(ps, NotKey(u, g, action))
  }

  function Entry(w: WarningRow): WarningEntry {
    WarningEntry(w.reason, w.timestamp, w.moderatorId)
  }

  function Active(p: PunishmentRow): ActivePunishment
    requires p.endsAt.Some?
  {
    ActivePunishment(p.userId, p.guildId, p.action, p.endsAt.value)
  }

  /** `SELECT user_id, guild_id, action, ends_at FROM punishments WHERE ends_at IS NOT NULL`. */
  function ActiveOf(ps: seq<PunishmentRow>): (active: seq<ActivePunishment>)
    ensures |active| <= |ps|
    ensures forall i :: 0 <= i < |active| ==> exists p :: p in ps && p.endsAt.Some? && Active(p) == active[i]
  {
    var rows := Filter(ps, HasEnd());
    var active := seq(|rows|, i requires 0 <= i < |rows| => Active(rows[i]));
    assert forall i :: 0 <= i < |active| ==> rows[i] in ps && rows[i].endsAt.Some? && Active(rows[i]) == active[i] by {
      forall i | 0 <= i < |active|
        ensures rows[i] in ps && rows[i].endsAt.Some?
      {
        assert rows[i] in rows;
      }
    }
    active
  }

  /** The largest id among some warning rows (`ORDER BY id DESC LIMIT 1`). */
  function MaxId(ws: seq<WarningRow>): (m: int)
    requires ws != []
    ensures exists w :: w in ws && w.id == m
    ensures forall w :: w in ws ==> w.id <= m
  {
    if |ws| == 1 then ws[0].id
    else
      var rest := MaxId(ws[1..]);
      assert forall w :: w in ws <==> w == ws[0] || w in ws[1..];
      if ws[0].id >= rest then ws[0].id else rest
  }

  /** Ids grow along the table, as `AUTO_INCREMENT` hands them out. */
  ghost predicate IdsIncreasing(ws: seq<WarningRow>) {
    forall i, j :: 0 <= i < j < |ws| ==> ws[i].id < ws[j].id
  }

  class Database {
    var warnings: seq<WarningRow>
    var punishments: seq<PunishmentRow>
    /** The `AUTO_INCREMENT` counter of `warnings`: the id the next insert receives. */
    var nextWarningId: int

    ghost predicate Valid()
      reads this
    {
      && 0 < nextWarningId
      && IdsIncreasing(warnings)
      && (forall w :: w in warnings ==> 0 < w.id < nextWarningId)
    }

    /** Opens the store on the tables as they were persisted by an earlier run. */
    constructor (ws: seq<WarningRow>, ps: seq<PunishmentRow>, nextId: int)
      requires 0 < nextId && IdsIncreasing(ws)
      requires forall w :: w in ws ==> 0 < w.id < nextId
      ensures Valid()
      ensures warnings == ws && punishments == ps && nextWarningId == nextId
    {
      warnings, punishments, nextWarningId := ws, ps, nextId;
    }

    /** `INSERT INTO warnings (user_id, guild_id, moderator_id, reason, timestamp) VALUES (...)`. */
    method AddWarning(u: UserId, g: GuildId, moderator: UserId, reason: string, timestamp: string)
      requires Valid()
      modifies this
      ensures Valid()
      ensures warnings == old(warnings) + [WarningRow(old(nextWarningId), u, g, moderator, reason, timestamp, None)]
      ensures forall w :: w in old(warnings) ==> w.id < old(nextWarningId)
      ensures nextWarningId == old(nextWarningId) + 1
      ensures punishments == old(punishments)
    {
      var row := WarningRow(nextWarningId, u, g, moderator, reason, timestamp, None);
      var ws := warnings + [row];
      forall w | w in ws ensures 0 < w.id < nextWarningId + 1 {
        assert w in warnings || w == row;
      }
      assert forall i :: 0 <= i < |warnings| ==> warnings[i] in warnings;
      warnings, nextWarningId := ws, nextWarningId + 1;
    }

    /** `SELECT COUNT(*) ... WHERE user_id = u AND guild_id = g`; 0 when no row matches. */
    method GetWarningsCount(u: UserId, g: GuildId) returns (n: nat)
      ensures n == |WarningsFor(warnings, u, g)|
      ensures n == 0 <==> forall w :: w in warnings ==> !(w.userId == u && w.guildId == g)
    {
      n := CountFor(warnings, u, g);
      NoneForPair(warnings, u, g);
    }

    /** `SELECT reason, timestamp, moderator_id ... WHERE user_id = u AND guild_id = g`. */
    method GetAllUserWarnings(u: UserId, g: GuildId) returns (rows: seq<WarningEntry>)
      ensures |rows| == CountFor(warnings, u, g)
      ensures forall i :: 0 <= i < |rows| ==> rows[i] == Entry(WarningsFor(warnings, u, g)[i])
    {
      var mine := WarningsFor(warnings, u, g);
      rows := seq(|mine|, i requires 0 <= i < |mine| => Entry(mine[i]));
    }

    /** `SELECT id ... WHERE user_id = u AND guild_id = g ORDER BY id DESC LIMIT 1`. */
    method GetOneUserWarning(u: UserId, g: GuildId) returns (row: Option<int>)
      ensures row.None? <==> forall w :: w in warnings ==> !(w.userId == u && w.guildId == g)
      ensures row.Some? ==> exists w :: w in warnings && w.userId == u && w.guildId == g && w.id == row.value
      ensures row.Some? ==> forall w :: w in warnings && w.userId == u && w.guildId == g ==> w.id <= row.value
      ensures row == if WarningsFor(warnings, u, g) == [] then None else Some(MaxId(WarningsFor(warnings, u, g)))
    {
      var mine := WarningsFor(warnings, u, g);
      NoneForPair(warnings, u, g);
      if mine == [] {
        row := None;
      } else {
        row := Some(MaxId(mine));
        forall w | w in warnings && w.userId == u && w.guildId == g
          ensures w in mine
        {
          FilterMembership(warnings, OfPair(u, g), w);
        }
      }
    }

    /** `DELETE FROM warnings WHERE id = id`. */
    method DeleteLastWarning(id: int)
      requires Valid()
      modifies this
      ensures Valid()
      ensures warnings == WithoutId(old(warnings), id)
      ensures punishments == old(punishments) && nextWarningId == old(nextWarningId)
    {
      FilterKeepsOrder(warnings, IdIsNot(id));
      warnings := WithoutId(warnings, id);
    }

    /** `DELETE FROM warnings WHERE user_id = u AND guild_id = g`. */
    method DeleteAllUserWarnings(u: UserId, g: GuildId)
      requires Valid()
      modifies this
      ensures Valid()
      ensures warnings == WithoutPair(old(warnings), u, g)
      ensures punishments == old(punishments) && nextWarningId == old(nextWarningId)
    {
      FilterKeepsOrder(warnings, NotOfPair(u, g));
      warnings := WithoutPair(warnings, u, g);
    }

    /** `SELECT user_id, guild_id, action, ends_at FROM punishments WHERE ends_at IS NOT NULL`. */
    method GetAllActivePunishments() returns (rows: seq<ActivePunishment>)
      ensures rows == ActiveOf(punishments)
      ensures forall a :: a in rows <==> exists p :: p in punishments && p.endsAt.Some? && Active(p) == a
    {
      rows := ActiveOf(punishments);
      forall a
        ensures a in rows <==> exists p :: p in punishments && p.endsAt.Some? && Active(p) == a
      {
        ActiveOfMembership(punishments, a);
      }
    }

    /** `DELETE FROM punishments WHERE user_id = u AND guild_id = g AND action = action`. */
    method DeletePunishment(u: UserId, g: GuildId, action: string)
      requires Valid()
      modifies this
      ensures Valid()
      ensures punishments == WithoutKey(old(punishments), u, g, action)
      ensures warnings == old(warnings) && nextWarningId == old(nextWarningId)
    {
      punishments := WithoutKey(punishments, u, g, action);
    }
  }

  // ---------------------------------------------------------------- properties of the statements

  /** A pair has no warnings exactly when no row of the table belongs to it. */
  lemma NoneForPair(ws: seq<WarningRow>, u: UserId, g: GuildId)
    ensures CountFor(ws, u, g) == 0 <==> forall w :: w in ws ==> !(w.userId == u && w.guildId == g)
  {
    var mine := WarningsFor(ws, u, g);
    if mine != [] {
      assert mine[0] in mine;
    }
    forall w | w in ws && w.userId == u && w.guildId == g
      ensures w in mine
    {
      FilterMembership(ws, OfPair(u, g), w);
    }
  }

  /** A `WHERE` filter keeps the auto-increment order of the ids. */
  lemma {:induction false} FilterKeepsOrder(ws: seq<WarningRow>, p: WarningRow -> bool)
    requires IdsIncreasing(ws)
    ensures IdsIncreasing(Filter(ws, p))
    ensures forall w :: w in Filter(ws, p) ==> w in ws
  {
    if ws != [] {
      HeadIdSmallest(ws);
      FilterKeepsOrder(ws[1..], p);
    }
  }

  /** Adding a warning raises the count of its own pair by one and leaves every other pair alone. */
  lemma AddWarningCounts(ws: seq<WarningRow>, row: WarningRow, u: UserId, g: GuildId)
    ensures CountFor(ws + [row], u, g)
         == CountFor(ws, u, g) + (if row.userId == u && row.guildId == g then 1 else 0)
  {
    FilterAppend(ws, [row], OfPair(u, g));
    assert Filter([row], OfPair(u, g)) == (if OfPair(u, g)(row) then [row] else []) + Filter([], OfPair(u, g));
  }

  /** After `DELETE ... WHERE user_id = u AND guild_id = g` the pair has no warnings and every
      other pair keeps exactly the warnings it had. */
  lemma DeleteAllCounts(ws: seq<WarningRow>, u: UserId, g: GuildId, u': UserId, g': GuildId)
    ensures CountFor(WithoutPair(ws, u, g), u, g) == 0
    ensures (u', g') != (u, g) ==> WarningsFor(WithoutPair(ws, u, g), u', g') == WarningsFor(ws, u', g')
  {
    var rest := WithoutPair(ws, u, g);
    NoneForPair(rest, u, g);
    if (u', g') != (u, g) {
      FilterAbsorbs(ws, NotOfPair(u, g), OfPair(u', g'));
    }
  }

  /** Deleting a warning by id leaves every other pair's warnings unchanged, because ids are unique. */
  lemma DeleteByIdOthers(ws: seq<WarningRow>, id: int, u: UserId, g: GuildId, u': UserId, g': GuildId)
    requires IdsIncreasing(ws)
    requires exists w :: w in ws && w.id == id && w.userId == u && w.guildId == g
    requires (u', g') != (u, g)
    ensures WarningsFor(WithoutId(ws, id), u', g') == WarningsFor(ws, u', g')
  {
    var v :| v in ws && v.id == id && v.userId == u && v.guildId == g;
    forall w | w in ws && OfPair(u', g')(w)
      ensures IdIsNot(id)(w)
    {
      var i :| 0 <= i < |ws| && ws[i] == v;
      var j :| 0 <= j < |ws| && ws[j] == w;
      assert i != j;
    }
    FilterAbsorbs(ws, IdIsNot(id), OfPair(u', g'));
  }

  /** Every row after the first carries a larger id. */
  lemma HeadIdSmallest(ws: seq<WarningRow>)
    requires IdsIncreasing(ws) && ws != []
    ensures IdsIncreasing(ws[1..])
    ensures forall w :: w in ws[1..] ==> ws[0].id < w.id
  {
    forall w | w in ws[1..]
      ensures ws[0].id < w.id
    {
      var k :| 0 <= k < |ws[1..]| && ws[1..][k] == w;
      assert ws[k + 1] == w;
    }
  }

  /** Deleting the pair's newest warning by id lowers that pair's count by exactly one. */
  lemma {:induction false} DeleteByIdCount(ws: seq<WarningRow>, id: int, u: UserId, g: GuildId)
    requires IdsIncreasing(ws)
    requires exists w :: w in ws && w.id == id && w.userId == u && w.guildId == g
    ensures CountFor(WithoutId(ws, id), u, g) == CountFor(ws, u, g) - 1
  {
    var v :| v in ws && v.id == id && v.userId == u && v.guildId == g;
    var head, tail := ws[0], ws[1..];
    assert ws == [head] + tail;
    assert v == head || v in tail;
    HeadIdSmallest(ws);
    FilterCons(head, tail, IdIsNot(id));
    FilterCons(head, tail, OfPair(u, g));
    if head.id == id {
      assert v == head;
      FilterKeepsAll(tail, IdIsNot(id));
      assert WithoutId(ws, id) == tail;
      assert WarningsFor(ws, u, g) == [head] + WarningsFor(tail, u, g);
    } else {
      DeleteByIdCount(tail, id, u, g);
      FilterCons(head, WithoutId(tail, id), OfPair(u, g));
    }
  }

  /** `delete_punishment` removes every row with the key, and only those. */
  lemma DeletePunishmentExact(ps: seq<PunishmentRow>, u: UserId, g: GuildId, action: string, p: PunishmentRow)
    ensures p in WithoutKey(ps, u, g, action) <==> p in ps && !(p.userId == u && p.guildId == g && p.action == action)
  {
    FilterMembership(ps, NotKey(u, g, action), p);
  }

  /** The active punishments are exactly the projections of the rows whose `ends_at` is set. */
  lemma ActiveOfMembership(ps: seq<PunishmentRow>, a: ActivePunishment)
    ensures a in ActiveOf(ps) <==> exists p :: p in ps && p.endsAt.Some? && Active(p) == a
  {
    var rows := Filter(ps, HasEnd());
    var act := ActiveOf(ps);
    if a in act {
      var i :| 0 <= i < |act| && act[i] == a;
      assert rows[i] in rows;
      FilterMembership(ps, HasEnd(), rows[i]);
    }
    if exists p :: p in ps && p.endsAt.Some? && Active(p) == a {
      var p :| p in ps && p.endsAt.Some? && Active(p) == a;
      FilterMembership(ps, HasEnd(), p);
      var i :| 0 <= i < |rows| && rows[i] == p;
      assert act[i] == a;
    }
  }
}
