/**
 * The bot process of main.py as one object: the users table (through a
 * UserStore), the award log, the last-message dates, and the two "last run"
 * markers that the hourly loops keep in the configuration file. Each event
 * handler, loop tick and owner command is a method that changes this state
 * and is proved to do what the step functions of Handlers and Schedule say.
 */
module Bot {
  import opened Ledger
  import opened Store
  import opened Handlers
  import opened Schedule
  import opened Roles

  /** A guild member as the role sync sees it. */
  datatype Member = Member(id: UserId, isBot: bool, roles: seq<RoleId>)

  /** The ids of the members among the first `n` that are not bots. */
  function PersonIds(members: seq<Member>, n: nat): (ids: set<UserId>)
    requires n <= |members|
    ensures forall i :: 0 <= i < n && !members[i].isBot ==> members[i].id in ids
    ensures forall u :: u in ids ==> exists i :: 0 <= i < n && !members[i].isBot && members[i].id == u
  {
    set i | 0 <= i < n && !members[i].isBot :: members[i].id
  }

  class KudosBot {
    const store: UserStore
    const botId: UserId
    var log: set<LogKey>
    /** last_message_date of each user that has one. */
    var lastMessage: map<UserId, Date>
    /** LAST_MAINTENANCE_DATE of the configuration file. */
    var lastMaintenanceDate: Option<Date>
    /** LAST_MONTHLY_RESET_DATE of the configuration file. */
    var lastMonthlyResetDate: Option<Date>

    constructor (botId: UserId)
      ensures fresh(store) && store.users == map[]
      ensures this.botId == botId && log == {} && lastMessage == map[]
      ensures lastMaintenanceDate == None && lastMonthlyResetDate == None
    {
      this.botId := botId;
      store := new UserStore();
      log := {};
      lastMessage := map[];
      lastMaintenanceDate := None;
      lastMonthlyResetDate := None;
    }

    /** on_raw_reaction_add. */
    method OnRawReactionAdd(p: AddPayload, cfg: Config, today: Date, greet: (Table, UserId) -> Table)
      returns (outcome: AddOutcome)
      modifies this, store
      ensures (World(store.users, log), outcome)
           == OnReactionAdd(World(old(store.users), old(log)), p, cfg, botId, today, greet)
      ensures lastMessage == old(lastMessage)
      ensures lastMaintenanceDate == old(lastMaintenanceDate)
      ensures lastMonthlyResetDate == old(lastMonthlyResetDate)
    {
      if p.emoji != cfg.kudosEmoji || !p.inGuild {
        return Ignored;
      }
      if !p.channelFound || p.message.None? {
        return Ignored;
      }
      var m := p.message.value;
      if m.ageDays > cfg.validityDays {
        return Ignored;
      }
      if m.authorIsBot {
        return Ignored;
      }
      if p.userId == botId {
        var creator := store.GetOrCreateUser(m.author);
        store.users := greet(store.users, m.author);
        log := log + {LogKey(m.id, botId)};
        return Greeted;
      }
      if !p.hasMember || p.userId == m.author {
        return Ignored;
      }
      store.ResetDailyLimitIfNeeded(p.userId, today);
      var reactorData := store.GetOrCreateUser(p.userId);
      if reactorData.dailyAwardsGiven >= cfg.dailyAwardLimit {
        return QuotaExceeded;
      }
      var creator := store.GetOrCreateUser(m.author);
      store.AwardKudos(m.author, p.userId, today);
      log := log + {LogKey(m.id, p.userId)};
      return Awarded;
    }

    /** on_raw_reaction_remove; the result says whether kudos were retracted. */
    method OnRawReactionRemove(p: RemovePayload, cfg: Config) returns (retracted: bool)
      modifies this, store
      ensures (World(store.users, log), retracted)
           == OnReactionRemove(World(old(store.users), old(log)), p, cfg)
      ensures lastMessage == old(lastMessage)
      ensures lastMaintenanceDate == old(lastMaintenanceDate)
      ensures lastMonthlyResetDate == old(lastMonthlyResetDate)
    {
      if p.emoji != cfg.kudosEmoji || !p.inGuild || !p.channelFound || !p.guildFound {
        return false;
      }
      if p.message.None? || p.message.value.ageDays > cfg.validityDays || p.reactor.None? {
        return false;
      }
      var m, reactor := p.message.value, p.reactor.value;
      if reactor.isBot || m.authorIsBot || reactor.id == m.author {
        return false;
      }
      if LogKey(m.id, reactor.id) in log {
        store.RemoveKudos(m.author, reactor.id);
        log := log - {LogKey(m.id, reactor.id)};
        return true;
      }
      return false;
    }

    /** on_message; the result says whether the daily kudos reaction is added. */
    method OnChatMessage(msg: ChatMessage, today: Date, emojiFound: bool) returns (reacted: bool)
      modifies this, store
      ensures (store.users, lastMessage, reacted)
           == OnMessage(old(store.users), old(lastMessage), msg, today, emojiFound)
      ensures log == old(log)
      ensures lastMaintenanceDate == old(lastMaintenanceDate)
      ensures lastMonthlyResetDate == old(lastMonthlyResetDate)
    {
      if msg.authorIsBot || !msg.inGuild {
        return false;
      }
      var userData := store.GetOrCreateUser(msg.author);
      var last := if msg.author in lastMessage then Some(lastMessage[msg.author]) else None;
      reacted := false;
      if last != Some(today) {
        var isReturningUser := last.Some?;
        lastMessage := lastMessage[msg.author := today];
        if isReturningUser && emojiFound {
          reacted := true;
        }
      }
    }

    /** The add_kudos owner command. */
    method AddKudos(caller: UserId, member: Option<UserId>, amount: Option<int>)
      modifies store
      ensures store.users == AddKudosCommand(old(store.users), caller, member, amount)
    {
      if caller != OwnerId {
        return;
      }
      if member.None? || amount.None? {
        return;
      }
      if amount.value <= 0 {
        return;
      }
      var user := store.GetOrCreateUser(member.value);
      store.AdjustKudos(member.value, amount.value);
    }

    /**
     * One tick of daily_maintenance_loop: when LAST_MAINTENANCE_DATE is not
     * today, decay and bonus run; the bonus is announced when there is a
     * recipient and the bonus is positive, and `announcementRaises` says
     * whether that announcement would raise. The marker becomes today unless
     * the announcement raised.
     */
    method DailyMaintenanceLoop(cfg: Config, today: Date, announcementRaises: bool)
      returns (ran: bool, top: Option<UserId>)
      modifies this, store
      ensures (ran, lastMaintenanceDate)
           == DailyTick(old(lastMaintenanceDate),
                        DailyObservation(today, announcementRaises && top.Some? && cfg.bonus > 0))
      ensures !ran ==> store.users == old(store.users) && top.None?
      ensures ran ==> (top.None? <==> old(store.users) == map[])
      ensures ran && top.Some? ==>
        IsTop(Decay(old(store.users), cfg.decay), top.value) &&
        store.users == Ledger.AddKudos(Decay(old(store.users), cfg.decay), top.value, cfg.bonus)
      ensures ran && top.None? ==> store.users == old(store.users)
      ensures log == old(log) && lastMessage == old(lastMessage)
      ensures lastMonthlyResetDate == old(lastMonthlyResetDate)
    {
      ran, top := false, None;
      if lastMaintenanceDate != Some(today) {
        ran := true;
        top := store.ApplyDailyMaintenance(cfg.decay, cfg.bonus);
        if top.Some? && cfg.bonus > 0 && announcementRaises {
          return;
        }
        lastMaintenanceDate := Some(today);
      }
    }

    /**
     * One tick of monthly_reset_loop, given the day of the month and whether
     * the guild lookup succeeds. The marker is written whenever the reset
     * ran, also when the guild is missing (see MonthlyTickFixed): the early
     * return of the source, which skips the marker, is MonthlyTick. The body
     * does not read `guildFound`; it is kept so that the observation in the
     * contract is the one Schedule.MonthlyTick takes.
     */
    method MonthlyResetLoop(today: Date, dayOfMonth: int, guildFound: bool)
      returns (ran: bool, winner: Option<Row>)
      modifies this, store
      ensures (ran, lastMonthlyResetDate)
           == MonthlyTickFixed(old(lastMonthlyResetDate), MonthlyObservation(today, dayOfMonth, winner.Some?, guildFound))
      ensures !ran ==> store.users == old(store.users) && winner.None?
      ensures ran ==> (winner.None? <==> old(store.users) == map[])
      ensures ran && winner.Some? ==>
        IsTop(old(store.users), winner.value.id) &&
        winner.value.user == old(store.users)[winner.value.id] &&
        store.users == CloseMonth(old(store.users), winner.value.id)
      ensures ran && winner.None? ==> store.users == old(store.users)
      ensures log == old(log) && lastMessage == old(lastMessage)
      ensures lastMaintenanceDate == old(lastMaintenanceDate)
    {
      ran, winner := false, None;
      if dayOfMonth == 1 && lastMonthlyResetDate != Some(today) {
        ran := true;
        winner := store.MonthlyReset();
        lastMonthlyResetDate := Some(today);
      }
    }

    /**
     * _sync_roles_helper over the guild's members: bots are skipped, every
     * other member gets a row if missing and has its level roles brought in
     * line with the level stored for it. The result is each member's roles
     * afterwards, in member order.
     */
    method SyncRoles(members: seq<Member>, levelRoles: map<int, RoleId>, guildRoles: set<RoleId>)
      returns (after: seq<set<RoleId>>)
      modifies store
      ensures |after| == |members|
      ensures forall i :: 0 <= i < |members| && members[i].isBot ==>
        after[i] == set r | r in members[i].roles
      ensures forall i :: 0 <= i < |members| && !members[i].isBot ==>
        Synced(members[i].roles, after[i], levelRoles, LevelOf(old(store.users), members[i].id), guildRoles)
      ensures forall i :: 0 <= i < |members| && !members[i].isBot ==> members[i].id in store.users
      ensures OthersUnchanged(old(store.users), store.users, {})
      ensures forall u :: u in store.users && u !in old(store.users) ==> store.users[u] == NewUser
      ensures store.users.Keys == old(store.users).Keys + PersonIds(members, |members|)
    {
      after := [];
      for i := 0 to |members|
        invariant |after| == i
        invariant forall k :: 0 <= k < i && members[k].isBot ==>
          after[k] == set r | r in members[k].roles
        invariant forall k :: 0 <= k < i && !members[k].isBot ==>
          Synced(members[k].roles, after[k], levelRoles, LevelOf(old(store.users), members[k].id), guildRoles)
        invariant forall k :: 0 <= k < i && !members[k].isBot ==> members[k].id in store.users
        invariant OthersUnchanged(old(store.users), store.users, {})
        invariant forall u :: u in store.users && u !in old(store.users) ==> store.users[u] == NewUser
        invariant store.users.Keys == old(store.users).Keys + PersonIds(members, i)
      {
        var member := members[i];
        if member.isBot {
          after := after + [set r | r in member.roles];
        } else {
          var userData := store.GetOrCreateUser(member.id);
          assert userData.lifetimeLevel == LevelOf(old(store.users), member.id);
          var roles := SyncMember(member.roles, levelRoles, userData.lifetimeLevel, guildRoles);
          after := after + [roles];
        }
      }
    }
  }
}
