/**
 * The ledger decisions of the chat event handlers and owner commands of
 * main.py, with the chat platform stripped away: each handler is one step
 * from a World (the `users` table plus the award log) to the next. The
 * award log is the set of (message, reactor) keys that log_kudos writes and
 * delete_kudos_log removes.
 */
module Handlers {
  import opened Ledger

  type MessageId = int

  /** The key of one award-log entry. */
  datatype LogKey = LogKey(message: MessageId, reactor: UserId)

  datatype World = World(users: Table, log: set<LogKey>)

  /**
   * The configuration values the handlers and loops read: KUDOS_EMOJI,
   * KUDOS_VALIDITY_DAYS, DAILY_AWARD_LIMIT, KUDOS_DECAY and
   * TOP_PERFORMER_BONUS.
   */
  datatype Config = Config(
    kudosEmoji: string,
    validityDays: int,
    dailyAwardLimit: int,
    decay: int,
    bonus: int)

  /** The message a reaction is on, once fetched; its age is in whole days. */
  datatype Message = Message(id: MessageId, ageDays: int, author: UserId, authorIsBot: bool)

  /**
   * A reaction-add event: the emoji name, whether it happened in a guild,
   * whether its channel and message could be fetched, the reacting user's id
   * and whether the event carried that user as a guild member.
   */
  datatype AddPayload = AddPayload(
    emoji: string,
    inGuild: bool,
    channelFound: bool,
    message: Option<Message>,
    userId: UserId,
    hasMember: bool)

  datatype AddOutcome = Ignored | Greeted | QuotaExceeded | Awarded

  /** The checks of on_raw_reaction_add that come before the reactor is looked at. */
  predicate PassesAddGates(p: AddPayload, cfg: Config)
  {
    && p.emoji == cfg.kudosEmoji
    && p.inGuild
    && p.channelFound
    && p.message.Some?
    && p.message.value.ageDays <= cfg.validityDays
    && !p.message.value.authorIsBot
  }

  /** A reaction by a person other than the author, after every gate. */
  predicate IsPeerAward(p: AddPayload, cfg: Config, botId: UserId)
  {
    PassesAddGates(p, cfg) && p.userId != botId && p.hasMember && p.userId != p.message.value.author
  }

  /**
   * on_raw_reaction_add. The bot's own reaction (the daily greeting) credits
   * the author through `greet`, a database routine this model does not see,
   * and logs the pair. A peer reaction first resets the reactor's daily
   * count if it is stale, then either stops at the quota or awards and logs.
   */
  function OnReactionAdd(w: World, p: AddPayload, cfg: Config, botId: UserId, today: Date,
                         greet: (Table, UserId) -> Table): (r: (World, AddOutcome))
    ensures !PassesAddGates(p, cfg) ==> r == (w, Ignored)
    ensures PassesAddGates(p, cfg) && p.userId == botId ==>
      r.1 == Greeted && r.0.log == w.log + {LogKey(p.message.value.id, botId)}
    ensures PassesAddGates(p, cfg) && p.userId != botId && !IsPeerAward(p, cfg, botId) ==> r == (w, Ignored)
    ensures IsPeerAward(p, cfg, botId) ==>
      (r.1 == Awarded <==> AwardsGivenOn(w.users, p.userId, today) < cfg.dailyAwardLimit) &&
      (r.1 == Awarded || r.1 == QuotaExceeded)
    ensures IsPeerAward(p, cfg, botId) ==>
      var m := p.message.value;
      && OthersUnchanged(w.users, r.0.users, {m.author, p.userId})
      && r.0.users.Keys == w.users.Keys + (if r.1 == Awarded then {m.author, p.userId} else {p.userId})
      && (forall u :: u in w.users ==> r.0.users[u].lifetimeLevel == w.users[u].lifetimeLevel)
    ensures r.1 == QuotaExceeded ==>
      && r.0.users == ResetDailyIfNeeded(w.users, p.userId, today)
      && r.0.log == w.log
      && (forall u :: BalanceOf(r.0.users, u) == BalanceOf(w.users, u))
      && AwardsGivenOn(r.0.users, p.userId, today) == AwardsGivenOn(w.users, p.userId, today)
    ensures r.1 == Awarded ==>
      var m := p.message.value;
      && r.0.log == w.log + {LogKey(m.id, p.userId)}
      && BalanceOf(r.0.users, m.author) == BalanceOf(w.users, m.author) + 2
      && BalanceOf(r.0.users, p.userId) == BalanceOf(w.users, p.userId) + 1
      && (forall u :: u != m.author && u != p.userId ==> BalanceOf(r.0.users, u) == BalanceOf(w.users, u))
      && AwardsGivenOn(r.0.users, p.userId, today) == AwardsGivenOn(w.users, p.userId, today) + 1
      && r.0.users[m.author].(monthlyKudos := 0)
         == (if m.author in w.users then w.users[m.author] else NewUser).(monthlyKudos := 0)
      && r.0.users[p.userId].lifetimeLevel == LevelOf(w.users, p.userId)
      && r.0.users[p.userId].lastAwardDate == Some(today)
  {
    if !PassesAddGates(p, cfg) then (w, Ignored)
    else
      var m := p.message.value;
      if p.userId == botId then
        (World(greet(GetOrCreate(w.users, m.author), m.author), w.log + {LogKey(m.id, botId)}), Greeted)
      else if !p.hasMember || p.userId == m.author then (w, Ignored)
      else
        var t1 := ResetDailyIfNeeded(w.users, p.userId, today);
        if t1[p.userId].dailyAwardsGiven >= cfg.dailyAwardLimit then
          (World(t1, w.log), QuotaExceeded)
        else
          (World(Award(GetOrCreate(t1, m.author), m.author, p.userId, today),
                 w.log + {LogKey(m.id, p.userId)}),
           Awarded)
  }

  /** The reacting member as fetch_member returns it. */
  datatype Reactor = Reactor(id: UserId, isBot: bool)

  /**
   * A reaction-remove event: emoji, guild, whether channel and guild could be
   * looked up, the fetched message, and the fetched reacting member.
   */
  datatype RemovePayload = RemovePayload(
    emoji: string,
    inGuild: bool,
    channelFound: bool,
    guildFound: bool,
    message: Option<Message>,
    reactor: Option<Reactor>)

  /** Every check of on_raw_reaction_remove before the award log is consulted. */
  predicate PassesRemoveGates(p: RemovePayload, cfg: Config)
  {
    && p.emoji == cfg.kudosEmoji
    && p.inGuild
    && p.channelFound
    && p.guildFound
    && p.message.Some?
    && p.message.value.ageDays <= cfg.validityDays
    && p.reactor.Some?
    && !p.reactor.value.isBot
    && !p.message.value.authorIsBot
    && p.reactor.value.id != p.message.value.author
  }

  /**
   * on_raw_reaction_remove: a retraction happens only when the log holds an
   * entry for (message, reactor); it takes back 2 and 1 kudos and deletes the
   * entry. The result says whether it happened.
   */
  function OnReactionRemove(w: World, p: RemovePayload, cfg: Config): (r: (World, bool))
    ensures r.1 <==> PassesRemoveGates(p, cfg) &&
                     LogKey(p.message.value.id, p.reactor.value.id) in w.log
    ensures !r.1 ==> r.0 == w
    ensures r.1 ==>
      var m := p.message.value;
      var key := LogKey(m.id, p.reactor.value.id);
      && key !in r.0.log
      && r.0.log + {key} == w.log
      && r.0.users.Keys == w.users.Keys
      && (forall u :: BalanceOf(r.0.users, u) == BalanceOf(w.users, u)
                       - (if u == m.author && u in w.users then 2 else 0)
                       - (if u == p.reactor.value.id && u in w.users then 1 else 0))
      && (forall u :: u in w.users ==> r.0.users[u].(monthlyKudos := 0) == w.users[u].(monthlyKudos := 0))
  {
    if !PassesRemoveGates(p, cfg) then (w, false)
    else
      var m := p.message.value;
      var key := LogKey(m.id, p.reactor.value.id);
      if key in w.log then
        (World(Remove(w.users, m.author, p.reactor.value.id), w.log - {key}), true)
      else
        (w, false)
  }

  /** A second identical removal event finds no log entry and changes nothing. */
  lemma RetractIdempotent(w: World, p: RemovePayload, cfg: Config)
    ensures var w1 := OnReactionRemove(w, p, cfg).0;
            OnReactionRemove(w1, p, cfg) == (w1, false)
  {
  }

  /**
   * A granted award followed by the removal of the same reaction restores
   * every balance and the award log, but the reactor's daily count keeps
   * the award: retraction does not refund the quota.
   */
  lemma AwardThenRetract(w: World, pa: AddPayload, pr: RemovePayload, cfg: Config,
                         botId: UserId, today: Date, greet: (Table, UserId) -> Table)
    requires OnReactionAdd(w, pa, cfg, botId, today, greet).1 == Awarded
    requires LogKey(pa.message.value.id, pa.userId) !in w.log
    requires PassesRemoveGates(pr, cfg)
    requires pr.message.value.id == pa.message.value.id && pr.message.value.author == pa.message.value.author
    requires pr.reactor.value.id == pa.userId
    ensures var w1 := OnReactionAdd(w, pa, cfg, botId, today, greet).0;
            var w2 := OnReactionRemove(w1, pr, cfg);
            && w2.1
            && w2.0.log == w.log
            && (forall u :: BalanceOf(w2.0.users, u) == BalanceOf(w.users, u))
            && AwardsGivenOn(w2.0.users, pa.userId, today) == AwardsGivenOn(w.users, pa.userId, today) + 1
  {
    var m := pa.message.value;
    var key := LogKey(m.id, pa.userId);
    var w1 := OnReactionAdd(w, pa, cfg, botId, today, greet);
    assert w1.0.log == w.log + {key};
    assert m.author in w1.0.users && pa.userId in w1.0.users;
    var w2 := OnReactionRemove(w1.0, pr, cfg);
    assert w2.1;
    RemoveKeepsAwardsGiven(w1.0, pr, cfg, today, pa.userId);
    forall u ensures BalanceOf(w2.0.users, u) == BalanceOf(w.users, u) {
      assert BalanceOf(w2.0.users, u) == BalanceOf(w1.0.users, u)
        - (if u == m.author then 2 else 0) - (if u == pa.userId then 1 else 0);
    }
  }

  /**
   * The add path never consults the award log: a reaction whose key is still
   * logged is awarded again when the quota allows.
   */
  lemma LoggedReactionAwardedAgain(w: World, p: AddPayload, cfg: Config, botId: UserId,
                                   today: Date, greet: (Table, UserId) -> Table)
    requires IsPeerAward(p, cfg, botId)
    requires LogKey(p.message.value.id, p.userId) in w.log
    requires AwardsGivenOn(w.users, p.userId, today) < cfg.dailyAwardLimit
    ensures var r := OnReactionAdd(w, p, cfg, botId, today, greet);
            r.1 == Awarded && r.0.log == w.log &&
            BalanceOf(r.0.users, p.message.value.author) == BalanceOf(w.users, p.message.value.author) + 2
  {
  }

  /**
   * One reaction-add step, seen from user `id`: the count of awards `id`
   * has given today grows by one exactly when `id`'s own reaction is
   * awarded, and that happens only below the limit.
   */
  lemma AddStepAwardsGiven(w: World, p: AddPayload, cfg: Config, botId: UserId, today: Date,
                           greet: (Table, UserId) -> Table, id: UserId)
    requires p.userId != botId
    ensures var r := OnReactionAdd(w, p, cfg, botId, today, greet);
            var granted := r.1 == Awarded && p.userId == id;
            && AwardsGivenOn(r.0.users, id, today)
               == AwardsGivenOn(w.users, id, today) + (if granted then 1 else 0)
            && (granted ==> AwardsGivenOn(w.users, id, today) < cfg.dailyAwardLimit)
  {
    var r := OnReactionAdd(w, p, cfg, botId, today, greet);
    if r.1 == Awarded && p.userId != id {
      var m := p.message.value;
      var t1 := ResetDailyIfNeeded(w.users, p.userId, today);
      var t2 := GetOrCreate(t1, m.author);
      assert AwardsGivenOn(t1, id, today) == AwardsGivenOn(w.users, id, today);
      assert AwardsGivenOn(t2, id, today) == AwardsGivenOn(t1, id, today);
      assert r.0.users == Award(t2, m.author, p.userId, today);
    } else if r.1 == QuotaExceeded && p.userId != id {
      assert r.0.users == ResetDailyIfNeeded(w.users, p.userId, today);
    }
  }

  /**
   * A retraction, granted or not, leaves every user's count of awards given
   * today as it was: removal never refunds the quota.
   */
  lemma RemoveKeepsAwardsGiven(w: World, p: RemovePayload, cfg: Config, today: Date, id: UserId)
    ensures AwardsGivenOn(OnReactionRemove(w, p, cfg).0.users, id, today) == AwardsGivenOn(w.users, id, today)
  {
    var r := OnReactionRemove(w, p, cfg);
    if r.1 && id in w.users {
      assert r.0.users[id].(monthlyKudos := 0) == w.users[id].(monthlyKudos := 0);
    }
  }

  /** One reaction event: a reaction added or a reaction removed. */
  datatype ReactionEvent = Add(add: AddPayload) | Rem(rem: RemovePayload)

  /**
   * A run of reaction events on one day: the final world, and how many of
   * the events were awards given by `id`.
   */
  function ReplayReactions(w: World, es: seq<ReactionEvent>, cfg: Config, botId: UserId, today: Date,
                           greet: (Table, UserId) -> Table, id: UserId): (World, nat)
    decreases |es|
  {
    if es == [] then (w, 0)
    else
      match es[0]
      case Add(p) =>
        var step := OnReactionAdd(w, p, cfg, botId, today, greet);
        var rest := ReplayReactions(step.0, es[1..], cfg, botId, today, greet, id);
        (rest.0, rest.1 + if step.1 == Awarded && p.userId == id then 1 else 0)
      case Rem(p) =>
        ReplayReactions(OnReactionRemove(w, p, cfg).0, es[1..], cfg, botId, today, greet, id)
  }

  /**
   * The daily quota: over any run of reactions added and removed by people
   * on one day, a user gives at most as many awards as the limit leaves after
   * the ones already counted for that day (none at all once the limit is
   * reached). Removing a reaction and adding it again does not get round
   * the limit.
   */
  lemma {:induction false} QuotaBound(w: World, es: seq<ReactionEvent>, cfg: Config, botId: UserId,
                                      today: Date, greet: (Table, UserId) -> Table, id: UserId)
    requires forall i :: 0 <= i < |es| && es[i].Add? ==> es[i].add.userId != botId
    ensures var before := AwardsGivenOn(w.users, id, today);
            var run := ReplayReactions(w, es, cfg, botId, today, greet, id);
            && AwardsGivenOn(run.0.users, id, today) == before + run.1
            && before + run.1 <= (if before < cfg.dailyAwardLimit then cfg.dailyAwardLimit else before)
    decreases |es|
  {
    if es != [] {
      match es[0]
      case Add(p) =>
        AddStepAwardsGiven(w, p, cfg, botId, today, greet, id);
        var step := OnReactionAdd(w, p, cfg, botId, today, greet);
        QuotaBound(step.0, es[1..], cfg, botId, today, greet, id);
      case Rem(p) =>
        RemoveKeepsAwardsGiven(w, p, cfg, today, id);
        QuotaBound(OnReactionRemove(w, p, cfg).0, es[1..], cfg, botId, today, greet, id);
    }
  }

  /**
   * The toggle that the retraction message calls final: an award, its
   * retraction and the same reaction added again count as two awards, so a
   * reactor at one award below the limit is refused the second time.
   */
  lemma ToggleCountsTwice(w: World, pa: AddPayload, pr: RemovePayload, cfg: Config, botId: UserId,
                          today: Date, greet: (Table, UserId) -> Table)
    requires IsPeerAward(pa, cfg, botId)
    requires AwardsGivenOn(w.users, pa.userId, today) == cfg.dailyAwardLimit - 1
    ensures var w1 := OnReactionAdd(w, pa, cfg, botId, today, greet);
            var w2 := OnReactionRemove(w1.0, pr, cfg);
            && w1.1 == Awarded
            && OnReactionAdd(w2.0, pa, cfg, botId, today, greet).1 == QuotaExceeded
  {
    var w1 := OnReactionAdd(w, pa, cfg, botId, today, greet);
    RemoveKeepsAwardsGiven(w1.0, pr, cfg, today, pa.userId);
  }

  /** A message as on_message sees it. */
  datatype ChatMessage = ChatMessage(author: UserId, authorIsBot: bool, inGuild: bool)

  /**
   * on_message: a guild message by a person creates the author's row if
   * needed; on the author's first message of a day the last-message date
   * becomes today, and the kudos reaction is added only for an author who
   * had a last-message date before and only when the emoji exists.
   * `lastMessage` holds the last-message date of each user that has one.
   * The result is the table, the dates, and whether the reaction is added.
   */
  function OnMessage(t: Table, lastMessage: map<UserId, Date>, m: ChatMessage, today: Date,
                     emojiFound: bool): (r: (Table, map<UserId, Date>, bool))
    ensures m.authorIsBot || !m.inGuild ==> r == (t, lastMessage, false)
    ensures !m.authorIsBot && m.inGuild ==>
      && m.author in r.0 && r.0.Keys == t.Keys + {m.author}
      && (m.author !in t ==> r.0[m.author] == NewUser)
      && OthersUnchanged(t, r.0, {})
      && m.author in r.1 && r.1[m.author] == today
      && r.1.Keys == lastMessage.Keys + {m.author}
      && (forall u :: u in lastMessage && u != m.author ==> r.1[u] == lastMessage[u])
    ensures r.2 <==> !m.authorIsBot && m.inGuild && emojiFound &&
                     m.author in lastMessage && lastMessage[m.author] != today
  {
    if m.authorIsBot || !m.inGuild then (t, lastMessage, false)
    else
      var t1 := GetOrCreate(t, m.author);
      var prev := if m.author in lastMessage then Some(lastMessage[m.author]) else None;
      if prev != Some(today) then
        (t1, lastMessage[m.author := today], prev.Some? && emojiFound)
      else
        (t1, lastMessage, false)
  }

  /** A later message on the same day changes nothing and adds no reaction. */
  lemma SecondMessageSameDay(t: Table, lastMessage: map<UserId, Date>, m: ChatMessage,
                             today: Date, emojiFound: bool)
    ensures var r := OnMessage(t, lastMessage, m, today, emojiFound);
            OnMessage(r.0, r.1, m, today, emojiFound) == (r.0, r.1, false)
  {
  }

  /** The only user id the add_kudos command obeys. */
  const OwnerId: UserId := 437871588864425986

  /**
   * add_kudos: only the owner, with both a member and an amount given and a
   * positive amount, changes the table; the member's row is created if
   * needed and its balance grows by the amount.
   */
  function AddKudosCommand(t: Table, caller: UserId, member: Option<UserId>,
                           amount: Option<int>): (r: Table)
    ensures caller != OwnerId || member.None? || amount.None? || amount.value <= 0 ==> r == t
    ensures caller == OwnerId && member.Some? && amount.Some? && amount.value > 0 ==>
      var id := member.value;
      && r.Keys == t.Keys + {id}
      && OthersUnchanged(t, r, {id})
      && r[id].monthlyKudos == BalanceOf(t, id) + amount.value
      && r[id].(monthlyKudos := 0) == (if id in t then t[id] else NewUser).(monthlyKudos := 0)
  {
    if caller != OwnerId then t
    else if member.None? || amount.None? then t
    else if amount.value <= 0 then t
    else AddKudos(GetOrCreate(t, member.value), member.value, amount.value)
  }
}
