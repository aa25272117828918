/**
 * The per-(user, guild) record of `user_data`, its lazy creation by
 * `init_user`, the XP award rule that `on_message` applies to it, and the
 * warning list that `/warn` appends to and `/clearwarns` empties.
 * Times are integer seconds.
 */
module Records {
  import opened Wrappers
  import opened Levels

  /** One entry of a record's `warnings` list. */
  datatype Warning = Warning(id: int, reason: string, moderator: string, date: int)

  datatype UserRecord = UserRecord(
    xp: nat,
    level: int,
    messagesSent: nat,
    lastXpTime: Option<int>,
    totalXpGained: nat,
    joinDate: int,
    warnings: seq<Warning>)

  /** `user_data`: user id -> guild id -> record. */
  type UserData = map<string, map<string, UserRecord>>

  /** The record `init_user` creates. */
  function NewRecord(now: int): UserRecord
  {
    UserRecord(0, 1, 0, None, 0, now, [])
  }

  /** The ids of a warning list are 1, 2, ..., n in order. */
  ghost predicate SequentialIds(ws: seq<Warning>)
  {
    forall i :: 0 <= i < |ws| ==> ws[i].id == i + 1
  }

  /** What every record keeps: its cached level is the level of its XP, and warning ids run 1..n. */
  ghost predicate RecordOk(r: UserRecord)
  {
    r.level == Level(r.xp) && SequentialIds(r.warnings)
  }

  lemma NewRecordOk(now: int)
    ensures RecordOk(NewRecord(now))
  {
    assert Level(0) == 1 by { LevelAtThreshold(1); LevelMonotone(0, XpForLevel(1)); }
  }

  predicate HasRecord(users: UserData, user: string, guild: string)
  {
    user in users && guild in users[user]
  }

  /** The contents of `user_data` after `init_user(user, guild)`. */
  function AddRecord(users: UserData, user: string, guild: string, now: int): (r: UserData)
    ensures HasRecord(r, user, guild)
    ensures HasRecord(users, user, guild) ==> r == users
  {
    if HasRecord(users, user, guild) then users
    else
      var guilds := if user in users then users[user] else map[];
      users[user := guilds[guild := NewRecord(now)]]
  }

  /** After `init_user` the record exists; an existing one is left as it was, a new one is fresh. */
  lemma AddRecordCreates(users: UserData, user: string, guild: string, now: int)
    ensures HasRecord(AddRecord(users, user, guild, now), user, guild)
    ensures AddRecord(users, user, guild, now)[user][guild] ==
      if HasRecord(users, user, guild) then users[user][guild] else NewRecord(now)
  {
  }

  /** `init_user` only adds: every record that existed is still there, unchanged, and nothing else appears. */
  lemma AddRecordOnlyAdds(users: UserData, user: string, guild: string, now: int)
    ensures forall u, g :: HasRecord(users, u, g) ==>
      HasRecord(AddRecord(users, user, guild, now), u, g) && AddRecord(users, user, guild, now)[u][g] == users[u][g]
    ensures forall u, g :: HasRecord(AddRecord(users, user, guild, now), u, g) ==>
      HasRecord(users, u, g) || (u == user && g == guild)
  {
  }

  /** `init_user` is idempotent, whatever clock a second call sees. */
  lemma AddRecordIdempotent(users: UserData, user: string, guild: string, now: int, later: int)
    ensures AddRecord(AddRecord(users, user, guild, now), user, guild, later) == AddRecord(users, user, guild, now)
  {
  }

  /** A level-up notification: new level, new XP total, and the announced reward. */
  datatype LevelUp = LevelUp(level: int, xp: nat, reward: int)

  /** What `on_message` does with a message. */
  datatype MessageOutcome =
    | Ignored                           // from a bot or outside a guild
    | Deleted                           // the author is muted: the message is deleted
    | OnCooldown                        // less than 60 s since the last award
    | Awarded(levelUp: Option<LevelUp>) // XP was awarded, with a notification on a level-up

  datatype AwardResult = AwardResult(record: UserRecord, outcome: MessageOutcome)

  const Cooldown := 60
  const MinGain := 15
  const MaxGain := 25

  /** The cooldown test: an award happened less than 60 seconds ago. */
  predicate InCooldown(r: UserRecord, now: int)
  {
    r.lastXpTime.Some? && now - r.lastXpTime.value < Cooldown
  }

  /**
   * The XP rule of `on_message` for an author who is not muted: nothing
   * changes during the cooldown; otherwise `gain` (drawn from 15..25) is
   * added to xp and to total_xp_gained, one message is counted, the time
   * is stamped, the level recomputed, and a level-up reported when the
   * new level exceeds the cached one.
   */
  function Award(r: UserRecord, now: int, gain: int): (a: AwardResult)
    requires MinGain <= gain <= MaxGain
    ensures a.record.xp >= r.xp && a.record.totalXpGained >= r.totalXpGained
    ensures a.record.warnings == r.warnings && a.record.joinDate == r.joinDate
  {
    if InCooldown(r, now) then AwardResult(r, OnCooldown)
    else
      var xp := r.xp + gain;
      var newLevel := Level(xp);
      var r' := r.(xp := xp, totalXpGained := r.totalXpGained + gain,
                   messagesSent := r.messagesSent + 1, lastXpTime := Some(now),
                   level := newLevel);
      AwardResult(r', Awarded(if newLevel > r.level then Some(LevelUp(newLevel, xp, newLevel * 50)) else None))
  }

  /** An award keeps the record invariant and never lowers the level. */
  lemma AwardKeepsRecordOk(r: UserRecord, now: int, gain: int)
    requires MinGain <= gain <= MaxGain && RecordOk(r)
    ensures RecordOk(Award(r, now, gain).record)
    ensures Award(r, now, gain).record.level >= r.level
  {
    LevelMonotone(r.xp, r.xp + gain);
  }

  /**
   * Outside the cooldown, XP and lifetime XP rise by the same gain in
   * 15..25, one message is counted, the award time is stamped, and the
   * join date and warnings are untouched; inside it the record is unchanged.
   */
  lemma AwardEffect(r: UserRecord, now: int, gain: int)
    requires MinGain <= gain <= MaxGain
    ensures var a := Award(r, now, gain);
      if InCooldown(r, now) then a.record == r && a.outcome == OnCooldown
      else
        && a.outcome.Awarded?
        && a.record.xp - r.xp == a.record.totalXpGained - r.totalXpGained == gain
        && a.record.messagesSent == r.messagesSent + 1
        && a.record.lastXpTime == Some(now)
        && a.record.joinDate == r.joinDate && a.record.warnings == r.warnings
  {
  }

  /**
   * A level-up is reported exactly when the level of the new XP exceeds
   * the level of the old XP, and its reward is 50 coins per level.
   */
  lemma AwardLevelUpIff(r: UserRecord, now: int, gain: int)
    requires MinGain <= gain <= MaxGain && RecordOk(r) && !InCooldown(r, now)
    ensures var a := Award(r, now, gain);
      && (a.outcome.levelUp.Some? <==> Level(r.xp + gain) > Level(r.xp))
      && (a.outcome.levelUp.Some? ==>
            a.outcome.levelUp.value.level == a.record.level
            && a.outcome.levelUp.value.reward == 50 * a.record.level
            && a.outcome.levelUp.value.xp == a.record.xp)
  {
  }

  /**
   * A message that earns XP followed by another less than 60 seconds
   * later: the second one awards nothing, so the message counter rises by
   * one over both.
   */
  lemma CooldownSuppressesSecondAward(r: UserRecord, t1: int, t2: int, g1: int, g2: int)
    requires MinGain <= g1 <= MaxGain && MinGain <= g2 <= MaxGain
    requires !InCooldown(r, t1) && t2 - t1 < Cooldown
    ensures var a1 := Award(r, t1, g1);
      var a2 := Award(a1.record, t2, g2);
      && a2.outcome == OnCooldown
      && a2.record == a1.record
      && a2.record.messagesSent == r.messagesSent + 1
  {
  }

  /** Once 60 seconds have passed since an award, the next message awards again. */
  lemma AwardAfterCooldown(r: UserRecord, t1: int, t2: int, g1: int, g2: int)
    requires MinGain <= g1 <= MaxGain && MinGain <= g2 <= MaxGain
    requires t2 - t1 >= Cooldown
    requires !InCooldown(r, t1)
    ensures var a1 := Award(r, t1, g1);
      var a2 := Award(a1.record, t2, g2);
      && a2.outcome.Awarded?
      && a2.record.messagesSent == r.messagesSent + 2
      && a2.record.xp == r.xp + g1 + g2
  {
  }

  /** `/warn`: appends a warning numbered one past the current count. */
  function AddWarning(r: UserRecord, reason: string, moderator: string, date: int): (r': UserRecord)
    ensures |r'.warnings| == |r.warnings| + 1 && r'.warnings[..|r.warnings|] == r.warnings
  {
    r.(warnings := r.warnings + [Warning(|r.warnings| + 1, reason, moderator, date)])
  }

  /**
   * A warning is appended with id n + 1 after n earlier ones, which stay
   * as they were; nothing else in the record changes, and ids stay 1..n+1.
   */
  lemma AddWarningAppends(r: UserRecord, reason: string, moderator: string, date: int)
    ensures var r' := AddWarning(r, reason, moderator, date);
      && |r'.warnings| == |r.warnings| + 1
      && r'.warnings[..|r.warnings|] == r.warnings
      && r'.warnings[|r.warnings|] == Warning(|r.warnings| + 1, reason, moderator, date)
      && r'.(warnings := r.warnings) == r
      && (RecordOk(r) ==> RecordOk(r'))
  {
  }

  /** `/clearwarns`: empties the warning list and keeps everything else. */
  function ClearWarnings(r: UserRecord): (r': UserRecord)
    ensures r'.warnings == [] && r'.(warnings := r.warnings) == r
  {
    r.(warnings := [])
  }

  /** After clearing, the record survives and the next warning is number 1 again. */
  lemma ClearThenWarnStartsAtOne(r: UserRecord, reason: string, moderator: string, date: int)
    ensures ClearWarnings(r).(warnings := r.warnings) == r
    ensures RecordOk(r) ==> RecordOk(ClearWarnings(r))
    ensures AddWarning(ClearWarnings(r), reason, moderator, date).warnings == [Warning(1, reason, moderator, date)]
  {
  }
}
