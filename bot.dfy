/**
 * The bot's in-memory state, `user_data`, `muted_users` and
 * `banned_users`, and the handlers that change it: lazy record creation,
 * the XP award of `on_message`, the timed moderation commands, the
 * periodic sweep, warnings, and the rank query. Each handler runs as one
 * atomic step; the outcome of every platform call is a parameter.
 */
module Bot {
  import opened Wrappers
  import opened Levels
  import opened Duration
  import opened Ranking
  import opened Records
  import opened Registry

  /** Outcome of `/tempban` or `/mute`. */
  datatype PunishOutcome =
    | InvalidDuration      // parse_duration gave None
    | OutOfRange           // now + duration overflowed `datetime`: the generic error reply
    | Refused              // the platform refused the ban or timeout
    | Recorded(expiry: int)

  /** What `/rank` reports: rank, number of ranked records, XP gap to the rank above, progress window. */
  datatype RankInfo = RankInfo(rank: nat, outOf: nat, gapToNext: Option<int>, window: Window)

  /**
   * "500000w" is a valid duration of 302400000000 seconds, yet from any
   * instant after 1970 its expiry lies past year 9999: `/tempban` and
   * `/mute` stop with OutOfRange before any platform call.
   */
  lemma OverlongDurationOverflows(now: int)
    requires now >= 0
    ensures ParseDuration("500000w") == Some(302400000000)
    ensures !ExpiryRepresentable(now, ParseDuration("500000w").value)
  {
    assert ParseDuration("500000w") == Some(302400000000) by {
      ParseShownDuration(500000, 'w', "");
      ShowFiveHundredThousand();
    }
  }

  lemma ShowFiveHundredThousand()
    ensures Show(500000) + ['w'] + "" == "500000w"
  {
    assert Show(5) == "5";
    assert Show(50) == "50";
    assert Show(500) == "500";
    assert Show(5000) == "5000";
    assert Show(50000) == "50000";
    assert Show(500000) == "500000";
  }

  /** The list `[(uid, xp, level)]` of a guild's records, in the order `user_data` yields its user ids. */
  function GuildEntries(order: seq<string>, users: UserData, guild: string): (s: seq<Entry>)
    ensures |s| <= |order|
  {
    if order == [] then []
    else
      var uid := order[|order| - 1];
      GuildEntries(order[..|order| - 1], users, guild)
        + (if HasRecord(users, uid, guild) then [Entry(uid, users[uid][guild].xp, users[uid][guild].level)] else [])
  }

  /**
   * Built from distinct user ids, the list holds each user with a record
   * in the guild exactly once, with that record's XP.
   */
  lemma {:induction false} GuildEntriesFaithful(order: seq<string>, users: UserData, guild: string)
    requires forall i, j :: 0 <= i < j < |order| ==> order[i] != order[j]
    ensures var s := GuildEntries(order, users, guild);
      && DistinctUids(s)
      && (forall k :: 0 <= k < |s| ==>
            s[k].uid in order && HasRecord(users, s[k].uid, guild) && s[k].xp == users[s[k].uid][guild].xp)
      && (forall u :: u in order && HasRecord(users, u, guild) ==> exists k :: 0 <= k < |s| && s[k].uid == u)
  {
    if order != [] {
      var init := order[..|order| - 1];
      var uid := order[|order| - 1];
      GuildEntriesFaithful(init, users, guild);
      var s0 := GuildEntries(init, users, guild);
      var s := GuildEntries(order, users, guild);
      assert uid !in init;
      assert forall k :: 0 <= k < |s0| ==> s[k] == s0[k];
      forall u | u in order && HasRecord(users, u, guild)
        ensures exists k :: 0 <= k < |s| && s[k].uid == u
      {
        if u == uid {
          assert s[|s| - 1].uid == u;
        } else {
          assert u in init;
          var k :| 0 <= k < |s0| && s0[k].uid == u;
          assert s[k].uid == u;
        }
      }
    }
  }

  /**
   * `rank` and `gap` are what `/rank` reports for the user with id `user`
   * and XP `xp` in the guild list `entries`: the 1-based position of the
   * first entry with that id after the stable sort by XP, highest first,
   * and the XP of the entry just above minus the user's. The position lies
   * inside the block of entries with the user's XP: it is exactly 1 + the
   * number of entries with more XP + the number of entries with the same
   * XP listed before the user's (so 1 + the number with more XP when all
   * XP values are distinct).
   */
  ghost predicate IsRankOf(entries: seq<Entry>, user: string, xp: int, rank: nat, gap: Option<int>)
  {
    var sorted := SortByXpDesc(entries);
    && 1 <= rank <= |entries|
    && sorted[rank - 1].uid == user && sorted[rank - 1].xp == xp
    && (forall k :: 0 <= k < rank - 1 ==> sorted[k].uid != user)
    && CountAbove(entries, xp) < rank <= CountAtLeast(entries, xp)
    && (DistinctXp(entries) ==> rank == CountAbove(entries, xp) + 1)
    && (forall i :: 0 <= i < |entries| && entries[i].uid == user ==>
          rank == CountAbove(entries, entries[i].xp) + TiesBefore(entries, i) + 1)
    && (gap.Some? <==> rank > 1)
    && (gap.Some? ==> gap.value == sorted[rank - 2].xp - xp && gap.value >= 0)
  }

  /**
   * The sort and search of `/rank` over the guild's list. The user's entry
   * `mine` is always found, so the source's "no data" branch is dead.
   */
  method RankIn(entries: seq<Entry>, user: string, ghost mine: nat) returns (rank: nat, gap: Option<int>)
    requires DistinctUids(entries) && mine < |entries| && entries[mine].uid == user
    ensures IsRankOf(entries, user, entries[mine].xp, rank, gap)
  {
    var sorted := SortByXpDesc(entries);
    SortedContainsEntry(entries, mine);
    var found := FirstPosition(sorted, user);
    if found.None? {
      assert false;
    }
    rank := found.value;
    RankPosition(entries, mine, rank - 1);
    var userXp := sorted[rank - 1].xp;
    gap := if rank > 1 then Some(sorted[rank - 2].xp - userXp) else None;
  }

  /**
   * The invariant of `user_data` and its iteration order: the order lists
   * each user id of `user_data` once, and every record is consistent.
   */
  ghost predicate UsersOk(users: UserData, order: seq<string>)
  {
    && (forall u :: u in users <==> u in order)
    && (forall i, j :: 0 <= i < j < |order| ==> order[i] != order[j])
    && (forall u, g :: HasRecord(users, u, g) ==> RecordOk(users[u][g]))
  }

  /** Replacing one existing record by a consistent one keeps the invariant. */
  lemma ReplaceRecordOk(users: UserData, order: seq<string>, user: string, guild: string, r: UserRecord)
    requires UsersOk(users, order) && HasRecord(users, user, guild) && RecordOk(r)
    ensures UsersOk(users[user := users[user][guild := r]], order)
  {
    var users' := users[user := users[user][guild := r]];
    forall u, g | HasRecord(users', u, g)
      ensures RecordOk(users'[u][g])
    {
      if u != user || g != guild {
        assert HasRecord(users, u, g);
      }
    }
  }

  class BotState {
    var users: UserData
    /** The user ids of `user_data` in insertion order: the order in which the handlers iterate over it. */
    var userOrder: seq<string>
    var muted: Table
    var banned: Table

    ghost predicate Valid()
      reads this
    {
      UsersOk(users, userOrder)
    }

    constructor ()
      ensures Valid()
      ensures users == map[] && userOrder == [] && muted == map[] && banned == map[]
    {
      users, userOrder, muted, banned := map[], [], map[], map[];
    }

    /** `init_user`: creates the (user, guild) record if it is missing, with `now` as its join date. */
    method InitUser(user: string, guild: string, now: int)
      requires Valid()
      modifies this`users, this`userOrder
      ensures Valid()
      ensures users == AddRecord(old(users), user, guild, now)
      ensures userOrder == if user in old(users) then old(userOrder) else old(userOrder) + [user]
    {
      if user !in users {
        users := users[user := map[]];
        userOrder := userOrder + [user];
      }
      if guild !in users[user] {
        users := users[user := users[user][guild := NewRecord(now)]];
        NewRecordOk(now);
      }
    }

    /**
     * `on_message`: ignores bots and messages outside a guild; creates
     * the author's record; deletes the message of an author whose mute
     * key is registered (whatever its expiry); otherwise applies the XP
     * rule with the drawn `gain` and reports a level-up.
     */
    method OnMessage(user: string, guild: string, fromBot: bool, inGuild: bool, now: int, gain: int)
      returns (outcome: MessageOutcome)
      requires Valid() && MinGain <= gain <= MaxGain
      modifies this`users, this`userOrder
      ensures Valid()
      ensures fromBot || !inGuild ==> outcome == Ignored && users == old(users) && userOrder == old(userOrder)
      ensures !fromBot && inGuild ==>
        var created := AddRecord(old(users), user, guild, now);
        && HasRecord(created, user, guild)
        && userOrder == (if user in old(users) then old(userOrder) else old(userOrder) + [user])
        && if Key(guild, user) in muted then outcome == Deleted && users == created
           else
             var a := Award(created[user][guild], now, gain);
             outcome == a.outcome && users == created[user := created[user][guild := a.record]]
    {
      if fromBot || !inGuild {
        return Ignored;
      }
      InitUser(user, guild, now);
      if Key(guild, user) in muted {
        return Deleted;
      }
      var r := users[user][guild];
      ghost var before := r;
      if r.lastXpTime.Some? && now - r.lastXpTime.value < Cooldown {
        assert users[user][guild := r] == users[user];
        return OnCooldown;
      }
      r := r.(xp := r.xp + gain);
      r := r.(totalXpGained := r.totalXpGained + gain);
      r := r.(messagesSent := r.messagesSent + 1);
      r := r.(lastXpTime := Some(now));
      var oldLevel := r.level;
      var newLevel := CalculateLevel(r.xp);
      r := r.(level := newLevel);
      AwardKeepsRecordOk(before, now, gain);
      assert r == Award(before, now, gain).record;
      ReplaceRecordOk(users, userOrder, user, guild, r);
      users := users[user := users[user][guild := r]];
      outcome := Awarded(if newLevel > oldLevel then Some(LevelUp(newLevel, r.xp, newLevel * 50)) else None);
    }

    /**
     * `/tempban`: with a valid duration whose expiry `datetime` can hold
     * and a ban the platform accepts, records (or replaces) the ban under
     * the guild/user key, expiring at now + duration; otherwise the
     * registry is unchanged. The expiry is computed before the ban is
     * requested, so an overflow stops the command before any platform call.
     */
    method TempBan(user: string, guild: string, duration: string, now: int, reason: string, moderator: string,
                   banAccepted: bool)
      returns (outcome: PunishOutcome)
      modifies this`banned
      ensures ParseDuration(duration).None? ==> outcome == InvalidDuration && banned == old(banned)
      ensures ParseDuration(duration).Some? && !ExpiryRepresentable(now, ParseDuration(duration).value) ==>
        outcome == OutOfRange && banned == old(banned)
      ensures ParseDuration(duration).Some? && ExpiryRepresentable(now, ParseDuration(duration).value) && !banAccepted ==>
        outcome == Refused && banned == old(banned)
      ensures ParseDuration(duration).Some? && ExpiryRepresentable(now, ParseDuration(duration).value) && banAccepted ==>
        var expiry := now + ParseDuration(duration).value;
        outcome == Recorded(expiry)
        && banned == old(banned)[Key(guild, user) := Punishment(user, guild, expiry, reason, moderator)]
    {
      var seconds := ParseDuration(duration);
      if seconds.None? {
        return InvalidDuration;
      }
      if !ExpiryRepresentable(now, seconds.value) {
        return OutOfRange;
      }
      var unbanTime := now + seconds.value;
      if !banAccepted {
        return Refused;
      }
      banned := banned[Key(guild, user) := Punishment(user, guild, unbanTime, reason, moderator)];
      outcome := Recorded(unbanTime);
    }

    /**
     * `/mute`: with a valid duration whose expiry `datetime` can hold and
     * a timeout the platform accepts, records (or replaces) the mute under
     * the guild/user key, expiring at now + duration; otherwise the
     * registry is unchanged. An overflow stops the command before the
     * timeout is requested.
     */
    method Mute(user: string, guild: string, duration: string, now: int, reason: string, moderator: string,
                timeoutAccepted: bool)
      returns (outcome: PunishOutcome)
      modifies this`muted
      ensures ParseDuration(duration).None? ==> outcome == InvalidDuration && muted == old(muted)
      ensures ParseDuration(duration).Some? && !ExpiryRepresentable(now, ParseDuration(duration).value) ==>
        outcome == OutOfRange && muted == old(muted)
      ensures ParseDuration(duration).Some? && ExpiryRepresentable(now, ParseDuration(duration).value) && !timeoutAccepted ==>
        outcome == Refused && muted == old(muted)
      ensures ParseDuration(duration).Some? && ExpiryRepresentable(now, ParseDuration(duration).value) && timeoutAccepted ==>
        var expiry := now + ParseDuration(duration).value;
        outcome == Recorded(expiry)
        && muted == old(muted)[Key(guild, user) := Punishment(user, guild, expiry, reason, moderator)]
    {
      var seconds := ParseDuration(duration);
      if seconds.None? {
        return InvalidDuration;
      }
      if !ExpiryRepresentable(now, seconds.value) {
        return OutOfRange;
      }
      var unmuteTime := now + seconds.value;
      if !timeoutAccepted {
        return Refused;
      }
      muted := muted[Key(guild, user) := Punishment(user, guild, unmuteTime, reason, moderator)];
      outcome := Recorded(unmuteTime);
    }

    /**
     * `/unmute`: once the platform accepts clearing the timeout, removes
     * the guild/user key from the mutes if it is there; a refused call
     * removes nothing.
     */
    method Unmute(user: string, guild: string, clearAccepted: bool)
      modifies this`muted
      ensures muted == if clearAccepted then old(muted) - {Key(guild, user)} else old(muted)
    {
      if !clearAccepted {
        return;
      }
      var muteKey := Key(guild, user);
      if muteKey in muted {
        muted := muted - {muteKey};
      }
    }

    /**
     * `check_temp_punishments`: collects the expired bans, requests one
     * unban for each, deletes them all; then the same for mutes. The
     * platform's answers are swallowed, so the deletions do not depend on
     * them. Returns the keys for which a reversal was requested.
     */
    method CheckTempPunishments(now: int) returns (unbanned: seq<string>, unmuted: seq<string>)
      modifies this`banned, this`muted
      ensures banned == Unexpired(old(banned), now) && muted == Unexpired(old(muted), now)
      ensures forall k :: k in unbanned <==> k in old(banned) && Expired(old(banned)[k], now)
      ensures forall k :: k in unmuted <==> k in old(muted) && Expired(old(muted)[k], now)
      ensures forall i, j :: 0 <= i < j < |unbanned| ==> unbanned[i] != unbanned[j]
      ensures forall i, j :: 0 <= i < j < |unmuted| ==> unmuted[i] != unmuted[j]
    {
      unbanned := CollectExpired(banned, now);
      banned := DeleteKeys(banned, unbanned);
      DeleteExpiredIsUnexpired(old(banned), now, unbanned);
      unmuted := CollectExpired(muted, now);
      muted := DeleteKeys(muted, unmuted);
      DeleteExpiredIsUnexpired(old(muted), now, unmuted);
    }

    /** `/warn`: creates the record if needed, appends a warning numbered one past the count, returns the new count. */
    method Warn(user: string, guild: string, reason: string, moderator: string, now: int) returns (count: nat)
      requires Valid()
      modifies this`users, this`userOrder
      ensures Valid()
      ensures var created := AddRecord(old(users), user, guild, now);
        && HasRecord(created, user, guild)
        && users == created[user := created[user][guild := AddWarning(created[user][guild], reason, moderator, now)]]
        && count == |created[user][guild].warnings| + 1
      ensures userOrder == if user in old(users) then old(userOrder) else old(userOrder) + [user]
    {
      InitUser(user, guild, now);
      var r := users[user][guild];
      ghost var before := r;
      var warning := Warning(|r.warnings| + 1, reason, moderator, now);
      r := r.(warnings := r.warnings + [warning]);
      AddWarningAppends(before, reason, moderator, now);
      ReplaceRecordOk(users, userOrder, user, guild, r);
      users := users[user := users[user][guild := r]];
      count := |r.warnings|;
    }

    /** `/clearwarns`: creates the record if needed, empties its warnings, returns how many there were. */
    method ClearWarns(user: string, guild: string, now: int) returns (cleared: nat)
      requires Valid()
      modifies this`users, this`userOrder
      ensures Valid()
      ensures var created := AddRecord(old(users), user, guild, now);
        && HasRecord(created, user, guild)
        && users == created[user := created[user][guild := ClearWarnings(created[user][guild])]]
        && cleared == |created[user][guild].warnings|
      ensures userOrder == if user in old(users) then old(userOrder) else old(userOrder) + [user]
    {
      InitUser(user, guild, now);
      cleared := |users[user][guild].warnings|;
      ReplaceRecordOk(users, userOrder, user, guild, users[user][guild].(warnings := []));
      users := users[user := users[user][guild := users[user][guild].(warnings := [])]];
    }

    /** The handlers' loop over `user_data.items()` that lists the guild's (uid, xp, level) rows. */
    method CollectGuildEntries(guild: string) returns (entries: seq<Entry>)
      requires Valid()
      ensures entries == GuildEntries(userOrder, users, guild)
    {
      entries := [];
      var i := 0;
      while i < |userOrder|
        invariant 0 <= i <= |userOrder|
        invariant entries == GuildEntries(userOrder[..i], users, guild)
      {
        var uid := userOrder[i];
        assert userOrder[..i + 1][..i] == userOrder[..i];
        if guild in users[uid] {
          entries := entries + [Entry(uid, users[uid][guild].xp, users[uid][guild].level)];
        }
        i := i + 1;
      }
      assert userOrder[..i] == userOrder;
    }

    /**
     * `/rank`: creates the record if needed, lists the guild's records in
     * `user_data` order, sorts them by XP (stable, highest first), and
     * reports the 1-based position of the user, the XP gap to the entry
     * just above, and the progress window. The "no data" reply of the
     * source cannot happen: the record was just created.
     */
    method RankQuery(user: string, guild: string, now: int) returns (info: RankInfo)
      requires Valid()
      modifies this`users, this`userOrder
      ensures Valid()
      ensures users == AddRecord(old(users), user, guild, now)
      ensures userOrder == if user in old(users) then old(userOrder) else old(userOrder) + [user]
      ensures HasRecord(users, user, guild)
      ensures var s := GuildEntries(userOrder, users, guild);
        var r := users[user][guild];
        && info.outOf == |s|
        && IsRankOf(s, user, r.xp, info.rank, info.gapToNext)
        && info.window == ProgressWindow(r.level, r.xp)
    {
      InitUser(user, guild, now);
      var entries := CollectGuildEntries(guild);
      GuildEntriesFaithful(userOrder, users, guild);
      ghost var mine :| 0 <= mine < |entries| && entries[mine].uid == user;
      var rank, gap := RankIn(entries, user, mine);
      var data := users[user][guild];
      info := RankInfo(rank, |entries|, gap, ProgressWindow(data.level, data.xp));
    }
  }
}
