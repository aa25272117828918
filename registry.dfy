/**
 * The punishment registry: `banned_users` and `muted_users`, both keyed
 * by "<guild id>_<user id>", each entry carrying its expiry instant
 * (integer seconds). The periodic sweep `check_temp_punishments` removes
 * every entry whose expiry has been reached.
 */
module Registry {
  import opened Wrappers
  import opened Duration

  /** One entry of `banned_users` or `muted_users`. */
  datatype Punishment = Punishment(userId: string, guildId: string, expiry: int, reason: string, moderator: string)

  type Table = map<string, Punishment>

  /** The composite key f"{guild_id}_{user_id}". */
  function Key(guild: string, user: string): (k: string)
    ensures |k| == |guild| + 1 + |user| && k[|guild|] == '_'
    ensures k[..|guild|] == guild && k[|guild| + 1..] == user
  {
    guild + "_" + user
  }

  /** Platform ids are digit strings, so they never contain the separator. */
  predicate IsId(s: string)
  {
    |s| >= 1 && AllDigits(s)
  }

  /**
   * The latest instant a `datetime` can hold, 9999-12-31 23:59:59, in
   * seconds from 1970-01-01 00:00:00 of the same clock.
   */
  const MaxInstant := 253402300799

  /** The largest `timedelta`, 999999999 days and 86399 seconds, in seconds. */
  const MaxDeltaSeconds := 86399999999999

  /**
   * `now + timedelta(seconds=d)` yields an instant: neither the delta nor
   * the sum leaves its type's range (otherwise Python raises OverflowError).
   * `now` is the whole second of the clock, so its fraction never matters.
   */
  predicate ExpiryRepresentable(now: int, d: int)
    ensures now >= 0 ==> (ExpiryRepresentable(now, d) <==> now + d <= MaxInstant)
  {
    d <= MaxDeltaSeconds && now + d <= MaxInstant
  }

  /** For ids, the composite key determines the guild and the user. */
  lemma KeyInjective(g1: string, u1: string, g2: string, u2: string)
    requires IsId(g1) && IsId(g2)
    requires Key(g1, u1) == Key(g2, u2)
    ensures g1 == g2 && u1 == u2
  {
    var k1, k2 := Key(g1, u1), Key(g2, u2);
    SeparatorFirst(g1, u1);
    SeparatorFirst(g2, u2);
    assert g1 == k1[..|g1|] && g2 == k2[..|g2|];
    assert u1 == k1[|g1| + 1..] && u2 == k2[|g2| + 1..];
  }

  /** In the key of an id, the first separator sits right after the guild id. */
  lemma SeparatorFirst(guild: string, user: string)
    requires IsId(guild)
    ensures Key(guild, user)[|guild|] == '_'
    ensures forall i :: 0 <= i < |guild| ==> Key(guild, user)[i] != '_'
  {
    assert forall i :: 0 <= i < |guild| ==> Key(guild, user)[i] == guild[i];
  }

  /**
   * Writing or deleting the entry of one (guild, user) pair leaves the
   * entry of every other pair of ids as it was, present or absent.
   */
  lemma OtherKeysUntouched(m: Table, guild: string, user: string, p: Punishment, g: string, u: string)
    requires IsId(guild) && IsId(g) && (g != guild || u != user)
    ensures Key(g, u) in m - {Key(guild, user)} <==> Key(g, u) in m
    ensures Key(g, u) in m[Key(guild, user) := p] <==> Key(g, u) in m
    ensures Key(g, u) in m ==>
      (m - {Key(guild, user)})[Key(g, u)] == m[Key(g, u)] && m[Key(guild, user) := p][Key(g, u)] == m[Key(g, u)]
  {
    if Key(g, u) == Key(guild, user) {
      KeyInjective(g, u, guild, user);
    }
  }

  /** The sweep's test `now >= unban_time` / `now >= unmute_time`. */
  predicate Expired(p: Punishment, now: int)
  {
    now >= p.expiry
  }

  /** What a table holds after the sweep at `now`. */
  function Unexpired(m: Table, now: int): (r: Table)
    ensures forall k :: k in r ==> k in m && r[k] == m[k] && !Expired(r[k], now)
  {
    map k | k in m && !Expired(m[k], now) :: m[k]
  }

  /**
   * The sweep's first loop: walks the table and collects, once each, the
   * keys whose entry has expired (`to_unban` / `to_unmute`).
   */
  method CollectExpired(m: Table, now: int) returns (keys: seq<string>)
    ensures forall i, j :: 0 <= i < j < |keys| ==> keys[i] != keys[j]
    ensures forall k :: k in keys <==> k in m && Expired(m[k], now)
  {
    keys := [];
    var pending := m.Keys;
    while pending != {}
      invariant pending <= m.Keys
      invariant forall i, j :: 0 <= i < j < |keys| ==> keys[i] != keys[j]
      invariant forall k :: k in keys ==> k in m && k !in pending && Expired(m[k], now)
      invariant forall k :: k in m && k !in pending && Expired(m[k], now) ==> k in keys
      decreases pending
    {
      var k :| k in pending;
      if Expired(m[k], now) {
        keys := keys + [k];
      }
      pending := pending - {k};
    }
  }

  /**
   * The sweep's second loop: deletes each collected key. `del` raises on
   * a missing key, so the keys must be present and listed once each; then
   * every deletion finds its key.
   */
  method DeleteKeys(m: Table, keys: seq<string>) returns (r: Table)
    requires forall k :: k in keys ==> k in m
    requires forall i, j :: 0 <= i < j < |keys| ==> keys[i] != keys[j]
    ensures r == m - set k | k in keys
  {
    r := m;
    var i := 0;
    while i < |keys|
      invariant 0 <= i <= |keys|
      invariant r == m - set k | k in keys[..i]
    {
      assert keys[i] !in keys[..i];
      assert keys[i] in r;
      r := r - {keys[i]};
      i := i + 1;
      assert keys[..i] == keys[..i - 1] + [keys[i - 1]];
    }
    assert keys[..i] == keys;
  }

  /** Deleting the expired keys leaves exactly the unexpired entries. */
  lemma DeleteExpiredIsUnexpired(m: Table, now: int, keys: seq<string>)
    requires forall k :: k in keys <==> k in m && Expired(m[k], now)
    ensures m - (set k | k in keys) == Unexpired(m, now)
  {
  }

  /**
   * After a sweep no entry has reached its expiry, every entry that had
   * not is kept with its contents, and nothing new appears.
   */
  lemma UnexpiredSpec(m: Table, now: int)
    ensures forall k :: k in Unexpired(m, now) ==> !Expired(Unexpired(m, now)[k], now)
    ensures forall k :: k in m && !Expired(m[k], now) ==> k in Unexpired(m, now) && Unexpired(m, now)[k] == m[k]
    ensures Unexpired(m, now).Keys <= m.Keys
  {
  }

  /** Sweeping at `now` and then at a later time is the same as sweeping once at the later time. */
  lemma SweepsCompose(m: Table, now: int, later: int)
    requires now <= later
    ensures Unexpired(Unexpired(m, now), later) == Unexpired(m, later)
  {
  }

  /**
   * A temporary punishment recorded at `now` for the duration "10m"
   * expires at now + 600: a sweep before then keeps it, a sweep at or
   * after then removes it, and other keys are unaffected either way.
   */
  lemma TenMinuteMuteLifecycle(m: Table, key: string, p: Punishment, now: int, sweepAt: int)
    requires ParseDuration("10m").Some? && p.expiry == now + ParseDuration("10m").value
    ensures p.expiry == now + 600
    ensures key in Unexpired(m[key := p], sweepAt) <==> sweepAt < now + 600
    ensures forall k :: k != key ==>
      (k in Unexpired(m[key := p], sweepAt) <==> k in Unexpired(m, sweepAt))
  {
    ParseDurationValidExamples();
  }
}
