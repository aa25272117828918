/**
 * Ranking of a guild's members by XP, as `/rank` and `/profile` compute
 * it: the guild's records, in the order `user_data` yields them, are
 * sorted by XP in descending order with Python's stable `list.sort`, and
 * a user's rank is the 1-based position of the first entry with their id.
 */
module Ranking {
  import opened Wrappers

  /** One row of the list the handlers build: (user id, xp, level). */
  datatype Entry = Entry(uid: string, xp: int, level: int)

  ghost predicate SortedByXpDesc(s: seq<Entry>)
  {
    forall i, j :: 0 <= i < j < |s| ==> s[i].xp >= s[j].xp
  }

  ghost predicate DistinctUids(s: seq<Entry>)
  {
    forall i, j :: 0 <= i < j < |s| ==> s[i].uid != s[j].uid
  }

  ghost predicate DistinctXp(s: seq<Entry>)
  {
    forall i, j :: 0 <= i < j < |s| ==> s[i].xp != s[j].xp
  }

  /**
   * Inserts `e` before the first entry whose XP is not above its own, so
   * that `e` stays ahead of the equal entries that came after it in the
   * input: the insertion step of a stable descending sort.
   */
  function Insert(t: seq<Entry>, e: Entry): (r: seq<Entry>)
    ensures multiset(r) == multiset(t) + multiset{e}
    ensures |r| == |t| + 1
    ensures r[0] == e || (t != [] && r[0] == t[0])
  {
    if t == [] || t[0].xp <= e.xp then [e] + t
    else
      assert t == [t[0]] + t[1..];
      [t[0]] + Insert(t[1..], e)
  }

  /** Inserting into a list sorted by XP, highest first, keeps it sorted. */
  lemma {:induction false} InsertSorted(t: seq<Entry>, e: Entry)
    requires SortedByXpDesc(t)
    ensures SortedByXpDesc(Insert(t, e))
  {
    if t != [] && t[0].xp > e.xp {
      InsertSorted(t[1..], e);
      var rest := Insert(t[1..], e);
      assert t[0].xp >= rest[0].xp;
      forall i, j | 0 <= i < j < |rest| + 1
        ensures ([t[0]] + rest)[i].xp >= ([t[0]] + rest)[j].xp
      {
        if i > 0 {
          assert rest[i - 1].xp >= rest[j - 1].xp;
        } else {
          assert rest[0].xp >= rest[j - 1].xp;
        }
      }
    }
  }

  /** `all_users.sort(key=lambda x: x[1], reverse=True)`: a stable sort by XP, highest first. */
  function SortByXpDesc(s: seq<Entry>): (r: seq<Entry>)
    ensures multiset(r) == multiset(s)
    ensures |r| == |s|
    ensures SortedByXpDesc(r)
  {
    if s == [] then []
    else
      assert s == [s[0]] + s[1..];
      InsertSorted(SortByXpDesc(s[1..]), s[0]);
      Insert(SortByXpDesc(s[1..]), s[0])
  }

  /** The entries with XP exactly `x`, in list order. */
  function WithXp(s: seq<Entry>, x: int): (r: seq<Entry>)
    ensures |r| <= |s|
  {
    if s == [] then []
    else (if s[0].xp == x then [s[0]] else []) + WithXp(s[1..], x)
  }

  /** Every entry kept by `WithXp` comes from the list and has XP `x`. */
  lemma {:induction false} WithXpMembers(s: seq<Entry>, x: int)
    ensures forall e :: e in WithXp(s, x) ==> e in s && e.xp == x
  {
    if s != [] {
      WithXpMembers(s[1..], x);
    }
  }

  lemma {:induction false} WithXpAppend(a: seq<Entry>, b: seq<Entry>, x: int)
    ensures WithXp(a + b, x) == WithXp(a, x) + WithXp(b, x)
  {
    if a != [] {
      var head := if a[0].xp == x then [a[0]] else [];
      assert (a + b)[1..] == a[1..] + b;
      WithXpAppend(a[1..], b, x);
      calc {
        WithXp(a + b, x);
        head + WithXp(a[1..] + b, x);
        head + (WithXp(a[1..], x) + WithXp(b, x));
        (head + WithXp(a[1..], x)) + WithXp(b, x);
      }
    } else {
      assert a + b == b;
    }
  }

  /** Entry `i` comes right after the entries of its XP that precede it. */
  lemma WithXpSplit(s: seq<Entry>, i: nat)
    requires i < |s|
    ensures WithXp(s, s[i].xp) == WithXp(s[..i], s[i].xp) + [s[i]] + WithXp(s[i + 1..], s[i].xp)
  {
    var x := s[i].xp;
    var tail := s[i..];
    assert s == s[..i] + tail;
    WithXpAppend(s[..i], tail, x);
    assert tail[0] == s[i] && tail[1..] == s[i + 1..];
  }

  /** Inserting `e` puts it ahead of every entry of equal XP and moves no other entry of any XP block. */
  lemma {:induction false} InsertKeepsTies(t: seq<Entry>, e: Entry, x: int)
    ensures WithXp(Insert(t, e), x) == if e.xp == x then [e] + WithXp(t, x) else WithXp(t, x)
  {
    if t == [] || t[0].xp <= e.xp {
      assert ([e] + t)[1..] == t;
      if t != [] && e.xp != x {
        assert WithXp(t, x) == (if t[0].xp == x then [t[0]] else []) + WithXp(t[1..], x);
      }
    } else {
      InsertKeepsTies(t[1..], e, x);
      assert ([t[0]] + Insert(t[1..], e))[1..] == Insert(t[1..], e);
    }
  }

  /**
   * Stability: for every XP value, the entries with that XP appear in the
   * sorted list in the order they had in the input.
   */
  lemma {:induction false} SortStable(s: seq<Entry>, x: int)
    ensures WithXp(SortByXpDesc(s), x) == WithXp(s, x)
  {
    if s != [] {
      SortStable(s[1..], x);
      InsertKeepsTies(SortByXpDesc(s[1..]), s[0], x);
    }
  }

  /** In a list sorted by XP, the entries with XP `x` form one block, right after the entries above `x`. */
  lemma {:induction false} SortedBlock(r: seq<Entry>, x: int)
    requires SortedByXpDesc(r)
    ensures CountAbove(r, x) + |WithXp(r, x)| <= |r|
    ensures forall q :: 0 <= q < |WithXp(r, x)| ==> r[CountAbove(r, x) + q] == WithXp(r, x)[q]
  {
    if r != [] {
      var t := r[1..];
      assert SortedByXpDesc(t);
      SortedBlock(t, x);
      if r[0].xp == x {
        CountAboveAtMost(t, x, 0);
      } else if r[0].xp < x {
        WithXpMembers(r, x);
      }
    }
  }

  /** Sizes of the XP blocks: the entries at least at `x` are those above it plus those at it. */
  lemma {:induction false} CountTies(s: seq<Entry>, x: int)
    ensures CountAtLeast(s, x) == CountAbove(s, x) + |WithXp(s, x)|
  {
    if s != [] {
      CountTies(s[1..], x);
    }
  }

  /** How many entries before entry `i` have the same XP as it. */
  function TiesBefore(s: seq<Entry>, i: nat): nat
    requires i < |s|
  {
    |WithXp(s[..i], s[i].xp)|
  }

  /**
   * With distinct ids, entry `i` is the only entry of its XP block with
   * its id, and it stands after the `TiesBefore(s, i)` entries of that
   * block that precede it in the list.
   */
  lemma PositionAmongTies(s: seq<Entry>, i: nat, q: nat)
    requires i < |s| && DistinctUids(s)
    requires q < |WithXp(s, s[i].xp)| && WithXp(s, s[i].xp)[q].uid == s[i].uid
    ensures q == TiesBefore(s, i)
  {
    var x := s[i].xp;
    var a := WithXp(s[..i], x);
    var b := WithXp(s[i + 1..], x);
    WithXpSplit(s, i);
    IdAbsentFromTies(s[..i], x, s[i].uid);
    IdAbsentFromTies(s[i + 1..], x, s[i].uid);
    var w := WithXp(s, x);
    forall q' | 0 <= q' < |w| && q' != |a|
      ensures w[q'].uid != s[i].uid
    {
      if q' < |a| {
        assert w[q'] == a[q'];
      } else {
        assert w[q'] == b[q' - |a| - 1];
      }
    }
  }

  /** An id that no entry of the list carries is carried by no entry of its XP block either. */
  lemma {:induction false} IdAbsentFromTies(t: seq<Entry>, x: int, uid: string)
    requires forall k :: 0 <= k < |t| ==> t[k].uid != uid
    ensures forall q :: 0 <= q < |WithXp(t, x)| ==> WithXp(t, x)[q].uid != uid
  {
    if t != [] {
      IdAbsentFromTies(t[1..], x, uid);
    }
  }

  /**
   * Stability at the top: when entry `i` is the earliest of the entries
   * tied for the highest XP, it is ranked first.
   */
  lemma SortKeepsFirstOfEqualTop(s: seq<Entry>, i: nat)
    requires i < |s|
    requires forall k :: 0 <= k < |s| ==> s[k].xp <= s[i].xp
    requires forall k :: 0 <= k < i ==> s[k].xp < s[i].xp
    ensures SortByXpDesc(s)[0] == s[i]
  {
    var x := s[i].xp;
    var r := SortByXpDesc(s);
    WithXpSplit(s, i);
    WithXpMembers(s[..i], x);
    SortStable(s, x);
    SortCounts(s, x);
    CountAboveAtMost(s, x, 0);
    SortedBlock(r, x);
    assert r[CountAbove(r, x) + 0] == WithXp(r, x)[0];
  }

  /** Number of entries with XP strictly above `x`. */
  function CountAbove(s: seq<Entry>, x: int): nat
  {
    if s == [] then 0 else (if s[0].xp > x then 1 else 0) + CountAbove(s[1..], x)
  }

  /** Number of entries with XP at least `x`. */
  function CountAtLeast(s: seq<Entry>, x: int): nat
  {
    if s == [] then 0 else (if s[0].xp >= x then 1 else 0) + CountAtLeast(s[1..], x)
  }

  lemma {:induction false} InsertCounts(t: seq<Entry>, e: Entry, x: int)
    ensures CountAbove(Insert(t, e), x) == CountAbove(t, x) + (if e.xp > x then 1 else 0)
    ensures CountAtLeast(Insert(t, e), x) == CountAtLeast(t, x) + (if e.xp >= x then 1 else 0)
  {
    if t == [] || t[0].xp <= e.xp {
      assert ([e] + t)[1..] == t;
    } else {
      InsertCounts(t[1..], e, x);
      assert ([t[0]] + Insert(t[1..], e))[1..] == Insert(t[1..], e);
    }
  }

  /** Sorting does not change how many entries lie above (or at least at) a given XP. */
  lemma {:induction false} SortCounts(s: seq<Entry>, x: int)
    ensures CountAbove(SortByXpDesc(s), x) == CountAbove(s, x)
    ensures CountAtLeast(SortByXpDesc(s), x) == CountAtLeast(s, x)
  {
    if s != [] {
      SortCounts(s[1..], x);
      InsertCounts(SortByXpDesc(s[1..]), s[0], x);
    }
  }

  lemma {:induction false} CountAboveAtMost(r: seq<Entry>, x: int, p: nat)
    requires forall k :: p <= k < |r| ==> r[k].xp <= x
    ensures CountAbove(r, x) <= p
  {
    if r != [] {
      CountAboveAtMost(r[1..], x, if p == 0 then 0 else p - 1);
    }
  }

  lemma {:induction false} CountAtLeastAtLeast(r: seq<Entry>, x: int, p: nat)
    requires p <= |r|
    requires forall k :: 0 <= k < p ==> r[k].xp >= x
    ensures CountAtLeast(r, x) >= p
  {
    if p > 0 {
      CountAtLeastAtLeast(r[1..], x, p - 1);
    }
  }

  /** With distinct XP values, exactly one entry has the XP of entry `i`. */
  lemma {:induction false} CountAtLeastDistinct(s: seq<Entry>, i: nat)
    requires i < |s| && DistinctXp(s)
    ensures CountAtLeast(s, s[i].xp) == CountAbove(s, s[i].xp) + 1
  {
    if i == 0 {
      NoneEqual(s[1..], s[0].xp);
    } else {
      assert s[1..][i - 1] == s[i];
      CountAtLeastDistinct(s[1..], i - 1);
    }
  }

  lemma {:induction false} NoneEqual(s: seq<Entry>, x: int)
    requires forall k :: 0 <= k < |s| ==> s[k].xp != x
    ensures CountAtLeast(s, x) == CountAbove(s, x)
  {
    if s != [] {
      NoneEqual(s[1..], x);
    }
  }

  /**
   * `next(i + 1 for i, (uid, ...) in enumerate(all_users) if uid == user_id)`:
   * the 1-based position of the first entry with id `uid`, None if there is none.
   */
  method FirstPosition(r: seq<Entry>, uid: string) returns (rank: Option<nat>)
    ensures rank.None? <==> forall k :: 0 <= k < |r| ==> r[k].uid != uid
    ensures rank.Some? ==> 1 <= rank.value <= |r| && r[rank.value - 1].uid == uid
    ensures rank.Some? ==> forall k :: 0 <= k < rank.value - 1 ==> r[k].uid != uid
  {
    var i := 0;
    while i < |r|
      invariant 0 <= i <= |r|
      invariant forall k :: 0 <= k < i ==> r[k].uid != uid
    {
      if r[i].uid == uid {
        return Some(i + 1);
      }
      i := i + 1;
    }
    return None;
  }

  /**
   * Where entry `i` of the list ends up after the sort. Its position `p`
   * (rank - 1) lies inside its block of equal XP: at least the number of
   * entries above it and below the number of entries at least as high;
   * with distinct XP values it is exactly the number of entries above it.
   * In general it is exactly the number of entries above it plus the number
   * of entries of the same XP listed before it (the sort is stable). The
   * entry just ahead of it never has less XP.
   */
  lemma RankPosition(s: seq<Entry>, i: nat, p: nat)
    requires i < |s| && DistinctUids(s)
    requires p < |s| && SortByXpDesc(s)[p].uid == s[i].uid
    ensures SortByXpDesc(s)[p] == s[i]
    ensures CountAbove(s, s[i].xp) <= p < CountAtLeast(s, s[i].xp)
    ensures DistinctXp(s) ==> p == CountAbove(s, s[i].xp)
    ensures p == CountAbove(s, s[i].xp) + TiesBefore(s, i)
    ensures p > 0 ==> SortByXpDesc(s)[p - 1].xp >= s[i].xp
  {
    var r := SortByXpDesc(s);
    SortedEntryIsUnique(s, i, p);
    var x := s[i].xp;
    PositionInSorted(r, p);
    SortCounts(s, x);
    if DistinctXp(s) {
      CountAtLeastDistinct(s, i);
    }
    ExactPosition(s, i, p);
  }

  /** The exact sorted position of entry `i`, from stability and the block structure of a sorted list. */
  lemma ExactPosition(s: seq<Entry>, i: nat, p: nat)
    requires i < |s| && DistinctUids(s)
    requires p < |s| && SortByXpDesc(s)[p] == s[i]
    ensures p == CountAbove(s, s[i].xp) + TiesBefore(s, i)
  {
    var r := SortByXpDesc(s);
    var x := s[i].xp;
    IndexInBlock(r, p);
    SortCounts(s, x);
    SortStable(s, x);
    PositionAmongTies(s, i, p - CountAbove(r, x));
  }

  /** In a sorted list, entry `p` is entry `p - CountAbove` of its XP block. */
  lemma IndexInBlock(r: seq<Entry>, p: nat)
    requires SortedByXpDesc(r) && p < |r|
    ensures CountAbove(r, r[p].xp) <= p
    ensures p - CountAbove(r, r[p].xp) < |WithXp(r, r[p].xp)|
    ensures WithXp(r, r[p].xp)[p - CountAbove(r, r[p].xp)] == r[p]
  {
    var x := r[p].xp;
    PositionInSorted(r, p);
    CountTies(r, x);
    SortedBlock(r, x);
  }

  /** In a list sorted by XP, position `p` lies inside the block of entries with its XP. */
  lemma PositionInSorted(r: seq<Entry>, p: nat)
    requires SortedByXpDesc(r) && p < |r|
    ensures CountAbove(r, r[p].xp) <= p < CountAtLeast(r, r[p].xp)
  {
    CountAboveAtMost(r, r[p].xp, p);
    CountAtLeastAtLeast(r, r[p].xp, p + 1);
  }

  /** With distinct ids, the sorted entry carrying the id of entry `i` is entry `i` itself. */
  lemma SortedEntryIsUnique(s: seq<Entry>, i: nat, p: nat)
    requires i < |s| && DistinctUids(s)
    requires p < |s| && SortByXpDesc(s)[p].uid == s[i].uid
    ensures SortByXpDesc(s)[p] == s[i]
  {
    var r := SortByXpDesc(s);
    assert r[p] in multiset(r);
    assert r[p] in multiset(s);
    var j :| 0 <= j < |s| && s[j] == r[p];
    assert s[j].uid == s[i].uid;
    assert j == i;
  }

  /** Every entry of the list is found in the sorted list, so its rank is always defined. */
  lemma SortedContainsEntry(s: seq<Entry>, i: nat)
    requires i < |s|
    ensures exists k :: 0 <= k < |s| && SortByXpDesc(s)[k] == s[i]
  {
    assert s[i] in multiset(SortByXpDesc(s));
  }
}
