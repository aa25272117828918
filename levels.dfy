/**
 * Level arithmetic of the XP system: the cumulative thresholds
 * (`xp_for_level`), the step to the next level (`xp_for_next_level`),
 * the level reached by an amount of XP (`calculate_level`) and the
 * integer part of the progress window shown by `/profile` and `/rank`.
 */
module Levels {

  /** Cumulative XP threshold of level `level`: 100 * (1 + 2 + ... + level), 0 when level <= 0. */
  function XpForLevel(level: int): (xp: nat)
    ensures level >= 1 ==> xp >= 100 * level
    decreases if level < 0 then 0 else level
  {
    if level <= 0 then 0 else XpForLevel(level - 1) + 100 * level
  }

  /** The triangular sum has the closed form 50 * L * (L + 1). */
  lemma {:induction false} XpForLevelClosedForm(level: nat)
    ensures XpForLevel(level) == 50 * level * (level + 1)
  {
    if level > 0 {
      XpForLevelClosedForm(level - 1);
      assert 50 * (level - 1) * level + 100 * level == 50 * level * (level + 1);
    }
  }

  /** Thresholds are strictly increasing from level 0 on. */
  lemma {:induction false} XpForLevelIncreasing(a: int, b: int)
    requires 0 <= a < b
    ensures XpForLevel(a) < XpForLevel(b)
  {
    if a < b - 1 {
      XpForLevelIncreasing(a, b - 1);
    }
  }

  /** `xp_for_level`: sums i * 100 for i in 1..level, as the source's for-loop does. */
  method ComputeXpForLevel(level: int) returns (total: int)
    ensures total == XpForLevel(level)
    ensures level >= 0 ==> total == 50 * level * (level + 1)
  {
    total := 0;
    var i := 1;
    while i <= level
      invariant 1 <= i
      invariant i <= if level >= 0 then level + 1 else 1
      invariant total == XpForLevel(i - 1)
    {
      total := total + i * 100;
      i := i + 1;
    }
    if level >= 0 {
      XpForLevelClosedForm(level);
    } else {
      assert XpForLevel(level) == 0;
    }
  }

  /** `xp_for_next_level`: the XP that separates the threshold of a level from the next one. */
  function XpForNextLevel(currentLevel: int): (step: int)
    ensures currentLevel >= 0 ==> step == XpForLevel(currentLevel + 1) - XpForLevel(currentLevel)
  {
    (currentLevel + 1) * 100
  }

  /**
   * `level` is the level that `calculate_level` gives for `xp`: the
   * largest L with XpForLevel(L) <= xp, clamped to 1. Level 1 therefore
   * covers every xp below XpForLevel(2) = 300.
   */
  ghost predicate InLevelBand(xp: int, level: int)
  {
    level >= 1 && (level == 1 || XpForLevel(level) <= xp) && xp < XpForLevel(level + 1)
  }

  /** At most one level's band holds a given amount of XP. */
  lemma LevelBandUnique(xp: int, l1: int, l2: int)
    requires InLevelBand(xp, l1) && InLevelBand(xp, l2)
    ensures l1 == l2
  {
    if l1 < l2 {
      if l1 + 1 < l2 { XpForLevelIncreasing(l1 + 1, l2); }
    } else if l2 < l1 {
      if l2 + 1 < l1 { XpForLevelIncreasing(l2 + 1, l1); }
    }
  }

  /** Search upward from level `k`, whose threshold is already reached. */
  function LevelFrom(xp: int, k: int): (level: int)
    requires k >= 2 && XpForLevel(k) <= xp
    ensures InLevelBand(xp, level)
    decreases xp - XpForLevel(k)
  {
    if xp < XpForLevel(k + 1) then k else LevelFrom(xp, k + 1)
  }

  /** The level an amount of XP reaches, as `calculate_level` computes it. */
  function Level(xp: int): (level: int)
    ensures InLevelBand(xp, level)
  {
    if xp < XpForLevel(2) then 1 else LevelFrom(xp, 2)
  }

  /**
   * `calculate_level`: walks the thresholds with the source's while-loop
   * and returns max(1, level - 1).
   */
  method CalculateLevel(xp: int) returns (result: int)
    ensures result == Level(xp)
  {
    var level := 0;
    var xpNeeded := 0;
    while xpNeeded <= xp
      invariant level >= 0
      invariant xpNeeded == XpForLevel(level)
      invariant level >= 1 ==> XpForLevel(level - 1) <= xp
      decreases xp - xpNeeded
    {
      level := level + 1;
      xpNeeded := xpNeeded + level * 100;
    }
    result := if 1 < level - 1 then level - 1 else 1;
    if level == 2 {
      assert XpForLevel(2) == 300;
    } else if level > 2 {
      XpForLevelIncreasing(2, level);
    }
    LevelBandUnique(xp, result, Level(xp));
  }

  /** The level is always at least 1. */
  lemma LevelAtLeastOne(xp: int)
    ensures Level(xp) >= 1
  {
  }

  /** Reaching a threshold exactly lands on that level. */
  lemma LevelAtThreshold(level: int)
    requires level >= 1
    ensures Level(XpForLevel(level)) == level
  {
    XpForLevelIncreasing(level, level + 1);
    if level == 1 {
      assert XpForLevel(1) < XpForLevel(2);
    }
    LevelBandUnique(XpForLevel(level), level, Level(XpForLevel(level)));
  }

  /** One XP short of the next threshold is still the same level. */
  lemma LevelBelowNextThreshold(level: int)
    requires level >= 1
    ensures Level(XpForLevel(level + 1) - 1) == level
  {
    XpForLevelIncreasing(level, level + 1);
    var xp := XpForLevel(level + 1) - 1;
    if level == 1 {
      assert InLevelBand(xp, 1);
    }
    LevelBandUnique(xp, level, Level(xp));
  }

  /** More XP never means a lower level. */
  lemma LevelMonotone(xp1: int, xp2: int)
    requires xp1 <= xp2
    ensures Level(xp1) <= Level(xp2)
  {
    var l1, l2 := Level(xp1), Level(xp2);
    if l2 < l1 {
      if l2 + 1 < l1 { XpForLevelIncreasing(l2 + 1, l1); }
    }
  }

  /** The integer part of the progress window: XP made in the window, and the window's width. */
  datatype Window = Window(progress: int, needed: int)

  /**
   * The window of `/profile` and `/rank`: it runs from the threshold of
   * level - 1 to the threshold of level, one band below the band that
   * `calculate_level` assigns to the level.
   */
  function ProgressWindow(level: int, xp: int): (w: Window)
    ensures level >= 1 ==> w.needed == 100 * level
  {
    var xpForCurrent := if level > 1 then XpForLevel(level - 1) else 0;
    var xpForNext := XpForLevel(level);
    Window(xp - xpForCurrent, xpForNext - xpForCurrent)
  }

  /**
   * For a cached level that agrees with `calculate_level`, the progress
   * is never below the width of the window once level 2 is reached, so
   * the displayed percentage is at least 100. At level 1 it lies in 0..299
   * against a width of 100.
   */
  lemma ProgressWindowOverflows(xp: int)
    requires xp >= 0
    ensures var level := Level(xp);
            var w := ProgressWindow(level, xp);
            && w.needed == 100 * level
            && (level == 1 ==> 0 <= w.progress < 3 * w.needed)
            && (level >= 2 ==> w.needed <= w.progress < w.needed + 100 * (level + 1))
  {
    var level := Level(xp);
    if level >= 2 {
      assert XpForLevel(level) == XpForLevel(level - 1) + 100 * level;
      assert XpForLevel(level + 1) == XpForLevel(level) + 100 * (level + 1);
    }
  }
}
