/**
 * The experience-point arithmetic of the game: levels, progress within a
 * level, the title table, and how an answer is scored and a level-up and a
 * title unlock are decided.
 */
module Gamification {
  import opened Wrappers

  const XpRewardCorrect := 50
  const XpRewardWrong := 10
  const XpPerLevel := 50

  /** Titles, keyed by the level that unlocks them. */
  const Characters: map<int, string> := map[
    0 := "🌱 回收見習生",
    5 := "🌿 綠色守護者",
    10 := "🛡️ 地球防衛隊",
    15 := "🔥 環保熱血戰士",
    20 := "🌊 海洋淨化使者",
    25 := "⛰️ 山林守護神",
    30 := "🌍 行星指揮官",
    35 := "🌟 銀河回收大師",
    40 := "👑 宇宙環保霸主",
    50 := "💎 傳說中的清潔神"
  ]

  /** The keys of Characters from highest to lowest, the order in which the
      title search visits them. */
  const UnlockLevels: seq<int> := [50, 40, 35, 30, 25, 20, 15, 10, 5, 0]

  lemma UnlockLevelsAreSortedKeys()
    ensures forall k :: k in Characters <==> k in UnlockLevels
    ensures forall i, j :: 0 <= i < j < |UnlockLevels| ==> UnlockLevels[i] > UnlockLevels[j]
  {
  }

  /** The level reached with `xp` points: floor division by XpPerLevel (which
      Python's `//` and Dafny's `/` agree on for a positive divisor). */
  function Level(xp: int): (level: int)
    ensures level * XpPerLevel <= xp < (level + 1) * XpPerLevel
  {
    xp / XpPerLevel
  }

  lemma LevelMonotone(a: int, b: int)
    requires a <= b
    ensures Level(a) <= Level(b)
  {
  }

  datatype LevelProgress = LevelProgress(current: int, remaining: int)

  /** Points gained inside the current level and points still missing to the
      next one. */
  function Progress(xp: int): (p: LevelProgress)
    ensures 0 <= p.current < XpPerLevel && 0 < p.remaining <= XpPerLevel
    ensures p.current + p.remaining == XpPerLevel
    ensures Level(xp) * XpPerLevel + p.current == xp
  {
    var current := xp % XpPerLevel;
    LevelProgress(current, XpPerLevel - current)
  }

  /** `k` is the key whose title a player of `level` holds: the highest key not
      above `level`, or key 0 when every key is above it. */
  ghost predicate IsTitleKey(k: int, level: int) {
    && k in Characters
    && (k <= level || (k == 0 && forall j :: j in Characters ==> level < j))
    && (forall j :: j in Characters && j <= level ==> j <= k)
  }

  /** The title search: visits the keys from highest to lowest and returns the
      first title whose key does not exceed `level`, falling back to key 0. */
  method CurrentCharacter(level: int) returns (title: string)
    ensures exists k :: IsTitleKey(k, level) && title == Characters[k]
  {
    UnlockLevelsAreSortedKeys();
    var i := 0;
    while i < |UnlockLevels|
      invariant 0 <= i <= |UnlockLevels|
      invariant forall j :: 0 <= j < i ==> level < UnlockLevels[j]
    {
      var unlock := UnlockLevels[i];
      if level >= unlock {
        assert IsTitleKey(unlock, level);
        return Characters[unlock];
      }
      i := i + 1;
    }
    assert IsTitleKey(0, level);
    title := Characters[0];
  }

  /** Exactly one key qualifies for every level, so the title is well defined. */
  lemma TitleKeyUnique(k1: int, k2: int, level: int)
    requires IsTitleKey(k1, level) && IsTitleKey(k2, level)
    ensures k1 == k2
  {
  }

  /** A higher level never holds a lower title. */
  lemma TitleKeyMonotone(k1: int, level1: int, k2: int, level2: int)
    requires IsTitleKey(k1, level1) && IsTitleKey(k2, level2)
    requires level1 <= level2
    ensures k1 <= k2
  {
  }

  /** A level that is itself a key is the title key of that level, so the
      title announced on unlock is the one the title search then returns. */
  lemma UnlockedTitleIsCurrent(level: int)
    requires level in Characters
    ensures IsTitleKey(level, level)
  {
  }

  /** Points for an answer: the "correct" reward exactly when the letters are
      equal, the "wrong" reward otherwise. */
  function Award(userAnswer: string, correctAnswer: string): (xp: int)
    ensures xp == XpRewardCorrect <==> userAnswer == correctAnswer
    ensures xp == XpRewardCorrect || xp == XpRewardWrong
  {
    if userAnswer == correctAnswer then XpRewardCorrect else XpRewardWrong
  }

  /** The outcome of one answered quiz in the console game. */
  datatype Settlement = Settlement(
    correct: bool,
    gained: int,
    newTotal: int,
    newLevel: int,
    leveledUp: bool,
    unlocked: Option<string>)

  /** Scoring, level-up detection and title unlock after an answer. */
  function Settle(oldXp: int, userAnswer: string, answer: string): (s: Settlement)
    ensures s.correct <==> userAnswer == answer
    ensures s.gained == (if s.correct then XpRewardCorrect else XpRewardWrong)
    ensures s.newTotal == oldXp + s.gained && s.newTotal > oldXp
    ensures s.newLevel == Level(s.newTotal)
    ensures s.leveledUp <==> Level(s.newTotal) > Level(oldXp)
    ensures s.unlocked.Some? <==> s.leveledUp && s.newLevel in Characters
    ensures s.unlocked.Some? ==> s.unlocked.value == Characters[s.newLevel]
  {
    var gained := Award(userAnswer, answer);
    var total := oldXp + gained;
    var newLevel := Level(total);
    var leveledUp := newLevel > Level(oldXp);
    Settlement(userAnswer == answer, gained, total, newLevel, leveledUp,
      if leveledUp && newLevel in Characters then Some(Characters[newLevel]) else None)
  }

  /** A correct answer is worth exactly one level, so it always levels up. */
  lemma CorrectAnswerLevelsUp(oldXp: int)
    ensures Level(oldXp + XpRewardCorrect) == Level(oldXp) + 1
  {
  }

  /** A wrong answer levels up exactly when the player was within the wrong
      reward of the next level. */
  lemma WrongAnswerLevelsUpIff(oldXp: int)
    ensures Level(oldXp + XpRewardWrong) > Level(oldXp)
        <==> Progress(oldXp).current >= XpPerLevel - XpRewardWrong
  {
  }

  /** No answer gains more than one level. */
  lemma AtMostOneLevelPerAnswer(oldXp: int, userAnswer: string, answer: string)
    ensures Settle(oldXp, userAnswer, answer).newLevel <= Level(oldXp) + 1
  {
  }
}
