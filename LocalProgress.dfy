/**
 * The console game: a single player whose experience points and image
 * history live in two local files, the loop that reads the player's letter,
 * and one round of play from a photographed item to the settlement.
 */
module LocalProgress {
  import opened Wrappers
  import opened Text
  import opened Files
  import opened Gamification
  import opened QuizParser

  /** A console line as the game reads it: stripped, then upper-cased. */
  function Normalize(line: string): string {
    Upper(Strip(line))
  }

  /** One of the four answer letters the prompt accepts. */
  predicate IsChoice(s: string) {
    s == "A" || s == "B" || s == "C" || s == "D"
  }

  /** The answer the prompt settles on: the first line that normalises to a
      letter, or None when the input ends (or is interrupted) first. */
  function FirstChoice(lines: seq<string>): (r: Option<string>)
    ensures r.Some? ==> IsChoice(r.value)
  {
    if lines == [] then None
    else if IsChoice(Normalize(lines[0])) then Some(Normalize(lines[0]))
    else FirstChoice(lines[1..])
  }

  /** FirstChoice yields nothing exactly when no line is a letter. */
  lemma {:induction false} FirstChoiceNone(lines: seq<string>)
    ensures FirstChoice(lines).None? <==> forall j :: 0 <= j < |lines| ==> !IsChoice(Normalize(lines[j]))
  {
    if lines != [] && !IsChoice(Normalize(lines[0])) {
      FirstChoiceNone(lines[1..]);
      assert forall j :: 1 <= j < |lines| ==> lines[j] == lines[1..][j - 1];
    }
  }

  /** When line `i` is the first letter, FirstChoice yields that letter. */
  lemma {:induction false} FirstChoiceAt(lines: seq<string>, i: int)
    requires 0 <= i < |lines| && IsChoice(Normalize(lines[i]))
    requires forall j :: 0 <= j < i ==> !IsChoice(Normalize(lines[j]))
    ensures FirstChoice(lines) == Some(Normalize(lines[i]))
  {
    if i > 0 {
      var rest := lines[1..];
      assert !IsChoice(Normalize(lines[0]));
      assert rest[i - 1] == lines[i];
      forall j | 0 <= j < i - 1 ensures !IsChoice(Normalize(rest[j])) {
        assert rest[j] == lines[j + 1];
      }
      FirstChoiceAt(rest, i - 1);
    }
  }

  /** The letter the player types decides nothing when the quiz could not be
      parsed: the placeholder answer never equals a letter. */
  lemma PlaceholderAnswerIsAlwaysWrong(oldXp: int, choice: string)
    requires IsChoice(choice)
    ensures !Settle(oldXp, choice, AnswerPlaceholder).correct
    ensures Settle(oldXp, choice, AnswerPlaceholder).gained == XpRewardWrong
  {
  }

  /** How a round of the console game ends. */
  datatype Outcome =
    | HashFailed
    | Duplicate
    | RecognitionFailed(message: string)
    | QuizFailed(explanation: string)
    | Interrupted
    | Finished(settlement: Settlement)

  /** The player's two files: the points file and the image history. */
  class Player {
    var xpFile: FileState<int>
    var history: FileState<seq<string>>

    constructor (xpFile: FileState<int>, history: FileState<seq<string>>)
      ensures this.xpFile == xpFile && this.history == history
    {
      this.xpFile := xpFile;
      this.history := history;
    }

    /** The stored points; a missing or unparsable file reads as 0. */
    function Xp(): (xp: int)
      reads this
      ensures xpFile.Holds? ==> xp == xpFile.value
      ensures !xpFile.Holds? ==> xp == 0
    {
      ValueOr(xpFile, 0)
    }

    /** Read-modify-write of the points file. */
    method UpdateXp(gained: int) returns (newTotal: int)
      modifies this
      ensures newTotal == old(Xp()) + gained
      ensures xpFile == Holds(newTotal) && Xp() == newTotal
      ensures history == old(history)
    {
      newTotal := Xp() + gained;
      xpFile := Holds(newTotal);
    }

    /** Appends the hash as a line of the history file. */
    method SaveToHistory(h: string)
      modifies this
      ensures history == AppendLine(old(history), h)
      ensures xpFile == old(xpFile)
      ensures !old(history).Corrupt? && NoSurroundingSpace(h) ==> DuplicateIn(history, h) == Some(true)
    {
      history := AppendLine(history, h);
      if !old(history).Corrupt? && NoSurroundingSpace(h) {
        SavedImageIsDuplicate(old(history), h);
      }
    }

    /** The answer prompt: reads lines until one is a letter. */
    method ReadAnswer(inputs: seq<string>) returns (answer: Option<string>)
      ensures answer == FirstChoice(inputs)
    {
      var i := 0;
      while i < |inputs|
        invariant 0 <= i <= |inputs|
        invariant FirstChoice(inputs) == FirstChoice(inputs[i..])
      {
        var line := Normalize(inputs[i]);
        if IsChoice(line) {
          return Some(line);
        }
        assert inputs[i..][1..] == inputs[i + 1..];
        i := i + 1;
      }
      return None;
    }

    /** One round of the console game. The image hash is None when hashing
        raised; `itemResult` is the recogniser's description, `reply` the
        quiz model's reply (or the error it raised) and `inputs` the lines
        typed at the prompt. */
    method PlayRound(imageHash: Option<string>, itemResult: string, reply: Result<string, string>,
                     inputs: seq<string>)
      returns (outcome: Outcome)
      modifies this
      ensures outcome == HashFailed <==> imageHash.None? || old(history).Corrupt?
      ensures outcome == Duplicate <==>
        imageHash.Some? && DuplicateIn(old(history), imageHash.value) == Some(true)
      ensures outcome.RecognitionFailed? <==>
        imageHash.Some? && DuplicateIn(old(history), imageHash.value) == Some(false)
        && ReportsFailure(itemResult)
      ensures outcome.RecognitionFailed? ==> outcome.message == itemResult
      ensures outcome.QuizFailed? <==>
        imageHash.Some? && DuplicateIn(old(history), imageHash.value) == Some(false)
        && !ReportsFailure(itemResult) && GenerateQuiz(reply).question == GenerationFailedQuestion
      ensures outcome.QuizFailed? ==> outcome.explanation == GenerateQuiz(reply).explanation
      ensures outcome.Interrupted? <==>
        imageHash.Some? && DuplicateIn(old(history), imageHash.value) == Some(false)
        && !ReportsFailure(itemResult) && GenerateQuiz(reply).question != GenerationFailedQuestion
        && FirstChoice(inputs).None?
      ensures outcome.Finished? ==>
        && FirstChoice(inputs).Some?
        && outcome.settlement == Settle(old(Xp()), FirstChoice(inputs).value, GenerateQuiz(reply).answer)
        && xpFile == Holds(outcome.settlement.newTotal)
        && history == AppendLine(old(history), imageHash.value)
      ensures !outcome.Finished? ==> xpFile == old(xpFile) && history == old(history)
    {
      var currentXp := Xp();
      if imageHash.None? {
        return HashFailed;
      }
      var h := imageHash.value;
      var duplicate := DuplicateIn(history, h);
      if duplicate.None? {
        return HashFailed;
      } else if duplicate.value {
        return Duplicate;
      }
      if ReportsFailure(itemResult) {
        return RecognitionFailed(itemResult);
      }
      var quiz := GenerateQuiz(reply);
      if quiz.question == GenerationFailedQuestion {
        return QuizFailed(quiz.explanation);
      }
      var answer := ReadAnswer(inputs);
      if answer.None? {
        return Interrupted;
      }
      var settlement := Settle(currentXp, answer.value, quiz.answer);
      var newTotal := UpdateXp(settlement.gained);
      assert newTotal == settlement.newTotal;
      SaveToHistory(h);
      return Finished(settlement);
    }
  }

  /** A finished round makes its image a duplicate for every later round,
      because a hash is a hex digest and so reads back unchanged. */
  lemma FinishedImageIsDuplicate(history: FileState<seq<string>>, h: string)
    requires IsHexDigest(h) && !history.Corrupt?
    ensures DuplicateIn(AppendLine(history, h), h) == Some(true)
  {
    HexDigestIsStripped(h);
    SavedImageIsDuplicate(history, h);
  }
}
