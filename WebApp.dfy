/**
 * The decision logic of the web game's request handlers: the ordered
 * admission of an uploaded photograph, the scoring of a submitted answer, and
 * the per-weekday usage totals of the current week.
 */
module WebApp {
  import opened Wrappers
  import opened Text
  import opened Files
  import opened Gamification
  import opened QuizParser
  import opened Accounts

  const CorrectMessage := "答對了！"
  const WrongMessage := "答錯了..."

  /** The client's session: the logged-in user and what the upload handler
      stored for the answer that follows. */
  datatype Session = Session(
    username: string,
    correctAnswer: Option<string>,
    explanation: Option<string>,
    currentImage: Option<string>,
    currentImageHash: Option<string>)

  /** The pages the upload handler answers with. */
  datatype ScanResponse =
    | UploadForm(remaining: int)
    | DailyLimitReached
    | RedirectBack
    | ImageError
    | DuplicateImage(remaining: int)
    | RecognitionError(itemResult: string)
    | QuizPage(imageFile: string, itemResult: string, question: string, options: string)

  /** The upload handler. `filename` is None when the form carries no file;
      `imageHash` is None when hashing the saved file raised; `itemResult`
      and `reply` are what the recogniser and the quiz model answer. */
  method Scan(store: UserStore, session: Session, isPost: bool, filename: Option<string>, today: string,
              imageHash: Option<string>, itemResult: string, reply: Result<string, string>)
    returns (response: ScanResponse, newSession: Session)
    modifies store
    ensures var u := session.username;
      var count := old(store.DailyUploadCount(u, today));
      var fileGiven := isPost && count < DailyUploadLimit && filename.Some? && filename.value != [];
      var admitted := fileGiven && imageHash.Some? && old(store.IsDuplicateImage(u, imageHash.value)) == Some(false);
      && (!isPost <==> response.UploadForm?)
      && (response.UploadForm? ==> response.remaining == old(store.RemainingUploads(u, today)))
      && (response == DailyLimitReached <==> isPost && count >= DailyUploadLimit)
      && (response == RedirectBack <==> isPost && count < DailyUploadLimit && !fileGiven)
      && (response == ImageError <==> fileGiven && (imageHash.None? || old(store.History(u)).Corrupt?))
      && (response.DuplicateImage? <==>
            fileGiven && imageHash.Some? && old(store.IsDuplicateImage(u, imageHash.value)) == Some(true))
      && (response.DuplicateImage? ==> response.remaining == old(store.RemainingUploads(u, today)))
      && (response.RecognitionError? <==> admitted && ReportsFailure(itemResult))
      && (response.QuizPage? <==> admitted && !ReportsFailure(itemResult))
      && (admitted ==> store.quotas == old(store.quotas)[u := Holds(QuotaRecord(Some(today), Some(count + 1)))])
      && (!admitted ==> store.quotas == old(store.quotas))
      && store.DailyUploadCount(u, today) == (if admitted then count + 1 else count)
      && (count <= DailyUploadLimit ==> store.DailyUploadCount(u, today) <= DailyUploadLimit)
    ensures store.usersFile == old(store.usersFile) && store.xpFiles == old(store.xpFiles)
    ensures store.histories == old(store.histories)
    ensures response.QuizPage? ==>
      var quiz := GenerateQuiz(reply);
      && response == QuizPage(filename.value, itemResult, quiz.question, quiz.options)
      && newSession == session.(correctAnswer := Some(quiz.answer), explanation := Some(quiz.explanation),
                                currentImage := Some(filename.value), currentImageHash := imageHash)
    ensures !response.QuizPage? ==> newSession == session
  {
    var u := session.username;
    var remaining := store.RemainingUploads(u, today);
    newSession := session;
    if !isPost {
      return UploadForm(remaining), newSession;
    }
    var (canUpload, _) := store.CanUploadToday(u, today);
    if !canUpload {
      return DailyLimitReached, newSession;
    }
    if filename.None? || filename.value == [] {
      return RedirectBack, newSession;
    }
    if imageHash.None? {
      return ImageError, newSession;
    }
    var duplicate := store.IsDuplicateImage(u, imageHash.value);
    if duplicate.None? {
      return ImageError, newSession;
    } else if duplicate.value {
      return DuplicateImage(remaining), newSession;
    }
    var _ := store.IncrementDailyUpload(u, today);
    if ReportsFailure(itemResult) {
      return RecognitionError(itemResult), newSession;
    }
    var quiz := GenerateQuiz(reply);
    newSession := session.(correctAnswer := Some(quiz.answer), explanation := Some(quiz.explanation),
                           currentImage := Some(filename.value), currentImageHash := imageHash);
    return QuizPage(filename.value, itemResult, quiz.question, quiz.options), newSession;
  }

  /** The answer handler's reply. */
  datatype SubmitResult = SubmitResult(
    correct: bool,
    message: string,
    gainedXp: int,
    currentTotalXp: int,
    leveledUp: bool,
    newLevel: int,
    explanation: string,
    correctAnswer: string)

  /** The answer handler: the submitted letter (None when the request has no
      answer) is upper-cased and compared with the answer in the session. */
  method SubmitAnswer(store: UserStore, session: Session, answer: Option<string>) returns (result: SubmitResult)
    modifies store
    ensures var u := session.username;
      var userAnswer := Upper(answer.GetOr(""));
      var correctAnswer := session.correctAnswer.GetOr("");
      && (result.correct <==> userAnswer == correctAnswer)
      && result.message == (if result.correct then CorrectMessage else WrongMessage)
      && result.gainedXp == (if result.correct then XpRewardCorrect else XpRewardWrong)
      && result.currentTotalXp == old(store.Xp(u)) + result.gainedXp
      && store.Xp(u) == result.currentTotalXp
      && store.xpFiles == old(store.xpFiles)[u := Holds(result.currentTotalXp)]
      && result.newLevel == Level(result.currentTotalXp)
      && (result.leveledUp <==> Level(result.currentTotalXp) > Level(old(store.Xp(u))))
      && result.explanation == session.explanation.GetOr("")
      && result.correctAnswer == correctAnswer
    ensures var u := session.username;
      var h := session.currentImageHash;
      && (h.Some? && h.value != [] ==> store.histories == old(store.histories)[u := AppendLine(old(store.History(u)), h.value)])
      && (!(h.Some? && h.value != []) ==> store.histories == old(store.histories))
    ensures store.usersFile == old(store.usersFile) && store.quotas == old(store.quotas)
  {
    var u := session.username;
    var userAnswer := Upper(answer.GetOr(""));
    var correctAnswer := session.correctAnswer.GetOr("");
    var explanation := session.explanation.GetOr("");
    var gained := Award(userAnswer, correctAnswer);
    var correct := userAnswer == correctAnswer;
    var oldXp := store.GetXp(u);
    var oldLevel := Level(oldXp);
    var newTotal := store.UpdateXp(u, gained);
    var newLevel := Level(newTotal);
    result := SubmitResult(correct, if correct then CorrectMessage else WrongMessage, gained,
                           newTotal, newLevel > oldLevel, newLevel, explanation, correctAnswer);
    var h := session.currentImageHash;
    if h.Some? && h.value != [] {
      store.SaveToHistory(u, h.value);
    }
  }

  /** Because both sides default to the empty text, a request without an
      answer, in a session without a quiz, is scored as correct. */
  lemma MissingAnswerMatchesMissingQuiz(session: Session)
    requires session.correctAnswer.None?
    ensures Upper(None.GetOr("")) == session.correctAnswer.GetOr("")
    ensures Award(Upper(None.GetOr("")), session.correctAnswer.GetOr("")) == XpRewardCorrect
  {
  }

  // Weekly usage.

  const SecondsPerDay := 86400
  /** From Monday 00:00:00 to Sunday 23:59:59, in seconds. */
  const WeekSpan := 6 * SecondsPerDay + 23 * 3600 + 59 * 60 + 59

  datatype Duration = Duration(hours: int, minutes: int, seconds: int)

  /** A row of the usage table: its number of cells, the start time in
      seconds (None when it does not parse) and the duration (None when it
      does not split into three integers). */
  datatype Row = Row(cells: nat, start: Option<int>, duration: Option<Duration>)

  function Seconds(d: Duration): int {
    d.hours * 3600 + d.minutes * 60 + d.seconds
  }

  /** The weekday (0 for Monday) a row is counted under, or None when the row
      is skipped: too few cells, an unparsable start, a start outside the
      week that begins at `monday`, or an unparsable duration. */
  function DayOf(row: Row, monday: int): (day: Option<nat>)
    ensures day.Some? <==>
      row.cells >= 5 && row.start.Some? && monday <= row.start.value <= monday + WeekSpan && row.duration.Some?
    ensures day.Some? ==>
      && day.value < 7
      && monday + day.value * SecondsPerDay <= row.start.value < monday + (day.value + 1) * SecondsPerDay
  {
    if row.cells >= 5 && row.start.Some? && monday <= row.start.value <= monday + WeekSpan && row.duration.Some?
    then Some((row.start.value - monday) / SecondsPerDay)
    else None
  }

  /** The seconds the rows add to weekday `day`. */
  function DayTotal(rows: seq<Row>, monday: int, day: nat): int {
    if rows == [] then 0
    else
      var last := rows[|rows| - 1];
      DayTotal(rows[..|rows| - 1], monday, day)
      + (if DayOf(last, monday) == Some(day) then Seconds(last.duration.value) else 0)
  }

  /** The seconds of every counted row, whatever its day. */
  function CountedSeconds(rows: seq<Row>, monday: int): int {
    if rows == [] then 0
    else
      var last := rows[|rows| - 1];
      CountedSeconds(rows[..|rows| - 1], monday)
      + (if DayOf(last, monday).Some? then Seconds(last.duration.value) else 0)
  }

  function WeekSum(rows: seq<Row>, monday: int): int {
    DayTotal(rows, monday, 0) + DayTotal(rows, monday, 1) + DayTotal(rows, monday, 2)
    + DayTotal(rows, monday, 3) + DayTotal(rows, monday, 4) + DayTotal(rows, monday, 5)
    + DayTotal(rows, monday, 6)
  }

  /** Every counted row lands in exactly one of the seven buckets. */
  lemma {:induction false} BucketsPartitionCountedRows(rows: seq<Row>, monday: int)
    ensures WeekSum(rows, monday) == CountedSeconds(rows, monday)
  {
    if rows != [] {
      BucketsPartitionCountedRows(rows[..|rows| - 1], monday);
    }
  }

  /** The bucketing loop: seven buckets starting at 0, each counted row
      adding its seconds to its weekday. */
  method WeeklySeconds(rows: seq<Row>, monday: int) returns (buckets: seq<int>)
    ensures |buckets| == 7
    ensures forall day :: 0 <= day < 7 ==> buckets[day] == DayTotal(rows, monday, day)
  {
    buckets := [0, 0, 0, 0, 0, 0, 0];
    var i := 0;
    while i < |rows|
      invariant 0 <= i <= |rows| && |buckets| == 7
      invariant forall day :: 0 <= day < 7 ==> buckets[day] == DayTotal(rows[..i], monday, day)
    {
      var row := rows[i];
      assert rows[..i + 1][..i] == rows[..i];
      var day := DayOf(row, monday);
      if day.Some? {
        buckets := buckets[day.value := buckets[day.value] + Seconds(row.duration.value)];
      }
      i := i + 1;
    }
    assert rows[..i] == rows;
  }
}
