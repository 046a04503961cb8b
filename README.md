# Recycling quiz game — a Dafny model

The game asks a player to photograph a recyclable item. A generative model
names the item and writes a four-option quiz about how to recycle it, in a
delimiter-tagged text format. The player answers. The answer earns
experience points (XP), which unlock levels and titles. The game has two
front ends:

- a console program (`QA.py`) with one player whose points and image history
  live in two local files;
- a web application (`app.py` over `auth.py`) with registered users, per-user
  points, image histories, and a limit of three uploads per day.

This project models the deterministic core of both:

- **Gamification.** XP arithmetic, levels, progress within a level, the
  title table, scoring, and level-up and unlock decisions.
- **QuizParser.** The parser that extracts question, options, answer letter
  and explanation from the model's reply. Python's regular expressions,
  `str.strip` and `in` are modelled exactly; `str.upper` is modelled on
  ASCII letters only (see `Text.Upper` under "## Left out").
  - `Text` holds the whitespace set, stripping and search these rest on.
- **LocalProgress.** The console player's files, the answer prompt loop,
  and one round of play from image to settlement.
- **Accounts.** The account store: the users registry, registration and
  login, per-user points, image history, and the daily upload record.
- **WebApp.** The upload handler's admission order, the answer handler's
  scoring, and the weekly usage bucketing.

The model covers only these deterministic parts; everything else is a
parameter:

- **External services.** The model's replies (the recogniser's description
  and the quiz reply, or the error raised) and the image and password
  hashes. The password hash is a deterministic function the store is given.
- **Files.** A file the program reads with a fallback is `Absent`, `Corrupt`
  (unreadable or unparsable) or `Holds(value)`. A history file is the
  sequence of its lines.
- **Clock.** The current date, time and week.

Behaviour worth noting, which the model reproduces:

- A failed recognition in the web flow still uses up an upload. The count is
  incremented before recognition and not rolled back (`WebApp.Scan`).
- The quiz is not discarded after scoring. The session keeps the answer and
  the image hash, so a repeated submission is scored again and appends the
  hash again.
- XP is not monotone across a corrupt points file, which reads as 0.
- The quiz generator returns four fields, although its annotation says three.

## Model

| member | source | states |
|---|---|---|
| Text.Strip | QA.py:211-214 | the stripped text has no whitespace at either end and is no longer than the input; text already without surrounding whitespace is unchanged |
| Text.StripIsSlice | QA.py:211-214 | the stripped text is the slice of the input between an all-whitespace prefix and an all-whitespace suffix, so only surrounding whitespace is removed |
| Text.StripEmpty | QA.py:211-214 | stripping yields the empty text exactly when the input is all whitespace |
| Text.StripPadded | QA.py:185-200 | a field written between two line breaks strips back to itself |
| Text.IndexOf | QA.py:206-209 | the result is the first occurrence at or after the start index, and None means there is no occurrence from there on |
| Text.Upper | QA.py:213 | upper-casing keeps the length and upper-cases each character |
| Text.NoOccStrip | QA.py:211-214 | stripping creates no occurrence of a tag |
| Files.AppendLine | QA.py:61-64 | appending to a missing or readable history file yields a file holding its old lines followed by exactly `h` (a missing file is created); an unreadable one stays unreadable |
| Files.DuplicateIn | QA.py:53-59 | no history file means no duplicate for every hash; an unreadable file raises; otherwise duplicate exactly when some stripped line equals the hash |
| Files.SavedImageIsDuplicate | QA.py:53-64 | after saving a hash that has no surrounding whitespace, the duplicate check reports it |
| Files.DuplicatesPersist | QA.py:61-64 | saving never removes an earlier duplicate, so the history is append-only |
| Files.HexDigestIsStripped | QA.py:45-51 | a 64-digit hex digest has no surrounding whitespace and reads back as itself |
| Gamification.UnlockLevelsAreSortedKeys | QA.py:101 | the visiting order is exactly the title table's keys, strictly descending |
| Gamification.Level | QA.py:85-87 | the level is the floor of xp / 50 |
| Gamification.LevelMonotone | QA.py:85-87 | more xp never gives a lower level |
| Gamification.Progress | QA.py:89-93 | the current part is in [0,50), the remaining part in (0,50], they sum to 50, and level * 50 + current == xp |
| Gamification.CurrentCharacter | QA.py:95-107 | the title is the table entry at the highest key not above the level, or at key 0 when every key is above it |
| Gamification.TitleKeyUnique | QA.py:95-107 | exactly one key qualifies for a level |
| Gamification.TitleKeyMonotone | QA.py:95-107 | a higher level never holds a lower title |
| Gamification.UnlockedTitleIsCurrent | QA.py:314-315 | a level that is a table key is its own title key, so the announced title is the one then held |
| Gamification.Award | QA.py:292-301 | 50 points exactly when the answer equals the correct letter, otherwise 10 |
| Gamification.Settle | QA.py:292-319 | correctness, points, new total old + gained, new level, level-up iff the level rose, unlock iff levelled up onto a table key |
| Gamification.CorrectAnswerLevelsUp | QA.py:26-28 | a correct answer raises the level by exactly one |
| Gamification.WrongAnswerLevelsUpIff | QA.py:299-308 | a wrong answer levels up iff the progress within the level is at least 40 |
| Gamification.AtMostOneLevelPerAnswer | QA.py:304-308 | no answer gains more than one level |
| QuizParser.TagSpanFirst | QA.py:206-209 | the lazy pattern spans the text from the first start tag to the nearest end tag after it |
| QuizParser.TagContentFound | QA.py:206-214 | in any reply, a field is the stripped text between the first start tag and the nearest end tag after it |
| QuizParser.TagContentUnclosed | QA.py:206-214 | when no end tag follows the first start tag, the field is not found, even if an end tag follows a later start tag |
| QuizParser.FieldNeedsBothTags | QA.py:206-214 | a field with no start tag, or with no end tag anywhere, is not found |
| QuizParser.FieldHoldsNoEndTag | QA.py:206 | the lazy match stops at the nearest end tag, so a found field never contains its end tag |
| QuizParser.AnswerMatchesSplit | QA.py:208-213 | the answer pattern matches at an index where the start tag, whitespace, a letter A to D in either case, whitespace and the end tag follow, and yields the letter upper-cased |
| QuizParser.AnswerMatchSplits | QA.py:208-213 | conversely, every match at an index is of that shape, and its result is the matched letter upper-cased |
| QuizParser.FirstAnswerMatch | QA.py:208 | the search yields the first index from which the answer pattern matches, trying every start tag in turn |
| QuizParser.ExtractAnswer | QA.py:208-213 | the answer is one of A, B, C, D or "?"; "?" exactly when the pattern matches nowhere; otherwise the letter of the first match |
| QuizParser.ExtractAnswerOfFirstMatch | QA.py:208-213 | when the pattern first matches at an index, the answer is the letter there, upper-cased |
| QuizParser.PlaceholdersAreStripped | QA.py:211-214 | the placeholders carry no surrounding whitespace |
| QuizParser.ParseReply | QA.py:206-214 | the answer field is a letter A to D or "?", and the text fields have no surrounding whitespace |
| QuizParser.MissingFieldsArePlaceholders | QA.py:211-214 | each field whose tags are missing becomes its own placeholder, independently of the other fields |
| QuizParser.GenerateQuiz | QA.py:202-219 | a raised error gives the fixed failure fields, "?" and the error text |
| QuizParser.TagContentOfBlock | QA.py:206-214 | a tagged block with no earlier start tag yields its body |
| QuizParser.AnswerOfBlock | QA.py:208-213 | an answer block holding a letter A to D in either case, with no earlier answer start tag, yields that letter upper-cased |
| QuizParser.QuestionOfRender | QA.py:206 | the question is read back from the requested layout |
| QuizParser.OptionsOfRender | QA.py:207 | the options are read back from the requested layout |
| QuizParser.AnswerOfRender | QA.py:208 | the answer letter is read back from the requested layout |
| QuizParser.ExplanationOfRender | QA.py:209 | the explanation is read back from the requested layout |
| QuizParser.ParseRendered | QA.py:184-200 | parsing a reply in the layout the prompt asks for gives back the quiz, when the fields are free of tags and surrounding whitespace |
| LocalProgress.FirstChoice | QA.py:279-287 | the prompt's answer, when there is one, is a letter A to D |
| LocalProgress.FirstChoiceNone | QA.py:279-287 | the prompt gets no answer exactly when no typed line, stripped and upper-cased, is a letter |
| LocalProgress.FirstChoiceAt | QA.py:279-287 | the answer is the first line that normalises to a letter |
| LocalProgress.PlaceholderAnswerIsAlwaysWrong | QA.py:292-301 | against an unparsed answer "?", every letter scores as wrong and gains 10 |
| LocalProgress.Player.Xp | QA.py:67-75 | a missing or unparsable points file reads as 0 |
| LocalProgress.Player.UpdateXp | QA.py:77-83 | the file now holds, and the call returns, the old points plus the gain |
| LocalProgress.Player.SaveToHistory | QA.py:61-64 | the history gains the hash as a line, and the hash is then a duplicate |
| LocalProgress.Player.ReadAnswer | QA.py:279-287 | the loop returns FirstChoice of the typed lines |
| LocalProgress.Player.PlayRound | QA.py:221-332 | the stops in order (hash failure, duplicate, recognition failure, quiz failure, no answer) change no file; a finished round is settled with Settle, stores the new total and appends the hash |
| LocalProgress.FinishedImageIsDuplicate | QA.py:332 | the image of a finished round is a duplicate for every later round |
| Accounts.RegisterError | auth.py:43-55 | refusals in order: empty credentials, user name under 3, password under 4, name taken; none otherwise |
| Accounts.LoginVerdict | auth.py:80-91 | login succeeds iff both inputs are non-empty, the user exists and the stored hash equals the password's hash; each refusal message names its case |
| Accounts.RegisterThenLogin | auth.py:58-62 | after a registration, logging in with the same password succeeds |
| Accounts.SecondRegistrationRejected | auth.py:53-55 | a registered name cannot be registered again |
| Accounts.Remaining | auth.py:223-226 | never negative, at most 3 for a count that is not negative, zero exactly when the count reached 3, and count + remaining == 3 otherwise |
| Accounts.CountOn | auth.py:166-188 | a record of another day, or no readable record, counts 0; a record of today counts its count, or 0 when the count is missing |
| Accounts.UserStore.Users | auth.py:22-30 | a missing or unparsable users file loads as the empty registry |
| Accounts.UserStore.Xp | auth.py:107-121 | a missing or unparsable points file reads as 0 |
| Accounts.UserStore.Register | auth.py:37-73 | accepted iff RegisterError has no objection; a refusal changes nothing; success adds exactly one registry entry with the password's hash and writes 0 points for that user |
| Accounts.UserStore.Login | auth.py:75-91 | login against the loaded registry succeeds iff the user exists and the hashes agree |
| Accounts.UserStore.GetXp | auth.py:107-121 | returns the stored points; a missing file is created holding 0 |
| Accounts.UserStore.UpdateXp | auth.py:123-135 | the user's file holds, and the call returns, old points plus gain; other users are untouched |
| Accounts.UserStore.IsDuplicateImage | auth.py:137-144 | no history means no duplicate; otherwise duplicate iff a stripped line of this user's history equals the hash |
| Accounts.UserStore.SaveToHistory | auth.py:146-155 | only this user's history changes, gaining the hash, which then is a duplicate for this user |
| Accounts.UserStore.DailyUploadCount | auth.py:166-188 | a non-zero count comes only from a record dated today |
| Accounts.UserStore.IncrementDailyUpload | auth.py:190-213 | writes today with the day's count plus one; the first upload on a new day counts 1 |
| Accounts.UserStore.CanUploadToday | auth.py:215-221 | an upload is allowed iff today's count is below 3 |
| Accounts.UserStore.RemainingUploads | auth.py:223-226 | never negative; zero exactly when no upload is allowed |
| WebApp.Scan | app.py:232-297 | quota first, then file presence, hash and duplicate, then one increment, then recognition; refusals before the increment change nothing; a count within the limit stays within it; only a quiz page updates the session |
| WebApp.SubmitAnswer | app.py:300-347 | the upper-cased letter is compared with the session's answer; points 50 or 10 are added to the user's total; level-up iff the level rose; the hash is appended only when the session holds a non-empty one |
| WebApp.MissingAnswerMatchesMissingQuiz | app.py:305-306 | with no quiz in the session, a request without an answer is scored as correct |
| WebApp.DayOf | app.py:60-76 | a row counts iff it has 5 cells, a parsable start within Monday 00:00:00 to Sunday 23:59:59, and a parsable duration; its day is the one its start falls in |
| WebApp.BucketsPartitionCountedRows | app.py:60-79 | the seven buckets together hold exactly the seconds of the counted rows |
| WebApp.WeeklySeconds | app.py:32-79 | seven buckets, each the sum of its day's counted rows |

## Left out

- Flask routing, templates, the login decorator, and the login, register,
  logout, home, uploaded-file and user-info routes. These are HTTP plumbing
  around the modelled operations.
- The `/register` route's password confirmation and the user-name stripping
  in the login and register routes are also not modelled.
- The generative model calls (`recognize_item` and quiz generation). Their
  replies are parameters, and their prompts are not modelled.
- SHA-256 in `get_image_hash` and `hash_password`. The image hash is a
  parameter (None when hashing raised); the password hash is a deterministic
  function the store is given.
- File I/O, `os.makedirs` and JSON encoding. Files are modelled by what a
  read yields. Saving the uploaded image is not modelled.
- A history file edited to lack its final line break, and hashes containing
  line breaks: hashes are modelled as whole lines.
- `int()` parsing of the points file and `json.load` of the records.
  - These are modelled by their outcome: a value, or unparsable.
  - A quota count stored with a non-integer value is not modelled (the
    source then raises on comparison).
- The clocks. Today's date, the registration time and the week's Monday are
  parameters.
- The NFC usage scraping (`requests`, BeautifulSoup), `strptime`, and
  `get_weekly_sessions` / `get_chart_data`.
  - Rows arrive pre-parsed as a cell count, a start time in seconds (None if
    unparsable) and a duration (None if unparsable).
  - A failed fetch or a missing table is an empty row list.
- The float conversion `round(seconds / 3600, 1)`. It is floating point.
- Console printing, including the progress string format, the explanation
  printout and the argument check. `KeyboardInterrupt` and end of input at
  the answer prompt are both the `Interrupted` outcome.
- Text.Upper: upper-cases ASCII letters only, because Python's full Unicode
  case mapping is not modelled. Whether a line is accepted as A to D is
  unaffected, since no other character upper-cases to those letters.
- QuizParser.TagSpan, QuizParser.TagContent, QuizParser.LetterThenEnd and
  QuizParser.AnswerAt state little in their own contracts. What they compute
  on any reply is stated by TagContentFound, TagContentUnclosed,
  AnswerMatchesSplit and AnswerMatchSplits.
- Races between concurrent requests on the flat files: calls are sequential.
- `remove_white.py`, `crop_cat.py` and the `web_app/` scripts: they are
  one-off image and prototype scripts outside the game's core.
