/**
 * The account store of the web game: the registry of users with their
 * password hashes, and per user the points file, the image history and the
 * daily upload record. Password hashing is a deterministic function the
 * store is given; the current date and time are parameters.
 */
module Accounts {
  import opened Wrappers
  import opened Text
  import opened Files

  const EmptyCredentials := "帳號和密碼不能為空"
  const UsernameTooShort := "帳號至少需要 3 個字元"
  const PasswordTooShort := "密碼至少需要 4 個字元"
  const UsernameTaken := "此帳號已被註冊"
  const Registered := "註冊成功！"

  const MissingCredentials := "請輸入帳號和密碼"
  const UnknownUser := "帳號不存在"
  const WrongPassword := "密碼錯誤"
  const LoggedIn := "登入成功！"

  const MinUsernameLength := 3
  const MinPasswordLength := 4
  const DailyUploadLimit := 3

  /** A registry entry: the password hash and the registration time. */
  datatype UserRecord = UserRecord(passwordHash: string, createdAt: string)

  /** The daily upload record; either key may be missing from the file. */
  datatype QuotaRecord = QuotaRecord(date: Option<string>, count: Option<int>)

  /** The (success, message) pair both account operations answer with. */
  datatype Verdict = Verdict(ok: bool, message: string)

  /** Why a registration is refused, checked in the source's order, or None
      when it is accepted. */
  function RegisterError(username: string, password: string, users: map<string, UserRecord>): (e: Option<string>)
    ensures e == Some(EmptyCredentials) <==> username == [] || password == []
    ensures e == Some(UsernameTooShort) <==>
      username != [] && password != [] && |username| < MinUsernameLength
    ensures e == Some(PasswordTooShort) <==>
      |username| >= MinUsernameLength && password != [] && |password| < MinPasswordLength
    ensures e == Some(UsernameTaken) <==>
      |username| >= MinUsernameLength && |password| >= MinPasswordLength && username in users
    ensures e.None? <==>
      |username| >= MinUsernameLength && |password| >= MinPasswordLength && username !in users
  {
    if username == [] || password == [] then Some(EmptyCredentials)
    else if |username| < MinUsernameLength then Some(UsernameTooShort)
    else if |password| < MinPasswordLength then Some(PasswordTooShort)
    else if username in users then Some(UsernameTaken)
    else None
  }

  /** The login decision against the registry, in the source's order. */
  function LoginVerdict(username: string, password: string, users: map<string, UserRecord>,
                        hashPassword: string -> string): (v: Verdict)
    ensures v.ok <==>
      username != [] && password != [] && username in users
      && users[username].passwordHash == hashPassword(password)
    ensures v.message == MissingCredentials <==> username == [] || password == []
    ensures v.message == UnknownUser <==> username != [] && password != [] && username !in users
    ensures v.message == WrongPassword <==>
      username != [] && password != [] && username in users
      && users[username].passwordHash != hashPassword(password)
  {
    if username == [] || password == [] then Verdict(false, MissingCredentials)
    else if username !in users then Verdict(false, UnknownUser)
    else if users[username].passwordHash != hashPassword(password) then Verdict(false, WrongPassword)
    else Verdict(true, LoggedIn)
  }

  /** A registered user logs in with the password registered. */
  lemma RegisterThenLogin(users: map<string, UserRecord>, username: string, password: string,
                          now: string, hashPassword: string -> string)
    requires RegisterError(username, password, users).None?
    ensures LoginVerdict(username, password,
      users[username := UserRecord(hashPassword(password), now)], hashPassword).ok
  {
  }

  /** A name can be registered only once. */
  lemma SecondRegistrationRejected(users: map<string, UserRecord>, username: string, password: string,
                                   record: UserRecord, password2: string)
    requires RegisterError(username, password, users).None?
    requires |password2| >= MinPasswordLength
    ensures RegisterError(username, password2, users[username := record]) == Some(UsernameTaken)
  {
  }

  /** Uploads still allowed today when `count` have been made. */
  function Remaining(count: int): (r: int)
    ensures r >= 0 && (count >= 0 ==> r <= DailyUploadLimit)
    ensures r == 0 <==> count >= DailyUploadLimit
    ensures r > 0 ==> count + r == DailyUploadLimit
  {
    if DailyUploadLimit - count > 0 then DailyUploadLimit - count else 0
  }

  /** The count a quota record stands for on `today`: its count when it was
      written today (0 when the count is missing), 0 for any other day. */
  function CountOn(f: FileState<QuotaRecord>, today: string): (count: int)
    ensures count != 0 ==> f.Holds? && f.value.date == Some(today)
    ensures f.Holds? && f.value.date == Some(today) ==> count == f.value.count.GetOr(0)
  {
    match f
    case Holds(record) => if record.date == Some(today) then record.count.GetOr(0) else 0
    case _ => 0
  }

  /** The users file and every user's files. A user without an entry in one
      of the maps has no such file. */
  class UserStore {
    const hashPassword: string -> string
    var usersFile: FileState<map<string, UserRecord>>
    var xpFiles: map<string, FileState<int>>
    var histories: map<string, FileState<seq<string>>>
    var quotas: map<string, FileState<QuotaRecord>>

    constructor (hashPassword: string -> string, usersFile: FileState<map<string, UserRecord>>,
                 xpFiles: map<string, FileState<int>>, histories: map<string, FileState<seq<string>>>,
                 quotas: map<string, FileState<QuotaRecord>>)
      ensures this.hashPassword == hashPassword && this.usersFile == usersFile
      ensures this.xpFiles == xpFiles && this.histories == histories && this.quotas == quotas
    {
      this.hashPassword := hashPassword;
      this.usersFile := usersFile;
      this.xpFiles := xpFiles;
      this.histories := histories;
      this.quotas := quotas;
    }

    /** The registry as loaded: empty when the file is missing or unparsable. */
    function Users(): (users: map<string, UserRecord>)
      reads this
      ensures usersFile.Holds? ==> users == usersFile.value
      ensures !usersFile.Holds? ==> users == map[]
    {
      ValueOr(usersFile, map[])
    }

    function XpFile(username: string): FileState<int>
      reads this
    {
      if username in xpFiles then xpFiles[username] else Absent
    }

    function History(username: string): FileState<seq<string>>
      reads this
    {
      if username in histories then histories[username] else Absent
    }

    function Quota(username: string): FileState<QuotaRecord>
      reads this
    {
      if username in quotas then quotas[username] else Absent
    }

    /** A user's points: the stored number, 0 when the file is missing or
        unparsable. */
    function Xp(username: string): (xp: int)
      reads this
      ensures XpFile(username).Holds? ==> xp == XpFile(username).value
      ensures !XpFile(username).Holds? ==> xp == 0
    {
      ValueOr(XpFile(username), 0)
    }

    /** Registration: validated in order, then the registry gains exactly one
        entry and the user's points file is (re)written with 0. A refused
        registration changes nothing. */
    method Register(username: string, password: string, now: string) returns (v: Verdict)
      modifies this
      ensures v.ok <==> RegisterError(username, password, old(Users())).None?
      ensures !v.ok ==> Some(v.message) == RegisterError(username, password, old(Users()))
      ensures !v.ok ==> usersFile == old(usersFile) && xpFiles == old(xpFiles)
      ensures v.ok ==> v.message == Registered
      ensures v.ok ==> usersFile == Holds(old(Users())[username := UserRecord(hashPassword(password), now)])
      ensures v.ok ==> xpFiles == old(xpFiles)[username := Holds(0)]
      ensures histories == old(histories) && quotas == old(quotas)
    {
      var users := Users();
      var error := RegisterError(username, password, users);
      if error.Some? {
        return Verdict(false, error.value);
      }
      usersFile := Holds(users[username := UserRecord(hashPassword(password), now)]);
      xpFiles := xpFiles[username := Holds(0)];
      return Verdict(true, Registered);
    }

    /** Login against the stored registry. */
    function Login(username: string, password: string): (v: Verdict)
      reads this
      ensures v.ok <==>
        username != [] && password != [] && username in Users()
        && Users()[username].passwordHash == hashPassword(password)
    {
      LoginVerdict(username, password, Users(), hashPassword)
    }

    /** Reading a user's points; a missing file is created holding 0. */
    method GetXp(username: string) returns (xp: int)
      modifies this
      ensures xp == old(Xp(username)) && Xp(username) == xp
      ensures old(XpFile(username)).Absent? ==> xpFiles == old(xpFiles)[username := Holds(0)]
      ensures !old(XpFile(username)).Absent? ==> xpFiles == old(xpFiles)
      ensures usersFile == old(usersFile) && histories == old(histories) && quotas == old(quotas)
    {
      if XpFile(username).Absent? {
        xpFiles := xpFiles[username := Holds(0)];
        return 0;
      }
      return Xp(username);
    }

    /** Read-modify-write of a user's points; other users are untouched. */
    method UpdateXp(username: string, gained: int) returns (newTotal: int)
      modifies this
      ensures newTotal == old(Xp(username)) + gained
      ensures xpFiles == old(xpFiles)[username := Holds(newTotal)] && Xp(username) == newTotal
      ensures usersFile == old(usersFile) && histories == old(histories) && quotas == old(quotas)
    {
      var current := GetXp(username);
      newTotal := current + gained;
      xpFiles := xpFiles[username := Holds(newTotal)];
    }

    /** The duplicate check on the user's own history; None when the history
        cannot be read (the source raises). */
    function IsDuplicateImage(username: string, h: string): (r: Option<bool>)
      reads this
      ensures History(username).Absent? ==> r == Some(false)
      ensures r == Some(true) <==> History(username).Holds? && HistoryContains(History(username).value, h)
    {
      DuplicateIn(History(username), h)
    }

    /** Appends a hash to the user's own history; no other history changes. */
    method SaveToHistory(username: string, h: string)
      modifies this
      ensures histories == old(histories)[username := AppendLine(old(History(username)), h)]
      ensures !old(History(username)).Corrupt? && NoSurroundingSpace(h) ==>
        IsDuplicateImage(username, h) == Some(true)
      ensures usersFile == old(usersFile) && xpFiles == old(xpFiles) && quotas == old(quotas)
    {
      var before := History(username);
      histories := histories[username := AppendLine(before, h)];
      assert IsDuplicateImage(username, h) == DuplicateIn(AppendLine(before, h), h);
      if !before.Corrupt? && NoSurroundingSpace(h) {
        SavedImageIsDuplicate(before, h);
      }
    }

    /** Uploads made today. */
    function DailyUploadCount(username: string, today: string): (count: int)
      reads this
      ensures count != 0 ==> Quota(username).Holds? && Quota(username).value.date == Some(today)
    {
      CountOn(Quota(username), today)
    }

    /** Counts one more upload today; the first upload on a new day counts 1. */
    method IncrementDailyUpload(username: string, today: string) returns (newCount: int)
      modifies this
      ensures newCount == old(DailyUploadCount(username, today)) + 1
      ensures quotas == old(quotas)[username := Holds(QuotaRecord(Some(today), Some(newCount)))]
      ensures DailyUploadCount(username, today) == newCount
      ensures !(old(Quota(username)).Holds? && old(Quota(username)).value.date == Some(today)) ==> newCount == 1
      ensures usersFile == old(usersFile) && xpFiles == old(xpFiles) && histories == old(histories)
    {
      newCount := DailyUploadCount(username, today) + 1;
      quotas := quotas[username := Holds(QuotaRecord(Some(today), Some(newCount)))];
    }

    /** Whether one more upload is allowed today, with today's count. */
    function CanUploadToday(username: string, today: string): (r: (bool, int))
      reads this
      ensures r.1 == DailyUploadCount(username, today)
      ensures r.0 <==> r.1 < DailyUploadLimit
    {
      var count := DailyUploadCount(username, today);
      (count < DailyUploadLimit, count)
    }

    /** Uploads still allowed today. */
    function RemainingUploads(username: string, today: string): (r: int)
      reads this
      ensures r >= 0 && (DailyUploadCount(username, today) >= 0 ==> r <= DailyUploadLimit)
      ensures r == 0 <==> !CanUploadToday(username, today).0
    {
      Remaining(DailyUploadCount(username, today))
    }
  }
}
