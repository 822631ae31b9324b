/**
 * The input checks of the user model: the forbidden-nickname list, the
 * password rules of `updatePassword` and `hashPassword`, the fields an
 * authentication record must hold, and the validation sequence `create`
 * runs before it writes a new account.
 *
 * Database lookups, configuration reads, hashing and the other foreign
 * calls are parameters: the model receives what they answer.
 */
module User {
  import opened Strings

  /** `explode($sep, $s)`: the pieces between the separators, at least one. */
  function Explode(s: string, sep: char): (r: seq<string>)
    ensures |r| >= 1
    ensures forall k :: 0 <= k < |r| ==> sep !in r[k]
    decreases |s|
  {
    if sep !in s then [s]
    else
      var i := IndexOf(s, sep);
      [s[..i]] + Explode(s[i + 1..], sep)
  }

  /** The first position of `c` in `s`. */
  function IndexOf(s: string, c: char): (i: nat)
    requires c in s
    ensures i < |s| && s[i] == c && c !in s[..i]
  {
    if s[0] == c then 0 else 1 + IndexOf(s[1..], c)
  }

  /** `implode($sep, $parts)`. */
  function Join(parts: seq<string>, sep: char): string
    requires |parts| >= 1
    decreases |parts|
  {
    if |parts| == 1 then parts[0] else parts[0] + [sep] + Join(parts[1..], sep)
  }

  /** Joining the pieces again with the separator gives back the text. */
  lemma {:induction false} JoinExplode(s: string, sep: char)
    ensures Join(Explode(s, sep), sep) == s
    decreases |s|
  {
    if sep in s {
      var i := IndexOf(s, sep);
      var rest := Explode(s[i + 1..], sep);
      assert Explode(s, sep) == [s[..i]] + rest;
      JoinCons(s[..i], rest, sep);
      JoinExplode(s[i + 1..], sep);
      assert s[..i] + [sep] + s[i + 1..] == s;
    }
  }

  /** Joining a piece in front of others puts a separator after it. */
  lemma JoinCons(x: string, rest: seq<string>, sep: char)
    requires |rest| >= 1
    ensures Join([x] + rest, sep) == x + [sep] + Join(rest, sep)
  {
    assert ([x] + rest)[1..] == rest;
  }

  /** `in_array($x, $list)` without the strict flag. */
  predicate InArray(x: string, list: seq<string>)
  {
    exists k :: 0 <= k < |list| && LooseEquals(x, list[k])
  }

  /** `array_map('trim', $list)`. */
  function TrimAll(list: seq<string>): (r: seq<string>)
    ensures |r| == |list| && forall k :: 0 <= k < |r| ==> r[k] == Trim(list[k])
  {
    seq(|list|, k requires 0 <= k < |list| => Trim(list[k]))
  }

  /**
   * `isNicknameBlocked` as written: the nickname is lower-cased, the
   * entries of the comma-separated list are only trimmed.
   */
  predicate IsNicknameBlockedAsWritten(nickname: string, forbidden: string)
  {
    !IsEmptyString(forbidden) && InArray(ToLower(nickname), TrimAll(Explode(forbidden, ',')))
  }

  /**
   * An entry holding an upper-case letter never blocks anything as
   * written: the nickname it is compared with has been lower-cased.
   */
  lemma UpperEntryNeverMatches(nickname: string, entry: string, i: nat)
    requires i < |entry| && 'A' <= entry[i] <= 'Z'
    ensures !LooseEquals(ToLower(nickname), entry)
  {
    assert !IsDigit(entry[i]);
    if i < |nickname| {
      assert ToLower(nickname)[i] != entry[i];
    }
  }

  /**
   * A list of one name holding an upper-case letter: as written it does
   * not block that name, with the entries lower-cased it does.
   */
  lemma SingleUpperEntry(entry: string, i: nat)
    requires ',' !in entry && Trimmed(entry) && !IsEmptyString(entry)
    requires i < |entry| && 'A' <= entry[i] <= 'Z'
    ensures !IsNicknameBlockedAsWritten(entry, entry)
    ensures IsNicknameBlocked(entry, entry)
  {
    SingleEntryList(entry);
    UpperEntryNeverMatches(entry, entry, i);
    InArraySingle(ToLower(entry), entry);
    InArraySingle(ToLower(entry), ToLower(entry));
  }

  /** A list without a comma has the one entry, which `trim` leaves alone when it is trimmed. */
  lemma SingleEntryList(entry: string)
    requires ',' !in entry && Trimmed(entry)
    ensures TrimAll(Explode(entry, ',')) == [entry]
    ensures LowerAll(TrimAll(Explode(entry, ','))) == [ToLower(entry)]
  {
    TrimmedIdle(entry);
  }

  /** Membership in a one-entry list is loose equality with the entry. */
  lemma InArraySingle(x: string, e: string)
    ensures InArray(x, [e]) <==> LooseEquals(x, e)
  {
    if LooseEquals(x, e) {
      assert [e][0] == e;
    }
  }

  /** The list `Admin` does not block the nickname `Admin`. */
  lemma ListedNicknameNotBlocked()
    ensures !IsNicknameBlockedAsWritten("Admin", "Admin")
    ensures IsNicknameBlocked("Admin", "Admin")
  {
    assert "Admin"[0] == 'A' && "Admin"[4] == 'n';
    SingleUpperEntry("Admin", 0);
  }

  /** `trim` leaves a trimmed string alone. */
  lemma TrimmedIdle(s: string)
    requires Trimmed(s)
    ensures Trim(s) == s
  {
  }

  /**
   * `isNicknameBlocked` with the entries lower-cased as well, so that a
   * listed name blocks that name in any case.
   */
  predicate IsNicknameBlocked(nickname: string, forbidden: string)
  {
    !IsEmptyString(forbidden) && InArray(ToLower(nickname), LowerAll(TrimAll(Explode(forbidden, ','))))
  }

  /** Every entry lower-cased. */
  function LowerAll(list: seq<string>): (r: seq<string>)
    ensures |r| == |list| && forall k :: 0 <= k < |r| ==> r[k] == ToLower(list[k])
  {
    seq(|list|, k requires 0 <= k < |list| => ToLower(list[k]))
  }

  /**
   * With the entries lower-cased: an empty list (`""` or `"0"`) blocks
   * nothing; otherwise a nickname is blocked exactly when some entry,
   * trimmed and lower-cased, loosely equals the lower-cased nickname, so
   * every listed name is blocked in whatever case it is written.
   */
  lemma NicknameBlockedIff(nickname: string, forbidden: string)
    ensures IsEmptyString(forbidden) ==> !IsNicknameBlocked(nickname, forbidden)
    ensures var e := Explode(forbidden, ',');
      IsNicknameBlocked(nickname, forbidden) <==>
      !IsEmptyString(forbidden) && exists k :: 0 <= k < |e| && LooseEquals(ToLower(nickname), ToLower(Trim(e[k])))
    ensures forall k :: (0 <= k < |Explode(forbidden, ',')| && !IsEmptyString(forbidden) &&
      ToLower(nickname) == ToLower(Trim(Explode(forbidden, ',')[k]))) ==> IsNicknameBlocked(nickname, forbidden)
  {
    var e := Explode(forbidden, ',');
    var es := LowerAll(TrimAll(e));
    if IsNicknameBlocked(nickname, forbidden) {
      var k :| 0 <= k < |es| && LooseEquals(ToLower(nickname), es[k]);
      assert LooseEquals(ToLower(nickname), ToLower(Trim(e[k])));
    }
    if !IsEmptyString(forbidden) && exists k :: 0 <= k < |e| && LooseEquals(ToLower(nickname), ToLower(Trim(e[k]))) {
      var k :| 0 <= k < |e| && LooseEquals(ToLower(nickname), ToLower(Trim(e[k])));
      assert LooseEquals(ToLower(nickname), es[k]);
    }
    forall k | 0 <= k < |e| && !IsEmptyString(forbidden) && ToLower(nickname) == ToLower(Trim(e[k]))
      ensures IsNicknameBlocked(nickname, forbidden)
    {
      assert LooseEquals(ToLower(nickname), es[k]);
    }
  }

  /**
   * As written: an empty list blocks nothing; otherwise a nickname is
   * blocked exactly when some entry, trimmed but not lower-cased, loosely
   * equals the lower-cased nickname.
   */
  lemma NicknameBlockedAsWrittenIff(nickname: string, forbidden: string)
    ensures IsEmptyString(forbidden) ==> !IsNicknameBlockedAsWritten(nickname, forbidden)
    ensures IsNicknameBlockedAsWritten(nickname, forbidden) <==>
      !IsEmptyString(forbidden) &&
      exists k :: 0 <= k < |Explode(forbidden, ',')| && LooseEquals(ToLower(nickname), Trim(Explode(forbidden, ',')[k]))
  {
    BlockingEntry(nickname, forbidden);
    InArrayTrimmed(ToLower(nickname), Explode(forbidden, ','));
  }

  /** A nickname blocked as written has an entry that blocks it. */
  lemma BlockingEntry(nickname: string, forbidden: string)
    ensures IsNicknameBlockedAsWritten(nickname, forbidden) ==>
      exists k :: 0 <= k < |Explode(forbidden, ',')| && LooseEquals(ToLower(nickname), Trim(Explode(forbidden, ',')[k]))
  {
    var e := Explode(forbidden, ',');
    var x := ToLower(nickname);
    InArrayTrimmed(x, e);
    if IsNicknameBlockedAsWritten(nickname, forbidden) {
      var k :| 0 <= k < |e| && LooseEquals(x, Trim(e[k]));
      assert 0 <= k < |e| && LooseEquals(ToLower(nickname), Trim(e[k]));
    }
  }

  /** Membership in the trimmed list is loose equality with some entry, trimmed. */
  lemma InArrayTrimmed(x: string, e: seq<string>)
    ensures InArray(x, TrimAll(e)) ==> exists k :: 0 <= k < |e| && LooseEquals(x, Trim(e[k]))
    ensures forall k :: 0 <= k < |e| && LooseEquals(x, Trim(e[k])) ==> InArray(x, TrimAll(e))
  {
    var es := TrimAll(e);
    if InArray(x, es) {
      var k :| 0 <= k < |es| && LooseEquals(x, es[k]);
      assert LooseEquals(x, Trim(e[k]));
    }
    forall k | 0 <= k < |e| && LooseEquals(x, Trim(e[k])) ensures InArray(x, es) {
      assert LooseEquals(x, es[k]);
    }
  }

  /** Default of `system.username_min_length`. */
  const MinLengthDefault := 3

  /** Default of `system.username_max_length`. */
  const MaxLengthDefault := 48

  /** `max(1, min(64, $v))`. */
  function ClampLength(v: int): (r: int)
    ensures 1 <= r <= 64
    ensures 1 <= v <= 64 ==> r == v
    ensures v < 1 ==> r == 1
    ensures v > 64 ==> r == 64
  {
    if v < 1 then 1 else if v > 64 then 64 else v
  }

  /** A configured value, or its default when it is not set. */
  function Setting(v: Option<int>, default: int): int
  {
    match v
    case Some(x) => x
    case None => default
  }

  /**
   * The username length bounds: both clamped into 1..64, and swapped when
   * the minimum came out above the maximum.
   */
  function LengthBounds(minCfg: Option<int>, maxCfg: Option<int>): (r: (int, int))
    ensures 1 <= r.0 <= r.1 <= 64
    ensures var lo := ClampLength(Setting(minCfg, MinLengthDefault)); var hi := ClampLength(Setting(maxCfg, MaxLengthDefault));
      multiset{r.0, r.1} == multiset{lo, hi} && (lo <= hi ==> r == (lo, hi))
  {
    var lo := ClampLength(Setting(minCfg, MinLengthDefault));
    var hi := ClampLength(Setting(maxCfg, MaxLengthDefault));
    if lo > hi then (hi, lo) else (lo, hi)
  }

  /** Without configuration a username has 3 to 48 characters. */
  lemma DefaultLengthBounds()
    ensures LengthBounds(None, None) == (3, 48)
  {
  }

  /** `preg_replace('/ +/', ' ', $s)`: every run of spaces becomes one. */
  function CollapseSpaces(s: string): (r: string)
    ensures |r| <= |s|
    ensures forall k :: 0 <= k < |r| - 1 ==> !(r[k] == ' ' && r[k + 1] == ' ')
    ensures r != [] && s != [] ==> r[0] == s[0]
    decreases |s|
  {
    if s == [] then []
    else if s[0] == ' ' then " " + CollapseSpaces(DropSpaces(s))
    else [s[0]] + CollapseSpaces(s[1..])
  }

  /** The text after its leading spaces. */
  function DropSpaces(s: string): (r: string)
    ensures |r| <= |s| && (r == [] || r[0] != ' ')
    ensures |s| > 0 && s[0] == ' ' ==> |r| < |s|
    ensures NonSpaces(r) == NonSpaces(s)
  {
    if s != [] && s[0] == ' ' then DropSpaces(s[1..]) else s
  }

  /** The text with its spaces left out. */
  function NonSpaces(s: string): string
  {
    if s == [] then [] else (if s[0] == ' ' then [] else [s[0]]) + NonSpaces(s[1..])
  }

  /** Collapsing spaces keeps every other character, in order, and keeps a space if there was one. */
  lemma {:induction false} CollapseKeeps(s: string)
    ensures NonSpaces(CollapseSpaces(s)) == NonSpaces(s)
    ensures ' ' in CollapseSpaces(s) <==> ' ' in s
    decreases |s|
  {
    if s != [] {
      if s[0] == ' ' {
        var d := DropSpaces(s);
        CollapseKeeps(d);
        assert (" " + CollapseSpaces(d))[0] == ' ';
        assert NonSpaces(" " + CollapseSpaces(d)) == NonSpaces(CollapseSpaces(d));
      } else {
        CollapseKeeps(s[1..]);
        var c := CollapseSpaces(s[1..]);
        assert ([s[0]] + c)[1..] == c;
        assert ' ' in [s[0]] + c <==> ' ' in c;
        assert ' ' in s <==> ' ' in s[1..] by {
          assert s == [s[0]] + s[1..];
        }
      }
    }
  }

  /** `^[a-z0-9][a-z0-9\_]*`: what a nickname is made of. */
  predicate NicknamePattern(s: string)
  {
    |s| >= 1 && LowerAlnum(s[0]) && forall k :: 1 <= k < |s| ==> LowerAlnum(s[k]) || s[k] == '_'
  }

  predicate LowerAlnum(c: char)
  {
    'a' <= c <= 'z' || '0' <= c <= '9'
  }

  /** PCRE's `$` without the D modifier: the pattern may also stop before a final newline. */
  predicate EndAnchored(s: string, body: string -> bool)
  {
    body(s) || (|s| >= 1 && s[|s| - 1] == '\n' && body(s[..|s| - 1]))
  }

  /** On a trimmed string the final-newline allowance of `$` changes nothing. */
  lemma EndAnchoredTrimmed(s: string, body: string -> bool)
    requires Trimmed(s)
    ensures EndAnchored(s, body) <==> body(s)
  {
    if |s| >= 1 {
      assert s[|s| - 1] != '\n';
    }
  }

  /** Lower-casing keeps a trimmed string trimmed. */
  lemma LowerTrimmed(s: string)
    requires Trimmed(s)
    ensures Trimmed(ToLower(s))
  {
  }

  /** `!empty($data[$key]) ? trim($data[$key]) : ''`; a missing field is passed as "". */
  function Field(raw: string): (r: string)
    ensures Trimmed(r)
  {
    TrimEnds(raw);
    if IsEmptyString(raw) then "" else Trim(raw)
  }

  /**
   * The password check of `create` as written: `$password1 != $confirm`
   * compares loosely, so two different numeric strings of the same value
   * pass. None is the refusal.
   */
  function ChoosePasswordAsWritten(password: string, password1: string, confirm: string): (r: Option<string>)
    ensures r.None? <==> !LooseEquals(password1, confirm)
  {
    if !LooseEquals(password1, confirm) then None
    else if password1 != "" then Some(password1) else Some(password)
  }

  /** The confirmation `007` passes for the password `7`, which is then set. */
  lemma LooseConfirmation()
    ensures ChoosePasswordAsWritten("", "007", "7") == Some("007")
  {
    assert DecimalValue("007") == 7 by {
      assert "007"[..2] == "00" && "00"[..1] == "0" && "0"[..0] == "";
    }
    assert DecimalValue("7") == 7 by {
      assert "7"[..0] == "";
    }
    assert NumericString("007") && NumericString("7");
  }

  /**
   * The password check of `create` with the strict comparison evidently
   * meant: the confirmation must repeat the password exactly; a given
   * password replaces the one passed in.
   */
  function ChoosePassword(password: string, password1: string, confirm: string): (r: Option<string>)
    ensures r.None? <==> password1 != confirm
    ensures r.Some? ==> r.value == (if password1 != "" then password1 else password)
  {
    if password1 != confirm then None
    else if password1 != "" then Some(password1) else Some(password)
  }

  /** What `hashPassword` does before hashing: a password that trims to "" or "0" is refused. */
  function HashPassword(password: string, hashed: string): (r: Option<string>)
    ensures r.None? <==> IsEmptyString(Trim(password))
    ensures r.Some? ==> r.value == hashed
  {
    if IsEmptyString(Trim(password)) then None else Some(hashed)
  }

  /** The punctuation `updatePassword` allows besides letters and digits. */
  const AllowedPunctuation: set<char> := {
    '!', '"', '#', '$', '%', '&', '\'', '(', ')', '*', '+', ',', '-', '.', '/', ';',
    '<', '=', '>', '?', '@', '[', '\\', ']', '^', '_', '`', '{', '|', '}', '~'}

  /** `[a-z0-9…]` with the `i` flag. */
  predicate PasswordChar(c: char)
  {
    'a' <= c <= 'z' || 'A' <= c <= 'Z' || '0' <= c <= '9' || c in AllowedPunctuation
  }

  /** `^[…]+`: one or more allowed characters. */
  predicate PasswordPattern(s: string)
  {
    |s| >= 1 && forall k :: 0 <= k < |s| ==> PasswordChar(s[k])
  }

  /** The allowed characters are exactly the visible ASCII ones except the colon. */
  lemma PasswordCharRange(c: char)
    ensures PasswordChar(c) <==> '!' <= c <= '~' && c != ':'
  {
  }

  datatype PasswordError = EmptyPassword | ExposedPassword | ForbiddenCharacters

  datatype PasswordOutcome = NewPassword(password: string) | PasswordRefused(reason: PasswordError)

  /**
   * `updatePassword` up to the hashing: the trimmed password, unless it is
   * empty, known from a public dump (`exposed`, when that check is not
   * disabled), or holds a character outside the allowed ones.
   */
  function UpdatePassword(password: string, disableExposedCheck: bool, exposed: bool): (r: PasswordOutcome)
    ensures r.NewPassword? <==> !IsEmptyString(Trim(password)) && (disableExposedCheck || !exposed) && PasswordPattern(Trim(password))
    ensures r.NewPassword? ==> r.password == Trim(password)
    ensures r == PasswordRefused(EmptyPassword) <==> IsEmptyString(Trim(password))
  {
    var p := Trim(password);
    TrimEnds(password);
    EndAnchoredTrimmed(p, PasswordPattern);
    if IsEmptyString(p) then PasswordRefused(EmptyPassword)
    else if !disableExposedCheck && exposed then PasswordRefused(ExposedPassword)
    else if !EndAnchored(p, PasswordPattern) then PasswordRefused(ForbiddenCharacters)
    else NewPassword(p)
  }

  /** A password `updatePassword` accepts is one `hashPassword` accepts too. */
  lemma UpdatedPasswordHashes(password: string, disableExposedCheck: bool, exposed: bool, hashed: string)
    requires UpdatePassword(password, disableExposedCheck, exposed).NewPassword?
    ensures HashPassword(UpdatePassword(password, disableExposedCheck, exposed).password, hashed) == Some(hashed)
  {
    TrimEnds(password);
    TrimmedIdle(Trim(password));
  }

  /** A field of an authentication record: None is PHP's `null`, which `isset` rejects. */
  type Record = map<string, Option<string>>

  /** What `getAuthenticationInfo` receives. */
  datatype UserInfo = Fields(record: Record) | ById(uid: int) | ByName(name: string) | Other

  datatype AuthError = NotEnoughInformation | UserNotFound

  datatype AuthOutcome = Found(user: Option<Record>) | AuthFailed(error: AuthError)

  predicate IsSet(r: Record, key: string)
  {
    key in r && r[key].Some?
  }

  /**
   * `getAuthenticationInfo`: a record must carry `uid`, `password` and
   * `legacy_password`; an id or a name is looked up (`row` is what the
   * database returns, None when no active user matches); anything else
   * leaves the user null.
   */
  function AuthenticationInfo(info: UserInfo, row: Option<Record>): (r: AuthOutcome)
    ensures info.Fields? ==> (r.Found? <==> IsSet(info.record, "uid") && IsSet(info.record, "password") && IsSet(info.record, "legacy_password"))
    ensures info.Fields? && r.Found? ==> r.user == Some(info.record)
    ensures info.Fields? && !r.Found? ==> r.error == NotEnoughInformation
    ensures (info.ById? || info.ByName?) ==> (r == AuthFailed(UserNotFound) <==> row.None?) && (row.Some? ==> r == Found(row))
    ensures info.Other? ==> r == Found(None)
  {
    match info
    case Fields(record) =>
      if !IsSet(record, "uid") || !IsSet(record, "password") || !IsSet(record, "legacy_password") then AuthFailed(NotEnoughInformation)
      else Found(Some(record))
    case ById(_) => if row.None? then AuthFailed(UserNotFound) else Found(row)
    case ByName(_) => if row.None? then AuthFailed(UserNotFound) else Found(row)
    case Other => Found(None)
  }

  /** The registration form, field by field; a field the form does not carry is "". */
  datatype Form = Form(inviteId: string, username: string, nickname: string, email: string, openidUrl: string,
                       password: string, password1: string, confirm: string)

  /** What the configuration, the database and the other services answer during a registration. */
  datatype Env = Env(
    usingInvites: bool, inviteExists: bool, openIdValid: bool,
    minLength: Option<int>, maxLength: Option<int>, noRegFullName: bool,
    emailDomainAllowed: bool, emailValid: bool, forbiddenNicknames: string,
    blockExtendedRegister: bool, emailRegistered: bool, adminEmail: string,
    nicknameRegistered: bool, generatedPassword: string)

  datatype RegistrationError =
    | PasswordsDiffer | InvitationRequired | InvitationUnverified | InvalidOpenId | RedirectedToOpenId
    | MissingInformation | UsernameTooShort(min: int) | UsernameTooLong(max: int) | NotFullName
    | EmailDomainNotAllowed | InvalidEmail | NicknameBlocked | EmailUnavailable | NicknameInvalid
    | NicknameTaken | PasswordEmpty

  datatype Registration = Registered(username: string, nickname: string, password: string) | Refused(error: RegistrationError)

  /** `str_replace(' ', '', $s)`. */
  function RemoveSpaces(s: string): (r: string)
    ensures ' ' !in r && |r| <= |s|
  {
    if s == [] then [] else (if s[0] == ' ' then [] else [s[0]]) + RemoveSpaces(s[1..])
  }

  /**
   * An OpenID registration may not use an administrator's address: the
   * lower-cased address against the lower-cased, space-free list.
   */
  predicate AdminEmailUsed(email: string, openid: string, adminEmail: string)
  {
    !IsEmptyString(adminEmail) && |openid| > 0 && InArray(ToLower(email), Explode(RemoveSpaces(ToLower(adminEmail)), ','))
  }

  /** The password confirmation test of `create`: PHP's loose `==` as written, exact equality as corrected. */
  predicate PasswordsMatch(asWritten: bool, password1: string, confirm: string)
  {
    if asWritten then LooseEquals(password1, confirm) else password1 == confirm
  }

  /** The forbidden-nickname test of `create`, as written or with the entries lower-cased. */
  predicate NicknameRefused(asWritten: bool, nickname: string, forbidden: string)
  {
    if asWritten then IsNicknameBlockedAsWritten(nickname, forbidden) else IsNicknameBlocked(nickname, forbidden)
  }

  /**
   * `create` up to writing the account: the password confirmation, the
   * invitation, the required fields (or the OpenID redirect), then the
   * identity checks. `asWritten` picks the source's loose password test
   * and case-sensitive list of forbidden nicknames; otherwise the corrected
   * tests are made.
   */
  function Register(form: Form, env: Env, asWritten: bool): (r: Registration)
    ensures r == Refused(PasswordsDiffer) <==> !PasswordsMatch(asWritten, Field(form.password1), Field(form.confirm))
    ensures r.Registered? ==> !IsEmptyString(Field(form.username)) && !IsEmptyString(Field(form.email)) && !IsEmptyString(Field(form.nickname))
    ensures r.Registered? && env.usingInvites ==> !IsEmptyString(Field(form.inviteId)) && env.inviteExists
    ensures r.Registered? ==> var b := LengthBounds(env.minLength, env.maxLength); b.0 <= |r.username| <= b.1
    ensures r.Registered? ==> NicknamePattern(r.nickname) && r.nickname == ToLower(Field(form.nickname))
    ensures r.Registered? ==> !NicknameRefused(asWritten, Field(form.nickname), env.forbiddenNicknames)
    ensures r.Registered? ==> !IsEmptyString(Trim(r.password))
  {
    var password1 := Field(form.password1);
    var confirm := Field(form.confirm);
    var chosen := if asWritten then ChoosePasswordAsWritten(Field(form.password), password1, confirm)
                  else ChoosePassword(Field(form.password), password1, confirm);
    match chosen
    case None => Refused(PasswordsDiffer)
    case Some(pw) => CheckForm(form, env, pw, asWritten)
  }

  /** What `create` checks once the passwords agree: the invitation, then the fields of the form. */
  function CheckForm(form: Form, env: Env, pw: string, asWritten: bool): (r: Registration)
    ensures r != Refused(PasswordsDiffer)
    ensures r.Registered? ==> !IsEmptyString(Field(form.username)) && !IsEmptyString(Field(form.email)) && !IsEmptyString(Field(form.nickname))
    ensures r.Registered? && env.usingInvites ==> !IsEmptyString(Field(form.inviteId)) && env.inviteExists
    ensures r.Registered? ==> var b := LengthBounds(env.minLength, env.maxLength); b.0 <= |r.username| <= b.1
    ensures r.Registered? ==> NicknamePattern(r.nickname) && r.nickname == ToLower(Field(form.nickname))
    ensures r.Registered? ==> !NicknameRefused(asWritten, Field(form.nickname), env.forbiddenNicknames)
    ensures r.Registered? ==> !IsEmptyString(Trim(r.password))
  {
    var inviteId := Field(form.inviteId);
    if env.usingInvites && IsEmptyString(inviteId) then Refused(InvitationRequired)
    else if env.usingInvites && !env.inviteExists then Refused(InvitationUnverified)
    else CheckFields(Field(form.username), Field(form.nickname), Field(form.email), Field(form.openidUrl), pw, env, asWritten)
  }

  /** The required fields, or the OpenID redirect when one is missing, then the identity checks. */
  function CheckFields(username: string, nickname: string, email: string, openid: string, pw: string, env: Env,
                       asWritten: bool): (r: Registration)
    requires Trimmed(nickname)
    ensures r != Refused(PasswordsDiffer)
    ensures r.Registered? ==> !IsEmptyString(username) && !IsEmptyString(email) && !IsEmptyString(nickname)
    ensures r.Registered? ==> var b := LengthBounds(env.minLength, env.maxLength); b.0 <= |r.username| <= b.1
    ensures r.Registered? ==> NicknamePattern(r.nickname) && r.nickname == ToLower(nickname)
    ensures r.Registered? ==> !NicknameRefused(asWritten, nickname, env.forbiddenNicknames)
    ensures r.Registered? ==> !IsEmptyString(Trim(r.password))
  {
    if IsEmptyString(username) || IsEmptyString(email) || IsEmptyString(nickname) then
      if !IsEmptyString(openid) then (if env.openIdValid then Refused(RedirectedToOpenId) else Refused(InvalidOpenId))
      else Refused(MissingInformation)
    else CheckIdentity(username, nickname, email, if env.openIdValid then openid else "", pw, env, asWritten)
  }

  /**
   * The confirmation `7` for the password `007`: as written the form gets
   * past the password test, corrected it is refused there.
   */
  lemma RegisterLooseConfirmation(form: Form, env: Env)
    requires Field(form.password1) == "007" && Field(form.confirm) == "7"
    ensures Register(form, env, true) != Refused(PasswordsDiffer)
    ensures Register(form, env, false) == Refused(PasswordsDiffer)
  {
    LooseConfirmation();
  }

  /** The username, address and nickname checks, in the order `create` makes them. */
  function CheckIdentity(username: string, nickname: string, email: string, openid: string, pw: string, env: Env,
                         asWritten: bool): (r: Registration)
    requires Trimmed(nickname)
    ensures r.Registered? ==> var b := LengthBounds(env.minLength, env.maxLength); b.0 <= |r.username| <= b.1
    ensures r.Registered? ==> r.username == CollapseSpaces(username) && (!env.noRegFullName ==> ' ' in r.username)
    ensures r.Registered? ==> env.emailDomainAllowed && env.emailValid && !(env.blockExtendedRegister && env.emailRegistered)
    ensures r.Registered? ==> !NicknameRefused(asWritten, nickname, env.forbiddenNicknames) && !AdminEmailUsed(email, openid, env.adminEmail)
    ensures r == Refused(NicknameBlocked) ==> NicknameRefused(asWritten, nickname, env.forbiddenNicknames)
    ensures r.Registered? ==> NicknamePattern(r.nickname) && r.nickname == ToLower(nickname)
    ensures r.Registered? ==> !IsEmptyString(Trim(r.password))
  {
    var name := CollapseSpaces(username);
    var bounds := LengthBounds(env.minLength, env.maxLength);
    if |name| < bounds.0 then Refused(UsernameTooShort(bounds.0))
    else if |name| > bounds.1 then Refused(UsernameTooLong(bounds.1))
    else if !env.noRegFullName && ' ' !in name then Refused(NotFullName)
    else if !env.emailDomainAllowed then Refused(EmailDomainNotAllowed)
    else if !env.emailValid then Refused(InvalidEmail)
    else if NicknameRefused(asWritten, nickname, env.forbiddenNicknames) then Refused(NicknameBlocked)
    else if env.blockExtendedRegister && env.emailRegistered then Refused(EmailUnavailable)
    else if AdminEmailUsed(email, openid, env.adminEmail) then Refused(EmailUnavailable)
    else CheckNickname(name, nickname, pw, env)
  }

  /**
   * The nickname `Admin` with the forbidden list `Admin`: as written it is
   * never refused as blocked, corrected it is never registered.
   */
  lemma AdminNicknameChecked(username: string, email: string, openid: string, pw: string, env: Env)
    requires env.forbiddenNicknames == "Admin"
    ensures CheckIdentity(username, "Admin", email, openid, pw, env, true) != Refused(NicknameBlocked)
    ensures !CheckIdentity(username, "Admin", email, openid, pw, env, false).Registered?
  {
    ListedNicknameNotBlocked();
  }

  /** The nickname format, its uniqueness and the final password. */
  function CheckNickname(name: string, nickname: string, pw: string, env: Env): (r: Registration)
    requires Trimmed(nickname)
    ensures r.Registered? ==> r.username == name
    ensures r.Registered? ==> NicknamePattern(r.nickname) && r.nickname == ToLower(nickname)
    ensures r.Registered? ==> !IsEmptyString(Trim(r.password)) && r.password == (if |pw| > 0 then pw else env.generatedPassword)
    ensures r == Refused(NicknameInvalid) <==> !NicknamePattern(ToLower(nickname))
  {
    var nick := ToLower(nickname);
    LowerTrimmed(nickname);
    EndAnchoredTrimmed(nick, NicknamePattern);
    var newPassword := if |pw| > 0 then pw else env.generatedPassword;
    if !EndAnchored(nick, NicknamePattern) then Refused(NicknameInvalid)
    else if env.nicknameRegistered then Refused(NicknameTaken)
    else if HashPassword(newPassword, "").None? then Refused(PasswordEmpty)
    else Registered(name, nick, newPassword)
  }
}
