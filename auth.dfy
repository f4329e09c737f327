/** The credential checks of src/auth/handlers.rs: the ordered input validators
    `validate_username` and `validate_password`, the order in which `register` applies
    them, the outcome mapping of `is_valid_user`, and the bearer-token extraction of
    `get_info_handler` (the `Authorization: Bearer <token>` field of section 2.1 of
    RFC 6750). bcrypt and JWT are parameters: `hashed` is what `hash` produced (None when
    it failed), `verify` answers `bcrypt::verify`, `tokenValid` answers `decode`. */
module Auth {
  import opened Common
  import opened Http

  // ---------------------------------------------------------------------------------
  // Characters and lengths

  /** Unicode's Alphabetic and Numeric properties of the chars beyond ASCII, which the
      model does not tabulate. Within ASCII they are fixed below. */
  datatype UnicodeClasses = UnicodeClasses(alphabetic: char -> bool, numeric: char -> bool)

  predicate IsAscii(c: char) {
    c < '\U{80}'
  }

  /** `char::is_alphabetic` */
  predicate IsAlphabetic(uc: UnicodeClasses, c: char) {
    if IsAscii(c) then 'a' <= c <= 'z' || 'A' <= c <= 'Z' else uc.alphabetic(c)
  }

  /** `char::is_alphanumeric`: alphabetic or numeric. */
  predicate IsAlphanumeric(uc: UnicodeClasses, c: char) {
    IsAlphabetic(uc, c) || (if IsAscii(c) then IsDigit(c) else uc.numeric(c))
  }

  /** The number of bytes of `c` in UTF-8. */
  function CharLen(c: char): (n: nat)
    ensures 1 <= n <= 4
    ensures n == 1 <==> IsAscii(c)
  {
    if c < '\U{80}' then 1 else if c < '\U{800}' then 2 else if c < '\U{10000}' then 3 else 4
  }

  /** `str::len`: the length in bytes of the UTF-8 encoding, not the number of chars. */
  function Utf8Len(s: string): (n: nat)
    ensures |s| <= n <= 4 * |s|
    ensures n == 0 <==> s == []
  {
    if s == [] then 0 else CharLen(s[0]) + Utf8Len(s[1..])
  }

  // ---------------------------------------------------------------------------------
  // Validators

  const USERNAME_EMPTY := "the username field must not be empty"
  const USERNAME_SHORT := "Username length cannot be less than three characters"
  const USERNAME_CHARS := "username contains unacceptable characters"
  const PASSWORD_EMPTY := "the password field must not be empty"
  const PASSWORD_SHORT := "the password field must be more than 6 characters"
  const PASSWORD_MIX := "The password must contain at least one number and one letter"
  const ALL_CORRECT := "Everything is correct"

  predicate UsernameChar(uc: UnicodeClasses, c: char) {
    IsAlphanumeric(uc, c) || c == '_' || c == '-'
  }

  predicate HasDigit(s: string) {
    exists i :: 0 <= i < |s| && IsDigit(s[i])
  }

  predicate HasLetter(uc: UnicodeClasses, s: string) {
    exists i :: 0 <= i < |s| && IsAlphabetic(uc, s[i])
  }

  /** `validate_username`: empty first, then fewer than 3 bytes, then a char outside
      letters, digits, '_' and '-'. */
  function ValidateUsername(uc: UnicodeClasses, username: string): (r: (bool, string))
    ensures r.0 <==> Utf8Len(username) >= 3 && forall i :: 0 <= i < |username| ==> UsernameChar(uc, username[i])
    ensures r.0 ==> r.1 == ALL_CORRECT
    ensures username == [] ==> r == (false, USERNAME_EMPTY)
    ensures username != [] && Utf8Len(username) < 3 ==> r == (false, USERNAME_SHORT)
    ensures Utf8Len(username) >= 3 && !r.0 ==> r.1 == USERNAME_CHARS
  {
    if username == [] then (false, USERNAME_EMPTY)
    else if Utf8Len(username) < 3 then (false, USERNAME_SHORT)
    else if !(forall i :: 0 <= i < |username| ==> UsernameChar(uc, username[i])) then (false, USERNAME_CHARS)
    else (true, ALL_CORRECT)
  }

  /** `validate_password` as written. On line 198 `==` binds tighter than `&&`, so only
      `has_letter` is compared with false: the check rejects only a password that has a
      digit and no letter. */
  function ValidatePassword(uc: UnicodeClasses, password: string): (r: (bool, string))
    ensures r.0 <==> Utf8Len(password) >= 6 && !(HasDigit(password) && !HasLetter(uc, password))
    ensures r.0 ==> r.1 == ALL_CORRECT
    ensures password == [] ==> r == (false, PASSWORD_EMPTY)
    ensures password != [] && Utf8Len(password) < 6 ==> r == (false, PASSWORD_SHORT)
    ensures Utf8Len(password) >= 6 && !r.0 ==> r.1 == PASSWORD_MIX
  {
    if password == [] then (false, PASSWORD_EMPTY)
    else if Utf8Len(password) < 6 then (false, PASSWORD_SHORT)
    else
      var hasDigit := HasDigit(password);
      var hasLetter := HasLetter(uc, password);
      if hasDigit && !hasLetter then (false, PASSWORD_MIX)
      else (true, ALL_CORRECT)
  }

  /** `validate_password` as its comment and its message mean it: a password needs at
      least one digit and at least one letter. */
  function ValidatePasswordIntended(uc: UnicodeClasses, password: string): (r: (bool, string))
    ensures r.0 <==> Utf8Len(password) >= 6 && HasDigit(password) && HasLetter(uc, password)
    ensures password == [] ==> r == (false, PASSWORD_EMPTY)
    ensures password != [] && Utf8Len(password) < 6 ==> r == (false, PASSWORD_SHORT)
    ensures Utf8Len(password) >= 6 && !r.0 ==> r.1 == PASSWORD_MIX
  {
    if password == [] then (false, PASSWORD_EMPTY)
    else if Utf8Len(password) < 6 then (false, PASSWORD_SHORT)
    else if !(HasDigit(password) && HasLetter(uc, password)) then (false, PASSWORD_MIX)
    else (true, ALL_CORRECT)
  }

  /** As written, a password without any digit passes the character check: "abcdef" is
      accepted although it holds no number. */
  lemma PasswordWithoutDigitAccepted(uc: UnicodeClasses)
    ensures ValidatePassword(uc, "abcdef") == (true, ALL_CORRECT)
    ensures ValidatePasswordIntended(uc, "abcdef") == (false, PASSWORD_MIX)
  {
    assert Utf8Len("abcdef") == 6;
    assert !HasDigit("abcdef") by {
      forall i | 0 <= i < 6 ensures !IsDigit("abcdef"[i]) {
      }
    }
  }

  /** `len()` counts bytes: two letters beyond ASCII make a username of at least four bytes,
      which passes the "three characters" check. */
  lemma {:induction false} TwoCharUsernameAccepted(uc: UnicodeClasses, a: char, b: char)
    requires !IsAscii(a) && !IsAscii(b) && uc.alphabetic(a) && uc.alphabetic(b)
    ensures ValidateUsername(uc, [a, b]) == (true, ALL_CORRECT)
  {
    assert [a, b][1..] == [b];
    assert [b][1..] == [];
    assert Utf8Len([a, b]) == CharLen(a) + CharLen(b);
  }

  // ---------------------------------------------------------------------------------
  // Users and register

  /** A row of table `users`. */
  datatype User = User(id: int, username: string, passwordHash: string, email: string,
                       createdAt: int, updatedAt: int)

  datatype RequestUsers = RequestUsers(username: string, password: string, email: string)

  /** What `register` answers with: the new row, or `{"error": message}`. */
  datatype RegisterBody = Created(user: User) | ErrorJson(error: string)

  const HASH_FAILED := "Ошибка хеширования пароля"

  /** Which password check `register` applies: `validate_password` as written, or as its
      comment and message mean it. */
  datatype PasswordRule = AsWritten | Intended

  function CheckPassword(rule: PasswordRule, uc: UnicodeClasses, password: string): (bool, string) {
    match rule
    case AsWritten => ValidatePassword(uc, password)
    case Intended => ValidatePasswordIntended(uc, password)
  }

  /** `register`. The password is checked before the username; either failure answers
      400 with that check's message and inserts nothing. Then `hash` runs, then the
      INSERT (`newId` and `now` are the serial id and NOW() it gets). `rule` chooses the
      password check: `AsWritten` is the handler as it stands. */
  function Register(users: seq<User>, uc: UnicodeClasses, req: RequestUsers, rule: PasswordRule,
                    hashed: Option<string>, insertFails: bool, newId: int, now: int)
    : (out: (Response<RegisterBody>, seq<User>))
    ensures !CheckPassword(rule, uc, req.password).0 ==>
      out == (JsonReply(BAD_REQUEST, ErrorJson(CheckPassword(rule, uc, req.password).1)), users)
    ensures CheckPassword(rule, uc, req.password).0 && !ValidateUsername(uc, req.username).0 ==>
      out == (JsonReply(BAD_REQUEST, ErrorJson(ValidateUsername(uc, req.username).1)), users)
    ensures CheckPassword(rule, uc, req.password).0 && ValidateUsername(uc, req.username).0 ==>
      if hashed.None? then out == (TextReply(INTERNAL_SERVER_ERROR, HASH_FAILED), users)
      else if insertFails then out == (StatusOnly(INTERNAL_SERVER_ERROR), users)
      else
        var user := User(newId, req.username, hashed.value, req.email, now, now);
        out == (JsonReply(OK, Created(user)), users + [user])
  {
    var passwordCheck := CheckPassword(rule, uc, req.password);
    if !passwordCheck.0 then (JsonReply(BAD_REQUEST, ErrorJson(passwordCheck.1)), users)
    else
      var usernameCheck := ValidateUsername(uc, req.username);
      if !usernameCheck.0 then (JsonReply(BAD_REQUEST, ErrorJson(usernameCheck.1)), users)
      else match hashed
        case None => (TextReply(INTERNAL_SERVER_ERROR, HASH_FAILED), users)
        case Some(h) =>
          if insertFails then (StatusOnly(INTERNAL_SERVER_ERROR), users)
          else
            var user := User(newId, req.username, h, req.email, now, now);
            (JsonReply(OK, Created(user)), users + [user])
  }

  /** Under either rule, when both inputs are invalid the password's message is the one
      reported, and nothing is inserted. */
  lemma RegisterReportsPasswordFirst(users: seq<User>, uc: UnicodeClasses, req: RequestUsers, rule: PasswordRule,
                                     hashed: Option<string>, insertFails: bool, newId: int, now: int)
    requires !CheckPassword(rule, uc, req.password).0 && !ValidateUsername(uc, req.username).0
    ensures var out := Register(users, uc, req, rule, hashed, insertFails, newId, now);
      && out.0.status == BAD_REQUEST
      && out.0.body == Json(ErrorJson(CheckPassword(rule, uc, req.password).1))
      && out.0.body != Json(ErrorJson(ValidateUsername(uc, req.username).1))
      && out.1 == users
  {
  }

  /** The table only ever grows by one row, and only by a user whose name is at least three
      bytes of letters, digits, '_' and '-' and whose password is at least six bytes. As
      written the password need only avoid "a digit and no letter"; under the intended
      rule it holds a digit and a letter. */
  lemma RegisteredUsersAreValid(users: seq<User>, uc: UnicodeClasses, req: RequestUsers, rule: PasswordRule,
                                hashed: Option<string>, insertFails: bool, newId: int, now: int)
    ensures var out := Register(users, uc, req, rule, hashed, insertFails, newId, now);
      out.1 == users || (
        && out.1 == users + [out.1[|users|]]
        && out.1[|users|].username == req.username
        && Utf8Len(req.username) >= 3
        && (forall i :: 0 <= i < |req.username| ==> UsernameChar(uc, req.username[i]))
        && Utf8Len(req.password) >= 6
        && (rule == AsWritten ==> !(HasDigit(req.password) && !HasLetter(uc, req.password)))
        && (rule == Intended ==> HasDigit(req.password) && HasLetter(uc, req.password)))
  {
  }

  /** As written, `register` inserts "bob" with the password "abcdef", which holds no
      digit; under the intended rule the same request is refused with the digit message. */
  lemma RegisterAcceptsPasswordWithoutDigit(users: seq<User>, uc: UnicodeClasses, email: string,
                                            h: string, newId: int, now: int)
    ensures var req := RequestUsers("bob", "abcdef", email);
      var user := User(newId, "bob", h, email, now, now);
      && Register(users, uc, req, AsWritten, Some(h), false, newId, now) == (JsonReply(OK, Created(user)), users + [user])
      && Register(users, uc, req, Intended, Some(h), false, newId, now) == (JsonReply(BAD_REQUEST, ErrorJson(PASSWORD_MIX)), users)
  {
    PasswordWithoutDigitAccepted(uc);
    assert Utf8Len("bob") == 3;
    assert ValidateUsername(uc, "bob").0;
  }

  // ---------------------------------------------------------------------------------
  // is_valid_user

  datatype UserValidationResult = Valid | InvalidCredentials | DatabaseError

  /** `SELECT password_hash FROM users WHERE username = $1` read with `fetch_optional`:
      the hash of the first row with that name. */
  function FindHash(users: seq<User>, username: string): (r: Option<string>)
    ensures r.None? <==> forall i :: 0 <= i < |users| ==> users[i].username != username
    ensures r.Some? ==> exists i :: (0 <= i < |users| && users[i].username == username &&
      users[i].passwordHash == r.value && forall j :: 0 <= j < i ==> users[j].username != username)
  {
    if users == [] then None
    else if users[0].username == username then Some(users[0].passwordHash)
    else
      var rest := FindHash(users[1..], username);
      if rest.Some? then
        var i :| 0 <= i < |users[1..]| && users[1..][i].username == username &&
          users[1..][i].passwordHash == rest.value && forall j :: 0 <= j < i ==> users[1..][j].username != username;
        assert users[i + 1].username == username;
        rest
      else rest
  }

  /** `is_valid_user`. `verify(password, hash)` is bcrypt's answer: None for its error. */
  function IsValidUser(users: seq<User>, username: string, password: string, dbFails: bool,
                       verify: (string, string) -> Option<bool>): (r: UserValidationResult)
    ensures dbFails <==> r == DatabaseError
    ensures !dbFails && (forall i :: 0 <= i < |users| ==> users[i].username != username) ==>
      r == InvalidCredentials
    ensures r == Valid <==>
      !dbFails && exists i :: (0 <= i < |users| && users[i].username == username &&
        (forall j :: 0 <= j < i ==> users[j].username != username) &&
        verify(password, users[i].passwordHash) == Some(true))
  {
    if dbFails then DatabaseError
    else match FindHash(users, username)
      case Some(hash) =>
        (match verify(password, hash)
         case Some(true) => Valid
         case _ => InvalidCredentials)
      case None => InvalidCredentials
  }

  // ---------------------------------------------------------------------------------
  // Bearer token

  const AUTHORIZATION := "authorization"
  const BEARER := "Bearer "
  const INFO := "You are valid here is info"

  predicate StartsWith(s: string, prefix: string) {
    |prefix| <= |s| && s[..|prefix|] == prefix
  }

  function Repeat(p: string, k: nat): string {
    if k == 0 then [] else p + Repeat(p, k - 1)
  }

  /** How many copies of `p` stand at the front of `s`, one after another. */
  function LeadingCopies(s: string, p: string): nat
    requires |p| > 0
    decreases |s|
  {
    if StartsWith(s, p) then 1 + LeadingCopies(s[|p|..], p) else 0
  }

  lemma ConcatAssoc(a: string, b: string, c: string)
    ensures a + (b + c) == (a + b) + c
  {
  }

  /** `str::trim_start_matches(p)`: strips `p` from the front for as long as it is there. */
  function TrimStartMatches(s: string, p: string): (r: string)
    requires |p| > 0
    ensures !StartsWith(r, p)
    ensures |r| <= |s| && r == s[|s| - |r|..]
    decreases |s|
  {
    if StartsWith(s, p) then TrimStartMatches(s[|p|..], p) else s
  }

  /** What the trim removed is exactly `LeadingCopies` copies of `p`. */
  lemma {:induction false} TrimRemovesLeadingCopies(s: string, p: string)
    requires |p| > 0
    ensures s == Repeat(p, LeadingCopies(s, p)) + TrimStartMatches(s, p)
    decreases |s|
  {
    if StartsWith(s, p) {
      var rest := s[|p|..];
      var n := LeadingCopies(rest, p);
      var t := TrimStartMatches(rest, p);
      TrimRemovesLeadingCopies(rest, p);
      assert LeadingCopies(s, p) == n + 1 && TrimStartMatches(s, p) == t;
      assert Repeat(p, n + 1) == p + Repeat(p, n);
      ConcatAssoc(p, Repeat(p, n), t);
      assert s == s[..|p|] + rest;
    } else {
      assert Repeat(p, LeadingCopies(s, p)) == [];
    }
  }

  /** The token `get_info_handler` hands to `decode`, or None when it answers 401 without
      decoding: no Authorization field, a value that is not visible ASCII, or one that does
      not start with "Bearer ". */
  function BearerToken(headers: HeaderMap): (r: Option<string>)
    ensures r.Some? ==> !StartsWith(r.value, BEARER)
    ensures r.Some? ==> exists k: nat :: k >= 1 && Get(headers, AUTHORIZATION) == Some(Repeat(BEARER, k) + r.value)
    ensures r.None? <==> Get(headers, AUTHORIZATION).None? || ToStr(Get(headers, AUTHORIZATION).value).None?
                         || !StartsWith(Get(headers, AUTHORIZATION).value, BEARER)
  {
    match Get(headers, AUTHORIZATION)
    case None => None
    case Some(value) =>
      match ToStr(value)
      case None => None
      case Some(text) =>
        if StartsWith(text, BEARER) then
          var token := TrimStartMatches(text, BEARER);
          TrimRemovesLeadingCopies(text, BEARER);
          assert LeadingCopies(text, BEARER) >= 1;
          Some(token)
        else None
  }

  /** `get_info_handler`: 200 with the info text when a token is extracted and `decode`
      accepts it, 401 otherwise. */
  function GetInfoHandler(headers: HeaderMap, tokenValid: string -> bool): (r: Response<string>)
    ensures r.status == OK <==> BearerToken(headers).Some? && tokenValid(BearerToken(headers).value)
    ensures r.status == OK ==> r == JsonReply(OK, INFO)
    ensures r.status != OK ==> r == StatusOnly(UNAUTHORIZED)
  {
    match BearerToken(headers)
    case Some(token) =>
      if tokenValid(token) then JsonReply(OK, INFO) else StatusOnly(UNAUTHORIZED)
    case None => StatusOnly(UNAUTHORIZED)
  }

  /** Any number of "Bearer " prefixes in front of a token that does not itself start with
      one are stripped back to that token. */
  lemma {:induction false} BearerTokenOfPrefixes(token: string, k: nat)
    requires k >= 1 && !StartsWith(token, BEARER)
    requires forall i :: 0 <= i < |token| ==> VisibleAscii(token[i])
    ensures BearerToken(map[AUTHORIZATION := [Repeat(BEARER, k) + token]]) == Some(token)
  {
    RepeatVisible(k);
    var v := Repeat(BEARER, k) + token;
    assert forall i :: 0 <= i < |v| ==> VisibleAscii(v[i]) by {
      forall i | 0 <= i < |v| ensures VisibleAscii(v[i]) {
        if i >= |Repeat(BEARER, k)| {
          assert v[i] == token[i - |Repeat(BEARER, k)|];
        }
      }
    }
    assert Repeat(BEARER, k) == BEARER + Repeat(BEARER, k - 1);
    TrimRepeated(token, k);
  }

  lemma {:induction false} RepeatVisible(k: nat)
    ensures forall i :: 0 <= i < |Repeat(BEARER, k)| ==> VisibleAscii(Repeat(BEARER, k)[i])
  {
    if k > 0 {
      RepeatVisible(k - 1);
      var r := Repeat(BEARER, k);
      forall i | 0 <= i < |r| ensures VisibleAscii(r[i]) {
        if i >= |BEARER| {
          assert r[i] == Repeat(BEARER, k - 1)[i - |BEARER|];
        }
      }
    }
  }

  lemma {:induction false} TrimRepeated(token: string, k: nat)
    requires !StartsWith(token, BEARER)
    ensures TrimStartMatches(Repeat(BEARER, k) + token, BEARER) == token
  {
    if k > 0 {
      var tail := Repeat(BEARER, k - 1) + token;
      assert Repeat(BEARER, k) == BEARER + Repeat(BEARER, k - 1);
      ConcatAssoc(BEARER, Repeat(BEARER, k - 1), token);
      var s := BEARER + tail;
      assert StartsWith(s, BEARER) && s[|BEARER|..] == tail;
      TrimRepeated(token, k - 1);
    }
  }
}
