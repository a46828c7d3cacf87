/** The User schema's field rules: required name, a unique email matching
    /^\S+@\S+\.\S+$/, a password of at least six characters, and a role from
    a fixed list that defaults to buyer. */
module UserModel {
  import opened Common

  datatype Role = Buyer | Seller | Admin

  /** The role path: absent takes the default; a given value must be one of
      the enum's strings. */
  function ParseRole(role: Option<string>): (r: Option<Role>)
    ensures role.None? ==> r == Some(Buyer)
    ensures role.Some? ==> (r.Some? <==> role.value in {"buyer", "seller", "admin"})
  {
    match role
    case None => Some(Buyer)
    case Some(name) =>
      if name == "buyer" then Some(Buyer)
      else if name == "seller" then Some(Seller)
      else if name == "admin" then Some(Admin)
      else None
  }

  /** The characters JavaScript's \s matches. */
  predicate IsJsWhitespace(c: char) {
    c == '\t' || c == '\n' || c == '\U{B}' || c == '\U{C}' || c == '\r' || c == ' ' ||
    c == '\U{A0}' || c == '\U{1680}' || ('\U{2000}' <= c <= '\U{200A}') ||
    c == '\U{2028}' || c == '\U{2029}' || c == '\U{202F}' || c == '\U{205F}' ||
    c == '\U{3000}' || c == '\U{FEFF}'
  }

  /** \S+ : one or more characters, none of them whitespace. */
  predicate NonSpaceRun(s: string) {
    |s| > 0 && forall k :: 0 <= k < |s| ==> !IsJsWhitespace(s[k])
  }

  /** The email pattern as the regular expression reads: the whole string is
      a run of non-space characters, an '@', a run, a '.', and a run. */
  predicate EmailMatches(s: string) {
    exists i, j :: 0 <= i < j < |s| && s[i] == '@' && s[j] == '.' &&
      NonSpaceRun(s[..i]) && NonSpaceRun(s[i + 1..j]) && NonSpaceRun(s[j + 1..])
  }

  /** The pattern in plain terms: no whitespace anywhere, an '@' after at
      least one character, and after it at least one character, a '.', and at
      least one character. */
  lemma {:induction false} EmailMatchesIff(s: string)
    ensures EmailMatches(s) <==>
      && (forall k :: 0 <= k < |s| ==> !IsJsWhitespace(s[k]))
      && (exists i, j :: 1 <= i && i + 1 < j && j + 1 < |s| && s[i] == '@' && s[j] == '.')
  {
    if EmailMatches(s) {
      var i, j :| 0 <= i < j < |s| && s[i] == '@' && s[j] == '.' &&
        NonSpaceRun(s[..i]) && NonSpaceRun(s[i + 1..j]) && NonSpaceRun(s[j + 1..]);
      forall k | 0 <= k < |s| ensures !IsJsWhitespace(s[k]) {
        if k < i {
          assert s[..i][k] == s[k];
        } else if i < k < j {
          assert s[i + 1..j][k - i - 1] == s[k];
        } else if j < k {
          assert s[j + 1..][k - j - 1] == s[k];
        }
      }
    }
  }

  /** Stray whitespace, a missing part or a missing dot after the '@' all
      break the pattern. */
  lemma EmailExamples()
    ensures EmailMatches("a@b.c")
    ensures !EmailMatches("a@b.")
    ensures !EmailMatches("@b.c")
    ensures !EmailMatches("a@.c")
    ensures !EmailMatches("a b@c.d")
    ensures !EmailMatches("a@bc")
  {
    var ok := "a@b.c";
    assert ok[..1] == "a" && ok[2..3] == "b" && ok[4..] == "c";
    assert NonSpaceRun(ok[..1]) && NonSpaceRun(ok[2..3]) && NonSpaceRun(ok[4..]);
    assert ok[1] == '@' && ok[3] == '.';
    EmailMatchesIff("a@b.");
    EmailMatchesIff("@b.c");
    EmailMatchesIff("a@.c");
    EmailMatchesIff("a b@c.d");
    assert IsJsWhitespace("a b@c.d"[1]);
    EmailMatchesIff("a@bc");
  }

  /** A user document as submitted: a missing string field is the empty string. */
  datatype UserInput = UserInput(name: string, email: string, password: string, role: Option<string>)

  /** A stored user. */
  datatype User = User(name: string, email: string, password: string, role: Role)

  /** One validation error per failing path, the path's first failing rule. */
  datatype UserError = NameRequired | EmailRequired | EmailMalformed | PasswordRequired | PasswordTooShort | RoleNotAllowed

  /** MinPasswordLength is the password's declared minlength. */
  const MinPasswordLength := 6

  /** The schema's validators, path by path: required first, then the
      path's own rule. */
  function ValidateUser(u: UserInput): (errors: seq<UserError>)
  {
    (if u.name == "" then [NameRequired] else []) +
    (if u.email == "" then [EmailRequired] else if !EmailMatches(u.email) then [EmailMalformed] else []) +
    (if u.password == "" then [PasswordRequired] else if |u.password| < MinPasswordLength then [PasswordTooShort] else []) +
    (if ParseRole(u.role).None? then [RoleNotAllowed] else [])
  }

  /** A document passes validation exactly when every constraint holds. */
  lemma ValidateUserIff(u: UserInput)
    ensures ValidateUser(u) == [] <==>
      u.name != "" && EmailMatches(u.email) && |u.password| >= MinPasswordLength && ParseRole(u.role).Some?
    ensures var errors := ValidateUser(u);
      && (u.name == "" ==> NameRequired in errors)
      && (u.email == "" ==> EmailRequired in errors)
      && (u.email != "" && !EmailMatches(u.email) ==> EmailMalformed in errors)
      && (0 < |u.password| < MinPasswordLength ==> PasswordTooShort in errors)
      && (ParseRole(u.role).None? ==> RoleNotAllowed in errors)
  {
    if EmailMatches(u.email) {
      var i, j :| 0 <= i < j < |u.email| && u.email[i] == '@' && u.email[j] == '.' &&
        NonSpaceRun(u.email[..i]) && NonSpaceRun(u.email[i + 1..j]) && NonSpaceRun(u.email[j + 1..]);
    }
  }

  /** The outcome of saving a user document. */
  datatype SaveOutcome = ValidationFailed(errors: seq<UserError>) | DuplicateEmail | Saved(user: User)

  predicate EmailsUnique(users: seq<User>) {
    forall i, j :: 0 <= i < j < |users| ==> users[i].email != users[j].email
  }

  /** save() of a new user: validation, then the unique index on email. */
  function SaveUser(users: seq<User>, u: UserInput): (SaveOutcome, seq<User>)
  {
    var errors := ValidateUser(u);
    if errors != [] then (ValidationFailed(errors), users)
    else if exists k :: 0 <= k < |users| && users[k].email == u.email then (DuplicateEmail, users)
    else
      var user := User(u.name, u.email, u.password, ParseRole(u.role).value);
      (Saved(user), users + [user])
  }

  /** Every stored user meets the schema, and emails stay unique. */
  predicate UsersValid(users: seq<User>) {
    && EmailsUnique(users)
    && forall k :: 0 <= k < |users| ==>
         users[k].name != "" && EmailMatches(users[k].email) && |users[k].password| >= MinPasswordLength
  }

  /** Saving keeps every stored user valid and the emails unique; a saved user
      carries the submitted fields, with the buyer role when none was given. */
  lemma SaveUserKeepsUsersValid(users: seq<User>, u: UserInput)
    requires UsersValid(users)
    ensures var (r, users') := SaveUser(users, u);
      && UsersValid(users')
      && (!r.Saved? ==> users' == users)
      && (r.Saved? ==> users' == users + [r.user] && r.user.email == u.email &&
                       r.user.name == u.name && r.user.password == u.password &&
                       (u.role.None? ==> r.user.role == Buyer))
      && (r == DuplicateEmail <==> ValidateUser(u) == [] && exists x :: x in users && x.email == u.email)
  {
    ValidateUserIff(u);
    if ValidateUser(u) == [] && exists x :: x in users && x.email == u.email {
      var x :| x in users && x.email == u.email;
      var k :| 0 <= k < |users| && users[k] == x;
    }
  }
}
