/** `public/register.php`: self-registration of a gym member. The form's fields are checked all
    at once, the username and e-mail must be new, and then a user account and its member
    record are created together in one transaction. */
module Registration {
  import opened Php
  import opened Calendar
  import opened Schema
  import opened Functions

  /** The characters the username pattern `^[a-zA-Z0-9_]+$` allows. */
  predicate IsWordChar(c: char) {
    ('a' <= c <= 'z') || ('A' <= c <= 'Z') || ('0' <= c <= '9') || c == '_'
  }

  predicate IsWord(s: string) {
    s != [] && forall k :: 0 <= k < |s| ==> IsWordChar(s[k])
  }

  /** `explode(' ', $fullName, 2)`: the text before the first space, and the rest after it (''
      when there is no space). */
  function SplitName(s: string): (r: (string, string))
    ensures ' ' !in r.0
    ensures ' ' in s ==> r.0 + " " + r.1 == s
    ensures ' ' !in s ==> r == (s, "")
  {
    if s == [] then ("", "")
    else if s[0] == ' ' then ("", s[1..])
    else
      var (first, last) := SplitName(s[1..]);
      assert s == [s[0]] + s[1..];
      ([s[0]] + first, last)
  }

  /** The split is made at the first space: a name whose first space is at `i` splits into the
      text before it and the text after it. */
  lemma {:induction false} SplitNameAtFirstSpace(s: string, i: nat)
    requires i < |s| && s[i] == ' ' && ' ' !in s[..i]
    ensures SplitName(s) == (s[..i], s[i + 1..])
  {
    if i > 0 {
      assert s[..i][0] == s[0];
      assert s[1..][..i - 1] == s[1..i];
      assert forall k :: 0 <= k < i - 1 ==> s[1..i][k] == s[..i][k + 1];
      SplitNameAtFirstSpace(s[1..], i - 1);
      assert [s[0]] + s[1..i] == s[..i];
    }
  }

  /** The sanitised fields of the posted form. */
  datatype RegistrationForm = RegistrationForm(
    username: string, email: string, fullName: string, phone: string,
    dateOfBirth: string, gender: string, password: string, confirmPassword: string)

  datatype RegistrationError =
    | UsernameRequired | UsernameTooShort | UsernameInvalid
    | EmailRequired | EmailInvalid
    | FullNameRequired
    | PasswordRequired | PasswordTooShort | PasswordMismatch
    | AlreadyExists
    | RegistrationFailed

  /** The username check: the first problem of the username, if any. */
  function UsernameErrors(u: string): (r: seq<RegistrationError>)
    ensures r == [] <==> !IsEmpty(u) && |u| >= 3 && IsWord(u)
    ensures r == [UsernameRequired] <==> IsEmpty(u)
    ensures r == [UsernameTooShort] <==> !IsEmpty(u) && |u| < 3
    ensures r == [UsernameInvalid] <==> !IsEmpty(u) && |u| >= 3 && !IsWord(u)
  {
    if IsEmpty(u) then [UsernameRequired]
    else if |u| < 3 then [UsernameTooShort]
    else if !IsWord(u) then [UsernameInvalid]
    else []
  }

  /** The e-mail check; `emailValid` is the verdict of PHP's e-mail validator. */
  function EmailErrors(e: string, emailValid: bool): (r: seq<RegistrationError>)
    ensures r == [] <==> !IsEmpty(e) && emailValid
    ensures r == [EmailRequired] <==> IsEmpty(e)
    ensures r == [EmailInvalid] <==> !IsEmpty(e) && !emailValid
  {
    if IsEmpty(e) then [EmailRequired] else if !emailValid then [EmailInvalid] else []
  }

  /** The password check: the first problem of the password's length, if any. */
  function PasswordLengthErrors(p: string): (r: seq<RegistrationError>)
    ensures r == [] <==> !IsEmpty(p) && |p| >= 6
    ensures r == [PasswordRequired] <==> IsEmpty(p)
    ensures r == [PasswordTooShort] <==> !IsEmpty(p) && |p| < 6
  {
    if IsEmpty(p) then [PasswordRequired] else if |p| < 6 then [PasswordTooShort] else []
  }

  /** The confirmation check, made whatever the length check said. */
  function MismatchErrors(p: string, confirm: string): (r: seq<RegistrationError>)
    ensures r == [] <==> p == confirm
    ensures r != [] ==> r == [PasswordMismatch]
  {
    if p != confirm then [PasswordMismatch] else []
  }

  /** All field errors, in the order of the fields. */
  function FieldErrors(f: RegistrationForm, emailValid: bool): seq<RegistrationError> {
    UsernameErrors(f.username) + EmailErrors(f.email, emailValid)
    + (if IsEmpty(f.fullName) then [FullNameRequired] else [])
    + PasswordLengthErrors(f.password) + MismatchErrors(f.password, f.confirmPassword)
  }

  /** The field checks of the page: every field is checked, and the errors of all fields
      accumulate, in the order of the fields. */
  method ValidateFields(f: RegistrationForm, emailValid: bool) returns (errors: seq<RegistrationError>)
    ensures errors == FieldErrors(f, emailValid)
    ensures errors == [] <==> FieldsValid(f, emailValid)
  {
    errors := [];
    if IsEmpty(f.username) {
      errors := errors + [UsernameRequired];
    } else if |f.username| < 3 {
      errors := errors + [UsernameTooShort];
    } else if !IsWord(f.username) {
      errors := errors + [UsernameInvalid];
    }
    assert errors == UsernameErrors(f.username);
    if IsEmpty(f.email) {
      errors := errors + [EmailRequired];
    } else if !emailValid {
      errors := errors + [EmailInvalid];
    }
    assert errors == UsernameErrors(f.username) + EmailErrors(f.email, emailValid);
    if IsEmpty(f.fullName) {
      errors := errors + [FullNameRequired];
    }
    assert errors == UsernameErrors(f.username) + EmailErrors(f.email, emailValid)
                     + (if IsEmpty(f.fullName) then [FullNameRequired] else []);
    ghost var fieldErrors := errors;
    if IsEmpty(f.password) {
      errors := errors + [PasswordRequired];
    } else if |f.password| < 6 {
      errors := errors + [PasswordTooShort];
    }
    assert errors == fieldErrors + PasswordLengthErrors(f.password);
    if f.password != f.confirmPassword {
      errors := errors + [PasswordMismatch];
    }
    assert errors == fieldErrors + PasswordLengthErrors(f.password) + MismatchErrors(f.password, f.confirmPassword);
  }

  /** A form with an empty full name and a short, mismatched password reports all three
      problems at once: the checks do not stop at the first failure. */
  lemma ErrorsAccumulate(f: RegistrationForm, emailValid: bool)
    requires IsEmpty(f.fullName) && !IsEmpty(f.password) && |f.password| < 6 && f.password != f.confirmPassword
    ensures FullNameRequired in FieldErrors(f, emailValid)
    ensures PasswordTooShort in FieldErrors(f, emailValid)
    ensures PasswordMismatch in FieldErrors(f, emailValid)
  {
  }

  /** A valid form has a username of at least three word characters, a non-empty name and a
      password of at least six characters that matches its confirmation. */
  predicate FieldsValid(f: RegistrationForm, emailValid: bool) {
    && !IsEmpty(f.username) && |f.username| >= 3 && IsWord(f.username)
    && !IsEmpty(f.email) && emailValid
    && !IsEmpty(f.fullName)
    && !IsEmpty(f.password) && |f.password| >= 6
    && f.password == f.confirmPassword
  }

  /** Some user already has the username or the e-mail. */
  predicate Taken(users: seq<User>, username: string, email: string)
    ensures users == [] ==> !Taken(users, username, email)
    ensures forall u :: u in users && (u.username == username || u.email == email) ==> Taken(users, username, email)
  {
    exists i :: 0 <= i < |users| && (users[i].username == username || users[i].email == email)
  }

  /** PHP's `?:` on an optional text field: "" and "0" become NULL. */
  function NullIfEmpty(s: string): (r: Option<string>)
    ensures r.None? <==> IsEmpty(s)
  {
    if IsEmpty(s) then None else Some(s)
  }

  /** The user row: role 'member', status 'active'. */
  function NewUser(id: int, f: RegistrationForm, passwordHash: string): (u: User)
    ensures u.id == id && u.username == f.username && u.email == f.email && u.passwordHash == passwordHash
    ensures u.role == "member" && u.status == "active"
  {
    User(id, f.username, f.email, passwordHash, "member", "active")
  }

  /** The member row: linked to the new user, named from the split full name, joined today and
      Active. */
  function NewMember(id: int, userId: int, f: RegistrationForm, today: Day): (m: Member)
    ensures m.id == id && m.userId == Some(userId) && m.status.Active? && m.joinDate == today
    ensures (m.firstName, m.lastName) == SplitName(f.fullName)
    ensures m.email == f.email && m.phone == Some(f.phone)
    ensures m.dateOfBirth == NullIfEmpty(f.dateOfBirth) && m.gender == NullIfEmpty(f.gender)
    ensures (' ' in f.fullName ==> m.firstName + " " + m.lastName == f.fullName)
  {
    var (first, last) := SplitName(f.fullName);
    Member(id, Some(userId), first, last, f.email, Some(f.phone), NullIfEmpty(f.dateOfBirth),
           NullIfEmpty(f.gender), today, MemberStatus.Active)
  }

  /** The posted form as the page sanitises it: username, e-mail, full name and phone trimmed,
      absent fields empty. */
  function FormOf(username: Option<string>, email: Option<string>, fullName: Option<string>,
                  phone: Option<string>, dateOfBirth: Option<string>, gender: Option<string>,
                  password: Option<string>, confirmPassword: Option<string>): (f: RegistrationForm)
    ensures f.username == (if username.Some? then Trim(username.value) else "")
    ensures f.email == (if email.Some? then Trim(email.value) else "")
    ensures f.fullName == (if fullName.Some? then Trim(fullName.value) else "")
    ensures f.phone == (if phone.Some? then Trim(phone.value) else "")
    ensures f.password == (if password.Some? then password.value else "")
  {
    RegistrationForm(if username.Some? then Trim(username.value) else "",
                     if email.Some? then Trim(email.value) else "",
                     if fullName.Some? then Trim(fullName.value) else "",
                     if phone.Some? then Trim(phone.value) else "",
                     if dateOfBirth.Some? then dateOfBirth.value else "",
                     if gender.Some? then gender.value else "",
                     if password.Some? then password.value else "",
                     if confirmPassword.Some? then confirmPassword.value else "")
  }

  datatype Outcome =
    | AlreadyLoggedIn     // a logged-in user is sent to the dashboard
    | FormShown           // a GET request
    | Rejected(errors: seq<RegistrationError>)
    | Registered(userId: int, memberId: int)

  /** The whole page. `passwordHash` is what `password_hash` gives for the posted password,
      `emailValid` the e-mail validator's verdict and `dbFails` an exception inside the
      transaction, which rolls both inserts back. */
  method Register(db: Database, session: Session, isPost: bool, f: RegistrationForm, emailValid: bool,
                  passwordHash: string, now: Instant, dbFails: bool) returns (out: Outcome)
    requires db.Valid()
    modifies db
    ensures db.Valid()
    ensures session.IsLoggedIn() ==> out == AlreadyLoggedIn
    ensures out == FormShown <==> !session.IsLoggedIn() && !isPost
    ensures !session.IsLoggedIn() && isPost ==>
              && (!FieldsValid(f, emailValid) ==> out == Rejected(FieldErrors(f, emailValid)))
              && (FieldsValid(f, emailValid) && Taken(old(db.users), f.username, f.email) ==> out == Rejected([AlreadyExists]))
              && (FieldsValid(f, emailValid) && !Taken(old(db.users), f.username, f.email) && dbFails ==>
                    out == Rejected([RegistrationFailed]))
    ensures !out.Registered? ==> db.Contents() == old(db.Contents())
    ensures out.Rejected? && AlreadyExists in out.errors ==>
              FieldsValid(f, emailValid) && Taken(old(db.users), f.username, f.email)
    ensures out.Rejected? && RegistrationFailed in out.errors ==> dbFails
    ensures out.Registered? <==>
              !session.IsLoggedIn() && isPost && FieldsValid(f, emailValid)
              && !Taken(old(db.users), f.username, f.email) && !dbFails
    ensures out.Registered? ==>
              && out.userId == NextId(old(db.users), UserKey)
              && out.memberId == NextId(old(db.members), MemberKey)
              && db.Contents() == old(db.Contents()).(
                   users := old(db.users) + [NewUser(out.userId, f, passwordHash)],
                   members := old(db.members) + [NewMember(out.memberId, out.userId, f, DayOf(now))])
  {
    if session.IsLoggedIn() {
      return AlreadyLoggedIn;
    }
    if !isPost {
      return FormShown;
    }
    var errors := ValidateFields(f, emailValid);
    if errors == [] && Taken(db.users, f.username, f.email) {
      errors := errors + [AlreadyExists];
    }
    if errors != [] {
      return Rejected(errors);
    }
    if dbFails {
      return Rejected([RegistrationFailed]);
    }
    var t := db.Contents();
    var user := NewUser(NextId(db.users, UserKey), f, passwordHash);
    AppendFresh(db.users, UserKey, user);
    db.users := db.users + [user];
    var member := NewMember(NextId(db.members, MemberKey), user.id, f, DayOf(now));
    AppendFresh(db.members, MemberKey, member);
    db.members := db.members + [member];
    assert db.Contents() == t.(users := t.users + [user], members := t.members + [member]);
    out := Registered(user.id, member.id);
  }
}
