/**
 * Accounts: the POST /login form with action "register" or "login", over the
 * SQLite table `users` (id INTEGER PRIMARY KEY AUTOINCREMENT, username UNIQUE,
 * email UNIQUE, password_hash). Hashing and hash checking are library calls,
 * passed in as functions.
 */
module Auth {
  import opened Wrappers

  /** The characters Python's `str.isspace` accepts, which `str.strip()` removes. */
  predicate IsSpace(c: char)
  {
    c == ' ' || '\t' <= c <= '\r' || '\U{1c}' <= c <= '\U{1f}' || c == '\U{85}' || c == '\U{a0}' ||
    c == '\U{1680}' || '\U{2000}' <= c <= '\U{200a}' || c == '\U{2028}' || c == '\U{2029}' ||
    c == '\U{202f}' || c == '\U{205f}' || c == '\U{3000}'
  }

  /** A field that is empty once stripped: `not s.strip()`. */
  ghost predicate Blank(s: string)
  {
    forall i :: 0 <= i < |s| ==> IsSpace(s[i])
  }

  /** Where `s.lstrip()` starts: the first non-whitespace index at or after `from`, or `|s|`. */
  function StartOfText(s: string, from: nat): (k: nat)
    requires from <= |s|
    ensures from <= k <= |s|
    ensures k == |s| || !IsSpace(s[k])
    decreases |s| - from
  {
    if from < |s| && IsSpace(s[from]) then StartOfText(s, from + 1) else from
  }

  /** Everything `s.lstrip()` drops is whitespace. */
  lemma {:induction false} StartOfTextSkipsSpaces(s: string, from: nat)
    requires from <= |s|
    ensures forall i :: from <= i < StartOfText(s, from) ==> IsSpace(s[i])
    decreases |s| - from
  {
    if from < |s| && IsSpace(s[from]) {
      StartOfTextSkipsSpaces(s, from + 1);
    }
  }

  /** Where `s.rstrip()` ends within `s[lo..hi]`: just after its last non-whitespace character, or `lo`. */
  function EndOfText(s: string, lo: nat, hi: nat): (k: nat)
    requires lo <= hi <= |s|
    ensures lo <= k <= hi
    ensures k == lo || !IsSpace(s[k - 1])
  {
    if lo < hi && IsSpace(s[hi - 1]) then EndOfText(s, lo, hi - 1) else hi
  }

  /** Everything `s.rstrip()` drops is whitespace. */
  lemma {:induction false} EndOfTextSkipsSpaces(s: string, lo: nat, hi: nat)
    requires lo <= hi <= |s|
    ensures forall i :: EndOfText(s, lo, hi) <= i < hi ==> IsSpace(s[i])
  {
    if lo < hi && IsSpace(s[hi - 1]) {
      EndOfTextSkipsSpaces(s, lo, hi - 1);
    }
  }

  /** `s.strip()`: empty exactly when every character of `s` is whitespace. */
  function Strip(s: string): (r: string)
    ensures r == [] <==> Blank(s)
  {
    var start := StartOfText(s, 0);
    var end := EndOfText(s, start, |s|);
    assert end == start ==> Blank(s) by {
      if end == start {
        StartOfTextSkipsSpaces(s, 0);
        EndOfTextSkipsSpaces(s, start, |s|);
      }
    }
    s[start..end]
  }

  /**
   * What `s.strip()` keeps is a contiguous piece of `s` with no whitespace at
   * either end, and everything it drops is whitespace.
   */
  lemma StripIsTrimmedSlice(s: string)
    ensures Strip(s) != [] ==> !IsSpace(Strip(s)[0]) && !IsSpace(Strip(s)[|Strip(s)| - 1])
    ensures exists i, j {:trigger s[i..j]} :: 0 <= i <= j <= |s| && Strip(s) == s[i..j] &&
              (forall k :: 0 <= k < i ==> IsSpace(s[k])) && (forall k :: j <= k < |s| ==> IsSpace(s[k]))
  {
    var start := StartOfText(s, 0);
    var end := EndOfText(s, start, |s|);
    StartOfTextSkipsSpaces(s, 0);
    EndOfTextSkipsSpaces(s, start, |s|);
    assert Strip(s) == s[start..end];
  }

  /** Stripping an already stripped field changes nothing. */
  lemma StripIdempotent(s: string)
    ensures Strip(Strip(s)) == Strip(s)
  {
    var r := Strip(s);
    StripIsTrimmedSlice(s);
    if r != [] {
      assert StartOfText(r, 0) == 0;
      assert EndOfText(r, 0, |r|) == |r|;
    }
  }

  /** The registration form fields, "" when missing. */
  datatype RegistrationForm = RegistrationForm(username: string, email: string, password: string, confirm: string)

  /**
   * The register branch first strips every field: a field becomes empty
   * exactly when it was all whitespace, and stripping again changes nothing.
   */
  function Stripped(f: RegistrationForm): (g: RegistrationForm)
    ensures g.username == [] <==> Blank(f.username)
    ensures g.email == [] <==> Blank(f.email)
    ensures g.password == [] <==> Blank(f.password)
    ensures g.confirm == [] <==> Blank(f.confirm)
    ensures Strip(g.username) == g.username && Strip(g.email) == g.email
    ensures Strip(g.password) == g.password && Strip(g.confirm) == g.confirm
  {
    StripIdempotent(f.username);
    StripIdempotent(f.email);
    StripIdempotent(f.password);
    StripIdempotent(f.confirm);
    RegistrationForm(Strip(f.username), Strip(f.email), Strip(f.password), Strip(f.confirm))
  }

  datatype Rejection = MissingField | PasswordMismatch | PasswordTooShort | AlreadyRegistered

  const MinPasswordLength: nat := 4

  /**
   * The checks of the register branch on the stripped fields, in their order:
   * an empty username, email or password first; then a confirmation that
   * differs; then a password shorter than four characters. None when the form
   * passes all three.
   */
  function Validate(f: RegistrationForm): (r: Option<Rejection>)
    ensures r == Some(MissingField) <==> f.username == [] || f.email == [] || f.password == []
    ensures r.None? <==>
              f.username != [] && f.email != [] && f.password != [] &&
              f.password == f.confirm && |f.password| >= MinPasswordLength
    ensures r != Some(AlreadyRegistered)
  {
    if f.username == [] || f.email == [] || f.password == [] then Some(MissingField)
    else if f.password != f.confirm then Some(PasswordMismatch)
    else if |f.password| < MinPasswordLength then Some(PasswordTooShort)
    else None
  }

  /**
   * What each outcome of the checks means for the raw form: a blank field is
   * reported before anything else, a mismatch before a short password, and a
   * form passes exactly when its three fields are non-blank, the stripped
   * passwords agree and have at least four characters. `AlreadyRegistered`
   * never comes from the checks.
   */
  lemma ValidateChecksInOrder(f: RegistrationForm)
    ensures Validate(Stripped(f)) == Some(MissingField) <==> Blank(f.username) || Blank(f.email) || Blank(f.password)
    ensures Validate(Stripped(f)) == Some(PasswordMismatch) <==>
              !Blank(f.username) && !Blank(f.email) && !Blank(f.password) && Strip(f.password) != Strip(f.confirm)
    ensures Validate(Stripped(f)) == Some(PasswordTooShort) <==>
              !Blank(f.username) && !Blank(f.email) && !Blank(f.password) &&
              Strip(f.password) == Strip(f.confirm) && |Strip(f.password)| < MinPasswordLength
    ensures Validate(Stripped(f)).None? <==>
              !Blank(f.username) && !Blank(f.email) && !Blank(f.password) &&
              Strip(f.password) == Strip(f.confirm) && |Strip(f.password)| >= MinPasswordLength
    ensures Validate(Stripped(f)) != Some(AlreadyRegistered)
  {
  }

  /** A stored account; the creation timestamp is not modelled. */
  datatype User = User(username: string, email: string, passwordHash: string)

  /** What login puts in the session cookie. */
  datatype Session = Session(userId: int, username: string)

  datatype Registration = Rejected(reason: Rejection) | Registered(userId: int)

  /** The UNIQUE constraints would refuse this username or email. */
  predicate Taken(users: map<int, User>, username: string, email: string)
  {
    exists k :: k in users && (users[k].username == username || users[k].email == email)
  }

  /** The UNIQUE constraints hold: no two accounts share a username or an email. */
  ghost predicate UniqueAccounts(users: map<int, User>)
  {
    forall a, b :: a in users && b in users && a != b ==>
      users[a].username != users[b].username && users[a].email != users[b].email
  }

  /** An account whose username and email are not taken keeps the constraints. */
  lemma InsertUntaken(users: map<int, User>, id: int, u: User)
    requires UniqueAccounts(users)
    requires id !in users && !Taken(users, u.username, u.email)
    ensures UniqueAccounts(users[id := u])
  {
    var users' := users[id := u];
    forall a, b | a in users' && b in users' && a != b
      ensures users'[a].username != users'[b].username && users'[a].email != users'[b].email
    {
      if a == id {
        assert b in users;
      } else if b == id {
        assert a in users;
      }
    }
  }

  /** The `users` table: its accounts by id and the AUTOINCREMENT mark of `sqlite_sequence`. */
  datatype UserTable = UserTable(users: map<int, User>, high: nat)

  /** AUTOINCREMENT keeps ids at or below its mark; UNIQUE keeps usernames and emails distinct. */
  ghost predicate ValidTable(t: UserTable)
  {
    (forall k :: k in t.users ==> k <= t.high) && UniqueAccounts(t.users)
  }

  /**
   * The register branch on a table, for the stripped form `f`: a failing
   * check rejects with its reason; an INSERT that a UNIQUE constraint refuses
   * rejects as already registered; otherwise the username and email are stored
   * with the hash of the password under the next AUTOINCREMENT id.
   */
  function Registering(t: UserTable, f: RegistrationForm, hash: string -> string): (r: (Registration, UserTable))
    ensures r.0.Rejected? ==> r.1 == t
    ensures Validate(f).Some? ==> r.0 == Rejected(Validate(f).value)
    ensures r.0 == Rejected(AlreadyRegistered) <==> Validate(f).None? && Taken(t.users, f.username, f.email)
    ensures r.0.Registered? <==> Validate(f).None? && !Taken(t.users, f.username, f.email)
    ensures r.0.Registered? ==>
              r.0.userId == t.high + 1 && r.1.high == r.0.userId &&
              r.1.users == t.users[r.0.userId := User(f.username, f.email, hash(f.password))]
  {
    var rejection := Validate(f);
    if rejection.Some? then (Rejected(rejection.value), t)
    else if Taken(t.users, f.username, f.email) then (Rejected(AlreadyRegistered), t)
    else
      var id := t.high + 1;
      (Registered(id), UserTable(t.users[id := User(f.username, f.email, hash(f.password))], id))
  }

  /** Registration keeps the table's constraints, and a new id is one no account had. */
  lemma RegisteringKeepsConstraints(t: UserTable, form: RegistrationForm, hash: string -> string)
    requires ValidTable(t)
    ensures ValidTable(Registering(t, form, hash).1)
    ensures Registering(t, form, hash).0.Registered? ==> Registering(t, form, hash).0.userId !in t.users
  {
    var (outcome, u) := Registering(t, form, hash);
    if outcome.Registered? {
      InsertUntaken(t.users, outcome.userId, u.users[outcome.userId]);
    }
  }

  /**
   * Two valid registrations whose usernames agree once stripped, on a fresh
   * table: the first is stored under id 1, the second is refused by the UNIQUE
   * constraint and stores nothing.
   */
  lemma RegisterSameNameTwice(a: RegistrationForm, b: RegistrationForm, hash: string -> string)
    requires Validate(Stripped(a)).None? && Validate(Stripped(b)).None?
    requires Strip(a.username) == Strip(b.username)
    ensures Registering(UserTable(map[], 0), Stripped(a), hash).0 == Registered(1)
    ensures Registering(Registering(UserTable(map[], 0), Stripped(a), hash).1, Stripped(b), hash) ==
              (Rejected(AlreadyRegistered), Registering(UserTable(map[], 0), Stripped(a), hash).1)
  {
    var t := Registering(UserTable(map[], 0), Stripped(a), hash).1;
    assert 1 in t.users && t.users[1].username == Stripped(b).username;
  }

  class Accounts {
    var users: map<int, User>
    var userSeq: nat

    ghost function Table(): UserTable
      reads this
    {
      UserTable(users, userSeq)
    }

    ghost predicate Valid()
      reads this
    {
      ValidTable(Table())
    }

    /** A fresh, empty `users` table. */
    constructor ()
      ensures Valid() && users == map[] && userSeq == 0
    {
      users := map[];
      userSeq := 0;
    }

    /** The register branch, which changes the table as `Registering` says. */
    method Register(form: RegistrationForm, hash: string -> string) returns (outcome: Registration)
      requires Valid()
      modifies this
      ensures Valid()
      ensures (outcome, Table()) == Registering(old(Table()), Stripped(form), hash)
    {
      var f := Stripped(form);
      var rejection := Validate(f);
      if rejection.Some? {
        return Rejected(rejection.value);
      }
      if Taken(users, f.username, f.email) {
        return Rejected(AlreadyRegistered);
      }
      var id := Insert(User(f.username, f.email, hash(f.password)));
      return Registered(id);
    }

    /** `INSERT INTO users`: the next AUTOINCREMENT id, for an account the UNIQUE constraints admit. */
    method Insert(user: User) returns (id: int)
      requires Valid()
      requires !Taken(users, user.username, user.email)
      modifies this
      ensures Valid()
      ensures id == old(userSeq) + 1 && userSeq == id
      ensures users == old(users)[id := user]
    {
      id := userSeq + 1;
      InsertUntaken(users, id, user);
      users := users[id := user];
      userSeq := id;
    }

    /**
     * The login branch: the user with the stripped username, if any, whose
     * stored hash accepts the stripped password. Unknown user and wrong
     * password give the same answer.
     */
    method Login(username: string, password: string, verify: (string, string) -> bool)
      returns (session: Option<Session>)
      requires Valid()
      ensures session.Some? <==>
                exists k :: k in users && users[k].username == Strip(username) &&
                  verify(users[k].passwordHash, Strip(password))
      ensures session.Some? ==>
                session.value.userId in users && session.value.username == Strip(username) &&
                users[session.value.userId].username == Strip(username)
    {
      var name := Strip(username);
      if !exists k :: k in users && users[k].username == name {
        return None;
      }
      var k :| k in users && users[k].username == name;
      if verify(users[k].passwordHash, Strip(password)) {
        return Some(Session(k, name));
      }
      return None;
    }
  }
}
