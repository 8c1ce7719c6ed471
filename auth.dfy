/** The credential store of app/auth.ts: the two input validators, the
    lowercase-hex rendering of the password digest, and sign-up, sign-in,
    current-user lookup and sign-out over an account table keyed by email and a
    single session slot with an expiry time.

    The SHA-256 digest is a deterministic function the store is given
    (`digest`); nothing else about it is assumed. Identifiers and the current
    time in milliseconds are parameters. */
module Auth {
  import opened Wrappers
  import opened JsText

  type byte = b: int | 0 <= b < 256

  /** A SHA-256 digest: 32 bytes. */
  type Digest = s: seq<byte> | |s| == 32 witness seq(32, _ => 0)

  // ---------------------------------------------------------------------------
  // validateEmail: /^[^\s@]+@[^\s@]+\.[^\s@]+$/

  /** A string matched by `[^\s@]+`. */
  ghost predicate Plain(s: string) {
    s != [] && forall k :: 0 <= k < |s| ==> !IsSpace(s[k]) && s[k] != '@'
  }

  /** The language of the email pattern: `A@B.C` with `A`, `B` and `C`
      matched by `[^\s@]+` (so `B` may itself contain dots). */
  ghost predicate EmailPattern(s: string) {
    exists i, j :: 0 <= i < j < |s| && s[i] == '@' && s[j] == '.'
      && Plain(s[..i]) && Plain(s[i + 1..j]) && Plain(s[j + 1..])
  }

  /** The index of the first `c` in `s`, or `|s|` when there is none. */
  function IndexOf(s: string, c: char): (n: nat)
    ensures n <= |s|
    ensures forall k :: 0 <= k < n ==> s[k] != c
    ensures n < |s| ==> s[n] == c
  {
    if s == [] || s[0] == c then 0 else 1 + IndexOf(s[1..], c)
  }

  /** `validateEmail`, decided in one pass over the string rather than by
      backtracking: no whitespace, a first '@' that is not the first character
      and is the only one, and a '.' with at least one character on each side
      of it after the '@'. */
  function ValidateEmail(email: string): bool {
    var at := IndexOf(email, '@');
    && 0 < at < |email|
    && (forall k | 0 <= k < |email| :: !IsSpace(email[k]))
    && (forall k | at < k < |email| :: email[k] != '@')
    && (exists k | at + 1 < k < |email| - 1 :: email[k] == '.')
  }

  /** The one-pass check accepts exactly the language of the pattern. */
  lemma ValidateEmailIff(email: string)
    ensures ValidateEmail(email) <==> EmailPattern(email)
  {
    if ValidateEmail(email) {
      var i := IndexOf(email, '@');
      var j :| i + 1 < j < |email| - 1 && email[j] == '.';
      assert Plain(email[..i]);
      assert Plain(email[i + 1..j]);
      assert Plain(email[j + 1..]);
    }
    if EmailPattern(email) {
      var i, j :| 0 <= i < j < |email| && email[i] == '@' && email[j] == '.'
        && Plain(email[..i]) && Plain(email[i + 1..j]) && Plain(email[j + 1..]);
      EmailPatternParts(email, i, j);
    }
  }

  /** What a decomposition `A@B.C` says about each index of the string. */
  lemma EmailPatternParts(s: string, i: int, j: int)
    requires 0 <= i < j < |s| && s[i] == '@' && s[j] == '.'
    requires Plain(s[..i]) && Plain(s[i + 1..j]) && Plain(s[j + 1..])
    ensures 0 < i && i + 1 < j < |s| - 1
    ensures IndexOf(s, '@') == i
    ensures forall k :: 0 <= k < |s| ==> !IsSpace(s[k])
    ensures forall k :: 0 <= k < |s| && k != i ==> s[k] != '@'
  {
    forall k | 0 <= k < |s| && k != i ensures !IsSpace(s[k]) && s[k] != '@' {
      if k < i {
        assert s[k] == s[..i][k];
      } else if k < j {
        assert s[k] == s[i + 1..j][k - i - 1];
      } else if k > j {
        assert s[k] == s[j + 1..][k - j - 1];
      }
    }
  }

  /** Every accepted email holds exactly one '@', and the part after it holds
      a '.' with at least one character on each side. */
  lemma AcceptedEmailShape(email: string)
    requires ValidateEmail(email)
    ensures exists i ::
      && 0 < i < |email| && email[i] == '@'
      && (forall k :: 0 <= k < |email| && email[k] == '@' ==> k == i)
      && (exists j :: i + 1 < j < |email| - 1 && email[j] == '.')
  {
    ValidateEmailIff(email);
    var i, j :| 0 <= i < j < |email| && email[i] == '@' && email[j] == '.'
      && Plain(email[..i]) && Plain(email[i + 1..j]) && Plain(email[j + 1..]);
    EmailPatternParts(email, i, j);
  }

  // ---------------------------------------------------------------------------
  // validatePassword: /^(?=.*[a-z])(?=.*[A-Z])(?=.*\d).{8,}$/

  ghost predicate NoLineTerminator(s: string) {
    forall k :: 0 <= k < |s| ==> !IsLineTerminator(s[k])
  }

  /** The lookahead `(?=.*X)`: some character satisfies `X` and `.` can reach it. */
  ghost predicate LooksAhead(s: string, x: char -> bool) {
    exists k :: 0 <= k < |s| && NoLineTerminator(s[..k]) && x(s[k])
  }

  /** The language of the password pattern, lookahead by lookahead. */
  ghost predicate PasswordPattern(p: string) {
    && LooksAhead(p, IsAsciiLower)
    && LooksAhead(p, IsAsciiUpper)
    && LooksAhead(p, IsAsciiDigit)
    && |p| >= 8 && NoLineTerminator(p)
  }

  ghost predicate Has(s: string, x: char -> bool) {
    exists k :: 0 <= k < |s| && x(s[k])
  }

  /** One left-to-right pass that remembers which character classes it has seen. */
  function ScanPassword(p: string, lower: bool, upper: bool, digit: bool): bool {
    if p == [] then lower && upper && digit
    else
      && !IsLineTerminator(p[0])
      && ScanPassword(p[1..], lower || IsAsciiLower(p[0]), upper || IsAsciiUpper(p[0]),
                      digit || IsAsciiDigit(p[0]))
  }

  /** `validatePassword`. */
  function ValidatePassword(password: string): bool {
    |password| >= 8 && ScanPassword(password, false, false, false)
  }

  lemma {:induction false} ScanPasswordIff(p: string, lower: bool, upper: bool, digit: bool)
    ensures ScanPassword(p, lower, upper, digit) <==>
      NoLineTerminator(p) && (lower || Has(p, IsAsciiLower))
      && (upper || Has(p, IsAsciiUpper)) && (digit || Has(p, IsAsciiDigit))
  {
    if p != [] {
      var c := p[0];
      ScanPasswordIff(p[1..], lower || IsAsciiLower(c), upper || IsAsciiUpper(c),
                      digit || IsAsciiDigit(c));
      assert forall k :: 0 < k < |p| ==> p[k] == p[1..][k - 1];
      assert forall x: char -> bool :: Has(p, x) <==> x(c) || Has(p[1..], x) by {
        forall x: char -> bool ensures Has(p, x) <==> x(c) || Has(p[1..], x) {
          if Has(p[1..], x) {
            var k :| 0 <= k < |p[1..]| && x(p[1..][k]);
            assert x(p[k + 1]);
          }
        }
      }
      assert NoLineTerminator(p) <==> !IsLineTerminator(c) && NoLineTerminator(p[1..]);
    }
  }

  /** `validatePassword` accepts exactly the language of its pattern, which is:
      at least 8 characters, none of them a line terminator, with an ASCII
      lower-case letter, an ASCII upper-case letter and an ASCII digit. */
  lemma ValidatePasswordIff(p: string)
    ensures ValidatePassword(p) <==> PasswordPattern(p)
    ensures PasswordPattern(p) <==>
      |p| >= 8 && NoLineTerminator(p)
      && Has(p, IsAsciiLower) && Has(p, IsAsciiUpper) && Has(p, IsAsciiDigit)
  {
    ScanPasswordIff(p, false, false, false);
    if NoLineTerminator(p) {
      forall x: char -> bool | Has(p, x) ensures LooksAhead(p, x) {
        var k :| 0 <= k < |p| && x(p[k]);
        assert NoLineTerminator(p[..k]);
      }
    }
  }

  // ---------------------------------------------------------------------------
  // hashPassword: each digest byte as `b.toString(16).padStart(2, '0')`, joined

  function HexDigit(d: int): char
    requires 0 <= d < 16
  {
    if d < 10 then ('0' as int + d) as char else ('a' as int + d - 10) as char
  }

  predicate IsLowerHexDigit(c: char) {
    '0' <= c <= '9' || 'a' <= c <= 'f'
  }

  function HexValue(c: char): (d: int)
    requires IsLowerHexDigit(c)
    ensures 0 <= d < 16 && HexDigit(d) == c
  {
    if c <= '9' then c as int - '0' as int else c as int - 'a' as int + 10
  }

  /** `Number.prototype.toString(16)` on a non-negative integer. */
  function ToRadix16(n: nat): string {
    if n < 16 then [HexDigit(n)] else ToRadix16(n / 16) + [HexDigit(n % 16)]
  }

  /** `String.prototype.padStart(width, fill)` with a one-character fill. */
  function PadStart(s: string, width: nat, fill: char): string {
    if |s| >= width then s else seq(width - |s|, _ => fill) + s
  }

  function ByteToHex(b: byte): string {
    PadStart(ToRadix16(b), 2, '0')
  }

  /** Every byte renders as exactly two lower-case hex digits, high nibble first. */
  lemma ByteToHexDigits(b: byte)
    ensures ByteToHex(b) == [HexDigit(b / 16), HexDigit(b % 16)]
  {
    if b < 16 {
      assert ToRadix16(b) == [HexDigit(b)];
    } else {
      assert ToRadix16(b / 16) == [HexDigit(b / 16)];
    }
  }

  /** The `map` and `join('')` of `hashPassword`. */
  function Hex(bytes: seq<byte>): string {
    if bytes == [] then "" else ByteToHex(bytes[0]) + Hex(bytes[1..])
  }

  predicate IsLowerHex(s: string) {
    forall k :: 0 <= k < |s| ==> IsLowerHexDigit(s[k])
  }

  /** Reads back a string of lower-case hex digit pairs. */
  function Unhex(s: string): Option<seq<byte>> {
    if s == [] then Some([])
    else if |s| == 1 || !IsLowerHexDigit(s[0]) || !IsLowerHexDigit(s[1]) then None
    else
      match Unhex(s[2..])
      case None => None
      case Some(rest) => Some([16 * HexValue(s[0]) + HexValue(s[1])] + rest)
  }

  lemma {:induction false} HexShape(bytes: seq<byte>)
    ensures |Hex(bytes)| == 2 * |bytes| && IsLowerHex(Hex(bytes))
  {
    if bytes != [] {
      ByteToHexDigits(bytes[0]);
      HexShape(bytes[1..]);
    }
  }

  /** Decoding the hex rendering gives the bytes back. */
  lemma {:induction false} UnhexHex(bytes: seq<byte>)
    ensures Unhex(Hex(bytes)) == Some(bytes)
  {
    if bytes != [] {
      var b := bytes[0];
      ByteToHexDigits(b);
      var s := Hex(bytes);
      assert s == [HexDigit(b / 16), HexDigit(b % 16)] + Hex(bytes[1..]);
      assert s[2..] == Hex(bytes[1..]);
      assert IsLowerHexDigit(s[0]) && IsLowerHexDigit(s[1]);
      assert HexValue(s[0]) == b / 16 && HexValue(s[1]) == b % 16;
      UnhexHex(bytes[1..]);
      assert 16 * (b / 16) + b % 16 == b;
      assert Unhex(s) == Some([b] + bytes[1..]);
      assert [b] + bytes[1..] == bytes;
    }
  }

  /** Different digests never render to the same string. */
  lemma HexInjective(a: seq<byte>, b: seq<byte>)
    requires Hex(a) == Hex(b)
    ensures a == b
  {
    UnhexHex(a);
    UnhexHex(b);
  }

  /** `hashPassword`: the digest as 64 lower-case hex digits. */
  function HashPassword(digest: string -> Digest, password: string): (h: string)
    ensures |h| == 64 && IsLowerHex(h)
    ensures Unhex(h) == Some(digest(password))
  {
    HexShape(digest(password));
    UnhexHex(digest(password));
    Hex(digest(password))
  }

  // ---------------------------------------------------------------------------
  // Accounts, sessions and the four operations

  /** What callers see of an account: no password digest. */
  datatype User = User(id: string, email: string)

  /** A record of the `users` table, keyed by `email`; `password` holds the digest. */
  datatype Account = Account(id: string, email: string, password: string)

  datatype Session = Session(user: User, expiresAt: int)

  datatype AuthError =
    | InvalidEmailFormat | WeakPassword | EmailAlreadyExists | UserNotFound | InvalidPassword
  {
    function Message(): string {
      match this
      case InvalidEmailFormat => "Invalid email format"
      case WeakPassword => "Password must be at least 8 characters long and contain at least one uppercase letter, one lowercase letter, and one number"
      case EmailAlreadyExists => "Email already exists"
      case UserNotFound => "User not found"
      case InvalidPassword => "Invalid password"
    }
  }

  /** 24 hours in milliseconds. */
  const SessionLifetime: int := 24 * 60 * 60 * 1000

  /** The account table and the session slot. */
  datatype AuthState = AuthState(accounts: map<string, Account>, session: Option<Session>)

  /** Every record sits under its own email, which passed validation, and holds
      a 64-digit lower-case hex digest. */
  ghost predicate WellFormed(accounts: map<string, Account>) {
    forall e :: e in accounts ==>
      accounts[e].email == e && EmailPattern(e)
      && |accounts[e].password| == 64 && IsLowerHex(accounts[e].password)
  }

  /** `signUp`: the email check, then the password check, then the
      duplicate check; any rejection leaves the table and the session as they
      were. */
  function SignUpStep(st: AuthState, digest: string -> Digest, email: string, password: string,
                      id: string, now: int): (out: (Result<User, AuthError>, AuthState))
    ensures !EmailPattern(email) ==> out == (Err(InvalidEmailFormat), st)
    ensures EmailPattern(email) && !PasswordPattern(password) ==> out == (Err(WeakPassword), st)
    ensures EmailPattern(email) && PasswordPattern(password) && email in st.accounts ==>
      out == (Err(EmailAlreadyExists), st)
    ensures out.0.Ok? <==> EmailPattern(email) && PasswordPattern(password) && email !in st.accounts
    ensures out.0.Ok? ==>
      && out.0.value == User(id, email)
      && out.1.accounts == st.accounts[email := Account(id, email, HashPassword(digest, password))]
      && out.1.session == Some(Session(User(id, email), now + SessionLifetime))
  {
    ValidateEmailIff(email);
    ValidatePasswordIff(password);
    if !ValidateEmail(email) then (Err(InvalidEmailFormat), st)
    else if !ValidatePassword(password) then (Err(WeakPassword), st)
    else
      var hashed := HashPassword(digest, password);
      var user := User(id, email);
      if email in st.accounts then (Err(EmailAlreadyExists), st)
      else
        var accounts := st.accounts[email := Account(id, email, hashed)];
        (Ok(user), AuthState(accounts, Some(Session(user, now + SessionLifetime))))
  }

  /** `signIn`: only the email format is validated; the table is read, never
      written; a success replaces the session with a fresh 24-hour one. */
  function SignInStep(st: AuthState, digest: string -> Digest, email: string, password: string,
                      now: int): (out: (Result<User, AuthError>, AuthState))
    ensures out.1.accounts == st.accounts
    ensures !EmailPattern(email) ==> out == (Err(InvalidEmailFormat), st)
    ensures EmailPattern(email) && email !in st.accounts ==> out == (Err(UserNotFound), st)
    ensures
      (EmailPattern(email) && email in st.accounts
       && st.accounts[email].password != HashPassword(digest, password))
      ==> out == (Err(InvalidPassword), st)
    ensures out.0.Ok? <==>
      EmailPattern(email) && email in st.accounts
      && st.accounts[email].password == HashPassword(digest, password)
    ensures out.0.Ok? ==>
      && out.0.value == User(st.accounts[email].id, st.accounts[email].email)
      && out.1.session == Some(Session(out.0.value, now + SessionLifetime))
    ensures WellFormed(st.accounts) && out.0.Ok? ==> out.0.value.email == email
  {
    ValidateEmailIff(email);
    if !ValidateEmail(email) then (Err(InvalidEmailFormat), st)
    else
      var hashed := HashPassword(digest, password);
      if email !in st.accounts then (Err(UserNotFound), st)
      else
        var account := st.accounts[email];
        if account.password != hashed then (Err(InvalidPassword), st)
        else
          var user := User(account.id, account.email);
          (Ok(user), AuthState(st.accounts, Some(Session(user, now + SessionLifetime))))
  }

  /** `getCurrentUser`: an expired session is dropped on read. */
  function CurrentUserStep(st: AuthState, now: int): (out: (Option<User>, AuthState))
    ensures out.1.accounts == st.accounts
    ensures out.0.Some? <==> st.session.Some? && now <= st.session.value.expiresAt
    ensures out.0.Some? ==> out.0.value == st.session.value.user && out.1 == st
    ensures st.session.Some? && now > st.session.value.expiresAt ==> out.1.session == None
    ensures st.session.None? ==> out.1 == st
  {
    match st.session
    case None => (None, st)
    case Some(session) =>
      if now > session.expiresAt then (None, AuthState(st.accounts, None))
      else (Some(session.user), st)
  }

  lemma SignUpKeepsWellFormed(st: AuthState, digest: string -> Digest, email: string,
                              password: string, id: string, now: int)
    requires WellFormed(st.accounts)
    ensures WellFormed(SignUpStep(st, digest, email, password, id, now).1.accounts)
  {
  }

  /** Signing in with the credentials just registered yields the same user and
      a fresh 24-hour session. */
  lemma SignUpThenSignIn(st: AuthState, digest: string -> Digest, email: string, password: string,
                         id: string, t0: int, t1: int)
    requires SignUpStep(st, digest, email, password, id, t0).0.Ok?
    ensures var st1 := SignUpStep(st, digest, email, password, id, t0).1;
      SignInStep(st1, digest, email, password, t1)
        == (Ok(User(id, email)), AuthState(st1.accounts, Some(Session(User(id, email), t1 + SessionLifetime))))
  {
  }

  /** After signing up with `p0`, signing in with `p` succeeds exactly when the
      two passwords have the same digest; otherwise it fails with
      `InvalidPassword`, never with `UserNotFound`. */
  lemma SignInAfterSignUp(st: AuthState, digest: string -> Digest, email: string, p0: string,
                          id: string, t0: int, p: string, t1: int)
    requires SignUpStep(st, digest, email, p0, id, t0).0.Ok?
    ensures var st1 := SignUpStep(st, digest, email, p0, id, t0).1;
      var r := SignInStep(st1, digest, email, p, t1).0;
      (r.Ok? <==> digest(p) == digest(p0)) && (r.Err? ==> r.error == InvalidPassword)
  {
    if HashPassword(digest, p) == HashPassword(digest, p0) {
      HexInjective(digest(p), digest(p0));
    }
  }

  /** A session made at `t0` is visible up to and including `t0 + 24h` and is
      dropped by the first read after that. */
  lemma SessionExpiry(st: AuthState, digest: string -> Digest, email: string, password: string,
                      id: string, t0: int, now: int)
    requires SignUpStep(st, digest, email, password, id, t0).0.Ok?
    ensures var st1 := SignUpStep(st, digest, email, password, id, t0).1;
      var (u, st2) := CurrentUserStep(st1, now);
      && (now <= t0 + SessionLifetime ==> u == Some(User(id, email)) && st2 == st1)
      && (now > t0 + SessionLifetime ==> u == None && st2 == AuthState(st1.accounts, None))
  {
  }

  /** The `users` table and the `minnotes_auth` slot, with the operations of
      app/auth.ts as methods. */
  class CredentialStore {
    const digest: string -> Digest
    var accounts: map<string, Account>
    var session: Option<Session>

    ghost predicate Valid()
      reads this
    {
      WellFormed(accounts)
    }

    function State(): AuthState
      reads this
    {
      AuthState(accounts, session)
    }

    constructor (digest: string -> Digest)
      ensures Valid() && this.digest == digest
      ensures accounts == map[] && session == None
    {
      this.digest := digest;
      accounts := map[];
      session := None;
    }

    method SignUp(email: string, password: string, id: string, now: int)
      returns (r: Result<User, AuthError>)
      requires Valid()
      modifies this
      ensures Valid()
      ensures (r, State()) == SignUpStep(old(State()), digest, email, password, id, now)
    {
      SignUpKeepsWellFormed(State(), digest, email, password, id, now);
      if !ValidateEmail(email) {
        return Err(InvalidEmailFormat);
      }
      if !ValidatePassword(password) {
        return Err(WeakPassword);
      }
      var hashed := HashPassword(digest, password);
      var user := User(id, email);
      // readwrite transaction: look the email up, then add
      if email in accounts {
        return Err(EmailAlreadyExists);
      }
      accounts := accounts[email := Account(id, email, hashed)];
      session := Some(Session(user, now + SessionLifetime));
      return Ok(user);
    }

    method SignIn(email: string, password: string, now: int) returns (r: Result<User, AuthError>)
      requires Valid()
      modifies this`session
      ensures Valid()
      ensures (r, State()) == SignInStep(old(State()), digest, email, password, now)
    {
      if !ValidateEmail(email) {
        return Err(InvalidEmailFormat);
      }
      var hashed := HashPassword(digest, password);
      // readonly transaction
      if email !in accounts {
        return Err(UserNotFound);
      }
      var account := accounts[email];
      if account.password != hashed {
        return Err(InvalidPassword);
      }
      var user := User(account.id, account.email);
      session := Some(Session(user, now + SessionLifetime));
      return Ok(user);
    }

    method GetCurrentUser(now: int) returns (u: Option<User>)
      requires Valid()
      modifies this`session
      ensures Valid()
      ensures (u, State()) == CurrentUserStep(old(State()), now)
    {
      if session.None? {
        return None;
      }
      if now > session.value.expiresAt {
        session := None;
        return None;
      }
      return Some(session.value.user);
    }

    method SignOut()
      requires Valid()
      modifies this`session
      ensures Valid()
      ensures session == None
    {
      session := None;
    }
  }
}
