/** Login sessions with background cleanup (internal/webdash/auth.go). */
module Sessions {
  import opened Wrappers

  /** Seconds on the process's monotonic clock. */
  type Instant = int

  const SESSION_LENGTH: nat := 24 * 3600

  datatype User = User(username: string, password: string, role: string)

  datatype Session = Session(username: string, expiresAt: Instant)

  /** `passed` holds the logins whose credentials were accepted and whose session is not yet entered. */
  datatype State = State(users: map<string, User>, sessions: map<string, Session>, passed: map<nat, string>)

  /** Each step is one stretch of code run under the manager's lock; Authenticate takes it twice. */
  datatype Step =
    | CheckCredentials(login: nat, username: string, password: string)
    | OpenSession(login: nat, token: string, now: Instant)
    | ChangePassword(username: string, oldPass: string, newPass: string)
    | Logout(token: string)
    | Cleanup(now: Instant)

  type Run = seq<Step>

  /** HashPassword, uninterpreted. */
  type Hasher = string -> string

  predicate CredentialsMatch(h: Hasher, users: map<string, User>, username: string, password: string) {
    username in users && users[username].password == h(password)
  }

  function Removed<V>(m: map<string, V>, key: string): map<string, V> {
    map k | k in m && k != key :: m[k]
  }

  function Swept(sessions: map<string, Session>, now: Instant): map<string, Session> {
    map t | t in sessions && now <= sessions[t].expiresAt :: sessions[t]
  }

  function Next(h: Hasher, st: State, step: Step): State {
    match step
    case CheckCredentials(login, username, password) =>
      if CredentialsMatch(h, st.users, username, password) then st.(passed := st.passed[login := username]) else st
    case OpenSession(login, token, now) =>
      if login in st.passed then
        st.(sessions := st.sessions[token := Session(st.passed[login], now + SESSION_LENGTH)],
            passed := st.passed - {login})
      else st
    case ChangePassword(username, oldPass, newPass) =>
      if CredentialsMatch(h, st.users, username, oldPass) then
        st.(users := st.users[username := st.users[username].(password := h(newPass))])
      else st
    case Logout(token) => st.(sessions := Removed(st.sessions, token))
    case Cleanup(now) => st.(sessions := Swept(st.sessions, now))
  }

  function StateAfter(h: Hasher, users: map<string, User>, run: Run): State {
    if run == [] then State(users, map[], map[])
    else Next(h, StateAfter(h, users, run[..|run| - 1]), run[|run| - 1])
  }

  /** ValidateToken: the user of a session that exists and is not past its expiry. */
  function Validate(sessions: map<string, Session>, token: string, now: Instant): Option<string> {
    if token in sessions && !(now > sessions[token].expiresAt) then Some(sessions[token].username) else None
  }

  // ---------------------------------------------------------------- specification by history

  /** Step i enters a session for the token: the second half of a successful Authenticate. */
  ghost predicate OpensAt(h: Hasher, users: map<string, User>, run: Run, i: nat, token: string)
    requires i < |run|
  {
    run[i].OpenSession? && run[i].token == token && run[i].login in StateAfter(h, users, run[..i]).passed
  }

  ghost function OpenedFor(h: Hasher, users: map<string, User>, run: Run, i: nat): string
    requires i < |run| && run[i].OpenSession? && run[i].login in StateAfter(h, users, run[..i]).passed
  {
    StateAfter(h, users, run[..i]).passed[run[i].login]
  }

  /** The token was entered at step i and has been neither entered again nor logged out since. */
  ghost predicate CurrentFrom(h: Hasher, users: map<string, User>, run: Run, i: nat, token: string)
    requires i < |run|
  {
    && OpensAt(h, users, run, i, token)
    && forall j :: i < j < |run| ==> run[j] != Logout(token) && !OpensAt(h, users, run, j, token)
  }

  ghost predicate CleanupsNotAfter(run: Run, now: Instant) {
    forall i :: 0 <= i < |run| && run[i].Cleanup? ==> run[i].now <= now
  }

  lemma OpensInPrefix(h: Hasher, users: map<string, User>, run: Run, i: nat, token: string)
    requires i < |run| - 1
    ensures run[..|run| - 1][..i] == run[..i]
    ensures OpensAt(h, users, run[..|run| - 1], i, token) <==> OpensAt(h, users, run, i, token)
  {
    assert run[..|run| - 1][..i] == run[..i];
  }

  lemma CurrentInPrefix(h: Hasher, users: map<string, User>, run: Run, i: nat, token: string)
    requires i < |run| - 1
    ensures CurrentFrom(h, users, run, i, token) <==>
            && CurrentFrom(h, users, run[..|run| - 1], i, token)
            && run[|run| - 1] != Logout(token) && !OpensAt(h, users, run, |run| - 1, token)
  {
    var p := run[..|run| - 1];
    forall j | 0 <= j < |p|
      ensures OpensAt(h, users, p, j, token) <==> OpensAt(h, users, run, j, token)
    {
      OpensInPrefix(h, users, run, j, token);
    }
    if CurrentFrom(h, users, run, i, token) {
      forall j | i < j < |p|
        ensures p[j] != Logout(token) && !OpensAt(h, users, p, j, token)
      {
        assert run[j] != Logout(token) && !OpensAt(h, users, run, j, token);
      }
    }
    if CurrentFrom(h, users, p, i, token) && run[|p|] != Logout(token) && !OpensAt(h, users, run, |p|, token) {
      forall j | i < j < |run|
        ensures run[j] != Logout(token) && !OpensAt(h, users, run, j, token)
      {
        assert j < |p| ==> p[j] != Logout(token) && !OpensAt(h, users, p, j, token);
      }
    }
  }

  /** A stored session is always the one its token was last entered with. */
  lemma {:induction false} StoredIsCurrent(h: Hasher, users: map<string, User>, run: Run, token: string)
    returns (i: nat)
    requires token in StateAfter(h, users, run).sessions
    ensures i < |run| && CurrentFrom(h, users, run, i, token)
    ensures StateAfter(h, users, run).sessions[token]
            == Session(OpenedFor(h, users, run, i), run[i].now + SESSION_LENGTH)
    decreases run
  {
    assert run != [];
    var last := |run| - 1;
    if OpensAt(h, users, run, last, token) {
      i := last;
    } else {
      SessionStep(h, StateAfter(h, users, run[..last]), run[last], token);
      i := StoredIsCurrent(h, users, run[..last], token);
      CurrentInPrefix(h, users, run, i, token);
      OpensInPrefix(h, users, run, i, token);
    }
  }

  lemma SessionStep(h: Hasher, st: State, step: Step, token: string)
    requires !(step.OpenSession? && step.token == token && step.login in st.passed)
    ensures var s, s' := st.sessions, Next(h, st, step).sessions;
            && (token in s' ==> token in s && s'[token] == s[token] && step != Logout(token))
            && (token in s && token !in s' ==>
                  step == Logout(token) || (step.Cleanup? && step.now > s[token].expiresAt))
  {
  }

  /** A current session that is no longer stored had expired by the latest cleanup. */
  lemma {:induction false} SweptHadExpired(h: Hasher, users: map<string, User>, run: Run, token: string, i: nat,
                                           now: Instant)
    requires i < |run| && CurrentFrom(h, users, run, i, token) && CleanupsNotAfter(run, now)
    requires token !in StateAfter(h, users, run).sessions
    ensures now > run[i].now + SESSION_LENGTH
    decreases run
  {
    var last := |run| - 1;
    var p := run[..last];
    if i == last {
      assert false;
    }
    CurrentInPrefix(h, users, run, i, token);
    SessionStep(h, StateAfter(h, users, p), run[last], token);
    if token in StateAfter(h, users, p).sessions {
      var j := StoredIsCurrent(h, users, p, token);
      OneCurrent(h, users, p, token, i, j);
    } else {
      assert CleanupsNotAfter(p, now);
      SweptHadExpired(h, users, p, token, i, now);
    }
  }

  lemma OneCurrent(h: Hasher, users: map<string, User>, run: Run, token: string, i: nat, j: nat)
    requires i < |run| && j < |run|
    requires CurrentFrom(h, users, run, i, token) && CurrentFrom(h, users, run, j, token)
    ensures i == j
  {
  }

  /**
   * Session refinement. Whenever and however often cleanup runs, a token validates for a user if and only if
   * a successful login entered it for that user at most 24 hours ago and it was not logged out since.
   */
  lemma ValidateExactly(h: Hasher, users: map<string, User>, run: Run, token: string, now: Instant, user: string)
    requires CleanupsNotAfter(run, now)
    ensures Validate(StateAfter(h, users, run).sessions, token, now) == Some(user) <==>
            exists i :: 0 <= i < |run| && CurrentFrom(h, users, run, i, token)
                        && OpenedFor(h, users, run, i) == user && now <= run[i].now + 86_400
  {
    var sessions := StateAfter(h, users, run).sessions;
    if token in sessions {
      var j := StoredIsCurrent(h, users, run, token);
      forall i | 0 <= i < |run| && CurrentFrom(h, users, run, i, token)
        ensures i == j
      {
        OneCurrent(h, users, run, token, i, j);
      }
    } else {
      forall i | 0 <= i < |run| && CurrentFrom(h, users, run, i, token)
        ensures now > run[i].now + SESSION_LENGTH
      {
        SweptHadExpired(h, users, run, token, i, now);
      }
    }
  }

  /** With tokens that are never drawn twice, being logged out is the only way to lose one early. */
  lemma FreshTokens(h: Hasher, users: map<string, User>, run: Run, i: nat, token: string)
    requires i < |run| && OpensAt(h, users, run, i, token)
    requires forall j, k :: 0 <= j < k < |run| && run[j].OpenSession? && run[k].OpenSession? ==>
               run[j].token != run[k].token
    ensures CurrentFrom(h, users, run, i, token) <==> forall j :: i < j < |run| ==> run[j] != Logout(token)
  {
  }

  /** Cleaning up leaves no expired session stored. */
  lemma CleanupLeavesNoneExpired(h: Hasher, users: map<string, User>, run: Run, now: Instant, token: string)
    ensures token in StateAfter(h, users, run + [Cleanup(now)]).sessions
            <==> token in StateAfter(h, users, run).sessions
                 && StateAfter(h, users, run).sessions[token].expiresAt >= now
  {
    assert (run + [Cleanup(now)])[..|run|] == run;
  }

  // ---------------------------------------------------------------- which password is in force

  /** Step i changes the user's password: the old one given was right at that moment. */
  ghost predicate ChangesAt(h: Hasher, users: map<string, User>, run: Run, i: nat, name: string)
    requires i < |run|
  {
    && run[i].ChangePassword? && run[i].username == name
    && CredentialsMatch(h, StateAfter(h, users, run[..i]).users, name, run[i].oldPass)
  }

  ghost predicate LastChangeAt(h: Hasher, users: map<string, User>, run: Run, i: nat, name: string)
    requires i < |run|
  {
    ChangesAt(h, users, run, i, name) && forall j :: i < j < |run| ==> !ChangesAt(h, users, run, j, name)
  }

  ghost predicate NeverChanged(h: Hasher, users: map<string, User>, run: Run, name: string) {
    forall i :: 0 <= i < |run| ==> !ChangesAt(h, users, run, i, name)
  }

  lemma ChangesInPrefix(h: Hasher, users: map<string, User>, run: Run, name: string)
    requires run != []
    ensures forall i :: 0 <= i < |run| - 1 ==>
              (ChangesAt(h, users, run[..|run| - 1], i, name) <==> ChangesAt(h, users, run, i, name))
  {
    var p := run[..|run| - 1];
    forall i | 0 <= i < |p|
      ensures ChangesAt(h, users, p, i, name) <==> ChangesAt(h, users, run, i, name)
    {
      assert p[..i] == run[..i];
    }
  }

  /** One step leaves a user's record alone or, changing the password, keeps everything else of it. */
  lemma RecordStep(h: Hasher, st: State, step: Step, name: string)
    ensures var users' := Next(h, st, step).users;
            && (name in users' <==> name in st.users)
            && (name in users' ==>
                  users'[name] == if step.ChangePassword? && step.username == name
                                     && st.users[name].password == h(step.oldPass)
                                  then User(st.users[name].username, h(step.newPass), st.users[name].role)
                                  else st.users[name])
  {
  }

  /**
   * Over whole runs: a password matches if and only if its hash is that of the user's most recent successful change,
   * or of the password stored at the start when there has been none.
   */
  lemma {:induction false} PasswordExactly(h: Hasher, users: map<string, User>, run: Run, name: string, p: string)
    ensures CredentialsMatch(h, StateAfter(h, users, run).users, name, p) <==>
            || (exists i :: 0 <= i < |run| && LastChangeAt(h, users, run, i, name) && h(run[i].newPass) == h(p))
            || (NeverChanged(h, users, run, name) && name in users && users[name].password == h(p))
  {
    if run != [] {
      var last := |run| - 1;
      var init, st := run[..last], StateAfter(h, users, run[..last]);
      PasswordExactly(h, users, init, name, p);
      ChangesInPrefix(h, users, run, name);
      RecordStep(h, st, run[last], name);
      if ChangesAt(h, users, run, last, name) {
        assert LastChangeAt(h, users, run, last, name);
        LastChangeIsLast(h, users, run, name);
      } else {
        LastChangeKept(h, users, run, name);
      }
    }
  }

  lemma LastChangeIsLast(h: Hasher, users: map<string, User>, run: Run, name: string)
    requires run != [] && ChangesAt(h, users, run, |run| - 1, name)
    ensures forall i :: 0 <= i < |run| && LastChangeAt(h, users, run, i, name) ==> i == |run| - 1
    ensures !NeverChanged(h, users, run, name)
  {
  }

  lemma LastChangeKept(h: Hasher, users: map<string, User>, run: Run, name: string)
    requires run != [] && !ChangesAt(h, users, run, |run| - 1, name)
    ensures NeverChanged(h, users, run, name) <==> NeverChanged(h, users, run[..|run| - 1], name)
    ensures forall i :: 0 <= i < |run| - 1 ==>
              (LastChangeAt(h, users, run, i, name) <==> LastChangeAt(h, users, run[..|run| - 1], i, name))
  {
    ChangesInPrefix(h, users, run, name);
    var init := run[..|run| - 1];
    forall i | 0 <= i < |init|
      ensures LastChangeAt(h, users, run, i, name) <==> LastChangeAt(h, users, init, i, name)
    {
      if LastChangeAt(h, users, init, i, name) {
        forall j | i < j < |run|
          ensures !ChangesAt(h, users, run, j, name)
        {
          assert j < |init| ==> !ChangesAt(h, users, init, j, name);
        }
      }
      if LastChangeAt(h, users, run, i, name) {
        forall j | i < j < |init|
          ensures !ChangesAt(h, users, init, j, name)
        {
          assert !ChangesAt(h, users, run, j, name);
        }
      }
    }
    if NeverChanged(h, users, run, name) {
      forall i | 0 <= i < |init|
        ensures !ChangesAt(h, users, init, i, name)
      {
        assert !ChangesAt(h, users, run, i, name);
      }
    }
  }

  // ---------------------------------------------------------------- who gets a session

  ghost predicate LoggedInAt(h: Hasher, users: map<string, User>, run: Run, k: nat, login: nat, user: string)
    requires k < |run|
  {
    && run[k].CheckCredentials? && run[k].login == login && run[k].username == user
    && CredentialsMatch(h, StateAfter(h, users, run[..k]).users, user, run[k].password)
  }

  /** A login in progress passed the credential check, against the passwords stored at that moment. */
  lemma {:induction false} PassedCheck(h: Hasher, users: map<string, User>, run: Run, login: nat) returns (k: nat)
    requires login in StateAfter(h, users, run).passed
    ensures k < |run| && LoggedInAt(h, users, run, k, login, StateAfter(h, users, run).passed[login])
    decreases run
  {
    assert run != [];
    var last := |run| - 1;
    var st := StateAfter(h, users, run[..last]);
    var user := StateAfter(h, users, run).passed[login];
    if LoggedInAt(h, users, run, last, login, user) {
      k := last;
    } else {
      k := PassedCheck(h, users, run[..last], login);
      assert run[..last][..k] == run[..k];
    }
  }

  /** Every valid token goes back to a password that matched, even if it was changed in the meantime. */
  lemma ValidTokenHadPassword(h: Hasher, users: map<string, User>, run: Run, token: string, now: Instant, user: string)
    requires Validate(StateAfter(h, users, run).sessions, token, now) == Some(user)
    ensures exists k, i :: 0 <= k < i < |run| && CurrentFrom(h, users, run, i, token)
                           && LoggedInAt(h, users, run, k, run[i].login, user)
  {
    var i := StoredIsCurrent(h, users, run, token);
    var k := PassedCheck(h, users, run[..i], run[i].login);
    assert run[..i][..k] == run[..k];
    assert LoggedInAt(h, users, run, k, run[i].login, user);
  }

  // ---------------------------------------------------------------- the manager object

  class AuthManager {
    const hashPassword: Hasher
    var users: map<string, User>
    var sessions: map<string, Session>

    /** NewAuthManager with the users read from the file: a default administrator is added when missing. */
    constructor (hashPassword: Hasher, stored: map<string, User>)
      ensures this.hashPassword == hashPassword && sessions == map[]
      ensures "admin" in users && forall name :: name in stored ==> name in users && users[name] == stored[name]
      ensures "admin" !in stored ==> users == stored["admin" := User("admin", hashPassword("admin"), "admin")]
    {
      this.hashPassword := hashPassword;
      users := if "admin" in stored then stored else stored["admin" := User("admin", hashPassword("admin"), "admin")];
      sessions := map[];
    }

    /** Authenticate with nothing in between its two critical sections; `token` is the random token drawn. */
    method Authenticate(username: string, password: string, token: string, now: Instant) returns (r: Option<string>)
      modifies `sessions
      ensures var login, st := 0, State(users, old(sessions), map[]);
              var done := Next(hashPassword, Next(hashPassword, st, CheckCredentials(login, username, password)),
                               OpenSession(login, token, now));
              sessions == done.sessions
      ensures r == if CredentialsMatch(hashPassword, users, username, password) then Some(token) else None
      ensures r.Some? ==> sessions == old(sessions)[token := Session(username, now + 86_400)]
      ensures r.None? ==> sessions == old(sessions)
    {
      if username !in users || users[username].password != hashPassword(password) {
        return None;
      }
      sessions := sessions[token := Session(username, now + SESSION_LENGTH)];
      return Some(token);
    }

    method ChangeUserPassword(username: string, oldPass: string, newPass: string) returns (ok: bool)
      modifies `users
      ensures ok <==> username in old(users) && old(users)[username].password == hashPassword(oldPass)
      ensures !ok ==> users == old(users)
      ensures ok ==> forall p :: CredentialsMatch(hashPassword, users, username, p)
                                 <==> hashPassword(p) == hashPassword(newPass)
      ensures users.Keys == old(users).Keys
      ensures forall name :: name in users && name != username ==> users[name] == old(users)[name]
      ensures ok ==> users[username].username == old(users)[username].username
                     && users[username].role == old(users)[username].role
      ensures users == Next(hashPassword, State(old(users), sessions, map[]),
                            ChangePassword(username, oldPass, newPass)).users
    {
      if username !in users || users[username].password != hashPassword(oldPass) {
        return false;
      }
      var user := users[username];
      user := user.(password := hashPassword(newPass));
      users := users[username := user];
      return true;
    }

    method ValidateToken(token: string, now: Instant) returns (r: Option<string>)
      ensures r == Validate(sessions, token, now)
    {
      if token !in sessions {
        return None;
      }
      if now > sessions[token].expiresAt {
        return None;
      }
      return Some(sessions[token].username);
    }

    method LogoutToken(token: string)
      modifies `sessions
      ensures sessions == Removed(old(sessions), token) == old(sessions) - {token}
    {
      sessions := map t | t in sessions && t != token :: sessions[t];
    }

    /** One round of the cleanup loop: sessions are visited in some order and expired ones deleted. */
    method CleanupSessions(now: Instant)
      modifies `sessions
      ensures sessions == Swept(old(sessions), now)
      ensures forall t :: t in sessions <==> t in old(sessions) && old(sessions)[t].expiresAt >= now
      ensures forall t :: t in sessions ==> sessions[t] == old(sessions)[t]
    {
      var unvisited := sessions.Keys;
      while unvisited != {}
        invariant unvisited <= old(sessions).Keys
        invariant forall t :: t in sessions <==>
                    t in old(sessions) && (t in unvisited || now <= old(sessions)[t].expiresAt)
        invariant forall t :: t in sessions ==> sessions[t] == old(sessions)[t]
      {
        var t :| t in unvisited;
        unvisited := unvisited - {t};
        if now > sessions[t].expiresAt {
          sessions := map x | x in sessions && x != t :: sessions[x];
        }
      }
    }
  }
}
