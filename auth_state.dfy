/**
 * The authentication context's state as a value, and each of its operations
 * as a transition on that value. The provider class in module AuthContext
 * performs the same transitions in place; the lemmas here are about
 * arbitrary sequences of calls.
 */
module AuthState {
  import opened Wrappers
  import opened SimpleHash
  import opened CookieText
  import opened Credentials

  /**
   * `users` is the `userCredentials` entry, `currentUser` the `authUser`
   * entry of local storage, `authCookie` the value last written to the
   * `authUser` cookie (None once removed), `storage` every other entry of
   * local storage (the `posts_<username>` lists, as JSON text).
   */
  datatype State = State(
    users: seq<User>,
    currentUser: Option<string>,
    authCookie: Option<string>,
    storage: map<string, string>)

  /** The boolean an operation resolves to, and the state it leaves. */
  datatype Reply = Reply(ok: bool, next: State)

  /** The storage key of a user's posts. */
  function PostsKey(username: string): string {
    "posts_" + username
  }

  /** The state on first load: no stored session, the seeded account list. */
  function Initial(): (s: State)
    ensures Distinct(s.users) && s.currentUser == None
  {
    State(SeedUsers(), None, None, map[])
  }

  /** `login`: succeeds when the first record named `username` stores the digest of `password`. */
  function Login(s: State, username: string, password: seq<CodeUnit>): (r: Reply)
    ensures r.ok <==> exists k :: FirstNamed(s.users, username, k)
                                  && s.users[k].passwordHash == HashText(password)
    ensures r.ok ==> r.next == s.(currentUser := Some(username), authCookie := Some(username))
    ensures !r.ok ==> r.next == s
  {
    var found := Find(s.users, username);
    if found.Some? && found.value.passwordHash == HashText(password) then
      Reply(true, s.(currentUser := Some(username), authCookie := Some(username)))
    else
      Reply(false, s)
  }

  /** `signup`: refuses a taken username, otherwise appends a record with an empty bio. */
  function Signup(s: State, username: string, password: seq<CodeUnit>): (r: Reply)
    ensures r.ok <==> Absent(s.users, username)
    ensures r.ok ==> r.next == s.(users := s.users + [User(username, HashText(password), Some(""))],
                                  storage := s.storage[PostsKey(username) := "[]"])
    ensures !r.ok ==> r.next == s
  {
    if Find(s.users, username).Some? then
      Reply(false, s)
    else
      var user := User(username, HashText(password), Some(""));
      Reply(true, s.(users := s.users + [user], storage := s.storage[PostsKey(username) := "[]"]))
  }

  /** `logout`: ends the session; credentials and stored posts stay. */
  function Logout(s: State): (t: State)
    ensures t.currentUser == None && t.authCookie == None
    ensures t.users == s.users && t.storage == s.storage
  {
    s.(currentUser := None, authCookie := None)
  }

  /** `updateUserBio`: replaces the bio of the first record named `username`. */
  function UpdateUserBio(s: State, username: string, bio: string): (r: Reply)
    ensures r.ok <==> !Absent(s.users, username)
    ensures !r.ok ==> r.next == s
    ensures r.next.currentUser == s.currentUser && r.next.authCookie == s.authCookie
    ensures r.next.storage == s.storage
    ensures |r.next.users| == |s.users|
    ensures forall k :: 0 <= k < |s.users| ==>
      r.next.users[k] == if FirstNamed(s.users, username, k) then s.users[k].(bio := Some(bio))
                         else s.users[k]
  {
    var i := FindIndex(s.users, username);
    if i == -1 then
      Reply(false, s)
    else
      var updated := s.users[i := s.users[i].(bio := Some(bio))];
      assert forall k :: 0 <= k < |s.users| && FirstNamed(s.users, username, k) ==> k == i;
      Reply(true, s.(users := updated))
  }

  /** JavaScript truthiness of a string that may be absent. */
  predicate Truthy(v: Option<string>) {
    v.Some? && v.value != ""
  }

  /**
   * The mount effect: the `authUser` cookie value is adopted as the current
   * user when it is non-empty and no (non-empty) current user is stored.
   */
  function AdoptCookie(s: State, documentCookie: string): (t: State)
    ensures t.users == s.users && t.authCookie == s.authCookie && t.storage == s.storage
    ensures Truthy(s.currentUser) || !Truthy(CookieValue(documentCookie)) ==> t == s
    ensures Truthy(CookieValue(documentCookie)) && !Truthy(s.currentUser) ==>
      t.currentUser == CookieValue(documentCookie) && Truthy(t.currentUser)
  {
    var cookieValue := CookieValue(documentCookie);
    if Truthy(cookieValue) && !Truthy(s.currentUser) then s.(currentUser := cookieValue) else s
  }

  /** The calls a page can make on the context. */
  datatype Op =
    | LoginOp(username: string, password: seq<CodeUnit>)
    | SignupOp(username: string, password: seq<CodeUnit>)
    | LogoutOp
    | UpdateBioOp(username: string, bio: string)

  function Apply(s: State, op: Op): State {
    match op
    case LoginOp(u, p) => Login(s, u, p).next
    case SignupOp(u, p) => Signup(s, u, p).next
    case LogoutOp => Logout(s)
    case UpdateBioOp(u, b) => UpdateUserBio(s, u, b).next
  }

  function Run(s: State, ops: seq<Op>): State
    decreases |ops|
  {
    if ops == [] then s else Run(Apply(s, ops[0]), ops[1..])
  }

  /** One call keeps usernames distinct, and keeps every record's username and digest in place. */
  lemma ApplyKeepsRecords(s: State, op: Op)
    ensures Distinct(s.users) ==> Distinct(Apply(s, op).users)
    ensures |s.users| <= |Apply(s, op).users|
    ensures forall k :: 0 <= k < |s.users| ==>
      Apply(s, op).users[k].username == s.users[k].username
      && Apply(s, op).users[k].passwordHash == s.users[k].passwordHash
    ensures s.storage.Keys <= Apply(s, op).storage.Keys
  {
    var t := Apply(s, op);
    if op.SignupOp? && Signup(s, op.username, op.password).ok && Distinct(s.users) {
      forall i, j | 0 <= i < j < |t.users| ensures t.users[i].username != t.users[j].username {
        if j == |s.users| {
          assert t.users[j].username == op.username;
          assert t.users[i] == s.users[i];
        }
      }
    }
  }

  /** Any sequence of calls keeps usernames distinct and never removes or renames a record. */
  lemma {:induction false} RunKeepsRecords(s: State, ops: seq<Op>)
    ensures Distinct(s.users) ==> Distinct(Run(s, ops).users)
    ensures |s.users| <= |Run(s, ops).users|
    ensures forall k :: 0 <= k < |s.users| ==>
      Run(s, ops).users[k].username == s.users[k].username
      && Run(s, ops).users[k].passwordHash == s.users[k].passwordHash
    ensures s.storage.Keys <= Run(s, ops).storage.Keys
    decreases |ops|
  {
    if ops != [] {
      ApplyKeepsRecords(s, ops[0]);
      RunKeepsRecords(Apply(s, ops[0]), ops[1..]);
    }
  }

  /** From the seeded list, usernames stay pairwise distinct and `admin` stays first. */
  lemma FromInitialDistinct(ops: seq<Op>)
    ensures Distinct(Run(Initial(), ops).users)
    ensures |Run(Initial(), ops).users| >= 1 && Run(Initial(), ops).users[0].username == "admin"
  {
    RunKeepsRecords(Initial(), ops);
  }

  /** With distinct usernames, login succeeds exactly when some record matches name and digest. */
  lemma LoginIffStored(s: State, username: string, password: seq<CodeUnit>)
    requires Distinct(s.users)
    ensures Login(s, username, password).ok <==>
      exists k :: 0 <= k < |s.users| && s.users[k].username == username
                  && s.users[k].passwordHash == HashText(password)
  {
    if exists k :: 0 <= k < |s.users| && s.users[k].username == username
                   && s.users[k].passwordHash == HashText(password) {
      var k :| 0 <= k < |s.users| && s.users[k].username == username
               && s.users[k].passwordHash == HashText(password);
      DistinctFirstNamed(s.users, username, k);
    }
  }

  /**
   * After a successful signup, logging in with the same password succeeds,
   * another password succeeds exactly when its 32-bit digest collides, and a
   * second signup under the same name fails.
   */
  lemma SignupThenLogin(s: State, username: string, password: seq<CodeUnit>, other: seq<CodeUnit>)
    requires Absent(s.users, username)
    ensures Signup(s, username, password).ok
    ensures Login(Signup(s, username, password).next, username, password).ok
    ensures Login(Signup(s, username, password).next, username, other).ok <==>
            ToInt32(Poly(other)) == ToInt32(Poly(password))
    ensures !Signup(Signup(s, username, password).next, username, other).ok
  {
    var t := Signup(s, username, password).next;
    var k := |s.users|;
    assert t.users[k].username == username;
    assert FirstNamed(t.users, username, k) by {
      forall j | 0 <= j < k ensures t.users[j].username != username {
        assert t.users[j] == s.users[j];
      }
    }
    forall i | FirstNamed(t.users, username, i) ensures i == k {
      FirstNamedUnique(t.users, username, i, k);
    }
    HashTextEqualIff(other, password);
  }

  /** Logging out and back in restores the session without touching records or stored posts. */
  lemma LogoutThenLogin(s: State, username: string, password: seq<CodeUnit>)
    requires Login(s, username, password).ok
    ensures var t := Login(Logout(s), username, password);
      t.ok && t.next.currentUser == Some(username) && t.next.users == s.users
      && t.next.storage == s.storage
  {
    var k :| FirstNamed(s.users, username, k) && s.users[k].passwordHash == HashText(password);
    assert FirstNamed(Logout(s).users, username, k);
  }

  /** The seeded `admin`/`password` account can log in on first load. */
  lemma AdminCanLogIn()
    ensures Login(Initial(), "admin", AdminPassword).ok
  {
    assert FirstNamed(Initial().users, "admin", 0);
  }

  /**
   * A login whose username holds neither `=` nor `; ` survives a cleared
   * `authUser` storage entry: the cookie it wrote is adopted on the next mount,
   * among any other cookies, as long as none before it is an `authUser` row.
   */
  lemma CookieRestoresSession(s: State, username: string, password: seq<CodeUnit>,
                              before: seq<string>, after: seq<string>)
    requires Login(s, username, password).ok
    requires username != "" && '=' !in username && Free(username, "; ")
    requires forall k :: 0 <= k < |before| ==> Free(before[k], "; ") && !(AuthCookieRow <= before[k])
    ensures var cleared := Login(s, username, password).next.(currentUser := None);
      var documentCookie := Join(before + [AuthCookieRow + username] + after, "; ");
      AdoptCookie(cleared, documentCookie).currentUser == Some(username)
  {
    CookieValueAmongRows(before, username, after);
  }
}
