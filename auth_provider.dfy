/**
 * The `AuthProvider` component as an object: its two local-storage-backed
 * state variables, the `authUser` cookie it writes, and the local-storage
 * entries it writes besides those. Each method changes the fields in place
 * and is proved to perform the transition of module AuthState.
 */
module AuthContext {
  import opened Wrappers
  import opened SimpleHash
  import opened Credentials
  import CookieText
  import AS = AuthState

  class AuthProvider {
    var users: seq<User>
    var currentUser: Option<string>
    var authCookie: Option<string>
    var storage: map<string, string>

    function Snapshot(): AS.State
      reads this
    {
      AS.State(users, currentUser, authCookie, storage)
    }

    /**
     * Mounting the provider: `authUser` and `userCredentials` take their stored
     * values, or null and the seeded admin list when the keys are absent.
     */
    constructor (storedUser: Option<string>, storedUsers: Option<seq<User>>,
                 otherEntries: map<string, string>, cookie: Option<string>)
      ensures users == (if storedUsers.Some? then storedUsers.value else SeedUsers())
      ensures currentUser == storedUser && authCookie == cookie && storage == otherEntries
      ensures storedUsers.None? ==> Distinct(users)
    {
      users := if storedUsers.Some? then storedUsers.value else SeedUsers();
      currentUser := storedUser;
      authCookie := cookie;
      storage := otherEntries;
    }

    /** The mount effect that reconciles the stored session with the `authUser` cookie. */
    method SyncFromCookie(documentCookie: string)
      modifies this
      ensures Snapshot() == AS.AdoptCookie(old(Snapshot()), documentCookie)
    {
      var cookieValue := CookieText.CookieValue(documentCookie);
      if AS.Truthy(cookieValue) && !AS.Truthy(currentUser) {
        currentUser := cookieValue;
      }
    }

    method Login(username: string, pass: seq<CodeUnit>) returns (ok: bool)
      modifies this
      ensures AS.Reply(ok, Snapshot()) == AS.Login(old(Snapshot()), username, pass)
    {
      var userExists := Find(users, username);
      var digest := Digest(pass);
      if userExists.Some? && userExists.value.passwordHash == digest {
        currentUser := Some(username);
        authCookie := Some(username);
        return true;
      }
      return false;
    }

    method Signup(username: string, pass: seq<CodeUnit>) returns (ok: bool)
      modifies this
      ensures AS.Reply(ok, Snapshot()) == AS.Signup(old(Snapshot()), username, pass)
      ensures old(Distinct(users)) ==> Distinct(users)
    {
      var userExists := Find(users, username);
      if userExists.Some? {
        return false;
      }
      var digest := Digest(pass);
      var newUser := User(username, digest, Some(""));
      users := users + [newUser];
      storage := storage[AS.PostsKey(username) := "[]"];
      AS.ApplyKeepsRecords(old(Snapshot()), AS.SignupOp(username, pass));
      return true;
    }

    method Logout()
      modifies this
      ensures Snapshot() == AS.Logout(old(Snapshot()))
    {
      currentUser := None;
      authCookie := None;
    }

    method UpdateUserBio(username: string, bio: string) returns (ok: bool)
      modifies this
      ensures AS.Reply(ok, Snapshot()) == AS.UpdateUserBio(old(Snapshot()), username, bio)
      ensures old(Distinct(users)) ==> Distinct(users)
    {
      var userIndex := FindIndex(users, username);
      if userIndex == -1 {
        return false;
      }
      var updatedUsers := users;
      updatedUsers := updatedUsers[userIndex := updatedUsers[userIndex].(bio := Some(bio))];
      users := updatedUsers;
      AS.ApplyKeepsRecords(old(Snapshot()), AS.UpdateBioOp(username, bio));
      return true;
    }
  }
}
