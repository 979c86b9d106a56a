/**
 * The user routes of the server that carry logic of their own: the profile update with its
 * allowed-fields validator, the check-by-email query and clear-all. The user collection is
 * an in-memory map; the caller of the profile route is the user the auth middleware loaded.
 */
module UserRoutes {
  import opened Base

  /** A user document, with the fields these routes read or write. */
  datatype User = User(name: string, email: string, password: string, role: string)

  const OK: int := 200
  const BAD_REQUEST: int := 400

  /** The only keys a profile update may carry. */
  const AllowedUpdates: set<string> := {"name", "password"}

  /** `req.user[key] = value` for one body key; keys other than the two allowed ones do not reach here. */
  function ApplyField(u: User, key: string, value: string): User {
    if key == "name" then u.(name := value)
    else if key == "password" then u.(password := value)
    else u
  }

  /** The user after the body keys in `done` have been copied onto it. */
  function Profile(u: User, body: map<string, string>, done: set<string>): (r: User)
    requires done <= body.Keys
    ensures r.name == (if "name" in done then body["name"] else u.name)
    ensures r.password == (if "password" in done then body["password"] else u.password)
    ensures r.email == u.email && r.role == u.role
  {
    u.(name := if "name" in done then body["name"] else u.name,
       password := if "password" in done then body["password"] else u.password)
  }

  /** An empty body changes nothing. */
  lemma EmptyBodyChangesNothing(u: User)
    ensures Profile(u, map[], {}) == u
  {
  }

  /** Applying the same accepted body twice gives the same user as applying it once. */
  lemma ProfileIdempotent(u: User, body: map<string, string>)
    ensures Profile(Profile(u, body, body.Keys), body, body.Keys) == Profile(u, body, body.Keys)
  {
  }

  /** One more key copied onto a partial update extends the partial update. */
  lemma ProfileStep(u: User, body: map<string, string>, done: set<string>, key: string)
    requires done <= body.Keys && key in body && key !in done && key in AllowedUpdates
    ensures ApplyField(Profile(u, body, done), key, body[key]) == Profile(u, body, done + {key})
  {
  }

  class UserStore {
    var users: map<Id, User>

    constructor ()
      ensures users == map[]
    {
      users := map[];
    }

    /**
     * PUT /profile — 400, with nothing changed, unless every body key is `name` or
     * `password`; otherwise exactly the body keys are copied onto the caller.
     */
    method UpdateProfile(caller: Id, body: map<string, string>) returns (code: int)
      requires caller in users
      modifies this
      ensures !(body.Keys <= AllowedUpdates) ==> code == BAD_REQUEST && users == old(users)
      ensures body.Keys <= AllowedUpdates ==>
        code == OK && users == old(users)[caller := Profile(old(users)[caller], body, body.Keys)]
    {
      if !(body.Keys <= AllowedUpdates) {
        return BAD_REQUEST;
      }
      var user := users[caller];
      var pending := body.Keys;
      while pending != {}
        invariant pending <= body.Keys && users == old(users)
        invariant user == Profile(old(users)[caller], body, body.Keys - pending)
        decreases |pending|
      {
        var key :| key in pending;
        ProfileStep(old(users)[caller], body, body.Keys - pending, key);
        assert body.Keys - (pending - {key}) == (body.Keys - pending) + {key};
        user := ApplyField(user, key, body[key]);
        pending := pending - {key};
      }
      assert body.Keys - pending == body.Keys;
      users := users[caller := user];
      code := OK;
    }

    /** GET /check/:email — whether some user has exactly that email. */
    method CheckEmail(email: string) returns (code: int, exists_: bool)
      ensures code == OK
      ensures exists_ <==> exists id :: id in users && users[id].email == email
    {
      code := OK;
      exists_ := exists id | id in users :: users[id].email == email;
    }

    /** DELETE /clear/all — removes every user. */
    method ClearAll() returns (code: int)
      modifies this
      ensures code == OK && users == map[]
    {
      users := map[];
      code := OK;
    }
  }
}
