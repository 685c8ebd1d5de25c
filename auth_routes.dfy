/** The decision logic of the `/register`, `/login` and `/logout` routes over the in-memory store.
    Signing and verifying a token are parameters: `sign` maps a user id to a token and `verify`
    gives the user id a token carries, or `None` when verification fails. */
module AuthRoutes {
  import opened Common
  import opened Entities
  import opened MemoryStorage

  /** The `user` object of a register or login response: it never carries the password. */
  datatype PublicUser = PublicUser(id: UserId, username: string, email: string)

  /** An HTTP response: its status code and the `message`, `token` and `user` of its JSON body. */
  datatype Response = Response(status: nat, message: string, token: Option<Token>, user: Option<PublicUser>)

  /** A 400 answer carrying only a message: no token and no user. */
  function BadRequest(message: string): (r: Response)
    ensures r.status == 400 && r.message == message && r.token.None? && r.user.None?
  {
    Response(400, message, None, None)
  }

  /** The one answer to an unknown email and to a wrong password alike. */
  const InvalidCredentials := BadRequest("Invalid credentials")

  const LoggedOut := Response(200, "Logout successful", None, None)

  /** `jwt.verify` throwing is caught and answered as a server error. */
  const ServerError := Response(500, "Server error", None, None)

  /** `/register`: a known email is refused first, then a known username; otherwise the user is
      created and the response carries its id, username and email and a token for its id. */
  method Register(store: Store, username: string, email: string, password: Option<string>,
                  id: UserId, now: Time, sign: UserId -> Token)
    returns (res: Response)
    requires store.Valid()
    modifies store
    ensures store.Valid()
    ensures store.messages == old(store.messages) && store.history == old(store.history)
    ensures Taken(old(store.users), Email(email)) ==>
      && res == BadRequest("Email already exists")
      && store.users == old(store.users) && store.order == old(store.order)
    ensures !Taken(old(store.users), Email(email)) && Taken(old(store.users), Username(username)) ==>
      && res == BadRequest("Username already exists")
      && store.users == old(store.users) && store.order == old(store.order)
    ensures !Taken(old(store.users), Email(email)) && !Taken(old(store.users), Username(username)) ==>
      && store.users == old(store.users)[id := NewUser(id, username, email, password, now)]
      && store.order == (if id in old(store.users) then old(store.order) else old(store.order) + [id])
      && res == Response(201, "User created successfully", Some(sign(id)), Some(PublicUser(id, username, email)))
  {
    var byEmail := store.FindUserByEmail(email);
    var byUsername := store.FindUserByUsername(username);
    if byEmail.Some? {
      return BadRequest("Email already exists");
    }
    if byUsername.Some? {
      return BadRequest("Username already exists");
    }
    var user := store.CreateUser(username, email, password, id, now);
    res := Response(201, "User created successfully", Some(sign(user.id)),
                    Some(PublicUser(user.id, user.username, user.email)));
  }

  /** `/login`: an unknown email and a wrong password get the same refusal and change nothing; the
      right password (a missing one never is) sets the user online before the token is issued. */
  method Login(store: Store, email: string, password: Option<string>, now: Time, sign: UserId -> Token)
    returns (res: Response)
    requires store.Valid()
    modifies store
    ensures store.Valid()
    ensures store.order == old(store.order)
    ensures store.messages == old(store.messages) && store.history == old(store.history)
    ensures !Taken(old(store.users), Email(email)) ==>
      res == InvalidCredentials && store.users == old(store.users)
    ensures forall k :: k in old(store.users) && old(store.users)[k].email == email ==>
      var u := old(store.users)[k];
      && (password != Some(u.password) ==> res == InvalidCredentials && store.users == old(store.users))
      && (password == Some(u.password) ==>
            && store.users == old(store.users)[k := u.(isOnline := true, lastSeen := now)]
            && res == Response(200, "Login successful", Some(sign(k)), Some(PublicUser(k, u.username, u.email))))
  {
    var found := store.FindUserByEmail(email);
    if found.None? {
      return InvalidCredentials;
    }
    var user := found.value;
    if Some(user.password) != password {
      return InvalidCredentials;
    }
    var _ := store.UpdateUserOnlineStatus(user.id, true, now);
    res := Response(200, "Login successful", Some(sign(user.id)),
                    Some(PublicUser(user.id, user.username, user.email)));
  }

  /** `/logout`: without a token (or with an empty one) nothing changes and the answer is success; a
      token that fails verification is a server error; otherwise the token's user, if stored, is set
      offline and the answer is success. */
  method Logout(store: Store, token: Option<Token>, verify: Token -> Option<UserId>, now: Time)
    returns (res: Response)
    requires store.Valid()
    modifies store
    ensures store.Valid()
    ensures store.order == old(store.order)
    ensures store.messages == old(store.messages) && store.history == old(store.history)
    ensures token.None? || token.value == "" ==> res == LoggedOut && store.users == old(store.users)
    ensures token.Some? && token.value != "" && verify(token.value).None? ==>
      res == ServerError && store.users == old(store.users)
    ensures token.Some? && token.value != "" && verify(token.value).Some? ==>
      var id := verify(token.value).value;
      && res == LoggedOut
      && (id !in old(store.users) ==> store.users == old(store.users))
      && (id in old(store.users) ==>
            store.users == old(store.users)[id := old(store.users)[id].(isOnline := false, lastSeen := now)])
  {
    if token.Some? && token.value != "" {
      var decoded := verify(token.value);
      if decoded.None? {
        return ServerError;
      }
      var _ := store.UpdateUserOnlineStatus(decoded.value, false, now);
    }
    res := LoggedOut;
  }
}
