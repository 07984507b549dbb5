/**
 * `UserService` (src/user/service.rs): the one step it adds to the
 * repository, replacing the plaintext password with its bcrypt hash before
 * the row is written. Its other methods only forward to the repository.
 *
 * bcrypt is not modelled: `hash` and `verify` are parameters, as in `Auth`.
 */
module UserService {
  import opened Wrappers
  import opened RustStr
  import opened UserStore
  import opened Auth

  /** What `UserService::create_user` does: abort while hashing, or the repository's answer. */
  datatype Signup = Created(result: Result<User, DbError>) | SignupPanicked(message: string)

  /**
   * `UserService::create_user`: replace the plaintext password with its bcrypt
   * hash, then insert through the repository. If bcrypt verifies every
   * password against its own hash (the bcrypt property, taken as a
   * hypothesis), the new user can then log in with the plaintext.
   */
  method CreateUser(
    store: UserRepository, request: CreateUserRequest, roll: u8,
    hash: string -> Option<string>, verify: (string, string) -> Option<bool>)
    returns (r: Signup)
    requires store.Valid()
    requires forall p :: hash(p).Some? ==> verify(p, hash(p).value) == Some(true)
    modifies store
    ensures store.Valid()
    ensures store.reachable == old(store.reachable)
    ensures r.SignupPanicked? <==> HashPassword(request.password, hash).HashPanicked?
    ensures r.SignupPanicked? ==>
      && r.message == HASH_FAILURE_MESSAGE
      && store.rows == old(store.rows) && store.lastRowId == old(store.lastRowId)
    ensures r.Created? && !old(store.reachable) ==> r.result == Err(PoolUnavailable)
    ensures r.Created? && old(store.reachable) && old(store.lastRowId) == I64_MAX ==>
      r.result == Err(RowIdExhausted)
    ensures (r.Created? && old(store.reachable) && old(store.lastRowId) < I64_MAX
             && old(store.EmailTaken(request.email))) ==> r.result == Err(UniqueViolation)
    ensures r.Created? ==>
      (r.result.Ok? <==> old(store.reachable) && !old(store.EmailTaken(request.email))
                         && old(store.lastRowId) < I64_MAX)
    ensures r.Created? && r.result.Err? ==>
      store.rows == old(store.rows) && store.lastRowId == old(store.lastRowId)
    ensures r.Created? && r.result.Ok? ==>
      && hash(request.password).Some?
      && var hashed := hash(request.password).value;
      && var avatar := AvatarUrl(AvatarNumber(roll));
      && var id := r.result.value.id;
      && id == store.lastRowId == old(store.lastRowId) + 1
      && id !in old(store.rows)
      && store.rows == old(store.rows)[id := Row(request.email, request.givenName, request.familyName,
                                                 hashed, avatar, DEFAULT_ROLE)]
      && r.result.value == User(id, request.email, request.givenName, request.familyName,
                                avatar, DEFAULT_ROLE)
      && Login(store, request.email, request.password, verify) == Ok(true)
  {
    match HashPassword(request.password, hash)
    case HashPanicked(message) =>
      return SignupPanicked(message);
    case Hashed(h) =>
      var stored := request.(password := h);
      var created := store.CreateUser(stored, roll);
      if created.Ok? {
        LoginChecksStoredHash(store, created.value.id, request.password, verify);
      }
      return Created(created);
  }
}
