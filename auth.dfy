/**
 * Password hashing and the login check (src/user/auth.rs).
 *
 * bcrypt is not modelled; its two entry points are parameters:
 * `hash` stands for one call of `bcrypt::hash(_, DEFAULT_COST)` (salt
 * included), `None` when bcrypt fails; `verify(password, hash)` stands for
 * `bcrypt::verify`, `None` when the stored hash cannot be parsed.
 */
module Auth {
  import opened Wrappers
  import opened RustStr
  import opened UserStore

  const HASH_FAILURE_MESSAGE: string := "Failed to hash password"

  /** What `hash_password` does: return bcrypt's hash, or abort through `expect`. */
  datatype Hashing = Hashed(hash: string) | HashPanicked(message: string)

  /** `hash_password`: bcrypt's hash when it has one, a panic otherwise; never a stand-in value. */
  function HashPassword(password: string, hash: string -> Option<string>): (r: Hashing)
    ensures r.Hashed? <==> hash(password).Some?
    ensures r.Hashed? ==> r.hash == hash(password).value
    ensures r.HashPanicked? ==> r.message == HASH_FAILURE_MESSAGE
  {
    match hash(password)
    case Some(h) => Hashed(h)
    case None => HashPanicked(HASH_FAILURE_MESSAGE)
  }

  /** `verify_password`: `bcrypt::verify(..).unwrap_or(false)`. */
  function VerifyPassword(password: string, hashed: string,
                          verify: (string, string) -> Option<bool>): (ok: bool)
    ensures ok <==> verify(password, hashed) == Some(true)
    ensures verify(password, hashed).None? ==> !ok
  {
    match verify(password, hashed)
    case Some(matches) => matches
    case None => false
  }

  /** `SELECT password_hash FROM users WHERE email = ?` with `fetch_optional`. */
  function PasswordHashByEmail(store: UserRepository, email: string): (r: Result<Option<string>, DbError>)
    reads store
    requires store.Valid()
    ensures r.Err? <==> !store.reachable
    ensures r.Ok? && r.value.Some? ==>
      exists id :: id in store.rows && store.rows[id].email == email
                   && store.rows[id].passwordHash == r.value.value
    ensures r.Ok? ==> (r.value.None? <==> !store.EmailTaken(email))
  {
    if !store.reachable then Err(PoolUnavailable)
    else match store.IdWithEmail(email)
      case Some(id) => Ok(Some(store.rows[id].passwordHash))
      case None => Ok(None)
  }

  /**
   * `AuthService::login`: `Ok(true)` exactly when a row with this email exists
   * and bcrypt accepts the password for its hash; `Ok(false)` for an unknown
   * email, a wrong password and an unreadable hash alike; `Err` exactly when
   * the query fails.
   */
  function Login(store: UserRepository, email: string, password: string,
                 verify: (string, string) -> Option<bool>): (r: Result<bool, DbError>)
    reads store
    requires store.Valid()
    ensures r.Err? <==> !store.reachable
    ensures r == Ok(true) <==>
      store.reachable && exists id :: id in store.rows && store.rows[id].email == email
                                      && verify(password, store.rows[id].passwordHash) == Some(true)
    ensures store.reachable && !store.EmailTaken(email) ==> r == Ok(false)
  {
    match PasswordHashByEmail(store, email)
    case Err(e) => Err(e)
    case Ok(Some(hashed)) => Ok(VerifyPassword(password, hashed, verify))
    case Ok(None) => Ok(false)
  }

  /**
   * An unknown email and a wrong (or unverifiable) password for a known one
   * give the caller the same answer.
   */
  lemma UnknownEmailLooksLikeWrongPassword(
    store: UserRepository, unknown: string, known: string, guess1: string, guess2: string,
    verify: (string, string) -> Option<bool>)
    requires store.Valid() && store.reachable
    requires !store.EmailTaken(unknown)
    requires store.IdWithEmail(known).Some?
    requires verify(guess2, store.rows[store.IdWithEmail(known).value].passwordHash) != Some(true)
    ensures Login(store, unknown, guess1, verify) == Login(store, known, guess2, verify) == Ok(false)
  {
  }

  /** A stored hash bcrypt cannot parse makes login answer `false`, not fail. */
  lemma CorruptHashRejectsLogin(
    store: UserRepository, id: i64, password: string, verify: (string, string) -> Option<bool>)
    requires store.Valid() && store.reachable && id in store.rows
    requires verify(password, store.rows[id].passwordHash).None?
    ensures Login(store, store.rows[id].email, password, verify) == Ok(false)
  {
    var email := store.rows[id].email;
    assert store.IdWithEmail(email) == Some(id);
  }

  /**
   * For a stored row, login returns whatever bcrypt says about the password
   * and that row's hash, with an unparsable hash read as `false`.
   */
  lemma LoginChecksStoredHash(
    store: UserRepository, id: i64, password: string, verify: (string, string) -> Option<bool>)
    requires store.Valid() && store.reachable && id in store.rows
    ensures Login(store, store.rows[id].email, password, verify)
            == Ok(VerifyPassword(password, store.rows[id].passwordHash, verify))
  {
    var email := store.rows[id].email;
    assert store.IdWithEmail(email) == Some(id);
  }
}
