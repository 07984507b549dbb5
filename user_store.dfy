/**
 * The `users` table and `UserRepository` (src/user/repository.rs): lookups by
 * id and by email, and `create_user`, which inserts a row with a randomly
 * chosen critter avatar.
 */
module UserStore {
  import opened Wrappers
  import opened RustStr

  /** Rust's `u8`; arithmetic on it stays in range or fails to verify. */
  newtype u8 = x: int | 0 <= x < 256

  /** A row of the `users` table, without its rowid (the map key) and timestamps. */
  datatype Row = Row(
    email: string,
    givenName: string,
    familyName: string,
    passwordHash: string,
    avatarUrl: string,
    role: i64)

  /** The `User` handed out of the repository: the row minus its password hash. */
  datatype User = User(
    id: i64,
    email: string,
    givenName: string,
    familyName: string,
    avatarUrl: string,
    role: i64)

  datatype CreateUserRequest = CreateUserRequest(
    email: string,
    password: string,
    givenName: string,
    familyName: string)

  /** The `sqlx::Error`s the model distinguishes. */
  datatype DbError =
    | RowNotFound       // `fetch_one` found no row
    | PoolUnavailable   // the pool could not serve the query
    | UniqueViolation   // the insert would duplicate an email
    | RowIdExhausted    // no rowid is left after the largest `i64`

  /** The role of every newly created user. */
  const DEFAULT_ROLE: i64 := 1

  const AVATAR_URL_PREFIX: string := "http://localhost:3000/assets/images/critter_"
  const AVATAR_URL_SUFFIX: string := ".svg"

  function UserOf(id: i64, row: Row): User {
    User(id, row.email, row.givenName, row.familyName, row.avatarUrl, row.role)
  }

  /** `rand::random::<u8>() % 11 + 1`, computed in `u8`. */
  function AvatarNumber(roll: u8): (n: u8)
    ensures 1 <= n <= 11
    ensures n as int - 1 == roll as int % 11
  {
    roll % 11 + 1
  }

  /** Every critter 1 to 11 is drawn by some random byte. */
  lemma AvatarNumberCoversAll(n: u8)
    requires 1 <= n <= 11
    ensures AvatarNumber(n - 1) == n
  {
  }

  /** `format!("http://localhost:3000/assets/images/critter_{}.svg", n)`. */
  function AvatarUrl(n: u8): string {
    AVATAR_URL_PREFIX + FormatNat(n as nat) + AVATAR_URL_SUFFIX
  }

  /**
   * The avatar URL of a new user is the critter prefix, then one or two
   * decimal digits with no sign and no leading zero naming a critter from 1
   * to 11, then `.svg`; reading those digits back gives the drawn number.
   */
  lemma AvatarUrlNamesCritter(roll: u8)
    ensures var url := AvatarUrl(AvatarNumber(roll));
      && StartsWith(url, AVATAR_URL_PREFIX)
      && |AVATAR_URL_PREFIX| + 1 <= |url| - |AVATAR_URL_SUFFIX| <= |AVATAR_URL_PREFIX| + 2
      && url[|url| - |AVATAR_URL_SUFFIX|..] == AVATAR_URL_SUFFIX
      && var digits := url[|AVATAR_URL_PREFIX|..|url| - |AVATAR_URL_SUFFIX|];
      && AllDigits(digits) && digits[0] != '0'
      && DigitsValue(digits) == AvatarNumber(roll) as nat
      && ParseI64(digits) == Some(AvatarNumber(roll) as int)
  {
    var n := AvatarNumber(roll);
    var digits := FormatNat(n as nat);
    var url := AvatarUrl(n);
    assert url[..|AVATAR_URL_PREFIX|] == AVATAR_URL_PREFIX;
    assert url[|AVATAR_URL_PREFIX|..|url| - |AVATAR_URL_SUFFIX|] == digits;
    assert url[|url| - |AVATAR_URL_SUFFIX|..] == AVATAR_URL_SUFFIX;
    if n < 10 {
      assert |digits| == 1;
    } else {
      assert FormatNat(n as nat) == FormatNat(n as nat / 10) + [DigitChar(n as nat % 10)];
      assert |digits| == 2;
    }
    DigitsValueOfFormat(n as nat);
    ParseFormatI64(n as int);
  }

  /** No two rows share an email. */
  ghost predicate EmailsUnique(rows: map<i64, Row>) {
    forall a, b :: a in rows && b in rows && rows[a].email == rows[b].email ==> a == b
  }

  /**
   * What the table keeps true: every rowid lies between 1 and the last rowid
   * handed out, and no two rows share an email.
   */
  ghost predicate TableInvariant(rows: map<i64, Row>, lastRowId: i64) {
    && 0 <= lastRowId
    && (forall id :: id in rows ==> 1 <= id <= lastRowId)
    && EmailsUnique(rows)
  }

  /** The `users` table behind one connection pool. */
  class UserRepository {
    var rows: map<i64, Row>
    /** The largest rowid ever assigned; new rows get the next one. */
    var lastRowId: i64
    /** Whether the pool can serve queries at all. */
    var reachable: bool

    ghost predicate Valid()
      reads this
    {
      TableInvariant(rows, lastRowId)
    }

    /**
     * `UserRepository::new(&db)`: a handle on the shared pool, whose table
     * already holds whatever rows earlier requests wrote.
     */
    constructor (rows: map<i64, Row>, lastRowId: i64, reachable: bool)
      requires TableInvariant(rows, lastRowId)
      ensures Valid()
      ensures this.rows == rows && this.lastRowId == lastRowId && this.reachable == reachable
    {
      this.rows := rows;
      this.lastRowId := lastRowId;
      this.reachable := reachable;
    }

    ghost predicate EmailTaken(email: string)
      reads this
    {
      exists id :: id in rows && rows[id].email == email
    }

    /** The rowid of the one row with this email, if there is one. */
    function IdWithEmail(email: string): (r: Option<i64>)
      reads this
      requires Valid()
      ensures r.Some? <==> EmailTaken(email)
      ensures r.Some? ==> r.value in rows && rows[r.value].email == email
    {
      if exists id :: id in rows && rows[id].email == email then
        var id :| id in rows && rows[id].email == email;
        Some(id)
      else
        None
    }

    /** `find_by_id`: `SELECT * FROM users WHERE id = ?` with `fetch_one`. */
    function FindById(id: i64): (r: Result<User, DbError>)
      reads this
      ensures r.Ok? <==> reachable && id in rows
      ensures r.Ok? ==> r.value.id == id && r.value == UserOf(id, rows[id])
      ensures !reachable ==> r == Err(PoolUnavailable)
      ensures reachable && id !in rows ==> r == Err(RowNotFound)
    {
      if !reachable then Err(PoolUnavailable)
      else if id in rows then Ok(UserOf(id, rows[id]))
      else Err(RowNotFound)
    }

    /** `find_by_email`: `SELECT * FROM users WHERE email = ?` with `fetch_one`. */
    function FindByEmail(email: string): (r: Result<User, DbError>)
      reads this
      requires Valid()
      ensures r.Ok? <==> reachable && EmailTaken(email)
      ensures r.Ok? ==> r.value.email == email && r.value.id in rows
                        && r.value == UserOf(r.value.id, rows[r.value.id])
      ensures !reachable ==> r == Err(PoolUnavailable)
      ensures reachable && !EmailTaken(email) ==> r == Err(RowNotFound)
    {
      if !reachable then Err(PoolUnavailable)
      else match IdWithEmail(email)
        case Some(id) => Ok(UserOf(id, rows[id]))
        case None => Err(RowNotFound)
    }

    /**
     * `create_user`: inserts one row carrying the request's fields, its
     * `password` as the password hash and a critter avatar drawn from `roll`,
     * and returns it as a `User` with the new rowid and role 1.
     */
    method CreateUser(request: CreateUserRequest, roll: u8) returns (r: Result<User, DbError>)
      requires Valid()
      modifies this
      ensures Valid()
      ensures reachable == old(reachable)
      ensures !old(reachable) ==> r == Err(PoolUnavailable)
      ensures old(reachable) && old(lastRowId) == I64_MAX ==> r == Err(RowIdExhausted)
      ensures old(reachable) && old(lastRowId) < I64_MAX && old(EmailTaken(request.email))
              ==> r == Err(UniqueViolation)
      ensures r.Ok? <==> old(reachable) && !old(EmailTaken(request.email)) && old(lastRowId) < I64_MAX
      ensures r.Err? ==> rows == old(rows) && lastRowId == old(lastRowId)
      ensures r.Ok? ==>
        var avatar := AvatarUrl(AvatarNumber(roll));
        && r.value.id == lastRowId == old(lastRowId) + 1
        && r.value.id !in old(rows)
        && rows == old(rows)[r.value.id := Row(request.email, request.givenName, request.familyName,
                                               request.password, avatar, DEFAULT_ROLE)]
        && r.value == User(r.value.id, request.email, request.givenName, request.familyName,
                           avatar, DEFAULT_ROLE)
      ensures r.Ok? ==> FindById(r.value.id) == Ok(r.value) && FindByEmail(request.email) == Ok(r.value)
    {
      var avatar := AvatarUrl(AvatarNumber(roll));
      if !reachable {
        return Err(PoolUnavailable);
      }
      if lastRowId == I64_MAX {
        return Err(RowIdExhausted);
      }
      if IdWithEmail(request.email).Some? {
        return Err(UniqueViolation);
      }
      var id: i64 := lastRowId + 1;
      var row := Row(request.email, request.givenName, request.familyName,
                     request.password, avatar, DEFAULT_ROLE);
      ghost var before := rows;
      rows := rows[id := row];
      lastRowId := id;
      assert forall other :: other in before ==> before[other].email != request.email;
      r := Ok(UserOf(id, row));
    }
  }

  /** The two lookups agree: the row found by email is the row found by its id. */
  lemma FindByEmailThenId(store: UserRepository, email: string)
    requires store.Valid()
    requires store.FindByEmail(email).Ok?
    ensures store.FindById(store.FindByEmail(email).value.id) == store.FindByEmail(email)
  {
  }

  /** And the row found by id is the row found by its email, since emails are unique. */
  lemma FindByIdThenEmail(store: UserRepository, id: i64)
    requires store.Valid()
    requires store.FindById(id).Ok?
    ensures store.FindByEmail(store.FindById(id).value.email) == store.FindById(id)
  {
    var email := store.rows[id].email;
    assert store.EmailTaken(email);
  }
}
