/**
 * `UserService` of backend/app/service/user.py. Each operation is first
 * stated as a function of the committed table (what it returns and the
 * table it leaves), then implemented as a method that runs the source's
 * steps against a unit of work and is proved to agree with that function.
 */
module Service {
  import opened Wrappers
  import opened UserDto
  import opened UserTable
  import opened Session
  import opened Repository

  /** `create_user` / `create_user_with_session`: duplicate e-mails are refused before anything is written. */
  function CreateUserSpec(t: Table, userData: UserCreateDTO, now: nat): (out: (Result<UserDTO, UserError>, Table))
    requires Valid(t) && userData.Valid()
    ensures Valid(out.1)
    ensures out.0.Failure? <==> userData.email in Emails(t)
    ensures out.0.Failure? ==> out.0.error == AlreadyExists(userData.email) && out.1 == t
    ensures out.0.Success? ==>
      && out.0.value == UserDTO(userData.email, userData.name, Some(now))
      && Lookup(out.1, userData.email) == Some(out.0.value)
      && Find(out.1, userData.email) == Some(User(userData.email, userData.name, now))
      && Emails(out.1) == Emails(t) + {userData.email} && |out.1| == |t| + 1
      && forall e :: e != userData.email ==> Find(out.1, e) == Find(t, e)
  {
    if userData.email in Emails(t) then (Failure(AlreadyExists(userData.email)), t)
    else (Success(UserDTO(userData.email, userData.name, Some(now))), Insert(t, userData.email, userData.name, now))
  }

  /** `get_user_by_email`: the stored user or None; nothing is written. */
  function GetUserByEmailSpec(t: Table, email: string): (r: Option<UserDTO>)
    requires Valid(t)
    ensures r.Some? <==> email in Emails(t)
    ensures r.Some? ==> r.value.email == email && r.value.Valid()
    ensures forall i :: 0 <= i < |t| && t[i].email == email ==> r == Some(ToDto(t[i]))
  {
    Lookup(t, email)
  }

  /** `get_all_users`: one page newest first, and the total number of users whatever the page. */
  function GetAllUsersSpec(t: Table, skip: nat, limit: nat): (out: (seq<UserDTO>, nat))
    requires Valid(t)
    ensures out.1 == |Emails(t)| == |t|
    ensures |out.0| == Min(limit, out.1 - Min(skip, out.1))
    ensures out.0 == Listing(t, skip, limit)
    ensures forall k :: 0 <= k < |out.0| ==> Lookup(t, out.0[k].email) == Some(out.0[k])
  {
    RowCountIsUserCount(t);
    (Listing(t, skip, limit), |t|)
  }

  /** `update_user`: an unknown user is refused first, then an empty update; otherwise only the name changes. */
  function UpdateUserSpec(t: Table, email: string, userData: UserUpdateDTO): (out: (Result<Option<UserDTO>, UserError>, Table))
    requires Valid(t) && userData.Valid()
    ensures Valid(out.1)
    ensures email !in Emails(t) ==> out == (Failure(NotFound(email)), t)
    ensures email in Emails(t) && !userData.HasData() ==> out == (Failure(NoDataProvided), t)
    ensures email in Emails(t) && userData.HasData() ==> out.0.Success?
    ensures out.0.Success? ==>
      && out.0.value.Some?
      && out.0.value == Lookup(out.1, email)
      && out.0.value.value.name == userData.name.value
      && out.0.value.value.createdAt == Lookup(t, email).value.createdAt
      && Find(out.1, email) == Some(Find(t, email).value.(name := userData.name.value))
      && Emails(out.1) == Emails(t) && |out.1| == |t|
      && forall e :: e != email ==> Find(out.1, e) == Find(t, e)
  {
    if email !in Emails(t) then (Failure(NotFound(email)), t)
    else if !userData.HasData() then (Failure(NoDataProvided), t)
    else
      var t' := SetName(t, email, userData.name.value);
      forall e ensures Find(t', e) == if e == email && Find(t, e).Some? then Some(Find(t, e).value.(name := userData.name.value)) else Find(t, e) {
        FindAfterSetName(t, email, userData.name.value, e);
      }
      (Success(Lookup(t', email)), t')
  }

  /** `delete_user`: an unknown user is refused; otherwise its row, and only its row, is removed. */
  function DeleteUserSpec(t: Table, email: string): (out: (Result<bool, UserError>, Table))
    requires Valid(t)
    ensures Valid(out.1)
    ensures email !in Emails(t) ==> out == (Failure(NotFound(email)), t)
    ensures email in Emails(t) ==>
      && out.0 == Success(true)
      && email !in Emails(out.1) && Emails(out.1) == Emails(t) - {email} && |out.1| == |t| - 1
      && forall e :: e != email ==> Find(out.1, e) == Find(t, e)
  {
    if email !in Emails(t) then (Failure(NotFound(email)), t)
    else
      var t' := UserTable.Delete(t, email);
      DeleteSize(t, email);
      forall e ensures Find(t', e) == if e == email then None else Find(t, e) {
        FindAfterDelete(t, email, e);
      }
      (Success(true), t')
  }

  /**
   * The trace of a `transactional` method that also opens `async with
   * self.uow`: two sessions were created, the first was never committed or
   * closed, and the second, held in `self.session`, received both exits.
   */
  ghost predicate EnteredTwice(uow: UnitOfWork, before: nat, failed: bool)
    reads uow, uow.entered
  {
    && |uow.entered| == before + 2
    && uow.entered[before].events == []
    && uow.session == uow.entered[before + 1]
    && uow.entered[before + 1].events == ExitEvents(failed) + ExitEvents(failed)
  }

  class UserService {
    const uow: UnitOfWork

    ghost predicate Valid()
      reads this, uow, uow.session, uow.db
    {
      uow.Valid() && UserTable.Valid(uow.db.rows)
    }

    constructor (uow: UnitOfWork)
      ensures this.uow == uow
    {
      this.uow := uow;
    }

    /** `create_user`. The database clock reading `now` stamps the new row. */
    method CreateUser(userData: UserCreateDTO, now: nat) returns (r: Result<UserDTO, UserError>)
      requires Valid() && userData.Valid()
      modifies uow, uow.db
      ensures Valid()
      ensures (r, uow.db.rows) == CreateUserSpec(old(uow.db.rows), userData, now)
      ensures EnteredTwice(uow, old(|uow.entered|), r.Failure?)
    {
      var outer := uow.Enter();      // @transactional
      var session := uow.Enter();    // async with self.uow as session
      r := CreateUserWithSession(session, userData, now);
      uow.Exit(r.Failure?);
      uow.Exit(r.Failure?);
    }

    /** `create_user_with_session`: the same rule on a session the caller owns and commits. */
    method CreateUserWithSession(session: AsyncSession, userData: UserCreateDTO, now: nat) returns (r: Result<UserDTO, UserError>)
      requires session.Valid() && userData.Valid()
      modifies session
      ensures session.Valid() && session.events == old(session.events)
      ensures (r, session.view) == CreateUserSpec(old(session.view), userData, now)
    {
      var userRepo := new UserRepository(session);
      var existingUser := userRepo.GetByEmail(userData.email);
      if existingUser.Some? {
        return Failure(AlreadyExists(userData.email));
      }
      r := userRepo.Create(userData, now);
    }

    /** `get_user_by_email`. */
    method GetUserByEmail(email: string) returns (r: Option<UserDTO>)
      requires Valid()
      modifies uow, uow.db
      ensures Valid() && uow.db.rows == old(uow.db.rows)
      ensures r == GetUserByEmailSpec(old(uow.db.rows), email)
      ensures EnteredTwice(uow, old(|uow.entered|), false)
    {
      var outer := uow.Enter();
      var session := uow.Enter();
      var userRepo := new UserRepository(session);
      r := userRepo.GetByEmail(email);
      uow.Exit(false);
      uow.Exit(false);
    }

    /** `get_all_users`, with the source's defaults skip = 0 and limit = 100. */
    method GetAllUsers(skip: nat := 0, limit: nat := 100) returns (users: seq<UserDTO>, total: nat)
      requires Valid()
      modifies uow, uow.db
      ensures Valid() && uow.db.rows == old(uow.db.rows)
      ensures (users, total) == GetAllUsersSpec(old(uow.db.rows), skip, limit)
      ensures EnteredTwice(uow, old(|uow.entered|), false)
    {
      var outer := uow.Enter();
      var session := uow.Enter();
      var userRepo := new UserRepository(session);
      users := userRepo.GetAll(skip, limit);
      var count := userRepo.CountAll();
      RowCountIsUserCount(session.view);
      total := count;
      uow.Exit(false);
      uow.Exit(false);
    }

    /** `update_user`. */
    method UpdateUser(email: string, userData: UserUpdateDTO) returns (r: Result<Option<UserDTO>, UserError>)
      requires Valid() && userData.Valid()
      modifies uow, uow.db
      ensures Valid()
      ensures (r, uow.db.rows) == UpdateUserSpec(old(uow.db.rows), email, userData)
      ensures EnteredTwice(uow, old(|uow.entered|), r.Failure?)
    {
      var outer := uow.Enter();
      var session := uow.Enter();
      r := UpdateUserIn(session, email, userData);
      assert (r, session.view) == UpdateUserSpec(old(uow.db.rows), email, userData);
      uow.Exit(r.Failure?);
      uow.Exit(r.Failure?);
    }

    /** The body of `update_user`, inside the session. */
    method UpdateUserIn(session: AsyncSession, email: string, userData: UserUpdateDTO) returns (r: Result<Option<UserDTO>, UserError>)
      requires session.Valid() && userData.Valid()
      modifies session
      ensures session.Valid() && session.events == old(session.events)
      ensures (r, session.view) == UpdateUserSpec(old(session.view), email, userData)
    {
      var userRepo := new UserRepository(session);
      var existingUser := userRepo.GetByEmail(email);
      if existingUser.None? {
        r := Failure(NotFound(email));
      } else if !userData.HasData() {
        r := Failure(NoDataProvided);
      } else {
        var updated := userRepo.Update(email, userData);
        r := Success(updated);
      }
    }

    /** `delete_user`. */
    method DeleteUser(email: string) returns (r: Result<bool, UserError>)
      requires Valid()
      modifies uow, uow.db
      ensures Valid()
      ensures (r, uow.db.rows) == DeleteUserSpec(old(uow.db.rows), email)
      ensures EnteredTwice(uow, old(|uow.entered|), r.Failure?)
    {
      var outer := uow.Enter();
      var session := uow.Enter();
      r := DeleteUserIn(session, email);
      uow.Exit(r.Failure?);
      uow.Exit(r.Failure?);
    }

    /** The body of `delete_user`, inside the session. */
    method DeleteUserIn(session: AsyncSession, email: string) returns (r: Result<bool, UserError>)
      requires session.Valid()
      modifies session
      ensures session.Valid() && session.events == old(session.events)
      ensures (r, session.view) == DeleteUserSpec(old(session.view), email)
    {
      var userRepo := new UserRepository(session);
      var existingUser := userRepo.GetByEmail(email);
      if existingUser.None? {
        r := Failure(NotFound(email));
      } else {
        var deleted := userRepo.Delete(email);
        r := Success(deleted);
      }
    }
  }
}
