/**
 * `UserRepository` of backend/app/repository/user.py, over one session.
 * Writes (`create`, `update`, `delete`) change what the session sees;
 * queries are functions of it. Each is proved against the table functions
 * of `UserTable`.
 */
module Repository {
  import opened Wrappers
  import opened UserDto
  import opened UserTable
  import opened Session
  import Text

  /** The ValueErrors the user layer raises. */
  datatype UserError = AlreadyExists(email: string) | NotFound(email: string) | NoDataProvided
  {
    function Message(): string
    {
      match this
      case AlreadyExists(e) => "User with email " + e + " already exists"
      case NotFound(e) => "User with email " + e + " not found"
      case NoDataProvided => "No data provided for update"
    }
  }

  /** The message of each error ends with the phrase callers match on. */
  lemma MessagesEndWithReason(e: string)
    ensures Text.EndsWith(AlreadyExists(e).Message(), " already exists")
    ensures Text.EndsWith(NotFound(e).Message(), " not found")
    ensures Text.StartsWith(NoDataProvided.Message(), "No data provided")
  {
  }

  /** `UserDTO.from_orm` on a stored row; stored names always pass validation. */
  function ToDto(row: UserRow): (d: UserDTO)
    requires ValidName(row.name)
    ensures d.Valid() && d.email == row.email && d.name == row.name && d.createdAt == Some(row.createdAt)
  {
    FromOrm(row).value
  }

  function ToDtos(rows: seq<UserRow>): (ds: seq<UserDTO>)
    requires forall i :: 0 <= i < |rows| ==> ValidName(rows[i].name)
    ensures |ds| == |rows|
    ensures forall i :: 0 <= i < |rows| ==> ds[i] == ToDto(rows[i])
  {
    seq(|rows|, i requires 0 <= i < |rows| => ToDto(rows[i]))
  }

  lemma StoredRowValid(t: Table, row: UserRow)
    requires Valid(t) && row in t
    ensures ValidName(row.name)
  {
    var i :| 0 <= i < |t| && t[i] == row;
  }

  /** The DTO of the row stored under `email`, if any. */
  function Lookup(t: Table, email: string): (r: Option<UserDTO>)
    requires Valid(t)
    ensures r.Some? <==> email in Emails(t)
    ensures r.Some? ==> r.value.email == email && r.value.Valid()
    ensures r.Some? ==> exists i :: 0 <= i < |t| && t[i].email == email && r.value == ToDto(t[i])
    ensures forall i :: 0 <= i < |t| && t[i].email == email ==> r == Some(ToDto(t[i]))
  {
    forall i | 0 <= i < |t| && t[i].email == email ensures Find(t, email) == Some(t[i]) {
      FindUnique(t, i);
    }
    match Find(t, email)
    case None => None
    case Some(row) =>
      StoredRowValid(t, row);
      Some(ToDto(row))
  }

  /** Every row of a page is a stored row. */
  lemma PageRowsStored(t: Table, skip: nat, limit: nat)
    requires Valid(t)
    ensures forall k :: 0 <= k < |Page(t, skip, limit)| ==>
      Page(t, skip, limit)[k].email in Emails(t) && ValidName(Page(t, skip, limit)[k].name)
  {
    var page := Page(t, skip, limit);
    forall k | 0 <= k < |page| ensures page[k].email in Emails(t) && ValidName(page[k].name) {
      assert page[k] in multiset(page);
      var i :| 0 <= i < |t| && t[i] == page[k];
    }
  }

  /** `get_all`: the DTOs of one page of the table, newest first. */
  function Listing(t: Table, skip: nat, limit: nat): (ds: seq<UserDTO>)
    requires Valid(t)
    ensures |ds| == Min(limit, |t| - Min(skip, |t|))
    ensures forall k :: 0 <= k < |ds| ==> ds[k].email in Emails(t) && ds[k].Valid() && ds[k].createdAt.Some?
    ensures forall i, j :: 0 <= i < j < |ds| ==> ds[i].createdAt.value >= ds[j].createdAt.value
    ensures forall k :: 0 <= k < |ds| ==> Lookup(t, ds[k].email) == Some(ds[k])
    ensures forall i, j :: 0 <= i < j < |ds| ==> ds[i].email != ds[j].email
  {
    PageRowsStored(t, skip, limit);
    PageRowsFound(t, skip, limit);
    ToDtos(Page(t, skip, limit))
  }

  /** In a table with unique e-mails the row count is the number of distinct users. */
  lemma {:induction false} RowCountIsUserCount(t: Table)
    requires UniqueEmails(t)
    ensures |Emails(t)| == |t|
    decreases |t|
  {
    if |t| > 0 {
      assert UniqueEmails(t[1..]);
      RowCountIsUserCount(t[1..]);
      assert Emails(t) == {t[0].email} + Emails(t[1..]);
      assert t[0].email !in Emails(t[1..]);
    }
  }

  class UserRepository {
    const session: AsyncSession

    constructor (session: AsyncSession)
      ensures this.session == session
    {
      this.session := session;
    }

    /**
     * `create`: inserts a row for the DTO, stamped by the database clock
     * `now`. A duplicate e-mail violates the key: the session is rolled
     * back and "already exists" is raised.
     */
    method Create(userData: UserCreateDTO, now: nat) returns (r: Result<UserDTO, UserError>)
      requires session.Valid() && userData.Valid()
      modifies session
      ensures session.Valid()
      ensures userData.email !in Emails(old(session.view)) ==>
        && r == Success(UserDTO(userData.email, userData.name, Some(now)))
        && session.view == Insert(old(session.view), userData.email, userData.name, now)
        && session.events == old(session.events)
      ensures userData.email in Emails(old(session.view)) ==>
        && r == Failure(AlreadyExists(userData.email))
        && session.view == session.db.rows
        && session.events == old(session.events) + [RolledBack]
    {
      if userData.email in Emails(session.view) {
        session.Rollback();
        return Failure(AlreadyExists(userData.email));
      }
      var row := User(userData.email, userData.name, now);
      session.view := Insert(session.view, userData.email, userData.name, now);
      r := Success(ToDto(row));
    }

    /** `get_by_email`: the stored user, or None. */
    function GetByEmail(email: string): (r: Option<UserDTO>)
      reads session, session.db
      requires session.Valid()
      ensures r.Some? <==> email in Emails(session.view)
      ensures r.Some? ==> r.value.email == email
      ensures r == Lookup(session.view, email)
    {
      Lookup(session.view, email)
    }

    /** `get_all`: at most `limit` users after skipping `skip`, newest first. */
    function GetAll(skip: nat := 0, limit: nat := 100): (r: seq<UserDTO>)
      reads session, session.db
      requires session.Valid()
      ensures |r| <= limit && |r| <= |session.view|
      ensures r == Listing(session.view, skip, limit)
    {
      Listing(session.view, skip, limit)
    }

    /**
     * `update`: with no non-None field the table is left alone and the
     * current user returned; otherwise only the given columns of the row
     * with that e-mail are written, and the updated user (or None) returned.
     */
    method Update(email: string, userData: UserUpdateDTO) returns (r: Option<UserDTO>)
      requires session.Valid() && userData.Valid()
      modifies session
      ensures session.Valid() && session.events == old(session.events)
      ensures !userData.HasData() ==> session.view == old(session.view) && r == Lookup(session.view, email)
      ensures userData.HasData() ==> session.view == SetName(old(session.view), email, userData.name.value)
      ensures userData.HasData() ==> (r.Some? <==> email in Emails(old(session.view)))
      ensures userData.HasData() && r.Some? ==>
        r.value == UserDTO(email, userData.name.value, Lookup(old(session.view), email).value.createdAt)
    {
      var updateData := userData.UpdateData();
      if updateData == map[] {
        return Lookup(session.view, email);
      }
      var before := session.view;
      session.view := SetName(session.view, email, updateData["name"]);
      FindAfterSetName(before, email, updateData["name"], email);
      match Find(session.view, email)
      case None =>
        r := None;
      case Some(row) =>
        StoredRowValid(session.view, row);
        r := Some(ToDto(row));
        var i :| 0 <= i < |before| && before[i].email == email && Lookup(before, email).value == ToDto(before[i]);
        FindUnique(before, i);
    }

    /** `delete`: removes the row with that e-mail; true exactly when there was one. */
    method Delete(email: string) returns (deleted: bool)
      requires session.Valid()
      modifies session
      ensures session.Valid() && session.events == old(session.events)
      ensures deleted <==> email in Emails(old(session.view))
      ensures session.view == UserTable.Delete(old(session.view), email)
    {
      var before := session.view;
      DeleteSize(before, email);
      session.view := UserTable.Delete(session.view, email);
      deleted := |session.view| < |before|;
    }

    /** `exists`: a positive count of rows with that e-mail, exactly when `get_by_email` finds one. */
    function Exists(email: string): (r: bool)
      reads session, session.db
      requires session.Valid()
      ensures r <==> GetByEmail(email).Some?
    {
      CountEmailMatchesFind(session.view, email);
      CountEmail(session.view, email) > 0
    }

    /** `count_all`: the number of rows, which is the number of distinct users. */
    function CountAll(): (n: nat)
      reads session, session.db
      requires session.Valid()
      ensures n == |Emails(session.view)|
    {
      RowCountIsUserCount(session.view);
      |session.view|
    }
  }
}
