/**
 * The user records of backend/app/dto/user.py. Pydantic's validation of the
 * `name` field (1 to 255 characters) is the record invariant; a failed
 * validation is a `ValidationError`. E-mail addresses are opaque strings:
 * their syntax (`EmailStr`) is not checked here.
 */
module UserDto {
  import opened Wrappers

  const NameMinLength: nat := 1
  const NameMaxLength: nat := 255

  /** `Field(min_length=1, max_length=255)` on `name`. */
  predicate ValidName(name: string)
  {
    NameMinLength <= |name| <= NameMaxLength
  }

  datatype ValidationError = NameTooShort | NameTooLong

  /** The check Pydantic applies to a `name` value. */
  function CheckName(name: string): (r: Option<ValidationError>)
    ensures r.None? <==> ValidName(name)
  {
    if |name| < NameMinLength then Some(NameTooShort)
    else if |name| > NameMaxLength then Some(NameTooLong)
    else None
  }

  /**
   * The ORM entity `User` (its defining module, app/database/model/user.py,
   * is not part of this model): one table row; `createdAt` is assigned by
   * the database when the row is inserted.
   */
  datatype UserRow = User(email: string, name: string, createdAt: nat)

  /** `UserDTO`; `created_at` is optional and defaults to None. */
  datatype UserDTO = UserDTO(email: string, name: string, createdAt: Option<nat>)
  {
    predicate Valid() { ValidName(name) }
  }

  /** `UserCreateDTO`. */
  datatype UserCreateDTO = UserCreateDTO(email: string, name: string)
  {
    predicate Valid() { ValidName(name) }
  }

  /** `UserUpdateDTO`: every field optional, `name` defaulting to None. */
  datatype UserUpdateDTO = UserUpdateDTO(name: Option<string>)
  {
    predicate Valid() { name.Some? ==> ValidName(name.value) }

    /** The non-None fields of `model_dump()`, the columns an update writes. */
    function UpdateData(): (data: map<string, string>)
      ensures data.Keys <= {"name"}
      ensures "name" in data <==> name.Some?
      ensures "name" in data ==> data["name"] == name.value
    {
      if name.Some? then map["name" := name.value] else map[]
    }

    /** `any(v is not None for v in model_dump().values())`. */
    predicate HasData()
    {
      name.Some?
    }
  }

  /** Constructing a `UserDTO` validates its fields. */
  function NewUserDTO(email: string, name: string, createdAt: Option<nat> := None): (r: Result<UserDTO, ValidationError>)
    ensures r.Success? <==> ValidName(name)
    ensures r.Success? ==> r.value.Valid() && r.value == UserDTO(email, name, createdAt)
    ensures r.Failure? ==> Some(r.error) == CheckName(name)
  {
    match CheckName(name)
    case Some(e) => Failure(e)
    case None => Success(UserDTO(email, name, createdAt))
  }

  /** Constructing a `UserCreateDTO` validates its fields. */
  function NewUserCreateDTO(email: string, name: string): (r: Result<UserCreateDTO, ValidationError>)
    ensures r.Success? <==> ValidName(name)
    ensures r.Success? ==> r.value.Valid() && r.value == UserCreateDTO(email, name)
  {
    match CheckName(name)
    case Some(e) => Failure(e)
    case None => Success(UserCreateDTO(email, name))
  }

  /** Constructing a `UserUpdateDTO` validates `name` only when it is given. */
  function NewUserUpdateDTO(name: Option<string> := None): (r: Result<UserUpdateDTO, ValidationError>)
    ensures r.Success? <==> (name.None? || ValidName(name.value))
    ensures r.Success? ==> r.value.Valid() && r.value.name == name
  {
    if name.None? then Success(UserUpdateDTO(None))
    else match CheckName(name.value)
      case Some(e) => Failure(e)
      case None => Success(UserUpdateDTO(name))
  }

  /** `UserDTO.from_orm`: copies email, name and created_at from the row and validates them. */
  function FromOrm(row: UserRow): (r: Result<UserDTO, ValidationError>)
    ensures r.Success? <==> ValidName(row.name)
    ensures r.Success? ==> r.value.Valid() && r.value == UserDTO(row.email, row.name, Some(row.createdAt))
  {
    NewUserDTO(row.email, row.name, Some(row.createdAt))
  }

  /** The defaults: an update built without arguments carries no data; a DTO built without `created_at` has None. */
  lemma Defaults(email: string, name: string)
    requires ValidName(name)
    ensures NewUserUpdateDTO() == Success(UserUpdateDTO(None))
    ensures !NewUserUpdateDTO().value.HasData() && NewUserUpdateDTO().value.UpdateData() == map[]
    ensures NewUserDTO(email, name) == Success(UserDTO(email, name, None))
  {
  }

  /** The names the constraint admits are exactly those of length 1 to 255. */
  lemma NameBounds()
    ensures !ValidName("") && ValidName("a")
    ensures forall s: string :: |s| == 255 ==> ValidName(s)
    ensures forall s: string :: |s| == 256 ==> !ValidName(s)
  {
  }
}
