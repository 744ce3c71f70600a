/**
 * Multi-step behaviour of the user service, stated over the operation
 * functions of `Service`: the bulk create / update / delete sequence of
 * backend/test/integration/test_user_service.py and the pagination it checks.
 */
module Scenarios {
  import opened Wrappers
  import opened Text
  import opened UserDto
  import opened UserTable
  import opened Repository
  import opened Service

  predicate Distinct(emails: seq<string>)
  {
    forall i, j :: 0 <= i < j < |emails| ==> emails[i] != emails[j]
  }

  predicate AllValidNames(names: seq<string>) { forall i :: 0 <= i < |names| ==> ValidName(names[i]) }

  /** `create_user` on each DTO in turn; the flag says whether every call succeeded. */
  function CreateAll(t: Table, emails: seq<string>, names: seq<string>, times: seq<nat>): (out: (bool, Table))
    requires Valid(t) && |names| == |emails| == |times| && AllValidNames(names)
    ensures Valid(out.1)
    decreases |emails|
  {
    if |emails| == 0 then (true, t)
    else
      var step := CreateUserSpec(t, UserCreateDTO(emails[0], names[0]), times[0]);
      var rest := CreateAll(step.1, emails[1..], names[1..], times[1..]);
      (step.0.Success? && rest.0, rest.1)
  }

  /** `update_user(emails[i], UserUpdateDTO(name=names[i]))` for each i in turn. */
  function UpdateAll(t: Table, emails: seq<string>, names: seq<string>): (out: (bool, Table))
    requires Valid(t) && |names| == |emails| && AllValidNames(names)
    ensures Valid(out.1)
    decreases |emails|
  {
    if |emails| == 0 then (true, t)
    else
      var step := UpdateUserSpec(t, emails[0], UserUpdateDTO(Some(names[0])));
      var rest := UpdateAll(step.1, emails[1..], names[1..]);
      (step.0.Success? && rest.0, rest.1)
  }

  /** `delete_user` on each e-mail in turn. */
  function DeleteAll(t: Table, emails: seq<string>): (out: (bool, Table))
    requires Valid(t)
    ensures Valid(out.1)
    decreases |emails|
  {
    if |emails| == 0 then (true, t)
    else
      var step := DeleteUserSpec(t, emails[0]);
      var rest := DeleteAll(step.1, emails[1..]);
      (step.0.Success? && rest.0, rest.1)
  }

  function AsSet(emails: seq<string>): set<string> { set i | 0 <= i < |emails| :: emails[i] }

  lemma AsSetTail(emails: seq<string>)
    requires |emails| > 0
    ensures AsSet(emails) == {emails[0]} + AsSet(emails[1..])
  {
    forall e | e in AsSet(emails) ensures e in {emails[0]} + AsSet(emails[1..]) {
      var i :| 0 <= i < |emails| && emails[i] == e;
      if i > 0 { assert emails[1..][i - 1] == e; }
    }
  }

  lemma HeadNotInTail(emails: seq<string>)
    requires |emails| > 0 && Distinct(emails)
    ensures emails[0] !in AsSet(emails[1..])
  {
    forall j | 0 <= j < |emails[1..]| ensures emails[1..][j] != emails[0] {
      assert emails[1..][j] == emails[j + 1];
    }
  }

  lemma DistinctTail(emails: seq<string>)
    requires |emails| > 0 && Distinct(emails)
    ensures Distinct(emails[1..])
  {
    forall i, j | 0 <= i < j < |emails[1..]| ensures emails[1..][i] != emails[1..][j] {
      assert emails[1..][i] == emails[i + 1] && emails[1..][j] == emails[j + 1];
    }
  }

  /** Creating users with fresh, distinct e-mails succeeds every time and stores each one. */
  lemma {:induction false} CreateAllStores(t: Table, emails: seq<string>, names: seq<string>, times: seq<nat>)
    requires Valid(t) && |names| == |emails| == |times| && AllValidNames(names)
    requires Distinct(emails) && AsSet(emails) !! Emails(t)
    ensures CreateAll(t, emails, names, times).0
    ensures |CreateAll(t, emails, names, times).1| == |t| + |emails|
    ensures Emails(CreateAll(t, emails, names, times).1) == Emails(t) + AsSet(emails)
    ensures forall i :: 0 <= i < |emails| ==>
      Find(CreateAll(t, emails, names, times).1, emails[i]) == Some(User(emails[i], names[i], times[i]))
    ensures forall e :: e !in AsSet(emails) ==> Find(CreateAll(t, emails, names, times).1, e) == Find(t, e)
    decreases |emails|
  {
    if |emails| > 0 {
      var step := CreateUserSpec(t, UserCreateDTO(emails[0], names[0]), times[0]);
      AsSetTail(emails);
      assert emails[0] !in Emails(t);
      HeadNotInTail(emails);
      DistinctTail(emails);
      CreateAllStores(step.1, emails[1..], names[1..], times[1..]);
      var out := CreateAll(t, emails, names, times).1;
      forall i | 0 <= i < |emails| ensures Find(out, emails[i]) == Some(User(emails[i], names[i], times[i])) {
        if i > 0 {
          assert emails[1..][i - 1] == emails[i];
        }
      }
    }
  }

  /** Updating stored, distinct users succeeds every time and leaves each with its new name. */
  lemma {:induction false} UpdateAllRenames(t: Table, emails: seq<string>, names: seq<string>)
    requires Valid(t) && |names| == |emails| && AllValidNames(names)
    requires Distinct(emails) && AsSet(emails) <= Emails(t)
    ensures UpdateAll(t, emails, names).0
    ensures |UpdateAll(t, emails, names).1| == |t| && Emails(UpdateAll(t, emails, names).1) == Emails(t)
    ensures forall i :: 0 <= i < |emails| ==>
      Find(UpdateAll(t, emails, names).1, emails[i]) == Some(Find(t, emails[i]).value.(name := names[i]))
    ensures forall e :: e !in AsSet(emails) ==> Find(UpdateAll(t, emails, names).1, e) == Find(t, e)
    decreases |emails|
  {
    if |emails| > 0 {
      var step := UpdateUserSpec(t, emails[0], UserUpdateDTO(Some(names[0])));
      AsSetTail(emails);
      assert emails[0] in Emails(t);
      HeadNotInTail(emails);
      DistinctTail(emails);
      assert AsSet(emails[1..]) <= Emails(step.1);
      UpdateAllRenames(step.1, emails[1..], names[1..]);
      var out := UpdateAll(step.1, emails[1..], names[1..]).1;
      assert out == UpdateAll(t, emails, names).1;
      forall i | 0 <= i < |emails| ensures Find(out, emails[i]) == Some(Find(t, emails[i]).value.(name := names[i])) {
        if i == 0 {
          assert Find(out, emails[0]) == Find(step.1, emails[0]);
        } else {
          assert emails[1..][i - 1] == emails[i] && names[1..][i - 1] == names[i];
          assert emails[i] != emails[0];
          assert Find(step.1, emails[i]) == Find(t, emails[i]);
        }
      }
    }
  }

  /** Deleting stored, distinct users succeeds every time and removes exactly them. */
  lemma {:induction false} DeleteAllRemoves(t: Table, emails: seq<string>)
    requires Valid(t) && Distinct(emails) && AsSet(emails) <= Emails(t)
    ensures DeleteAll(t, emails).0
    ensures |DeleteAll(t, emails).1| == |t| - |emails|
    ensures Emails(DeleteAll(t, emails).1) == Emails(t) - AsSet(emails)
    ensures forall e :: e !in AsSet(emails) ==> Find(DeleteAll(t, emails).1, e) == Find(t, e)
    decreases |emails|
  {
    if |emails| > 0 {
      var step := DeleteUserSpec(t, emails[0]);
      AsSetTail(emails);
      assert emails[0] in AsSet(emails);
      HeadNotInTail(emails);
      DistinctTail(emails);
      DeleteAllRemoves(step.1, emails[1..]);
    }
  }

  lemma AsSetSlices(emails: seq<string>, k: nat)
    requires k <= |emails|
    ensures AsSet(emails[..k]) <= AsSet(emails) && AsSet(emails[k..]) <= AsSet(emails)
    ensures AsSet(emails) == AsSet(emails[..k]) + AsSet(emails[k..])
  {
    forall e | e in AsSet(emails) ensures e in AsSet(emails[..k]) + AsSet(emails[k..]) {
      var i :| 0 <= i < |emails| && emails[i] == e;
      if i < k { assert emails[..k][i] == e; } else { assert emails[k..][i - k] == e; }
    }
    forall e | e in AsSet(emails[..k]) ensures e in AsSet(emails) {
      var i :| 0 <= i < k && emails[..k][i] == e;
      assert emails[i] == e;
    }
    forall e | e in AsSet(emails[k..]) ensures e in AsSet(emails) {
      var i :| 0 <= i < |emails| - k && emails[k..][i] == e;
      assert emails[k + i] == e;
    }
  }

  /** A listing whose limit covers the table shows every stored row, at index `j`. */
  lemma ListedWhenStored(t: Table, limit: nat, row: UserRow) returns (j: nat)
    requires Valid(t) && limit >= |t| && row in t
    ensures j < |Listing(t, 0, limit)| && Listing(t, 0, limit)[j] == ToDto(row)
  {
    FullPage(t, limit);
    var page := Page(t, 0, limit);
    assert row in multiset(page);
    j :| 0 <= j < |page| && page[j] == row;
  }

  /** Some entry of `final` is the user `email` with name `name`. */
  predicate Shows(final: seq<UserDTO>, email: string, name: string)
  {
    exists j :: 0 <= j < |final| && final[j].email == email && final[j].name == name
  }

  /** Every renamed user appears in `final` under its new name. */
  predicate ListsRenamed(final: seq<UserDTO>, emails: seq<string>, newNames: seq<string>)
    requires |newNames| <= |emails|
  {
    forall i :: 0 <= i < |newNames| ==> Shows(final, emails[i], newNames[i])
  }

  /** Distinct e-mails are as many as their set. */
  lemma {:induction false} DistinctSize(emails: seq<string>)
    requires Distinct(emails)
    ensures |AsSet(emails)| == |emails|
    decreases |emails|
  {
    if |emails| > 0 {
      AsSetTail(emails);
      HeadNotInTail(emails);
      DistinctTail(emails);
      DistinctSize(emails[1..]);
    }
  }

  /** Both halves of a distinct sequence are distinct, and no front element recurs in the back. */
  lemma DistinctSlices(emails: seq<string>, k: nat)
    requires Distinct(emails) && k <= |emails|
    ensures Distinct(emails[..k]) && Distinct(emails[k..])
    ensures forall i :: 0 <= i < k ==> emails[i] !in AsSet(emails[k..])
  {
    var front, back := emails[..k], emails[k..];
    forall i, j | 0 <= i < j < |front| ensures front[i] != front[j] { assert front[i] == emails[i] && front[j] == emails[j]; }
    forall i, j | 0 <= i < j < |back| ensures back[i] != back[j] { assert back[i] == emails[k + i] && back[j] == emails[k + j]; }
    forall i | 0 <= i < k ensures emails[i] !in AsSet(back) {
      forall m | 0 <= m < |back| ensures back[m] != emails[i] { assert back[m] == emails[k + m]; }
    }
  }

  /** Renaming the first `k` users and deleting the others leaves exactly the renamed ones. */
  lemma RenameThenDelete(t: Table, emails: seq<string>, newNames: seq<string>, k: nat)
    requires Valid(t) && Distinct(emails) && Emails(t) == AsSet(emails)
    requires k <= |emails| && |newNames| == k && AllValidNames(newNames)
    ensures UpdateAll(t, emails[..k], newNames).0
    ensures DeleteAll(UpdateAll(t, emails[..k], newNames).1, emails[k..]).0
    ensures |DeleteAll(UpdateAll(t, emails[..k], newNames).1, emails[k..]).1| == k
    ensures forall i :: 0 <= i < k ==>
      Find(DeleteAll(UpdateAll(t, emails[..k], newNames).1, emails[k..]).1, emails[i]).Some? &&
      Find(DeleteAll(UpdateAll(t, emails[..k], newNames).1, emails[k..]).1, emails[i]).value.name == newNames[i]
  {
    AsSetSlices(emails, k);
    DistinctSlices(emails, k);
    DistinctSize(emails);
    RowCountIsUserCount(t);
    var front, back := emails[..k], emails[k..];
    UpdateAllRenames(t, front, newNames);
    var updated := UpdateAll(t, front, newNames).1;
    DeleteAllRemoves(updated, back);
    var remaining := DeleteAll(updated, back).1;
    forall i | 0 <= i < k
      ensures Find(remaining, emails[i]).Some? && Find(remaining, emails[i]).value.name == newNames[i]
    {
      assert front[i] == emails[i];
    }
  }

  /** A default listing of at most 100 users shows every renamed user under its new name. */
  lemma ListsRenamedOf(t: Table, emails: seq<string>, newNames: seq<string>)
    requires Valid(t) && |t| <= 100 && |newNames| <= |emails|
    requires forall i :: 0 <= i < |newNames| ==> Find(t, emails[i]).Some? && Find(t, emails[i]).value.name == newNames[i]
    ensures ListsRenamed(Listing(t, 0, 100), emails, newNames)
  {
    var final := Listing(t, 0, 100);
    forall i | 0 <= i < |newNames| ensures Shows(final, emails[i], newNames[i]) {
      ListedUnderName(t, emails[i], newNames[i]);
    }
  }

  /** A stored user appears in a listing that covers the table, under its stored name. */
  lemma ListedUnderName(t: Table, email: string, name: string)
    requires Valid(t) && |t| <= 100
    requires Find(t, email).Some? && Find(t, email).value.name == name
    ensures Shows(Listing(t, 0, 100), email, name)
  {
    var j := ListedWhenStored(t, 100, Find(t, email).value);
  }

  /** Creating distinct users into an empty table succeeds, and a listing counts all of them. */
  lemma CreateAllListed(emails: seq<string>, names: seq<string>, times: seq<nat>, pageSize: nat)
    requires Distinct(emails) && |names| == |emails| == |times| && AllValidNames(names)
    ensures CreateAll([], emails, names, times).0
    ensures Emails(CreateAll([], emails, names, times).1) == AsSet(emails)
    ensures GetAllUsersSpec(CreateAll([], emails, names, times).1, 0, pageSize).1 == |emails|
    ensures |GetAllUsersSpec(CreateAll([], emails, names, times).1, 0, pageSize).0| == Min(pageSize, |emails|)
  {
    var empty: Table := [];
    assert Emails(empty) == {};
    CreateAllStores(empty, emails, names, times);
  }

  /** Renaming the first `k` users and deleting the rest leaves `k` users, listed under their new names. */
  lemma RenameDeleteListed(t: Table, emails: seq<string>, newNames: seq<string>, k: nat)
    requires Valid(t) && Distinct(emails) && Emails(t) == AsSet(emails)
    requires k <= |emails| && |newNames| == k && AllValidNames(newNames)
    ensures UpdateAll(t, emails[..k], newNames).0
    ensures DeleteAll(UpdateAll(t, emails[..k], newNames).1, emails[k..]).0
    ensures GetAllUsersSpec(DeleteAll(UpdateAll(t, emails[..k], newNames).1, emails[k..]).1, 0, 100).1 == k
    ensures k <= 100 ==>
      ListsRenamed(GetAllUsersSpec(DeleteAll(UpdateAll(t, emails[..k], newNames).1, emails[k..]).1, 0, 100).0, emails, newNames)
  {
    RenameThenDelete(t, emails, newNames, k);
    var remaining := DeleteAll(UpdateAll(t, emails[..k], newNames).1, emails[k..]).1;
    if k <= 100 {
      ListsRenamedOf(remaining, emails, newNames);
    }
  }

  /**
   * The bulk scenario for any distinct e-mails: creating them all succeeds and
   * lists them all; renaming the first `k` and deleting the rest both succeed;
   * afterwards `k` users remain and a default listing shows each renamed user
   * with its new name.
   */
  lemma BulkOperations(emails: seq<string>, names: seq<string>, times: seq<nat>, newNames: seq<string>, k: nat, pageSize: nat)
    requires Distinct(emails) && |names| == |emails| == |times| && AllValidNames(names)
    requires k <= |emails| && |newNames| == k && AllValidNames(newNames)
    ensures CreateAll([], emails, names, times).0
    ensures GetAllUsersSpec(CreateAll([], emails, names, times).1, 0, pageSize).1 == |emails|
    ensures |GetAllUsersSpec(CreateAll([], emails, names, times).1, 0, pageSize).0| == Min(pageSize, |emails|)
    ensures UpdateAll(CreateAll([], emails, names, times).1, emails[..k], newNames).0
    ensures DeleteAll(UpdateAll(CreateAll([], emails, names, times).1, emails[..k], newNames).1, emails[k..]).0
    ensures GetAllUsersSpec(DeleteAll(UpdateAll(CreateAll([], emails, names, times).1, emails[..k], newNames).1, emails[k..]).1, 0, 100).1 == k
    ensures k <= 100 ==>
      ListsRenamed(GetAllUsersSpec(DeleteAll(UpdateAll(CreateAll([], emails, names, times).1, emails[..k], newNames).1, emails[k..]).1, 0, 100).0, emails, newNames)
  {
    CreateAllListed(emails, names, times, pageSize);
    RenameDeleteListed(CreateAll([], emails, names, times).1, emails, newNames, k);
  }

  /** `f"bulk{i}@example.com"` for i in 0..count. */
  function BulkEmails(count: nat): (emails: seq<string>)
    ensures |emails| == count
  {
    seq(count, i => "bulk" + IntToString(i) + "@example.com")
  }

  /** `prefix + str(i)` for i in 0..count, such as `f"Bulk User {i}"`. */
  function Numbered(prefix: string, count: nat): (names: seq<string>)
    ensures |names| == count
  {
    seq(count, i => prefix + IntToString(i))
  }

  lemma BulkEmailsDistinct(count: nat)
    ensures Distinct(BulkEmails(count))
  {
    var emails := BulkEmails(count);
    forall i, j | 0 <= i < j < count ensures emails[i] != emails[j] {
      var a, b := IntToString(i), IntToString(j);
      if emails[i] == emails[j] {
        assert |a| == |b|;
        assert a == emails[i][4..4 + |a|];
        assert b == emails[j][4..4 + |b|];
        IntToStringInjective(i, j);
      }
    }
  }

  lemma NumberedValid(prefix: string, count: nat)
    requires 1 <= |prefix| <= 254 && count <= 10
    ensures AllValidNames(Numbered(prefix, count))
  {
    forall i | 0 <= i < count ensures ValidName(Numbered(prefix, count)[i]) {
      assert |IntToString(i)| == 1;
    }
  }

  /**
   * The integration test's bulk scenario: ten users `f"bulk{i}@example.com"`
   * named `f"Bulk User {i}"` are created and listed with `limit=20`; the first
   * five are renamed `f"Updated Bulk User {i}"` and the last five deleted;
   * five remain and each renamed user is listed under its new name.
   */
  lemma BulkScenario(emails: seq<string>, names: seq<string>, newNames: seq<string>, times: seq<nat>)
    requires emails == BulkEmails(10) && names == Numbered("Bulk User ", 10)
    requires newNames == Numbered("Updated Bulk User ", 5) && |times| == 10
    ensures CreateAll([], emails, names, times).0
    ensures GetAllUsersSpec(CreateAll([], emails, names, times).1, 0, 20).1 == 10
    ensures |GetAllUsersSpec(CreateAll([], emails, names, times).1, 0, 20).0| == 10
    ensures UpdateAll(CreateAll([], emails, names, times).1, emails[..5], newNames).0
    ensures DeleteAll(UpdateAll(CreateAll([], emails, names, times).1, emails[..5], newNames).1, emails[5..]).0
    ensures GetAllUsersSpec(DeleteAll(UpdateAll(CreateAll([], emails, names, times).1, emails[..5], newNames).1, emails[5..]).1, 0, 100).1 == 5
    ensures ListsRenamed(GetAllUsersSpec(DeleteAll(UpdateAll(CreateAll([], emails, names, times).1, emails[..5], newNames).1, emails[5..]).1, 0, 100).0, emails, newNames)
  {
    BulkEmailsDistinct(10);
    NumberedValid("Bulk User ", 10);
    NumberedValid("Updated Bulk User ", 5);
    BulkOperations(emails, names, times, newNames, 5, 20);
  }
}
