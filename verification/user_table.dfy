/**
 * The `user` table as the repository sees it: rows in storage order, keyed
 * by e-mail. These pure functions state what each SQL statement issued by
 * backend/app/repository/user.py does to the rows; the repository methods
 * are proved against them.
 */
module UserTable {
  import opened Wrappers
  import opened UserDto

  type Table = seq<UserRow>

  function Emails(t: Table): set<string>
  {
    set i | 0 <= i < |t| :: t[i].email
  }

  lemma EmailsConcat(a: Table, b: Table)
    ensures Emails(a + b) == Emails(a) + Emails(b)
  {
    var ab := a + b;
    forall e | e in Emails(ab) ensures e in Emails(a) + Emails(b) {
      var i :| 0 <= i < |ab| && ab[i].email == e;
      if i >= |a| { assert b[i - |a|].email == e; }
    }
    forall e | e in Emails(a) + Emails(b) ensures e in Emails(ab) {
      if e in Emails(a) {
        var i :| 0 <= i < |a| && a[i].email == e;
        assert ab[i].email == e;
      } else {
        var i :| 0 <= i < |b| && b[i].email == e;
        assert ab[|a| + i].email == e;
      }
    }
  }

  lemma EmailsSingleton(row: UserRow)
    ensures Emails([row]) == {row.email}
  {
    assert [row][0].email == row.email;
  }

  /** E-mail is the table's unique key. */
  predicate UniqueEmails(t: Table)
  {
    forall i, j :: 0 <= i < j < |t| ==> t[i].email != t[j].email
  }

  /** The record invariant: unique e-mails, and every stored name passes the DTO constraint. */
  predicate Valid(t: Table)
  {
    UniqueEmails(t) && forall i :: 0 <= i < |t| ==> ValidName(t[i].name)
  }

  /** The tail of a valid table is valid and does not hold the head's e-mail. */
  lemma ValidTail(t: Table)
    requires Valid(t) && |t| > 0
    ensures Valid(t[1..]) && Emails(t) == {t[0].email} + Emails(t[1..]) && t[0].email !in Emails(t[1..])
  {
    assert t == [t[0]] + t[1..];
    EmailsConcat([t[0]], t[1..]);
    EmailsSingleton(t[0]);
    forall j | 0 <= j < |t[1..]| ensures t[1..][j].email != t[0].email {
      assert t[1..][j] == t[j + 1];
    }
  }

  /** A valid row whose e-mail is fresh can be put in front of a valid table. */
  lemma ValidCons(row: UserRow, t: Table)
    requires Valid(t) && ValidName(row.name) && row.email !in Emails(t)
    ensures Valid([row] + t) && Emails([row] + t) == {row.email} + Emails(t)
  {
    var r := [row] + t;
    EmailsConcat([row], t);
    EmailsSingleton(row);
    forall i, j | 0 <= i < j < |r| ensures r[i].email != r[j].email {
      assert r[j] == t[j - 1];
      if i > 0 { assert r[i] == t[i - 1]; }
    }
  }

  /** `SELECT ... WHERE email = :email`, `scalar_one_or_none`. */
  function Find(t: Table, email: string): (r: Option<UserRow>)
    ensures r.Some? <==> email in Emails(t)
    ensures r.Some? ==> r.value in t && r.value.email == email
    decreases |t|
  {
    if |t| == 0 then None
    else if t[0].email == email then Some(t[0])
    else
      assert Emails(t) == {t[0].email} + Emails(t[1..]);
      Find(t[1..], email)
  }

  /** In a valid table the row found is the one row holding that e-mail. */
  lemma FindUnique(t: Table, i: nat)
    requires Valid(t) && i < |t|
    ensures Find(t, t[i].email) == Some(t[i])
  {
    var r := Find(t, t[i].email);
    var j :| 0 <= j < |t| && t[j] == r.value;
    assert j == i;
  }

  /** `SELECT count(email) WHERE email = :email`. */
  function CountEmail(t: Table, email: string): nat
    decreases |t|
  {
    if |t| == 0 then 0 else (if t[0].email == email then 1 else 0) + CountEmail(t[1..], email)
  }

  /** `exists`: the count is positive exactly when the lookup finds a row, and never above one. */
  lemma {:induction false} CountEmailMatchesFind(t: Table, email: string)
    requires UniqueEmails(t)
    ensures CountEmail(t, email) == if Find(t, email).Some? then 1 else 0
    decreases |t|
  {
    if |t| > 0 {
      assert UniqueEmails(t[1..]);
      CountEmailMatchesFind(t[1..], email);
      if t[0].email == email {
        assert email !in Emails(t[1..]);
      }
    }
  }

  /** `INSERT`: the new row is stored after the existing ones. */
  function Insert(t: Table, email: string, name: string, now: nat): (r: Table)
    requires email !in Emails(t)
    ensures Valid(t) && ValidName(name) ==> Valid(r)
    ensures Emails(r) == Emails(t) + {email} && |r| == |t| + 1
    ensures Find(r, email) == Some(User(email, name, now))
    ensures forall e :: e != email ==> Find(r, e) == Find(t, e)
  {
    var r := t + [User(email, name, now)];
    EmailsConcat(t, [User(email, name, now)]);
    EmailsSingleton(User(email, name, now));
    FindAppend(t, User(email, name, now));
    r
  }

  lemma {:induction false} FindAppend(t: Table, row: UserRow)
    requires row.email !in Emails(t)
    ensures Find(t + [row], row.email) == Some(row)
    ensures forall e :: e != row.email ==> Find(t + [row], e) == Find(t, e)
    decreases |t|
  {
    if |t| > 0 {
      assert (t + [row])[1..] == t[1..] + [row];
      assert Emails(t) == {t[0].email} + Emails(t[1..]);
      FindAppend(t[1..], row);
    }
  }

  /** `UPDATE user SET name = :name WHERE email = :email`. */
  function SetName(t: Table, email: string, name: string): (r: Table)
    ensures |r| == |t| && Emails(r) == Emails(t)
    ensures forall i :: 0 <= i < |t| ==> r[i].email == t[i].email && r[i].createdAt == t[i].createdAt
    ensures forall i :: 0 <= i < |t| ==> r[i].name == if t[i].email == email then name else t[i].name
  {
    var r := seq(|t|, i requires 0 <= i < |t| => if t[i].email == email then t[i].(name := name) else t[i]);
    assert forall i :: 0 <= i < |t| ==> r[i].email == t[i].email;
    assert Emails(r) == Emails(t) by {
      forall e | e in Emails(t) ensures e in Emails(r) {
        var i :| 0 <= i < |t| && t[i].email == e;
        assert r[i].email == e;
      }
    }
    r
  }

  /** Updating a name keeps the table valid and changes exactly the row it names. */
  lemma {:induction false} FindAfterSetName(t: Table, email: string, name: string, e: string)
    requires Valid(t) && ValidName(name)
    ensures Valid(SetName(t, email, name))
    ensures Find(SetName(t, email, name), e)
         == if e == email && Find(t, e).Some? then Some(Find(t, e).value.(name := name)) else Find(t, e)
  {
    var r := SetName(t, email, name);
    match Find(t, e)
    case None =>
      assert e !in Emails(r);
    case Some(row) =>
      var i :| 0 <= i < |t| && t[i] == row;
      FindUnique(t, i);
      FindUnique(r, i);
  }

  /** `DELETE FROM user WHERE email = :email`. */
  function Delete(t: Table, email: string): (r: Table)
    ensures email !in Emails(r) && Emails(r) == Emails(t) - {email}
    ensures forall row :: row in r <==> row in t && row.email != email
    decreases |t|
  {
    if |t| == 0 then []
    else
      var rest := Delete(t[1..], email);
      assert Emails(t) == {t[0].email} + Emails(t[1..]);
      if t[0].email == email then rest
      else
        var r := [t[0]] + rest;
        EmailsConcat([t[0]], rest);
        EmailsSingleton(t[0]);
        r
  }

  /** Deleting removes one row when the e-mail is stored, none otherwise, and keeps the table valid. */
  lemma {:induction false} DeleteSize(t: Table, email: string)
    requires Valid(t)
    ensures Valid(Delete(t, email))
    ensures |Delete(t, email)| == if email in Emails(t) then |t| - 1 else |t|
    decreases |t|
  {
    if |t| > 0 {
      ValidTail(t);
      DeleteSize(t[1..], email);
      var rest := Delete(t[1..], email);
      if t[0].email == email {
        assert rest == Delete(t, email);
      } else {
        assert [t[0]] + rest == Delete(t, email);
        assert t[0].email !in Emails(rest);
        ValidCons(t[0], rest);
      }
    }
  }

  /** Deleting leaves the lookup of every other e-mail as it was. */
  lemma FindAfterDelete(t: Table, email: string, e: string)
    requires Valid(t)
    ensures Find(Delete(t, email), e) == if e == email then None else Find(t, e)
  {
    var r := Delete(t, email);
    DeleteSize(t, email);
    if e != email {
      match Find(t, e)
      case None =>
      case Some(row) =>
        assert row in r;
        var i :| 0 <= i < |r| && r[i] == row;
        FindUnique(r, i);
    }
  }

  // ----- listing: ORDER BY created_at DESC OFFSET :skip LIMIT :limit -----

  predicate NewestFirst(s: seq<UserRow>)
  {
    forall i, j :: 0 <= i < j < |s| ==> s[i].createdAt >= s[j].createdAt
  }

  function InsertByAge(row: UserRow, s: seq<UserRow>): (r: seq<UserRow>)
    requires NewestFirst(s)
    ensures NewestFirst(r) && multiset(r) == multiset(s) + multiset{row}
    ensures |r| == |s| + 1
    decreases |s|
  {
    if |s| == 0 || s[0].createdAt <= row.createdAt then
      NewestFirstCons(row, s);
      [row] + s
    else
      var rest := InsertByAge(row, s[1..]);
      assert s == [s[0]] + s[1..];
      NoNewerThan(rest, s[1..], row, s[0].createdAt);
      NewestFirstCons(s[0], rest);
      [s[0]] + rest
  }

  /** A newest-first sequence stays newest first when a row no older than its head is put in front. */
  lemma NewestFirstCons(x: UserRow, r: seq<UserRow>)
    requires NewestFirst(r)
    requires |r| > 0 ==> r[0].createdAt <= x.createdAt
    ensures NewestFirst([x] + r)
  {
    var s := [x] + r;
    forall i, j | 0 <= i < j < |s| ensures s[i].createdAt >= s[j].createdAt {
      if i == 0 {
        assert s[j] == r[j - 1];
        assert r[0].createdAt >= r[j - 1].createdAt;
      } else {
        assert s[i] == r[i - 1] && s[j] == r[j - 1];
      }
    }
  }

  /** When `r` holds exactly the rows of `s` and `row`, none newer than `bound`, its head is not newer than `bound` either. */
  lemma NoNewerThan(r: seq<UserRow>, s: seq<UserRow>, row: UserRow, bound: nat)
    requires multiset(r) == multiset(s) + multiset{row} && |r| > 0
    requires NewestFirst(s) && (|s| > 0 ==> s[0].createdAt <= bound) && row.createdAt <= bound
    ensures r[0].createdAt <= bound
  {
    assert r[0] in multiset(r);
    if r[0] != row {
      assert r[0] in multiset(s);
      var k :| 0 <= k < |s| && s[k] == r[0];
      assert s[0].createdAt >= s[k].createdAt || k == 0;
    }
  }

  /**
   * The rows newest first. Rows with equal `created_at` keep their storage
   * order: the database leaves that order open, and this is one of the
   * orders it may return.
   */
  function SortByAge(t: Table): (r: seq<UserRow>)
    ensures NewestFirst(r) && multiset(r) == multiset(t) && |r| == |t|
    decreases |t|
  {
    if |t| == 0 then []
    else
      assert t == [t[0]] + t[1..];
      InsertByAge(t[0], SortByAge(t[1..]))
  }

  function Min(a: int, b: int): int { if a <= b then a else b }

  /** `get_all(skip, limit)`: newest first, `skip` rows skipped, at most `limit` rows returned. */
  function Page(t: Table, skip: nat, limit: nat): (r: seq<UserRow>)
    ensures |r| == Min(limit, |t| - Min(skip, |t|))
    ensures NewestFirst(r)
    ensures multiset(r) <= multiset(t)
  {
    var s := SortByAge(t);
    var lo := Min(skip, |s|);
    var hi := Min(skip + limit, |s|);
    SliceMultiset(s, lo, hi);
    s[lo..hi]
  }

  /** A table with unique e-mails holds each row at most once. */
  lemma {:induction false} RowOnce(t: Table, row: UserRow)
    requires UniqueEmails(t)
    ensures multiset(t)[row] <= 1
    decreases |t|
  {
    if |t| > 0 {
      var tail := t[1..];
      assert t == [t[0]] + tail;
      forall i, j | 0 <= i < j < |tail| ensures tail[i].email != tail[j].email {
        assert tail[i] == t[i + 1] && tail[j] == t[j + 1];
      }
      RowOnce(tail, row);
      forall k | 0 <= k < |tail| ensures tail[k] != t[0] {
        assert tail[k] == t[k + 1];
      }
      assert t[0] !in tail;
    }
  }

  /** Rows drawn from a table with unique e-mails, none more often than stored, keep e-mails unique. */
  lemma SubTableUnique(p: seq<UserRow>, t: Table)
    requires UniqueEmails(t) && multiset(p) <= multiset(t)
    ensures UniqueEmails(p)
  {
    forall i, j | 0 <= i < j < |p| ensures p[i].email != p[j].email {
      DistinctRows(p, t, i, j);
    }
  }

  lemma DistinctRows(p: seq<UserRow>, t: Table, i: nat, j: nat)
    requires UniqueEmails(t) && multiset(p) <= multiset(t) && i < j < |p|
    ensures p[i].email != p[j].email
  {
    assert p == p[..i] + [p[i]] + p[i + 1..j] + [p[j]] + p[j + 1..];
    assert multiset(p)[p[i]] >= 1 + (if p[j] == p[i] then 1 else 0);
    RowOnce(t, p[i]);
    assert p[i] != p[j];
    assert p[i] in multiset(p) && p[j] in multiset(p);
    var a :| 0 <= a < |t| && t[a] == p[i];
    var b :| 0 <= b < |t| && t[b] == p[j];
    assert a != b;
  }

  /** Every row of a page is the row stored under its e-mail, and no e-mail is listed twice. */
  lemma PageRowsFound(t: Table, skip: nat, limit: nat)
    requires Valid(t)
    ensures forall k :: 0 <= k < |Page(t, skip, limit)| ==>
      Find(t, Page(t, skip, limit)[k].email) == Some(Page(t, skip, limit)[k])
    ensures UniqueEmails(Page(t, skip, limit))
  {
    var page := Page(t, skip, limit);
    forall k | 0 <= k < |page| ensures Find(t, page[k].email) == Some(page[k]) {
      assert page[k] in multiset(page);
      var i :| 0 <= i < |t| && t[i] == page[k];
      FindUnique(t, i);
    }
    SubTableUnique(page, t);
  }

  lemma SliceMultiset(s: seq<UserRow>, lo: nat, hi: nat)
    requires lo <= hi <= |s|
    ensures multiset(s[lo..hi]) <= multiset(s)
    ensures NewestFirst(s) ==> NewestFirst(s[lo..hi])
  {
    assert s == s[..lo] + s[lo..hi] + s[hi..];
    calc {
      multiset(s);
      multiset(s[..lo] + s[lo..hi] + s[hi..]);
      multiset(s[..lo]) + multiset(s[lo..hi]) + multiset(s[hi..]);
    }
  }

  /** Two consecutive pages together are the page that spans both. */
  lemma PagesConcatenate(t: Table, skip: nat, a: nat, b: nat)
    ensures Page(t, skip, a) + Page(t, skip + a, b) == Page(t, skip, a + b)
  {
    var s := SortByAge(t);
    var lo, mid, hi := Min(skip, |s|), Min(skip + a, |s|), Min(skip + a + b, |s|);
    assert s[lo..mid] + s[mid..hi] == s[lo..hi];
  }

  /** A page whose limit covers the table lists every row exactly once, newest first. */
  lemma FullPage(t: Table, limit: nat)
    requires limit >= |t|
    ensures multiset(Page(t, 0, limit)) == multiset(t)
    ensures Page(t, 0, limit) == SortByAge(t)
  {
    var s := SortByAge(t);
    assert s[0..|s|] == s;
  }
}
