/**
 * The contact repository of the contacts API: owner-scoped get, list, create, update and
 * remove, the four-field substring search and the upcoming-birthday list, over an in-memory
 * `contacts` table. The table's rows keep their insertion order, which is the order in which
 * a query without `order_by` returns them here.
 */
module Contacts {
  import opened Results
  import opened Seqs
  import opened Strings
  import opened Civil

  /** A row of the `contacts` table; `owner` is the nullable `user_id` foreign key. */
  datatype Contact = Contact(
    id: int,
    name: string,
    surname: string,
    email: string,
    phone: string,
    birthday: DateTime,
    createdAt: DateTime,
    description: Option<string>,
    owner: Option<int>)

  /** The request body of create and update. */
  datatype ContactBody = ContactBody(
    name: string,
    surname: string,
    email: string,
    phone: string,
    birthday: DateTime,
    description: Option<string>)

  /** `Contact.user_id == user.id`; a row whose `user_id` is NULL belongs to nobody. */
  predicate OwnedBy(c: Contact, userId: int) {
    c.owner == Some(userId)
  }

  function OwnedByUser(userId: int): Contact -> bool {
    c => OwnedBy(c, userId)
  }

  /** `and_(Contact.id == contact_id, Contact.user_id == user.id)` */
  function OwnedMatch(contactId: int, userId: int): Contact -> bool {
    (c: Contact) => c.id == contactId && OwnedBy(c, userId)
  }

  /** The search rule: the lower-cased query occurs in the lower-cased name, surname or email, or in the phone as stored. */
  predicate MatchesQuery(c: Contact, query: string) {
    var q := Lower(query);
    Contains(Lower(c.name), q) || Contains(Lower(c.surname), q) || Contains(Lower(c.email), q) || Contains(c.phone, q)
  }

  function Matching(query: string): Contact -> bool {
    c => MatchesQuery(c, query)
  }

  /**
   * The birthday rule: the birthday moved into the year of `now` lies strictly between one day
   * before `now` and seven days after it.
   */
  predicate InBirthdayWindow(c: Contact, now: DateTime) {
    && ValidDateTime(now)
    && match ReplaceYear(c.birthday, now.year)
       case Success(moved) => -SecondsPerDay < Instant(moved) - Instant(now) < 7 * SecondsPerDay
       case Failure(_) => false
  }

  function UpcomingAt(now: DateTime): Contact -> bool {
    c => InBirthdayWindow(c, now)
  }

  /** Another row already holds this email or phone (both columns are UNIQUE). */
  predicate Clashes(c: Contact, email: string, phone: string) {
    c.email == email || c.phone == phone
  }

  ghost predicate UniqueIds(rows: seq<Contact>) {
    forall i, j :: 0 <= i < j < |rows| ==> rows[i].id != rows[j].id
  }

  lemma UniqueIdsDistinct(rows: seq<Contact>)
    requires UniqueIds(rows)
    ensures Distinct(rows)
  {
  }

  /** The table's constraints: primary key, UNIQUE email and phone, and well-formed birthdays. */
  ghost predicate TableInvariant(rows: seq<Contact>, nextId: int) {
    && UniqueIds(rows)
    && (forall i, j :: 0 <= i < j < |rows| ==> rows[i].email != rows[j].email && rows[i].phone != rows[j].phone)
    && (forall c :: c in rows ==> c.id < nextId && ValidDateTime(c.birthday))
  }

  /** Deleting one row keeps the constraints, and no remaining row shares the deleted row's id. */
  lemma DeleteKeepsInvariant(rows: seq<Contact>, nextId: int, i: int)
    requires TableInvariant(rows, nextId) && 0 <= i < |rows|
    ensures TableInvariant(rows[..i] + rows[i + 1..], nextId)
    ensures forall c :: c in rows[..i] + rows[i + 1..] ==> c.id != rows[i].id
  {
    var rest := rows[..i] + rows[i + 1..];
    assert forall k :: 0 <= k < |rest| ==> rest[k] == rows[if k < i then k else k + 1];
  }

  class ContactTable {
    var rows: seq<Contact>
    /** The next value of the primary-key sequence; ids are never reused. */
    var nextId: int

    ghost predicate Valid()
      reads this
    {
      TableInvariant(rows, nextId)
    }

    constructor ()
      ensures Valid() && rows == [] && nextId == 1
    {
      rows := [];
      nextId := 1;
    }

    /** `get_contacts`: the caller's contacts, each once, in table order. */
    function GetContacts(userId: int): (r: seq<Contact>)
      reads this
      ensures forall c :: c in r <==> c in rows && OwnedBy(c, userId)
      ensures IsSubsequence(r, rows)
    {
      Filter(rows, OwnedByUser(userId))
    }

    /** `get_contact`: the contact with this id if the caller owns it, otherwise `None`. */
    function GetContact(contactId: int, userId: int): (r: Option<Contact>)
      reads this
      ensures r.Some? ==> r.value in rows && r.value.id == contactId && OwnedBy(r.value, userId)
      ensures r.None? <==> forall c :: c in rows ==> !(c.id == contactId && OwnedBy(c, userId))
    {
      match FirstIndex(rows, OwnedMatch(contactId, userId))
      case Some(i) => Some(rows[i])
      case None => None
    }

    /**
     * `create_contact`: appends a row with the body's fields, owned by the caller, under a fresh id.
     * A body whose email or phone is already taken breaks a UNIQUE constraint: nothing is written.
     */
    method Create(body: ContactBody, userId: int, now: DateTime) returns (r: Result<Contact, StoreError>)
      requires Valid() && ValidDateTime(body.birthday)
      modifies this
      ensures Valid()
      ensures r.Failure? <==> exists c :: c in old(rows) && Clashes(c, body.email, body.phone)
      ensures r.Failure? ==> rows == old(rows) && nextId == old(nextId)
      ensures r.Success? ==>
        var c := r.value;
        && c.name == body.name && c.surname == body.surname && c.email == body.email
        && c.phone == body.phone && c.birthday == body.birthday && c.description == body.description
        && c.createdAt == now && OwnedBy(c, userId)
        && (forall old_c :: old_c in old(rows) ==> old_c.id != c.id)
        && rows == old(rows) + [c]
    {
      if exists c :: c in rows && Clashes(c, body.email, body.phone) {
        return Failure(UniqueViolation);
      }
      assert forall k :: 0 <= k < |rows| ==> !Clashes(rows[k], body.email, body.phone);
      var contact := Contact(nextId, body.name, body.surname, body.email, body.phone,
                             body.birthday, now, body.description, Some(userId));
      rows := rows + [contact];
      nextId := nextId + 1;
      return Success(contact);
    }

    /**
     * `update_contact`: overwrites the six fields of the caller's contact and keeps its id, owner
     * and creation time; every other row is untouched. With no owned match it returns `None` and
     * changes nothing; an email or phone held by another row breaks a UNIQUE constraint and
     * changes nothing either.
     */
    method Update(body: ContactBody, contactId: int, userId: int) returns (r: Result<Option<Contact>, StoreError>)
      requires Valid() && ValidDateTime(body.birthday)
      modifies this
      ensures Valid() && nextId == old(nextId) && |rows| == |old(rows)|
      ensures old(GetContact(contactId, userId)).None? ==> r == Success(None) && rows == old(rows)
      ensures old(GetContact(contactId, userId)).Some? ==>
        (r.Failure? <==> exists c :: c in old(rows) && c.id != contactId && Clashes(c, body.email, body.phone))
      ensures r.Failure? ==> rows == old(rows)
      ensures old(GetContact(contactId, userId)).Some? && r.Success? ==> r.value.Some?
      ensures r.Success? && r.value.Some? ==>
        var u := r.value.value;
        var was := old(GetContact(contactId, userId));
        && was.Some?
        && u.id == contactId && OwnedBy(u, userId) && u.createdAt == was.value.createdAt
        && u.name == body.name && u.surname == body.surname && u.email == body.email
        && u.phone == body.phone && u.birthday == body.birthday && u.description == body.description
        && forall i :: 0 <= i < |rows| ==> rows[i] == if old(rows)[i].id == contactId then u else old(rows)[i]
    {
      var found := FirstIndex(rows, OwnedMatch(contactId, userId));
      if found.None? {
        return Success(None);
      }
      var i := found.value;
      if exists c :: c in rows && c.id != contactId && Clashes(c, body.email, body.phone) {
        return Failure(UniqueViolation);
      }
      var contact := rows[i].(name := body.name, surname := body.surname, email := body.email,
                              phone := body.phone, birthday := body.birthday, description := body.description);
      rows := rows[i := contact];
      return Success(Some(contact));
    }

    /**
     * `remove_contact`: deletes the caller's contact with this id and returns it; with no owned
     * match it returns `None` and changes nothing. Afterwards no owned match is left, so removing
     * the same id again returns `None`.
     */
    method Remove(contactId: int, userId: int) returns (r: Option<Contact>)
      requires Valid()
      modifies this
      ensures Valid() && nextId == old(nextId)
      ensures r == old(GetContact(contactId, userId))
      ensures r.None? ==> rows == old(rows)
      ensures r.Some? ==>
        exists i :: 0 <= i < |old(rows)| && old(rows)[i] == r.value && rows == old(rows)[..i] + old(rows)[i + 1..]
      ensures GetContact(contactId, userId).None?
    {
      var found := FirstIndex(rows, OwnedMatch(contactId, userId));
      if found.None? {
        return None;
      }
      var i := found.value;
      r := Some(rows[i]);
      DeleteKeepsInvariant(rows, nextId, i);
      rows := rows[..i] + rows[i + 1..];
    }

    /**
     * `searcher`: every contact of the whole table, not only the caller's, that matches the query
     * on any of the four fields, each at most once, in table order.
     */
    method Search(query: string) returns (found: seq<Contact>)
      requires Valid()
      ensures forall c :: c in found <==> c in rows && MatchesQuery(c, query)
      ensures IsSubsequence(found, rows)
      ensures Distinct(found)
    {
      var q := Lower(query);
      found := [];
      var i := 0;
      while i < |rows|
        invariant 0 <= i <= |rows|
        invariant found == Filter(rows[..i], Matching(query))
      {
        var c := rows[i];
        assert rows[..i + 1] == rows[..i] + [c];
        assert c !in rows[..i];
        ghost var before := found;
        assert c !in before;
        if Contains(Lower(c.name), q) && c !in found {
          found := found + [c];
        }
        if Contains(Lower(c.surname), q) && c !in found {
          found := found + [c];
        }
        assert found == before + if Contains(Lower(c.name), q) || Contains(Lower(c.surname), q) then [c] else [];
        if Contains(Lower(c.email), q) && c !in found {
          found := found + [c];
        }
        if Contains(c.phone, q) && c !in found {
          found := found + [c];
        }
        assert found == before + if MatchesQuery(c, query) then [c] else [];
        FilterAppend(rows[..i], c, Matching(query));
        i := i + 1;
      }
      assert rows[..i] == rows;
      UniqueIdsDistinct(rows);
      FilterDistinct(rows, Matching(query));
    }

    /**
     * `birthday_list`: every contact of the whole table whose birthday, moved into the current
     * year, falls in the window around `now`, in table order. A 29 February birthday cannot be
     * moved into a common year: the first such row makes the whole call fail.
     */
    method BirthdayList(now: DateTime) returns (r: Result<seq<Contact>, DateError>)
      requires Valid() && ValidDateTime(now)
      ensures r.Failure? <==> exists c :: c in rows && ReplaceYear(c.birthday, now.year).Failure?
      ensures r.Success? ==> forall c :: c in r.value <==> c in rows && InBirthdayWindow(c, now)
      ensures r.Success? ==> IsSubsequence(r.value, rows)
    {
      var found := [];
      var i := 0;
      while i < |rows|
        invariant 0 <= i <= |rows|
        invariant forall k :: 0 <= k < i ==> ReplaceYear(rows[k].birthday, now.year).Success?
        invariant found == Filter(rows[..i], UpcomingAt(now))
      {
        var c := rows[i];
        assert rows[..i + 1] == rows[..i] + [c];
        var moved := ReplaceYear(c.birthday, now.year);
        if moved.Failure? {
          return Failure(moved.error);
        }
        var delta := Instant(moved.value) - Instant(now);
        if -SecondsPerDay < delta < 7 * SecondsPerDay {
          found := found + [c];
        }
        FilterAppend(rows[..i], c, UpcomingAt(now));
        i := i + 1;
      }
      assert rows[..i] == rows;
      return Success(found);
    }
  }

  /**
   * The window in whole days, as the unit test exercises it: a birthday `k` days after a moment
   * `t0` of the current year, listed a little later than `t0`, is listed exactly for k = 0 .. 7.
   */
  lemma BirthdayWindowInWholeDays(c: Contact, t0: DateTime, now: DateTime, k: int)
    requires ValidDateTime(c.birthday) && ValidDateTime(t0) && ValidDateTime(now)
    requires c.birthday.year == now.year
    requires Instant(c.birthday) == Instant(t0) + k * SecondsPerDay
    requires Instant(t0) < Instant(now) < Instant(t0) + SecondsPerDay
    ensures InBirthdayWindow(c, now) <==> 0 <= k <= 7
  {
    assert ReplaceYear(c.birthday, now.year) == Success(c.birthday);
  }

  /** A field holding the small letter `x` in neither case does not, once lower-cased, contain a string starting with `x`. */
  lemma LowerLacks(field: string, sub: string)
    requires |sub| > 0 && IsLower(sub[0])
    requires sub[0] !in field && UpperChar(sub[0]) !in field
    ensures !Contains(Lower(field), sub)
  {
    assert sub[0] !in Lower(field) by {
      forall i | 0 <= i < |field| ensures Lower(field)[i] != sub[0] {
        assert field[i] != sub[0] && field[i] != UpperChar(sub[0]);
      }
    }
    AbsentFirstChar(Lower(field), sub);
  }

  /**
   * A contact none of whose four fields holds the query's first letter (in either case for the
   * lower-cased fields, as typed for the phone) does not match.
   */
  lemma MissesWithoutFirstLetter(c: Contact, query: string)
    requires |query| > 0 && IsLower(LowerChar(query[0]))
    requires var x := LowerChar(query[0]);
      && x !in c.name && UpperChar(x) !in c.name
      && x !in c.surname && UpperChar(x) !in c.surname
      && x !in c.email && UpperChar(x) !in c.email
      && x !in c.phone
    ensures !MatchesQuery(c, query)
  {
    var q := Lower(query);
    LowerLacks(c.name, q);
    LowerLacks(c.surname, q);
    LowerLacks(c.email, q);
    AbsentFirstChar(c.phone, q);
  }
}
