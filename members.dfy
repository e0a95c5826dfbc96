/** The member handlers: request validation, listing, lookup, create, full
    replace and delete, each as a step on the store. */
module Members {
  import opened Models
  import Tables
  import Emails

  /** A member request body as received; `None` marks an omitted field. */
  datatype MemberPayload = MemberPayload(
    name: Option<string>,
    email: Option<string>,
    joinedDate: Option<Timestamp>)

  /** A member request body that passed validation. */
  datatype MemberRequest = MemberRequest(
    name: string,
    email: string,
    joinedDate: Option<Timestamp>)

  /** Validation of a request body: name and email are required, the email
      must be an address and is kept in its normalised form, the join date
      is optional. */
  function ParseRequest(p: MemberPayload): (r: Result<MemberRequest>)
    ensures r.Ok? <==> p.name.Some? && p.email.Some? && Emails.Normalize(p.email.value).Some?
    ensures r.Ok? ==>
      r.value == MemberRequest(p.name.value, Emails.Normalize(p.email.value).value, p.joinedDate)
    ensures r.Err? ==> r.error.ValidationError?
    ensures p.name.Some? && !r.Ok? ==> r == Err(ValidationError("email"))
  {
    if p.name.None? then Err(ValidationError("name"))
    else if p.email.None? then Err(ValidationError("email"))
    else
      match Emails.Normalize(p.email.value)
      case None => Err(ValidationError("email"))
      case Some(email) => Ok(MemberRequest(p.name.value, email, p.joinedDate))
  }

  /** The ids of the members registered under `email`: at most one while
      emails are unique, and no id outside the table. */
  function EmailOwners(members: map<int, Member>, email: string): (ids: set<int>)
    ensures ids <= members.Keys
    ensures UniqueEmails(members) ==> forall a, b :: a in ids && b in ids ==> a == b
  {
    set k | k in members && members[k].email == email
  }

  const EmailConflict: Error := Conflict("email")

  /** List every member, in ascending id order. */
  function ReadAll(s: Store): (r: seq<Member>)
    ensures MembersTable(s.members, s.nextMemberId) ==>
      && (forall i :: 0 <= i < |r| ==> r[i].id in s.members && s.members[r[i].id] == r[i])
      && (forall id :: id in s.members ==> s.members[id] in r)
      && (forall i, j :: 0 <= i < j < |r| ==> r[i].id < r[j].id)
  {
    var keys := Tables.KeysBelow(s.members.Keys, s.nextMemberId);
    var r := seq(|keys|, i requires 0 <= i < |keys| => s.members[keys[i]]);
    assert MembersTable(s.members, s.nextMemberId) ==> forall id :: id in s.members ==> s.members[id] in r by {
      if MembersTable(s.members, s.nextMemberId) {
        forall id | id in s.members ensures s.members[id] in r {
          assert 0 < id < s.nextMemberId;
          var i :| 0 <= i < |keys| && keys[i] == id;
          assert r[i] == s.members[id];
        }
      }
    }
    assert MembersTable(s.members, s.nextMemberId) ==> forall i, j :: 0 <= i < j < |r| ==> r[i].id < r[j].id by {
      if MembersTable(s.members, s.nextMemberId) {
        forall i, j | 0 <= i < j < |r| ensures r[i].id < r[j].id {
          assert r[i].id == keys[i] && r[j].id == keys[j];
        }
      }
    }
    r
  }

  /** Look up one member; the path parameter must be a positive integer. */
  function ReadMember(s: Store, id: int): (r: Result<Member>)
    ensures r.Ok? <==> 0 < id && id in s.members
    ensures r.Ok? ==> r.value == s.members[id]
    ensures id <= 0 ==> r == Err(ValidationError("member_id"))
    ensures 0 < id && id !in s.members ==> r == Err(MemberNotFound)
  {
    if id <= 0 then Err(ValidationError("member_id"))
    else if id in s.members then Ok(s.members[id])
    else Err(MemberNotFound)
  }

  /** Register a member under a fresh id. An omitted join date takes the
      column default, the time of the insert. An email already registered
      makes the commit fail and nothing is stored. The answer carries the
      new id, which the handler itself does not return. */
  function AddMember(s: Store, p: MemberPayload, now: Timestamp): (o: Step<int>)
    ensures o.result.Ok? <==>
      ParseRequest(p).Ok? && EmailOwners(s.members, ParseRequest(p).value.email) == {}
    ensures o.result.Err? ==> o.store == s
    ensures ParseRequest(p).Err? ==> o == Step(Err(ParseRequest(p).error), s)
    ensures ParseRequest(p).Ok? && EmailOwners(s.members, ParseRequest(p).value.email) != {} ==>
      o.result == Err(EmailConflict)
    ensures o.result.Ok? ==>
      var id := o.result.value;
      var req := ParseRequest(p).value;
      var joined := if req.joinedDate.Some? then req.joinedDate else Some(now);
      && (MembersTable(s.members, s.nextMemberId) ==> id > 0 && id !in s.members)
      && o.store.members == s.members[id := Member(id, req.name, req.email, joined)]
      && o.store.books == s.books
      && o.store.records == s.records
      && o.store.nextBookId == s.nextBookId
      && o.store.nextRecordId == s.nextRecordId
    ensures Valid(s) ==> Valid(o.store)
  {
    match ParseRequest(p)
    case Err(e) => Step(Err(e), s)
    case Ok(req) =>
      if EmailOwners(s.members, req.email) != {} then Step(Err(EmailConflict), s)
      else
        var id := s.nextMemberId;
        var joined := if req.joinedDate.Some? then req.joinedDate else Some(now);
        var m := Member(id, req.name, req.email, joined);
        InsertKeepsUnique(s.members, id, m);
        Step(Ok(id), s.(members := s.members[id := m], nextMemberId := id + 1))
  }

  /** Storing a member whose email no other member has keeps emails unique. */
  lemma InsertKeepsUnique(members: map<int, Member>, id: int, m: Member)
    requires EmailOwners(members, m.email) <= {id}
    ensures UniqueEmails(members) ==> UniqueEmails(members[id := m])
  {
    forall k | k in members && members[k].email == m.email ensures k == id {
      assert k in EmailOwners(members, m.email);
    }
  }

  /** Replace name, email and join date of a stored member. An omitted join
      date is written as empty. An email registered to another member makes
      the commit fail and nothing changes. */
  function UpdateMember(s: Store, id: int, p: MemberPayload): (o: Step<()>)
    ensures o.result.Ok? <==>
      && ParseRequest(p).Ok?
      && id in s.members
      && EmailOwners(s.members, ParseRequest(p).value.email) <= {id}
    ensures o.result.Err? ==> o.store == s
    ensures ParseRequest(p).Err? ==> o == Step(Err(ParseRequest(p).error), s)
    ensures ParseRequest(p).Ok? && id !in s.members ==> o.result == Err(MemberNotFound)
    ensures ParseRequest(p).Ok? && id in s.members && !(EmailOwners(s.members, ParseRequest(p).value.email) <= {id}) ==>
      o.result == Err(EmailConflict)
    ensures o.result.Ok? ==>
      var req := ParseRequest(p).value;
      && o.store.members == s.members[id := Member(s.members[id].id, req.name, req.email, req.joinedDate)]
      && o.store.books == s.books
      && o.store.records == s.records
      && o.store.nextBookId == s.nextBookId
      && o.store.nextMemberId == s.nextMemberId
      && o.store.nextRecordId == s.nextRecordId
    ensures Valid(s) ==> Valid(o.store)
  {
    match ParseRequest(p)
    case Err(e) => Step(Err(e), s)
    case Ok(req) =>
      if id !in s.members then Step(Err(MemberNotFound), s)
      else if !(EmailOwners(s.members, req.email) <= {id}) then Step(Err(EmailConflict), s)
      else
        var m := s.members[id].(name := req.name, email := req.email, joinedDate := req.joinedDate);
        InsertKeepsUnique(s.members, id, m);
        Step(Ok(()), s.(members := s.members[id := m]))
  }

  /** Delete a stored member. Borrow records that name it stay in place. */
  function DeleteMember(s: Store, id: int): (o: Step<()>)
    ensures o.result.Ok? <==> 0 < id && id in s.members
    ensures o.result.Err? ==> o.store == s
    ensures id <= 0 ==> o.result == Err(ValidationError("member_id"))
    ensures 0 < id && id !in s.members ==> o.result == Err(MemberNotFound)
    ensures o.result.Ok? ==>
      && o.store.members.Keys == s.members.Keys - {id}
      && (forall k :: k in o.store.members ==> o.store.members[k] == s.members[k])
      && o.store.books == s.books
      && o.store.records == s.records
      && o.store.nextBookId == s.nextBookId
      && o.store.nextMemberId == s.nextMemberId
      && o.store.nextRecordId == s.nextRecordId
    ensures Valid(s) ==> Valid(o.store)
  {
    if id <= 0 then Step(Err(ValidationError("member_id")), s)
    else if id !in s.members then Step(Err(MemberNotFound), s)
    else Step(Ok(()), s.(members := s.members - {id}))
  }

  /** Registering a second member with an email already in use fails, and
      leaves the store as the first registration made it. */
  lemma DuplicateEmailRejected(s: Store, p: MemberPayload, q: MemberPayload, now: Timestamp, later: Timestamp)
    requires ParseRequest(p).Ok? && ParseRequest(q).Ok?
    requires ParseRequest(p).value.email == ParseRequest(q).value.email
    ensures
      var first := AddMember(s, p, now);
      var second := AddMember(first.store, q, later);
      second.result == Err(EmailConflict) && second.store == first.store
  {
    var first := AddMember(s, p, now);
    if first.result.Ok? {
      assert first.result.value in EmailOwners(first.store.members, ParseRequest(q).value.email);
    } else {
      assert first.store == s;
    }
  }

  /** Addresses that differ only in the case of the domain, or in spaces
      before them, are the same address: the second registration conflicts. */
  lemma DomainCaseConflict(s: Store, p: MemberPayload, q: MemberPayload, local: string,
                           domain: string, other: string, now: Timestamp, later: Timestamp)
    requires Emails.PlainAddress(local, domain) && Emails.PlainAddress(local, other)
    requires Emails.Lower(domain) == Emails.Lower(other)
    requires p.name.Some? && p.email == Some(local + "@" + domain)
    requires q.name.Some? && q.email == Some(" " + (local + "@" + other))
    ensures
      var one := AddMember(s, p, now);
      var two := AddMember(one.store, q, later);
      two.result == Err(EmailConflict) && two.store == one.store
  {
    Emails.DomainCaseIgnored(local, domain, other);
    DuplicateEmailRejected(s, p, q, now, later);
  }

  /** After a member's email is replaced, reading the member shows the new
      email at once. */
  lemma UpdateThenRead(s: Store, id: int, p: MemberPayload)
    requires Valid(s)
    requires id > 0
    requires UpdateMember(s, id, p).result.Ok?
    ensures
      var r := ReadMember(UpdateMember(s, id, p).store, id);
      && r.Ok?
      && r.value == Member(id, p.name.value, ParseRequest(p).value.email, p.joinedDate)
  {
  }

  /** A deleted member is not found afterwards. */
  lemma DeleteThenRead(s: Store, id: int)
    requires id > 0
    ensures ReadMember(DeleteMember(s, id).store, id) == Err(MemberNotFound)
  {
  }
}
