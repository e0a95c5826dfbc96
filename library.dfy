/** The store the handlers share: three tables and their id sequences as
    fields, one method per handler, each committing its whole effect or none
    of it. Each method is specified by the step function of its router. */
module LibraryStore {
  import opened Models
  import Books
  import Members
  import Borrowing

  class Library {
    var books: map<int, Book>
    var members: map<int, Member>
    var records: seq<BorrowRecord>
    var nextBookId: int
    var nextMemberId: int
    var nextRecordId: int

    /** The tables as a value. */
    function State(): Store
      reads this
    {
      Store(books, members, records, nextBookId, nextMemberId, nextRecordId)
    }

    ghost predicate Valid()
      reads this
    {
      Models.Valid(State())
    }

    /** Empty tables, as the schema is first created. */
    constructor ()
      ensures Valid()
      ensures State() == EmptyStore
    {
      books, members, records := map[], map[], [];
      nextBookId, nextMemberId, nextRecordId := 1, 1, 1;
    }

    method AddBook(p: Books.BookPayload) returns (r: Result<int>)
      requires Valid()
      modifies this
      ensures Valid()
      ensures Step(r, State()) == Books.AddBook(old(State()), p)
    {
      var parsed := Books.ParseRequest(p);
      if parsed.Err? {
        return Err(parsed.error);
      }
      var req := parsed.value;
      var id := nextBookId;
      books := books[id := Book(id, req.title, req.author, req.publishedYear,
                                req.availableCopies, DefaultIsAvailable)];
      nextBookId := nextBookId + 1;
      r := Ok(id);
    }

    method UpdateBook(id: int, p: Books.BookPayload) returns (r: Result<()>)
      requires Valid()
      modifies this
      ensures Valid()
      ensures Step(r, State()) == Books.UpdateBook(old(State()), id, p)
    {
      var parsed := Books.ParseRequest(p);
      if parsed.Err? {
        return Err(parsed.error);
      }
      if id !in books {
        return Err(BookNotFound);
      }
      var req := parsed.value;
      var book := books[id];
      book := book.(title := req.title);
      book := book.(author := req.author);
      book := book.(publishedYear := req.publishedYear);
      book := book.(availableCopies := req.availableCopies);
      books := books[id := book];
      r := Ok(());
    }

    method DeleteBook(id: int) returns (r: Result<()>)
      requires Valid()
      modifies this
      ensures Valid()
      ensures Step(r, State()) == Books.DeleteBook(old(State()), id)
    {
      if id <= 0 {
        return Err(ValidationError("book_id"));
      }
      if id !in books {
        return Err(BookNotFound);
      }
      books := books - {id};
      r := Ok(());
    }

    method AddMember(p: Members.MemberPayload, now: Timestamp) returns (r: Result<int>)
      requires Valid()
      modifies this
      ensures Valid()
      ensures Step(r, State()) == Members.AddMember(old(State()), p, now)
    {
      var parsed := Members.ParseRequest(p);
      if parsed.Err? {
        return Err(parsed.error);
      }
      var req := parsed.value;
      if Members.EmailOwners(members, req.email) != {} {
        return Err(Members.EmailConflict);
      }
      var id := nextMemberId;
      var joined := if req.joinedDate.Some? then req.joinedDate else Some(now);
      Members.InsertKeepsUnique(members, id, Member(id, req.name, req.email, joined));
      members := members[id := Member(id, req.name, req.email, joined)];
      nextMemberId := nextMemberId + 1;
      r := Ok(id);
    }

    method UpdateMember(id: int, p: Members.MemberPayload) returns (r: Result<()>)
      requires Valid()
      modifies this
      ensures Valid()
      ensures Step(r, State()) == Members.UpdateMember(old(State()), id, p)
    {
      var parsed := Members.ParseRequest(p);
      if parsed.Err? {
        return Err(parsed.error);
      }
      if id !in members {
        return Err(MemberNotFound);
      }
      var req := parsed.value;
      if !(Members.EmailOwners(members, req.email) <= {id}) {
        return Err(Members.EmailConflict);
      }
      var member := members[id];
      member := member.(name := req.name);
      member := member.(email := req.email);
      member := member.(joinedDate := req.joinedDate);
      Members.InsertKeepsUnique(members, id, member);
      members := members[id := member];
      r := Ok(());
    }

    method DeleteMember(id: int) returns (r: Result<()>)
      requires Valid()
      modifies this
      ensures Valid()
      ensures Step(r, State()) == Members.DeleteMember(old(State()), id)
    {
      if id <= 0 {
        return Err(ValidationError("member_id"));
      }
      if id !in members {
        return Err(MemberNotFound);
      }
      members := members - {id};
      r := Ok(());
    }

    method BorrowBook(req: Borrowing.BorrowRequest, now: Timestamp) returns (r: Result<Borrowing.Receipt>)
      requires Valid()
      modifies this
      ensures Valid()
      ensures r.Err? ==> State() == old(State())
      ensures Step(r, State()) == Borrowing.Borrow(old(State()), req, now)
    {
      if req.bookId !in books {
        return Err(BookNotFound);
      }
      var book := books[req.bookId];
      if book.availableCopies <= 0 {
        return Err(NoCopies);
      }
      if req.memberId !in members {
        return Err(MemberNotFound);
      }
      var member := members[req.memberId];
      var record := BorrowRecord(nextRecordId, req.memberId, req.bookId, now);
      records := records + [record];
      nextRecordId := nextRecordId + 1;
      book := book.(availableCopies := book.availableCopies - 1);
      if book.availableCopies == 0 {
        book := book.(isAvailable := false);
      }
      books := books[req.bookId := book];
      r := Ok(Borrowing.Receipt(Borrowing.Confirmation, member.name, book.title, record.borrowDate));
    }
  }
}
