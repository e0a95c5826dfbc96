/** The rows of the three tables (books, members, borrow records), the store
    that holds them, and the table invariants every handler keeps. */
module Models {

  /** A clock reading. The service reads the wall clock; the model takes the
      reading as a parameter. */
  type Timestamp = int

  datatype Option<T> = None | Some(value: T)

  /** A row of the `books` table. `publishedYear` is nullable. */
  datatype Book = Book(
    id: int,
    title: string,
    author: string,
    publishedYear: Option<int>,
    availableCopies: int,
    isAvailable: bool)

  /** A row of the `members` table. `joinedDate` is nullable. */
  datatype Member = Member(
    id: int,
    name: string,
    email: string,
    joinedDate: Option<Timestamp>)

  /** A row of the `borrow_records` table: one loan of one book to one
      member, with the date the loan was recorded. */
  datatype BorrowRecord = BorrowRecord(
    id: int,
    memberId: int,
    bookId: int,
    borrowDate: Timestamp)

  /** Column default of `is_available` in the `books` table. The column
      default of `available_copies` never applies: every insert carries the
      request's count, which has its own default. */
  const DefaultIsAvailable: bool := true

  /** The failures a handler reports; the detail is the message sent back. */
  datatype Error =
    | NotFound(detail: string)        // HTTP 404
    | InvalidState(detail: string)    // HTTP 400
    | ValidationError(field: string)  // HTTP 422, raised before the handler runs
    | Conflict(column: string)        // a unique constraint rejected the commit

  datatype Result<T> = Ok(value: T) | Err(error: Error)

  const BookNotFound: Error := NotFound("Book not found")
  const MemberNotFound: Error := NotFound("Member not found")
  const NoCopies: Error := InvalidState("No copies available for this book")

  /** The whole database: three tables and the next surrogate id of each. */
  datatype Store = Store(
    books: map<int, Book>,
    members: map<int, Member>,
    records: seq<BorrowRecord>,
    nextBookId: int,
    nextMemberId: int,
    nextRecordId: int)

  /** What a handler answers, and the store after it has committed or rolled back. */
  datatype Step<T> = Step(result: Result<T>, store: Store)

  /** Books are keyed by their positive primary key, and no book has
      fewer than zero copies. */
  predicate BooksTable(books: map<int, Book>, next: int)
  {
    && next > 0
    && forall id :: id in books ==>
         && 0 < id < next
         && books[id].id == id
         && books[id].availableCopies >= 0
  }

  /** No two members share an email address. */
  predicate UniqueEmails(members: map<int, Member>)
  {
    forall a, b :: a in members && b in members && members[a].email == members[b].email ==> a == b
  }

  /** Members are keyed by their positive primary key, with unique emails. */
  predicate MembersTable(members: map<int, Member>, next: int)
  {
    && next > 0
    && (forall id :: id in members ==> 0 < id < next && members[id].id == id)
    && UniqueEmails(members)
  }

  /** Borrow records carry positive primary keys, increasing in insertion order. */
  predicate RecordsTable(records: seq<BorrowRecord>, next: int)
  {
    && next > 0
    && (forall i :: 0 <= i < |records| ==> 0 < records[i].id < next)
    && (forall i, j :: 0 <= i < j < |records| ==> records[i].id < records[j].id)
  }

  predicate Valid(s: Store)
  {
    && BooksTable(s.books, s.nextBookId)
    && MembersTable(s.members, s.nextMemberId)
    && RecordsTable(s.records, s.nextRecordId)
  }

  /** The freshly created database: empty tables, every id sequence at 1. */
  const EmptyStore: Store := Store(map[], map[], [], 1, 1, 1)
}
