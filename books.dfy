/** The book handlers: request validation, listing, lookup, create, full
    replace and delete, each as a step on the store. */
module Books {
  import opened Models
  import Tables

  /** A book request body as received; `None` marks an omitted field. */
  datatype BookPayload = BookPayload(
    title: Option<string>,
    author: Option<string>,
    publishedYear: Option<int>,
    availableCopies: Option<int>)

  /** A book request body that passed validation. */
  datatype BookRequest = BookRequest(
    title: string,
    author: string,
    publishedYear: Option<int>,
    availableCopies: int)

  /** Bounds and default of the request fields. */
  const MinYear: int := 0
  const MaxYear: int := 2100
  const RequestDefaultCopies: int := 1

  predicate YearInRange(year: Option<int>)
  {
    year.Some? ==> MinYear <= year.value <= MaxYear
  }

  predicate ValidRequest(req: BookRequest)
  {
    YearInRange(req.publishedYear) && req.availableCopies >= 0
  }

  /** Validation of a request body: title and author are required, a given
      year lies in 0..2100, a given copy count is not negative, and an
      omitted copy count becomes 1. */
  function ParseRequest(p: BookPayload): (r: Result<BookRequest>)
    ensures r.Ok? <==>
      && p.title.Some? && p.author.Some?
      && YearInRange(p.publishedYear)
      && (p.availableCopies.Some? ==> p.availableCopies.value >= 0)
    ensures r.Ok? ==>
      && ValidRequest(r.value)
      && r.value.title == p.title.value
      && r.value.author == p.author.value
      && r.value.publishedYear == p.publishedYear
      && r.value.availableCopies ==
           (if p.availableCopies.Some? then p.availableCopies.value else RequestDefaultCopies)
    ensures r.Err? ==> r.error.ValidationError?
  {
    if p.title.None? then Err(ValidationError("title"))
    else if p.author.None? then Err(ValidationError("author"))
    else if !YearInRange(p.publishedYear) then Err(ValidationError("published_year"))
    else
      var copies := if p.availableCopies.Some? then p.availableCopies.value else RequestDefaultCopies;
      if copies < 0 then Err(ValidationError("available_copies"))
      else Ok(BookRequest(p.title.value, p.author.value, p.publishedYear, copies))
  }

  /** The row a create request inserts: the request's fields, the column
      default for `is_available`. */
  function NewBook(id: int, req: BookRequest): Book
  {
    Book(id, req.title, req.author, req.publishedYear, req.availableCopies, DefaultIsAvailable)
  }

  /** List every book, in ascending id order. */
  function ReadAll(s: Store): (r: seq<Book>)
    ensures BooksTable(s.books, s.nextBookId) ==>
      && (forall i :: 0 <= i < |r| ==> r[i].id in s.books && s.books[r[i].id] == r[i])
      && (forall id :: id in s.books ==> s.books[id] in r)
      && (forall i, j :: 0 <= i < j < |r| ==> r[i].id < r[j].id)
  {
    var keys := Tables.KeysBelow(s.books.Keys, s.nextBookId);
    var r := seq(|keys|, i requires 0 <= i < |keys| => s.books[keys[i]]);
    assert BooksTable(s.books, s.nextBookId) ==> forall id :: id in s.books ==> s.books[id] in r by {
      if BooksTable(s.books, s.nextBookId) {
        forall id | id in s.books ensures s.books[id] in r {
          assert 0 < id < s.nextBookId;
          var i :| 0 <= i < |keys| && keys[i] == id;
          assert r[i] == s.books[id];
        }
      }
    }
    assert BooksTable(s.books, s.nextBookId) ==> forall i, j :: 0 <= i < j < |r| ==> r[i].id < r[j].id by {
      if BooksTable(s.books, s.nextBookId) {
        forall i, j | 0 <= i < j < |r| ensures r[i].id < r[j].id {
          assert r[i].id == keys[i] && r[j].id == keys[j];
        }
      }
    }
    r
  }

  /** Look up one book; the path parameter must be a positive integer. */
  function ReadBook(s: Store, id: int): (r: Result<Book>)
    ensures r.Ok? <==> 0 < id && id in s.books
    ensures r.Ok? ==> r.value == s.books[id]
    ensures id <= 0 ==> r == Err(ValidationError("book_id"))
    ensures 0 < id && id !in s.books ==> r == Err(BookNotFound)
  {
    if id <= 0 then Err(ValidationError("book_id"))
    else if id in s.books then Ok(s.books[id])
    else Err(BookNotFound)
  }

  /** Create a book under a fresh id. The answer carries the new id, which
      the handler itself does not return. */
  function AddBook(s: Store, p: BookPayload): (o: Step<int>)
    ensures o.result.Err? <==> ParseRequest(p).Err?
    ensures o.result.Err? ==> o.store == s
    ensures ParseRequest(p).Err? ==> o == Step(Err(ParseRequest(p).error), s)
    ensures o.result.Ok? ==>
      var id := o.result.value;
      var req := ParseRequest(p).value;
      && (BooksTable(s.books, s.nextBookId) ==> id > 0 && id !in s.books)
      && o.store.books == s.books[id := Book(id, req.title, req.author, req.publishedYear,
                                             req.availableCopies, true)]
      && o.store.members == s.members
      && o.store.records == s.records
      && o.store.nextMemberId == s.nextMemberId
      && o.store.nextRecordId == s.nextRecordId
    ensures Valid(s) ==> Valid(o.store)
  {
    match ParseRequest(p)
    case Err(e) => Step(Err(e), s)
    case Ok(req) =>
      var id := s.nextBookId;
      Step(Ok(id), s.(books := s.books[id := NewBook(id, req)], nextBookId := id + 1))
  }

  /** Replace title, author, year and copy count of a stored book. */
  function UpdateBook(s: Store, id: int, p: BookPayload): (o: Step<()>)
    ensures o.result.Ok? <==> ParseRequest(p).Ok? && id in s.books
    ensures o.result.Err? ==> o.store == s
    ensures ParseRequest(p).Err? ==> o == Step(Err(ParseRequest(p).error), s)
    ensures ParseRequest(p).Ok? && id !in s.books ==> o.result == Err(BookNotFound)
    ensures o.result.Ok? ==>
      var req := ParseRequest(p).value;
      var was := s.books[id];
      && o.store.books == s.books[id := Book(was.id, req.title, req.author, req.publishedYear,
                                             req.availableCopies, was.isAvailable)]
      && o.store.members == s.members
      && o.store.records == s.records
      && o.store.nextBookId == s.nextBookId
      && o.store.nextMemberId == s.nextMemberId
      && o.store.nextRecordId == s.nextRecordId
    ensures Valid(s) ==> Valid(o.store)
  {
    match ParseRequest(p)
    case Err(e) => Step(Err(e), s)
    case Ok(req) =>
      if id !in s.books then Step(Err(BookNotFound), s)
      else
        var b := s.books[id].(title := req.title, author := req.author,
                              publishedYear := req.publishedYear,
                              availableCopies := req.availableCopies);
        Step(Ok(()), s.(books := s.books[id := b]))
  }

  /** Delete a stored book. Borrow records that name it stay in place. */
  function DeleteBook(s: Store, id: int): (o: Step<()>)
    ensures o.result.Ok? <==> 0 < id && id in s.books
    ensures o.result.Err? ==> o.store == s
    ensures id <= 0 ==> o.result == Err(ValidationError("book_id"))
    ensures 0 < id && id !in s.books ==> o.result == Err(BookNotFound)
    ensures o.result.Ok? ==>
      && o.store.books.Keys == s.books.Keys - {id}
      && (forall k :: k in o.store.books ==> o.store.books[k] == s.books[k])
      && o.store.members == s.members
      && o.store.records == s.records
      && o.store.nextBookId == s.nextBookId
      && o.store.nextMemberId == s.nextMemberId
      && o.store.nextRecordId == s.nextRecordId
    ensures Valid(s) ==> Valid(o.store)
  {
    if id <= 0 then Step(Err(ValidationError("book_id")), s)
    else if id !in s.books then Step(Err(BookNotFound), s)
    else Step(Ok(()), s.(books := s.books - {id}))
  }

  /** A created book reads back with the fields of its request, all of its
      copies available. */
  lemma AddThenRead(s: Store, p: BookPayload)
    requires Valid(s)
    requires ParseRequest(p).Ok?
    ensures
      var o := AddBook(s, p);
      var req := ParseRequest(p).value;
      && o.result.Ok?
      && ReadBook(o.store, o.result.value)
         == Ok(Book(o.result.value, req.title, req.author, req.publishedYear,
                    req.availableCopies, true))
  {
  }

  /** A replaced book reads back with the new fields and its old flag. */
  lemma UpdateThenRead(s: Store, id: int, p: BookPayload)
    requires Valid(s)
    requires id > 0 && id in s.books
    requires ParseRequest(p).Ok?
    ensures
      var req := ParseRequest(p).value;
      ReadBook(UpdateBook(s, id, p).store, id)
        == Ok(Book(id, req.title, req.author, req.publishedYear, req.availableCopies,
                   s.books[id].isAvailable))
  {
  }

  /** A deleted book is not found afterwards, whatever was stored before. */
  lemma DeleteThenRead(s: Store, id: int)
    requires id > 0
    ensures ReadBook(DeleteBook(s, id).store, id) == Err(BookNotFound)
  {
  }

  /** A created book appears in the listing, and every book listed before
      is still listed. */
  lemma AddThenList(s: Store, p: BookPayload)
    requires Valid(s)
    requires ParseRequest(p).Ok?
    ensures
      var o := AddBook(s, p);
      var all := ReadAll(o.store);
      && o.store.books[o.result.value] in all
      && (forall b :: b in ReadAll(s) ==> b in all)
  {
    var o := AddBook(s, p);
    assert Valid(o.store);
    ListingGrows(s, o.store);
  }

  /** A table that only gains rows lists every book it listed before. */
  lemma ListingGrows(s: Store, t: Store)
    requires BooksTable(s.books, s.nextBookId) && BooksTable(t.books, t.nextBookId)
    requires forall k :: k in s.books ==> k in t.books && t.books[k] == s.books[k]
    ensures forall b :: b in ReadAll(s) ==> b in ReadAll(t)
  {
    var before := ReadAll(s);
    forall b | b in before ensures b in ReadAll(t) {
      var i :| 0 <= i < |before| && before[i] == b;
      assert b.id in s.books && s.books[b.id] == b;
    }
  }

  /** The availability flag is not derived from the copy count: a book
      created with no copies is still flagged available. */
  lemma FlagNotDerivedOnCreate(s: Store, title: string, author: string)
    requires Valid(s)
    ensures
      var o := AddBook(s, BookPayload(Some(title), Some(author), None, Some(0)));
      && o.result.Ok?
      && o.store.books[o.result.value].availableCopies == 0
      && o.store.books[o.result.value].isAvailable
  {
  }
}
