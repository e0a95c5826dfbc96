/** The borrow workflow: three ordered checks, then one record inserted and
    one book's copy count decremented, committed together. */
module Borrowing {
  import opened Models

  datatype BorrowRequest = BorrowRequest(memberId: int, bookId: int)

  /** The success payload: a confirmation, the member's name, the book's
      title and the date of the new record. */
  datatype Receipt = Receipt(message: string, member: string, book: string, borrowDate: Timestamp)

  const Confirmation: string := "Book borrowed successfully"

  /** The record a successful borrow inserts, dated at the time of the insert. */
  function NewRecord(id: int, req: BorrowRequest, now: Timestamp): BorrowRecord
  {
    BorrowRecord(id, req.memberId, req.bookId, now)
  }

  /** One copy fewer; the flag drops to false when the last copy goes and is
      otherwise left as it was. */
  function Lent(b: Book): (r: Book)
    ensures r.availableCopies == b.availableCopies - 1
    ensures r.isAvailable == (if r.availableCopies == 0 then false else b.isAvailable)
    ensures r.id == b.id && r.title == b.title && r.author == b.author
    ensures r.publishedYear == b.publishedYear
  {
    var c := b.availableCopies - 1;
    b.(availableCopies := c, isAvailable := if c == 0 then false else b.isAvailable)
  }

  /** Borrow a book for a member at time `now`. */
  function Borrow(s: Store, req: BorrowRequest, now: Timestamp): (o: Step<Receipt>)
    // the book is looked up first, whatever the member id
    ensures req.bookId !in s.books ==> o == Step(Err(BookNotFound), s)
    ensures req.bookId in s.books && s.books[req.bookId].availableCopies <= 0 ==>
      o == Step(Err(NoCopies), s)
    ensures (req.bookId in s.books && s.books[req.bookId].availableCopies > 0 &&
             req.memberId !in s.members) ==>
      o == Step(Err(MemberNotFound), s)
    // no partial effect
    ensures o.result.Err? ==> o.store == s
    ensures o.result.Ok? <==>
      && req.bookId in s.books
      && s.books[req.bookId].availableCopies > 0
      && req.memberId in s.members
    ensures o.result.Ok? ==> o.store.books.Keys == s.books.Keys
    ensures o.result.Ok? ==>
      var was := s.books[req.bookId];
      var after := o.store.books[req.bookId];
      // exactly one record appended, naming the member and the book
      && |o.store.records| == |s.records| + 1
      && o.store.records[..|s.records|] == s.records
      && o.store.records[|s.records|].memberId == req.memberId
      && o.store.records[|s.records|].bookId == req.bookId
      && o.store.records[|s.records|].borrowDate == now
      // one copy fewer, never below zero, flag cleared on the last copy
      && after.availableCopies == was.availableCopies - 1 >= 0
      && after.isAvailable == (if after.availableCopies == 0 then false else was.isAvailable)
      && after.title == was.title && after.author == was.author
      && after.publishedYear == was.publishedYear && after.id == was.id
      // nothing else changes
      && (forall id :: id in s.books && id != req.bookId ==> o.store.books[id] == s.books[id])
      && o.store.members == s.members
      && o.store.nextBookId == s.nextBookId
      && o.store.nextMemberId == s.nextMemberId
      // the payload
      && o.result.value == Receipt(Confirmation, s.members[req.memberId].name, was.title, now)
    ensures Valid(s) ==> Valid(o.store)
  {
    if req.bookId !in s.books then Step(Err(BookNotFound), s)
    else
      var book := s.books[req.bookId];
      if book.availableCopies <= 0 then Step(Err(NoCopies), s)
      else if req.memberId !in s.members then Step(Err(MemberNotFound), s)
      else
        var record := NewRecord(s.nextRecordId, req, now);
        var store := s.(records := s.records + [record],
                        nextRecordId := s.nextRecordId + 1,
                        books := s.books[req.bookId := Lent(book)]);
        Step(Ok(Receipt(Confirmation, s.members[req.memberId].name, book.title, record.borrowDate)),
             store)
  }

  /** The number of borrow records that name book `id`. */
  function Loans(records: seq<BorrowRecord>, id: int): (n: nat)
    ensures n <= |records|
  {
    if records == [] then 0
    else Loans(records[..|records| - 1], id) + (if records[|records| - 1].bookId == id then 1 else 0)
  }

  /** Appending records adds the loans they make. */
  lemma {:induction false} LoansAppend(xs: seq<BorrowRecord>, ys: seq<BorrowRecord>, id: int)
    ensures Loans(xs + ys, id) == Loans(xs, id) + Loans(ys, id)
    decreases |ys|
  {
    if ys == [] {
      assert xs + ys == xs;
    } else {
      var init := ys[..|ys| - 1];
      assert (xs + ys)[..|xs + ys| - 1] == xs + init;
      LoansAppend(xs, init, id);
    }
  }

  /** A borrow moves a copy of a book from the shelf to the loan records:
      copies on the shelf plus recorded loans stay the same for every book. */
  lemma BorrowConservesCopies(s: Store, req: BorrowRequest, now: Timestamp, id: int)
    requires id in s.books
    ensures
      var o := Borrow(s, req, now);
      && id in o.store.books
      && o.store.books[id].availableCopies + Loans(o.store.records, id)
         == s.books[id].availableCopies + Loans(s.records, id)
  {
    var o := Borrow(s, req, now);
    if o.result.Ok? {
      var added := o.store.records[|s.records|..];
      assert o.store.records == s.records + added;
      assert added == [o.store.records[|s.records|]];
      LoansAppend(s.records, added, id);
      assert Loans(added, id) == Loans([], id) + (if added[0].bookId == id then 1 else 0);
    }
  }

  /** A run of borrow requests, answered one after the other. */
  function BorrowAll(s: Store, reqs: seq<BorrowRequest>, now: Timestamp): (t: Store)
    ensures t.books.Keys == s.books.Keys
    ensures t.members == s.members
    ensures Valid(s) ==> Valid(t)
    decreases |reqs|
  {
    if reqs == [] then s
    else BorrowAll(Borrow(s, reqs[0], now).store, reqs[1..], now)
  }

  /** However many borrow requests arrive, a book is lent at most as many
      times as it had copies: the loans recorded for it grow by at most its
      initial copy count, and its count ends at zero or above. */
  lemma {:induction false} LoansBoundedByCopies(s: Store, reqs: seq<BorrowRequest>, now: Timestamp, id: int)
    requires Valid(s)
    requires id in s.books
    ensures
      var t := BorrowAll(s, reqs, now);
      && id in t.books
      && t.books[id].availableCopies >= 0
      && Loans(t.records, id) - Loans(s.records, id)
         == s.books[id].availableCopies - t.books[id].availableCopies
      && Loans(t.records, id) - Loans(s.records, id) <= s.books[id].availableCopies
    decreases |reqs|
  {
    if reqs != [] {
      var next := Borrow(s, reqs[0], now).store;
      BorrowConservesCopies(s, reqs[0], now, id);
      LoansBoundedByCopies(next, reqs[1..], now, id);
    }
  }

  /** The last copy can be borrowed once: the book then shows no copies and
      is flagged unavailable, and the next borrow of it fails, whoever asks. */
  lemma LastCopy(s: Store, req: BorrowRequest, again: BorrowRequest, now: Timestamp, later: Timestamp)
    requires req.bookId in s.books && s.books[req.bookId].availableCopies == 1
    requires req.memberId in s.members
    requires again.bookId == req.bookId
    ensures
      var first := Borrow(s, req, now);
      var second := Borrow(first.store, again, later);
      && first.result.Ok?
      && first.store.books[req.bookId].availableCopies == 0
      && !first.store.books[req.bookId].isAvailable
      && second == Step(Err(NoCopies), first.store)
  {
  }
}
