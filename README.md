# Library store: a Dafny model

This project models the record-keeping core of a small library service. The
service keeps three tables: books keyed by id, members keyed by id, and a
list of borrow records. HTTP handlers read and change them. Every handler is
one short step: validate the request, look a row up by id, fail with "not
found" or "invalid state", or else insert, replace or delete, and commit.

The model has two layers.

- A value layer. `Models.Store` holds the three tables and the next id of
  each table's sequence. Each handler that changes a table is a function
  from a store to a `Step`: the answer (`Ok` or an `Error`) and the store after the commit or
  rollback. The contracts of these functions state what each handler does:
  which row changes, how it changes, which error comes back on which input,
  and that nothing else changes. The read handlers are functions from a
  store to the listing or the looked-up row. Every handler keeps the table invariant
  `Models.Valid`. Under it, ids are positive primary keys below the next id,
  each row's id field equals its key, no book has fewer than zero copies,
  member emails are unique, and record ids grow in insertion order.
- An imperative layer. `LibraryStore.Library` is a class whose fields are
  the tables and id sequences. It has one method per handler that changes a
  table, written as the handler runs (look up, check, assign fields, insert). Each method
  keeps `Valid()` and is proved to produce exactly the answer and new state
  of its step function. The read handlers are the functions `Books.ReadAll`,
  `Books.ReadBook`, `Members.ReadAll` and `Members.ReadMember` applied to
  `State()`.

Book and member request bodies arrive as payloads whose fields may be
omitted (`None`).
`Books.ParseRequest` and `Members.ParseRequest` apply the request schema:
required fields, the year range 0..2100, non-negative copies, the default
of one copy, and the email field's normal form (`Emails.Normalize`: spaces
around the address removed, the domain after the last `@` lowercased). They answer `ValidationError` as the web framework does
before the handler runs. Path ids of read and delete must be positive. The
update handlers declare no such bound, so a non-positive id there is simply
not found. Clock readings (`now`) are parameters.

Two behaviours of the code are easy to miss (models.py:13 calls
`is_available` a "quick flag for availability"), and the model follows the
code:

- `is_available` is not derived from `available_copies`. A book created
  with zero copies is flagged available (`Books.FlagNotDerivedOnCreate`).
  Updating a book never touches the flag (`Books.UpdateThenRead`). Only a
  borrow that takes the last copy clears it.
- An omitted `joined_date` behaves differently on create and on update. On
  create, the ORM leaves a `None` column out of the insert, so the column
  default (the insert time) applies. On update, `None` is written, so the
  date becomes empty.

## Model

| member | source | states |
|---|---|---|
| Books.ParseRequest | routers/books.py:26-30 | a body is accepted iff title and author are present, a given year lies in 0..2100 and a given copy count is not negative; an accepted body keeps its fields and an omitted copy count becomes 1; a rejection is a validation error |
| Books.ReadAll | routers/books.py:33-35 | under the table invariant, the listing holds exactly the stored books, each once, in ascending id order |
| Tables.KeysBelow | routers/books.py:33-35 | a scan of the id range yields every key of the table in that range, nothing else, strictly ascending |
| Books.ReadBook | routers/books.py:38-43 | a non-positive id is a validation error; otherwise the stored book is returned when present and "Book not found" when absent |
| Books.AddBook | routers/books.py:47-51 | a rejected body answers its validation error and changes nothing; otherwise a book with the request's title, author, year and copies and the flag set is inserted under an id that was not in use, and nothing else changes; the invariant is kept |
| Books.UpdateBook | routers/books.py:54-65 | a rejected body answers its validation error, whether or not the id is stored; an absent id answers "Book not found"; both change nothing; otherwise exactly title, author, year and copies of that book are replaced, its id and flag stay, and nothing else changes |
| Books.DeleteBook | routers/books.py:69-76 | a non-positive id is a validation error, an absent id is "Book not found", both change nothing; otherwise only that key is removed, other books, members and borrow records stay |
| Books.AddThenRead | routers/books.py:47-51 | a created book reads back under its new id with the request's fields and the flag set |
| Books.UpdateThenRead | routers/books.py:60-63 | a replaced book reads back with the new fields and its previous flag |
| Books.DeleteThenRead | routers/books.py:70-76 | after a delete, reading that id answers "Book not found" |
| Books.AddThenList | routers/books.py:33-35 | after a create, the listing contains the new book and every book listed before |
| Books.ListingGrows | routers/books.py:33-35 | a table that only gains rows still lists every book it listed before |
| Books.FlagNotDerivedOnCreate | models.py:12-13 | a book created with zero copies is stored with zero copies and the flag still set |
| Members.ParseRequest | routers/members.py:23-26 | a body is accepted iff name and email are present and the email has a non-empty local part and domain around its last `@`; an accepted body keeps name and join date and carries the email in its normal form; a rejection is a validation error, on the email field when the name is present |
| Emails.Lower | routers/members.py:25 | the lowercased domain has no ASCII capital left, and each character is the one given or its lower-case letter |
| Emails.NormalizedParts | routers/members.py:25 | an accepted address splits into a local part not starting with a space and a domain without `@` not ending with one, and is stored as `local@` followed by the lowercased domain |
| Emails.NormalizeIdempotent | routers/members.py:25 | a stored address is accepted again and kept as it is |
| Emails.NormalizeSplit | routers/members.py:25 | `local@domain` is stored with the local part as given and the domain lowercased |
| Emails.NormalizeIgnoresLeadingSpace | routers/members.py:25 | spaces before an address do not change what is stored |
| Emails.DomainCaseIgnored | routers/members.py:25 | `local@domain` and ` local@DOMAIN`, with domains equal up to ASCII letter case, are stored as the same address |
| Members.ReadAll | routers/members.py:29-31 | under the table invariant, the listing holds exactly the stored members, each once, in ascending id order |
| Members.ReadMember | routers/members.py:34-39 | a non-positive id is a validation error; otherwise the stored member is returned when present and "Member not found" when absent |
| Members.AddMember | routers/members.py:42-46 | a rejected body answers its validation error before any email check; an email whose normal form is already registered answers a conflict; both change nothing; otherwise a member with the request's name and email and the given join date, or the insert time when omitted, is inserted under an unused id, and nothing else changes |
| Members.UpdateMember | routers/members.py:49-59 | a rejected body answers its validation error before the lookup and the email check; an absent id answers "Member not found"; an email whose normal form is registered to another member answers a conflict; all three change nothing; otherwise exactly name, email and join date are replaced, an omitted date becomes empty, the id and every other row stay |
| Members.DeleteMember | routers/members.py:62-69 | a non-positive id is a validation error, an absent id is "Member not found", both change nothing; otherwise only that member is removed and the borrow records naming it stay |
| Members.EmailOwners | models.py:22 | the members registered under an email are rows of the table, and while emails are unique there is at most one |
| Members.DuplicateEmailRejected | models.py:22 | registering a second member whose email has the same normal form as one already used fails with a conflict and leaves the store as it was |
| Members.DomainCaseConflict | models.py:22 | for any local part and two domains that differ only in ASCII letter case, with a space before the second, the two addresses are one (`a@x.com`, ` a@X.COM`): registering the second after the first fails with a conflict and changes nothing |
| Members.InsertKeepsUnique | models.py:22 | storing a member whose email no other member has keeps emails unique |
| Members.UpdateThenRead | routers/members.py:55-57 | after a successful update, reading the member shows the new name, the email in its normal form and the join date at once |
| Members.DeleteThenRead | routers/members.py:63-69 | after a delete, reading that id answers "Member not found" |
| Borrowing.Borrow | routers/borrow_records.py:27-62 | an absent book fails "Book not found" before the member is looked up; no copies fails with the invalid-state error; an absent member fails "Member not found"; every failure changes nothing; success appends exactly one record with the member, the book and the time, lowers the book's copies by one to zero or more, clears the flag exactly when the count reaches zero, leaves members and every other book alone, and answers the confirmation, the member's name, the book's title and the record's date; the invariant is kept |
| Borrowing.Lent | routers/borrow_records.py:51-53 | the count drops by one and the flag becomes false at zero and otherwise stays; title, author, year and id stay |
| Borrowing.BorrowConservesCopies | routers/borrow_records.py:44-53 | for every book, copies on the shelf plus borrow records naming it are the same before and after a borrow |
| Borrowing.LoansBoundedByCopies | routers/borrow_records.py:35-51 | over any run of borrow requests, a book's count stays at zero or above, and its new loans equal the copies taken, never more than it had |
| Borrowing.LastCopy | routers/borrow_records.py:35-53 | borrowing the last copy succeeds, leaves zero copies and the flag cleared, and the next borrow of that book fails with the invalid-state error |
| LibraryStore.Library.constructor | models.py:5-23 | the tables start empty and satisfy the invariant |
| LibraryStore.Library.AddBook | routers/books.py:47-51 | keeps the invariant and produces the answer and new state of `Books.AddBook` |
| LibraryStore.Library.UpdateBook | routers/books.py:54-65 | keeps the invariant and produces the answer and new state of `Books.UpdateBook` |
| LibraryStore.Library.DeleteBook | routers/books.py:69-76 | keeps the invariant and produces the answer and new state of `Books.DeleteBook` |
| LibraryStore.Library.AddMember | routers/members.py:42-46 | keeps the invariant and produces the answer and new state of `Members.AddMember` |
| LibraryStore.Library.UpdateMember | routers/members.py:49-59 | keeps the invariant and produces the answer and new state of `Members.UpdateMember` |
| LibraryStore.Library.DeleteMember | routers/members.py:62-69 | keeps the invariant and produces the answer and new state of `Members.DeleteMember` |
| LibraryStore.Library.BorrowBook | routers/borrow_records.py:27-62 | keeps the invariant, changes nothing on failure, and produces the answer and new state of `Borrowing.Borrow` |

## Left out

- routers/auth.py (member registration with a password) is not part of this model. Its hashing is a foreign cryptographic call, the object it builds is never added to a session, and it sets columns the members table does not declare. No login or token code exists in the source.
- Members.ParseRequest, Emails.Lower: the email validator is a library. The model checks only that a non-empty local part and domain surround the last `@`. It strips only ASCII space, tab, CR and LF and lowercases only the ASCII capitals of the domain, where the validator lowercases every capital: the model stores the domain `ÉX` as `Éx`. It neither extracts the address from the `Name <addr>` form nor applies Unicode or IDNA normalisation, and the other syntax rules of an address are not checked.
- Sessions, commit and close, routing, status-code decorators and application start-up (main.py) are left out. Each handler is one atomic step on the store.
- Books.AddBook, Books.UpdateBook: the database's integer column widths are not modelled, so a copy count beyond them is stored by the model where the service's commit fails and nothing is stored. The model's integers are unbounded.
- Borrowing.Borrow: the member id and book id of a borrow body are taken as given. A body missing either one, or carrying a non-integer, is rejected by the web framework before the book lookup; the model's request type cannot express that input.
- Wall-clock time is a parameter `now` (a `Timestamp`, an integer).
- Concurrent requests are not modelled. The model is sequential, so the read-then-decrement race between two borrows of the last copy is not captured.
- Surrogate ids come from a per-table counter, like a database sequence. Contracts promise only that the new id was not in use.
- Books.AddBook, Members.AddMember: the handlers return nothing, which the framework sends as `null`; the model's answer carries the new id so that lemmas can name the new row.
- Books.ReadAll, Members.ReadAll: the query does not fix an order; the model lists rows in ascending id, the order a table scan gives.
- Validation errors carry only the name of the offending field, not the framework's message. A field sent as `null` is treated like an omitted one, and wrongly typed values are not modelled.
- A duplicate email surfaces as a failed commit (a server error), which the model names `Conflict`.
- The borrow-record model class is not in the source. The model keeps only the fields the borrow handler sets (routers/borrow_records.py:44-47): member id and book id, plus the record's id and its borrow date, which the handler reads back for the answer (line 61). Whether the database rejects deleting a book or member that records still name depends on that missing declaration and on the database; the model lets the delete happen and leaves the records in place.
- No "return a book" operation exists in the source, so loans are never closed: a borrow only ever lowers a book's copies, while an update can set them to any count of 0 or more.
