/**
 * The catalog routes: the listing, the details of one book with the
 * borrowings that are still active, adding a book, updating one by identity
 * or external id, and deleting one by identity.
 *
 * The catalog is a table of books kept by a `Catalog` object; the ledger the
 * details route reads is passed in as the sequence of its records.
 */
module Books {
  import opened Wrappers
  import opened Seqs
  import Js
  import opened Store
  import opened BookSchema
  import TransactionSchema

  /** `Book.findOne({ bookId: key })`: the first book with that external id. */
  function FindByBookId(books: seq<Book>, key: string): (r: Option<nat>)
    ensures r.None? <==> forall i :: 0 <= i < |books| ==> books[i].bookId != key
    ensures r.Some? ==> r.value < |books| && books[r.value].bookId == key
    ensures r.Some? ==> forall j :: 0 <= j < r.value ==> books[j].bookId != key
  {
    FindFirst(books, (b: Book) => b.bookId == key)
  }

  /** `Book.findById(id)`: the first book with that identity. */
  function FindById(books: seq<Book>, id: ObjectId): (r: Option<nat>)
    ensures r.None? <==> forall i :: 0 <= i < |books| ==> books[i].id != id
    ensures r.Some? ==> r.value < |books| && books[r.value].id == id
    ensures r.Some? ==> forall j :: 0 <= j < r.value ==> books[j].id != id
  {
    FindFirst(books, (b: Book) => b.id == id)
  }

  /** The first book whose identity the key denotes or whose external id is the key. */
  function FindByIdOrBookId(books: seq<Book>, key: string): (r: Option<nat>)
    ensures r.None? <==> forall i :: 0 <= i < |books| ==> CastId(key) != Some(books[i].id) && books[i].bookId != key
    ensures r.Some? ==> r.value < |books| && (CastId(key) == Some(books[r.value].id) || books[r.value].bookId == key)
    ensures r.Some? ==> forall j :: 0 <= j < r.value ==> CastId(key) != Some(books[j].id) && books[j].bookId != key
  {
    FindFirst(books, (b: Book) => CastId(key) == Some(b.id) || b.bookId == key)
  }

  // ---------------------------------------------------------------- listing

  /** A book as the listing shows it: identity, external id, name, author and copies. */
  datatype Listed = Listed(id: ObjectId, bookId: string, bookName: string, authorName: string, copies: int)

  function ListedOf(b: Book): Listed {
    Listed(b.id, b.bookId, b.bookName, b.authorName, b.copies)
  }

  /** `GET /`: every book of the catalog, in catalog order, reduced to the listed paths. */
  function Listing(books: seq<Book>): (r: seq<Listed>)
    ensures |r| == |books|
    ensures forall i :: 0 <= i < |books| ==>
      r[i].id == books[i].id && r[i].bookId == books[i].bookId && r[i].bookName == books[i].bookName &&
      r[i].authorName == books[i].authorName && r[i].copies == books[i].copies
  {
    seq(|books|, i requires 0 <= i < |books| => ListedOf(books[i]))
  }

  // ---------------------------------------------------------------- details

  /** A borrowing as the details route shows it. */
  datatype Borrowing = Borrowing(id: ObjectId, borrowerName: string, fromDate: string, toDate: string, transactionType: TransactionSchema.TxType)

  function BorrowingOf(t: TransactionSchema.Transaction): Borrowing {
    Borrowing(t.id, t.borrowerName, t.fromDate, t.toDate, t.transactionType)
  }

  /** The records the details query selects: that book and status Active. */
  predicate ActiveFor(t: TransactionSchema.Transaction, bookId: string) {
    t.bookId == bookId && t.transactionStatus == Some(TransactionSchema.Active)
  }

  /**
   * The active borrowings of a book, in ledger order: every record selected
   * appears, and nothing else does.
   */
  function Borrowings(ledger: seq<TransactionSchema.Transaction>, bookId: string): (r: seq<Borrowing>)
    ensures |r| <= |ledger|
    ensures forall j :: 0 <= j < |ledger| && ActiveFor(ledger[j], bookId) ==> BorrowingOf(ledger[j]) in r
  {
    if ledger == [] then []
    else
      var head := if ActiveFor(ledger[0], bookId) then [BorrowingOf(ledger[0])] else [];
      var rest := Borrowings(ledger[1..], bookId);
      assert forall j :: 1 <= j < |ledger| ==> ledger[j] == ledger[1..][j - 1];
      head + rest
  }

  /** Every borrowing shown comes from an Active record of that book. */
  lemma {:induction false} BorrowingsSelected(ledger: seq<TransactionSchema.Transaction>, bookId: string, e: Borrowing)
    requires e in Borrowings(ledger, bookId)
    ensures exists t :: t in ledger && ActiveFor(t, bookId) && e == BorrowingOf(t)
  {
    var head := if ActiveFor(ledger[0], bookId) then [BorrowingOf(ledger[0])] else [];
    assert Borrowings(ledger, bookId) == head + Borrowings(ledger[1..], bookId);
    if e in head {
      assert ledger[0] in ledger;
    } else {
      BorrowingsSelected(ledger[1..], bookId, e);
      var t :| t in ledger[1..] && ActiveFor(t, bookId) && e == BorrowingOf(t);
      assert t in ledger;
    }
  }

  /** The borrowings of a ledger that grew are those of its parts, in order. */
  lemma {:induction false} BorrowingsAppend(a: seq<TransactionSchema.Transaction>, b: seq<TransactionSchema.Transaction>, bookId: string)
    ensures Borrowings(a + b, bookId) == Borrowings(a, bookId) + Borrowings(b, bookId)
  {
    if a == [] {
      assert a + b == b;
    } else {
      assert (a + b)[1..] == a[1..] + b;
      BorrowingsAppend(a[1..], b, bookId);
    }
  }

  /** The book part of the details view: name, author and copies, no identity. */
  datatype BookView = BookView(bookId: string, bookName: string, authorName: string, copies: int)

  datatype Details = Details(book: BookView, transactions: seq<Borrowing>) | BookNotFound

  /** `GET /:bookId/details`. */
  function GetDetails(books: seq<Book>, ledger: seq<TransactionSchema.Transaction>, key: string): (r: Details)
    ensures r.BookNotFound? <==> forall i :: 0 <= i < |books| ==> books[i].bookId != key
    ensures r.Details? ==> exists i :: (0 <= i < |books| && books[i].bookId == key &&
                                       r.book == BookView(books[i].bookId, books[i].bookName, books[i].authorName, books[i].copies))
    ensures r.Details? ==> r.transactions == Borrowings(ledger, key)
  {
    match FindByBookId(books, key)
    case None => BookNotFound
    case Some(i) =>
      var b := books[i];
      Details(BookView(b.bookId, b.bookName, b.authorName, b.copies), Borrowings(ledger, b.bookId))
  }

  // ---------------------------------------------------------------- add

  /** The body of `POST /add`. */
  datatype AddRequest = AddRequest(
    bookId: Js.Value, bookName: Js.Value, authorName: Js.Value,
    category: Js.Value, copies: Js.Value, bookCountAvailable: Js.Value)

  /** The handler's own presence check: all four are truthy (so 0 copies is missing). */
  predicate HasRequired(req: AddRequest) {
    Js.Truthy(req.bookId) && Js.Truthy(req.bookName) && Js.Truthy(req.authorName) && Js.Truthy(req.copies)
  }

  /** `category ? [category] : []`, cast to the categories path. */
  function Categories(category: Js.Value): (c: Cast<seq<string>>)
    ensures !Js.Truthy(category) ==> c == Val([])
    ensures Js.Truthy(category) && !category.Obj? ==> c == Val([Js.ToJsString(category)])
    ensures category.Obj? ==> c.CastFailed?
  {
    if !Js.Truthy(category) then Val([])
    else match CastString(category)
      case Val(s) => Val([s])
      case _ => CastFailed
  }

  /** The casts of an add request pass the book schema. */
  predicate Admissible(req: AddRequest) {
    RequiredString(CastString(req.bookId)) && RequiredString(CastString(req.bookName)) &&
    RequiredString(CastString(req.authorName)) && RequiredNumber(CastNumber(req.copies)) &&
    Categories(req.category).Val?
  }

  /**
   * `new Book({ bookId, bookName, authorName, copies, categories })` and the
   * schema's validation on save: `None` when a cast or a required path fails.
   */
  function NewBook(id: ObjectId, req: AddRequest): (r: Option<Book>)
    ensures r.Some? <==> Admissible(req)
    ensures r.Some? ==> WellFormed(r.value) && r.value.id == id
    ensures r.Some? ==> (r.value.bookId == Js.ToJsString(req.bookId) && r.value.bookName == Js.ToJsString(req.bookName) &&
                         r.value.authorName == Js.ToJsString(req.authorName))
    ensures r.Some? ==> r.value.copies == CastNumber(req.copies).v && r.value.categories == Categories(req.category).v
    ensures r.Some? ==> r.value.altTitle.None? && r.value.language.None? && r.value.publisher.None?
  {
    if Admissible(req) then
      Some(Book(id, CastString(req.bookId).v, CastString(req.bookName).v, None, CastString(req.authorName).v,
                None, None, CastNumber(req.copies).v, Categories(req.category).v))
    else None
  }

  /** The stored book does not depend on the available-count field of the request. */
  lemma NewBookIgnoresAvailableCount(id: ObjectId, req: AddRequest, other: Js.Value)
    ensures NewBook(id, req) == NewBook(id, req.(bookCountAvailable := other))
  {
  }

  /** A request of plain strings and a number stores exactly those values. */
  lemma NewBookOfPlainRequest(id: ObjectId, bookId: string, bookName: string, authorName: string, copies: int, category: Js.Value)
    requires bookId != "" && bookName != "" && authorName != ""
    requires category.Undefined? || category.Str?
    ensures var req := AddRequest(Js.Str(bookId), Js.Str(bookName), Js.Str(authorName), category, Js.Num(copies), Js.Undefined);
      NewBook(id, req) == Some(Book(id, bookId, bookName, None, authorName, None, None, copies,
        if category.Str? && category.s != "" then [category.s] else []))
  {
  }

  // ---------------------------------------------------------------- update

  /** The body of `PUT /:bookId`. */
  datatype UpdateRequest = UpdateRequest(bookName: Js.Value, authorName: Js.Value, category: Js.Value, copies: Js.Value)

  /** What a `$set` of a required String path does: nothing, a new value, or a validation failure. */
  datatype Change = Keep | SetTo(v: string) | Reject

  /**
   * `$set` of a required String path with update validators: an undefined
   * value is dropped from the update, null, the empty string and objects fail.
   */
  function SetRequired(v: Js.Value): (c: Change)
    ensures c.Keep? <==> v.Undefined?
    ensures c.Reject? <==> v.Null? || v.Obj? || v == Js.Str("")
    ensures c.SetTo? ==> c.v == Js.ToJsString(v) && c.v != ""
  {
    match CastString(v)
    case Unset => if v.Undefined? then Keep else Reject
    case CastFailed => Reject
    case Val(s) => if s == "" then Reject else SetTo(s)
  }

  /** The cast and validated update of a book. */
  datatype BookEdit = BookEdit(bookName: Change, authorName: Change, copies: int, categories: seq<string>)

  /** The update document `{ bookName, authorName, copies: parseInt(copies), categories }` after casting. */
  function EditOf(req: UpdateRequest): (r: Option<BookEdit>)
    ensures r.None? <==> (SetRequired(req.bookName).Reject? || SetRequired(req.authorName).Reject? ||
                          Js.ParseInt(req.copies).None? || Categories(req.category).CastFailed?)
    ensures r.Some? ==> r.value.copies == Js.ParseInt(req.copies).value && r.value.categories == Categories(req.category).v
    ensures r.Some? ==> r.value.bookName == SetRequired(req.bookName) && r.value.authorName == SetRequired(req.authorName)
    ensures r.Some? ==> !r.value.bookName.Reject? && !r.value.authorName.Reject?
  {
    var name := SetRequired(req.bookName);
    var author := SetRequired(req.authorName);
    var copies := Js.ParseInt(req.copies);
    var categories := Categories(req.category);
    if name.Reject? || author.Reject? || copies.None? || !categories.Val? then None
    else Some(BookEdit(name, author, copies.value, categories.v))
  }

  function Changed(c: Change, current: string): string {
    if c.SetTo? then c.v else current
  }

  /**
   * A book after an update: name and author take the set values, copies and
   * categories are replaced, and everything else is kept.
   */
  function Edit(b: Book, e: BookEdit): (r: Book)
    requires !e.bookName.Reject? && !e.authorName.Reject?
    ensures r.id == b.id && r.bookId == b.bookId
    ensures r.altTitle == b.altTitle && r.language == b.language && r.publisher == b.publisher
    ensures r.bookName == (if e.bookName.SetTo? then e.bookName.v else b.bookName)
    ensures r.authorName == (if e.authorName.SetTo? then e.authorName.v else b.authorName)
    ensures r.copies == e.copies && r.categories == e.categories
  {
    b.(bookName := Changed(e.bookName, b.bookName), authorName := Changed(e.authorName, b.authorName),
       copies := e.copies, categories := e.categories)
  }

  /** An update keeps a book well formed. */
  lemma EditKeepsWellFormed(b: Book, req: UpdateRequest)
    requires WellFormed(b) && EditOf(req).Some?
    ensures WellFormed(Edit(b, EditOf(req).value))
  {
  }

  /** Copies given as a number, or as the decimal text of one, are stored as that number. */
  lemma EditStoresCopies(b: Book, req: UpdateRequest, n: int)
    requires req.copies == Js.Num(n) || req.copies == Js.Str(Js.DecimalString(n))
    requires !SetRequired(req.bookName).Reject? && !SetRequired(req.authorName).Reject?
    requires !req.category.Obj?
    ensures EditOf(req).Some? && Edit(b, EditOf(req).value).copies == n
  {
    Js.ParseIntOfDecimalString(n);
  }

  /**
   * The lookup of `PUT /:bookId` as written: both alternatives of the filter
   * are cast before the query runs, so a key that denotes no identity
   * makes the whole lookup fail, even when a book has that external id.
   */
  function UpdateLookupAsWritten(books: seq<Book>, key: string): (r: Cast<Option<nat>>)
    ensures CastId(key).None? <==> r.CastFailed?
    ensures CastId(key).Some? ==> r == Val(FindByIdOrBookId(books, key))
  {
    if CastId(key).None? then CastFailed else Val(FindByIdOrBookId(books, key))
  }

  /** A book with external id "B1" that the written lookup cannot reach. */
  lemma UpdateLookupMissesBookId()
    ensures var books := [Book(0, "B1", "Dune", None, "Herbert", None, None, 1, [])];
      FindByIdOrBookId(books, "B1") == Some(0) && UpdateLookupAsWritten(books, "B1") == CastFailed
  {
    assert !Js.IsDigit("B1"[0], 10);
  }

  // ---------------------------------------------------------------- the table

  datatype AddOutcome = Added(book: Book) | MissingFields | DuplicateBookId | AddFailed
  datatype UpdateOutcome = Updated(book: Book) | UpdateNotFound | UpdateFailed
  datatype DeleteOutcome = Deleted | DeleteNotFound | DeleteFailed

  /** Books pass their schema, external ids are unique, identities are distinct and below `nextId`. */
  predicate Table(books: seq<Book>, nextId: ObjectId) {
    UniqueBookIds(books) &&
    (forall i :: 0 <= i < |books| ==> WellFormed(books[i]) && books[i].id < nextId) &&
    (forall i, j :: 0 <= i < j < |books| ==> books[i].id != books[j].id)
  }

  /** Removing one book keeps the table's invariant; the others stay, in order. */
  lemma TableRemove(books: seq<Book>, nextId: ObjectId, i: nat)
    requires Table(books, nextId) && i < |books|
    ensures Table(books[..i] + books[i + 1..], nextId)
    ensures forall j :: 0 <= j < |books| && j != i ==> books[j] in books[..i] + books[i + 1..]
    ensures forall b :: b in books[..i] + books[i + 1..] ==> b in books && b.id != books[i].id
  {
    var r := books[..i] + books[i + 1..];
    assert forall j :: 0 <= j < |r| ==> r[j] == books[if j < i then j else j + 1];
    forall j | 0 <= j < |books| && j != i ensures books[j] in r {
      assert r[if j < i then j else j - 1] == books[j];
    }
  }

  /** Replacing a book by a well-formed one with the same identity and external id keeps the table's invariant. */
  lemma TableReplace(books: seq<Book>, nextId: ObjectId, i: nat, b: Book)
    requires Table(books, nextId) && i < |books|
    requires WellFormed(b) && b.id == books[i].id && b.bookId == books[i].bookId
    ensures Table(books[i := b], nextId)
  {
  }

  /** The book collection. */
  class Catalog {
    var books: seq<Book>
    var nextId: ObjectId

    /** Books pass their schema, external ids are unique, identities are distinct and already issued. */
    predicate Valid()
      reads this
    {
      Table(books, nextId)
    }

    constructor ()
      ensures Valid() && books == [] && nextId == 0
    {
      books := [];
      nextId := 0;
    }

    /**
     * `POST /add`: 400 unless the four required values are truthy, 409 when
     * the external id is taken, a failure when a cast fails, and otherwise
     * the new book is appended.
     */
    method Add(req: AddRequest) returns (o: AddOutcome)
      requires Valid()
      modifies this
      ensures Valid()
      ensures o == MissingFields <==> !HasRequired(req)
      ensures o == AddFailed <==>
        HasRequired(req) && (!CastString(req.bookId).Val? ||
          (FindByBookId(old(books), CastString(req.bookId).v).None? && !Admissible(req)))
      ensures o == DuplicateBookId <==>
        HasRequired(req) && CastString(req.bookId).Val? && FindByBookId(old(books), CastString(req.bookId).v).Some?
      ensures o.Added? <==>
        HasRequired(req) && CastString(req.bookId).Val? && FindByBookId(old(books), CastString(req.bookId).v).None? &&
        Admissible(req)
      ensures o.Added? ==> o.book == NewBook(old(nextId), req).value && books == old(books) + [o.book] && nextId == old(nextId) + 1
      ensures !o.Added? ==> books == old(books) && nextId == old(nextId)
    {
      if !HasRequired(req) {
        return MissingFields;
      }
      var key := CastString(req.bookId);
      if !key.Val? {
        return AddFailed;
      }
      if FindByBookId(books, key.v).Some? {
        return DuplicateBookId;
      }
      var b := NewBook(nextId, req);
      if b.None? {
        return AddFailed;
      }
      books := books + [b.value];
      nextId := nextId + 1;
      o := Added(b.value);
    }

    /**
     * `PUT /:bookId`: the update is cast and validated before the lookup, so
     * a bad update fails even for an unknown key; an unknown key is 404; the
     * first book matched by identity or external id is updated in place.
     */
    method Update(key: string, req: UpdateRequest) returns (o: UpdateOutcome)
      requires Valid()
      modifies this
      ensures Valid()
      ensures nextId == old(nextId)
      ensures EditOf(req).None? ==> o == UpdateFailed && books == old(books)
      ensures EditOf(req).Some? && FindByIdOrBookId(old(books), key).None? ==> o == UpdateNotFound && books == old(books)
      ensures EditOf(req).Some? && FindByIdOrBookId(old(books), key).Some? ==>
        var i := FindByIdOrBookId(old(books), key).value;
        var b := Edit(old(books)[i], EditOf(req).value);
        books == old(books)[i := b] && o == Updated(b)
    {
      var e := EditOf(req);
      if e.None? {
        return UpdateFailed;
      }
      var found := FindByIdOrBookId(books, key);
      if found.None? {
        return UpdateNotFound;
      }
      var i := found.value;
      var b := Edit(books[i], e.value);
      EditKeepsWellFormed(books[i], req);
      Replace(i, b);
      o := Updated(b);
    }

    /** Saving an edited book: it replaces the stored one, keeping its identity and external id. */
    method Replace(i: nat, b: Book)
      requires Valid() && i < |books|
      requires WellFormed(b) && b.id == books[i].id && b.bookId == books[i].bookId
      modifies this
      ensures Valid()
      ensures books == old(books)[i := b] && nextId == old(nextId)
    {
      TableReplace(books, nextId, i, b);
      books := books[i := b];
    }

    /**
     * `DELETE /:bookId`: a key that denotes no identity fails, an
     * identity no book has is 404, and otherwise that one book is removed.
     * The ledger is not touched.
     */
    method Delete(key: string) returns (o: DeleteOutcome)
      requires Valid()
      modifies this
      ensures Valid()
      ensures nextId == old(nextId)
      ensures CastId(key).None? ==> o == DeleteFailed && books == old(books)
      ensures CastId(key).Some? && FindById(old(books), CastId(key).value).None? ==> o == DeleteNotFound && books == old(books)
      ensures CastId(key).Some? && FindById(old(books), CastId(key).value).Some? ==>
        var i := FindById(old(books), CastId(key).value).value;
        o == Deleted && books == old(books)[..i] + old(books)[i + 1..]
      ensures o == Deleted ==> forall b :: b in books ==> Some(b.id) != CastId(key)
      ensures forall b :: b in old(books) && Some(b.id) != CastId(key) ==> b in books
    {
      var id := CastId(key);
      if id.None? {
        return DeleteFailed;
      }
      var found := FindById(books, id.value);
      if found.None? {
        return DeleteNotFound;
      }
      var i := found.value;
      TableRemove(books, nextId, i);
      books := books[..i] + books[i + 1..];
      o := Deleted;
    }
  }
}
