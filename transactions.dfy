/**
 * The ledger routes: creating a borrowing or reservation from a request,
 * updating a record by merging a request body into it, and listing the
 * ledger newest first.
 *
 * The ledger is a table of records kept by a `Ledger` object, with the
 * identities and the clock the store would supply.
 */
module Transactions {
  import opened Wrappers
  import Js
  import opened Store
  import opened TransactionSchema
  import BookSchema
  import Books

  // ---------------------------------------------------------------- add

  /** The body of `POST /add`. */
  datatype AddRequest = AddRequest(bookId: Js.Value, borrowerName: Js.Value, transactionType: Js.Value, fromDate: Js.Value, toDate: Js.Value)

  /** The paths the handler checks itself. */
  const CheckedFields: set<Field> := {BookId, BorrowerName, TransactionType, FromDate, ToDate}

  /** A string that is not all white space, so not empty once trimmed. */
  predicate NonBlank(v: Js.Value) {
    v.Str? && !Js.AllWhiteSpace(v.s)
  }

  /** One of the two type names, exactly. */
  predicate IsTypeName(v: Js.Value) {
    v == Js.Str("Issued") || v == Js.Str("Reserved")
  }

  /** The handler's check of one path. */
  predicate Passes(req: AddRequest, f: Field)
    requires f in CheckedFields
  {
    match f
    case BookId => NonBlank(req.bookId)
    case BorrowerName => NonBlank(req.borrowerName)
    case TransactionType => IsTypeName(req.transactionType)
    case FromDate => NonBlank(req.fromDate)
    case ToDate => NonBlank(req.toDate)
  }

  /** A request that passes all five checks. */
  predicate Accepted(req: AddRequest) {
    NonBlank(req.bookId) && NonBlank(req.borrowerName) && IsTypeName(req.transactionType) &&
    NonBlank(req.fromDate) && NonBlank(req.toDate)
  }

  /** Path `f` is one the handler checks, and the request fails that check. */
  predicate Fails(req: AddRequest, f: Field) {
    f in CheckedFields && !Passes(req, f)
  }

  /** A request is accepted exactly when no path fails. */
  lemma AcceptedIffNoFailure(req: AddRequest)
    ensures Accepted(req) <==> forall f :: !Fails(req, f)
  {
    if !Accepted(req) {
      if !NonBlank(req.bookId) {
        assert Fails(req, BookId);
      } else if !NonBlank(req.borrowerName) {
        assert Fails(req, BorrowerName);
      } else if !IsTypeName(req.transactionType) {
        assert Fails(req, TransactionType);
      } else if !NonBlank(req.fromDate) {
        assert Fails(req, FromDate);
      } else {
        assert Fails(req, ToDate);
      }
    }
  }

  /** The message reported for a failing path. */
  datatype Detail = BookIdDetail | BorrowerNameDetail | TransactionTypeDetail | FromDateDetail | ToDateDetail

  function DetailOf(f: Field): Detail
    requires f in CheckedFields
  {
    match f
    case BookId => BookIdDetail
    case BorrowerName => BorrowerNameDetail
    case TransactionType => TransactionTypeDetail
    case FromDate => FromDateDetail
    case ToDate => ToDateDetail
  }

  /** The text of a message as the response carries it. */
  function Text(d: Detail): string {
    match d
    case BookIdDetail => "Book ID is required and must be a non-empty string"
    case BorrowerNameDetail => "Borrower name is required and must be a non-empty string"
    case TransactionTypeDetail => "Transaction type must be either \"Issued\" or \"Reserved\""
    case FromDateDetail => "From date is required and must be a valid date string"
    case ToDateDetail => "To date is required and must be a valid date string"
  }

  /**
   * The handler's test of a string path: falsy, not a string, or all white
   * space (which is when `trim()` leaves the empty string).
   */
  predicate Blank(v: Js.Value) {
    !Js.Truthy(v) || !v.Str? || Js.AllWhiteSpace(v.s)
  }

  /** The handler's test of the type path: falsy, or not one of the two names. */
  predicate NotATypeName(v: Js.Value) {
    !Js.Truthy(v) || !(v == Js.Str("Issued") || v == Js.Str("Reserved"))
  }

  /** `Blank` is the written test `!v || typeof v !== 'string' || v.trim() === ''`, and it fails exactly where the checks do. */
  lemma BlankIffFails(v: Js.Value)
    ensures Blank(v) <==> (!Js.Truthy(v) || !v.Str? || Js.Trim(v.s) == "")
    ensures Blank(v) <==> !NonBlank(v)
    ensures NotATypeName(v) <==> !IsTypeName(v)
  {
  }

  /**
   * The five checks of `POST /add`, each run whatever the others found: the
   * result has exactly one entry per failing path, with its message.
   */
  method Validate(req: AddRequest) returns (errors: map<Field, Detail>)
    ensures forall f :: f in errors <==> Fails(req, f)
    ensures forall f :: f in errors ==> f in CheckedFields && errors[f] == DetailOf(f)
    ensures errors == map[] <==> Accepted(req)
  {
    errors := map[];
    if Blank(req.bookId) {
      errors := errors[BookId := BookIdDetail];
    }
    if Blank(req.borrowerName) {
      errors := errors[BorrowerName := BorrowerNameDetail];
    }
    if NotATypeName(req.transactionType) {
      errors := errors[TransactionType := TransactionTypeDetail];
    }
    if Blank(req.fromDate) {
      errors := errors[FromDate := FromDateDetail];
    }
    if Blank(req.toDate) {
      errors := errors[ToDate := ToDateDetail];
    }
  }

  /** The book lookup of `POST /add`: by the trimmed external id. */
  function LookupKey(req: AddRequest): string
    requires Accepted(req)
  {
    Js.Trim(req.bookId.s)
  }

  /**
   * The initial values the handler gives the new record, by schema path:
   * the book's external id and name, the trimmed borrower and dates, the
   * request's type and the Active status.
   */
  function Snapshot(book: BookSchema.Book, borrower: string, txType: Js.Value, from: string, to: string): map<Field, Js.Value> {
    map[BookId := Js.Str(book.bookId), BookName := Js.Str(book.bookName),
        BorrowerName := Js.Str(borrower), TransactionType := txType,
        FromDate := Js.Str(from), ToDate := Js.Str(to),
        TransactionStatus := Js.Str("Active")]
  }

  /** The record the snapshot is meant to become. */
  function Intended(book: BookSchema.Book, borrower: string, txType: TxType, from: string, to: string, id: ObjectId, at: nat): Transaction {
    Transaction(id, book.bookId, book.bookName, borrower, txType, Some(Active), from, to, None, at, at)
  }

  /** Constructing from the snapshot fills every path as intended. */
  lemma SnapshotDraft(book: BookSchema.Book, borrower: string, txType: TxType, from: string, to: string, id: ObjectId, at: nat)
    ensures Construct(Snapshot(book, borrower, Js.Str(TypeName(txType)), from, to)) == ToDraft(Intended(book, borrower, txType, from, to, id, at))
  {
    var d := Construct(Snapshot(book, borrower, Js.Str(TypeName(txType)), from, to));
    var e := ToDraft(Intended(book, borrower, txType, from, to, id, at));
    assert d[TransactionType] == e[TransactionType];
    assert d[ReturnDate] == e[ReturnDate];
    assert d[BookId] == e[BookId] && d[BookName] == e[BookName] && d[BorrowerName] == e[BorrowerName];
    assert d[FromDate] == e[FromDate] && d[ToDate] == e[ToDate] && d[TransactionStatus] == e[TransactionStatus];
    assert d.Keys == e.Keys;
  }

  /** The type a request names, once it passed its check. */
  function RequestedType(v: Js.Value): (t: TxType)
    requires IsTypeName(v)
    ensures v == Js.Str(TypeName(t))
  {
    if v == Js.Str("Issued") then Issued else Reserved
  }

  /**
   * `new Transaction({...})` for an accepted request and the book it names,
   * saved with identity `id` at time `at`: the book's external id and name
   * are copied, borrower and dates are trimmed, the status is Active and
   * there is no return date. The record passes its schema.
   */
  function NewRecord(req: AddRequest, book: BookSchema.Book, id: ObjectId, at: nat): (t: Transaction)
    requires Accepted(req) && BookSchema.WellFormed(book)
    ensures WellFormed(t) && t.id == id && t.createdAt == at && t.updatedAt == at
    ensures t.bookId == book.bookId && t.bookName == book.bookName
    ensures t.borrowerName == Js.Trim(req.borrowerName.s)
    ensures t.fromDate == Js.Trim(req.fromDate.s) && t.toDate == Js.Trim(req.toDate.s)
    ensures req.transactionType == Js.Str(TypeName(t.transactionType))
    ensures t.transactionStatus == Some(Active) && t.returnDate == None
  {
    var borrower, from, to := Js.Trim(req.borrowerName.s), Js.Trim(req.fromDate.s), Js.Trim(req.toDate.s);
    var txType := RequestedType(req.transactionType);
    var intended := Intended(book, borrower, txType, from, to, id, at);
    SnapshotDraft(book, borrower, txType, from, to, id, at);
    RecordValidation(intended);
    var t := FromDraft(Construct(Snapshot(book, borrower, req.transactionType, from, to)), id, at, at);
    ToDraftInjective(t, intended);
    t
  }

  // ---------------------------------------------------------------- update

  /**
   * `Object.assign(record, body)` on the schema paths the body names: each
   * takes the body's value cast to a string, and every other path keeps its
   * value.
   */
  function Assign(d: Draft, patch: map<Field, Js.Value>): (r: Draft)
    requires Complete(d)
    ensures Complete(r)
    ensures forall f :: f in AllFields && f in patch ==> r[f] == CastString(patch[f])
    ensures forall f :: f in AllFields && f !in patch ==> r[f] == d[f]
  {
    d + map f | f in AllFields && f in patch :: CastString(patch[f])
  }

  /** The outcome of merging a body into a record and saving it. */
  datatype Merge = Merged(record: Transaction) | Rejected(errors: map<Field, Violation>)

  /**
   * The merge and save of `PUT /:id` on a stored record at time `now`: the
   * merged paths are validated against the schema; a failing path fails the
   * save with its error, and only paths the body names can fail. A save that
   * changes nothing keeps the update time.
   */
  function MergeUpdate(t: Transaction, patch: map<Field, Js.Value>, now: nat): (r: Merge)
    requires WellFormed(t)
    ensures r.Rejected? <==> Errors(Assign(ToDraft(t), patch)) != map[]
    ensures r.Rejected? ==> r.errors == Errors(Assign(ToDraft(t), patch))
    ensures r.Rejected? ==> forall f :: f in r.errors ==> f in patch
    ensures r.Merged? ==> WellFormed(r.record) && r.record.id == t.id && r.record.createdAt == t.createdAt
    ensures r.Merged? ==> ToDraft(r.record) == Assign(ToDraft(t), patch)
    ensures r.Merged? ==> r.record.updatedAt == if ToDraft(r.record) == ToDraft(t) then t.updatedAt else now
  {
    var d := Assign(ToDraft(t), patch);
    RejectedOnlyPatched(t, patch);
    if Errors(d) != map[] then Rejected(Errors(d))
    else Merged(FromDraft(d, t.id, t.createdAt, if d == ToDraft(t) then t.updatedAt else now))
  }

  /** The paths of a stored record that the body leaves alone pass validation. */
  lemma RejectedOnlyPatched(t: Transaction, patch: map<Field, Js.Value>)
    requires WellFormed(t)
    ensures forall f :: f in Errors(Assign(ToDraft(t), patch)) ==> f in patch
  {
    RecordValidation(t);
    var d := Assign(ToDraft(t), patch);
    forall f | f in AllFields && f !in patch ensures f !in Errors(d) {
      assert d[f] == ToDraft(t)[f];
      assert f !in Errors(ToDraft(t));
    }
  }

  /** A body that puts the type outside its enumeration is rejected on that path. */
  lemma MergeRejectsUnknownType(t: Transaction, patch: map<Field, Js.Value>, now: nat, s: string)
    requires WellFormed(t)
    requires TransactionType in patch && patch[TransactionType] == Js.Str(s) && s != "" && ParseType(s).None?
    ensures MergeUpdate(t, patch, now).Rejected?
    ensures MergeUpdate(t, patch, now).errors[TransactionType] == NotInEnum
  {
    assert Assign(ToDraft(t), patch)[TransactionType] == Val(s);
  }

  /** A body that puts the status outside its enumeration is rejected on that path. */
  lemma MergeRejectsUnknownStatus(t: Transaction, patch: map<Field, Js.Value>, now: nat, s: string)
    requires WellFormed(t)
    requires TransactionStatus in patch && patch[TransactionStatus] == Js.Str(s) && ParseStatus(s).None?
    ensures MergeUpdate(t, patch, now).Rejected?
    ensures MergeUpdate(t, patch, now).errors[TransactionStatus] == NotInEnum
  {
    assert Assign(ToDraft(t), patch)[TransactionStatus] == Val(s);
  }

  /** A body whose every schema path passes its check is accepted. */
  lemma PatchPasses(t: Transaction, patch: map<Field, Js.Value>)
    requires WellFormed(t)
    requires forall f :: f in AllFields && f in patch ==> Check(f, CastString(patch[f])).None?
    ensures Errors(Assign(ToDraft(t), patch)) == map[]
  {
    RecordValidation(t);
    var d := Assign(ToDraft(t), patch);
    forall f | f in AllFields ensures f !in Errors(d) {
      if f !in patch {
        assert d[f] == ToDraft(t)[f];
        assert f !in Errors(ToDraft(t));
      }
    }
  }

  /** A merge that is saved keeps every path the body does not name. */
  lemma MergeKeepsUnpatched(t: Transaction, patch: map<Field, Js.Value>, now: nat)
    requires WellFormed(t) && MergeUpdate(t, patch, now).Merged?
    ensures var r := MergeUpdate(t, patch, now).record;
      && (BookId !in patch ==> r.bookId == t.bookId)
      && (BookName !in patch ==> r.bookName == t.bookName)
      && (BorrowerName !in patch ==> r.borrowerName == t.borrowerName)
      && (TransactionType !in patch ==> r.transactionType == t.transactionType)
      && (TransactionStatus !in patch ==> r.transactionStatus == t.transactionStatus)
      && (FromDate !in patch ==> r.fromDate == t.fromDate)
      && (ToDate !in patch ==> r.toDate == t.toDate)
      && (ReturnDate !in patch ==> r.returnDate == t.returnDate)
  {
    var r := MergeUpdate(t, patch, now).record;
    forall f | f in AllFields && f !in patch
      ensures ToDraft(r)[f] == ToDraft(t)[f]
    {
    }
    if BookId !in patch { SamePath(r, t, BookId); }
    if BookName !in patch { SamePath(r, t, BookName); }
    if BorrowerName !in patch { SamePath(r, t, BorrowerName); }
    if TransactionType !in patch { SamePath(r, t, TransactionType); }
    if TransactionStatus !in patch { SamePath(r, t, TransactionStatus); }
    if FromDate !in patch { SamePath(r, t, FromDate); }
    if ToDate !in patch { SamePath(r, t, ToDate); }
    if ReturnDate !in patch { SamePath(r, t, ReturnDate); }
  }

  /** Completing a record: the status becomes Completed, the return date is recorded, and the rest is kept. */
  lemma MergeCompletes(t: Transaction, now: nat, date: string)
    requires WellFormed(t)
    ensures var r := MergeUpdate(t, map[TransactionStatus := Js.Str("Completed"), ReturnDate := Js.Str(date)], now);
      && r.Merged? && r.record.transactionStatus == Some(Completed) && r.record.returnDate == Some(date)
      && r.record.bookId == t.bookId && r.record.bookName == t.bookName && r.record.borrowerName == t.borrowerName
      && r.record.transactionType == t.transactionType && r.record.fromDate == t.fromDate && r.record.toDate == t.toDate
  {
    var patch := map[TransactionStatus := Js.Str("Completed"), ReturnDate := Js.Str(date)];
    assert Check(TransactionStatus, CastString(patch[TransactionStatus])).None?;
    PatchPasses(t, patch);
    MergeKeepsUnpatched(t, patch, now);
    var d := ToDraft(MergeUpdate(t, patch, now).record);
    assert d[TransactionStatus] == Val("Completed");
    assert d[ReturnDate] == Val(date);
  }

  /**
   * A body whose schema paths carry the record's own values leaves the
   * record exactly as it was, update time included.
   */
  lemma MergeOwnValues(t: Transaction, patch: map<Field, Js.Value>, now: nat)
    requires WellFormed(t)
    requires forall f :: f in AllFields && f in patch ==> CastString(patch[f]) == ToDraft(t)[f]
    ensures MergeUpdate(t, patch, now) == Merged(t)
  {
    var d := Assign(ToDraft(t), patch);
    assert d == ToDraft(t);
    DraftRoundTrip(t);
  }

  /** The body a client sends back for a record it has read: each path as a string, null where empty. */
  function OwnBody(t: Transaction): (body: map<Field, Js.Value>)
    ensures forall f :: f in AllFields && f in body ==> CastString(body[f]) == ToDraft(t)[f]
  {
    map f | f in AllFields :: match ToDraft(t)[f] case Val(s) => Js.Str(s) case _ => Js.Null
  }

  /** Sending back a record as the route answered it leaves the record exactly as it was. */
  lemma MergeOwnBody(t: Transaction, now: nat)
    requires WellFormed(t)
    ensures MergeUpdate(t, OwnBody(t), now) == Merged(t)
  {
    MergeOwnValues(t, OwnBody(t), now);
  }

  // ---------------------------------------------------------------- listing

  /** Ordered by creation time, newest first. */
  predicate NewestFirstOrder(s: seq<Transaction>) {
    forall i, j :: 0 <= i < j < |s| ==> s[i].createdAt >= s[j].createdAt
  }

  function Insert(t: Transaction, s: seq<Transaction>): (r: seq<Transaction>)
    requires NewestFirstOrder(s)
    ensures NewestFirstOrder(r) && multiset(r) == multiset(s) + multiset{t}
    ensures r != [] && (r[0] == t || (s != [] && r[0] == s[0]))
  {
    if s == [] || s[0].createdAt <= t.createdAt then
      PrependKeepsOrder(t, s);
      [t] + s
    else
      var rest := Insert(t, s[1..]);
      assert s == [s[0]] + s[1..];
      PrependKeepsOrder(s[0], rest);
      [s[0]] + rest
  }

  /** Putting a record no older than the first in front of a newest-first sequence keeps it newest first. */
  lemma PrependKeepsOrder(x: Transaction, s: seq<Transaction>)
    requires NewestFirstOrder(s)
    requires s == [] || s[0].createdAt <= x.createdAt
    ensures NewestFirstOrder([x] + s)
  {
    var r := [x] + s;
    forall i, j | 0 <= i < j < |r| ensures r[i].createdAt >= r[j].createdAt {
      if i == 0 {
        assert r[j] == s[j - 1];
        assert s[0].createdAt >= s[j - 1].createdAt;
      } else {
        assert r[i] == s[i - 1] && r[j] == s[j - 1];
      }
    }
  }

  /** `GET /`: the ledger sorted by creation time, newest first; the same records, none lost or added. */
  function NewestFirst(records: seq<Transaction>): (r: seq<Transaction>)
    ensures NewestFirstOrder(r)
    ensures multiset(r) == multiset(records)
  {
    if records == [] then []
    else
      assert records == [records[0]] + records[1..];
      Insert(records[0], NewestFirst(records[1..]))
  }

  // ---------------------------------------------------------------- the table

  datatype AddOutcome = Added(record: Transaction) | Invalid(errors: map<Field, Detail>) | BookNotFound
  datatype UpdateOutcome = Updated(record: Transaction) | UpdateRejected(errors: map<Field, Violation>) | UpdateNotFound | UpdateFailed

  /** Records pass their schema, identities are distinct and issued, and times are before the clock. */
  predicate Table(records: seq<Transaction>, nextId: ObjectId, clock: nat) {
    (forall i :: 0 <= i < |records| ==>
      WellFormed(records[i]) && records[i].id < nextId && records[i].createdAt <= records[i].updatedAt < clock) &&
    (forall i, j :: 0 <= i < j < |records| ==> records[i].id != records[j].id)
  }

  /** Appending a new well-formed record with the next identity at the current time keeps the table. */
  lemma TableAppend(records: seq<Transaction>, nextId: ObjectId, clock: nat, t: Transaction)
    requires Table(records, nextId, clock)
    requires WellFormed(t) && t.id == nextId && t.createdAt == clock && t.updatedAt == clock
    ensures Table(records + [t], nextId + 1, clock + 1)
  {
  }

  /** Replacing a record by one with its identity and creation time, updated no later than now, keeps the table once the clock moves on. */
  lemma TableReplace(records: seq<Transaction>, nextId: ObjectId, clock: nat, i: nat, t: Transaction)
    requires Table(records, nextId, clock) && i < |records|
    requires WellFormed(t) && t.id == records[i].id && t.createdAt == records[i].createdAt
    requires t.createdAt <= t.updatedAt <= clock
    ensures Table(records[i := t], nextId, clock + 1)
  {
  }

  /** The transaction collection. */
  class Ledger {
    var records: seq<Transaction>
    var nextId: ObjectId
    var clock: nat

    predicate Valid()
      reads this
    {
      Table(records, nextId, clock)
    }

    constructor ()
      ensures Valid() && records == [] && nextId == 0 && clock == 0
    {
      records := [];
      nextId := 0;
      clock := 0;
    }

    /**
     * `POST /add`: 400 with every failing path, 404 when no book has the
     * trimmed external id, and otherwise one new Active record is appended.
     * The catalog is only read.
     */
    method Add(req: AddRequest, catalog: Books.Catalog) returns (o: AddOutcome)
      requires Valid() && catalog.Valid()
      modifies this
      ensures Valid()
      ensures o.Invalid? <==> !Accepted(req)
      ensures o.Invalid? ==> (forall f :: f in o.errors <==> Fails(req, f)) && (forall f :: f in o.errors ==> f in CheckedFields && o.errors[f] == DetailOf(f))
      ensures o.BookNotFound? <==> Accepted(req) && Books.FindByBookId(old(catalog.books), LookupKey(req)).None?
      ensures o.Added? ==> Accepted(req) && Books.FindByBookId(old(catalog.books), LookupKey(req)).Some?
      ensures o.Added? ==>
        var book := old(catalog.books)[Books.FindByBookId(old(catalog.books), LookupKey(req)).value];
        o.record == NewRecord(req, book, old(nextId), old(clock)) &&
        records == old(records) + [o.record] && nextId == old(nextId) + 1 && clock == old(clock) + 1
      ensures !o.Added? ==> records == old(records) && nextId == old(nextId) && clock == old(clock)
    {
      var errors := Validate(req);
      if errors != map[] {
        return Invalid(errors);
      }
      var found := Books.FindByBookId(catalog.books, LookupKey(req));
      if found.None? {
        return BookNotFound;
      }
      var t := NewRecord(req, catalog.books[found.value], nextId, clock);
      Save(t);
      o := Added(t);
    }

    /** `save()` of a new record: it takes the next identity and the current time. */
    method Save(t: Transaction)
      requires Valid()
      requires WellFormed(t) && t.id == nextId && t.createdAt == clock && t.updatedAt == clock
      modifies this
      ensures Valid()
      ensures records == old(records) + [t] && nextId == old(nextId) + 1 && clock == old(clock) + 1
    {
      TableAppend(records, nextId, clock, t);
      records := records + [t];
      nextId := nextId + 1;
      clock := clock + 1;
    }

    /**
     * `PUT /:id`: a key that denotes no identity fails, an unknown
     * identity is 404, a merge that fails validation is 400 with its errors,
     * and otherwise the record is replaced by the merged one. Nothing else
     * in the ledger changes.
     */
    method Update(key: string, body: map<string, Js.Value>) returns (o: UpdateOutcome)
      requires Valid()
      modifies this
      ensures Valid()
      ensures nextId == old(nextId)
      ensures CastId(key).None? ==> o == UpdateFailed
      ensures CastId(key).Some? && IndexOfId(old(records), CastId(key).value).None? ==> o == UpdateNotFound
      ensures CastId(key).Some? && IndexOfId(old(records), CastId(key).value).Some? ==>
        var i := IndexOfId(old(records), CastId(key).value).value;
        match MergeUpdate(old(records)[i], Fields(body), old(clock))
        case Rejected(errors) => o == UpdateRejected(errors)
        case Merged(t) => o == Updated(t) && records == old(records)[i := t] && clock == old(clock) + 1
      ensures !o.Updated? ==> records == old(records) && clock == old(clock)
    {
      var id := CastId(key);
      if id.None? {
        return UpdateFailed;
      }
      var found := IndexOfId(records, id.value);
      if found.None? {
        return UpdateNotFound;
      }
      var i := found.value;
      match MergeUpdate(records[i], Fields(body), clock)
      case Rejected(errors) =>
        o := UpdateRejected(errors);
      case Merged(t) =>
        Replace(i, t);
        o := Updated(t);
    }

    /** `save()` of a merged record: it replaces the stored one and the clock moves on. */
    method Replace(i: nat, t: Transaction)
      requires Valid() && i < |records|
      requires WellFormed(t) && t.id == records[i].id && t.createdAt == records[i].createdAt
      requires t.createdAt <= t.updatedAt <= clock
      modifies this
      ensures Valid()
      ensures records == old(records)[i := t] && nextId == old(nextId) && clock == old(clock) + 1
    {
      TableReplace(records, nextId, clock, i, t);
      records, clock := records[i := t], clock + 1;
    }
  }
}
