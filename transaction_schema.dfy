/**
 * The transaction record of the ledger and its schema: five required
 * strings, a required type from {Issued, Reserved}, a status from
 * {Active, Completed} that defaults to Active, an optional return date that
 * defaults to null, and the store's creation and update timestamps.
 *
 * A document under construction or being edited is a `Draft`: for every
 * schema path, the cast value it currently holds. `Errors` is the schema's
 * validation of a draft, and `FromDraft` turns a draft that passes into a
 * record.
 */
module TransactionSchema {
  import opened Wrappers
  import opened Seqs
  import Js
  import opened Store

  datatype TxType = Issued | Reserved
  datatype TxStatus = Active | Completed

  function TypeName(t: TxType): string {
    match t
    case Issued => "Issued"
    case Reserved => "Reserved"
  }

  function StatusName(s: TxStatus): string {
    match s
    case Active => "Active"
    case Completed => "Completed"
  }

  /** The `transactionType` enumeration. */
  function ParseType(s: string): (r: Option<TxType>)
    ensures r.Some? <==> s == "Issued" || s == "Reserved"
    ensures r.Some? ==> TypeName(r.value) == s
  {
    if s == "Issued" then Some(Issued) else if s == "Reserved" then Some(Reserved) else None
  }

  /** The `transactionStatus` enumeration. */
  function ParseStatus(s: string): (r: Option<TxStatus>)
    ensures r.Some? <==> s == "Active" || s == "Completed"
    ensures r.Some? ==> StatusName(r.value) == s
  {
    if s == "Active" then Some(Active) else if s == "Completed" then Some(Completed) else None
  }

  /** A stored transaction; `None` is a null status or return date. */
  datatype Transaction = Transaction(
    id: ObjectId,
    bookId: string,
    bookName: string,
    borrowerName: string,
    transactionType: TxType,
    transactionStatus: Option<TxStatus>,
    fromDate: string,
    toDate: string,
    returnDate: Option<string>,
    createdAt: nat,
    updatedAt: nat)

  /** What the schema guarantees of every stored record: its required strings are not empty. */
  predicate WellFormed(t: Transaction) {
    t.bookId != "" && t.bookName != "" && t.borrowerName != "" && t.fromDate != "" && t.toDate != ""
  }

  /** The schema's paths. */
  datatype Field = BookId | BookName | BorrowerName | TransactionType | TransactionStatus | FromDate | ToDate | ReturnDate

  const AllFields: set<Field> := {BookId, BookName, BorrowerName, TransactionType, TransactionStatus, FromDate, ToDate, ReturnDate}
  const RequiredFields: set<Field> := {BookId, BookName, BorrowerName, TransactionType, FromDate, ToDate}

  /** The key of a path in a JSON body. */
  function Name(f: Field): string {
    match f
    case BookId => "bookId"
    case BookName => "bookName"
    case BorrowerName => "borrowerName"
    case TransactionType => "transactionType"
    case TransactionStatus => "transactionStatus"
    case FromDate => "fromDate"
    case ToDate => "toDate"
    case ReturnDate => "returnDate"
  }

  /** For every path, the cast value it holds. */
  type Draft = map<Field, Cast<string>>

  predicate Complete(d: Draft) {
    d.Keys == AllFields
  }

  function OptionalVal(o: Option<string>): Cast<string> {
    match o
    case None => Unset
    case Some(s) => Val(s)
  }

  /** The paths of a stored record. */
  function ToDraft(t: Transaction): (d: Draft)
    ensures Complete(d)
  {
    map[BookId := Val(t.bookId), BookName := Val(t.bookName), BorrowerName := Val(t.borrowerName),
        TransactionType := Val(TypeName(t.transactionType)),
        TransactionStatus := if t.transactionStatus.Some? then Val(StatusName(t.transactionStatus.value)) else Unset,
        FromDate := Val(t.fromDate), ToDate := Val(t.toDate), ReturnDate := OptionalVal(t.returnDate)]
  }

  /** The validator errors a path can report. */
  datatype Violation = CastError | Required | NotInEnum

  /**
   * The schema's validation of one path: a failed cast is reported as such;
   * a required String rejects an empty path and the empty string; an enum
   * accepts an empty path (when not required) or one of its values.
   */
  function Check(f: Field, c: Cast<string>): (r: Option<Violation>)
    ensures c.CastFailed? ==> r == Some(CastError)
    ensures f in RequiredFields && (c.Unset? || c == Val("")) ==> r == Some(Required)
    ensures f in RequiredFields - {TransactionType} ==> (r.None? <==> c.Val? && c.v != "")
    ensures f == TransactionType ==> (r.None? <==> c.Val? && ParseType(c.v).Some?)
    ensures f == TransactionType && c.Val? && c.v != "" && ParseType(c.v).None? ==> r == Some(NotInEnum)
    ensures f == TransactionStatus ==> (r.None? <==> c.Unset? || (c.Val? && ParseStatus(c.v).Some?))
    ensures f == TransactionStatus && c.Val? && ParseStatus(c.v).None? ==> r == Some(NotInEnum)
    ensures f == ReturnDate ==> (r.None? <==> !c.CastFailed?)
  {
    match c
    case CastFailed => Some(CastError)
    case Unset => if f in RequiredFields then Some(Required) else None
    case Val(s) =>
      if f in RequiredFields && s == "" then Some(Required)
      else if f == TransactionType && ParseType(s).None? then Some(NotInEnum)
      else if f == TransactionStatus && ParseStatus(s).None? then Some(NotInEnum)
      else None
  }

  /** Two records holding the same value on a path agree on that field. */
  lemma SamePath(a: Transaction, b: Transaction, f: Field)
    requires ToDraft(a)[f] == ToDraft(b)[f]
    ensures f == BookId ==> a.bookId == b.bookId
    ensures f == BookName ==> a.bookName == b.bookName
    ensures f == BorrowerName ==> a.borrowerName == b.borrowerName
    ensures f == TransactionType ==> a.transactionType == b.transactionType
    ensures f == TransactionStatus ==> a.transactionStatus == b.transactionStatus
    ensures f == FromDate ==> a.fromDate == b.fromDate
    ensures f == ToDate ==> a.toDate == b.toDate
    ensures f == ReturnDate ==> a.returnDate == b.returnDate
  {
    if f == TransactionStatus && a.transactionStatus.Some? {
      assert StatusName(a.transactionStatus.value) == StatusName(b.transactionStatus.value);
    }
  }

  /** Validation of a whole draft: every path that fails, with its error. */
  function Errors(d: Draft): map<Field, Violation> {
    map f | f in d && Check(f, d[f]).Some? :: Check(f, d[f]).value
  }

  /** A record holding a draft that passed validation. */
  function FromDraft(d: Draft, id: ObjectId, createdAt: nat, updatedAt: nat): (t: Transaction)
    requires Complete(d) && Errors(d) == map[]
    ensures WellFormed(t) && ToDraft(t) == d
    ensures t.id == id && t.createdAt == createdAt && t.updatedAt == updatedAt
  {
    PassingPath(d, BookId);
    PassingPath(d, BookName);
    PassingPath(d, BorrowerName);
    PassingPath(d, TransactionType);
    PassingPath(d, TransactionStatus);
    PassingPath(d, FromDate);
    PassingPath(d, ToDate);
    PassingPath(d, ReturnDate);
    var t := Transaction(
      id, d[BookId].v, d[BookName].v, d[BorrowerName].v,
      ParseType(d[TransactionType].v).value,
      if d[TransactionStatus].Val? then Some(ParseStatus(d[TransactionStatus].v).value) else None,
      d[FromDate].v, d[ToDate].v,
      if d[ReturnDate].Val? then Some(d[ReturnDate].v) else None,
      createdAt, updatedAt);
    assert ToDraft(t)[TransactionStatus] == d[TransactionStatus];
    assert ToDraft(t)[ReturnDate] == d[ReturnDate];
    assert ToDraft(t)[TransactionType] == d[TransactionType];
    assert ToDraft(t) == d by {
      assert ToDraft(t).Keys == d.Keys;
    }
    t
  }

  lemma PassingPath(d: Draft, f: Field)
    requires Complete(d) && Errors(d) == map[]
    ensures f in d && Check(f, d[f]).None?
  {
    assert f in AllFields;
    assert f !in Errors(d);
  }

  /** Two records with the same paths, identity and timestamps are the same record. */
  lemma ToDraftInjective(a: Transaction, b: Transaction)
    requires ToDraft(a) == ToDraft(b)
    requires a.id == b.id && a.createdAt == b.createdAt && a.updatedAt == b.updatedAt
    ensures a == b
  {
    assert ToDraft(a)[TransactionType] == ToDraft(b)[TransactionType];
    assert ToDraft(a)[TransactionStatus] == ToDraft(b)[TransactionStatus];
    assert ToDraft(a)[ReturnDate] == ToDraft(b)[ReturnDate];
    assert ToDraft(a)[BookId] == ToDraft(b)[BookId];
    assert ToDraft(a)[BookName] == ToDraft(b)[BookName];
    assert ToDraft(a)[BorrowerName] == ToDraft(b)[BorrowerName];
    assert ToDraft(a)[FromDate] == ToDraft(b)[FromDate];
    assert ToDraft(a)[ToDate] == ToDraft(b)[ToDate];
    if a.transactionStatus.Some? {
      assert StatusName(a.transactionStatus.value) == StatusName(b.transactionStatus.value);
    }
  }

  /** A stored record passes its own schema exactly when it is well formed. */
  lemma RecordValidation(t: Transaction)
    ensures Errors(ToDraft(t)) == map[] <==> WellFormed(t)
  {
    var d := ToDraft(t);
    if WellFormed(t) {
      forall f | f in d ensures Check(f, d[f]).None? {
        if f == TransactionStatus && t.transactionStatus.Some? {
          assert ParseStatus(StatusName(t.transactionStatus.value)).Some?;
        }
        if f == TransactionType {
          assert ParseType(TypeName(t.transactionType)).Some?;
        }
      }
      assert Errors(d) == map[];
    } else {
      var f :| f in RequiredFields - {TransactionType} && d[f] == Val("");
      assert f in Errors(d);
    }
  }

  /** Reading a well-formed record back from its own paths gives the record. */
  lemma DraftRoundTrip(t: Transaction)
    requires WellFormed(t)
    ensures Errors(ToDraft(t)) == map[]
    ensures FromDraft(ToDraft(t), t.id, t.createdAt, t.updatedAt) == t
  {
    RecordValidation(t);
    ToDraftInjective(FromDraft(ToDraft(t), t.id, t.createdAt, t.updatedAt), t);
  }

  /** The value a path of a new document takes when the constructor is not given one. */
  function Default(f: Field): Cast<string> {
    if f == TransactionStatus then Val("Active") else Unset
  }

  /**
   * `new Transaction(init)`, for the schema paths `init` names: every path
   * given a defined value holds that value cast to a string; every other
   * path holds its default.
   */
  function Construct(init: map<Field, Js.Value>): (d: Draft)
    ensures Complete(d)
    ensures forall f :: f in AllFields && f in init && !init[f].Undefined? ==> d[f] == CastString(init[f])
    ensures forall f :: f in AllFields && (f !in init || init[f].Undefined?) ==> d[f] == Default(f)
  {
    map f | f in AllFields :: if f in init && !init[f].Undefined? then CastString(init[f]) else Default(f)
  }

  /** A new document's status defaults to Active, its return date to null, and a missing required path fails. */
  lemma ConstructDefaults(init: map<Field, Js.Value>)
    ensures TransactionStatus !in init ==> Construct(init)[TransactionStatus] == Val("Active")
    ensures TransactionStatus !in init ==> Check(TransactionStatus, Construct(init)[TransactionStatus]).None?
    ensures ReturnDate !in init ==> Construct(init)[ReturnDate] == Unset
    ensures forall f :: f in RequiredFields && f !in init ==> Check(f, Construct(init)[f]) == Some(Required)
  {
  }

  /** The schema paths a request body names, by their JSON keys; other keys are ignored. */
  function Fields(body: map<string, Js.Value>): (r: map<Field, Js.Value>)
    ensures forall f :: f in r <==> Name(f) in body
    ensures forall f :: f in r ==> r[f] == body[Name(f)]
  {
    map f | f in AllFields && Name(f) in body :: body[Name(f)]
  }

  /** The first record with internal identity `id` (`findById`). */
  function IndexOfId(records: seq<Transaction>, id: ObjectId): (r: Option<nat>)
    ensures r.None? <==> forall i :: 0 <= i < |records| ==> records[i].id != id
    ensures r.Some? ==> r.value < |records| && records[r.value].id == id
    ensures r.Some? ==> forall j :: 0 <= j < r.value ==> records[j].id != id
  {
    FindFirst(records, (t: Transaction) => t.id == id)
  }
}
