# Library management backend, modelled in Dafny

The system is the REST backend of a small library. It keeps three collections:

- **books:** the catalog;
- **transactions:** the ledger of borrowings and reservations;
- **users:** the members, students and staff.

Route handlers read a JSON request body, check it, query the document store, and answer with a status code and a JSON document. This project models the core of that backend:

- the catalog routes (`books.js`) and the book schema (`Book.js`);
- the ledger routes (`transactions.js`) and the transaction schema (`BookTransaction.js`);
- the account routes (`auth.js`);
- the borrower routes (`users.js`). These are an in-memory account list with its own register and login, the shallow-merge user update, and the move of a transaction from a user's active list to the previous one.

Each collection is a class whose fields the operations update in place:

- `Books.Catalog`;
- `Transactions.Ledger`;
- `Users.UserStore`;
- `Users.AccountList`, the module-level array of `users.js`.

Queries, views and schema validation are functions. Every route becomes one operation. Its contract says, for each status the handler can answer with, exactly when that status is produced and what the collection becomes.

The JavaScript and store semantics the handlers depend on are modelled explicitly, because the edge cases of the routes come from them:

- **`Js`:** truthiness, `===`, `trim`, `String(n)`, `parseInt` and `Number`.
- **`Store`:** casts to String and Number paths, and casts of route keys to identities.
- **`Seqs`:** first-match `find` and order-keeping `filter`.
- **Request values:** `Js.Value`, which is undefined, null, a boolean, an integer, a string, or an object/array.
- **Identities:** `Store.ObjectId`, a natural number. A route key or an array element casts to an identity when it is a decimal numeral. Several numerals denote one identity (`"7"`, `"07"`), as several spellings of a hexadecimal text denote one ObjectId. `toString()` gives one of them, `Store.IdText`, the one without leading zeros. Any other key fails its cast.

Modules:

| module | models |
|---|---|
| `Wrappers` | `Option` |
| `Seqs` | `find`, `filter` |
| `Js` | JavaScript values and conversions |
| `Store` | document identities and path casts |
| `BookSchema` | `Book.js` |
| `TransactionSchema` | `BookTransaction.js`, as drafts (path → cast value), validation, construction with defaults |
| `Books` | `books.js` |
| `Transactions` | `transactions.js` |
| `Users` | `users.js` |
| `Auth` | `auth.js`; also the model of the `GET /getuser/:id` and `GET /allmembers` routes, which `users.js` repeats verbatim |

## Model

| member | source | states |
|---|---|---|
| Seqs.FindFirst | users.js:40 | The index of the first element passing the test; none exactly when no element passes. |
| Seqs.Filter | users.js:122-124 | The result is no longer than the input, and every element kept passes the test. |
| Seqs.FilterCounts | users.js:122-124 | Filtering keeps each passing value as many times as it occurs, and drops every other value. |
| Seqs.FilterAppend | users.js:122-124 | Filtering a concatenation is the concatenation of the filtered parts, so order is kept. |
| Seqs.FilterKeepsPassing | users.js:122-124 | A sequence whose every element passes is returned unchanged. |
| Seqs.FilterDropsOne | users.js:122-124 | Removing one failing element that sits between passing ones leaves the others, in order. |
| Seqs.FilterFailing | users.js:122-124 | A single failing element filters to nothing. |
| Js.TrimStart | transactions.js:30 | The result is a suffix of the input. Everything dropped is white space, and the result does not start with white space. |
| Js.TrimEnd | transactions.js:30 | The result is a prefix of the input. Everything dropped is white space, and the result does not end with white space. |
| Js.Trim | transactions.js:30 | Empty exactly when the input is all white space; otherwise it starts and ends with characters that are not white space. |
| Js.TrimProperties | transactions.js:30 | Trimming both ends gives the empty string exactly for all-white-space input, and otherwise leaves non-space characters at both ends. |
| Js.TrimmedAway | transactions.js:30 | If trimming leaves nothing, every character was white space. |
| Js.TrimUntrimmed | transactions.js:56 | A string with no white space at either end is its own trim. |
| Js.DigitValue | books.js:110 | `0`-`9` are worth 0-9, and the letters of either case 10-35 in alphabetical order. Every other character is worth 36, a digit in no radix. |
| Js.DigitRun | books.js:110 | The longest prefix made of digits: every character before it is a digit, and the character after it is not. |
| Js.NatToDecimal | books.js:84 | The decimal text of a natural number is digits only, has no leading zero, and denotes the number. |
| Js.DigitRunOfDigits | books.js:110 | A run of digits followed by a non-digit is read up to that character. |
| Js.ParseIntReadsNumeral | books.js:110 | `parseInt` reads a decimal numeral and ignores whatever follows its last digit. |
| Js.ParseIntReadsNegative | books.js:110 | A minus sign before a text that starts with neither white space nor a sign negates what `parseInt` reads. |
| Js.ParseIntOfDecimalString | books.js:110 | `parseInt(String(n))` is `n`, for both a number and its text. |
| Js.DecimalStringInjective | books.js:84 | Different integers have different decimal texts. |
| Js.DecimalStringShape | books.js:84 | `String(n)` is an optional minus sign followed by the digits of the magnitude, with no white space, no plus sign and no leading zero. |
| Js.StringToNumberOfDecimalString | Book.js:10 | `Number(String(n))` is `n`. |
| Js.DecimalNumeralOfDigits | Book.js:10 | `Number` reads a run of decimal digits as the number it denotes. |
| Store.CastString | BookTransaction.js:4-37 | Casting to a String path: null and undefined leave the path empty, an object fails, and every other value becomes its `String(...)` text (a string stays itself). |
| Store.CastNumber | Book.js:10 | Casting to a Number path: null, undefined and "" leave the path empty, and a number stays itself. A string casts exactly when `Number` reads it, to that value; an object fails; a truthy value never leaves the path empty. |
| Store.CastId | books.js:84 | A key casts to an identity exactly when it is a decimal numeral. |
| Store.CastIdReadsNumber | books.js:84 | The identity a key denotes is the number `Number` reads from the key. |
| Store.NumberOfNumeral | books.js:84 | `Number` of a decimal numeral is the value of its digits. |
| Store.CastIdOfIdText | books.js:84 | The text of an identity casts back to that identity. |
| Store.LeadingZero | users.js:116 | A leading zero does not change the identity a key denotes. |
| Store.OtherSpelling | users.js:122-123 | Every identity has a second text that denotes it, different from its own `toString()` text. |
| Store.IdTextInjective | users.js:122-124 | Distinct identities have distinct texts. |
| TransactionSchema.ParseType | BookTransaction.js:16-20 | The type enumeration accepts exactly "Issued" and "Reserved", naming the same value back. |
| TransactionSchema.ParseStatus | BookTransaction.js:21-25 | The status enumeration accepts exactly "Active" and "Completed", naming the same value back. |
| TransactionSchema.ToDraft | BookTransaction.js:3-37 | A stored record holds a value, possibly empty, on every schema path. |
| TransactionSchema.Check | BookTransaction.js:3-37 | One path's validator. A failed cast is a cast error. An empty or "" required path is Required. A required string passes iff non-empty. The type passes iff it is one of its two names; the status passes iff empty or one of its two names; otherwise NotInEnum. The return date passes anything that cast. |
| TransactionSchema.SamePath | BookTransaction.js:3-37 | Two records holding the same value on a path agree on that field. |
| TransactionSchema.FromDraft | BookTransaction.js:3-40 | A draft that passes every validator becomes a well-formed record whose paths are exactly the draft, with the given identity and timestamps. |
| TransactionSchema.PassingPath | BookTransaction.js:3-37 | In a draft with no errors, every path passes its validator. |
| TransactionSchema.ToDraftInjective | BookTransaction.js:3-40 | Records with the same paths, identity and timestamps are equal. |
| TransactionSchema.RecordValidation | BookTransaction.js:3-37 | A stored record passes its own schema exactly when its five required strings are non-empty. |
| TransactionSchema.DraftRoundTrip | BookTransaction.js:3-40 | Reading a well-formed record back from its own paths gives the same record. |
| TransactionSchema.Construct | BookTransaction.js:21-37 | `new Transaction(init)`: a path given a defined value holds its string cast; any other path holds its default (Active for the status, empty otherwise). |
| TransactionSchema.ConstructDefaults | BookTransaction.js:21-37 | An unset status is Active and passes; an unset return date is empty; an unset required path fails with Required. |
| TransactionSchema.Fields | transactions.js:105 | A body's schema paths are those whose JSON key it holds, with the body's values; other keys are ignored. |
| TransactionSchema.IndexOfId | transactions.js:107 | `findById`: the first record with that identity, or none exactly when no record has it. |
| Books.FindByBookId | books.js:23 | `findOne({ bookId })`: the first book with that external id, or none exactly when no book has it. |
| Books.FindById | books.js:84 | The first book with that identity, or none exactly when no book has it. |
| Books.FindByIdOrBookId | books.js:103-105 | The first book whose identity the key denotes or whose external id is the key; none exactly when no book matches either way. |
| Books.Listing | books.js:8-15 | Every book, in catalog order, reduced to its identity, external id, name, author and copies. |
| Books.Borrowings | books.js:29-32 | Every Active record of the book appears among the borrowings shown. |
| Books.BorrowingsSelected | books.js:29-32 | Every borrowing shown comes from an Active record of that book, so nothing else is shown. |
| Books.BorrowingsAppend | books.js:29-32 | The borrowings of a concatenated ledger are those of its parts, in order. |
| Books.GetDetails | books.js:18-42 | 404 exactly when no book has the external id; otherwise that book's name, author and copies, and exactly its active borrowings. |
| Books.Categories | books.js:66 | `category ? [category] : []`: a falsy category gives no labels, any other non-object gives its text as the only label, and an object fails its cast. |
| Books.NewBook | books.js:61-68 | The new book is stored exactly when every cast passes the schema. It is then well formed and holds the request's texts, cast copies and categories, with no optional path set. |
| Books.NewBookIgnoresAvailableCount | books.js:52 | The available count in the request has no effect on the stored book. |
| Books.NewBookOfPlainRequest | books.js:61-68 | A request of non-empty strings and a number stores exactly those values. |
| Books.SetRequired | books.js:107-114 | A `$set` of a required String path: undefined leaves it as it is; null, objects and "" are rejected; anything else sets its text. |
| Books.EditOf | books.js:107-114 | The update fails exactly when name or author is rejected, `parseInt(copies)` gives NaN, or the category fails its cast. Otherwise it holds those casts. |
| Books.Edit | books.js:107-112 | Name and author take the values set, copies and categories are replaced, and the identity, external id and optional paths are kept. |
| Books.EditKeepsWellFormed | books.js:114 | An update that passes validation keeps the book well formed. |
| Books.EditStoresCopies | books.js:110 | Copies given as a number, or as that number's decimal text, are stored as that number. |
| Books.UpdateLookupAsWritten | books.js:104-105 | The lookup as written fails whenever the key denotes no identity, and otherwise finds what the intended lookup finds. |
| Books.UpdateLookupMissesBookId | books.js:104-105 | A book with external id "B1" is found by the intended lookup, but the lookup as written fails on it. |
| Books.TableRemove | books.js:84 | Removing one book keeps the table invariant, keeps every other book, and leaves no book with the removed identity. |
| Books.TableReplace | books.js:104-114 | Replacing a book by a well-formed one with the same identity and external id keeps the table invariant. |
| Books.Catalog.constructor | Book.js:3-12 | An empty catalog satisfies the invariant. |
| Books.Catalog.Add | books.js:50-76 | 400 iff a required value is falsy. 409 iff the external id is taken. Added iff it is free and the casts pass the schema; then the new book gets the next identity and is appended. A failed cast of the external id, or a free external id whose casts fail the schema, is a failure (500). In every case but Added the catalog is unchanged. |
| Books.Catalog.Update | books.js:98-132 | A failed cast or validation fails before the lookup. An unmatched key is 404. Otherwise only the first matching book is replaced by its edit. |
| Books.Catalog.Replace | books.js:114 | Saving an edited book replaces only that book and keeps the identity counter. |
| Books.Catalog.Delete | books.js:79-95 | A key that denotes no identity fails. An unknown identity is 404. Otherwise exactly that book is removed, every other book stays, and the ledger is untouched. |
| Transactions.AcceptedIffNoFailure | transactions.js:28-47 | A request is accepted exactly when none of the five checks fails. |
| Transactions.BlankIffFails | transactions.js:30-43 | The written test `!v \|\| typeof v !== 'string' \|\| v.trim() === ''` holds exactly when the value is not a non-blank string; the type test holds exactly when it is neither type name. |
| Transactions.Validate | transactions.js:28-53 | Every check runs. The result has an entry exactly for each failing path, holding that path's message, and it is empty exactly when the request is accepted. |
| Transactions.SnapshotDraft | transactions.js:62-70 | Constructing a record from the handler's initial values fills every path as intended. |
| Transactions.RequestedType | transactions.js:36 | An accepted type value is exactly the name of the type it denotes. |
| Transactions.NewRecord | transactions.js:62-75 | The new record passes its schema. It copies the book's external id and name, holds the trimmed borrower and dates and the requested type, is Active with no return date, and has the given identity and time. |
| Transactions.Assign | transactions.js:113 | `Object.assign` on the schema paths: each path named takes the body's value cast to a string, and every other path is kept. |
| Transactions.MergeUpdate | transactions.js:113-131 | A merge is rejected exactly when the merged paths fail validation, with exactly those errors, and only on paths the body names. A saved merge is well formed, keeps its identity and creation time, holds exactly the merged paths, and moves its update time only when something changed. |
| Transactions.RejectedOnlyPatched | transactions.js:113-114 | Paths the body leaves alone never fail validation. |
| Transactions.MergeRejectsUnknownType | transactions.js:122-130 | A body that sets the type outside its enumeration is rejected on that path with NotInEnum. |
| Transactions.MergeRejectsUnknownStatus | transactions.js:122-130 | A body that sets the status outside its enumeration is rejected on that path with NotInEnum. |
| Transactions.PatchPasses | transactions.js:113-114 | A body whose every schema path passes its validator is accepted. |
| Transactions.MergeKeepsUnpatched | transactions.js:113-114 | A saved merge keeps every field the body does not name. |
| Transactions.MergeCompletes | transactions.js:113-114 | Completing a record sets the status to Completed and records the return date; everything else is kept. |
| Transactions.MergeOwnValues | transactions.js:113-114 | A body carrying the record's own values leaves the record exactly as it was, update time included. |
| Transactions.OwnBody | transactions.js:113-114 | The body a client would send back for a record casts to the record's own paths. |
| Transactions.MergeOwnBody | transactions.js:113-131 | Sending back a record as the route answered it leaves the record exactly as it was. |
| Transactions.Insert | transactions.js:11 | Inserting into a newest-first sequence keeps the order and adds exactly that record. |
| Transactions.PrependKeepsOrder | transactions.js:11 | A record no older than the first, put in front of a newest-first sequence, keeps it newest first. |
| Transactions.NewestFirst | transactions.js:9-12 | The listing is sorted by creation time, newest first, and holds exactly the stored records. |
| Transactions.TableAppend | transactions.js:75 | Appending a well-formed record with the next identity at the current time keeps the ledger invariant. |
| Transactions.TableReplace | transactions.js:114 | Replacing a record by one with the same identity and creation time keeps the ledger invariant. |
| Transactions.Ledger.constructor | BookTransaction.js:38-40 | An empty ledger satisfies the invariant. |
| Transactions.Ledger.Add | transactions.js:20-81 | 400 with every failing path iff the request is not accepted. 404 iff no book has the trimmed external id. Otherwise exactly the new record is appended, with the next identity and time. The catalog is only read. |
| Transactions.Ledger.Save | transactions.js:75 | A new record is appended with the next identity and the current time. |
| Transactions.Ledger.Update | transactions.js:102-137 | A key that denotes no identity fails. An unknown identity is 404. A merge failing validation is 400 with its errors. Otherwise only that record is replaced by the merge. |
| Transactions.Ledger.Replace | transactions.js:114 | A saved merge replaces only its own record. |
| Users.FindByEmail | users.js:40 | The account whose email is `===` to the given value; none exactly when no account has it. |
| Users.Login | users.js:49-55 | Login succeeds exactly when some account matches both email and password under `===`, and it returns the first such account. |
| Users.LoginByEmail | users.js:40-51 | In a list built by register, the email alone decides the account: login succeeds exactly when the account with that email has that password. |
| Users.AccountList.constructor | users.js:9 | The empty list satisfies the invariant. |
| Users.AccountList.Register | users.js:35-47 | 400 iff a value is falsy. 409 iff an account has the email. Otherwise the account is appended at the end. Emails stay unique. |
| Users.IndexOfUser | users.js:92 | `findById`: the user with that identity, or none exactly when no user has it. |
| Users.CastIds | users.js:97-98 | An array casts to identities exactly when every element is a string that denotes one, and then element by element. |
| Users.Merge | users.js:97-98 | `Object.assign` and `save()`. The save fails exactly when `_id` names another identity, or a list key holds a non-array or an element that does not cast. Otherwise every scalar key of the body is overwritten and every other key is kept. The identity is kept. A list the body gives becomes its cast elements, and a list it does not give is kept. |
| Users.CastIdArray | users.js:97-100 | The array of an identity list's texts casts back to the list. |
| Users.MergeOwnFields | users.js:97-100 | Sending back the user as the route answered it changes nothing, its identity and lists included. |
| Users.EchoFields | users.js:97-100 | The scalar part of that body leaves the user's paths as they are. |
| Users.MergeClearsActive | users.js:97 | A body with an empty `activeTransactions` array clears the active list and nothing else. |
| Users.MergeRejectsBadElement | users.js:97-98 | A list element that denotes no identity fails the save. |
| Users.MoveEffect | users.js:122-127 | After a move the identity is no longer active, every other active identity occurs as often as before, and the previous list holds it once more. |
| Users.MoveKeepsOrder | users.js:122-124 | For any active list, the move by the identity's own text removes exactly its occurrences, however many, and keeps the other identities in order. |
| Users.FilterWithout | users.js:122-124 | The filter on the identity's text is the removal of that identity. |
| Users.MoveOfInactive | users.js:122-124 | Moving an identity that is not active leaves the active list as it was. |
| Users.MoveDropsOne | users.js:122-124 | Dropping the one occurrence of the identity between two parts leaves the two parts joined. |
| Users.MoveByOtherSpelling | users.js:122-127 | A key that denotes the identity without being its `toString()` text keeps every active identity, yet appends the identity to the previous list, so it ends up in both lists. |
| Users.MoveTwiceDuplicates | users.js:127 | Moving twice appends the identity twice: the previous list is not deduplicated. |
| Users.DirectoryReplace | users.js:129 | Replacing a user by one with the same identity keeps the store invariant. |
| Users.UserStore.constructor | users.js:92 | An empty store satisfies the invariant. |
| Users.UserStore.Insert | auth.js:76 | A new user is appended with the next identity. |
| Users.UserStore.Replace | users.js:98 | Saving a stored user replaces only that user. |
| Users.UserStore.Update | users.js:87-104 | A key that denotes no identity fails. An unknown identity is 404. A merge whose save fails changes nothing. Otherwise only that user is replaced by the merge. |
| Users.UserStore.MoveTransaction | users.js:107-134 | 403 unless `isAdmin` is truthy. Then: a bad user key fails; an unknown user is 404; a transaction key that denotes no identity fails. Otherwise only that user is replaced by the move. The move drops from the active list every identity whose `toString()` text is the key, and appends the identity the key denotes to the previous list. |
| Auth.IndexOfEmail | auth.js:51 | `findOne({ email })`: the first user whose email is `===` to the value; none exactly when no user has it. |
| Auth.Defined | auth.js:153 | A document's paths are those given a defined value, holding that value. |
| Auth.NewUser | auth.js:62-74 | A new user has the given identity and no transactions. |
| Auth.NewUserCredentials | auth.js:62-72 | A new user holds the stored hash text as its password, plus the given email, role, name and mobile number. |
| Auth.NewUserAddress | auth.js:73 | The address is the given one when truthy, and otherwise "". |
| Auth.NewUserRoleIds | auth.js:64-65 | The admission id is kept only for a Student and the employee id only for Staff. Every other role gets "" for both. |
| Auth.Register | auth.js:40-93 | 400 iff a demanded value is falsy. 409 iff a user has the email. A failure iff the password is not a string. Otherwise the new user, with the hashed password, is appended with the next identity. |
| Auth.ViewOf | auth.js:130-140 | The login view holds the identity and exactly the five shown paths that the user has. |
| Auth.ViewHidesPassword | auth.js:130-140 | The login view never carries the stored password. |
| Auth.Login | auth.js:96-145 | 400 iff the email or password is falsy. 401 iff no user has the email. A failure iff the password or the stored text is not a string. 401 iff the comparison says no. Otherwise the token signed for that user, with the user's view. |
| Auth.LoginAfterRegister | auth.js:40-145 | A user registered with a string password, and no earlier user with that email, logs in exactly when the comparison accepts the password against its hash; otherwise the answer is "Incorrect password". |
| Auth.ProfileSet | auth.js:153 | The update's `$set` names only the four profile paths. |
| Auth.ProfileOnlyFour | auth.js:148-163 | Only the four profile paths change: each defined one takes the body's value, null included; every undefined one and every other path is kept, and so are the transaction lists. |
| Auth.UpdateProfile | auth.js:148-163 | A key that denotes no identity fails. An unknown identity is 404. Otherwise only that user is replaced by the profile update. |
| Auth.Populate | auth.js:168-170 | `populate`: no more records than identities, each one from the ledger with one of the identities. |
| Auth.PopulateResolved | auth.js:168-170 | When every identity has a record, populating keeps them all, in order. |
| Auth.GetUser | auth.js:166-178 | A key that denotes no identity fails. An unknown identity is 404. Otherwise the user with that identity, with both lists joined with the ledger. |
| Auth.MemberView | auth.js:184 | A listed member never carries the password. |
| Auth.Members | auth.js:181-191 | No listed member carries a password. |
| Auth.MembersExactly | auth.js:183 | The listing shows exactly the members: every Student and every Staff user is in it, and everything in it is one of them. |

## Left out

- **Store failures.** A failing store connection or query, and the catch paths answering 500 for them, are not modelled. The error outcomes model only failures the request itself causes: a failed cast or a hashing refusal.
- **Concurrency.** Interleaved requests are not modelled. Each route runs atomically against the collection. A duplicate-key (11000) error on the book's external id (books.js:71-73) can then not arise, because the handler checks for it first.
- **Auth.Register:** the user schema's unique indexes are not modelled (see the user schema line below). The message at auth.js:86 suggests one on `userFullName`. If it exists, a new email with a taken name gets 409 from the source, and `Registered` from the model.
- **Numbers.** They are integers. `Number("5.0")` and `Number("5.")` are 5 in JavaScript, but the model's `Js.StringToNumber` fails on them, so a copies count written that way fails its cast in `Books.NewBook`. Fractions, NaN, infinities, `-0`, the exponent form of `String(n)` at 10^21 and beyond, and `Number`'s binary, octal and exponent numerals are not modelled. `parseInt` of a fraction is out of scope.
- **Request values.** An object or array in a request body is one value, `Obj`. Its contents, its `toString` and query-operator objects (NoSQL injection) are not modelled.
- **Store.CastId:** identity texts are decimal numerals, not 24-digit hexadecimal strings. The leading zeros of a numeral stand for the several spellings (letter case) of one hexadecimal text. Keys of 12 characters, which bson also accepts, are not modelled.
- **Users.Merge:** a number or object element of an array given for a list fails its cast, though bson reads a number as a timestamp. A list key holding anything but an array fails the save, where Mongoose would first wrap a single value in an array. An `_id` naming another identity is modelled as a failed save; how Mongoose queries or ignores a changed `_id` is not modelled.
- **Updates with undefined values.** `Books.SetRequired` and `Auth.ProfileSet` follow Mongoose 7 and later, which drops a `$set` key whose value is undefined, so the path keeps its value. Earlier versions send such a key as null. The dependency versions are not part of this model.
- **Timestamps.** They are a counter the ledger advances on each save. Two records cannot be created at the same time, so the order of ties in `GET /transactions` is not modelled.
- **Reserved keys in a transaction update.** A body naming `_id`, `createdAt`, `updatedAt` or a key outside the schema is reduced to its schema paths (transactions.js:113).
- **Transactions.Ledger.Update:** the 400 response carries the validators' violation kinds rather than Mongoose's message texts.
- **Transactions.Ledger.Add:** the catch path answering 400 on a schema validation error (transactions.js:84-93) is unreachable. An accepted request always builds a record that passes its schema (`Transactions.NewRecord`), so that path is not modelled separately.
- **The user schema.** `User.js` is not part of this model. User documents are their scalar paths in a map, so the user schema's casting, defaults (such as `isAdmin`), validators and unique indexes are not modelled.
- **Hashing, comparison and signing** are the parameters `hash`, `verify` and `sign`. The salt's randomness and the JWT format and secret (auth.js:58-59, 123-126) are not modelled.
- **Auth.Register:** a password that is not a string fails before saving. This models the hashing library refusing it, which is library code not visible here.
- **Uploads.** The multer upload configuration and routes (users.js:12-33, 137-189) are file I/O.
- **Test user.** `POST /create-test-user` (auth.js:9-37) is a development fixture outside the core.
- **Console logging** throughout the handlers is not modelled.
- **Context files.** server.js, admin.js, adminAuth.js, member.js, categories.js, BookCategory.js, createAdmin.js and createPermanentAdmin.js are not part of this model.
- **Duplicate read routes.** `GET /getuser/:id` and `GET /allmembers` in users.js:59-84 repeat auth.js:166-191 verbatim. They are modelled once, in `Auth`.
- **Auth.Populate:** `populate` resolves each identity separately. An identity with no record is dropped.
- **Users.Move:** the function carries no contract of its own. Its meaning is stated by `Users.MoveEffect`, `Users.MoveKeepsOrder`, `Users.MoveOfInactive`, `Users.MoveDropsOne`, `Users.MoveByOtherSpelling` and `Users.MoveTwiceDuplicates`.
- **Auth.ApplyProfile:** the function carries no contract of its own. Its meaning is stated by `Auth.ProfileOnlyFour`.

## Findings

| source | as written | input that shows it | evidently intended | confidence | as-written member | corrected member |
|---|---|---|---|---|---|---|
| books.js:104-105 | The filter `{ $or: [{ _id: bookId }, { bookId: bookId }] }` casts the route key to an identity for the first alternative. When the key denotes no identity, the cast fails and the whole update answers 500, without trying the external-id alternative. | `PUT /books/B1` with a valid body, where a book has external id "B1" | Find the book by identity or by external id, as the comment at books.js:103 says: the book with external id "B1" is updated | medium, not executed | Books.UpdateLookupAsWritten, Books.UpdateLookupMissesBookId | Books.FindByIdOrBookId, Books.Catalog.Update |
