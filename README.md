# Library management service — a Dafny model

This project models the core rules of a small library-management web service. The service is a
FastAPI application over an SQLAlchemy database with Celery background tasks. Users sign up, log
in and reset their password. They keep books and libraries, assign books to libraries, and export
their data as spreadsheets. Administrators bulk-import books, libraries and users from
spreadsheets and export the whole database.

The database is an abstract `Store` (module `Models`):

- Three tables held as sequences in id order: users, books and libraries.
- The book–library assignment table as a set of `(book_id, library_id)` pairs.
- The next id of each table.

The unique columns are checked when a transaction commits. These are a user's email and username
and a book's non-null ISBN. A commit that would break one of them changes nothing and answers
"500 Internal Server Error", as the service does when an `IntegrityError` escapes a handler.
`Valid` collects these constraints and the id and link invariants, and every state-changing
operation is proved to keep it.

Each request handler is written twice:

- a pure function `...Spec` from the old store to the new store and the answer (a value, or an
  `Error`: 400, 401, 403, 404 or 500), about which the lemmas are proved;
- an imperative `method` on the `Db.Session` class, which holds the store and commits through
  `Add` and `Save`, proved to do exactly what its `...Spec` function says.

Modules:

| module | file | models |
|---|---|---|
| `Common` | common.dfy | Python string helpers, integer parsing and printing, counting and filtering |
| `Models` | models.dfy | the tables, the uniqueness constraints, the queries, inserts with commit-time checks |
| `Db` | session.dfy | the database session and the task broker as mutable objects |
| `Auth` | auth.dfy | the current-user and active-user dependencies |
| `Users` | users.dfy | sign-up, login, profile update, forgotten and reset password |
| `Books` | books.dfy | the owner-guarded book operations and library assignment |
| `Libraries` | libraries.dfy | library creation, paging, owner-checked update and delete |
| `Tasks` | tasks.dfy | the Celery tasks that read or change the database |
| `SpreadsheetImport` | spreadsheet_import.dfy | the admin spreadsheet import of books, libraries and users |
| `Export` | export.dfy | the admin and personal spreadsheet exports |
| `CeleryConfig` | celery.dfy | worker limits, queue routing and the beat schedule |

JWT decoding and encoding, bcrypt hashing and verification, reset-token creation, the spreadsheet
readers and timestamp formatting are opaque here. They are function parameters, or inputs that
arrive already decoded. Time is a number of seconds passed in as `now`.

## Model

| member | source | states |
|---|---|---|
| `Models.UserWithEmail` | app/routers/users.py:43-45 | the email lookup finds a user with that email, and finds none exactly when no user has it |
| `Models.UserWithUsername` | app/routers/users.py:47-49 | the username lookup finds a user with that username, and finds none exactly when no user has it |
| `Models.UserWithId` | app/routers/export.py:482 | the id lookup finds the user with that id, and finds none exactly when no user has it |
| `Models.BookWithIsbn` | app/routers/books.py:32-40 | the ISBN lookup finds a book with that ISBN, and finds none exactly when no book has it |
| `Models.OwnedBook` | app/routers/books.py:95-104 | the book lookup by id and owner finds a book with both, and finds none exactly when no book has both |
| `Models.LibraryWithId` | app/routers/libraries.py:97-106 | the library lookup finds a library with that id, and finds none exactly when there is none |
| `Models.LibraryWithName` | app/routers/import_data.py:237-246 | the library lookup by name finds a library with that name, and finds none exactly when there is none |
| `Models.BooksIn` | app/models.py:59 | `library.books` holds exactly the stored books assigned to the library |
| `Models.LibrariesOf` | app/models.py:79 | `book.libraries` holds exactly the stored libraries the book is assigned to |
| `Models.BooksOwnedBy` | app/models.py:39 | `user.books` holds exactly the books whose owner is the user |
| `Models.LibrariesOwnedBy` | app/models.py:40 | `user.libraries` holds exactly the libraries whose owner is the user |
| `Models.CountDistinctUsers` | app/models.py:27 | since user ids are unique, counting user rows that satisfy a condition counts distinct users |
| `Models.UserIdsWhereSnoc` | app/models.py:27 | adding one user row adds its id to the ids satisfying a condition exactly when it satisfies it |
| `Models.LastIdIsNew` | app/models.py:27 | with ascending ids, the last user row's id belongs to no earlier row |
| `Models.Insert` | app/models.py:24-80 | an insert either adds the new row with the next id, or fails and leaves the store unchanged |
| `Models.InsertCommitsIff` | app/models.py:28-29 | in a valid store an insert commits exactly when it breaks no unique column: a library always, a book when its ISBN is null or unused, a user when email and username are both unused |
| `Models.InsertKeepsValid` | app/models.py:11-80 | inserting into a valid store leaves a valid store |
| `Models.AddedKeepsRows` | app/models.py:11-80 | adding a row keeps every existing book and library, so existing association rows still resolve |
| `Models.RemoveBookRow` | app/models.py:64-80 | removing one book row keeps ids ascending and ISBNs unique, and removes exactly the rows with its id |
| `Models.RemoveLibraryRow` | app/models.py:46-59 | removing one library row keeps ids ascending, and removes exactly the rows with its id |
| `Models.RemoveBookKeepsValid` | app/models.py:11-16 | deleting a book with its association rows keeps the store valid |
| `Models.RemoveLibraryKeepsValid` | app/models.py:11-16 | deleting a library with its association rows keeps the store valid |
| `Models.RemoveAt` | app/routers/books.py:174-175 | deleting a row keeps the other rows in order |
| `Models.UnlinkBook` | app/models.py:14 | deleting a book removes exactly its assignment rows (`ondelete='CASCADE'`) |
| `Models.UnlinkLibrary` | app/models.py:15 | deleting a library removes exactly its assignment rows (`ondelete='CASCADE'`) |
| `Db.Session.Add` | app/routers/users.py:52-63 | `db.add` then `db.commit`: the session's new store and the new id are those of `Insert` |
| `Db.Session.Save` | app/routers/books.py:145 | a commit replaces the session's store |
| `Db.Broker.Delay` | app/routers/users.py:66-67 | `.delay(...)` appends exactly one call to the pending tasks |
| `Auth.CurrentUser` | app/auth.py:12-47 | the current user exists exactly when the token decodes, carries a subject, and the subject is a stored email; otherwise 401 "Could not validate credentials" |
| `Auth.CurrentUserIsSubject` | app/auth.py:40-47 | in a valid store the current user is the user whose email the token names |
| `Auth.ActiveUser` | app/auth.py:49-62 | an active user passes unchanged; an inactive one gets 400 "Inactive user"; an earlier error is passed on |
| `Users.Signup` | app/routers/users.py:35-69 | the session and the broker end exactly as the sign-up specification says |
| `Users.SignupDuplicateEmailFirst` | app/routers/users.py:43-45 | a registered email gives "Email already registered" even when the username is also taken, and changes nothing |
| `Users.SignupDuplicateUsername` | app/routers/users.py:47-49 | with a free email, a taken username gives "Username already taken" and changes nothing |
| `Users.SignupCreates` | app/routers/users.py:52-69 | with email and username free, sign-up appends one active, unverified user that stores the password's hash and no token, changes no other table, enqueues exactly one welcome email, and keeps the store valid |
| `Users.Login` | app/routers/users.py:76-106 | login succeeds exactly when the email is registered and the password verifies against its hash; the token encodes the email; every failure is the same 401 |
| `Users.LoginHidesUnknownEmail` | app/routers/users.py:83-93 | an unknown email gives the same answer as a known email with a wrong password |
| `Users.UsernameTakenByOther` | app/routers/users.py:147-153 | a username counts as taken exactly when a different user holds it |
| `Users.EmailTakenByOther` | app/routers/users.py:157-165 | an email counts as taken exactly when a different user holds it |
| `Users.UpdateMyProfile` | app/routers/users.py:131-172 | the session ends exactly as the profile-update specification says |
| `Users.UpdateProfileChangesOnlyGiven` | app/routers/users.py:143-169 | a successful update is the old row with only the fields passed non-None replaced; the id, password hash, status and token are unchanged; the store stays valid |
| `Users.UpdateProfileOwnValuesAccepted` | app/routers/users.py:147-165 | re-submitting one's own username and email is accepted |
| `Users.UpdateProfileTakenRefused` | app/routers/users.py:147-165 | a username or email held by another user is refused and nothing changes |
| `Users.ForgotPassword` | app/routers/users.py:180-203 | the session and the broker end exactly as the forgotten-password specification says |
| `Users.ForgotPasswordStoresToken` | app/routers/users.py:192-203 | for a known email the user's token and expiry (now + 3600 s) are stored, nothing else changes, one reset email is enqueued and the store stays valid |
| `Users.ForgotPasswordUnknownEmail` | app/routers/users.py:189-190 | an unknown email changes nothing, enqueues nothing and still answers the neutral message |
| `Users.ResetPassword` | app/routers/users.py:209-279 | the session ends exactly as the reset specification says |
| `Users.ResetPasswordRejectionOrder` | app/routers/users.py:235-267 | undecodable token, then wrong token type, then a stored token that differs (or no such user), then an expired token; success exactly when all pass; every rejection changes nothing |
| `Users.ResetPasswordConsumesToken` | app/routers/users.py:270-277 | a successful reset stores the new hash, clears both token fields, changes no other user, keeps the store valid, and the same token is refused afterwards |
| `Users.ForgotThenReset` | app/routers/users.py:192-277 | a token issued by the forgotten-password flow resets the password within the hour |
| `Books.CreateBook` | app/routers/books.py:20-56 | the session ends exactly as the create-book specification says |
| `Books.CreateBookDuplicateIsbn` | app/routers/books.py:32-40 | a non-empty ISBN already stored gives 400 "Book with this ISBN already exists" and creates nothing |
| `Books.CreateBookOwnedByCaller` | app/routers/books.py:42-56 | past the ISBN check, the new book holds the request's fields, is owned by the caller and is appended; the only failure is a second empty-string ISBN, a 500 that changes nothing |
| `Books.MyBooks` | app/routers/books.py:63-77 | the list holds exactly the stored books owned by the caller, as many entries as there are such books, each with exactly the libraries it is assigned to |
| `Books.MyBooksInIdOrder` | app/routers/books.py:73-77 | with ids ascending in the table, the caller's books come in ascending id order, so none is listed twice |
| `Books.FilterAscending` | app/routers/books.py:73-75 | a filter over a table with ascending ids keeps them ascending |
| `Books.GetBook` | app/routers/books.py:84-106 | a book is returned exactly when one with that id is owned by the caller, together with exactly its libraries; otherwise 404 |
| `Books.UpdateBook` | app/routers/books.py:113-148 | the session ends exactly as the update-book specification says |
| `Books.UpdateBookChangesOnlyGiven` | app/routers/books.py:125-148 | a successful update replaces only the fields given non-None and keeps id, owner and creation time; a failure changes nothing; the store stays valid |
| `Books.UpdateBookIsbnCollision` | app/routers/books.py:134-145 | updating to another book's ISBN is a 500 at commit and changes nothing |
| `Books.DeleteBook` | app/routers/books.py:155-177 | the session ends exactly as the delete-book specification says |
| `Books.DeleteBookRemovesOnlyIt` | app/routers/books.py:166-177 | a deletion removes exactly that book and its assignments and nothing else; the store stays valid |
| `Books.MissingLibrary` | app/routers/books.py:209-218 | the first library id in the request that names no library, or none exactly when every id names one |
| `Books.TargetsExactly` | app/routers/books.py:205-218 | the new assignment pairs are exactly the book with each requested library id |
| `Books.AssignBookToLibraries` | app/routers/books.py:184-225 | the session ends exactly as the assignment specification says |
| `Books.GatherLinks` | app/routers/books.py:205-221 | the loop stops at the first unknown library id, which is the one reported; otherwise the book's rows are replaced by one per requested id |
| `Books.AssignReplacesLibraries` | app/routers/books.py:205-225 | a successful assignment replaces the book's libraries by exactly the requested ones, leaves other books' assignments and all tables alone, and keeps the store valid |
| `Books.AssignUnknownLibraryChangesNothing` | app/routers/books.py:209-218 | one unknown library id refuses the whole request and changes nothing |
| `Books.RemoveBookFromLibrary` | app/routers/books.py:232-266 | the session ends exactly as the removal specification says |
| `Books.RemoveFromLibraryOrder` | app/routers/books.py:244-266 | book not found, then library not found, then success exactly when the pair is assigned; success removes only that pair; the store stays valid |
| `Books.NotOwnedIsNotFound` | app/routers/books.py:95-104 | for a book the caller does not own, get, update, delete, assign and remove all answer the same 404 as for a missing book and change nothing |
| `Libraries.CreateLibrary` | app/routers/libraries.py:20-42 | the session ends exactly as the create-library specification says |
| `Libraries.CreateLibraryAlwaysSucceeds` | app/routers/libraries.py:31-42 | creating a library always succeeds, appends a row with a fresh id owned by the caller, and keeps the store valid |
| `Libraries.PageIsWindow` | app/routers/libraries.py:50-62 | a page has at most `limit` rows, exactly `limit` when enough remain, none past the end, and is the window starting at `skip` |
| `Libraries.PagesConcatenate` | app/routers/libraries.py:50-62 | two consecutive pages make the page of their combined size |
| `Libraries.DefaultPage` | app/routers/libraries.py:50-62 | the default page is the first 100 libraries; negative skip and limit behave as 0 and no limit |
| `Libraries.MyLibraries` | app/routers/libraries.py:70-82 | the caller's libraries are exactly the stored libraries owned by the caller |
| `Libraries.GetLibrary` | app/routers/libraries.py:89-109 | a library is returned exactly when one has that id, together with exactly its books; otherwise 404 |
| `Libraries.UpdateLibrary` | app/routers/libraries.py:116-152 | the session ends exactly as the update-library specification says |
| `Libraries.DeleteLibrary` | app/routers/libraries.py:159-186 | the session ends exactly as the delete-library specification says |
| `Libraries.OnlyCreatorChanges` | app/routers/libraries.py:128-184 | update and delete answer 404 exactly for a missing id and 403 exactly when the caller is not the owner; errors change nothing |
| `Libraries.UpdateLibraryChangesOnlyGiven` | app/routers/libraries.py:139-152 | a successful update replaces only the fields given non-None and keeps id, owner and creation time; the store stays valid |
| `Libraries.DeleteLibraryKeepsBooks` | app/routers/libraries.py:170-186 | a deletion removes exactly that library and its assignments and keeps every book; the store stays valid |
| `Tasks.Recipients` | app/tasks.py:90 | the notified users are exactly the stored users whose id is listed |
| `Tasks.BulkNotificationCountsListedUsers` | app/tasks.py:81-97 | `sent_to` is the number of distinct listed ids that name a stored user |
| `Tasks.GenerateLibraryReport` | app/tasks.py:104-143 | the report fails with "Library not found" exactly when no library has the id; otherwise its total is the length of its book list |
| `Tasks.LibraryReportListsAssignedBooks` | app/tasks.py:125-137 | the report lists exactly the books assigned to the library |
| `Tasks.AssignedBookIsReported` | app/tasks.py:125-137 | after a book is assigned to a library, that library's report lists it |
| `Tasks.GenerateUserStatistics` | app/tasks.py:146-176 | the statistics fail with "User not found" exactly when no user has the id; otherwise they carry that user's username and creation time, and total_books and total_libraries count the books and libraries whose owner is the user |
| `Tasks.NewBookIsCounted` | app/tasks.py:160-170 | creating a book raises its owner's book count by one and leaves the library count alone |
| `Tasks.SendDailyReminders` | app/tasks.py:183-209 | the loop counts the users it reminds |
| `Tasks.RemindersCountActiveOwners` | app/tasks.py:193-206 | the reminders go to the distinct active users who own at least one book, and to none exactly when no active user owns a book |
| `Tasks.CleanupExpiredTokens` | app/tasks.py:248-282 | the session and the count end exactly as the cleanup specification says |
| `Tasks.CleanupClearsExactlyExpired` | app/tasks.py:261-276 | exactly the tokens past their expiry are cleared, both fields together; other users are unchanged; the count is the number of distinct cleaned users; other tables are unchanged; the store stays valid |
| `Tasks.CleanupKeepsValid` | app/tasks.py:261-276 | cleanup keeps ids, emails and usernames, clears the two token fields together, and keeps the store valid |
| `Tasks.CleanupIdempotent` | app/tasks.py:261-276 | a second cleanup at the same time changes nothing and counts zero |
| `Tasks.CleanedTokenCannotReset` | app/tasks.py:267-272 | a token removed by the cleanup can no longer reset the password |
| `Tasks.AddAllBooks` | app/tasks.py:369-385 | adding the accepted records appends one book per record, in order, with consecutive ids |
| `Tasks.ImportBooksBulk` | app/tasks.py:356-396 | the session ends exactly as the bulk-import specification says |
| `Tasks.BulkCountsEveryRecord` | app/tasks.py:366-394 | imported plus failed is the number of records, and failed counts the records that lack a required key |
| `Tasks.BulkBooksBelongToUser` | app/tasks.py:369-385 | the new books come one per accepted record, with that record's fields, the given owner and fresh ids; other tables are unchanged |
| `Tasks.BulkKeepsValid` | app/tasks.py:369-385 | a committed bulk import keeps the store valid |
| `Tasks.AddedBooksKeepValid` | app/tasks.py:379-385 | book rows added and committed together keep the store valid when the commit succeeds |
| `Tasks.TallyStep` | app/tasks.py:369-382 | one more record extends the tally: a record with "title" and "author" stages one row and counts as imported, any other counts as failed |
| `Tasks.BulkTally` | app/tasks.py:366-382 | the loop stages one row per record with "title" and "author", in order; imported and failed count those and the rest |
| `Tasks.BulkDuplicateIsbnAbortsAll` | app/tasks.py:385-396 | two accepted records with the same ISBN make the single commit fail, and nothing is imported |
| `SpreadsheetImport.AnyEndsWith` | app/routers/import_data.py:27-29 | true exactly when the name ends with one of the allowed extensions |
| `SpreadsheetImport.FileTypeIgnoresCase` | app/routers/import_data.py:27-29 | the file-type check gives the same answer for a name and its lower-case form |
| `SpreadsheetImport.UpperCaseExtensionPasses` | app/routers/import_data.py:27-29 | any file name ending in ".XLSX" passes the file-type check |
| `SpreadsheetImport.UpperCaseCsvReadAsExcel` | app/routers/import_data.py:81-87 | any name ending in ".CSV" passes the check but is given to the Excel reader; any name ending in ".csv" goes to the CSV reader |
| `SpreadsheetImport.OtherExtensionRefused` | app/routers/import_data.py:75-79 | "books.txt" fails the file-type check |
| `SpreadsheetImport.IntOf` | app/routers/import_data.py:133-137 | `int(cell)` of an integer cell is its value, and of an empty (NaN) cell raises |
| `SpreadsheetImport.Normalize` | app/routers/import_data.py:89 | each column name is lower-cased and stripped, position by position |
| `SpreadsheetImport.Lookup` | app/routers/import_data.py:111-137 | a cell is found exactly when its column is in the header |
| `SpreadsheetImport.OptionalText` | app/routers/import_data.py:131-135 | an optional text field has a value exactly when its column exists and the cell is not empty |
| `SpreadsheetImport.OptionalInt` | app/routers/import_data.py:135-137 | an absent optional integer is None; a present one is the cell's `int()` value |
| `SpreadsheetImport.MissingColumns` | app/routers/import_data.py:90-100 | the missing list holds exactly the required columns not in the header |
| `SpreadsheetImport.PaddedHeaderIsNormalized` | app/routers/import_data.py:89 | the header " Title " is read as "title" |
| `SpreadsheetImport.UpperCaseHeaderIsNormalized` | app/routers/import_data.py:89 | the header "AUTHOR" is read as "author" |
| `SpreadsheetImport.NormalizedHeaderCounts` | app/routers/import_data.py:89-100 | a column present in any case or padding is never reported missing |
| `SpreadsheetImport.MissingColumnsInOrder` | app/routers/import_data.py:329-330 | a user sheet with only "password" misses "username" and "email", in the order of the required list |
| `SpreadsheetImport.MissingColumnsMessage` | app/routers/import_data.py:332-336 | that sheet is refused with a 400 whose detail joins the missing columns with ", ": "Missing required columns: username, email" |
| `SpreadsheetImport.IntOfClaim` | app/routers/import_data.py:42-45 | `int()` of a numeric claim is that number, and of a None claim raises |
| `SpreadsheetImport.SubjectUser` | app/routers/import_data.py:46-52 | the user found for the `sub` claim is the first stored user whose email or username equals it; none is found exactly when no user has that email or username |
| `SpreadsheetImport.UserIdPrecedence` | app/routers/import_data.py:32-45 | the default owner is the user object's id; else `int()` of the `user_id` claim; else of the `id` claim |
| `SpreadsheetImport.UserIdFallback` | app/routers/import_data.py:46-59 | without `user_id` or `id` the default owner is the id of the user the `sub` claim names; with no such user it is the first user's id, or 1 when there are no users |
| `SpreadsheetImport.UserWithNameOrEmail` | app/routers/import_data.py:354-365 | a user is found exactly when the username or the email is already stored |
| `SpreadsheetImport.PlanRow` | app/routers/import_data.py:109-164 | a row rejected before any insert reports row number index + 2 |
| `SpreadsheetImport.Step` | app/routers/import_data.py:109-164 | every row reports row number index + 2, and only a successful row changes the store |
| `SpreadsheetImport.Fold` | app/routers/import_data.py:109 | the row loop reports one line per row |
| `SpreadsheetImport.FoldNumbersRows` | app/routers/import_data.py:109-164 | when every step numbers its row index + 2, the i-th reported line has row number i + 2 |
| `SpreadsheetImport.StepOfNumbersRows` | app/routers/import_data.py:109-164 | the import's step numbers every row index + 2 |
| `SpreadsheetImport.FoldAppend` | app/routers/import_data.py:109 | running the loop over one more row is one more step from the store the earlier rows left |
| `SpreadsheetImport.ImportRowsSpec` | app/routers/import_data.py:109-164 | one line per row, the i-th numbered i + 2 |
| `SpreadsheetImport.ImportRow` | app/routers/import_data.py:110-164 | one iteration changes the session and reports exactly as one step of the specification |
| `SpreadsheetImport.ImportRows` | app/routers/import_data.py:102-164 | the loop leaves the session as the specification does, and its three lists are exactly its successful, failed and skipped lines in row order |
| `SpreadsheetImport.ImportFromSpreadsheet` | app/routers/import_data.py:62-182 | the session and the answer are exactly those of the import specification |
| `SpreadsheetImport.ThreeWayCount` | app/routers/import_data.py:140-164 | every line is exactly one of successful, failed or skipped |
| `SpreadsheetImport.ResponseAccountsForEveryRow` | app/routers/import_data.py:166-175 | `total_rows` is the number of sheet rows and equals successful + failed + skipped; each list holds only its kind, with row numbers from 2 to total_rows + 1 |
| `SpreadsheetImport.RejectedFileChangesNothing` | app/routers/import_data.py:74-100 | a wrong extension gives 400 "Invalid file type"; missing columns give 400 listing them; no failed request changes the store |
| `SpreadsheetImport.MissingTitleOrAuthorFails` | app/routers/import_data.py:111-116 | a book row with an empty title or author fails with "Missing title or author" and inserts nothing |
| `SpreadsheetImport.FoldGrows` | app/routers/import_data.py:109-164 | rows only add: the store after the first i rows is contained in the store after all rows |
| `SpreadsheetImport.StepGrows` | app/routers/import_data.py:140-149 | one row only adds to the store |
| `SpreadsheetImport.ImportStepGrows` | app/routers/import_data.py:140-149 | every step of the import only adds to the store |
| `SpreadsheetImport.FoldLine` | app/routers/import_data.py:109-164 | the i-th line is the step of row i from the store the earlier rows left |
| `SpreadsheetImport.CommittedIsbn` | app/routers/import_data.py:131-149 | a successful book row appends a book whose ISBN is the row's ISBN text, stripped |
| `SpreadsheetImport.StoredIsbnSkips` | app/routers/import_data.py:119-129 | a book row whose ISBN text is already stored is skipped as "ISBN already exists" |
| `SpreadsheetImport.EarlierRowIsbnIsDuplicate` | app/routers/import_data.py:119-149 | a book committed by an earlier row of the same file makes a later row with that ISBN a skipped duplicate |
| `SpreadsheetImport.CommittedLibraryName` | app/routers/import_data.py:248-264 | a successful library row appends a library named by the row's stripped name |
| `SpreadsheetImport.StoredNameSkips` | app/routers/import_data.py:237-246 | a library row whose stripped name is already stored is skipped |
| `SpreadsheetImport.EarlierRowLibraryIsDuplicate` | app/routers/import_data.py:237-264 | a library committed by an earlier row of the same file makes a later row with that name a skipped duplicate |
| `SpreadsheetImport.TakenUserIsSkipped` | app/routers/import_data.py:350-365 | a user row whose username or email is already stored is skipped and changes nothing |
| `SpreadsheetImport.BookDefaults` | app/routers/import_data.py:131-149 | without optional columns a book row stores no ISBN, description or year and is owned by the default owner |
| `SpreadsheetImport.UserDefaults` | app/routers/import_data.py:367-388 | without optional columns a user row stores the password's hash, no full name, active and not verified |
| `SpreadsheetImport.PaddedIsbnIsConstraintViolation` | app/routers/import_data.py:119-156 | an ISBN cell " X", with X already stored, passes the duplicate check on the raw text, is stripped to X at insert, and fails at commit as "Database constraint violation" with nothing stored |
| `SpreadsheetImport.StepOutsideBooks` | app/routers/import_data.py:248-403 | a library or user row keeps the store valid and never fails as a constraint violation |
| `SpreadsheetImport.PlanOutsideBooksCommits` | app/routers/import_data.py:248-403 | a library or user row the loop decides to create always commits: libraries have no unique column and users are created only with a free username and email |
| `SpreadsheetImport.NoConstraintViolationOutsideBooks` | app/routers/import_data.py:227-403 | a library or user import keeps the store valid and reports no constraint violation |
| `SpreadsheetImport.StepKeepsValid` | app/routers/import_data.py:109-403 | any row of any kind keeps the store valid: a commit that would break a unique column changes nothing |
| `SpreadsheetImport.ImportRowsKeepValid` | app/routers/import_data.py:109-403 | the whole row loop of any import keeps the store valid |
| `SpreadsheetImport.ImportKeepsValid` | app/routers/import_data.py:62-424 | each import handler keeps the store valid, whatever the file holds |
| `SpreadsheetImport.KeyIndex` | app/routers/import_data.py:166-175 | the position of a key's first occurrence in the response dict, or none exactly when the key is absent |
| `SpreadsheetImport.DictOf` | app/routers/import_data.py:166-175 | a dict display keeps every key once |
| `SpreadsheetImport.LastValueWins` | app/routers/import_data.py:166-175 | in a dict display the last value given for a key is the one kept |
| `SpreadsheetImport.SkippedKeyHoldsList` | app/routers/import_data.py:171-174 | the response's repeated "skipped_duplicates" key holds the list of skipped rows, not their count |
| `Export.RequireAdmin` | app/routers/export.py:20-31 | only a missing user is refused, with 401 "Authentication required"; any user passes unchanged |
| `Export.FalsyFieldsPrintNA` | app/routers/export.py:59-63 | a missing value, the empty string and zero are written as "N/A"; other values are written unchanged |
| `Export.FlagsPrintAsWords` | app/routers/export.py:189-190 | flags are written "Yes"/"No" and account status "Active"/"Inactive", each one-to-one |
| `Export.Frame` | app/routers/export.py:47-65 | a frame has one row per record, each the record's values in order |
| `Export.AdminSheetsShape` | app/routers/export.py:45-193 | each admin export has one row per stored record, in table order, under the same header whether or not the table is empty |
| `Export.ReportStatisticsCount` | app/routers/export.py:275-281 | the totals are the table sizes; the active and verified counts are numbers of distinct users and never exceed the total |
| `Export.MetricValues` | app/routers/export.py:275-281 | a metric record is written as the row [name, value] |
| `Export.ActiveAndInactiveAreAll` | app/routers/export.py:279 | active and inactive users together are all users |
| `Export.FirstColumnIsSelection` | app/routers/export.py:351-370 | rows whose first cells are a selection's ids show exactly the selected records' ids |
| `Export.MyBooksHoldOnlyMine` | app/routers/export.py:351-370 | the personal book export shows exactly the caller's books, under a fixed header |
| `Export.MyLibrariesHoldOnlyMine` | app/routers/export.py:417-433 | the personal library export shows exactly the caller's libraries, under a fixed header |
| `Export.ProfileEmptyIffNoUser` | app/routers/export.py:503-519 | the profile sheet is empty exactly when the caller's id names no stored user, and otherwise is that user's row |
| `Export.SummaryCountsMine` | app/routers/export.py:512-515 | the summary counts equal the rows of the personal book and library sheets, zero exactly when the caller owns none |
| `Export.ExportAccess` | app/routers/export.py:20-31 | every export is 401 exactly without a user, and otherwise answers the endpoint's workbook |
| `Export.ExportSameWorkbook` | app/routers/export.py:38-528 | admin exports show every user the same workbook; personal exports depend only on the caller's id |
| `Export.SingleSheetNames` | app/routers/export.py:70-438 | the one sheet of each single-sheet export: "All Books", "All Libraries", "All Users", "My Books", "My Libraries" |
| `Export.ReportSheetNames` | app/routers/export.py:291-294 | the complete report's sheets are Statistics, Books, Libraries, Users, in that order |
| `Export.MyDataSheetNames` | app/routers/export.py:525-528 | a user's complete data has My Profile, Summary, My Books, My Libraries, in that order |
| `CeleryConfig.ConfLimits` | app/celery_app.py:21-31 | UTC, one prefetched task, a hard limit of 1800 seconds, and a child recycled after 1000 tasks |
| `CeleryConfig.FirstRoute` | app/celery_app.py:70-74 | the queue is one of the table's, or the default queue when no pattern matches |
| `CeleryConfig.RoutePatterns` | app/celery_app.py:70-74 | each glob pattern matches exactly the names with its prefix |
| `CeleryConfig.PrefixesDisjoint` | app/celery_app.py:70-74 | no task name matches two routes |
| `CeleryConfig.RouteByPrefix` | app/celery_app.py:70-74 | "emails", "reports" and "maintenance" receive exactly the names with their prefix; all other names go to the default queue |
| `CeleryConfig.UnroutedScheduledTasks` | app/tasks.py:285-316 | the backup and the health check run on the default queue |
| `CeleryConfig.UnroutedImport` | app/tasks.py:356-357 | the bulk import runs on the default queue |
| `CeleryConfig.Every` | app/celery_app.py:65 | `*/5` accepts exactly the minutes divisible by 5 |
| `CeleryConfig.DailyEntriesDue` | app/celery_app.py:39-60 | the reminders are due every day at 09:00 and the backup at 02:00, and at no other minute |
| `CeleryConfig.WeeklyAndMonthlyDue` | app/celery_app.py:45-54 | the statistics are due on Mondays at 08:00; the cleanup on the first of the month at 00:00 |
| `CeleryConfig.HealthCheckDue` | app/celery_app.py:63-66 | the health check is due at every minute divisible by 5 |
| `CeleryConfig.ScheduledTaskQueues` | app/celery_app.py:37-74 | the reminders run on "emails", the statistics on "reports", the cleanup on "maintenance", the backup and health check on the default queue |
| `CeleryConfig.ScheduledTasksExist` | app/celery_app.py:37-67 | every scheduled task is a task the tasks module registers |

## Left out

- Sending email, the SMTP settings and the message bodies (`send_welcome_email`,
  `send_password_reset_email`, `send_daily_reminders`'s per-user email) are external I/O. The model
  records each enqueued task call and counts the reminders.
- `generate_weekly_statistics`, `backup_database` and `system_health_check` read the clock, the file
  system or the database engine. Only their schedule and their queue are modelled.
- The Celery broker, the workers and the beat scheduler are not modelled, and neither is the
  `crontab` matcher beyond the fields this schedule uses. Celery ANDs day of month and day of week;
  no entry here restricts both.
- The spreadsheet readers (pandas `read_csv` / `read_excel`), the Excel writer, the column widths and
  formats, and the download file names (which contain the current time) are I/O. A sheet is a header
  plus rows of cells.
- Timestamp formatting (`strftime`) is an opaque parameter `Formats`. Every stored row has a
  creation time, so the "N/A" branch for a missing creation time never occurs.
- The `download_*_template` endpoints return fixed example sheets and are not modelled.
- An exception raised while an export is written (the 500 "Error exporting …") is not modelled,
  because the modelled projections cannot raise.
- `SpreadsheetImport.IntOf`: float cells and texts such as "1978.0" are not modelled. pandas reads
  a numeric column that has a gap as floats; cells here are integers, text, flags or empty.
- `SpreadsheetImport.IntOf`: Python's `int()` also accepts underscores between digits and Unicode
  digits; the model accepts optional sign, surrounding whitespace and ASCII digits only.
- `Common.Lower` and `Common.Strip` model ASCII lower-casing and ASCII whitespace only. Python's
  `str.lower` and `str.strip` are Unicode-aware.
- The error text for an unparsable integer uses the cell's text without Python's `repr` escaping.
- Two header columns that normalize to the same name are resolved to the first one. pandas would
  yield a Series there, which the source does not handle.
- `Tasks.AsYear`: in `import_books_bulk` a `published_year` value that is text but not an integer
  is stored as `None`. The source passes the raw value, and SQLite's INTEGER affinity keeps such
  text unchanged. Integer-looking text becomes its number in both.
- `Tasks.RowOf`: a record is a map from keys to null, text or an integer. Elements of `books_data`
  that are not dicts are not modelled; in the source they raise TypeError and are counted as
  failed (app/tasks.py:380-382). JSON booleans and floats as field values are not modelled either.
- `Models.Added`: ids come from a per-table counter that only grows. The tables declare
  `Integer, primary_key=True` without AUTOINCREMENT, so SQLite hands out max(id) + 1 and reuses the
  id of a deleted highest row: after creating books 1 and 2 and deleting book 2, the next book
  gets id 2 in SQLite and id 3 here.
- `Books.AssignSpec`: the requested library ids are taken as a set, so an id listed twice gives one
  assignment. In the source (app/routers/books.py:208-220) a duplicate id for a library the book is
  not yet in is appended twice to the relationship; whether that commits once or fails on the
  association table's primary key depends on session flushing, and the session setup is not part
  of this model.
- `SpreadsheetImport.SubjectUser`: a numeric `sub` claim is compared by its decimal text, as
  SQLAlchemy binds it against a text column.
- The admin check of the import router (`require_admin`, app/routers/import_data.py:20-24) has the
  same body as the export router's and is `Export.RequireAdmin`. The import model takes the
  authenticated principal that the dependency has already produced.
- Queries without `ORDER BY` are taken to return rows in id order, as SQLite does for these tables.
- The database engine, sessions left open on an exception, and concurrent requests are not
  modelled: one request runs at a time.
- The application wiring in `app/main.py` and the schemas in `app/schemas.py` are not part of this
  model beyond the request fields each handler reads.
