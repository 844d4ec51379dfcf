# Book manager: a Dafny model

A Dafny model of the core of the Android app `bookmanagerapp`. The app keeps
a reading list in a local SQLite table `books(id, title, author, date_from,
date_to, is_read)`. The model covers three parts:

- the `Book` record;
- the store `BookDatabaseHelper`, which inserts, lists, finds, updates,
  deletes and searches books;
- the logic of the main screen: the add-form check, the search dispatch, the
  date text the date picker writes, the report text, and the checkbox and
  delete handlers.

Module layout:

- `wrappers.dfy` (`Wrappers`): `Option`.
- `book.dfy` (`Books`): the `Book` class, mutable like the Java object.
  - Java strings are references, so a text field is a `Text`: `Null` or
    `Str(chars)`.
  - `Render` is what Java string concatenation makes of a reference: null is
    written as `null`.
  - `Book.Value()` reads all six fields together; it stands for the six
    getters.
- `strings.dfy` (`Strings`): the library behaviour the app relies on.
  - `String.trim` removes margin characters whose code is at most U+0020.
  - `Integer.toString`, in its canonical form: a minus sign only for negative
    values and no leading zero.
  - `ParseInt`, a reader of decimal text used only in the contracts to state
    what a written number denotes. It takes an optional `-` and digits, accepts
    no `+` and does no range check. The app itself never parses a number.
  - Java `int` addition, which wraps around at 32 bits.
  - Splitting and joining at a separator character; the text properties are
    stated through these.
- `like.dfy` (`Like`): SQLite's built-in `LIKE`.
  - `%` matches any run of characters, `_` matches exactly one.
  - With `case_sensitive_like` off, case is ignored for ASCII letters only.
  - `Like.LikeInfix` shows that the search pattern `%q%` matches a text
    exactly when the text contains `q`, ignoring ASCII case, provided `q` has
    no wildcard of its own.
- `table.dfy` (`BookTable`): the table as a sequence of rows in rowid order.
  - The AUTOINCREMENT sequence value is a number `lastId`.
  - A `ContentValues` with an optional read flag. An absent flag takes the
    schema default 0 on insert and is kept on update.
  - The read flag is stored as 1 or 0 and read back as `== 1`.
  - A first-order `Condition` is the WHERE clause of each statement.
  - `Select`, `UpdateRows` and `DeleteRows` are what a query, an UPDATE and a
    DELETE do to the rows.
  - `WellFormed` is the table invariant: ids strictly increase along the
    table, lie in `1..lastId`, and every flag is 0 or 1.
- `search.dfy` (`SearchQuery`): the selection string and argument list that
  `searchBooksByTitleAndAuthor` builds.
  - `ParseWhere` reads the selection back into the columns it constrains.
  - Together these give what the search means for a row.
- `database.dfy` (`Database`): the class `BookDatabaseHelper`.
  - Its fields are `rows` and `lastId`; `Valid()` is `WellFormed`.
  - Every public method is one atomic statement on the table.
  - The cursor loops become the `for` loop of `Collect`, which builds
    a fresh `Book` per selected row, as the Java loops do.
- `activity.dfy` (`MainScreen`): the screen's handlers.
  - Each handler is a method on the store and the displayed `Book` object.
  - The pure parts are functions: `AddForm`, `SearchDispatch`, `DateText`,
    `ReportMessage`.

Reading choices:

- The three-argument constructor `Book(String, String, boolean)` has an empty
  body. It is modelled as written, as `Books.Book.Ignoring`: its arguments
  are dropped and every field keeps its Java default (0, null, false).
- The search inherits
  SQLite's default `LIKE`, which ignores case for ASCII letters only, and the
  model follows the code.
- `getAllBooks` runs `SELECT *` without `ORDER BY`. The model lists rows in
  rowid order, which is how SQLite walks such a table.

## Model

All source paths are under `app/src/main/java/com/example/bookmanagerapp/`.

| member | source | states |
|---|---|---|
| Books.Render | app/src/main/java/com/example/bookmanagerapp/Book.java:57-59 | concatenating a non-null Java string gives its characters, and a null one gives "null" |
| Books.Book.constructor | app/src/main/java/com/example/bookmanagerapp/Book.java:12-19 | the new object holds exactly the six arguments |
| Books.Book.Unsaved | app/src/main/java/com/example/bookmanagerapp/Book.java:21-23 | the five-argument constructor stores its arguments under the id -1 |
| Books.Book.Ignoring | app/src/main/java/com/example/bookmanagerapp/Book.java:25-26 | the three-argument constructor ignores its arguments: id 0, all texts null, unread |
| Books.Book.SetRead | app/src/main/java/com/example/bookmanagerapp/Book.java:52-54 | only the read flag changes, to the given value |
| Books.Book.ToString | app/src/main/java/com/example/bookmanagerapp/Book.java:57-59 | the text is the rendered title, then " - ", then the rendered author, with the matching length |
| Strings.Trim | app/src/main/java/com/example/bookmanagerapp/MainActivity.java:50-53 | the result is the infix of the input left after the blank margins; its ends are not blank; it is empty exactly when every character is blank |
| Strings.AddInt32 | app/src/main/java/com/example/bookmanagerapp/MainActivity.java:93 | `selectedMonth + 1` is the exact sum when it fits in 32 bits and is congruent to it modulo 2^32 otherwise |
| Strings.IntToString | app/src/main/java/com/example/bookmanagerapp/MainActivity.java:93 | an int is written in canonical form: a minus sign exactly when it is negative, then digits with no leading zero unless the int is 0 |
| Strings.IntToStringRoundTrip | app/src/main/java/com/example/bookmanagerapp/MainActivity.java:93 | parsing the written int gives the same int back |
| Strings.IntToStringHasNo | app/src/main/java/com/example/bookmanagerapp/MainActivity.java:93 | a written int contains no separator such as '/' |
| Strings.Split | app/src/main/java/com/example/bookmanagerapp/MainActivity.java:157-161 | a tool for stating the report and date properties (nothing is split in the app): splitting gives at least one part, and no part contains the separator |
| Strings.SplitJoin | app/src/main/java/com/example/bookmanagerapp/MainActivity.java:157-161 | a tool for `ReportMessageLines` and `DateTextFields` (nothing is split in the app): joining separator-free parts and splitting again gives the parts back |
| Like.Fold | app/src/main/java/com/example/bookmanagerapp/BookDatabaseHelper.java:153-161 | SQLite's LIKE folds A-Z to a-z and leaves every other character alone |
| Like.LikeLeadingPercent | app/src/main/java/com/example/bookmanagerapp/BookDatabaseHelper.java:154 | a pattern starting with % matches exactly when its rest matches some suffix of the text |
| Like.LikeLiteralPrefix | app/src/main/java/com/example/bookmanagerapp/BookDatabaseHelper.java:154 | a wildcard-free pattern prefix matches exactly the case-folded text prefix of the same length |
| Like.LikePercent | app/src/main/java/com/example/bookmanagerapp/BookDatabaseHelper.java:154 | % alone matches every text |
| Like.LikeInfix | app/src/main/java/com/example/bookmanagerapp/BookDatabaseHelper.java:152-163 | for a query without wildcards, `LIKE '%q%'` holds exactly when the text contains q, ignoring ASCII case (both directions) |
| BookTable.EncodeRead | app/src/main/java/com/example/bookmanagerapp/BookDatabaseHelper.java:58 | the flag is stored as 0 or 1, and reading it back with `== 1` (line 74) gives the flag |
| BookTable.DecodeValuesOf | app/src/main/java/com/example/bookmanagerapp/BookDatabaseHelper.java:51-62 | a book inserted or written over a row reads back with the same fields and flag, under the row's id |
| BookTable.InsertThenList | app/src/main/java/com/example/bookmanagerapp/BookDatabaseHelper.java:51-62 | listing after an insert gives the earlier listing followed by the inserted book under its new id |
| BookTable.UniqueIds | app/src/main/java/com/example/bookmanagerapp/BookDatabaseHelper.java:35 | in a well-formed table two rows with the same id are the same row |
| BookTable.InsertWellFormed | app/src/main/java/com/example/bookmanagerapp/BookDatabaseHelper.java:34-41 | inserting under the next sequence value keeps the invariant and puts the new id above every existing one |
| BookTable.DropLastWellFormed | app/src/main/java/com/example/bookmanagerapp/BookDatabaseHelper.java:35 | dropping the last row keeps the invariant; the last id is the largest |
| BookTable.AppendWellFormed | app/src/main/java/com/example/bookmanagerapp/BookDatabaseHelper.java:35 | appending a row above all ids, with an id in range and a bit flag, keeps the invariant |
| BookTable.SelectMembers | app/src/main/java/com/example/bookmanagerapp/BookDatabaseHelper.java:166 | a row is in a query's result exactly when it is in the table and satisfies the WHERE condition |
| BookTable.SelectPrefixStep | app/src/main/java/com/example/bookmanagerapp/BookDatabaseHelper.java:168-179 | advancing the cursor by one row adds that row's book exactly when the row matches |
| BookTable.SelectSnoc | app/src/main/java/com/example/bookmanagerapp/BookDatabaseHelper.java:166 | a query over one more row at the end adds that row exactly when it matches |
| BookTable.SelectAnyRow | app/src/main/java/com/example/bookmanagerapp/BookDatabaseHelper.java:86 | a query with no WHERE clause returns the whole table in order |
| BookTable.SelectedBelow | app/src/main/java/com/example/bookmanagerapp/BookDatabaseHelper.java:166 | a bound on every table id also bounds every selected id |
| BookTable.SelectWellFormed | app/src/main/java/com/example/bookmanagerapp/BookDatabaseHelper.java:140 | a selection keeps table order, so it is well formed too |
| BookTable.SelectAllHold | app/src/main/java/com/example/bookmanagerapp/BookDatabaseHelper.java:166 | when every row satisfies the condition, the query returns the table unchanged |
| BookTable.FirstMatch | app/src/main/java/com/example/bookmanagerapp/BookDatabaseHelper.java:66-67 | the index of the first matching row, if any, lies inside the table |
| BookTable.FirstMatchMeaning | app/src/main/java/com/example/bookmanagerapp/BookDatabaseHelper.java:66-67 | the found row matches and none before it does; nothing is found exactly when no row matches |
| BookTable.SelectStartsAtFirstMatch | app/src/main/java/com/example/bookmanagerapp/BookDatabaseHelper.java:66-67 | the cursor is empty exactly when nothing matches; otherwise its first row is the first matching row |
| BookTable.UpdateRows | app/src/main/java/com/example/bookmanagerapp/BookDatabaseHelper.java:134 | an UPDATE keeps the number of rows |
| BookTable.UpdateFrame | app/src/main/java/com/example/bookmanagerapp/BookDatabaseHelper.java:134 | only rows with the given id change; ids never change; a changed row takes the new title, author and both dates, and the new read flag when one is given (otherwise it keeps its flag) |
| BookTable.UpdateAbsentId | app/src/main/java/com/example/bookmanagerapp/BookDatabaseHelper.java:134 | with no row under the id, the update changes nothing |
| BookTable.UpdateWellFormed | app/src/main/java/com/example/bookmanagerapp/BookDatabaseHelper.java:125-136 | an update with a bit flag keeps the invariant |
| BookTable.UpdateReadFlagOnly | app/src/main/java/com/example/bookmanagerapp/MainActivity.java:131-135 | writing a listed book back with a new flag changes that row's flag and nothing else in the table |
| BookTable.DeleteRows | app/src/main/java/com/example/bookmanagerapp/BookDatabaseHelper.java:140 | after a DELETE the remaining rows are exactly the old rows with another id |
| BookTable.DeleteWellFormed | app/src/main/java/com/example/bookmanagerapp/BookDatabaseHelper.java:138-142 | a delete keeps the invariant and does nothing when no row has the id |
| BookTable.DeleteRemovesOne | app/src/main/java/com/example/bookmanagerapp/BookDatabaseHelper.java:138-142 | ids are unique, so deleting a present id removes exactly one row |
| BookTable.UnsavedIdAbsent | app/src/main/java/com/example/bookmanagerapp/Book.java:21-23 | the -1 id of an unsaved book is never in a well-formed table |
| BookTable.ReadBooks | app/src/main/java/com/example/bookmanagerapp/BookDatabaseHelper.java:107 | a book is kept exactly when it is in the list and marked read |
| BookTable.ReadRowsAreReadBooks | app/src/main/java/com/example/bookmanagerapp/BookDatabaseHelper.java:104-123 | the rows with `is_read=1` decode to exactly the read books of the full listing, in order |
| SearchQuery.BuildSelection | app/src/main/java/com/example/bookmanagerapp/BookDatabaseHelper.java:149-165 | the selection has one `LIKE ?` clause per non-empty query, title first, joined by " AND "; one placeholder per argument; each argument is the matching query between two %; two empty queries give no selection and no arguments |
| SearchQuery.PlaceholdersOfClause | app/src/main/java/com/example/bookmanagerapp/BookDatabaseHelper.java:153-161 | each `<column> LIKE ?` clause has exactly one placeholder |
| SearchQuery.PlaceholdersOfJoin | app/src/main/java/com/example/bookmanagerapp/BookDatabaseHelper.java:158-161 | a joined clause list has one placeholder per column |
| SearchQuery.PlaceholdersAppend | app/src/main/java/com/example/bookmanagerapp/BookDatabaseHelper.java:153-161 | placeholders of a concatenation add up |
| SearchQuery.ClauseAtPrefix | app/src/main/java/com/example/bookmanagerapp/BookDatabaseHelper.java:153-161 | a text starting with a column's clause is recognised as that column |
| SearchQuery.ParseJoin | app/src/main/java/com/example/bookmanagerapp/BookDatabaseHelper.java:149-166 | reading the built clause back gives exactly the columns it was built from |
| SearchQuery.SearchConditionMeaning | app/src/main/java/com/example/bookmanagerapp/BookDatabaseHelper.java:149-166 | a row matches exactly when the title is LIKE %title% (if that query is not empty) and the author is LIKE %author% (likewise) |
| SearchQuery.SearchIsContainment | app/src/main/java/com/example/bookmanagerapp/BookDatabaseHelper.java:149-166 | for queries without wildcards, a row matches exactly when its non-null title and author contain the non-empty queries, ignoring ASCII case |
| SearchQuery.EmptySearchSelectsAll | app/src/main/java/com/example/bookmanagerapp/BookDatabaseHelper.java:149-166 | with both queries empty the search returns every row in order |
| Database.BookDatabaseHelper.constructor | app/src/main/java/com/example/bookmanagerapp/BookDatabaseHelper.java:28-43 | a new store has an empty table whose sequence has handed out no id |
| Database.BookDatabaseHelper.OnUpgrade | app/src/main/java/com/example/bookmanagerapp/BookDatabaseHelper.java:46-49 | dropping and recreating the table loses every book and resets the sequence |
| Database.BookDatabaseHelper.AddBook | app/src/main/java/com/example/bookmanagerapp/BookDatabaseHelper.java:51-62 | the sequence advances by one; the table gains one row at the end, under the new id, with the book's four texts and encoded flag (the book's own id is ignored); the new id is above all old ids; the invariant is kept |
| Database.BookDatabaseHelper.Query | app/src/main/java/com/example/bookmanagerapp/BookDatabaseHelper.java:166-182 | a query returns fresh, pairwise distinct books whose values are the decoded selected rows, in table order |
| Database.BookDatabaseHelper.Collect | app/src/main/java/com/example/bookmanagerapp/BookDatabaseHelper.java:168-180 | the cursor loop builds one fresh, distinct book per matching row, in order, with that row's fields |
| Database.BookDatabaseHelper.BookOf | app/src/main/java/com/example/bookmanagerapp/BookDatabaseHelper.java:170-177 | the book built from a cursor row holds the row's fields and `is_read == 1` |
| Database.BookDatabaseHelper.FindBookByTitle | app/src/main/java/com/example/bookmanagerapp/BookDatabaseHelper.java:64-81 | null exactly when no row has that exact title; otherwise a fresh book equal to the first such row |
| Database.BookDatabaseHelper.GetAllBooks | app/src/main/java/com/example/bookmanagerapp/BookDatabaseHelper.java:83-102 | every row exactly once, in table order, decoded |
| Database.BookDatabaseHelper.GetReadBooks | app/src/main/java/com/example/bookmanagerapp/BookDatabaseHelper.java:104-123 | the read books of the full listing, in order |
| Database.BookDatabaseHelper.UpdateBook | app/src/main/java/com/example/bookmanagerapp/BookDatabaseHelper.java:125-136 | the row with the book's id takes the book's four texts and encoded flag, and no other row changes; the invariant and the sequence are kept |
| Database.BookDatabaseHelper.DeleteBook | app/src/main/java/com/example/bookmanagerapp/BookDatabaseHelper.java:138-142 | the rows with that id are removed and the others stay in order; the invariant and the sequence are kept |
| Database.BookDatabaseHelper.SearchBooksByTitleAndAuthor | app/src/main/java/com/example/bookmanagerapp/BookDatabaseHelper.java:145-183 | the result is the decoded rows the built selection selects, in order, and every returned book matches each non-empty query's pattern |
| MainScreen.AddForm | app/src/main/java/com/example/bookmanagerapp/MainActivity.java:50-56 | a book is made exactly when all four inputs have a non-blank character; it holds the trimmed inputs, the -1 id and the unread flag |
| MainScreen.OnAddBookClicked | app/src/main/java/com/example/bookmanagerapp/MainActivity.java:49-64 | when the form is filled, the store gains the form's book under the next id; otherwise the store is unchanged |
| MainScreen.AddedBookIsListed | app/src/main/java/com/example/bookmanagerapp/MainActivity.java:55-59 | after a successful add, the full listing is the old listing followed by the trimmed, unread book under its new id |
| MainScreen.SearchDispatch | app/src/main/java/com/example/bookmanagerapp/MainActivity.java:67-78 | everything is listed exactly when both inputs are blank; otherwise the search uses both trimmed queries |
| MainScreen.OnSearchClicked | app/src/main/java/com/example/bookmanagerapp/MainActivity.java:67-78 | either branch lists exactly what a search with the trimmed queries selects |
| MainScreen.DateTextFields | app/src/main/java/com/example/bookmanagerapp/MainActivity.java:93 | the date text splits at '/' into exactly the day, the 32-bit month+1 and the year, each parsing back to its number; for a month 0..11 the middle field is the month plus one |
| MainScreen.DateTextJoin | app/src/main/java/com/example/bookmanagerapp/MainActivity.java:93 | the date text is its three fields joined by '/' |
| MainScreen.ReadStatus | app/src/main/java/com/example/bookmanagerapp/MainActivity.java:161 | the status word is "Прочитано" exactly when the book is read and "Не прочитано" exactly when it is not |
| MainScreen.ReportJoin | app/src/main/java/com/example/bookmanagerapp/MainActivity.java:157-161 | the report is its five lines joined by line breaks |
| MainScreen.ReportMessageLines | app/src/main/java/com/example/bookmanagerapp/MainActivity.java:157-161 | if no field holds a line break, the report splits into exactly the five labelled lines, and the last one reads "Статус: Прочитано" exactly when the book is read |
| MainScreen.OnReadToggled | app/src/main/java/com/example/bookmanagerapp/MainActivity.java:131-135 | the displayed object takes the new flag and is written back by id; if it shows a row of the table, only that row's flag changes |
| MainScreen.OnDeleteClicked | app/src/main/java/com/example/bookmanagerapp/MainActivity.java:138-142 | the book's row is deleted, the other rows stay in order, and no row keeps the book's id |

## Left out

- The SQLite engine itself is not modelled: statements, cursors, `getColumnIndex`, opening and closing the database, and the file name and version passed to the helper. In the model each public store method is one atomic step on the table. Storage failures are not modelled either: the model has no failure path for `db.insert` returning -1 (which `addBook` ignores) or for `update` and `delete` throwing `SQLException`; every store method succeeds.
- Database.BookDatabaseHelper.AddBook: ids are unbounded integers. The model does not capture the 32-bit truncation of `cursor.getInt` on ids, or the SQLITE_FULL failure once the AUTOINCREMENT sequence reaches its largest value.
- Database.BookDatabaseHelper.FindBookByTitle: the cursor that is never closed when nothing is found is a resource leak with no effect on results, so it is not modelled.
- The `LIKE` operator assumes SQLite's built-in ASCII case folding. An application-defined or ICU `LIKE` that folds non-ASCII letters is not modelled.
- Java raises an exception when a null argument is bound to `?`. The store methods take `string` queries, which is how the screen calls them (trimmed input is never null).
- The screen's widget work is not modelled: `displayBooks` and its view inflation, the Toast messages, `clearFields`, and the refresh through `loadBooks` after an add or a delete. The model keeps the store calls these handlers make; the refreshed listing is `GetAllBooks`.
- The date picker dialog and `Calendar.getInstance` are not modelled: the clock becomes the parameters of `MainScreen.DateText`.
- The report's subject line, the share `Intent`, the chooser and the `ActivityNotFoundException` branch are not modelled: they are calls into the platform. The message body is `MainScreen.ReportMessage`.
- Database.BookDatabaseHelper.constructor: it models the first open of a missing database file, when `onCreate` creates an empty table. Opening an existing file keeps its rows; the handlers take any store satisfying `Valid()`, which stands for such a file's contents.
- The Book getters have no separate members: `Books.Book.Value` reads the six fields together.
