/**
 * The parts of the main screen (MainActivity) that are logic rather than
 * widgets: the add-form check, the search dispatch, the date text the date
 * picker writes, the report text, and the checkbox and delete handlers as
 * calls on the store.
 */
module MainScreen {
  import opened Wrappers
  import opened Strings
  import opened Books
  import opened BookTable
  import opened SearchQuery
  import opened Database

  /** The text has a character that trim keeps. */
  predicate HasNonBlank(s: string) {
    exists k :: 0 <= k < |s| && !IsBlank(s[k])
  }

  // ---------------------------------------------------------------------------
  // The add button
  // ---------------------------------------------------------------------------

  /**
   * The add button's check: a book is made only when every one of the four
   * inputs has a non-blank character; it holds the trimmed inputs, the -1
   * id and the unread flag.
   */
  function AddForm(title: string, author: string, dateFrom: string, dateTo: string): (r: Option<BookValue>)
    ensures r.Some? <==> HasNonBlank(title) && HasNonBlank(author) && HasNonBlank(dateFrom) && HasNonBlank(dateTo)
    ensures r.Some? ==> r.value.id == UnsavedId && !r.value.isRead
    ensures r.Some? ==> r.value.title == Str(Trim(title)) && r.value.author == Str(Trim(author))
                        && r.value.dateFrom == Str(Trim(dateFrom)) && r.value.dateTo == Str(Trim(dateTo))
  {
    var t, a, f, u := Trim(title), Trim(author), Trim(dateFrom), Trim(dateTo);
    if t != "" && a != "" && f != "" && u != "" then
      Some(BookValue(UnsavedId, Str(t), Str(a), Str(f), Str(u), false))
    else
      None
  }

  /** The add button's handler; `added` tells which message the screen shows. */
  method OnAddBookClicked(db: BookDatabaseHelper, title: string, author: string, dateFrom: string, dateTo: string)
    returns (added: bool)
    requires db.Valid()
    modifies db
    ensures db.Valid()
    ensures added <==> AddForm(title, author, dateFrom, dateTo).Some?
    ensures added ==> db.lastId == old(db.lastId) + 1 &&
                      db.rows == old(db.rows) + [InsertedRow(db.lastId, ValuesOf(AddForm(title, author, dateFrom, dateTo).value))]
    ensures !added ==> db.rows == old(db.rows) && db.lastId == old(db.lastId)
  {
    var t := Trim(title);
    var a := Trim(author);
    var f := Trim(dateFrom);
    var u := Trim(dateTo);
    if t != "" && a != "" && f != "" && u != "" {
      var book := new Book.Unsaved(Str(t), Str(a), Str(f), Str(u), false);
      db.AddBook(book);
      added := true;
    } else {
      added := false;
    }
  }

  /** After a successful add, the full listing ends with the new book: the
      trimmed texts, unread, under the id the store assigned. */
  lemma AddedBookIsListed(rows: seq<Row>, lastId: int, title: string, author: string, dateFrom: string, dateTo: string)
    requires AddForm(title, author, dateFrom, dateTo).Some?
    ensures var listed := DecodeAll(rows + [InsertedRow(lastId + 1, ValuesOf(AddForm(title, author, dateFrom, dateTo).value))]);
            listed[..|rows|] == DecodeAll(rows) &&
            listed[|rows|] == BookValue(lastId + 1, Str(Trim(title)), Str(Trim(author)),
                                        Str(Trim(dateFrom)), Str(Trim(dateTo)), false)
  {
    var v := AddForm(title, author, dateFrom, dateTo).value;
    InsertThenList(rows, lastId + 1, v);
  }

  // ---------------------------------------------------------------------------
  // The search button
  // ---------------------------------------------------------------------------

  datatype SearchAction = ListAll | SearchBy(title: string, author: string)

  /** Both trimmed queries empty: list every book; otherwise search with the trimmed queries. */
  function SearchDispatch(titleInput: string, authorInput: string): (a: SearchAction)
    ensures a == ListAll <==> !HasNonBlank(titleInput) && !HasNonBlank(authorInput)
    ensures a.SearchBy? ==> a.title == Trim(titleInput) && a.author == Trim(authorInput)
  {
    var t, u := Trim(titleInput), Trim(authorInput);
    if t != "" || u != "" then SearchBy(t, u) else ListAll
  }

  /** The search button's handler. Whichever way it dispatches, what it lists
      is what a search with the trimmed queries selects. */
  method OnSearchClicked(db: BookDatabaseHelper, titleInput: string, authorInput: string)
    returns (books: seq<Book>)
    ensures Values(books) == DecodeAll(Select(db.rows, SearchCondition(Trim(titleInput), Trim(authorInput))))
    ensures forall b :: b in books ==> fresh(b)
    ensures forall p, q :: 0 <= p < q < |books| ==> books[p] != books[q]
  {
    match SearchDispatch(titleInput, authorInput)
    case SearchBy(t, u) =>
      books := db.SearchBooksByTitleAndAuthor(t, u);
    case ListAll =>
      books := db.GetAllBooks();
      EmptySearchSelectsAll(db.rows);
  }

  // ---------------------------------------------------------------------------
  // The date picker's text
  // ---------------------------------------------------------------------------

  /** The text written into a date field: day, 1-based month and year joined
      by "/"; the picker's month is 0-based and Java adds 1 in int arithmetic. */
  function DateText(day: Int32, month: Int32, year: Int32): string {
    IntToString(day) + "/" + IntToString(AddInt32(month, 1)) + "/" + IntToString(year)
  }

  /** The date text splits at "/" into exactly three numbers: the day, the
      month plus one and the year. */
  lemma DateTextFields(day: Int32, month: Int32, year: Int32)
    ensures Split(DateText(day, month, year), '/') ==
            [IntToString(day), IntToString(AddInt32(month, 1)), IntToString(year)]
    ensures var f := Split(DateText(day, month, year), '/');
            ParseInt(f[0]) == Some(day as int) && ParseInt(f[1]) == Some(AddInt32(month, 1) as int) &&
            ParseInt(f[2]) == Some(year as int)
    ensures 0 <= month <= 11 ==> ParseInt(Split(DateText(day, month, year), '/')[1]) == Some(month + 1)
  {
    var d, m, y := IntToString(day), IntToString(AddInt32(month, 1)), IntToString(year);
    DateTextJoin(d, m, y);
    IntToStringHasNo(day, '/');
    IntToStringHasNo(AddInt32(month, 1), '/');
    IntToStringHasNo(year, '/');
    SplitJoin([d, m, y], '/');
    IntToStringRoundTrip(day);
    IntToStringRoundTrip(AddInt32(month, 1));
    IntToStringRoundTrip(year);
  }

  lemma DateTextJoin(d: string, m: string, y: string)
    ensures Join([d, m, y], '/') == d + "/" + m + "/" + y
  {
    assert [d, m, y] == [d] + [m, y] && [m, y] == [m] + [y];
    JoinCons(d, [m, y], '/');
    JoinCons(m, [y], '/');
  }

  // ---------------------------------------------------------------------------
  // The report
  // ---------------------------------------------------------------------------

  const ReadLabel := "Прочитано"
  const UnreadLabel := "Не прочитано"

  /** The status word of the report. */
  function ReadStatus(isRead: bool): (s: string)
    ensures s == ReadLabel <==> isRead
    ensures s == UnreadLabel <==> !isRead
  {
    if isRead then ReadLabel else UnreadLabel
  }

  /** The five lines of the report, in order. */
  function ReportLines(b: BookValue): seq<string> {
    [ "Название книги: " + Render(b.title),
      "Автор: " + Render(b.author),
      "Дата начала чтения: " + Render(b.dateFrom),
      "Дата окончания чтения: " + Render(b.dateTo),
      "Статус: " + ReadStatus(b.isRead) ]
  }

  /** The body of the report mail sendReport builds. */
  function ReportMessage(b: BookValue): string {
    "Название книги: " + Render(b.title) + "\n" +
    "Автор: " + Render(b.author) + "\n" +
    "Дата начала чтения: " + Render(b.dateFrom) + "\n" +
    "Дата окончания чтения: " + Render(b.dateTo) + "\n" +
    "Статус: " + ReadStatus(b.isRead)
  }

  /** When no field holds a line break the report has exactly five lines:
      title, author, start date, end date and the status, which reads
      "Прочитано" exactly when the book is read. */
  lemma ReportMessageLines(b: BookValue)
    requires '\n' !in Render(b.title) && '\n' !in Render(b.author)
    requires '\n' !in Render(b.dateFrom) && '\n' !in Render(b.dateTo)
    ensures Split(ReportMessage(b), '\n') == ReportLines(b)
    ensures |Split(ReportMessage(b), '\n')| == 5
    ensures Split(ReportMessage(b), '\n')[4] == "Статус: Прочитано" <==> b.isRead
  {
    var lines := ReportLines(b);
    ReportJoin(b);
    forall k | 0 <= k < 5 ensures '\n' !in lines[k] {
      LabelledLine(k, b);
    }
    SplitJoin(lines, '\n');
    StatusLine(b.isRead);
  }

  lemma ReportJoin(b: BookValue)
    ensures Join(ReportLines(b), '\n') == ReportMessage(b)
  {
    var lines := ReportLines(b);
    Join5(lines[0], lines[1], lines[2], lines[3], lines[4], '\n');
    assert lines == [lines[0], lines[1], lines[2], lines[3], lines[4]];
    Regroup("Название книги: ", Render(b.title), "Автор: ", Render(b.author),
            "Дата начала чтения: ", Render(b.dateFrom), "Дата окончания чтения: ", Render(b.dateTo),
            "Статус: ", ReadStatus(b.isRead), "\n");
  }

  lemma Regroup(l0: string, v0: string, l1: string, v1: string, l2: string, v2: string,
                l3: string, v3: string, l4: string, v4: string, nl: string)
    ensures l0 + v0 + nl + l1 + v1 + nl + l2 + v2 + nl + l3 + v3 + nl + l4 + v4
            == (l0 + v0) + nl + (l1 + v1) + nl + (l2 + v2) + nl + (l3 + v3) + nl + (l4 + v4)
  {
  }

  lemma Join5(a: string, b: string, c: string, d: string, e: string, sep: char)
    ensures Join([a, b, c, d, e], sep) == a + [sep] + b + [sep] + c + [sep] + d + [sep] + e
  {
    assert [a, b, c, d, e] == [a] + [b, c, d, e];
    JoinCons(a, [b, c, d, e], sep);
    assert [b, c, d, e] == [b] + [c, d, e];
    JoinCons(b, [c, d, e], sep);
    assert [c, d, e] == [c] + [d, e];
    JoinCons(c, [d, e], sep);
    assert [d, e] == [d] + [e];
    JoinCons(d, [e], sep);
  }

  lemma LabelledLine(k: int, b: BookValue)
    requires 0 <= k < 5
    requires '\n' !in Render(b.title) && '\n' !in Render(b.author)
    requires '\n' !in Render(b.dateFrom) && '\n' !in Render(b.dateTo)
    ensures '\n' !in ReportLines(b)[k]
  {
    if k == 0 {
      NoBreakIn("Название книги: ", Render(b.title));
    } else if k == 1 {
      NoBreakIn("Автор: ", Render(b.author));
    } else if k == 2 {
      NoBreakIn("Дата начала чтения: ", Render(b.dateFrom));
    } else if k == 3 {
      NoBreakIn("Дата окончания чтения: ", Render(b.dateTo));
    } else {
      NoBreakIn("Статус: ", ReadStatus(b.isRead));
    }
  }

  lemma NoBreakIn(head: string, v: string)
    requires '\n' !in head && '\n' !in v
    ensures '\n' !in head + v
  {
  }

  lemma StatusLine(isRead: bool)
    ensures "Статус: " + ReadStatus(isRead) == "Статус: Прочитано" <==> isRead
  {
    if !isRead {
      assert |"Статус: " + UnreadLabel| != |"Статус: Прочитано"|;
    }
  }

  // ---------------------------------------------------------------------------
  // The handlers on a listed book
  // ---------------------------------------------------------------------------

  /** The checkbox handler: the displayed book object takes the new flag and
      is written back with all its fields, keyed by its id. When the object
      shows a row of the table, that row's flag is the only change. */
  method OnReadToggled(db: BookDatabaseHelper, book: Book, isChecked: bool)
    requires db.Valid()
    modifies db, book
    ensures db.Valid() && db.lastId == old(db.lastId)
    ensures book.Value() == old(book.Value()).(isRead := isChecked)
    ensures db.rows == UpdateRows(old(db.rows), book.id, ValuesOf(book.Value()))
    ensures forall k :: 0 <= k < |old(db.rows)| && Decode(old(db.rows)[k]) == old(book.Value()) ==>
              db.rows == old(db.rows)[k := old(db.rows)[k].(isRead := EncodeRead(isChecked))]
  {
    ghost var rows0, b0 := db.rows, book.Value();
    book.SetRead(isChecked);
    db.UpdateBook(book);
    forall k | 0 <= k < |rows0| && Decode(rows0[k]) == b0
      ensures db.rows == rows0[k := rows0[k].(isRead := EncodeRead(isChecked))]
    {
      UpdateReadFlagOnly(rows0, db.lastId, k, b0, isChecked);
    }
  }

  /** The delete button: deletes by the displayed book's id. */
  method OnDeleteClicked(db: BookDatabaseHelper, book: Book)
    requires db.Valid()
    modifies db
    ensures db.Valid() && db.lastId == old(db.lastId)
    ensures db.rows == DeleteRows(old(db.rows), book.id)
    ensures forall k :: 0 <= k < |db.rows| ==> db.rows[k].id != book.id
  {
    db.DeleteBook(book.id);
    forall k | 0 <= k < |db.rows| ensures db.rows[k].id != book.id {
      assert db.rows[k] in db.rows;
    }
  }
}
