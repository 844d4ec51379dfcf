/**
 * The book store (BookDatabaseHelper): one `books` table held in memory.
 * `rows` is the table in rowid order and `lastId` is the AUTOINCREMENT
 * sequence value for it. Every public method is one atomic statement on the
 * table; the list methods walk the selected rows and build a fresh Book for
 * each, as the cursor loops do.
 */
module Database {
  import opened Books
  import opened BookTable
  import opened SearchQuery

  class BookDatabaseHelper {
    var rows: seq<Row>
    var lastId: int

    predicate Valid()
      reads this
    {
      WellFormed(rows, lastId) && lastId >= 0
    }

    /** Opening a store that does not exist yet runs onCreate: an empty table
        whose sequence has not handed out any id. */
    constructor ()
      ensures Valid() && rows == [] && lastId == 0
    {
      rows := [];
      lastId := 0;
    }

    /** onUpgrade drops the table, which also discards its AUTOINCREMENT
        sequence, and creates it again: every book is lost. */
    method OnUpgrade(oldVersion: int, newVersion: int)
      modifies this
      ensures Valid() && rows == [] && lastId == 0
    {
      rows := [];
      lastId := 0;
    }

    /** addBook inserts the book's four texts and its encoded read flag; the
        id is the next sequence value, the book's own id is not used. */
    method AddBook(book: Book)
      requires Valid()
      modifies this
      ensures Valid()
      ensures lastId == old(lastId) + 1
      ensures rows == old(rows) + [InsertedRow(lastId, ValuesOf(book.Value()))]
      ensures forall k :: 0 <= k < |old(rows)| ==> old(rows)[k].id < lastId
    {
      var values := ValuesOf(book.Value());
      InsertWellFormed(rows, lastId, values);
      lastId := lastId + 1;
      rows := rows + [InsertedRow(lastId, values)];
    }

    /** A query: a Book for every row satisfying `c`, in table order. */
    method Query(c: Condition) returns (books: seq<Book>)
      ensures Values(books) == DecodeAll(Select(rows, c))
      ensures forall b :: b in books ==> fresh(b)
      ensures forall p, q :: 0 <= p < q < |books| ==> books[p] != books[q]
    {
      books := Collect(rows, c);
    }

    /** The cursor loop: one new Book for each row of `table` that satisfies `c`. */
    static method Collect(table: seq<Row>, c: Condition) returns (books: seq<Book>)
      ensures Values(books) == DecodeAll(Select(table, c))
      ensures forall b :: b in books ==> fresh(b)
      ensures forall p, q :: 0 <= p < q < |books| ==> books[p] != books[q]
    {
      books := [];
      for i := 0 to |table|
        invariant Values(books) == DecodeAll(Select(table[..i], c))
        invariant forall b :: b in books ==> fresh(b)
        invariant forall p, q :: 0 <= p < q < |books| ==> books[p] != books[q]
      {
        SelectPrefixStep(table, i, c);
        if Holds(c, table[i]) {
          var book := BookOf(table[i]);
          ValuesAppend(books, book);
          books := books + [book];
        }
      }
      assert table[..|table|] == table;
    }

    /** The Book a cursor row is read into. */
    static method BookOf(row: Row) returns (book: Book)
      ensures fresh(book) && book.Value() == Decode(row)
    {
      book := new Book(row.id, row.title, row.author, row.dateFrom, row.dateTo, DecodeRead(row.isRead));
    }

    /** findBookByTitle: the first row, in table order, whose title is exactly
        `title`, or null when there is none. */
    method FindBookByTitle(title: string) returns (book: Book?)
      ensures book == null <==> forall k :: 0 <= k < |rows| ==> rows[k].title != Str(title)
      ensures book != null ==>
                fresh(book) &&
                exists k :: 0 <= k < |rows| && book.Value() == Decode(rows[k]) &&
                            rows[k].title == Str(title) &&
                            forall j :: 0 <= j < k ==> rows[j].title != Str(title)
    {
      var cursor := Select(rows, TitleIs(title));
      SelectStartsAtFirstMatch(rows, TitleIs(title));
      FirstMatchMeaning(rows, TitleIs(title));
      if cursor != [] {
        book := BookOf(cursor[0]);
        var k := FirstMatch(rows, TitleIs(title)).value;
        assert book.Value() == Decode(rows[k]);
      } else {
        book := null;
      }
    }

    /** getAllBooks: every row exactly once, in table order, with its stored fields. */
    method GetAllBooks() returns (books: seq<Book>)
      ensures Values(books) == DecodeAll(rows)
      ensures forall b :: b in books ==> fresh(b)
      ensures forall p, q :: 0 <= p < q < |books| ==> books[p] != books[q]
    {
      books := Query(AnyRow);
      SelectAnyRow(rows);
    }

    /** getReadBooks: the books of the full listing whose read flag is set. */
    method GetReadBooks() returns (books: seq<Book>)
      ensures Values(books) == ReadBooks(DecodeAll(rows))
      ensures forall b :: b in books ==> fresh(b)
      ensures forall p, q :: 0 <= p < q < |books| ==> books[p] != books[q]
    {
      books := Query(ReadFlagIs(1));
      ReadRowsAreReadBooks(rows);
    }

    /** updateBook overwrites the four texts and the read flag of the row
        whose id is the book's id; no row has that id: nothing changes. */
    method UpdateBook(book: Book)
      requires Valid()
      modifies this
      ensures Valid() && lastId == old(lastId)
      ensures rows == UpdateRows(old(rows), book.id, ValuesOf(book.Value()))
    {
      UpdateWellFormed(rows, lastId, book.id, ValuesOf(book.Value()));
      rows := UpdateRows(rows, book.id, ValuesOf(book.Value()));
    }

    /** deleteBook removes the row with that id, if there is one. */
    method DeleteBook(bookId: int)
      requires Valid()
      modifies this
      ensures Valid() && lastId == old(lastId)
      ensures rows == DeleteRows(old(rows), bookId)
    {
      DeleteWellFormed(rows, lastId, bookId);
      rows := DeleteRows(rows, bookId);
    }

    /** searchBooksByTitleAndAuthor: builds the selection from the two queries
        and lists the rows it selects, in table order. */
    method SearchBooksByTitleAndAuthor(title: string, author: string) returns (books: seq<Book>)
      ensures Values(books) == DecodeAll(Select(rows, SearchCondition(title, author)))
      ensures forall k :: 0 <= k < |books| ==>
                (title == "" || TextLike(books[k].title, Pattern(title))) &&
                (author == "" || TextLike(books[k].author, Pattern(author)))
      ensures forall b :: b in books ==> fresh(b)
      ensures forall p, q :: 0 <= p < q < |books| ==> books[p] != books[q]
    {
      var selection := BuildSelection(title, author);
      ParseJoin(QueriedColumns(title, author));
      var columns := ParseWhere(selection.clause).value;
      books := Query(AllLike(columns, selection.args));
      forall k | 0 <= k < |books|
        ensures (title == "" || TextLike(books[k].title, Pattern(title))) &&
                (author == "" || TextLike(books[k].author, Pattern(author)))
      {
        var sel := Select(rows, SearchCondition(title, author));
        SelectMembers(rows, SearchCondition(title, author));
        assert books[k].Value() == Decode(sel[k]);
        assert sel[k] in sel;
        SearchConditionMeaning(title, author, sel[k]);
      }
    }
  }
}
