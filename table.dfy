/**
 * The `books` table as the store sees it: its rows in table (rowid) order,
 * the ContentValues written into it, the 1/0 encoding of the read flag, the
 * row conditions the store's queries use, and what selecting, updating and
 * deleting by such a condition does to the rows.
 */
module BookTable {
  import opened Wrappers
  import opened Books
  import Like

  /** The schema's `is_read INTEGER DEFAULT 0`. */
  const IsReadDefault := 0

  /** One row of `books(id, title, author, date_from, date_to, is_read)`. */
  datatype Row = Row(id: int, title: Text, author: Text, dateFrom: Text, dateTo: Text, isRead: int)

  /** A ContentValues for the table: every column except id; a column that is
      absent takes the schema default on insert and is left alone on update. */
  datatype ContentValues = ContentValues(title: Text, author: Text, dateFrom: Text, dateTo: Text, isRead: Option<int>)

  // ---------------------------------------------------------------------------
  // Encoding a Book into a row and decoding it back
  // ---------------------------------------------------------------------------

  /** `book.isRead() ? 1 : 0`. */
  function EncodeRead(b: bool): (v: int)
    ensures v == 0 || v == 1
    ensures DecodeRead(v) == b
  {
    if b then 1 else 0
  }

  /** `cursor.getInt(is_read) == 1`. */
  function DecodeRead(v: int): bool {
    v == 1
  }

  /** The ContentValues that addBook and updateBook build from a book: all five columns. */
  function ValuesOf(b: BookValue): ContentValues {
    ContentValues(b.title, b.author, b.dateFrom, b.dateTo, Some(EncodeRead(b.isRead)))
  }

  /** The Book the store builds from a row of a cursor. */
  function Decode(r: Row): BookValue {
    BookValue(r.id, r.title, r.author, r.dateFrom, r.dateTo, DecodeRead(r.isRead))
  }

  function DecodeAll(rows: seq<Row>): (books: seq<BookValue>)
    ensures |books| == |rows|
    ensures forall k :: 0 <= k < |rows| ==> books[k] == Decode(rows[k])
  {
    seq(|rows|, k requires 0 <= k < |rows| => Decode(rows[k]))
  }

  /** The row an INSERT of `v` creates under the id the table assigns. */
  function InsertedRow(id: int, v: ContentValues): Row {
    Row(id, v.title, v.author, v.dateFrom, v.dateTo,
        match v.isRead case None => IsReadDefault case Some(f) => f)
  }

  /** What an UPDATE with `v` makes of a row it applies to: the id stays. */
  function Overwrite(r: Row, v: ContentValues): Row {
    Row(r.id, v.title, v.author, v.dateFrom, v.dateTo,
        match v.isRead case None => r.isRead case Some(f) => f)
  }

  /** The read flags a ContentValues may carry into the table. */
  predicate FlagIsBit(v: ContentValues) {
    match v.isRead case None => true case Some(f) => f == 0 || f == 1
  }

  /** The round trip the store promises: a book written by addBook or
      updateBook reads back with the same fields and the read flag it had. */
  lemma DecodeValuesOf(id: int, r: Row, b: BookValue)
    ensures Decode(InsertedRow(id, ValuesOf(b))) == b.(id := id)
    ensures Decode(Overwrite(r, ValuesOf(b))) == b.(id := r.id)
  {
  }

  /** Listing after an insert shows the earlier books and then the new one,
      with the fields it was written with and the id it was given. */
  lemma InsertThenList(rows: seq<Row>, id: int, b: BookValue)
    ensures DecodeAll(rows + [InsertedRow(id, ValuesOf(b))]) == DecodeAll(rows) + [b.(id := id)]
  {
    DecodeValuesOf(id, InsertedRow(id, ValuesOf(b)), b);
  }

  // ---------------------------------------------------------------------------
  // The table invariant
  // ---------------------------------------------------------------------------

  /**
   * `lastId` is the AUTOINCREMENT sequence value: the largest id ever handed
   * out. Rows are kept in rowid order, so ids strictly increase along the
   * table (which makes them unique), every id lies in 1..lastId, and every
   * stored read flag is 0 or 1.
   */
  predicate WellFormed(rows: seq<Row>, lastId: int) {
    (forall i, j :: 0 <= i < j < |rows| ==> rows[i].id < rows[j].id) &&
    (forall i :: 0 <= i < |rows| ==> 1 <= rows[i].id <= lastId) &&
    (forall i :: 0 <= i < |rows| ==> rows[i].isRead == 0 || rows[i].isRead == 1)
  }

  predicate HasId(rows: seq<Row>, id: int) {
    exists i :: 0 <= i < |rows| && rows[i].id == id
  }

  /** Ids in a well-formed table are unique. */
  lemma UniqueIds(rows: seq<Row>, lastId: int, i: int, j: int)
    requires WellFormed(rows, lastId)
    requires 0 <= i < |rows| && 0 <= j < |rows| && rows[i].id == rows[j].id
    ensures i == j
  {
  }

  /** Inserting under the next sequence value keeps the table well formed and
      gives the new row an id above every id already assigned. */
  lemma InsertWellFormed(rows: seq<Row>, lastId: int, v: ContentValues)
    requires WellFormed(rows, lastId)
    requires FlagIsBit(v)
    requires lastId >= 0
    ensures WellFormed(rows + [InsertedRow(lastId + 1, v)], lastId + 1)
    ensures forall k :: 0 <= k < |rows| ==> rows[k].id < lastId + 1
  {
  }

  // ---------------------------------------------------------------------------
  // Conditions and the rows they select
  // ---------------------------------------------------------------------------

  datatype Column = TitleColumn | AuthorColumn

  /** COLUMN_TITLE and COLUMN_AUTHOR. */
  function ColumnName(c: Column): string {
    match c
    case TitleColumn => "title"
    case AuthorColumn => "author"
  }

  function ColumnText(r: Row, c: Column): Text {
    match c
    case TitleColumn => r.title
    case AuthorColumn => r.author
  }

  /** The WHERE conditions the store's statements use. */
  datatype Condition =
    | AnyRow                                              // no WHERE clause
    | IdIs(id: int)                                       // id = ?
    | TitleIs(title: string)                              // title = ?
    | ReadFlagIs(flag: int)                               // is_read = <flag>
    | AllLike(columns: seq<Column>, patterns: seq<string>) // c1 LIKE ? AND c2 LIKE ? ...
    | Not(inner: Condition)

  /** `t LIKE p` in SQL: a NULL column matches no pattern. */
  predicate TextLike(t: Text, p: string) {
    t.Str? && Like.Like(t.chars, p)
  }

  predicate Holds(c: Condition, r: Row) {
    match c
    case AnyRow => true
    case IdIs(id) => r.id == id
    case TitleIs(title) => r.title == Str(title)
    case ReadFlagIs(flag) => r.isRead == flag
    case AllLike(columns, patterns) =>
      |columns| == |patterns| &&
      forall k :: 0 <= k < |columns| ==> TextLike(ColumnText(r, columns[k]), patterns[k])
    case Not(inner) => !Holds(inner, r)
  }

  /** The rows satisfying `c`, in table order: what a query's cursor walks through. */
  function Select(rows: seq<Row>, c: Condition): (sel: seq<Row>)
    ensures |sel| <= |rows|
  {
    if rows == [] then []
    else
      var init := rows[..|rows| - 1];
      var last := rows[|rows| - 1];
      assert rows == init + [last];
      Select(init, c) + (if Holds(c, last) then [last] else [])
  }

  /** Selecting from one more row of the table adds that row's book when it matches. */
  lemma SelectPrefixStep(rows: seq<Row>, i: nat, c: Condition)
    requires i < |rows|
    ensures DecodeAll(Select(rows[..i + 1], c)) ==
            DecodeAll(Select(rows[..i], c)) + (if Holds(c, rows[i]) then [Decode(rows[i])] else [])
  {
    assert rows[..i + 1] == rows[..i] + [rows[i]];
    SelectSnoc(rows[..i], rows[i], c);
  }

  /** Selecting from a table with one more row at the end. */
  lemma SelectSnoc(init: seq<Row>, last: Row, c: Condition)
    ensures Select(init + [last], c) == Select(init, c) + (if Holds(c, last) then [last] else [])
  {
    assert (init + [last])[..|init|] == init;
  }

  /** A row is selected exactly when it is in the table and satisfies the condition. */
  lemma {:induction false} SelectMembers(rows: seq<Row>, c: Condition)
    ensures forall r :: r in Select(rows, c) <==> r in rows && Holds(c, r)
  {
    if rows != [] {
      var init, last := rows[..|rows| - 1], rows[|rows| - 1];
      assert rows == init + [last];
      SelectSnoc(init, last, c);
      SelectMembers(init, c);
    }
  }

  /** With no WHERE clause every row is selected, in table order. */
  lemma {:induction false} SelectAnyRow(rows: seq<Row>)
    ensures Select(rows, AnyRow) == rows
  {
    if rows != [] {
      SelectAnyRow(rows[..|rows| - 1]);
    }
  }

  /** Dropping the last row keeps a table well formed; that row's id is above all others. */
  lemma DropLastWellFormed(rows: seq<Row>, lastId: int)
    requires WellFormed(rows, lastId) && rows != []
    ensures WellFormed(rows[..|rows| - 1], lastId)
    ensures forall k :: 0 <= k < |rows| - 1 ==> rows[k].id < rows[|rows| - 1].id
  {
  }

  /** Appending a row whose id is above all others keeps a table well formed. */
  lemma AppendWellFormed(rows: seq<Row>, last: Row, lastId: int)
    requires WellFormed(rows, lastId)
    requires forall k :: 0 <= k < |rows| ==> rows[k].id < last.id
    requires 1 <= last.id <= lastId && (last.isRead == 0 || last.isRead == 1)
    ensures WellFormed(rows + [last], lastId)
  {
  }

  /** Every row of a selection is a row of the table, so its id is below any bound of the table's. */
  lemma SelectedBelow(rows: seq<Row>, c: Condition, bound: int)
    requires forall k :: 0 <= k < |rows| ==> rows[k].id < bound
    ensures forall k :: 0 <= k < |Select(rows, c)| ==> Select(rows, c)[k].id < bound
  {
    var s := Select(rows, c);
    SelectMembers(rows, c);
    forall k | 0 <= k < |s| ensures s[k].id < bound {
      assert s[k] in rows;
    }
  }

  /** Selecting keeps the table's order, so the selected rows are well formed too. */
  lemma {:induction false} SelectWellFormed(rows: seq<Row>, c: Condition, lastId: int)
    requires WellFormed(rows, lastId)
    ensures WellFormed(Select(rows, c), lastId)
  {
    if rows != [] {
      var init := rows[..|rows| - 1];
      var last := rows[|rows| - 1];
      DropLastWellFormed(rows, lastId);
      SelectWellFormed(init, c, lastId);
      if Holds(c, last) {
        SelectedBelow(init, c, last.id);
        AppendWellFormed(Select(init, c), last, lastId);
      } else {
        assert Select(rows, c) == Select(init, c) + [];
      }
    }
  }

  /** Selecting by a condition that every row satisfies changes nothing. */
  lemma {:induction false} SelectAllHold(rows: seq<Row>, c: Condition)
    requires forall k :: 0 <= k < |rows| ==> Holds(c, rows[k])
    ensures Select(rows, c) == rows
  {
    if rows != [] {
      var init, last := rows[..|rows| - 1], rows[|rows| - 1];
      assert rows == init + [last];
      SelectSnoc(init, last, c);
      assert forall k :: 0 <= k < |init| ==> Holds(c, init[k]) by {
        forall k | 0 <= k < |init| ensures Holds(c, init[k]) {
          assert init[k] == rows[k];
        }
      }
      SelectAllHold(init, c);
    }
  }

  /** The index of the first row satisfying `c`, if one does. */
  function FirstMatch(rows: seq<Row>, c: Condition): (i: Option<nat>)
    ensures i.Some? ==> i.value < |rows|
  {
    if rows == [] then None
    else match FirstMatch(rows[..|rows| - 1], c)
      case Some(i) => Some(i)
      case None => if Holds(c, rows[|rows| - 1]) then Some(|rows| - 1) else None
  }

  /** FirstMatch finds a row satisfying `c` with none before it, and finds
      nothing exactly when no row satisfies `c`. */
  lemma {:induction false} FirstMatchMeaning(rows: seq<Row>, c: Condition)
    ensures FirstMatch(rows, c).Some? ==>
              Holds(c, rows[FirstMatch(rows, c).value]) &&
              forall k :: 0 <= k < FirstMatch(rows, c).value ==> !Holds(c, rows[k])
    ensures FirstMatch(rows, c).None? <==> forall k :: 0 <= k < |rows| ==> !Holds(c, rows[k])
  {
    if rows != [] {
      var init, last := rows[..|rows| - 1], rows[|rows| - 1];
      FirstMatchMeaning(init, c);
      assert forall k :: 0 <= k < |init| ==> init[k] == rows[k];
    }
  }

  /** A cursor's first row is the first row of the table that satisfies the condition. */
  lemma {:induction false} SelectStartsAtFirstMatch(rows: seq<Row>, c: Condition)
    ensures Select(rows, c) == [] <==> FirstMatch(rows, c).None?
    ensures Select(rows, c) != [] ==> Select(rows, c)[0] == rows[FirstMatch(rows, c).value]
  {
    if rows != [] {
      var init, last := rows[..|rows| - 1], rows[|rows| - 1];
      assert rows == init + [last];
      SelectSnoc(init, last, c);
      SelectStartsAtFirstMatch(init, c);
      if FirstMatch(init, c).Some? {
        assert init[FirstMatch(init, c).value] == rows[FirstMatch(init, c).value];
      }
    }
  }

  // ---------------------------------------------------------------------------
  // UPDATE ... WHERE id = ? and DELETE ... WHERE id = ?
  // ---------------------------------------------------------------------------

  /** The rows after `UPDATE books SET v WHERE id = id`. */
  function UpdateRows(rows: seq<Row>, id: int, v: ContentValues): (res: seq<Row>)
    ensures |res| == |rows|
  {
    seq(|rows|, k requires 0 <= k < |rows| => if rows[k].id == id then Overwrite(rows[k], v) else rows[k])
  }

  /** Only the row with that id changes, its id stays, and it receives `v`. */
  lemma UpdateFrame(rows: seq<Row>, id: int, v: ContentValues, k: int)
    requires 0 <= k < |rows|
    ensures UpdateRows(rows, id, v)[k].id == rows[k].id
    ensures rows[k].id != id ==> UpdateRows(rows, id, v)[k] == rows[k]
    ensures rows[k].id == id ==>
              UpdateRows(rows, id, v)[k].title == v.title && UpdateRows(rows, id, v)[k].author == v.author &&
              UpdateRows(rows, id, v)[k].dateFrom == v.dateFrom && UpdateRows(rows, id, v)[k].dateTo == v.dateTo
    ensures rows[k].id == id && v.isRead.Some? ==> UpdateRows(rows, id, v)[k].isRead == v.isRead.value
    ensures rows[k].id == id && v.isRead.None? ==> UpdateRows(rows, id, v)[k].isRead == rows[k].isRead
  {
  }

  /** No row has the id: the update affects zero rows. */
  lemma UpdateAbsentId(rows: seq<Row>, id: int, v: ContentValues)
    requires !HasId(rows, id)
    ensures UpdateRows(rows, id, v) == rows
  {
    assert forall k :: 0 <= k < |rows| ==> rows[k].id != id;
  }

  lemma UpdateWellFormed(rows: seq<Row>, lastId: int, id: int, v: ContentValues)
    requires WellFormed(rows, lastId)
    requires FlagIsBit(v)
    ensures WellFormed(UpdateRows(rows, id, v), lastId)
  {
    var res := UpdateRows(rows, id, v);
    assert forall k :: 0 <= k < |rows| ==> res[k].id == rows[k].id;
  }

  /** Updating a row with the values it already decodes to except the flag
      changes that row's read flag and nothing else in the table. */
  lemma UpdateReadFlagOnly(rows: seq<Row>, lastId: int, k: int, b: BookValue, read: bool)
    requires WellFormed(rows, lastId)
    requires 0 <= k < |rows| && Decode(rows[k]) == b
    ensures UpdateRows(rows, b.id, ValuesOf(b.(isRead := read)))
            == rows[k := rows[k].(isRead := EncodeRead(read))]
  {
    var res := UpdateRows(rows, b.id, ValuesOf(b.(isRead := read)));
    forall j | 0 <= j < |rows|
      ensures res[j] == rows[k := rows[k].(isRead := EncodeRead(read))][j]
    {
      if rows[j].id == b.id {
        UniqueIds(rows, lastId, j, k);
      }
    }
  }

  /** The rows after `DELETE FROM books WHERE id = id`. */
  function DeleteRows(rows: seq<Row>, id: int): (res: seq<Row>)
    ensures forall r :: r in res <==> r in rows && r.id != id
  {
    assert forall r :: Holds(Not(IdIs(id)), r) <==> r.id != id;
    SelectMembers(rows, Not(IdIs(id)));
    Select(rows, Not(IdIs(id)))
  }

  /** In a well-formed table a delete keeps the table well formed, keeps the
      other rows in order, and is a no-op when no row has the id. */
  lemma DeleteWellFormed(rows: seq<Row>, lastId: int, id: int)
    requires WellFormed(rows, lastId)
    ensures WellFormed(DeleteRows(rows, id), lastId)
    ensures !HasId(rows, id) ==> DeleteRows(rows, id) == rows
  {
    SelectWellFormed(rows, Not(IdIs(id)), lastId);
    if !HasId(rows, id) {
      SelectAllHold(rows, Not(IdIs(id)));
    }
  }

  /** Ids are unique, so a delete of a present id removes exactly one row. */
  lemma {:induction false} DeleteRemovesOne(rows: seq<Row>, lastId: int, id: int)
    requires WellFormed(rows, lastId)
    requires HasId(rows, id)
    ensures |DeleteRows(rows, id)| == |rows| - 1
  {
    var init := rows[..|rows| - 1];
    var last := rows[|rows| - 1];
    DropLastWellFormed(rows, lastId);
    assert Holds(Not(IdIs(id)), last) == (last.id != id);
    assert Select(rows, Not(IdIs(id))) ==
           Select(init, Not(IdIs(id))) + (if last.id != id then [last] else []);
    if last.id == id {
      assert !HasId(init, id) by {
        forall k | 0 <= k < |init| ensures init[k].id != id {
          assert init[k] == rows[k];
        }
      }
      DeleteWellFormed(init, lastId, id);
    } else {
      var k :| 0 <= k < |rows| && rows[k].id == id;
      assert k < |init| && init[k] == rows[k];
      DeleteRemovesOne(init, lastId, id);
    }
  }

  /** A book that was never stored carries an id no row has. */
  lemma UnsavedIdAbsent(rows: seq<Row>, lastId: int)
    requires WellFormed(rows, lastId)
    ensures !HasId(rows, UnsavedId)
  {
  }

  // ---------------------------------------------------------------------------
  // The read-only listing
  // ---------------------------------------------------------------------------

  /** The books of a list that are marked read, in list order. */
  function ReadBooks(books: seq<BookValue>): (res: seq<BookValue>)
    ensures forall b :: b in res <==> b in books && b.isRead
  {
    if books == [] then []
    else
      var init := books[..|books| - 1];
      var last := books[|books| - 1];
      assert books == init + [last];
      ReadBooks(init) + (if last.isRead then [last] else [])
  }

  /** Listing the rows with is_read = 1 gives exactly the read books of the full listing. */
  lemma {:induction false} ReadRowsAreReadBooks(rows: seq<Row>)
    ensures DecodeAll(Select(rows, ReadFlagIs(1))) == ReadBooks(DecodeAll(rows))
  {
    if rows != [] {
      var init := rows[..|rows| - 1];
      var last := rows[|rows| - 1];
      ReadRowsAreReadBooks(init);
      assert DecodeAll(rows)[..|rows| - 1] == DecodeAll(init);
      var tail := if Holds(ReadFlagIs(1), last) then [last] else [];
      assert DecodeAll(Select(init, ReadFlagIs(1)) + tail) == DecodeAll(Select(init, ReadFlagIs(1))) + DecodeAll(tail);
    }
  }
}
