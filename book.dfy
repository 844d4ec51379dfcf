/**
 * The Book record (Book.java): a mutable Java object with an id, four text
 * fields and a read flag. Java strings may be null, so every text field is a
 * `Text`; the three-argument constructor really does leave them null.
 */
module Books {

  /** A Java String reference: null or a character sequence. */
  datatype Text = Null | Str(chars: string)

  /** What `"" + t` makes of a Java string reference: null is written as "null". */
  function Render(t: Text): (s: string)
    ensures t.Str? ==> s == t.chars
    ensures t.Null? ==> s == "null"
  {
    match t
    case Null => "null"
    case Str(chars) => chars
  }

  /** The id a book carries before the store has assigned one. */
  const UnsavedId := -1

  /** The state of one Book object, as a value. */
  datatype BookValue = BookValue(id: int, title: Text, author: Text, dateFrom: Text, dateTo: Text, isRead: bool)

  class Book {
    var id: int
    var title: Text
    var author: Text
    var dateFrom: Text
    var dateTo: Text
    var isRead: bool

    /** The full constructor stores every argument as given. */
    constructor (id: int, title: Text, author: Text, dateFrom: Text, dateTo: Text, isRead: bool)
      ensures Value() == BookValue(id, title, author, dateFrom, dateTo, isRead)
    {
      this.id := id;
      this.title := title;
      this.author := author;
      this.dateFrom := dateFrom;
      this.dateTo := dateTo;
      this.isRead := isRead;
    }

    /** A book that has not been stored yet carries the -1 sentinel id. */
    constructor Unsaved(title: Text, author: Text, dateFrom: Text, dateTo: Text, isRead: bool)
      ensures Value() == BookValue(UnsavedId, title, author, dateFrom, dateTo, isRead)
    {
      this.id := UnsavedId;
      this.title := title;
      this.author := author;
      this.dateFrom := dateFrom;
      this.dateTo := dateTo;
      this.isRead := isRead;
    }

    /** The three-argument constructor has an empty body: its arguments are
        dropped and every field keeps Java's default (0, null, false). */
    constructor Ignoring(title: Text, author: Text, b: bool)
      ensures Value() == BookValue(0, Null, Null, Null, Null, false)
    {
      this.id := 0;
      this.title := Null;
      this.author := Null;
      this.dateFrom := Null;
      this.dateTo := Null;
      this.isRead := false;
    }

    /** The fields of this object, read together (the getters of Book.java). */
    function Value(): BookValue
      reads this
    {
      BookValue(id, title, author, dateFrom, dateTo, isRead)
    }

    /** setRead changes the read flag and nothing else. */
    method SetRead(read: bool)
      modifies this
      ensures Value() == old(Value()).(isRead := read)
    {
      isRead := read;
    }

    /** toString: the title, the separator " - ", then the author. */
    function ToString(): (s: string)
      reads this
      ensures |s| == |Render(title)| + 3 + |Render(author)|
      ensures s[..|Render(title)|] == Render(title)
      ensures s[|Render(title)|..|Render(title)| + 3] == " - "
      ensures s[|Render(title)| + 3..] == Render(author)
    {
      Render(title) + " - " + Render(author)
    }
  }

  /** The values of a list of Book objects, in list order. */
  ghost function Values(books: seq<Book>): (vs: seq<BookValue>)
    reads books
    ensures |vs| == |books|
    ensures forall k :: 0 <= k < |books| ==> vs[k] == books[k].Value()
  {
    seq(|books|, k reads books requires 0 <= k < |books| => books[k].Value())
  }

  lemma ValuesAppend(books: seq<Book>, b: Book)
    ensures Values(books + [b]) == Values(books) + [b.Value()]
  {
  }
}
