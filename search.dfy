/**
 * The selection that searchBooksByTitleAndAuthor builds from its two
 * queries, the meaning of that selection for a row, and how it relates to
 * plain substring containment.
 */
module SearchQuery {
  import opened Wrappers
  import opened Books
  import opened BookTable
  import Like

  /** A WHERE clause with `?` placeholders and the arguments bound to them, in order. */
  datatype Selection = Selection(clause: string, args: seq<string>)

  const AndSeparator := " AND "

  /** `<column> LIKE ?`. */
  function LikeClause(c: Column): string {
    ColumnName(c) + " LIKE ?"
  }

  /** The argument bound for a query: the query between two `%` wildcards. */
  function Pattern(q: string): string {
    "%" + q + "%"
  }

  /** The columns a search constrains: one per non-empty query, title first. */
  function QueriedColumns(title: string, author: string): seq<Column> {
    (if title != "" then [TitleColumn] else []) + (if author != "" then [AuthorColumn] else [])
  }

  function QueryFor(c: Column, title: string, author: string): string {
    match c
    case TitleColumn => title
    case AuthorColumn => author
  }

  /** The clauses for `cols` joined by " AND " (a reference definition). */
  function JoinClauses(cols: seq<Column>): string {
    if |cols| == 0 then ""
    else if |cols| == 1 then LikeClause(cols[0])
    else LikeClause(cols[0]) + AndSeparator + JoinClauses(cols[1..])
  }

  /** The number of `?` placeholders in a clause. */
  function Placeholders(s: string): nat {
    if s == [] then 0 else (if s[0] == '?' then 1 else 0) + Placeholders(s[1..])
  }

  // ---------------------------------------------------------------------------
  // The builder
  // ---------------------------------------------------------------------------

  /**
   * The selection and arguments of searchBooksByTitleAndAuthor: start from ""
   * and no arguments; a non-empty title adds `title LIKE ?` and `%title%`; a
   * non-empty author adds " AND " when something came before, then
   * `author LIKE ?` and `%author%`.
   */
  function BuildSelection(title: string, author: string): (s: Selection)
    ensures title == "" && author == "" ==> s == Selection("", [])
    ensures s.clause == JoinClauses(QueriedColumns(title, author))
    ensures Placeholders(s.clause) == |s.args|
    ensures |s.args| == |QueriedColumns(title, author)|
    ensures forall k :: 0 <= k < |s.args| ==>
              s.args[k] == Pattern(QueryFor(QueriedColumns(title, author)[k], title, author))
  {
    var selection0, args0 := "", [];
    var selection1 := if title != "" then selection0 + ColumnName(TitleColumn) + " LIKE ?" else selection0;
    var args1 := if title != "" then args0 + ["%" + title + "%"] else args0;
    var selection2 :=
      if author != "" then (if selection1 != "" then selection1 + AndSeparator else selection1)
                           + ColumnName(AuthorColumn) + " LIKE ?"
      else selection1;
    var args2 := if author != "" then args1 + ["%" + author + "%"] else args1;
    PlaceholdersOfJoin(QueriedColumns(title, author));
    Selection(selection2, args2)
  }

  lemma {:induction false} PlaceholdersAppend(a: string, b: string)
    ensures Placeholders(a + b) == Placeholders(a) + Placeholders(b)
  {
    if a != [] {
      assert (a + b)[0] == a[0] && (a + b)[1..] == a[1..] + b;
      PlaceholdersAppend(a[1..], b);
    } else {
      assert a + b == b;
    }
  }

  lemma {:induction false} PlaceholdersAbsent(s: string)
    requires '?' !in s
    ensures Placeholders(s) == 0
  {
    if s != [] {
      PlaceholdersAbsent(s[1..]);
    }
  }

  lemma PlaceholdersOfClause(c: Column)
    ensures Placeholders(LikeClause(c)) == 1
  {
    PlaceholdersAppend(ColumnName(c) + " LIKE ", "?");
    PlaceholdersAppend(ColumnName(c), " LIKE ");
    PlaceholdersAbsent(ColumnName(c));
    PlaceholdersAbsent(" LIKE ");
    assert ColumnName(c) + " LIKE ?" == ColumnName(c) + " LIKE " + "?";
  }

  /** Every joined clause contributes exactly one placeholder. */
  lemma {:induction false} PlaceholdersOfJoin(cols: seq<Column>)
    ensures Placeholders(JoinClauses(cols)) == |cols|
  {
    if |cols| == 1 {
      PlaceholdersOfClause(cols[0]);
    } else if |cols| > 1 {
      PlaceholdersOfClause(cols[0]);
      PlaceholdersOfJoin(cols[1..]);
      PlaceholdersAbsent(AndSeparator);
      PlaceholdersAppend(LikeClause(cols[0]) + AndSeparator, JoinClauses(cols[1..]));
      PlaceholdersAppend(LikeClause(cols[0]), AndSeparator);
    }
  }

  // ---------------------------------------------------------------------------
  // Reading the clause back: which columns it constrains
  // ---------------------------------------------------------------------------

  /** The column whose `LIKE ?` clause `s` starts with, if any. */
  function ClauseAt(s: string): Option<Column> {
    if |LikeClause(TitleColumn)| <= |s| && s[..|LikeClause(TitleColumn)|] == LikeClause(TitleColumn) then Some(TitleColumn)
    else if |LikeClause(AuthorColumn)| <= |s| && s[..|LikeClause(AuthorColumn)|] == LikeClause(AuthorColumn) then Some(AuthorColumn)
    else None
  }

  /** The columns of a non-empty clause list `c1 LIKE ? AND c2 LIKE ? ...`. */
  function ParseClauses(s: string): Option<seq<Column>>
    decreases |s|
  {
    match ClauseAt(s)
    case None => None
    case Some(c) =>
      var rest := s[|LikeClause(c)|..];
      if rest == [] then Some([c])
      else if |AndSeparator| < |rest| && rest[..|AndSeparator|] == AndSeparator then
        match ParseClauses(rest[|AndSeparator|..])
        case None => None
        case Some(cs) => Some([c] + cs)
      else None
  }

  /** The columns a selection constrains; the empty selection constrains none. */
  function ParseWhere(s: string): Option<seq<Column>> {
    if s == [] then Some([]) else ParseClauses(s)
  }

  lemma ClauseAtPrefix(c: Column, rest: string)
    ensures ClauseAt(LikeClause(c) + rest) == Some(c)
  {
    var s := LikeClause(c) + rest;
    assert s[..|LikeClause(c)|] == LikeClause(c);
    if c == AuthorColumn {
      assert s[0] == 'a';
    }
  }

  /** Reading a joined clause list back gives the columns it was built from. */
  lemma {:induction false} ParseJoin(cols: seq<Column>)
    ensures ParseWhere(JoinClauses(cols)) == Some(cols)
  {
    if |cols| == 1 {
      ClauseAtPrefix(cols[0], "");
      assert LikeClause(cols[0]) + "" == LikeClause(cols[0]);
      assert LikeClause(cols[0])[|LikeClause(cols[0])|..] == [];
      assert cols == [cols[0]];
    } else if |cols| > 1 {
      var tail := JoinClauses(cols[1..]);
      var s := LikeClause(cols[0]) + AndSeparator + tail;
      ClauseAtPrefix(cols[0], AndSeparator + tail);
      assert s == LikeClause(cols[0]) + (AndSeparator + tail);
      var rest := s[|LikeClause(cols[0])|..];
      assert rest == AndSeparator + tail;
      assert rest[..|AndSeparator|] == AndSeparator;
      assert rest[|AndSeparator|..] == tail;
      ParseJoin(cols[1..]);
      assert JoinClauses(cols[1..]) != [];
      assert cols == [cols[0]] + cols[1..];
    }
  }

  // ---------------------------------------------------------------------------
  // What the search selects
  // ---------------------------------------------------------------------------

  /** The condition the table evaluates for a search: each clause's column LIKE its bound argument. */
  function SearchCondition(title: string, author: string): Condition {
    var s := BuildSelection(title, author);
    ParseJoin(QueriedColumns(title, author));
    AllLike(ParseWhere(s.clause).value, s.args)
  }

  /** A row matches a search when its title is LIKE `%title%` (if the title
      query is non-empty) and its author is LIKE `%author%` (if the author
      query is non-empty). */
  lemma SearchConditionMeaning(title: string, author: string, r: Row)
    ensures Holds(SearchCondition(title, author), r) <==>
            (title == "" || TextLike(r.title, Pattern(title))) &&
            (author == "" || TextLike(r.author, Pattern(author)))
  {
    var s := BuildSelection(title, author);
    var cols := QueriedColumns(title, author);
    ParseJoin(cols);
    assert SearchCondition(title, author) == AllLike(cols, s.args);
    if title != "" && author != "" {
      assert cols == [TitleColumn, AuthorColumn];
    } else if title != "" {
      assert cols == [TitleColumn];
    } else if author != "" {
      assert cols == [AuthorColumn];
    } else {
      assert cols == [];
    }
  }

  /** The text is non-null and contains `q`, ignoring the case of ASCII letters. */
  predicate TextContains(t: Text, q: string) {
    t.Str? && Like.Contains(t.chars, q)
  }

  /** For queries without `%` or `_`, a search is a conjunctive substring filter. */
  lemma SearchIsContainment(title: string, author: string, r: Row)
    requires Like.NoWildcards(title) && Like.NoWildcards(author)
    ensures Holds(SearchCondition(title, author), r) <==>
            (title == "" || TextContains(r.title, title)) &&
            (author == "" || TextContains(r.author, author))
  {
    SearchConditionMeaning(title, author, r);
    if r.title.Str? {
      Like.LikeInfix(r.title.chars, title);
    }
    if r.author.Str? {
      Like.LikeInfix(r.author.chars, author);
    }
  }

  /** With both queries empty the selection is empty and every row matches. */
  lemma EmptySearchSelectsAll(rows: seq<Row>)
    ensures Select(rows, SearchCondition("", "")) == rows
  {
    forall k | 0 <= k < |rows| ensures Holds(SearchCondition("", ""), rows[k]) {
      SearchConditionMeaning("", "", rows[k]);
    }
    SelectAllHold(rows, SearchCondition("", ""));
  }
}
