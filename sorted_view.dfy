/**
 * The rows the books table renders (`sortedBooks`): a copy of the fetched
 * records sorted by the active column with a three-way comparator built on
 * JavaScript's `<`, whose sign flips for a descending sort.
 */
module SortedView {
  import opened JsValue
  import StableSort

  datatype Order = Asc | Desc

  /**
   * The comparator passed to `sort`: -1 when a's field is `<` b's, 1 when it
   * is `>`, and 0 otherwise (which covers missing fields), signs swapped for Desc.
   */
  function Compare(a: Record, b: Record, orderBy: string, order: Order): int {
    var x, y := Field(a, orderBy), Field(b, orderBy);
    if Less(x, y) then (if order == Asc then -1 else 1)
    else if Less(y, x) then (if order == Asc then 1 else -1)
    else 0
  }

  function Comparator(orderBy: string, order: Order): (Record, Record) -> int {
    (a: Record, b: Record) => Compare(a, b, orderBy, order)
  }

  /** `[...books].sort(comparator)`: a sorted copy; `books` itself is left as it is. */
  function SortedBooks(books: seq<Record>, orderBy: string, order: Order): (v: seq<Record>)
    ensures |v| == |books|
    ensures multiset(v) == multiset(books)
  {
    StableSort.Sort(books, Comparator(orderBy, order))
  }

  /** For each rendered row, the position in `books` of the record it shows. */
  function RowPositions(books: seq<Record>, orderBy: string, order: Order): seq<nat> {
    StableSort.SortedPositions(books, Comparator(orderBy, order))
  }

  /**
   * The comparator is antisymmetric, Desc is Asc with the sign flipped, it
   * answers only -1, 0 or 1, and a record missing the field ties with everything.
   */
  lemma ComparatorLaws(a: Record, b: Record, orderBy: string, order: Order)
    ensures Compare(a, b, orderBy, order) == -Compare(b, a, orderBy, order)
    ensures Compare(a, b, orderBy, Desc) == -Compare(a, b, orderBy, Asc)
    ensures -1 <= Compare(a, b, orderBy, order) <= 1
    ensures orderBy !in a ==> Compare(a, b, orderBy, order) == 0
  {
    LessAsymmetric(Field(a, orderBy), Field(b, orderBy));
  }

  lemma ComparatorZeroSymmetric(orderBy: string, order: Order)
    ensures StableSort.ZeroSymmetric(Comparator(orderBy, order))
  {
    forall a: Record, b: Record
      ensures Compare(a, b, orderBy, order) == 0 ==> Compare(b, a, orderBy, order) == 0
    {
      ComparatorLaws(a, b, orderBy, order);
    }
  }

  /**
   * The rendered rows are a stable permutation of `books`: row i shows
   * books[ps[i]], `ps` uses every position of `books` once, and two records
   * the comparator ties (equal keys, incomparable keys, missing fields) appear
   * in the order they have in `books`.
   */
  lemma SortedBooksIsStablePermutation(books: seq<Record>, orderBy: string, order: Order)
    ensures |RowPositions(books, orderBy, order)| == |books|
    ensures var ps, v := RowPositions(books, orderBy, order), SortedBooks(books, orderBy, order);
      forall i | 0 <= i < |ps| :: ps[i] < |books| && v[i] == books[ps[i]]
    ensures var ps := RowPositions(books, orderBy, order);
      forall i, j | 0 <= i < j < |ps| :: ps[i] != ps[j]
    ensures var ps, v := RowPositions(books, orderBy, order), SortedBooks(books, orderBy, order);
      forall i, j | 0 <= i < j < |ps| :: Compare(v[i], v[j], orderBy, order) == 0 ==> ps[i] < ps[j]
  {
    var cmp := Comparator(orderBy, order);
    assert StableSort.ZeroSymmetric(cmp) by {
      ComparatorZeroSymmetric(orderBy, order);
    }
    StableSort.SortIsStablePermutation(books, cmp);
    var ps, v := RowPositions(books, orderBy, order), SortedBooks(books, orderBy, order);
    forall i, j | 0 <= i < j < |ps| && Compare(v[i], v[j], orderBy, order) == 0
      ensures ps[i] < ps[j]
    {
      assert cmp(v[i], v[j]) == 0;
    }
  }

  /** Records missing the sort field keep their relative order among themselves. */
  lemma MissingFieldsKeepOrder(books: seq<Record>, orderBy: string, order: Order)
    ensures var ps, v := RowPositions(books, orderBy, order), SortedBooks(books, orderBy, order);
      forall i, j | 0 <= i < j < |v| && orderBy !in v[i] && orderBy !in v[j] :: ps[i] < ps[j]
  {
    SortedBooksIsStablePermutation(books, orderBy, order);
    var v := SortedBooks(books, orderBy, order);
    forall i, j | 0 <= i < j < |v| && orderBy !in v[i]
      ensures Compare(v[i], v[j], orderBy, order) == 0
    {
      ComparatorLaws(v[i], v[j], orderBy, order);
    }
  }

  /** Every record holds a number in the column. */
  predicate NumericColumn(books: seq<Record>, orderBy: string) {
    forall r | r in books :: Field(r, orderBy).Num?
  }

  /** Every record holds a string or a list of strings in the column. */
  predicate TextColumn(books: seq<Record>, orderBy: string) {
    forall r | r in books :: IsText(Field(r, orderBy))
  }

  /** The kind of key a column holds throughout: numbers, or text. */
  predicate ComparableKey(r: Record, orderBy: string, numeric: bool) {
    if numeric then Field(r, orderBy).Num? else IsText(Field(r, orderBy))
  }

  lemma ComparatorIsTotalPreorder(orderBy: string, order: Order, numeric: bool)
    ensures StableSort.TotalPreorderOn(Comparator(orderBy, order), (r: Record) => ComparableKey(r, orderBy, numeric))
  {
    var cmp := Comparator(orderBy, order);
    var ok := (r: Record) => ComparableKey(r, orderBy, numeric);
    forall a: Record, b: Record | ok(a) && ok(b)
      ensures cmp(a, b) <= 0 || cmp(b, a) <= 0
    {
      ComparatorLaws(a, b, orderBy, order);
    }
    forall a: Record, b: Record, c: Record | ok(a) && ok(b) && ok(c) && cmp(a, b) <= 0 && cmp(b, c) <= 0
      ensures cmp(a, c) <= 0
    {
      var x, y, z := Field(a, orderBy), Field(b, orderBy), Field(c, orderBy);
      LessAsymmetric(x, y);
      LessAsymmetric(y, z);
      LessAsymmetric(x, z);
      if order == Asc {
        LessNegativelyTransitive(x, y, z);
      } else {
        LessNegativelyTransitive(z, y, x);
      }
    }
  }

  /**
   * When every record holds a number in the column, or every record holds
   * text, the rendered rows are non-decreasing on it for Asc (no later key is
   * `<` an earlier one) and non-increasing for Desc.
   */
  lemma SortedBooksOrdered(books: seq<Record>, orderBy: string, order: Order)
    requires NumericColumn(books, orderBy) || TextColumn(books, orderBy)
    ensures var v := SortedBooks(books, orderBy, order);
      forall i, j | 0 <= i < j < |v| ::
        if order == Asc then !Less(Field(v[j], orderBy), Field(v[i], orderBy))
        else !Less(Field(v[i], orderBy), Field(v[j], orderBy))
  {
    var numeric := NumericColumn(books, orderBy);
    var ok := (r: Record) => ComparableKey(r, orderBy, numeric);
    ComparatorIsTotalPreorder(orderBy, order, numeric);
    StableSort.SortSorted(books, Comparator(orderBy, order), ok);
    var v := SortedBooks(books, orderBy, order);
    forall i, j | 0 <= i < j < |v|
      ensures if order == Asc then !Less(Field(v[j], orderBy), Field(v[i], orderBy))
              else !Less(Field(v[i], orderBy), Field(v[j], orderBy))
    {
      assert Comparator(orderBy, order)(v[i], v[j]) <= 0;
      LessAsymmetric(Field(v[i], orderBy), Field(v[j], orderBy));
    }
  }

  /** On a numeric column such as first_publish_year the keys ascend, or descend. */
  lemma NumericColumnSorted(books: seq<Record>, orderBy: string, order: Order)
    requires NumericColumn(books, orderBy)
    ensures var v := SortedBooks(books, orderBy, order);
      forall i | 0 <= i < |v| :: Field(v[i], orderBy).Num?
    ensures var v := SortedBooks(books, orderBy, order);
      forall i, j | 0 <= i < j < |v| ::
        if order == Asc then Field(v[i], orderBy).n <= Field(v[j], orderBy).n
        else Field(v[i], orderBy).n >= Field(v[j], orderBy).n
  {
    SortedBooksOrdered(books, orderBy, order);
    var v := SortedBooks(books, orderBy, order);
    forall i | 0 <= i < |v|
      ensures Field(v[i], orderBy).Num?
    {
      assert v[i] in multiset(books);
    }
  }

  function Book(title: string): Record {
    map["title" := Str(title)]
  }

  lemma TitleCompare(x: string, y: string)
    requires StrLess(x, y)
    ensures Compare(Book(x), Book(y), "title", Asc) == -1 && Compare(Book(y), Book(x), "title", Asc) == 1
    ensures Compare(Book(x), Book(y), "title", Desc) == 1 && Compare(Book(y), Book(x), "title", Desc) == -1
  {
    assert Field(Book(x), "title") == Str(x) && Field(Book(y), "title") == Str(y);
    StrLessAsymmetric(x, y);
  }

  /** Titles B, A, C sort to A, B, C ascending. */
  lemma TitleExampleAsc()
    ensures SortedBooks([Book("B"), Book("A"), Book("C")], "title", Asc) == [Book("A"), Book("B"), Book("C")]
  {
    var a, b, c := Book("A"), Book("B"), Book("C");
    var up := Comparator("title", Asc);
    TitleCompare("A", "B");
    TitleCompare("B", "C");
    assert up(b, a) > 0 && up(b, c) <= 0;
    StableSort.SortPair(b, a, up);
    StableSort.SortTriple(b, a, c, up);
    StableSort.InsertIntoPair(a, b, c, up);
  }

  /** Titles B, A, C sort to C, B, A descending. */
  lemma TitleExampleDesc()
    ensures SortedBooks([Book("B"), Book("A"), Book("C")], "title", Desc) == [Book("C"), Book("B"), Book("A")]
  {
    var a, b, c := Book("A"), Book("B"), Book("C");
    var down := Comparator("title", Desc);
    TitleCompare("A", "B");
    TitleCompare("B", "C");
    TitleCompare("A", "C");
    assert down(b, a) <= 0 && down(a, c) > 0 && down(b, c) > 0;
    StableSort.SortPair(b, a, down);
    StableSort.SortTriple(b, a, c, down);
    StableSort.InsertIntoPair(b, a, c, down);
  }

  /**
   * Row 0 of the table sorted by title shows book "A", while books[0], the
   * record that editing or saving index 0 reads and writes, is book "B".
   */
  lemma RenderedRowIsNotBooksAtSameIndex()
    ensures SortedBooks([Book("B"), Book("A")], "title", Asc)[0] == Book("A")
    ensures [Book("B"), Book("A")][0] == Book("B") != Book("A")
  {
    var up := Comparator("title", Asc);
    TitleCompare("A", "B");
    assert up(Book("B"), Book("A")) > 0;
    StableSort.SortPair(Book("B"), Book("A"), up);
    assert Book("B")["title"] != Book("A")["title"];
  }
}
