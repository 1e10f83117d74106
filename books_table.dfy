/**
 * The state of the books table component and its event handlers. Each React
 * state variable is a field; each handler is a method that changes exactly the
 * fields its `setX` calls set (the frame of its `modifies` clause), so every
 * other field keeps its value.
 *
 * The component's own quirks are kept: an edit or save index is a position in
 * `books`, although the rendered rows are `sortedBooks`; every sorted row is
 * rendered, with no paging; a fetch result replaces `books` whenever it
 * arrives; changing the sort does not end an edit; a field change updates
 * `editRow` even when no row is being edited; a save leaves `editRow` as it is.
 */
module BooksTableComponent {
  import opened Wrappers
  import opened JsValue
  import opened SortedView

  /** The arguments of the catalog search call: query text, 1-based page, page size. */
  datatype FetchRequest = FetchRequest(query: string, page: nat, limit: nat)

  class BooksTable {
    var books: seq<Record>
    var page: nat
    var rowsPerPage: nat
    var order: Order
    var orderBy: string
    var searchQuery: string
    var editIdx: int
    var editRow: Record

    /** The initial state of every `useState`. */
    constructor ()
      ensures books == [] && page == 0 && rowsPerPage == 10
      ensures order == Asc && orderBy == "title" && searchQuery == "harry potter"
      ensures editIdx == -1 && editRow == map[]
    {
      books := [];
      page := 0;
      rowsPerPage := 10;
      order := Asc;
      orderBy := "title";
      searchQuery := "harry potter";
      editIdx := -1;
      editRow := map[];
    }

    /**
     * The search the effect issues for the current query state: the catalog
     * numbers its pages from 1, the table from 0.
     */
    function Request(): (r: FetchRequest)
      reads this
      ensures r.query == searchQuery && r.limit == rowsPerPage
      ensures 1 <= r.page && r.page - 1 == page
    {
      FetchRequest(searchQuery, page + 1, rowsPerPage)
    }

    /**
     * A search result arrives: `books` becomes its `docs`, or the empty list
     * when it has none. Nothing else changes; in particular an edit in
     * progress survives, and a late result of an older request is applied too.
     */
    method Receive(docs: Option<seq<Record>>)
      modifies this`books
      ensures books == docs.GetOr([])
    {
      books := docs.GetOr([]);
    }

    /** The rows the table body renders: all of `sortedBooks`, not one page of it. */
    function Rows(): (v: seq<Record>)
      reads this
      ensures |v| == |books|
      ensures multiset(v) == multiset(books)
    {
      SortedBooks(books, orderBy, order)
    }

    /** The total the pagination control shows, which is the number of rendered rows. */
    function Count(): (n: nat)
      reads this
      ensures n == |Rows()|
    {
      |books|
    }

    /**
     * A click on a column header: the column becomes the sort column; the
     * order is Desc exactly when that column was already sorted Asc.
     */
    method HandleSort(property: string)
      modifies this`order, this`orderBy
      ensures orderBy == property
      ensures order == Desc <==> old(orderBy) == property && old(order) == Asc
    {
      var isAsc := orderBy == property && order == Asc;
      order := if isAsc then Desc else Asc;
      orderBy := property;
    }

    /** A page change sets the page and nothing else. */
    method HandleChangePage(newPage: nat)
      modifies this`page
      ensures page == newPage
    {
      page := newPage;
    }

    /** A page-size change sets the size and returns to the first page. */
    method HandleChangeRowsPerPage(n: nat)
      modifies this`rowsPerPage, this`page
      ensures rowsPerPage == n && page == 0
    {
      rowsPerPage := n;
      page := 0;
    }

    /** Typing in the search box sets the query and returns to the first page. */
    method HandleSearchChange(query: string)
      modifies this`searchQuery, this`page
      ensures searchQuery == query && page == 0
    {
      searchQuery := query;
      page := 0;
    }

    /**
     * The edit button of row `idx`: the scratch copy is books[idx] (the
     * unsorted list), replacing any edit already in progress.
     */
    method HandleEdit(idx: nat)
      requires idx < |books|
      modifies this`editIdx, this`editRow
      ensures editIdx == idx && editRow == books[idx]
    {
      editIdx := idx;
      editRow := books[idx];
    }

    /** A keystroke in an edit field: field `name` of the scratch copy becomes the text typed. */
    method HandleEditChange(name: string, value: string)
      modifies this`editRow
      ensures name in editRow && editRow[name] == Str(value)
      ensures editRow.Keys == old(editRow).Keys + {name}
      ensures forall k | k in old(editRow) && k != name :: editRow[k] == old(editRow)[k]
    {
      editRow := editRow[name := Str(value)];
    }

    /**
     * The save button of row `idx`: a copy of `books` with slot `idx` set to
     * the scratch copy replaces `books`, and the edit ends.
     */
    method HandleSave(idx: nat)
      requires idx < |books|
      modifies this`books, this`editIdx
      ensures |books| == |old(books)|
      ensures books[idx] == editRow
      ensures forall i | 0 <= i < |books| && i != idx :: books[i] == old(books)[i]
      ensures editIdx == -1
    {
      var updated := books;
      updated := updated[idx := editRow];
      books := updated;
      editIdx := -1;
    }
  }

  /** Two clicks on a column that is not the sort column sort it Asc, then Desc. */
  method SortNewColumnTwice(t: BooksTable, column: string)
    requires t.orderBy != column
    modifies t
    ensures t.orderBy == column && t.order == Desc
  {
    t.HandleSort(column);
    assert t.order == Asc;
    t.HandleSort(column);
  }

  /** A click on the sort column reverses the order; a second click restores it. */
  method SortSameColumnTwice(t: BooksTable)
    modifies t
    ensures t.orderBy == old(t.orderBy) && t.order == old(t.order)
  {
    var column := t.orderBy;
    t.HandleSort(column);
    assert t.order != old(t.order);
    t.HandleSort(column);
  }

  /** Saving a second time with the same scratch copy leaves `books` as the first save left it. */
  method SaveTwice(t: BooksTable, idx: nat)
    requires idx < |t.books|
    modifies t
    ensures t.books == old(t.books)[idx := old(t.editRow)]
    ensures t.editIdx == -1 && t.editRow == old(t.editRow)
  {
    t.HandleSave(idx);
    assert t.books == old(t.books)[idx := old(t.editRow)];
    t.HandleSave(idx);
  }

  /** Starting an edit of row 0 while row 1 is being edited discards row 1's scratch copy. */
  method EditRestarted(t: BooksTable)
    requires 2 <= |t.books|
    modifies t
    ensures t.books == old(t.books) && t.editIdx == 0 && t.editRow == old(t.books)[0]
  {
    t.HandleEdit(1);
    t.HandleEdit(0);
  }

  /**
   * Neither a sort change nor a fetch result ends an edit in progress, and the
   * save still writes the scratch copy to the same slot of the new `books`.
   */
  method EditSurvivesSortAndFetch(t: BooksTable, idx: nat, column: string, docs: seq<Record>)
    requires idx < |t.books| && idx < |docs|
    modifies t
    ensures t.books == docs[idx := old(t.books)[idx]]
    ensures t.editIdx == -1
  {
    t.HandleEdit(idx);
    t.HandleSort(column);
    t.Receive(Some(docs));
    assert t.editIdx == idx;
    t.HandleSave(idx);
  }

  /** A failed search, or one without docs, leaves an empty table whose total is 0. */
  method FailedFetchEmptiesTable(t: BooksTable)
    modifies t
    ensures t.Rows() == [] && t.Count() == 0
  {
    t.Receive(None);
  }
}
