/**
 * The in-memory catalog and reservation ledger of the library backend:
 * a fixed array of book records whose copy counters are updated in place,
 * and an append-only list of reservations.
 */
module DataService {
  import opened Wrappers
  import opened Text

  /**
   * A catalog record. `available` is the field the reservation handler
   * tests; the catalog's own records never carry it (it is `undefined`).
   */
  datatype Book = Book(
    bookId: string,
    title: string,
    author: string,
    copiesAvailable: int,
    location: string,
    category: string,
    available: Option<int>)

  /** A ledger entry, as the reservation handler builds it. */
  datatype Reservation = Reservation(
    reservationId: string,
    bookId: string,
    title: string,
    studentId: string,
    studentName: string,
    studentEmail: string,
    timestamp: string,
    status: string)

  /** What the store did, in order: the trail used to state the order of effects. */
  datatype Effect = LedgerAppend(reservationId: string) | CopyDecrement(bookId: string, applied: bool)

  /** The five records the store starts with. */
  const MockBooks: seq<Book> := [
    Book("B001", "Programming in C", "Dennis Ritchie", 5, "2nd Floor - Section A", "Programming", None),
    Book("B002", "Data Structures and Algorithms", "Robert Sedgewick", 3, "2nd Floor - Section A", "Computer Science", None),
    Book("B003", "Introduction to Database Systems", "C.J. Date", 4, "2nd Floor - Section B", "Database", None),
    Book("B004", "Computer Networks", "Andrew Tanenbaum", 5, "2nd Floor - Section B", "Networking", None),
    Book("B005", "Artificial Intelligence", "Stuart Russell", 7, "3rd Floor - Section C", "AI/ML", None)
  ]

  /** No copy counter is negative. */
  ghost predicate NonNegative(books: seq<Book>) {
    forall i :: 0 <= i < |books| ==> books[i].copiesAvailable >= 0
  }

  /** No record carries the `available` field. */
  ghost predicate LacksAvailableField(books: seq<Book>) {
    forall i :: 0 <= i < |books| ==> books[i].available.None?
  }

  lemma MockBooksWellFormed()
    ensures NonNegative(MockBooks) && LacksAvailableField(MockBooks)
    ensures forall i, j :: 0 <= i < j < |MockBooks| ==> MockBooks[i].bookId != MockBooks[j].bookId
  {
  }

  // ---------------------------------------------------------------------
  // Search: the `filter` of findBooksByQuery

  /**
   * The filter predicate for a lowered search term: substring match on
   * title, author or category, exact match on the id, each on the lowered field.
   */
  function Matches(term: string, b: Book): (r: bool)
    ensures b.bookId != "" && Lower(b.bookId) == term ==> r
    ensures term == "" ==> (r <==> b.title != "" || b.author != "" || b.category != "")
    ensures b.title == "" && b.author == "" && b.bookId == "" && b.category == "" ==> !r
  {
    || (b.title != "" && Includes(Lower(b.title), term))
    || (b.author != "" && Includes(Lower(b.author), term))
    || (b.bookId != "" && Lower(b.bookId) == term)
    || (b.category != "" && Includes(Lower(b.category), term))
  }

  /** The filter predicate of a search for the lowered term `term`. */
  function Matcher(term: string): Book -> bool {
    b => Matches(term, b)
  }

  /** `s.filter(keep)`: the elements that satisfy `keep`, in their order. */
  function Filter<T(!new)>(s: seq<T>, keep: T -> bool): (r: seq<T>)
    ensures |r| <= |s|
    ensures forall x :: x in r <==> x in s && keep(x)
  {
    if s == [] then []
    else if keep(s[0]) then [s[0]] + Filter(s[1..], keep)
    else Filter(s[1..], keep)
  }

  /**
   * `r` is the order-preserving selection of the elements of `s` that satisfy
   * `keep`: `idx` lists, in increasing order, exactly the positions of `s`
   * whose element satisfies `keep`, and `r` holds the elements at those positions.
   */
  ghost predicate SelectedInOrder<T(!new)>(r: seq<T>, s: seq<T>, idx: seq<int>, keep: T -> bool) {
    && |idx| == |r|
    && (forall k :: 0 <= k < |idx| ==> 0 <= idx[k] < |s| && r[k] == s[idx[k]])
    && (forall k, l :: 0 <= k < l < |idx| ==> idx[k] < idx[l])
    && (forall j :: 0 <= j < |s| ==> (keep(s[j]) <==> j in idx))
  }

  /** Every position moved one place to the right. */
  function Shift(idx: seq<int>): (r: seq<int>)
    ensures |r| == |idx| && forall k :: 0 <= k < |idx| ==> r[k] == idx[k] + 1
  {
    seq(|idx|, k requires 0 <= k < |idx| => idx[k] + 1)
  }

  lemma ShiftMembers(it: seq<int>, n: int)
    requires forall k :: 0 <= k < |it| ==> 0 <= it[k]
    ensures 0 !in Shift(it)
    ensures n >= 1 ==> (n in Shift(it) <==> n - 1 in it)
  {
    var shifted := Shift(it);
    if n >= 1 && n - 1 in it {
      var k :| 0 <= k < |it| && it[k] == n - 1;
      assert shifted[k] == n;
    }
  }

  /** The tail's selected positions, shifted, are the selected positions of the whole sequence past the head. */
  lemma ShiftedSelection<T(!new)>(s: seq<T>, rt: seq<T>, it: seq<int>, keep: T -> bool)
    requires s != [] && SelectedInOrder(rt, s[1..], it, keep)
    ensures |Shift(it)| == |rt| && 0 !in Shift(it)
    ensures forall j :: 1 <= j < |s| ==> (keep(s[j]) <==> j in Shift(it))
    ensures forall k :: 0 <= k < |it| ==> 1 <= Shift(it)[k] < |s| && rt[k] == s[Shift(it)[k]]
    ensures forall k, l :: 0 <= k < l < |it| ==> Shift(it)[k] < Shift(it)[l]
  {
    ShiftMembers(it, 0);
    forall j | 1 <= j < |s| ensures keep(s[j]) <==> j in Shift(it) {
      ShiftMembers(it, j);
      assert s[1..][j - 1] == s[j];
    }
  }

  /** The head is not selected: the tail's selection, shifted, selects from the whole sequence. */
  lemma SelectionSkip<T(!new)>(s: seq<T>, rt: seq<T>, it: seq<int>, keep: T -> bool)
    requires s != [] && !keep(s[0]) && SelectedInOrder(rt, s[1..], it, keep)
    ensures SelectedInOrder(rt, s, Shift(it), keep)
  {
    ShiftedSelection(s, rt, it, keep);
  }

  /** The head is selected: it comes first, followed by the selection `sh` from the rest. */
  lemma SelectionTake<T(!new)>(s: seq<T>, rt: seq<T>, sh: seq<int>, keep: T -> bool)
    requires s != [] && keep(s[0])
    requires |sh| == |rt| && 0 !in sh
    requires forall j :: 1 <= j < |s| ==> (keep(s[j]) <==> j in sh)
    requires forall k :: 0 <= k < |sh| ==> 1 <= sh[k] < |s| && rt[k] == s[sh[k]]
    requires forall k, l :: 0 <= k < l < |sh| ==> sh[k] < sh[l]
    ensures SelectedInOrder([s[0]] + rt, s, [0] + sh, keep)
  {
    var idx, r := [0] + sh, [s[0]] + rt;
    forall k | 0 <= k < |idx| ensures 0 <= idx[k] < |s| && r[k] == s[idx[k]] {
      if k > 0 {
        assert idx[k] == sh[k - 1] && r[k] == rt[k - 1];
      }
    }
    forall j | 0 <= j < |s| ensures keep(s[j]) <==> j in idx {
      assert j in idx <==> j == 0 || j in sh;
    }
  }

  lemma {:induction false} FilterInOrder<T(!new)>(s: seq<T>, keep: T -> bool)
    ensures exists idx :: SelectedInOrder(Filter(s, keep), s, idx, keep)
  {
    if s == [] {
      assert Filter(s, keep) == [];
      assert SelectedInOrder([], s, [], keep);
    } else {
      FilterInOrder(s[1..], keep);
      var rt := Filter(s[1..], keep);
      var it :| SelectedInOrder(rt, s[1..], it, keep);
      if keep(s[0]) {
        ShiftedSelection(s, rt, it, keep);
        SelectionTake(s, rt, Shift(it), keep);
        assert Filter(s, keep) == [s[0]] + rt;
        assert SelectedInOrder(Filter(s, keep), s, [0] + Shift(it), keep);
      } else {
        SelectionSkip(s, rt, it, keep);
        assert Filter(s, keep) == rt;
        assert SelectedInOrder(Filter(s, keep), s, Shift(it), keep);
      }
    }
  }

  /** `findBooksByQuery(q)` over the catalog `books`: nothing for a missing or empty query. */
  function SearchCatalog(q: Option<string>, books: seq<Book>): (r: seq<Book>)
    ensures q.None? || q.value == "" ==> r == []
    ensures q.Some? && q.value != "" ==>
      forall b :: b in r <==> b in books && Matches(Lower(q.value), b)
  {
    if q.None? || q.value == "" then [] else Filter(books, Matcher(Lower(q.value)))
  }

  /** For a non-empty query, the search result is the order-preserving selection of the matching books. */
  lemma SearchCatalogInOrder(q: string, books: seq<Book>)
    requires q != ""
    ensures exists idx :: SelectedInOrder(SearchCatalog(Some(q), books), books, idx, Matcher(Lower(q)))
  {
    FilterInOrder(books, Matcher(Lower(q)));
    assert SearchCatalog(Some(q), books) == Filter(books, Matcher(Lower(q)));
  }

  /** The query's case does not matter: a query and its lowered form find the same books. */
  lemma SearchIgnoresQueryCase(q: string, books: seq<Book>)
    ensures SearchCatalog(Some(q), books) == SearchCatalog(Some(Lower(q)), books)
  {
    LowerIdempotent(q);
  }

  /**
   * A record that shows only its id is found by a query exactly when the
   * query equals the whole id up to case: the id is compared, not searched.
   */
  lemma IdMatchesOnlyWhole(b: Book, q: string)
    requires b.title == "" && b.author == "" && b.category == "" && q != ""
    ensures b in SearchCatalog(Some(q), [b]) <==> b.bookId != "" && Lower(b.bookId) == Lower(q)
  {
  }

  /** An instance: `B001` is found by `b001` but not by `B00`. */
  lemma IdMatchesOnlyWholeInstance()
    ensures var b := Book("B001", "", "", 1, "", "", None);
      && SearchCatalog(Some("b001"), [b]) == [b]
      && SearchCatalog(Some("B00"), [b]) == []
  {
    var b := Book("B001", "", "", 1, "", "", None);
    assert Lower("B001") == "b001";
    assert Lower("B00") == "b00";
    assert Matches("b001", b) && !Matches("b00", b);
    assert Filter([b], Matcher("b001")) == [b];
    assert Filter([b], Matcher("b00")) == [];
  }

  // ---------------------------------------------------------------------
  // Lookup by id: the `find` of getBookById and decrementCopy

  /** Position of the first record whose id equals `id` exactly, if any. */
  function IndexOfId(books: seq<Book>, id: string): (r: Option<nat>)
    ensures r.Some? ==> r.value < |books| && books[r.value].bookId == id
    ensures r.Some? ==> forall j :: 0 <= j < r.value ==> books[j].bookId != id
    ensures r.None? <==> forall j :: 0 <= j < |books| ==> books[j].bookId != id
  {
    if books == [] then None
    else if books[0].bookId == id then Some(0)
    else match IndexOfId(books[1..], id)
      case None => None
      case Some(k) => Some(k + 1)
  }

  /** `books.find(book => book.bookId === id)`: the first record with that exact id. */
  function FindById(books: seq<Book>, id: string): (r: Option<Book>)
    ensures r.None? <==> forall b :: b in books ==> b.bookId != id
    ensures r.Some? ==> r.value.bookId == id && exists i :: (0 <= i < |books| && books[i] == r.value &&
      forall j :: 0 <= j < i ==> books[j].bookId != id)
  {
    match IndexOfId(books, id)
    case None => None
    case Some(i) => Some(books[i])
  }

  // ---------------------------------------------------------------------
  // decrementCopy as a function of the catalog

  /** decrementCopy succeeds: the first record with the id exists and has a copy left. */
  function CanDecrement(books: seq<Book>, id: string): (r: bool)
    ensures r <==> exists i :: 0 <= i < |books| && books[i].bookId == id && books[i].copiesAvailable > 0 &&
                              (forall j :: 0 <= j < i ==> books[j].bookId != id)
  {
    match IndexOfId(books, id)
    case None => false
    case Some(i) => books[i].copiesAvailable > 0
  }

  /** decrementCopy once the record at index `i` is found: take a copy if one is left. */
  function DecrementAt(books: seq<Book>, i: nat): (r: seq<Book>)
    requires i < |books|
    ensures |r| == |books|
    ensures r[i] == books[i].(copiesAvailable := if books[i].copiesAvailable > 0 then books[i].copiesAvailable - 1
                                                 else books[i].copiesAvailable)
    ensures forall j :: 0 <= j < |books| && j != i ==> r[j] == books[j]
  {
    if books[i].copiesAvailable > 0
    then books[i := books[i].(copiesAvailable := books[i].copiesAvailable - 1)]
    else books
  }

  /** The catalog after decrementCopy(id). */
  function AfterDecrement(books: seq<Book>, id: string): (r: seq<Book>)
    ensures |r| == |books|
    ensures r == books <==> !CanDecrement(books, id)
  {
    match IndexOfId(books, id)
    case Some(i) => DecrementAt(books, i)
    case None => books
  }

  /** A successful decrement lowers exactly the first matching record's count by one and changes nothing else. */
  lemma DecrementLowersByOne(books: seq<Book>, id: string)
    requires CanDecrement(books, id)
    ensures var i := IndexOfId(books, id).value;
      var r := AfterDecrement(books, id);
      && |r| == |books|
      && r[i].copiesAvailable == books[i].copiesAvailable - 1
      && r[i] == books[i].(copiesAvailable := r[i].copiesAvailable)
      && forall j :: 0 <= j < |books| && j != i ==> r[j] == books[j]
  {
  }

  /** An unknown id or an exhausted record leaves the catalog as it was. */
  lemma DecrementRefusedLeavesCatalog(books: seq<Book>, id: string)
    requires !CanDecrement(books, id)
    ensures AfterDecrement(books, id) == books
    ensures (forall j :: 0 <= j < |books| ==> books[j].bookId != id) ||
      exists i :: 0 <= i < |books| && books[i].bookId == id && books[i].copiesAvailable <= 0
  {
  }

  /** Decrementing keeps every count non-negative, and keeps ids, length and `available` fields. */
  lemma DecrementKeepsInvariants(books: seq<Book>, id: string)
    ensures var r := AfterDecrement(books, id);
      && |r| == |books|
      && (NonNegative(books) ==> NonNegative(r))
      && (LacksAvailableField(books) ==> LacksAvailableField(r))
      && forall j :: 0 <= j < |books| ==> r[j].bookId == books[j].bookId && r[j].title == books[j].title
  {
  }

  /** Decrementing never changes where an id is found. */
  lemma DecrementKeepsIndex(books: seq<Book>, id: string, other: string)
    ensures IndexOfId(AfterDecrement(books, id), other) == IndexOfId(books, other)
  {
    var r := AfterDecrement(books, id);
    assert forall j :: 0 <= j < |books| ==> r[j].bookId == books[j].bookId;
    IndexOfIdDependsOnIds(books, r, other);
  }

  lemma {:induction false} IndexOfIdDependsOnIds(a: seq<Book>, b: seq<Book>, id: string)
    requires |a| == |b| && forall j :: 0 <= j < |a| ==> a[j].bookId == b[j].bookId
    ensures IndexOfId(a, id) == IndexOfId(b, id)
  {
    if a != [] && a[0].bookId != id {
      IndexOfIdDependsOnIds(a[1..], b[1..], id);
    }
  }

  /** The record at index `i` after `m` calls of decrementCopy on its id. */
  function Decremented(books: seq<Book>, i: nat, m: nat): (r: seq<Book>)
    requires i < |books|
    ensures |r| == |books|
    decreases m
  {
    if m == 0 then books else DecrementAt(Decremented(books, i, m - 1), i)
  }

  /** How many of those `m` calls return true. */
  function Successes(books: seq<Book>, i: nat, m: nat): nat
    requires i < |books|
    decreases m
  {
    if m == 0 then 0
    else Successes(books, i, m - 1) + if Decremented(books, i, m - 1)[i].copiesAvailable > 0 then 1 else 0
  }

  /**
   * For a record holding `k >= 0` copies, `m` decrements in sequence
   * succeed exactly `min(k, m)` times and leave `max(0, k - m)` copies;
   * the record's other fields and every other record are untouched.
   */
  lemma {:induction false} RepeatDecrementCounts(books: seq<Book>, i: nat, m: nat)
    requires i < |books| && books[i].copiesAvailable >= 0
    ensures var k := books[i].copiesAvailable;
      && Successes(books, i, m) == (if k < m then k else m)
      && Decremented(books, i, m)[i] == books[i].(copiesAvailable := if k < m then 0 else k - m)
      && forall j :: 0 <= j < |books| && j != i ==> Decremented(books, i, m)[j] == books[j]
    decreases m
  {
    if m > 0 {
      RepeatDecrementCounts(books, i, m - 1);
    }
  }

  /**
   * Repeated calls of decrementCopy(id) keep finding the record at the same
   * index, so each of them is `DecrementAt` that index and succeeds iff it
   * still has a copy.
   */
  lemma {:induction false} RepeatedCallsDecrementAt(books: seq<Book>, id: string, i: nat, m: nat)
    requires IndexOfId(books, id) == Some(i)
    ensures IndexOfId(Decremented(books, i, m), id) == Some(i)
    ensures AfterDecrement(Decremented(books, i, m), id) == Decremented(books, i, m + 1)
    ensures CanDecrement(Decremented(books, i, m), id) <==> Decremented(books, i, m)[i].copiesAvailable > 0
    decreases m
  {
    if m > 0 {
      RepeatedCallsDecrementAt(books, id, i, m - 1);
      DecrementKeepsIndex(Decremented(books, i, m - 1), id, id);
    }
  }

  // ---------------------------------------------------------------------
  // The store itself

  /**
   * The module-level state: `catalog` is the constant array `mockBooks`
   * whose records are updated in place, `reservations` is `mockReservations`.
   */
  class Store {
    const catalog: array<Book>
    var reservations: seq<Reservation>
    ghost var effects: seq<Effect>

    ghost predicate Valid()
      reads this, catalog
    {
      NonNegative(catalog[..])
    }

    /** The state at module load: the five mock records and an empty ledger. */
    constructor ()
      ensures Valid() && fresh(catalog)
      ensures catalog[..] == MockBooks && reservations == [] && effects == []
    {
      catalog := new Book[|MockBooks|](i requires 0 <= i < |MockBooks| => MockBooks[i]);
      reservations := [];
      effects := [];
      new;
      assert catalog[..] == MockBooks;
      MockBooksWellFormed();
    }

    /** readBooks: the live catalog itself, so later decrements show through it. */
    method ReadBooks() returns (books: array<Book>)
      ensures books == catalog
    {
      books := catalog;
    }

    /** findBooksByQuery over the live catalog. */
    method FindBooksByQuery(q: Option<string>) returns (r: seq<Book>)
      ensures r == SearchCatalog(q, catalog[..])
    {
      if q.None? || q.value == "" {
        return [];
      }
      var books := ReadBooks();
      var term := Lower(q.value);
      r := Filter(books[..], Matcher(term));
    }

    /** getBookById over the live catalog. */
    method GetBookById(bookId: string) returns (r: Option<Book>)
      ensures r == FindById(catalog[..], bookId)
    {
      var books := ReadBooks();
      r := FindById(books[..], bookId);
    }

    /** decrementCopy: take one copy from the first record with the id, if it has one. */
    method DecrementCopy(bookId: string) returns (ok: bool)
      requires Valid()
      modifies catalog, this`effects
      ensures Valid()
      ensures ok == CanDecrement(old(catalog[..]), bookId)
      ensures catalog[..] == AfterDecrement(old(catalog[..]), bookId)
      ensures effects == old(effects) + [CopyDecrement(bookId, ok)]
    {
      DecrementKeepsInvariants(catalog[..], bookId);
      var found := IndexOfId(catalog[..], bookId);
      if found.Some? && catalog[found.value].copiesAvailable > 0 {
        var i := found.value;
        catalog[i] := catalog[i].(copiesAvailable := catalog[i].copiesAvailable - 1);
        ok := true;
      } else {
        ok := false;
      }
      effects := effects + [CopyDecrement(bookId, ok)];
    }

    /** logReservation: append the entry with its timestamp replaced by `now`; always true. */
    method LogReservation(data: Reservation, now: string) returns (ok: bool)
      requires Valid()
      modifies this`reservations, this`effects
      ensures Valid()
      ensures ok
      ensures reservations == old(reservations) + [data.(timestamp := now)]
      ensures effects == old(effects) + [LedgerAppend(data.reservationId)]
    {
      reservations := reservations + [data.(timestamp := now)];
      effects := effects + [LedgerAppend(data.reservationId)];
      ok := true;
    }

    /** getReservations: the ledger's current entries. */
    method GetReservations() returns (r: seq<Reservation>)
      ensures r == reservations
    {
      r := reservations;
    }

    /** writeBooks: accepts anything, stores nothing, reports success. */
    method WriteBooks(books: seq<Book>) returns (ok: bool)
      ensures ok
    {
      ok := true;
    }
  }
}
