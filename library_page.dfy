/**
 * The library page: the count of rated books, the empty state, and the
 * split of the library into the books of each cabinet and the books that no
 * cabinet holds.
 */
module LibraryPage {
  import opened Types
  import opened Seqs
  import opened LibraryMerge
  import opened KeyedIndex

  // ---------------------------------------------------------------------
  // Resolving a cabinet's book ids
  // ---------------------------------------------------------------------

  /** The entry at `i` is the last one of `library` with book id `id`. */
  ghost predicate LastWith(library: seq<LibraryBook>, i: int, id: string) {
    && 0 <= i < |library|
    && library[i].book.id == id
    && forall j :: i < j < |library| ==> library[j].book.id != id
  }

  /**
   * `bookMap.get(id)` for `bookMap = new Map(library.map((b) => [b.id, b]))`:
   * building the map sets the entries in library order, so the last entry
   * with the id is the one found.
   */
  function Lookup(library: seq<LibraryBook>, id: string): (r: Option<LibraryBook>)
    ensures r.None? <==> id !in Ids(library)
    ensures r.Some? ==> r.value.book.id == id
    ensures r.Some? ==> exists i :: LastWith(library, i, id) && library[i] == r.value
  {
    if library == [] then None
    else
      var init, last := library[..|library| - 1], library[|library| - 1];
      assert library == init + [last];
      KeysAppend(init, [last], BookId);
      if last.book.id == id then
        assert LastWith(library, |library| - 1, id);
        Some(last)
      else
        var r := Lookup(init, id);
        assert r.Some? ==> exists i :: LastWith(library, i, id) && library[i] == r.value by {
          if r.Some? {
            var i :| LastWith(init, i, id) && init[i] == r.value;
            assert LastWith(library, i, id);
          }
        }
        r
  }

  /** With one entry per id, the last entry with a book's id is that book's entry. */
  lemma LastIsOnly(library: seq<LibraryBook>, i: int, k: int)
    requires Distinct(Ids(library))
    requires 0 <= i < |library|
    requires LastWith(library, k, library[i].book.id)
    ensures k == i
  {
    assert Ids(library)[i] == library[i].book.id && Ids(library)[k] == library[k].book.id;
  }

  /** With one entry per id, the entry found for a book's id is that book's entry. */
  lemma LookupUnique(library: seq<LibraryBook>, i: int)
    requires Distinct(Ids(library))
    requires 0 <= i < |library|
    ensures Lookup(library, library[i].book.id) == Some(library[i])
  {
    var id := library[i].book.id;
    assert Ids(library)[i] == id;
    var r := Lookup(library, id);
    var k :| LastWith(library, k, id) && library[k] == r.value;
    LastIsOnly(library, i, k);
  }

  /**
   * `cabinet.bookIds.map((id) => bookMap.get(id)).filter(Boolean)`: the entry
   * found for each id, in `bookIds` order, dropping ids with no entry.
   */
  function Resolve(library: seq<LibraryBook>, bookIds: seq<string>): (books: seq<LibraryBook>)
    ensures |books| <= |bookIds|
    ensures forall b :: b in books ==> Lookup(library, b.book.id) == Some(b)
    ensures forall b :: b in books ==> b.book.id in bookIds
  {
    if bookIds == [] then []
    else
      var found := Lookup(library, bookIds[0]);
      (if found.Some? then [found.value] else []) + Resolve(library, bookIds[1..])
  }

  /** The ids of `bookIds` that some library entry has, in `bookIds` order. */
  function Known(library: seq<LibraryBook>, bookIds: seq<string>): (ids: seq<string>)
    ensures forall id :: id in ids <==> id in bookIds && id in Ids(library)
  {
    if bookIds == [] then []
    else (if bookIds[0] in Ids(library) then [bookIds[0]] else []) + Known(library, bookIds[1..])
  }

  /**
   * The books of a cabinet are the known ids of the cabinet, in order, each
   * mapped to its (last) library entry.
   */
  lemma {:induction false} ResolveIds(library: seq<LibraryBook>, bookIds: seq<string>)
    ensures Ids(Resolve(library, bookIds)) == Known(library, bookIds)
  {
    if bookIds != [] {
      var found := Lookup(library, bookIds[0]);
      var head := if found.Some? then [found.value] else [];
      ResolveIds(library, bookIds[1..]);
      assert Resolve(library, bookIds) == head + Resolve(library, bookIds[1..]);
      assert Ids(head) == if bookIds[0] in Ids(library) then [bookIds[0]] else [];
      IdsAppend(head, Resolve(library, bookIds[1..]), Known(library, bookIds[1..]));
    }
  }

  /** The ids of `head + rest`, when those of `rest` are `restIds`. */
  lemma IdsAppend(head: seq<LibraryBook>, rest: seq<LibraryBook>, restIds: seq<string>)
    requires Ids(rest) == restIds
    ensures Ids(head + rest) == Ids(head) + restIds
  {
    KeysAppend(head, rest, BookId);
  }

  // ---------------------------------------------------------------------
  // The partition
  // ---------------------------------------------------------------------

  /** `{ ...cabinet, books }`. */
  datatype CabinetView = CabinetView(cabinet: Cabinet, books: seq<LibraryBook>)

  /** `cabinetsWithBooks`: every cabinet, in order, with its resolved books. */
  function Shelved(library: seq<LibraryBook>, cabinets: seq<Cabinet>): (views: seq<CabinetView>)
    ensures |views| == |cabinets|
    ensures forall i :: 0 <= i < |cabinets| ==>
              views[i].cabinet == cabinets[i] && views[i].books == Resolve(library, cabinets[i].bookIds)
  {
    seq(|cabinets|, i requires 0 <= i < |cabinets| => CabinetView(cabinets[i], Resolve(library, cabinets[i].bookIds)))
  }

  /** The ids of some entries, as `forEach((book) => assignedIds.add(book.id))` adds them. */
  function BookIdSet(books: seq<LibraryBook>): (ids: set<string>)
    ensures forall id :: id in ids <==> exists b :: b in books && b.book.id == id
  {
    set b | b in books :: b.book.id
  }

  /** The ids `assignedIds` holds once the first cabinets have been mapped. */
  function Assigned(library: seq<LibraryBook>, cabinets: seq<Cabinet>): set<string>
  {
    if cabinets == [] then {}
    else
      var last := cabinets[|cabinets| - 1];
      Assigned(library, cabinets[..|cabinets| - 1]) + BookIdSet(Resolve(library, last.bookIds))
  }

  /** The ids a cabinet adds to `assignedIds`: the ids it lists that the library has. */
  lemma ResolvedIds(library: seq<LibraryBook>, bookIds: seq<string>, id: string)
    ensures id in BookIdSet(Resolve(library, bookIds)) <==> id in bookIds && id in Ids(library)
  {
    var books := Resolve(library, bookIds);
    ResolveIds(library, bookIds);
    if id in BookIdSet(books) {
      var b :| b in books && b.book.id == id;
      var k :| 0 <= k < |books| && books[k] == b;
      assert Ids(books)[k] == id;
    }
    if id in Known(library, bookIds) {
      var k :| 0 <= k < |Ids(books)| && Ids(books)[k] == id;
      assert books[k] in books;
    }
  }

  /** Some cabinet lists `id`. */
  ghost predicate Listed(cabinets: seq<Cabinet>, id: string) {
    exists i :: 0 <= i < |cabinets| && id in cabinets[i].bookIds
  }

  lemma ListedSnoc(cabinets: seq<Cabinet>, id: string)
    requires cabinets != []
    ensures Listed(cabinets, id) <==>
              Listed(cabinets[..|cabinets| - 1], id) || id in cabinets[|cabinets| - 1].bookIds
  {
    var init := cabinets[..|cabinets| - 1];
    if Listed(cabinets, id) {
      var i :| 0 <= i < |cabinets| && id in cabinets[i].bookIds;
      if i < |init| {
        assert init[i] == cabinets[i];
      }
    }
    if Listed(init, id) {
      var i :| 0 <= i < |init| && id in init[i].bookIds;
      assert cabinets[i] == init[i];
    }
  }

  /** An id is assigned exactly when some cabinet lists it and the library has an entry for it. */
  lemma {:induction false} AssignedAre(library: seq<LibraryBook>, cabinets: seq<Cabinet>, id: string)
    ensures id in Assigned(library, cabinets) <==> id in Ids(library) && Listed(cabinets, id)
  {
    if cabinets != [] {
      var init, last := cabinets[..|cabinets| - 1], cabinets[|cabinets| - 1];
      AssignedAre(library, init, id);
      ResolvedIds(library, last.bookIds, id);
      ListedSnoc(cabinets, id);
    }
  }

  /** `library.filter((book) => !assignedIds.has(book.id))`. */
  function Unassigned(library: seq<LibraryBook>, shelvedIds: set<string>): (r: seq<LibraryBook>)
    ensures forall b :: b in r <==> b in library && b.book.id !in shelvedIds
    ensures multiset(r) <= multiset(library)
  {
    if library == [] then []
    else
      assert library == [library[0]] + library[1..];
      (if library[0].book.id in shelvedIds then [] else [library[0]]) + Unassigned(library[1..], shelvedIds)
  }

  /** The filter keeps library order: it distributes over concatenation. */
  lemma {:induction false} UnassignedAppend(a: seq<LibraryBook>, b: seq<LibraryBook>, shelvedIds: set<string>)
    ensures Unassigned(a + b, shelvedIds) == Unassigned(a, shelvedIds) + Unassigned(b, shelvedIds)
  {
    if a == [] {
      assert a + b == b;
    } else {
      var head := if a[0].book.id in shelvedIds then [] else [a[0]];
      assert (a + b)[0] == a[0];
      assert (a + b)[1..] == a[1..] + b;
      UnassignedAppend(a[1..], b, shelvedIds);
      ConcatAssoc(head, Unassigned(a[1..], shelvedIds), Unassigned(b, shelvedIds));
    }
  }

  /** Mapping one more cabinet adds the ids of its resolved books. */
  lemma AssignedSnoc(library: seq<LibraryBook>, cabinets: seq<Cabinet>, i: int)
    requires 0 <= i < |cabinets|
    ensures Assigned(library, cabinets[..i + 1])
            == Assigned(library, cabinets[..i]) + BookIdSet(Resolve(library, cabinets[i].bookIds))
  {
    assert cabinets[..i + 1][..i] == cabinets[..i] && cabinets[..i + 1][i] == cabinets[i];
  }

  /** Mapping one more cabinet appends its view. */
  lemma ShelvedSnoc(library: seq<LibraryBook>, cabinets: seq<Cabinet>, i: int)
    requires 0 <= i < |cabinets|
    ensures Shelved(library, cabinets[..i + 1])
            == Shelved(library, cabinets[..i]) + [CabinetView(cabinets[i], Resolve(library, cabinets[i].bookIds))]
  {
    var left, right := Shelved(library, cabinets[..i + 1]),
                       Shelved(library, cabinets[..i]) + [CabinetView(cabinets[i], Resolve(library, cabinets[i].bookIds))];
    forall k | 0 <= k < i + 1
      ensures left[k] == right[k]
    {
      assert cabinets[..i + 1][k] == cabinets[k];
      if k < i {
        assert cabinets[..i][k] == cabinets[k];
      }
    }
  }

  /** The `useMemo` body: map the cabinets while collecting `assignedIds`, then filter the library. */
  method Partition(library: seq<LibraryBook>, cabinets: seq<Cabinet>)
    returns (unassignedBooks: seq<LibraryBook>, cabinetsWithBooks: seq<CabinetView>)
    ensures cabinetsWithBooks == Shelved(library, cabinets)
    ensures unassignedBooks == Unassigned(library, Assigned(library, cabinets))
  {
    var assignedIds: set<string> := {};
    cabinetsWithBooks := [];
    for i := 0 to |cabinets|
      invariant assignedIds == Assigned(library, cabinets[..i])
      invariant cabinetsWithBooks == Shelved(library, cabinets[..i])
    {
      var books := Resolve(library, cabinets[i].bookIds);
      AssignedSnoc(library, cabinets, i);
      ShelvedSnoc(library, cabinets, i);
      assignedIds := assignedIds + BookIdSet(books);
      cabinetsWithBooks := cabinetsWithBooks + [CabinetView(cabinets[i], books)];
    }
    assert cabinets[..|cabinets|] == cabinets;
    unassignedBooks := Unassigned(library, assignedIds);
  }

  /** A book listed as unassigned is in no cabinet's books. */
  lemma NeverBoth(library: seq<LibraryBook>, cabinets: seq<Cabinet>, b: LibraryBook, i: int)
    requires b in Unassigned(library, Assigned(library, cabinets))
    requires 0 <= i < |cabinets|
    ensures b !in Shelved(library, cabinets)[i].books
  {
    if b in Resolve(library, cabinets[i].bookIds) {
      AssignedAre(library, cabinets, b.book.id);
      assert false;
    }
  }

  /**
   * With one entry per book id, every library entry is listed as unassigned
   * or among the books of some cabinet.
   */
  lemma EitherPlace(library: seq<LibraryBook>, cabinets: seq<Cabinet>, j: int)
    requires Distinct(Ids(library))
    requires 0 <= j < |library|
    ensures library[j] in Unassigned(library, Assigned(library, cabinets)) ||
            exists i :: 0 <= i < |cabinets| && library[j] in Shelved(library, cabinets)[i].books
  {
    var b := library[j];
    var id := b.book.id;
    AssignedAre(library, cabinets, id);
    if id in Assigned(library, cabinets) {
      var i :| 0 <= i < |cabinets| && id in cabinets[i].bookIds;
      LookupUnique(library, j);
      ResolveIds(library, cabinets[i].bookIds);
      var books := Resolve(library, cabinets[i].bookIds);
      assert id in Known(library, cabinets[i].bookIds);
      var k :| 0 <= k < |Ids(books)| && Ids(books)[k] == id;
      assert Lookup(library, books[k].book.id) == Some(books[k]);
      assert books[k] == b;
      assert b in Shelved(library, cabinets)[i].books;
    }
  }

  // ---------------------------------------------------------------------
  // The page
  // ---------------------------------------------------------------------

  datatype Page =
    | EmptyLibrary
    | Shelves(totalBooks: nat, cabinetsWithBooks: seq<CabinetView>, unassignedBooks: seq<LibraryBook>)

  /** What the library page shows for a library and its cabinets. */
  method Render(library: seq<LibraryBook>, cabinets: seq<Cabinet>) returns (page: Page)
    ensures page.EmptyLibrary? <==> library == []
    ensures page.Shelves? ==> page.totalBooks == |library|
    ensures page.Shelves? ==> page.cabinetsWithBooks == Shelved(library, cabinets)
    ensures page.Shelves? ==> page.unassignedBooks == Unassigned(library, Assigned(library, cabinets))
  {
    var totalBooks := |library|;
    if totalBooks == 0 {
      return EmptyLibrary;
    }
    var unassignedBooks, cabinetsWithBooks := Partition(library, cabinets);
    page := Shelves(totalBooks, cabinetsWithBooks, unassignedBooks);
  }
}
