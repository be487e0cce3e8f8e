/**
 * The library store of a session: the rated books and the cabinets, with the
 * operations the pages call on them. Each operation is the pure transform
 * it applies to the previous state (a `map`, a `filter` or a replacement in
 * place), and the `Store` class updates its two fields with those
 * transforms.
 */
module LibraryStore {
  import opened Types
  import opened Seqs
  import opened KeyedIndex
  import opened LibraryMerge

  // ---------------------------------------------------------------------
  // isBookInLibrary and addToLibrary
  // ---------------------------------------------------------------------

  /** `library.some((b) => b.id === bookId)`. */
  function Contains(library: seq<LibraryBook>, bookId: string): (r: bool)
    ensures r <==> exists i :: 0 <= i < |library| && library[i].book.id == bookId
    ensures r <==> bookId in Ids(library)
  {
    if library == [] then false
    else library[0].book.id == bookId || Contains(library[1..], bookId)
  }

  /** `library.findIndex((b) => b.id === bookId)`: the first index with that id, or -1. */
  function FindIndex(library: seq<LibraryBook>, bookId: string): (r: int)
    ensures -1 <= r < |library|
    ensures r == -1 <==> !Contains(library, bookId)
    ensures 0 <= r ==> library[r].book.id == bookId
    ensures 0 <= r ==> forall j :: 0 <= j < r ==> library[j].book.id != bookId
  {
    if library == [] then -1
    else if library[0].book.id == bookId then 0
    else
      var k := FindIndex(library[1..], bookId);
      if k == -1 then -1 else k + 1
  }

  /** The entry `addToLibrary` stores: the catalog book, read now, with the given rating and no sheet. */
  function RatedEntry(book: Book, rating: int, now: int): LibraryBook {
    LibraryBook(book, Some(rating), Some(now), Read, None)
  }

  /**
   * The library after `addToLibrary(book, rating)`: the first entry with the
   * book's id is replaced in place, or the new entry is appended when the id
   * is absent.
   */
  function WithRating(library: seq<LibraryBook>, book: Book, rating: int, now: int): (r: seq<LibraryBook>)
    ensures Contains(library, book.id) ==>
              exists i :: && 0 <= i < |library|
                          && library[i].book.id == book.id
                          && (forall j :: 0 <= j < i ==> library[j].book.id != book.id)
                          && r == library[i := RatedEntry(book, rating, now)]
    ensures !Contains(library, book.id) ==> r == library + [RatedEntry(book, rating, now)]
  {
    var i := FindIndex(library, book.id);
    if i >= 0 then library[i := RatedEntry(book, rating, now)] else library + [RatedEntry(book, rating, now)]
  }

  /**
   * Adding keeps the id order, appending the id when it was absent, so the
   * length grows by one exactly then, and the book is present afterwards.
   */
  lemma WithRatingIds(library: seq<LibraryBook>, book: Book, rating: int, now: int)
    ensures Ids(WithRating(library, book, rating, now))
            == if Contains(library, book.id) then Ids(library) else Ids(library) + [book.id]
    ensures |WithRating(library, book, rating, now)| == |library| + 1 <==> !Contains(library, book.id)
    ensures Contains(WithRating(library, book, rating, now), book.id)
  {
    var r := WithRating(library, book, rating, now);
    if Contains(library, book.id) {
      assert Ids(r) == Ids(library);
    } else {
      KeysAppend(library, [RatedEntry(book, rating, now)], BookId);
      assert Ids(r) == Ids(library) + [book.id];
    }
  }

  /**
   * With unique ids, adding keeps them unique, and the only entry for the
   * book afterwards is the new one, without any earlier reading sheet.
   */
  lemma WithRatingUnique(library: seq<LibraryBook>, book: Book, rating: int, now: int)
    requires Distinct(Ids(library))
    ensures Distinct(Ids(WithRating(library, book, rating, now)))
    ensures forall e :: e in WithRating(library, book, rating, now) && e.book.id == book.id ==>
              e == RatedEntry(book, rating, now)
  {
    var r := WithRating(library, book, rating, now);
    var entry := RatedEntry(book, rating, now);
    WithRatingIds(library, book, rating, now);
    if Contains(library, book.id) {
      var i := FindIndex(library, book.id);
      assert r[i] == entry;
      forall e | e in r && e.book.id == book.id
        ensures e == entry
      {
        var j :| 0 <= j < |r| && r[j] == e;
        assert Ids(r)[j] == Ids(r)[i];
      }
    } else {
      DistinctSnoc(Ids(library), book.id);
      forall e | e in r && e.book.id == book.id
        ensures e == entry
      {
        var j :| 0 <= j < |r| && r[j] == e;
        assert Ids(r)[j] == book.id;
      }
    }
  }

  // ---------------------------------------------------------------------
  // saveReadingSheet
  // ---------------------------------------------------------------------

  /** The sheet stored on an entry: the existing creation date if any, else the argument's; updated now. */
  function StampSheet(existing: Option<ReadingSheet>, sheet: ReadingSheet, now: int): ReadingSheet {
    sheet.(createdAt := if existing.Some? then existing.value.createdAt else sheet.createdAt, updatedAt := now)
  }

  /** The library after `saveReadingSheet(bookId, sheet)`: every entry with that id gets the stamped sheet. */
  function WithSheet(library: seq<LibraryBook>, bookId: string, sheet: ReadingSheet, now: int): (r: seq<LibraryBook>)
    ensures |r| == |library|
    ensures forall i :: 0 <= i < |library| && library[i].book.id != bookId ==> r[i] == library[i]
    ensures forall i :: 0 <= i < |library| && library[i].book.id == bookId ==>
              r[i] == library[i].(readingSheet := Some(StampSheet(library[i].readingSheet, sheet, now)))
  {
    seq(|library|, i requires 0 <= i < |library| =>
      if library[i].book.id == bookId
      then library[i].(readingSheet := Some(StampSheet(library[i].readingSheet, sheet, now)))
      else library[i])
  }

  /**
   * Saving a sheet keeps every id in place and changes nothing when no entry
   * has the id; each matching entry then holds the argument's template and
   * answers, updated now, created when its earlier sheet was (or at the
   * argument's date when it had none).
   */
  lemma WithSheetEffect(library: seq<LibraryBook>, bookId: string, sheet: ReadingSheet, now: int)
    ensures Ids(WithSheet(library, bookId, sheet, now)) == Ids(library)
    ensures !Contains(library, bookId) ==> WithSheet(library, bookId, sheet, now) == library
    ensures forall i :: 0 <= i < |library| && library[i].book.id == bookId ==>
              var e := WithSheet(library, bookId, sheet, now)[i];
              && e.book == library[i].book
              && e.userRating == library[i].userRating
              && e.readDate == library[i].readDate
              && e.status == library[i].status
              && e.readingSheet.Some?
              && e.readingSheet.value.sheetType == sheet.sheetType
              && e.readingSheet.value.responses == sheet.responses
              && e.readingSheet.value.updatedAt == now
              && e.readingSheet.value.createdAt
                 == (if library[i].readingSheet.Some? then library[i].readingSheet.value.createdAt else sheet.createdAt)
  {
    var r := WithSheet(library, bookId, sheet, now);
    assert Ids(r) == Ids(library);
    if !Contains(library, bookId) {
      assert r == library;
    }
  }

  /** Saving again keeps the creation date the first save gave. */
  lemma ResaveKeepsCreation(library: seq<LibraryBook>, bookId: string, s1: ReadingSheet, t1: int, s2: ReadingSheet, t2: int, i: int)
    requires 0 <= i < |library| && library[i].book.id == bookId
    ensures var once := WithSheet(library, bookId, s1, t1);
      var twice := WithSheet(once, bookId, s2, t2);
      && once[i].readingSheet.Some?
      && twice[i].readingSheet.Some?
      && twice[i].readingSheet.value.createdAt == once[i].readingSheet.value.createdAt
      && twice[i].readingSheet.value.updatedAt == t2
      && twice[i].readingSheet.value.responses == s2.responses
  {
    var once := WithSheet(library, bookId, s1, t1);
    assert once[i].book.id == bookId;
  }

  // ---------------------------------------------------------------------
  // removeFromLibrary
  // ---------------------------------------------------------------------

  /** `library.filter((b) => b.id !== bookId)`. */
  function WithoutBook(library: seq<LibraryBook>, bookId: string): (r: seq<LibraryBook>)
    ensures !Contains(r, bookId)
    ensures forall e :: e in r <==> e in library && e.book.id != bookId
    ensures forall e :: multiset(r)[e] == if e.book.id == bookId then 0 else multiset(library)[e]
    ensures |r| <= |library|
  {
    if library == [] then []
    else
      assert library == [library[0]] + library[1..];
      assert multiset(library) == multiset{library[0]} + multiset(library[1..]);
      (if library[0].book.id == bookId then [] else [library[0]]) + WithoutBook(library[1..], bookId)
  }

  /** The filter keeps library order: it distributes over concatenation. */
  lemma {:induction false} WithoutBookAppend(a: seq<LibraryBook>, b: seq<LibraryBook>, bookId: string)
    ensures WithoutBook(a + b, bookId) == WithoutBook(a, bookId) + WithoutBook(b, bookId)
  {
    if a != [] {
      var head := if a[0].book.id == bookId then [] else [a[0]];
      assert (a + b)[0] == a[0];
      assert (a + b)[1..] == a[1..] + b;
      WithoutBookAppend(a[1..], b, bookId);
      ConcatAssoc(head, WithoutBook(a[1..], bookId), WithoutBook(b, bookId));
    } else {
      assert a + b == b;
    }
  }

  /** Removing a book keeps the other ids, in their order. */
  lemma {:induction false} WithoutBookIds(library: seq<LibraryBook>, bookId: string)
    ensures Ids(WithoutBook(library, bookId)) == Without(Ids(library), bookId)
  {
    if library != [] {
      WithoutBookIds(library[1..], bookId);
      WithoutBookCons(library, bookId);
      FilteredIds(library, bookId, WithoutBook(library, bookId), WithoutBook(library[1..], bookId));
    }
  }

  /** `kept` is the head, unless it has the id, in front of `keptRest`, whose ids are the tail's filtered ids. */
  lemma FilteredIds(library: seq<LibraryBook>, bookId: string, kept: seq<LibraryBook>, keptRest: seq<LibraryBook>)
    requires library != []
    requires kept == (if library[0].book.id == bookId then [] else [library[0]]) + keptRest
    requires Ids(keptRest) == Without(Ids(library[1..]), bookId)
    ensures Ids(kept) == Without(Ids(library), bookId)
  {
    var head := if library[0].book.id == bookId then [] else [library[0]];
    KeysAppend(head, keptRest, BookId);
    IdsCons(library);
    var ids := Ids(library);
    WithoutCons(ids, bookId);
    assert Ids(head) == if ids[0] == bookId then [] else [ids[0]];
  }

  lemma WithoutBookCons(library: seq<LibraryBook>, bookId: string)
    requires library != []
    ensures WithoutBook(library, bookId)
            == (if library[0].book.id == bookId then [] else [library[0]]) + WithoutBook(library[1..], bookId)
  {
  }

  lemma IdsCons(library: seq<LibraryBook>)
    requires library != []
    ensures Ids(library)[0] == library[0].book.id && Ids(library)[1..] == Ids(library[1..])
  {
  }

  /** `cabinets.map` dropping the id from every cabinet's `bookIds`. */
  function WithoutBookInCabinets(cabinets: seq<Cabinet>, bookId: string): (r: seq<Cabinet>)
    ensures |r| == |cabinets|
    ensures forall i :: 0 <= i < |r| ==>
              && r[i].id == cabinets[i].id
              && r[i].name == cabinets[i].name
              && r[i].createdAt == cabinets[i].createdAt
              && r[i].bookIds == Without(cabinets[i].bookIds, bookId)
  {
    seq(|cabinets|, i requires 0 <= i < |cabinets| =>
      cabinets[i].(bookIds := Without(cabinets[i].bookIds, bookId)))
  }

  // ---------------------------------------------------------------------
  // createCabinet
  // ---------------------------------------------------------------------

  /** The characters `String.prototype.trim` removes: white space and line terminators. */
  predicate IsSpace(c: char) {
    || c == '\t' || c == '\n' || c == '\U{000B}' || c == '\U{000C}' || c == '\r' || c == ' '
    || c == '\U{00A0}' || c == '\U{1680}' || ('\U{2000}' <= c <= '\U{200A}')
    || c == '\U{2028}' || c == '\U{2029}' || c == '\U{202F}' || c == '\U{205F}'
    || c == '\U{3000}' || c == '\U{FEFF}'
  }

  /**
   * `name.trim()`: a run of `s` with only white space around it, starting and
   * ending with a non-space, and empty exactly when `s` is all white space.
   */
  function Trim(s: string): (r: string)
    ensures r == [] || (!IsSpace(r[0]) && !IsSpace(r[|r| - 1]))
    ensures r == [] <==> forall j :: 0 <= j < |s| ==> IsSpace(s[j])
    ensures exists i :: Framed(s, i, r, IsSpace)
  {
    Strip(s, IsSpace)
  }

  /** Trimming twice trims nothing more. */
  lemma TrimIdempotent(s: string)
    ensures Trim(Trim(s)) == Trim(s)
  {
    StripIdempotent(s, IsSpace);
  }

  /** The cabinets after `createCabinet(name)`, with `freshId` the generated id and `now` the clock. */
  function WithCabinet(cabinets: seq<Cabinet>, name: string, freshId: string, now: int): (r: seq<Cabinet>)
    ensures Trim(name) == "" ==> r == cabinets
    ensures Trim(name) != "" ==> r == cabinets + [Cabinet(freshId, Trim(name), [], now)]
  {
    var trimmedName := Trim(name);
    if trimmedName == "" then cabinets else cabinets + [Cabinet(freshId, trimmedName, [], now)]
  }

  /**
   * A blank name changes nothing; otherwise one empty cabinet named without
   * surrounding white space is appended.
   */
  lemma WithCabinetEffect(cabinets: seq<Cabinet>, name: string, freshId: string, now: int)
    ensures (forall j :: 0 <= j < |name| ==> IsSpace(name[j])) ==> WithCabinet(cabinets, name, freshId, now) == cabinets
    ensures (exists j :: 0 <= j < |name| && !IsSpace(name[j])) ==>
              var r := WithCabinet(cabinets, name, freshId, now);
              && |r| == |cabinets| + 1
              && r[..|cabinets|] == cabinets
              && r[|cabinets|].id == freshId
              && r[|cabinets|].bookIds == []
              && r[|cabinets|].name != ""
              && Trim(r[|cabinets|].name) == r[|cabinets|].name
  {
    TrimIdempotent(name);
    var r := WithCabinet(cabinets, name, freshId, now);
    if Trim(name) != "" {
      assert r[..|cabinets|] == cabinets;
    }
  }

  /** The cabinet ids stay unique when the generated id is unused. */
  lemma WithCabinetIds(cabinets: seq<Cabinet>, name: string, freshId: string, now: int)
    requires Distinct(CabinetIds(cabinets)) && freshId !in CabinetIds(cabinets)
    ensures Distinct(CabinetIds(WithCabinet(cabinets, name, freshId, now)))
  {
    if Trim(name) != "" {
      AppendCabinet(cabinets, Cabinet(freshId, Trim(name), [], now));
    }
  }

  lemma AppendCabinet(cabinets: seq<Cabinet>, c: Cabinet)
    requires Distinct(CabinetIds(cabinets)) && c.id !in CabinetIds(cabinets)
    ensures Distinct(CabinetIds(cabinets + [c]))
  {
    KeysAppend(cabinets, [c], CabinetId);
    DistinctSnoc(CabinetIds(cabinets), c.id);
  }

  // ---------------------------------------------------------------------
  // moveBookToCabinet
  // ---------------------------------------------------------------------

  /** One cabinet after `moveBookToCabinet(bookId, target)`; `None` stands for `null`. */
  function MovedInto(c: Cabinet, bookId: string, target: Option<string>): (r: Cabinet)
    ensures r.id == c.id && r.name == c.name && r.createdAt == c.createdAt
    ensures !(target.Some? && c.id == target.value) ==> bookId !in r.bookIds
    ensures target.Some? && c.id == target.value ==>
              && |r.bookIds| > 0
              && r.bookIds[|r.bookIds| - 1] == bookId
              && bookId !in r.bookIds[..|r.bookIds| - 1]
              && r.bookIds[..|r.bookIds| - 1] == Dedup(Without(c.bookIds, bookId))
    ensures !(target.Some? && c.id == target.value) ==> r.bookIds == Without(c.bookIds, bookId)
    ensures forall x :: x != bookId ==> (x in r.bookIds <==> x in c.bookIds)
    ensures Distinct(c.bookIds) ==> Distinct(r.bookIds)
  {
    var withoutBook := Without(c.bookIds, bookId);
    if target.Some? && c.id == target.value then
      DedupSnoc(withoutBook, bookId);
      var ids := Dedup(withoutBook + [bookId]);
      assert ids[..|ids| - 1] == Dedup(withoutBook);
      c.(bookIds := ids)
    else
      c.(bookIds := withoutBook)
  }

  /** The cabinets after `moveBookToCabinet(bookId, target)`. */
  function Moved(cabinets: seq<Cabinet>, bookId: string, target: Option<string>): (r: seq<Cabinet>)
    ensures |r| == |cabinets|
    ensures forall i :: 0 <= i < |r| ==> r[i] == MovedInto(cabinets[i], bookId, target)
  {
    seq(|cabinets|, i requires 0 <= i < |cabinets| => MovedInto(cabinets[i], bookId, target))
  }

  /** Moving the same book to the same place twice is moving it once. */
  lemma MovedIntoTwice(c: Cabinet, bookId: string, target: Option<string>)
    ensures MovedInto(MovedInto(c, bookId, target), bookId, target) == MovedInto(c, bookId, target)
  {
    var w := Without(c.bookIds, bookId);
    if target.Some? && c.id == target.value {
      var d := Dedup(w);
      DedupSnoc(w, bookId);
      WithoutAppend(d, [bookId], bookId);
      assert Without([bookId], bookId) == [];
      assert Without(d + [bookId], bookId) == d;
      assert Dedup(d) == d;
      DedupSnoc(d, bookId);
    }
  }

  lemma MovedTwice(cabinets: seq<Cabinet>, bookId: string, target: Option<string>)
    ensures Moved(Moved(cabinets, bookId, target), bookId, target) == Moved(cabinets, bookId, target)
  {
    forall i | 0 <= i < |cabinets|
      ensures Moved(Moved(cabinets, bookId, target), bookId, target)[i] == Moved(cabinets, bookId, target)[i]
    {
      MovedIntoTwice(cabinets[i], bookId, target);
    }
  }

  // ---------------------------------------------------------------------
  // The store
  // ---------------------------------------------------------------------

  /** No cabinet lists a book twice. */
  ghost predicate ShelvesDistinct(cabinets: seq<Cabinet>) {
    forall i :: 0 <= i < |cabinets| ==> Distinct(cabinets[i].bookIds)
  }

  lemma ShelvesAppend(cabinets: seq<Cabinet>, c: Cabinet)
    requires Distinct(c.bookIds)
    ensures ShelvesDistinct(cabinets) ==> ShelvesDistinct(cabinets + [c])
  {
    assert forall i :: 0 <= i < |cabinets| ==> (cabinets + [c])[i] == cabinets[i];
  }

  class Store {
    var library: seq<LibraryBook>
    var cabinets: seq<Cabinet>

    /** No two entries share a book id and no two cabinets share an id. */
    ghost predicate Valid()
      reads this
    {
      Distinct(Ids(library)) && Distinct(CabinetIds(cabinets))
    }

    constructor()
      ensures library == [] && cabinets == []
      ensures Valid() && ShelvesDistinct(cabinets)
    {
      library := [];
      cabinets := [];
    }

    /**
     * Loading for an identified user whose remote read succeeded: the state
     * becomes the merge of the remote snapshot with the local one, and the
     * result says whether it is written back.
     */
    method Load(
      remoteLibrary: seq<LibraryBook>, remoteCabinets: seq<Cabinet>,
      localLibrary: seq<LibraryBook>, localCabinets: seq<Cabinet>)
      returns (writeBack: bool)
      modifies this
      ensures library == MergedLibrary(remoteLibrary, localLibrary)
      ensures cabinets == MergedCabinets(remoteCabinets, localCabinets)
      ensures Valid()
      ensures writeBack == NeedsWriteBack(remoteLibrary, remoteCabinets, library, cabinets)
    {
      library, cabinets, writeBack := Reconcile(remoteLibrary, remoteCabinets, localLibrary, localCabinets);
    }

    /** `isBookInLibrary(bookId)`. */
    function IsBookInLibrary(bookId: string): (r: bool)
      reads this
      ensures r <==> exists i :: 0 <= i < |library| && library[i].book.id == bookId
    {
      Contains(library, bookId)
    }

    method AddToLibrary(book: Book, rating: int, now: int)
      modifies this
      ensures library == WithRating(old(library), book, rating, now)
      ensures cabinets == old(cabinets)
      ensures IsBookInLibrary(book.id)
      ensures old(Valid()) ==> Valid()
    {
      WithRatingIds(library, book, rating, now);
      if Valid() {
        WithRatingUnique(library, book, rating, now);
      }
      var existingIndex := FindIndex(library, book.id);
      var newBook := RatedEntry(book, rating, now);
      if existingIndex >= 0 {
        library := library[existingIndex := newBook];
      } else {
        library := library + [newBook];
      }
    }

    method SaveReadingSheet(bookId: string, sheet: ReadingSheet, now: int)
      modifies this
      ensures library == WithSheet(old(library), bookId, sheet, now)
      ensures cabinets == old(cabinets)
      ensures Ids(library) == Ids(old(library))
      ensures old(Valid()) ==> Valid()
    {
      library := WithSheet(library, bookId, sheet, now);
      WithSheetEffect(old(library), bookId, sheet, now);
    }

    method RemoveFromLibrary(bookId: string)
      modifies this
      ensures library == WithoutBook(old(library), bookId)
      ensures cabinets == WithoutBookInCabinets(old(cabinets), bookId)
      ensures !IsBookInLibrary(bookId)
      ensures forall i :: 0 <= i < |cabinets| ==> bookId !in cabinets[i].bookIds
      ensures CabinetIds(cabinets) == CabinetIds(old(cabinets))
      ensures old(Valid()) ==> Valid()
      ensures old(ShelvesDistinct(cabinets)) ==> ShelvesDistinct(cabinets)
    {
      library := WithoutBook(library, bookId);
      cabinets := WithoutBookInCabinets(cabinets, bookId);
      WithoutBookIds(old(library), bookId);
      assert CabinetIds(cabinets) == CabinetIds(old(cabinets));
    }

    method CreateCabinet(name: string, freshId: string, now: int)
      modifies this
      ensures cabinets == WithCabinet(old(cabinets), name, freshId, now)
      ensures library == old(library)
      ensures old(Valid()) && freshId !in CabinetIds(old(cabinets)) ==> Valid()
      ensures old(ShelvesDistinct(cabinets)) ==> ShelvesDistinct(cabinets)
    {
      if Valid() && freshId !in CabinetIds(cabinets) {
        WithCabinetIds(cabinets, name, freshId, now);
      }
      var trimmedName := Trim(name);
      if trimmedName != "" {
        var newCabinet := Cabinet(freshId, trimmedName, [], now);
        ShelvesAppend(cabinets, newCabinet);
        cabinets := cabinets + [newCabinet];
      }
    }

    method MoveBookToCabinet(bookId: string, target: Option<string>)
      modifies this
      ensures cabinets == Moved(old(cabinets), bookId, target)
      ensures library == old(library)
      ensures CabinetIds(cabinets) == CabinetIds(old(cabinets))
      ensures old(Valid()) ==> Valid()
      ensures old(ShelvesDistinct(cabinets)) ==> ShelvesDistinct(cabinets)
    {
      cabinets := Moved(cabinets, bookId, target);
      assert CabinetIds(cabinets) == CabinetIds(old(cabinets));
    }
  }
}
