/**
 * Reconciliation of the remote snapshot (primary) with the local snapshot
 * (secondary) when a user is identified: `mergeLibraries`, `mergeCabinets`
 * and the decision to write the merged result back to the remote document.
 */
module LibraryMerge {
  import opened Types
  import opened Seqs
  import opened OrderedMaps
  import opened KeyedIndex

  // ---------------------------------------------------------------------
  // Libraries
  // ---------------------------------------------------------------------

  /**
   * The incoming entry replaces the stored one when the stored date does not
   * parse, or when the incoming date parses and is strictly later. An
   * unparsable incoming date never compares greater.
   */
  predicate Supersedes(stored: LibraryBook, incoming: LibraryBook) {
    stored.readDate.None? || (incoming.readDate.Some? && incoming.readDate.value > stored.readDate.value)
  }

  function KeepLatest(stored: LibraryBook, incoming: LibraryBook): LibraryBook {
    if Supersedes(stored, incoming) then incoming else stored
  }

  function Ids(s: seq<LibraryBook>): seq<string> {
    Keys(s, BookId)
  }

  /** What `mergeLibraries(primary, secondary)` returns. */
  function MergedLibrary(primary: seq<LibraryBook>, secondary: seq<LibraryBook>): seq<LibraryBook> {
    Index(primary + secondary, BookId, KeepLatest).Values()
  }

  lemma KeepLatestKeepsKey()
    ensures KeepsKey(BookId, KeepLatest)
  {
  }

  /** One call of the `addOrUpdate` closure on the `Map`. */
  method AddOrUpdateBook(m: OrderedMap<LibraryBook>, book: LibraryBook) returns (r: OrderedMap<LibraryBook>)
    requires m.Valid()
    ensures r == Upsert(m, book, BookId, KeepLatest)
  {
    var id := book.book.id;
    if id !in m.entries {
      r := m.Set(id, book);
      return;
    }
    r := m;
    if Supersedes(m.entries[id], book) {
      r := m.Set(id, book);
    } else {
      assert m.entries[id := m.entries[id]] == m.entries;
    }
  }

  /** `items.forEach(addOrUpdate)`: the map folded so far over `prefix` takes in `items`, in order. */
  method AddAllBooks(m0: OrderedMap<LibraryBook>, prefix: seq<LibraryBook>, items: seq<LibraryBook>) returns (m: OrderedMap<LibraryBook>)
    requires m0 == Index(prefix, BookId, KeepLatest)
    ensures m == Index(prefix + items, BookId, KeepLatest)
  {
    m := m0;
    assert prefix + items[..0] == prefix;
    for i := 0 to |items|
      invariant m == Index(prefix + items[..i], BookId, KeepLatest)
    {
      IndexStep(prefix, items, i, BookId, KeepLatest);
      m := AddOrUpdateBook(m, items[i]);
    }
    assert items[..|items|] == items;
  }

  method MergeLibraries(primary: seq<LibraryBook>, secondary: seq<LibraryBook>) returns (merged: seq<LibraryBook>)
    ensures merged == MergedLibrary(primary, secondary)
    ensures Ids(merged) == Dedup(Ids(primary) + Ids(secondary))
  {
    var m := AddAllBooks(EmptyMap(), [], primary);
    assert [] + primary == primary;
    m := AddAllBooks(m, primary, secondary);
    merged := m.Values();
    assert merged == MergedLibrary(primary, secondary);
    MergedLibraryIds(primary, secondary);
  }


  /**
   * The merge holds one entry per distinct id of the two inputs, ordered by
   * first appearance, primary first.
   */
  lemma MergedLibraryIds(primary: seq<LibraryBook>, secondary: seq<LibraryBook>)
    ensures Ids(MergedLibrary(primary, secondary)) == Dedup(Ids(primary) + Ids(secondary))
    ensures |MergedLibrary(primary, secondary)| == |set k | k in Ids(primary) + Ids(secondary)|
  {
    var all := primary + secondary;
    KeysAppend(primary, secondary, BookId);
    KeepLatestKeepsKey();
    IndexValuesKeys(all, BookId, KeepLatest);
    IndexKeys(all, BookId, KeepLatest);
    var d := Dedup(Ids(all));
    DistinctCardinality(d);
    assert (set k | k in d) == (set k | k in Ids(all));
  }

  /** Some entry has a date that parses. */
  ghost predicate AnyParsable(bs: seq<LibraryBook>) {
    exists j :: 0 <= j < |bs| && bs[j].readDate.Some?
  }

  /**
   * Reference rule for the entries that share one id: when some date parses,
   * the winner is the first entry holding the latest parsable date; when
   * none parses, the winner is the last entry.
   */
  ghost predicate LatestAt(bs: seq<LibraryBook>, i: int) {
    && 0 <= i < |bs|
    && if AnyParsable(bs) then
         && bs[i].readDate.Some?
         && (forall j :: 0 <= j < |bs| && bs[j].readDate.Some? ==> bs[j].readDate.value <= bs[i].readDate.value)
         && (forall j :: 0 <= j < i ==> bs[j].readDate != bs[i].readDate)
       else
         i == |bs| - 1
  }

  /** Folding `KeepLatest` picks the winner of the reference rule. */
  lemma {:induction false} LatestWins(bs: seq<LibraryBook>)
    requires |bs| > 0
    ensures exists i :: LatestAt(bs, i) && Fold1(bs, KeepLatest) == bs[i]
  {
    if |bs| == 1 {
      assert LatestAt(bs, 0);
    } else {
      var init, last := bs[..|bs| - 1], bs[|bs| - 1];
      LatestWins(init);
      var i :| LatestAt(init, i) && Fold1(init, KeepLatest) == init[i];
      assert Fold1(bs, KeepLatest) == KeepLatest(init[i], last);
      assert forall j :: 0 <= j < |init| ==> bs[j] == init[j];
      var n := |bs| - 1;
      if Supersedes(init[i], last) {
        if last.readDate.None? {
          assert !AnyParsable(init);
          assert !AnyParsable(bs) by {
            forall j | 0 <= j < |bs|
              ensures bs[j].readDate.None?
            {
              if j < n {
                assert init[j] == bs[j];
              }
            }
          }
        } else {
          assert AnyParsable(bs) by {
            assert bs[n].readDate.Some?;
          }
          forall j | 0 <= j < |bs| && bs[j].readDate.Some?
            ensures bs[j].readDate.value <= bs[n].readDate.value
          {
            if j < n {
              assert init[j] == bs[j];
              assert init[i].readDate.Some?;
            }
          }
          forall j | 0 <= j < n
            ensures bs[j].readDate != bs[n].readDate
          {
            assert init[j] == bs[j];
            if bs[j].readDate.Some? {
              assert init[i].readDate.Some?;
            }
          }
        }
        assert LatestAt(bs, n);
      } else {
        assert init[i].readDate.Some?;
        assert AnyParsable(init);
        assert AnyParsable(bs) by {
          assert bs[i].readDate.Some?;
        }
        forall j | 0 <= j < |bs| && bs[j].readDate.Some?
          ensures bs[j].readDate.value <= bs[i].readDate.value
        {
          if j < n {
            assert init[j] == bs[j];
          }
        }
        forall j | 0 <= j < i
          ensures bs[j].readDate != bs[i].readDate
        {
          assert init[j] == bs[j];
        }
        assert LatestAt(bs, i);
      }
    }
  }

  /**
   * For each id of the inputs, the merge lists exactly one entry with that
   * id: the winner, under the reference rule, among the entries with that id
   * in primary-then-secondary order.
   */
  lemma MergedLibraryEntry(primary: seq<LibraryBook>, secondary: seq<LibraryBook>, k: string)
    requires k in Ids(primary) + Ids(secondary)
    ensures var bs := WithKey(primary + secondary, BookId, k);
      exists i :: LatestAt(bs, i)
        && bs[i] in MergedLibrary(primary, secondary)
        && forall e :: e in MergedLibrary(primary, secondary) && e.book.id == k ==> e == bs[i]
  {
    var all := primary + secondary;
    KeysAppend(primary, secondary, BookId);
    KeepLatestKeepsKey();
    IndexValue(all, BookId, KeepLatest, k);
    LatestWins(WithKey(all, BookId, k));
  }

  /**
   * An id present once on each side: the secondary entry wins exactly when it
   * supersedes the primary one, so equal dates keep the primary entry and two
   * unparsable dates keep the secondary entry.
   */
  lemma MergeLibraryClash(primary: seq<LibraryBook>, secondary: seq<LibraryBook>, a: int, b: int)
    requires Distinct(Ids(primary)) && Distinct(Ids(secondary))
    requires 0 <= a < |primary| && 0 <= b < |secondary|
    requires primary[a].book.id == secondary[b].book.id
    ensures var w := if Supersedes(primary[a], secondary[b]) then secondary[b] else primary[a];
      w in MergedLibrary(primary, secondary)
      && forall e :: e in MergedLibrary(primary, secondary) && e.book.id == primary[a].book.id ==> e == w
  {
    var k := primary[a].book.id;
    var all := primary + secondary;
    WithKeyUnique(primary, BookId, a);
    WithKeyUnique(secondary, BookId, b);
    WithKeyAppend(primary, secondary, BookId, k);
    var bs := WithKey(all, BookId, k);
    assert bs == [primary[a], secondary[b]];
    assert bs[..1] == [primary[a]];
    KeysAppend(primary, secondary, BookId);
    assert Ids(primary)[a] == k;
    KeepLatestKeepsKey();
    IndexValue(all, BookId, KeepLatest, k);
  }

  /** An entry whose id appears nowhere else in either input is kept unchanged. */
  lemma MergeLibraryUnclashed(primary: seq<LibraryBook>, secondary: seq<LibraryBook>, i: int)
    requires 0 <= i < |primary + secondary|
    requires forall j :: 0 <= j < |primary + secondary| && j != i ==>
               (primary + secondary)[j].book.id != (primary + secondary)[i].book.id
    ensures (primary + secondary)[i] in MergedLibrary(primary, secondary)
    ensures forall e :: e in MergedLibrary(primary, secondary) && e.book.id == (primary + secondary)[i].book.id ==>
              e == (primary + secondary)[i]
  {
    var all := primary + secondary;
    var k := all[i].book.id;
    WithKeyAlone(all, BookId, i);
    KeysAppend(primary, secondary, BookId);
    assert Ids(all)[i] == k;
    KeepLatestKeepsKey();
    IndexValue(all, BookId, KeepLatest, k);
  }

  // ---------------------------------------------------------------------
  // Cabinets
  // ---------------------------------------------------------------------

  /**
   * The cabinet stored on a clash: the book ids of both, stored ones first,
   * without repetition; the stored name unless it is empty; every other field
   * (the creation date) from the incoming cabinet.
   */
  function MergeCabinetPair(stored: Cabinet, incoming: Cabinet): Cabinet {
    Cabinet(
      incoming.id,
      if stored.name != "" then stored.name else incoming.name,
      Dedup(stored.bookIds + incoming.bookIds),
      incoming.createdAt)
  }

  function CabinetIds(s: seq<Cabinet>): seq<string> {
    Keys(s, CabinetId)
  }

  /** What `mergeCabinets(primary, secondary)` returns. */
  function MergedCabinets(primary: seq<Cabinet>, secondary: seq<Cabinet>): seq<Cabinet> {
    Index(primary + secondary, CabinetId, MergeCabinetPair).Values()
  }

  lemma MergeCabinetPairKeepsKey()
    ensures KeepsKey(CabinetId, MergeCabinetPair)
  {
  }

  /** One call of the cabinet `addOrUpdate` closure on the `Map`. */
  method AddOrUpdateCabinet(m: OrderedMap<Cabinet>, cabinet: Cabinet) returns (r: OrderedMap<Cabinet>)
    requires m.Valid()
    ensures r == Upsert(m, cabinet, CabinetId, MergeCabinetPair)
  {
    if cabinet.id !in m.entries {
      r := m.Set(cabinet.id, cabinet);
      return;
    }
    var existing := m.entries[cabinet.id];
    var mergedBookIds := Dedup(existing.bookIds + cabinet.bookIds);
    var name := if existing.name != "" then existing.name else cabinet.name;
    r := m.Set(cabinet.id, cabinet.(bookIds := mergedBookIds, name := name));
  }

  /** `items.forEach(addOrUpdate)`: the map folded so far over `prefix` takes in `items`, in order. */
  method AddAllCabinets(m0: OrderedMap<Cabinet>, prefix: seq<Cabinet>, items: seq<Cabinet>) returns (m: OrderedMap<Cabinet>)
    requires m0 == Index(prefix, CabinetId, MergeCabinetPair)
    ensures m == Index(prefix + items, CabinetId, MergeCabinetPair)
  {
    m := m0;
    assert prefix + items[..0] == prefix;
    for i := 0 to |items|
      invariant m == Index(prefix + items[..i], CabinetId, MergeCabinetPair)
    {
      IndexStep(prefix, items, i, CabinetId, MergeCabinetPair);
      m := AddOrUpdateCabinet(m, items[i]);
    }
    assert items[..|items|] == items;
  }

  method MergeCabinets(primary: seq<Cabinet>, secondary: seq<Cabinet>) returns (merged: seq<Cabinet>)
    ensures merged == MergedCabinets(primary, secondary)
    ensures CabinetIds(merged) == Dedup(CabinetIds(primary) + CabinetIds(secondary))
  {
    var m := AddAllCabinets(EmptyMap(), [], primary);
    assert [] + primary == primary;
    m := AddAllCabinets(m, primary, secondary);
    merged := m.Values();
    assert merged == MergedCabinets(primary, secondary);
    MergedCabinetIds(primary, secondary);
  }


  /** One cabinet per distinct id of the two inputs, ordered by first appearance. */
  lemma MergedCabinetIds(primary: seq<Cabinet>, secondary: seq<Cabinet>)
    ensures CabinetIds(MergedCabinets(primary, secondary)) == Dedup(CabinetIds(primary) + CabinetIds(secondary))
    ensures |MergedCabinets(primary, secondary)| == |set k | k in CabinetIds(primary) + CabinetIds(secondary)|
  {
    var all := primary + secondary;
    KeysAppend(primary, secondary, CabinetId);
    MergeCabinetPairKeepsKey();
    IndexValuesKeys(all, CabinetId, MergeCabinetPair);
    IndexKeys(all, CabinetId, MergeCabinetPair);
    var d := Dedup(CabinetIds(all));
    DistinctCardinality(d);
    assert (set k | k in d) == (set k | k in CabinetIds(all));
  }

  /** The book ids of a run of cabinets, one after the other. */
  function AllBookIds(cs: seq<Cabinet>): seq<string> {
    if cs == [] then [] else AllBookIds(cs[..|cs| - 1]) + cs[|cs| - 1].bookIds
  }

  /**
   * Folding `MergeCabinetPair` over the cabinets that share one id: the book
   * ids of all of them without repetition (a lone cabinet keeps its list as
   * it is), the first non-empty name, and the last creation date.
   */
  lemma CabinetFold(cs: seq<Cabinet>)
    requires |cs| > 0
    ensures var r := Fold1(cs, MergeCabinetPair);
      && r.id == cs[|cs| - 1].id
      && r.createdAt == cs[|cs| - 1].createdAt
      && (|cs| == 1 ==> r.bookIds == cs[0].bookIds)
      && (|cs| > 1 ==> r.bookIds == Dedup(AllBookIds(cs)))
      && (r.name == "" <==> forall i :: 0 <= i < |cs| ==> cs[i].name == "")
      && (r.name != "" ==> exists i :: 0 <= i < |cs| && r.name == cs[i].name && forall j :: 0 <= j < i ==> cs[j].name == "")
  {
    CabinetFoldBooks(cs);
    CabinetFoldName(cs);
  }

  lemma {:induction false} CabinetFoldBooks(cs: seq<Cabinet>)
    requires |cs| > 0
    ensures var r := Fold1(cs, MergeCabinetPair);
      && r.id == cs[|cs| - 1].id
      && r.createdAt == cs[|cs| - 1].createdAt
      && (|cs| == 1 ==> r.bookIds == cs[0].bookIds)
      && (|cs| > 1 ==> r.bookIds == Dedup(AllBookIds(cs)))
  {
    if |cs| > 1 {
      var init, last := cs[..|cs| - 1], cs[|cs| - 1];
      CabinetFoldBooks(init);
      var f := Fold1(init, MergeCabinetPair);
      var r := Fold1(cs, MergeCabinetPair);
      assert r == MergeCabinetPair(f, last);
      assert r.bookIds == Dedup(f.bookIds + last.bookIds);
      assert AllBookIds(cs) == AllBookIds(init) + last.bookIds;
      if |init| == 1 {
        assert init[..0] == [];
        assert AllBookIds(init) == [] + init[0].bookIds;
        assert AllBookIds(init) == f.bookIds;
      } else {
        DedupAbsorbs(AllBookIds(init), last.bookIds);
      }
    }
  }

  lemma {:induction false} CabinetFoldName(cs: seq<Cabinet>)
    requires |cs| > 0
    ensures var r := Fold1(cs, MergeCabinetPair);
      && (r.name == "" <==> forall i :: 0 <= i < |cs| ==> cs[i].name == "")
      && (r.name != "" ==> exists i :: 0 <= i < |cs| && r.name == cs[i].name && forall j :: 0 <= j < i ==> cs[j].name == "")
  {
    if |cs| > 1 {
      var init := cs[..|cs| - 1];
      CabinetFoldName(init);
      var f := Fold1(init, MergeCabinetPair);
      assert Fold1(cs, MergeCabinetPair) == MergeCabinetPair(f, cs[|cs| - 1]);
      FirstNamedStep(cs, f.name, Fold1(cs, MergeCabinetPair).name);
    }
  }

  /** The stored name is kept unless it is empty: the first non-empty name of `init` extends to `cs`. */
  lemma FirstNamedStep(cs: seq<Cabinet>, stored: string, r: string)
    requires |cs| > 1
    requires var init := cs[..|cs| - 1];
      && (stored == "" <==> forall i :: 0 <= i < |init| ==> init[i].name == "")
      && (stored != "" ==> exists i :: 0 <= i < |init| && stored == init[i].name && forall j :: 0 <= j < i ==> init[j].name == "")
    requires r == if stored != "" then stored else cs[|cs| - 1].name
    ensures r == "" <==> forall i :: 0 <= i < |cs| ==> cs[i].name == ""
    ensures r != "" ==> exists i :: 0 <= i < |cs| && r == cs[i].name && forall j :: 0 <= j < i ==> cs[j].name == ""
  {
    var init, last := cs[..|cs| - 1], cs[|cs| - 1];
    assert forall j :: 0 <= j < |init| ==> cs[j] == init[j];
    if stored != "" {
      var i :| 0 <= i < |init| && stored == init[i].name && forall j :: 0 <= j < i ==> init[j].name == "";
      assert cs[i] == init[i];
    } else if last.name != "" {
      assert r == cs[|cs| - 1].name;
    }
  }

  /**
   * For each cabinet id of the inputs, the merge lists exactly one cabinet
   * with that id, built by `CabinetFold` from the cabinets with that id.
   */
  lemma MergedCabinetEntry(primary: seq<Cabinet>, secondary: seq<Cabinet>, k: string)
    requires k in CabinetIds(primary) + CabinetIds(secondary)
    ensures var cs := WithKey(primary + secondary, CabinetId, k);
      && |cs| > 0
      && Fold1(cs, MergeCabinetPair) in MergedCabinets(primary, secondary)
      && forall c :: c in MergedCabinets(primary, secondary) && c.id == k ==> c == Fold1(cs, MergeCabinetPair)
  {
    var all := primary + secondary;
    KeysAppend(primary, secondary, CabinetId);
    MergeCabinetPairKeepsKey();
    IndexValue(all, CabinetId, MergeCabinetPair, k);
  }

  /**
   * The cabinet stored on a clash lists the stored book ids first, then the
   * incoming ones it lacked, each once; its name is the stored one unless that
   * is empty; its id and creation date are the incoming ones.
   */
  lemma MergeCabinetPairFields(stored: Cabinet, incoming: Cabinet)
    ensures var w := MergeCabinetPair(stored, incoming);
      && w.id == incoming.id
      && Distinct(w.bookIds)
      && Dedup(stored.bookIds) <= w.bookIds
      && (forall x :: x in w.bookIds <==> x in stored.bookIds || x in incoming.bookIds)
      && (stored.name != "" ==> w.name == stored.name)
      && (stored.name == "" ==> w.name == incoming.name)
      && w.createdAt == incoming.createdAt
  {
    DedupPrefix(stored.bookIds, incoming.bookIds);
  }

  /**
   * A cabinet id present once on each side: the merge lists exactly one
   * cabinet with that id, `MergeCabinetPair` of the primary and the secondary
   * one.
   */
  lemma MergeCabinetClash(primary: seq<Cabinet>, secondary: seq<Cabinet>, a: int, b: int)
    requires Distinct(CabinetIds(primary)) && Distinct(CabinetIds(secondary))
    requires 0 <= a < |primary| && 0 <= b < |secondary|
    requires primary[a].id == secondary[b].id
    ensures MergeCabinetPair(primary[a], secondary[b]) in MergedCabinets(primary, secondary)
    ensures forall c :: c in MergedCabinets(primary, secondary) && c.id == primary[a].id ==>
              c == MergeCabinetPair(primary[a], secondary[b])
  {
    var k := primary[a].id;
    var all := primary + secondary;
    WithKeyUnique(primary, CabinetId, a);
    WithKeyUnique(secondary, CabinetId, b);
    WithKeyAppend(primary, secondary, CabinetId, k);
    var cs := WithKey(all, CabinetId, k);
    assert cs == [primary[a], secondary[b]];
    assert cs[..1] == [primary[a]];
    KeysAppend(primary, secondary, CabinetId);
    assert CabinetIds(primary)[a] == k;
    MergeCabinetPairKeepsKey();
    IndexValue(all, CabinetId, MergeCabinetPair, k);
  }

  /** A cabinet whose id appears nowhere else in either input is kept unchanged. */
  lemma MergeCabinetUnclashed(primary: seq<Cabinet>, secondary: seq<Cabinet>, i: int)
    requires 0 <= i < |primary + secondary|
    requires forall j :: 0 <= j < |primary + secondary| && j != i ==>
               (primary + secondary)[j].id != (primary + secondary)[i].id
    ensures (primary + secondary)[i] in MergedCabinets(primary, secondary)
    ensures forall c :: c in MergedCabinets(primary, secondary) && c.id == (primary + secondary)[i].id ==>
              c == (primary + secondary)[i]
  {
    var all := primary + secondary;
    var k := all[i].id;
    WithKeyAlone(all, CabinetId, i);
    KeysAppend(primary, secondary, CabinetId);
    assert CabinetIds(all)[i] == k;
    MergeCabinetPairKeepsKey();
    IndexValue(all, CabinetId, MergeCabinetPair, k);
  }

  // ---------------------------------------------------------------------
  // Write-back after loading
  // ---------------------------------------------------------------------

  /** The merged snapshot is written to the remote document when a count changed. */
  predicate NeedsWriteBack(
    remoteLibrary: seq<LibraryBook>, remoteCabinets: seq<Cabinet>,
    mergedLibrary: seq<LibraryBook>, mergedCabinets: seq<Cabinet>)
  {
    |mergedLibrary| != |remoteLibrary| || |mergedCabinets| != |remoteCabinets|
  }

  /** The local snapshot holds a book id or a cabinet id that the remote one lacks. */
  ghost predicate LocalHasNewIds(
    remoteLibrary: seq<LibraryBook>, remoteCabinets: seq<Cabinet>,
    localLibrary: seq<LibraryBook>, localCabinets: seq<Cabinet>)
  {
    || (exists k :: k in Ids(localLibrary) && k !in Ids(remoteLibrary))
    || (exists k :: k in CabinetIds(localCabinets) && k !in CabinetIds(remoteCabinets))
  }

  /**
   * When the remote snapshot has no repeated id, the write-back happens
   * exactly when the local snapshot has a book id or a cabinet id that the
   * remote lacks.
   */
  lemma WriteBackOnNewIds(
    remoteLibrary: seq<LibraryBook>, remoteCabinets: seq<Cabinet>,
    localLibrary: seq<LibraryBook>, localCabinets: seq<Cabinet>)
    requires Distinct(Ids(remoteLibrary)) && Distinct(CabinetIds(remoteCabinets))
    ensures NeedsWriteBack(remoteLibrary, remoteCabinets,
                           MergedLibrary(remoteLibrary, localLibrary), MergedCabinets(remoteCabinets, localCabinets))
            == LocalHasNewIds(remoteLibrary, remoteCabinets, localLibrary, localCabinets)
  {
    MergedLibraryIds(remoteLibrary, localLibrary);
    MergedCabinetIds(remoteCabinets, localCabinets);
    DedupGrows(Ids(remoteLibrary), Ids(localLibrary));
    DedupGrows(CabinetIds(remoteCabinets), CabinetIds(localCabinets));
  }

  /**
   * The reconciliation of a successful remote read: both merges, then the
   * write-back decision.
   */
  method Reconcile(
    remoteLibrary: seq<LibraryBook>, remoteCabinets: seq<Cabinet>,
    localLibrary: seq<LibraryBook>, localCabinets: seq<Cabinet>)
    returns (library: seq<LibraryBook>, cabinets: seq<Cabinet>, writeBack: bool)
    ensures library == MergedLibrary(remoteLibrary, localLibrary)
    ensures cabinets == MergedCabinets(remoteCabinets, localCabinets)
    ensures Distinct(Ids(library)) && Distinct(CabinetIds(cabinets))
    ensures writeBack == NeedsWriteBack(remoteLibrary, remoteCabinets, library, cabinets)
    ensures Distinct(Ids(remoteLibrary)) && Distinct(CabinetIds(remoteCabinets)) ==>
              writeBack == LocalHasNewIds(remoteLibrary, remoteCabinets, localLibrary, localCabinets)
  {
    library := MergeLibraries(remoteLibrary, localLibrary);
    cabinets := MergeCabinets(remoteCabinets, localCabinets);
    writeBack := |library| != |remoteLibrary| || |cabinets| != |remoteCabinets|;
    if Distinct(Ids(remoteLibrary)) && Distinct(CabinetIds(remoteCabinets)) {
      WriteBackOnNewIds(remoteLibrary, remoteCabinets, localLibrary, localCabinets);
    }
  }
}
