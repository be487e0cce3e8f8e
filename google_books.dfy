/**
 * The catalog client: the empty-query guard of the search, and the
 * normalisation of a catalog volume into a `Book` with its defaults.
 */
module GoogleBooks {
  import opened Types

  // ---------------------------------------------------------------------
  // The catalog's records
  // ---------------------------------------------------------------------

  datatype IndustryIdentifier = IndustryIdentifier(idType: string, identifier: Option<string>)

  /** The part of a volume the client reads. `thumbnail` is `imageLinks?.thumbnail`. */
  datatype VolumeInfo = VolumeInfo(
    title: string,
    authors: Option<seq<string>>,
    description: Option<string>,
    thumbnail: Option<string>,
    industryIdentifiers: Option<seq<IndustryIdentifier>>,
    publishedDate: Option<string>,
    pageCount: Option<int>,
    categories: Option<seq<string>>,
    publisher: Option<string>)

  datatype Volume = Volume(id: string, volumeInfo: VolumeInfo)

  // ---------------------------------------------------------------------
  // String.prototype.replace with a string pattern
  // ---------------------------------------------------------------------

  ghost predicate OccursAt(s: string, pat: string, i: int) {
    0 <= i && i + |pat| <= |s| && s[i..i + |pat|] == pat
  }

  /** `i` is where `pat` first occurs in `s`. */
  ghost predicate FirstAt(s: string, pat: string, i: int) {
    OccursAt(s, pat, i) && forall j :: 0 <= j < i ==> !OccursAt(s, pat, j)
  }

  /** `s.replace(pat, rep)`: the first occurrence of `pat` is replaced; without one, `s` is unchanged. */
  function ReplaceFirst(s: string, pat: string, rep: string): (r: string)
    ensures (forall i :: 0 <= i <= |s| ==> !OccursAt(s, pat, i)) ==> r == s
    ensures forall i :: FirstAt(s, pat, i) ==> r == s[..i] + rep + s[i + |pat|..]
  {
    if pat <= s then
      assert OccursAt(s, pat, 0);
      rep + s[|pat|..]
    else if s == [] then s
    else
      var r := [s[0]] + ReplaceFirst(s[1..], pat, rep);
      ReplaceStep(s, pat, rep, r);
      r
  }

  /** Past the first character, occurrences in `s` are those in its tail, shifted by one. */
  lemma OccursShift(s: string, pat: string, i: int)
    requires 1 <= i <= |s|
    ensures OccursAt(s, pat, i) <==> OccursAt(s[1..], pat, i - 1)
  {
    if i + |pat| <= |s| {
      var t := s[1..];
      assert t[i - 1..] == s[i..];
      assert t[i - 1..i - 1 + |pat|] == t[i - 1..][..|pat|];
      assert s[i..i + |pat|] == s[i..][..|pat|];
    }
  }

  /** The recursive case of `ReplaceFirst`: `pat` does not start `s`, and the tail's replacement carries over. */
  lemma ReplaceStep(s: string, pat: string, rep: string, r: string)
    requires s != [] && !(pat <= s)
    requires r == [s[0]] + ReplaceFirst(s[1..], pat, rep)
    ensures (forall i :: 0 <= i <= |s| ==> !OccursAt(s, pat, i)) ==> r == s
    ensures forall i :: FirstAt(s, pat, i) ==> r == s[..i] + rep + s[i + |pat|..]
  {
    forall i | FirstAt(s, pat, i)
      ensures r == s[..i] + rep + s[i + |pat|..]
    {
      ReplaceStepAt(s, pat, rep, r, i);
    }
    if forall i :: 0 <= i <= |s| ==> !OccursAt(s, pat, i) {
      forall i | 0 <= i <= |s[1..]|
        ensures !OccursAt(s[1..], pat, i)
      {
        OccursShift(s, pat, i + 1);
      }
      assert s == [s[0]] + s[1..];
    }
  }

  /** The first occurrence of `pat` in `s`, past the start, is the tail's first occurrence shifted by one. */
  lemma ReplaceStepAt(s: string, pat: string, rep: string, r: string, i: int)
    requires s != [] && !(pat <= s)
    requires r == [s[0]] + ReplaceFirst(s[1..], pat, rep)
    requires FirstAt(s, pat, i)
    ensures r == s[..i] + rep + s[i + |pat|..]
  {
    assert i != 0 by {
      if |pat| <= |s| {
        assert s[0..|pat|] == s[..|pat|];
      }
    }
    FirstShift(s, pat, i);
    ReplaceTail(s, pat, rep, ReplaceFirst(s[1..], pat, rep), i);
  }

  lemma FirstShift(s: string, pat: string, i: int)
    requires 1 <= i && FirstAt(s, pat, i)
    ensures FirstAt(s[1..], pat, i - 1)
  {
    OccursShift(s, pat, i);
    forall j | 0 <= j < i - 1
      ensures !OccursAt(s[1..], pat, j)
    {
      OccursShift(s, pat, j + 1);
    }
  }

  /** Putting back the first character in front of the tail's replacement. */
  lemma ReplaceTail(s: string, pat: string, rep: string, tail: string, i: int)
    requires 1 <= i <= |s| && i + |pat| <= |s|
    requires tail == s[1..][..i - 1] + rep + s[1..][i - 1 + |pat|..]
    ensures [s[0]] + tail == s[..i] + rep + s[i + |pat|..]
  {
    var t := s[1..];
    assert s[..i] == [s[0]] + t[..i - 1];
    assert s[i + |pat|..] == t[i - 1 + |pat|..];
  }

  /** A link that starts with `http:` comes out starting with `https:`, the rest unchanged. */
  lemma UpgradeToHttps(link: string)
    requires "http:" <= link
    ensures ReplaceFirst(link, "http:", "https:") == "https:" + link[5..]
  {
    assert FirstAt(link, "http:", 0);
  }

  // ---------------------------------------------------------------------
  // formatBookData
  // ---------------------------------------------------------------------

  /** `ids.find((i) => i.type === 'ISBN_13')`: the first identifier of that type, if any. */
  function FindIsbn13(ids: seq<IndustryIdentifier>): (r: Option<IndustryIdentifier>)
    ensures r.None? <==> forall i :: 0 <= i < |ids| ==> ids[i].idType != "ISBN_13"
    ensures r.Some? ==> exists i :: 0 <= i < |ids| && ids[i] == r.value && ids[i].idType == "ISBN_13" &&
                          forall j :: 0 <= j < i ==> ids[j].idType != "ISBN_13"
  {
    if ids == [] then None
    else if ids[0].idType == "ISBN_13" then Some(ids[0])
    else
      var r := FindIsbn13(ids[1..]);
      assert r.Some? ==> exists i :: 0 <= i < |ids| && ids[i] == r.value && ids[i].idType == "ISBN_13" &&
                           forall j :: 0 <= j < i ==> ids[j].idType != "ISBN_13" by {
        if r.Some? {
          var i :| 0 <= i < |ids[1..]| && ids[1..][i] == r.value && ids[1..][i].idType == "ISBN_13" &&
                   forall j :: 0 <= j < i ==> ids[1..][j].idType != "ISBN_13";
          assert ids[i + 1] == r.value;
          assert forall j :: 1 <= j < i + 1 ==> ids[j] == ids[1..][j - 1];
        }
      }
      r
  }

  /** A JavaScript string value that `||` keeps: present and not empty. */
  predicate Truthy(s: Option<string>) {
    s.Some? && s.value != ""
  }

  /** The ISBN: the first ISBN-13 entry's identifier when it is a non-empty string, else the first entry's identifier. */
  function Isbn(ids: Option<seq<IndustryIdentifier>>): Option<string> {
    var found := if ids.Some? then FindIsbn13(ids.value) else None;
    if found.Some? && Truthy(found.value.identifier) then found.value.identifier
    else if ids.Some? && |ids.value| > 0 then ids.value[0].identifier
    else None
  }

  /** The ISBN choice, case by case. */
  lemma IsbnChoice(ids: seq<IndustryIdentifier>)
    ensures (forall i :: 0 <= i < |ids| ==> ids[i].idType != "ISBN_13") ==>
              Isbn(Some(ids)) == (if |ids| > 0 then ids[0].identifier else None)
    ensures forall i :: 0 <= i < |ids| && ids[i].idType == "ISBN_13" && Truthy(ids[i].identifier) &&
                        (forall j :: 0 <= j < i ==> ids[j].idType != "ISBN_13") ==>
              Isbn(Some(ids)) == ids[i].identifier
    ensures forall i :: 0 <= i < |ids| && ids[i].idType == "ISBN_13" && !Truthy(ids[i].identifier) &&
                        (forall j :: 0 <= j < i ==> ids[j].idType != "ISBN_13") ==>
              Isbn(Some(ids)) == ids[0].identifier
    ensures Isbn(None) == None
  {
    var found := FindIsbn13(ids);
    if found.Some? {
      var k :| 0 <= k < |ids| && ids[k] == found.value && ids[k].idType == "ISBN_13" &&
               forall j :: 0 <= j < k ==> ids[j].idType != "ISBN_13";
      forall i | 0 <= i < |ids| && ids[i].idType == "ISBN_13" && (forall j :: 0 <= j < i ==> ids[j].idType != "ISBN_13")
        ensures i == k
      {
        assert !(i < k) && !(k < i);
      }
    }
  }

  const UnknownAuthor: string := "Auteur inconnu"
  const NoDescription: string := "Pas de description disponible."

  /** `formatBookData`: a volume as a `Book`, with the defaults the client applies. */
  function FormatBookData(item: Volume): (b: Book)
    ensures b.id == item.id && b.title == item.volumeInfo.title
    ensures b.publishedDate == item.volumeInfo.publishedDate && b.pageCount == item.volumeInfo.pageCount
    ensures b.categories == item.volumeInfo.categories && b.publisher == item.volumeInfo.publisher
    ensures item.volumeInfo.authors.None? ==> b.authors == [UnknownAuthor]
    ensures item.volumeInfo.authors.Some? ==> b.authors == item.volumeInfo.authors.value
    ensures Truthy(b.description)
    ensures Truthy(item.volumeInfo.description) ==> b.description == item.volumeInfo.description
    ensures !Truthy(item.volumeInfo.description) ==> b.description == Some(NoDescription)
    ensures b.thumbnail.None? <==> !Truthy(item.volumeInfo.thumbnail)
    ensures b.thumbnail.Some? ==> b.thumbnail.value == ReplaceFirst(item.volumeInfo.thumbnail.value, "http:", "https:")
    ensures b.isbn == Isbn(item.volumeInfo.industryIdentifiers)
  {
    var info := item.volumeInfo;
    var description := if Truthy(info.description) then info.description.value else NoDescription;
    var thumbnail :=
      if info.thumbnail.Some? then
        var t := ReplaceFirst(info.thumbnail.value, "http:", "https:");
        assert t == "" ==> info.thumbnail.value == "" by {
          if info.thumbnail.value != "" {
            ReplaceKeepsContent(info.thumbnail.value, "http:", "https:");
          }
        }
        if t != "" then Some(t) else None
      else None;
    Book(
      item.id,
      info.title,
      if info.authors.Some? then info.authors.value else [UnknownAuthor],
      Some(description),
      thumbnail,
      Isbn(info.industryIdentifiers),
      info.publishedDate,
      info.pageCount,
      info.categories,
      info.publisher)
  }

  /** Replacing a pattern by a non-empty text never leaves a non-empty string empty. */
  lemma {:induction false} ReplaceKeepsContent(s: string, pat: string, rep: string)
    requires s != "" && rep != ""
    ensures ReplaceFirst(s, pat, rep) != ""
  {
    if !(pat <= s) && s != [] {
      assert ReplaceFirst(s, pat, rep)[0] == s[0];
    }
  }

  /** An `http:` thumbnail is served over `https:`. */
  lemma SecureThumbnail(item: Volume)
    requires item.volumeInfo.thumbnail.Some? && "http:" <= item.volumeInfo.thumbnail.value
    ensures FormatBookData(item).thumbnail == Some("https:" + item.volumeInfo.thumbnail.value[5..])
  {
    UpgradeToHttps(item.volumeInfo.thumbnail.value);
  }

  // ---------------------------------------------------------------------
  // searchBooks
  // ---------------------------------------------------------------------

  /** What the catalog request gave: a failure (network or JSON), or a body whose `items` may be missing. */
  datatype Fetched = FetchFailed | Fetched(items: Option<seq<Volume>>)

  /** The request sent, if any (the query it carries), and the books returned. */
  datatype Search = Search(request: Option<string>, books: seq<Book>)

  /**
   * `searchBooks(query)`, with the catalog's answer to the request passed in
   * as `answer`: an empty query sends nothing and returns no books; a
   * failure or a body without items returns no books; otherwise each item
   * is normalised, in order.
   */
  function SearchBooks(query: string, answer: Fetched): (r: Search)
    ensures query == "" ==> r.request.None? && r.books == []
    ensures query != "" ==> r.request == Some(query)
    ensures answer.FetchFailed? || (answer.Fetched? && answer.items.None?) ==> r.books == []
    ensures query != "" && answer.Fetched? && answer.items.Some? ==>
              && |r.books| == |answer.items.value|
              && forall i :: 0 <= i < |r.books| ==> r.books[i] == FormatBookData(answer.items.value[i])
  {
    if query == "" then Search(None, [])
    else
      match answer
      case FetchFailed => Search(Some(query), [])
      case Fetched(None) => Search(Some(query), [])
      case Fetched(Some(items)) =>
        Search(Some(query), seq(|items|, i requires 0 <= i < |items| => FormatBookData(items[i])))
  }
}
