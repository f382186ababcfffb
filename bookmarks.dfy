/** The bookmark and tag records and the attributes a bookmark derives from
    its stored fields: the title and description shown to the user, its tag
    names, and its one-line display string. */
module Bookmarks {
  import opened Strings
  import opened KeySort
  import opened TagStrings

  datatype Option<T> = None | Some(value: T)

  /** A tag; only its name takes part in the derived attributes. */
  datatype Tag = Tag(name: string)

  /** A bookmark's stored fields that the derived attributes read. The two
      website fields are nullable columns; `tagString` is the attribute a
      query may fill with the bookmark's tag names joined by commas, "" when
      it did not. `tags` are the related tags in the order they are read. */
  datatype Bookmark = Bookmark(
    url: string,
    title: string,
    description: string,
    websiteTitle: Option<string>,
    websiteDescription: Option<string>,
    tagString: string,
    tags: seq<Tag>)

  /** The number of characters of the url the display string shows. */
  const DisplayUrlLength := 30

  /** resolved_title: the user's own title when it is non-empty, otherwise
      whatever the website's title is, possibly nothing. */
  function ResolvedTitle(b: Bookmark): (r: Option<string>)
    ensures b.title != "" ==> r == Some(b.title)
    ensures b.title == "" ==> r == b.websiteTitle
    ensures r == Some(b.title) || r == b.websiteTitle
    ensures (r.Some? && r.value != "") <==> (b.title != "" || (b.websiteTitle.Some? && b.websiteTitle.value != ""))
  {
    if b.title == "" then b.websiteTitle else Some(b.title)
  }

  /** resolved_description: the user's own description when it is
      non-empty, otherwise whatever the website's description is. */
  function ResolvedDescription(b: Bookmark): (r: Option<string>)
    ensures b.description != "" ==> r == Some(b.description)
    ensures b.description == "" ==> r == b.websiteDescription
    ensures r == Some(b.description) || r == b.websiteDescription
    ensures (r.Some? && r.value != "") <==> (b.description != "" || (b.websiteDescription.Some? && b.websiteDescription.value != ""))
  {
    if b.description == "" then b.websiteDescription else Some(b.description)
  }

  /** resolved_title reads the two title fields and nothing else. */
  lemma ResolvedTitleReadsTitles(b1: Bookmark, b2: Bookmark)
    requires b1.title == b2.title && b1.websiteTitle == b2.websiteTitle
    ensures ResolvedTitle(b1) == ResolvedTitle(b2)
  {
  }

  /** resolved_description reads the two description fields and nothing else. */
  lemma ResolvedDescriptionReadsDescriptions(b1: Bookmark, b2: Bookmark)
    requires b1.description == b2.description && b1.websiteDescription == b2.websiteDescription
    ensures ResolvedDescription(b1) == ResolvedDescription(b2)
  {
  }

  /** The names of the related tags, in the order the tags are read. */
  function PersistedNames(tags: seq<Tag>): (r: seq<string>)
    ensures |r| == |tags|
    ensures forall i :: 0 <= i < |tags| ==> r[i] == tags[i].name
  {
    seq(|tags|, i requires 0 <= i < |tags| => tags[i].name)
  }

  /** tag_names: the names parsed from the tag string when the query filled
      it, otherwise the names of the related tags. */
  function TagNames(b: Bookmark): (r: seq<string>)
    ensures b.tagString == "" ==> |r| == |b.tags| && forall i :: 0 <= i < |r| ==> r[i] == b.tags[i].name
    ensures b.tagString != "" ==> Sorted(r)
    ensures b.tagString != "" ==> multiset(r) == multiset(Pieces(b.tagString, DefaultDelimiter))
    ensures b.tagString != "" ==> SameKeyOrder(r, Pieces(b.tagString, DefaultDelimiter))
    ensures b.tagString != "" ==> forall x :: x in r ==> x != "" && !Contains(x, DefaultDelimiter)
  {
    if b.tagString != "" then
      ParseSortsPieces(b.tagString, DefaultDelimiter);
      ParseNamesClean(b.tagString, DefaultDelimiter);
      Parse(b.tagString, DefaultDelimiter)
    else
      PersistedNames(b.tags)
  }

  /** When the query fills the tag string by joining the names of the
      related tags with commas, the two sources of tag_names agree up to
      order: the parsed names are the related names stably sorted by their
      lower-cased form. This needs the names to be non-empty, free of commas
      and without whitespace at the two ends of the joined string. */
  lemma TagNamesFromQuery(b: Bookmark)
    requires b.tags != []
    requires forall i :: 0 <= i < |b.tags| ==> b.tags[i].name != "" && ',' !in b.tags[i].name
    requires !IsSpace(b.tags[0].name[0])
    requires !IsSpace(b.tags[|b.tags| - 1].name[|b.tags[|b.tags| - 1].name| - 1])
    requires b.tagString == BuildTagString(PersistedNames(b.tags), DefaultDelimiter)
    ensures TagNames(b) == SortByKey(PersistedNames(b.tags))
    ensures multiset(TagNames(b)) == multiset(PersistedNames(b.tags))
  {
    var names := PersistedNames(b.tags);
    ParseBuild(names, DefaultDelimiter);
    SortByKeyPermutes(names);
  }

  function Min(x: int, y: int): int {
    if x <= y then x else y
  }

  /** __str__: the resolved title, then at most the first thirty characters
      of the url between " (" and "...)". A bookmark without a resolved
      title has no display string: concatenating the missing title fails. */
  function DisplayString(b: Bookmark): (r: Option<string>)
    ensures r.None? <==> ResolvedTitle(b).None?
    ensures r.Some? ==>
      var t, k := ResolvedTitle(b).value, Min(|b.url|, DisplayUrlLength);
      && |r.value| == |t| + k + 6
      && r.value[..|t|] == t
      && r.value[|t|..|t| + 2] == " ("
      && r.value[|t| + 2..|t| + 2 + k] == b.url[..k]
      && r.value[|t| + 2 + k..] == "...)"
  {
    match ResolvedTitle(b)
    case None => None
    case Some(t) => Some(t + " (" + b.url[..Min(|b.url|, DisplayUrlLength)] + "...)")
  }

  /** Only the first thirty characters of the url reach the display string:
      two bookmarks that resolve to the same title and whose urls agree on
      those characters display alike. */
  lemma DisplayIgnoresUrlTail(b1: Bookmark, b2: Bookmark)
    requires ResolvedTitle(b1) == ResolvedTitle(b2)
    requires |b1.url| >= DisplayUrlLength && |b2.url| >= DisplayUrlLength
    requires b1.url[..DisplayUrlLength] == b2.url[..DisplayUrlLength]
    ensures DisplayString(b1) == DisplayString(b2)
  {
  }

  /** A url of at most thirty characters is shown whole. */
  lemma ShortUrlShownWhole(b: Bookmark)
    requires ResolvedTitle(b).Some? && |b.url| <= DisplayUrlLength
    ensures DisplayString(b) == Some(ResolvedTitle(b).value + " (" + b.url + "...)")
  {
    assert b.url[..|b.url|] == b.url;
  }
}
