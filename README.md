# linkding tag strings and bookmark attributes, in Dafny

linkding is a bookmark manager. A user types a bookmark's tags as one string,
`"python, django,Web"`. `parse_tag_string` turns that string into a list of tag
names. `build_tag_string` joins a list of names back into one string. A
`Bookmark` derives four attributes from its stored fields:

- the title shown to the user (`resolved_title`);
- the description shown to the user (`resolved_description`);
- its tag names (`tag_names`);
- a one-line display string (`__str__`).

This project models those functions of `bookmarks/models.py` and proves what
they guarantee.

Modules:

- `Strings` (strings.dfy): the Python `str` operations the codec is made of:
  - `str.isspace` and `str.strip()`;
  - `str.lower()`;
  - `<=` on strings;
  - `sep in s`;
  - `str.split(sep)`, keeping empty pieces and cutting at non-overlapping
    occurrences from the left.
- `KeySort` (key_sort.dfy): `list.sort(key=str.lower)`:
  - `SortByKey` is a functional stable insertion sort.
  - `SortInPlace` runs the same sort on an array and is proved to produce
    `SortByKey` of the old contents.
  - `StableSortUnique` shows that any stable sort by that key gives the same
    list, so the result is the one Python's sort produces.
- `TagStrings` (tag_strings.dfy): `parse_tag_string` (`Parse`, and
  `ParseTagString`, which sorts in place as the source does) and
  `build_tag_string` (`BuildTagString`). It also holds their round trips and
  some worked examples.
- `Bookmarks` (bookmarks.dfy): the `Tag` and `Bookmark` records and the
  derived attributes.

Parsing behaviour worth knowing:

- Whitespace is stripped only at the two ends of the whole string. The names
  are not trimmed one by one: `" a , ,b "` parses to `[" ", "a ", "b"]`
  (`ParseKeepsInnerSpaces`).
- Parsing is not stable under a round trip through `build_tag_string`:
  `", a"` parses to `[" a"]`, which joins to `" a"`, which parses to `["a"]`
  (`ParseBuildParseDiffers`).

## Model

| member | source | states |
|---|---|---|
| TagStrings.ParseTagString | bookmarks/models.py:17-24 | The method that builds the list of pieces and sorts it in place returns exactly `Parse`: the empty string gives `[]`, otherwise the stripped, split, non-empty pieces, stably sorted by lowercase key |
| TagStrings.ParseBlank | bookmarks/models.py:18-20 | A falsy tag string gives no names. So does a string made only of whitespace. |
| TagStrings.ParseOfStripped | bookmarks/models.py:20 | Stripping first does not change the parse. Only the two ends of the whole string are stripped. |
| TagStrings.ParseNamesClean | bookmarks/models.py:20-21 | Every parsed name is non-empty and does not contain the delimiter |
| TagStrings.DropEmpty | bookmarks/models.py:21 | The filter keeps exactly the non-empty pieces, each with its multiplicity, and changes nothing when no piece is empty |
| TagStrings.DropEmptyKeepsOrder | bookmarks/models.py:21 | The filter keeps the order of the pieces: for every non-empty key, the pieces with that key come out exactly as, and in the order, they went in |
| TagStrings.Pieces | bookmarks/models.py:20-21 | The pieces of the stripped, split string hold no empty name, and each one is a piece of that split |
| TagStrings.Parse | bookmarks/models.py:17-24 | A falsy tag string gives `[]`; otherwise exactly as many names as there are non-empty pieces (order and contents: `ParseSortsPieces`) |
| TagStrings.ParseSortsPieces | bookmarks/models.py:17-22 | For every tag string: the result is a permutation of the non-empty pieces, in non-decreasing lowercase order, and names with the same non-empty key appear in the order they have in the split string |
| TagStrings.ParseIsTheStableSort | bookmarks/models.py:17-22 | For every tag string, any stable sort of the pieces by lowercase key gives `Parse`'s result |
| TagStrings.ParseMixedCase | bookmarks/models.py:22 | `"b,a,C"` parses to `["a","b","C"]`: the order ignores case and each name keeps its own case |
| TagStrings.ParseKeepsInnerSpaces | bookmarks/models.py:20-21 | `" a , ,b "` parses to `[" ","a ","b"]`: spaces next to delimiters stay, and a one-space piece is kept |
| KeySort.Insert | bookmarks/models.py:22 | Inserting one name behind every name whose key is not greater lengthens the list by one (contents: `InsertPermutes`, order: `InsertSorted`, stability: `InsertWithKey`) |
| KeySort.InsertWithKey | bookmarks/models.py:22 | For every key, the inserted name comes after the names already there with that key |
| KeySort.SortByKey | bookmarks/models.py:22 | The functional stable sort keeps the list's length; its contents, order and stability are the lemmas below |
| KeySort.SortInPlace | bookmarks/models.py:22 | The in-place insertion sort leaves the array holding `SortByKey` of its old contents |
| KeySort.InsertInPlace | bookmarks/models.py:22 | Shifting `a[i]` left into the sorted prefix gives `Insert` of it into that prefix and leaves the rest of the array unchanged |
| KeySort.KeyLeIsLowerOrder | bookmarks/models.py:22 | The comparison the sort uses is Python's `<=` on `x.lower()` and `y.lower()` |
| KeySort.SortByKeyPermutes | bookmarks/models.py:22 | Sorting keeps the same names with the same multiplicities |
| KeySort.SortByKeySorted | bookmarks/models.py:22 | The sorted list is non-decreasing under the key |
| KeySort.SortByKeyStable | bookmarks/models.py:22 | For every key, the names with that key keep their relative order |
| KeySort.StableSortUnique | bookmarks/models.py:22 | A sorted list that keeps each key's order is `SortByKey` of its input, so the stable sort's result is unique |
| KeySort.SortByKeyOfSorted | bookmarks/models.py:22 | Sorting a list that is already in key order changes nothing |
| Strings.IsSpaceAscii | bookmarks/models.py:20 | The whitespace `str.strip()` removes includes the ASCII blanks and never the comma, digits or ASCII letters |
| Strings.Lower | bookmarks/models.py:22 | `str.lower` keeps the length, maps each upper-case ASCII letter to its lower-case letter and changes no other character |
| Strings.LowerIgnoresCase | bookmarks/models.py:22 | Two strings that differ only in the case of ASCII letters have the same sort key |
| Strings.LexLe | bookmarks/models.py:22 | Python's `<=` on strings puts a prefix first (totality, transitivity and antisymmetry: `LexLeTotal`, `LexLeTransitive`, `LexLeAntisymmetric`) |
| Strings.LexLeFirstDifference | bookmarks/models.py:22 | Where two strings first differ, the smaller code point decides the order, both ways |
| Strings.Strip | bookmarks/models.py:20 | The result has no whitespace at either end. It is empty iff the input is all whitespace. An input without whitespace at its ends comes back unchanged. |
| Strings.StripPadding | bookmarks/models.py:20 | Whitespace around a core whose ends are not whitespace is exactly what is removed |
| Strings.Split | bookmarks/models.py:20 | `str.split` always gives at least one piece, and the first piece is a prefix of the input |
| Strings.SplitPiecesFree | bookmarks/models.py:20 | No piece of a split contains the separator |
| TagStrings.BuildTagString | bookmarks/models.py:27-28 | A non-empty join starts with the first name (the full layout: `BuildLength`, `BuildLayout`, `BuildDelimiterAfter`) |
| TagStrings.BuildFewNames | bookmarks/models.py:27-28 | Joining no names gives `""`; joining one name gives that name |
| TagStrings.BuildLength | bookmarks/models.py:27-28 | The joined length is the sum of the name lengths plus `(n-1)` delimiters |
| TagStrings.BuildLayout | bookmarks/models.py:27-28 | Name `i` appears at offset (length of the names before it) + `i`·\|delimiter\|: order is preserved |
| TagStrings.BuildDelimiterAfter | bookmarks/models.py:27-28 | The delimiter follows every name except the last |
| TagStrings.BuildEndsWithLast | bookmarks/models.py:27-28 | The joined string ends with the last name |
| TagStrings.BuildSplit | bookmarks/models.py:27-28 | Joining the pieces of a split gives the original string back, for any delimiter |
| TagStrings.SplitBuild | bookmarks/models.py:27-28 | Splitting a join gives the names back, for a one-character delimiter that no name contains |
| TagStrings.SplitBuildLongDelimiter | bookmarks/models.py:27-28 | With the two-character delimiter `"aa"`, names that do not contain it can still fail the split/join round trip |
| TagStrings.ParseBuild | bookmarks/models.py:17-28 | Parsing a join gives the names stably sorted, when the names are non-empty and free of the one-character delimiter and the joined string has no whitespace at its ends |
| TagStrings.ParseBuildSorted | bookmarks/models.py:17-28 | Under the same conditions, names already in key order survive the build/parse round trip exactly |
| TagStrings.ParseBuildParseDiffers | bookmarks/models.py:17-28 | Parse after build after parse can differ from the first parse: `", a"` → `[" a"]` → `["a"]` |
| Bookmarks.ResolvedTitle | bookmarks/models.py:48-50 | A non-empty user title gives exactly that title. An empty one gives exactly the website title, `None` included. A non-empty title results iff one of the two is non-empty. |
| Bookmarks.ResolvedTitleReadsTitles | bookmarks/models.py:48-50 | Two bookmarks with the same title and website title resolve to the same title, whatever their other fields |
| Bookmarks.ResolvedDescription | bookmarks/models.py:52-54 | A non-empty description gives exactly that description. An empty one gives exactly the website description, `None` included. A non-empty result iff one of the two is non-empty. |
| Bookmarks.ResolvedDescriptionReadsDescriptions | bookmarks/models.py:52-54 | Two bookmarks with the same description and website description resolve to the same description |
| Bookmarks.PersistedNames | bookmarks/models.py:61 | One name per related tag, the i-th name being the i-th tag's name |
| Bookmarks.TagNames | bookmarks/models.py:56-61 | With a non-empty tag string: sorted by key, a permutation of its pieces that keeps the typed order of equal keys (so, by `StableSortUnique`, exactly the stable sort `Parse` gives), with non-empty, comma-free names. Otherwise: the related tags' names, in order. |
| Bookmarks.TagNamesFromQuery | bookmarks/models.py:56-61 | When the tag string is the comma-join of the related tags' names, both branches agree up to order: the parse is the names stably sorted, with the same multiset |
| Bookmarks.DisplayString | bookmarks/models.py:63-64 | The display string is the resolved title, `" ("`, the first `min(\|url\|, 30)` characters of the url, and `"...)"`. There is none when the title resolves to none. |
| Bookmarks.DisplayIgnoresUrlTail | bookmarks/models.py:63-64 | Url characters after the 30th never reach the display string |
| Bookmarks.ShortUrlShownWhole | bookmarks/models.py:63-64 | A url of at most 30 characters is shown whole |

## Left out

- The Django model machinery is not part of this model:
  - the ORM fields the derived attributes do not read (`unread`, the dates, `owner`, `tag_count`);
  - `Tag.date_added` and `Tag.owner`;
  - the database and `tags.all()`, modelled as a sequence in the order it is read;
  - `BookmarkForm` and `auto_fill_placeholder`.
- `Tag.__str__` returns the name unchanged. The `Tag` record carries only that name.
- Field length limits (`max_length`) are constraints on storage. No derived attribute depends on them.
- TagStrings.Parse: a `None` tag string is not modelled. The tag string is always a `str`, and `""` is the falsy case.
- TagStrings.Parse: an empty delimiter is excluded by a precondition. Python's `str.split("")` raises `ValueError`.
- Strings.Lower: maps only the ASCII letters A–Z. Python's `str.lower` also lowercases other Unicode letters, so the sort order among non-ASCII names may differ.
- Strings.IsSpace: the whitespace set is Python's `str.isspace` character list, written out. Unicode database updates are not tracked.
- TagStrings.SplitBuild: the round trip is stated for one-character delimiters only. For longer ones it does not hold in general (`SplitBuildLongDelimiter`).
- TagStrings.ParseBuild: stated for one-character delimiters only, like `SplitBuild`. The names must be non-empty, and the joined string must have no whitespace at its two ends. Without these conditions the round trip does not hold (`ParseBuildParseDiffers`).
- Bookmarks.DisplayString: when the title resolves to `None`, Python raises `TypeError` on `None + str`. The model returns `None` instead.
- Bookmarks.TagNames: how a query fills `tag_string` is outside the model. `TagNamesFromQuery` takes the comma-join of the related names as a hypothesis.
